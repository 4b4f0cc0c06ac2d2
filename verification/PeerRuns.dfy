/** Runs of peer creation: any number of flows, their timers, and other actors on the directories. */
module PeerRuns {
  import opened Sequences
  import opened Text
  import opened PortAllocator
  import opened PeerCreation

  datatype Step =
    | Create(p: Press, port: nat)
    | InitDone(k: nat, ok: bool, canOpen: bool)
    | Fire(k: nat)
    | Abandon(k: nat)
    | Outside(name: string, dir: Option<Dir>)

  /** Directories below `start` were made by others: before the run, or beside it. */
  ghost predicate CanStep(w: World, s: Step, start: nat)
  {
    match s
    case Create(p, port) =>
      Reserves(w, p) ==> FirstGap({FIRST_PORT - 1} + UsedPorts(p.global, p.portTexts, w.reserved), port)
    case InitDone(k, _, _) => k < |w.flows|
    case Fire(k) => k < |w.timers|
    case Abandon(k) => k < |w.flows|
    case Outside(_, dir) => dir.Some? ==> dir.value.born < start
  }

  ghost function Next(w: World, s: Step, start: nat): World
    requires CanStep(w, s, start)
  {
    match s
    case Create(p, port) => Pressed(w, p, port)
    case InitDone(k, ok, canOpen) => Completed(w, k, ok, canOpen)
    case Fire(k) => Fired(w, k)
    case Abandon(k) => Abandoned(w, k)
    case Outside(name, dir) => w.(dirs := if dir.Some? then w.dirs[name := dir.value] else w.dirs - {name})
  }

  ghost predicate Initial(w: World, start: nat)
  {
    && w.births == start && (forall n :: n in w.dirs ==> w.dirs[n].born < start)
    && w.reserved == {} && w.timers == [] && w.flows == [] && w.removed == [] && w.failed == {} && w.ready == map[]
    && w.abandoned == {}
  }

  ghost predicate Run(ws: seq<World>, steps: seq<Step>, start: nat)
  {
    && |ws| == |steps| + 1 && Initial(ws[0], start)
    && forall i :: 0 <= i < |steps| ==> CanStep(ws[i], steps[i], start) && ws[i + 1] == Next(ws[i], steps[i], start)
  }

  // ---------------------------------------------------------------- ports

  /** The reserved ports are those of the pending timers, each held by one timer. */
  ghost predicate PortsExact(w: World)
  {
    && (forall p :: p in w.reserved <==> p in w.timers)
    && Distinct(w.timers)
    && (forall p :: p in w.timers ==> p >= FIRST_PORT)
  }

  /** What a press reserves is the least port from 9999 up that is free, and it is new. */
  lemma ReservesLeastFree(w: World, p: Press, port: nat)
    requires PortsExact(w)
    requires FirstGap({FIRST_PORT - 1} + UsedPorts(p.global, p.portTexts, w.reserved), port)
    ensures LeastFree(UsedPorts(p.global, p.portTexts, w.reserved), port) && port !in w.timers
  {
    LeastFreeIffNoHoleBelow(UsedPorts(p.global, p.portTexts, w.reserved), port);
  }

  lemma PressPorts(w: World, p: Press, port: nat)
    ensures var w' := Pressed(w, p, port);
      if Reserves(w, p) then w'.reserved == w.reserved + {port} && w'.timers == w.timers + [port]
      else w'.reserved == w.reserved && w'.timers == w.timers
  {
  }

  lemma StepKeepsPorts(w: World, s: Step, start: nat)
    requires PortsExact(w) && CanStep(w, s, start)
    ensures PortsExact(Next(w, s, start))
  {
    match s
    case Create(p, port) =>
      PressPorts(w, p, port);
      if Reserves(w, p) { ReservesLeastFree(w, p, port); }
    case Fire(k) =>
      forall p | p in w.timers && p != w.timers[k] ensures p in Without(w.timers, k) { OthersStayPending(w.timers, k, p); }
      assert w.timers[k] !in Without(w.timers, k);
    case InitDone(_, _, _) =>
    case Abandon(_) =>
    case Outside(_, _) =>
  }

  /** Main result. In every run reserved_ports is exactly the set of ports of the pending timers,
      no two pending timers hold the same port, and every reserved port is at least 9999. */
  lemma {:induction false} PortsStayExact(ws: seq<World>, steps: seq<Step>, start: nat, i: nat)
    requires Run(ws, steps, start) && i < |ws|
    ensures PortsExact(ws[i])
  {
    if i > 0 {
      PortsStayExact(ws, steps, start, i - 1);
      StepKeepsPorts(ws[i - 1], steps[i - 1], start);
    }
  }

  /** A timer releases its own reservation and no other. */
  lemma TimerReleasesItsOwn(ws: seq<World>, steps: seq<Step>, start: nat, i: nat)
    requires Run(ws, steps, start) && i < |steps| && steps[i].Fire?
    ensures var k := steps[i].k;
      && k < |ws[i].timers| && ws[i].timers[k] in ws[i].reserved && ws[i].timers[k] !in ws[i + 1].reserved
      && forall j :: 0 <= j < |ws[i].timers| && j != k ==> ws[i].timers[j] in ws[i + 1].reserved
  {
    PortsStayExact(ws, steps, start, i);
  }

  /** Main result. In every run a flow that comes to reserving gets the least port from 9999 up
      that no pending timer holds and no machine reports, at most 9999 plus the number of ports
      reported plus the number of pending timers. */
  lemma EveryPortIsLeastFree(ws: seq<World>, steps: seq<Step>, start: nat, i: nat)
    requires Run(ws, steps, start) && i < |steps| && steps[i].Create? && Reserves(ws[i], steps[i].p)
    ensures var p, port := steps[i].p, steps[i].port;
      && port >= 9999 && port !in ws[i].timers && !Taken(p.global, p.portTexts, {}, port)
      && (forall n :: 9999 <= n < port ==> n in ws[i].timers || Taken(p.global, p.portTexts, {}, n))
      && port <= FIRST_PORT + |VagrantPorts(p.global, p.portTexts)| + |ws[i].timers|
  {
    var w, p, port := ws[i], steps[i].p, steps[i].port;
    PortsStayExact(ws, steps, start, i);
    ReservesLeastFree(w, p, port);
    GivesLeastNotTaken(p.global, p.portTexts, w.reserved, port);
    var used := UsedPorts(p.global, p.portTexts, w.reserved);
    PortBound(used, port);
    var high := set u | u in used && u >= FIRST_PORT;
    SizeOfSubset(high, used);
    SizeOfElements(w.reserved, w.timers);
  }

  lemma {:induction false} SizeOfSubset(a: set<nat>, b: set<nat>)
    requires a <= b
    ensures |a| <= |b|
  {
    assert b == a + (b - a);
  }

  lemma {:induction false} SizeOfElements(s: set<nat>, t: seq<nat>)
    requires forall x :: x in s ==> x in t
    ensures |s| <= |t|
    decreases t
  {
    if t == [] {
      assert s == {};
    } else {
      SizeOfElements(s - {t[0]}, t[1..]);
    }
  }

  /** While the timer of a port is pending, no other flow is given that port. */
  lemma {:induction false} PendingPortIsNotReused(ws: seq<World>, steps: seq<Step>, start: nat, i: nat, j: nat)
    requires Run(ws, steps, start) && i < j < |steps|
    requires steps[i].Create? && Reserves(ws[i], steps[i].p)
    requires forall m :: i < m < j && steps[m].Fire? ==> ws[m].timers[steps[m].k] != steps[i].port
    ensures steps[j].Create? && Reserves(ws[j], steps[j].p) ==> steps[j].port != steps[i].port
  {
    PortStaysPending(ws, steps, start, i, j);
    PortsStayExact(ws, steps, start, j);
    if steps[j].Create? && Reserves(ws[j], steps[j].p) {
      ReservesLeastFree(ws[j], steps[j].p, steps[j].port);
    }
  }

  lemma OthersStayPending(timers: seq<nat>, k: nat, port: nat)
    requires k < |timers| && port in timers && timers[k] != port
    ensures port in Without(timers, k)
  {
    var x :| 0 <= x < |timers| && timers[x] == port;
    assert Without(timers, k)[if x < k then x else x - 1] == port;
  }

  lemma {:induction false} PortStaysPending(ws: seq<World>, steps: seq<Step>, start: nat, i: nat, j: nat)
    requires Run(ws, steps, start) && i < j <= |steps|
    requires steps[i].Create? && Reserves(ws[i], steps[i].p)
    requires forall m :: i < m < j && steps[m].Fire? ==> ws[m].timers[steps[m].k] != steps[i].port
    ensures steps[i].port in ws[j].timers
    decreases j
  {
    var w, s := ws[j - 1], steps[j - 1];
    if i < j - 1 { PortStaysPending(ws, steps, start, i, j - 1); }
    if s.Create? { PressPorts(w, s.p, s.port); }
    if s.Fire? { OthersStayPending(w.timers, s.k, steps[i].port); }
  }

  // ---------------------------------------------------------------- directories in every run

  /** Births number the directories of this program in order; none that was given up is there;
      and the directory of a flow in flight is under no other name than the flow's. */
  ghost predicate Numbered(w: World, start: nat)
  {
    && start <= w.births
    && (forall n :: n in w.dirs ==> w.dirs[n].born < w.births && w.dirs[n].born !in w.failed)
    && (forall b :: b in w.failed || b in w.ready || b in w.abandoned ==> start <= b < w.births)
    && (forall f :: f in w.flows ==> start <= f.born < w.births)
    && (forall f, n :: f in w.flows && n in w.dirs && w.dirs[n].born == f.born ==> n == f.name)
  }

  lemma CheckKeepsNumbers(w: World, p: Press, start: nat)
    requires Numbered(w, start)
    ensures Numbered(Checked(w, p), start)
  {
  }

  lemma MakeKeepsNumbers(w: World, name: string, port: nat, start: nat)
    requires Numbered(w, start) && name !in w.dirs
    ensures Numbered(Reserved(Made(w, name), name, w.births, port), start)
    ensures Numbered(Dropped(Made(w, name), name, OwnFailure(w.births)).(failed := w.failed + {w.births}), start)
  {
  }

  lemma InitKeepsNumbers(w: World, k: nat, ok: bool, canOpen: bool, start: nat)
    requires Numbered(w, start) && k < |w.flows|
    ensures Numbered(Completed(w, k, ok, canOpen), start)
  {
    assert w.flows[k] in w.flows;
  }

  lemma StepKeepsNumbers(w: World, s: Step, start: nat)
    requires Numbered(w, start) && CanStep(w, s, start)
    ensures Numbered(Next(w, s, start), start)
  {
    match s
    case Create(p, port) =>
      CheckKeepsNumbers(w, p, start);
      if MakesDir(w, p) { MakeKeepsNumbers(Checked(w, p), p.name, port, start); }
    case InitDone(k, ok, canOpen) => InitKeepsNumbers(w, k, ok, canOpen, start);
    case Abandon(k) => assert w.flows[k] in w.flows;
    case Fire(_) =>
    case Outside(_, _) =>
  }

  lemma {:induction false} NumbersStayRight(ws: seq<World>, steps: seq<Step>, start: nat, i: nat)
    requires Run(ws, steps, start) && i < |ws|
    ensures Numbered(ws[i], start)
  {
    if i > 0 {
      NumbersStayRight(ws, steps, start, i - 1);
      StepKeepsNumbers(ws[i - 1], steps[i - 1], start);
    }
  }

  /** The directory that step s gives up: of a press that failed its requirements, or of a flow
      whose init failed. */
  function GivenUp(w: World, s: Step): Option<nat>
  {
    match s
    case Create(p, _) => if MakesDir(w, p) && !AllMet(p.requirements) then Some(w.births) else None
    case InitDone(k, ok, _) => if !ok && k < |w.flows| then Some(w.flows[k].born) else None
    case _ => None
  }

  lemma {:induction false} FailedGrows(ws: seq<World>, steps: seq<Step>, start: nat, i: nat, t: nat)
    requires Run(ws, steps, start) && i <= t < |ws|
    ensures ws[i].failed <= ws[t].failed
    decreases t
  {
    if i < t {
      FailedGrows(ws, steps, start, i, t - 1);
      assert ws[t] == Next(ws[t - 1], steps[t - 1], start);
    }
  }

  /** Main result. In every run, whatever the names, a flow that was told that it failed, before
      or during init, never again has a directory of its own. */
  lemma FailuresLeaveNothing(ws: seq<World>, steps: seq<Step>, start: nat, i: nat, t: nat)
    requires Run(ws, steps, start) && i < t < |ws| && GivenUp(ws[i], steps[i]).Some?
    ensures forall n :: n in ws[t].dirs ==> ws[t].dirs[n].born != GivenUp(ws[i], steps[i]).value
  {
    assert ws[i + 1] == Next(ws[i], steps[i], start);
    assert GivenUp(ws[i], steps[i]).value in ws[i + 1].failed;
    FailedGrows(ws, steps, start, i + 1, t);
    NumbersStayRight(ws, steps, start, t);
  }

  // ---------------------------------------------------------------- directories and harmless steps

  ghost predicate InFlight(w: World, name: string)
  {
    exists f :: f in w.flows && f.name == name
  }

  /** A press on the name of a flow in flight is harmless unless the directory has the status
      "not_created"; another actor is harmless on any other name. */
  ghost predicate Harmless(w: World, s: Step)
  {
    && (s.Create? && InFlight(w, s.p.name) ==> s.p.status != "not_created")
    && (s.Outside? ==> !InFlight(w, s.name))
  }

  /** A removed directory had status "not_created", or was made by the very flow that removed it. */
  predicate RemovalRight(r: Removal, start: nat)
  {
    match r.reason
    case OldStatus(status) => status == "not_created"
    case OwnFailure(born) => r.dir.born == born >= start
  }

  /** The directory of a flow in flight is there, is its own, and has no configuration yet. */
  ghost predicate Owns(w: World, f: Flow, start: nat)
  {
    && f.name in w.dirs && w.dirs[f.name] == Dir(f.born, None)
    && start <= f.born && f.born !in w.ready && f.born !in w.abandoned
  }

  /** A directory of this program is in flight; or its init succeeded and its port is in its
      configuration, unless that file could not be opened; or its dialog was closed during init
      and it has no configuration. */
  ghost predicate Explained(w: World, name: string)
    requires name in w.dirs
  {
    var d := w.dirs[name];
    || InFlight(w, name)
    || (d.born in w.ready && d.config == if w.ready[d.born].1 then Some(w.ready[d.born].0) else None)
    || (d.born in w.abandoned && d.config == None)
  }

  ghost predicate FlowsRight(w: World, start: nat)
  {
    && (forall f :: f in w.flows ==> Owns(w, f, start))
    && (forall i, j :: 0 <= i < j < |w.flows| ==> w.flows[i].name != w.flows[j].name)
  }

  ghost predicate DirsRight(w: World, start: nat)
  {
    && Numbered(w, start) && FlowsRight(w, start)
    && (forall n :: n in w.dirs && w.dirs[n].born >= start ==> Explained(w, n))
    && (forall r :: r in w.removed ==> RemovalRight(r, start))
  }

  /** Without flow k: no flow left has its name, and all others are left. */
  lemma FlowsWithout(flows: seq<Flow>, k: nat)
    requires k < |flows| && forall i, j :: 0 <= i < j < |flows| ==> flows[i].name != flows[j].name
    ensures forall f :: f in Without(flows, k) <==> f in flows && f != flows[k]
    ensures forall f :: f in Without(flows, k) ==> f.name != flows[k].name
    ensures var r := Without(flows, k); forall i, j :: 0 <= i < j < |r| ==> r[i].name != r[j].name
  {
    var r := Without(flows, k);
    assert forall i :: 0 <= i < |r| ==> r[i] == flows[if i < k then i else i + 1];
    forall f | f in flows && f != flows[k] ensures f in r {
      var i :| 0 <= i < |flows| && flows[i] == f;
      assert r[if i < k then i else i - 1] == f;
    }
  }

  lemma CheckKeeps(w: World, p: Press, start: nat)
    requires DirsRight(w, start) && !InFlight(w, p.name)
    ensures DirsRight(Checked(w, p), start)
  {
    var w' := Checked(w, p);
    CheckKeepsNumbers(w, p, start);
    assert w'.flows == w.flows;
    forall n | n in w'.dirs && w'.dirs[n].born >= start ensures Explained(w', n) {
      assert Explained(w, n);
    }
  }

  lemma MakeAndReserveKeep(w: World, name: string, port: nat, start: nat)
    requires DirsRight(w, start) && name !in w.dirs
    ensures DirsRight(Reserved(Made(w, name), name, w.births, port), start)
  {
    var w' := Reserved(Made(w, name), name, w.births, port);
    var f := Flow(name, w.births, port);
    MakeKeepsNumbers(w, name, port, start);
    assert w'.flows == w.flows + [f] && f in w'.flows;
    forall g | g in w.flows ensures Owns(w', g, start) && g.name != name {
      assert Owns(w, g, start);
    }
    forall i | 0 <= i < |w.flows| ensures w.flows[i].name != name {
      assert w.flows[i] in w.flows;
    }
    forall n | n in w'.dirs && w'.dirs[n].born >= start ensures Explained(w', n) {
      if n != name { assert Explained(w, n); }
    }
  }

  lemma MakeAndDropKeep(w: World, name: string, start: nat)
    requires DirsRight(w, start) && name !in w.dirs
    ensures DirsRight(Dropped(Made(w, name), name, OwnFailure(w.births)).(failed := w.failed + {w.births}), start)
  {
    var w' := Dropped(Made(w, name), name, OwnFailure(w.births)).(failed := w.failed + {w.births});
    MakeKeepsNumbers(w, name, 0, start);
    assert w'.dirs == w.dirs && w'.flows == w.flows;
    forall n | n in w'.dirs && w'.dirs[n].born >= start ensures Explained(w', n) {
      assert Explained(w, n);
    }
  }

  lemma OthersKeepOwning(w: World, k: nat, f: Flow, ok: bool, canOpen: bool, start: nat)
    requires DirsRight(w, start) && k < |w.flows| && f in w.flows && f.name != w.flows[k].name
    ensures Owns(Completed(w, k, ok, canOpen), f, start) && Owns(Abandoned(w, k), f, start)
  {
    assert w.flows[k] in w.flows;
    assert Owns(w, w.flows[k], start) && Owns(w, f, start);
  }

  lemma InitKeeps(w: World, k: nat, ok: bool, canOpen: bool, start: nat)
    requires DirsRight(w, start) && k < |w.flows|
    ensures DirsRight(Completed(w, k, ok, canOpen), start)
  {
    var f, w' := w.flows[k], Completed(w, k, ok, canOpen);
    assert f in w.flows && Owns(w, f, start);
    InitKeepsNumbers(w, k, ok, canOpen, start);
    FlowsWithout(w.flows, k);
    forall g | g in w'.flows ensures Owns(w', g, start) { OthersKeepOwning(w, k, g, ok, canOpen, start); }
    forall n | n in w'.dirs && w'.dirs[n].born >= start ensures Explained(w', n) {
      assert Explained(w, n);
    }
  }

  lemma AbandonKeeps(w: World, k: nat, start: nat)
    requires DirsRight(w, start) && k < |w.flows|
    ensures DirsRight(Abandoned(w, k), start)
  {
    var f, w' := w.flows[k], Abandoned(w, k);
    assert f in w.flows && Owns(w, f, start);
    FlowsWithout(w.flows, k);
    forall g | g in w'.flows ensures Owns(w', g, start) { OthersKeepOwning(w, k, g, true, true, start); }
    forall n | n in w'.dirs && w'.dirs[n].born >= start ensures Explained(w', n) {
      assert Explained(w, n);
    }
  }

  lemma OutsideKeeps(w: World, name: string, dir: Option<Dir>, start: nat)
    requires DirsRight(w, start) && CanStep(w, Outside(name, dir), start) && !InFlight(w, name)
    ensures DirsRight(Next(w, Outside(name, dir), start), start)
  {
    var w' := Next(w, Outside(name, dir), start);
    StepKeepsNumbers(w, Outside(name, dir), start);
    forall n | n in w'.dirs && w'.dirs[n].born >= start ensures Explained(w', n) {
      assert Explained(w, n);
    }
  }

  lemma FireKeeps(w: World, k: nat, start: nat)
    requires DirsRight(w, start) && k < |w.timers|
    ensures DirsRight(Fired(w, k), start)
  {
    var w' := Fired(w, k);
    forall n | n in w'.dirs && w'.dirs[n].born >= start ensures Explained(w', n) {
      assert Explained(w, n);
    }
  }

  /** A press that is harmless although its name is in flight changes nothing at all. */
  lemma PressInFlight(w: World, p: Press, port: nat, start: nat)
    requires DirsRight(w, start) && InFlight(w, p.name)
    ensures p.status != "not_created" ==> Pressed(w, p, port) == w
    ensures p.status == "not_created" ==> !FlowsRight(Pressed(w, p, port), start)
  {
    var f :| f in w.flows && f.name == p.name;
    assert Owns(w, f, start);
    if p.status == "not_created" {
      var w' := Pressed(w, p, port);
      assert f in w'.flows && !Owns(w', f, start);
    }
  }

  /** A step keeps the directories right if and only if it is harmless. */
  lemma StepKeepsDirsIffHarmless(w: World, s: Step, start: nat)
    requires DirsRight(w, start) && CanStep(w, s, start)
    ensures DirsRight(Next(w, s, start), start) <==> Harmless(w, s)
  {
    match s
    case Create(p, port) =>
      if InFlight(w, p.name) {
        PressInFlight(w, p, port, start);
      } else {
        PressKeeps(w, p, port, start);
      }
    case InitDone(k, ok, canOpen) => InitKeeps(w, k, ok, canOpen, start);
    case Fire(k) => FireKeeps(w, k, start);
    case Abandon(k) => AbandonKeeps(w, k, start);
    case Outside(name, dir) =>
      if InFlight(w, name) {
        var f :| f in w.flows && f.name == name;
        assert Owns(w, f, start) && !Owns(Next(w, s, start), f, start);
      } else {
        OutsideKeeps(w, name, dir, start);
      }
  }

  lemma PressKeeps(w: World, p: Press, port: nat, start: nat)
    requires DirsRight(w, start) && !InFlight(w, p.name)
    ensures DirsRight(Pressed(w, p, port), start)
  {
    CheckKeeps(w, p, start);
    if MakesDir(w, p) {
      if AllMet(p.requirements) {
        MakeAndReserveKeep(Checked(w, p), p.name, port, start);
      } else {
        MakeAndDropKeep(Checked(w, p), p.name, start);
      }
    }
  }

  ghost predicate HarmlessUpTo(ws: seq<World>, steps: seq<Step>, t: nat)
    requires t <= |steps| < |ws|
  {
    forall j :: 0 <= j < t ==> Harmless(ws[j], steps[j])
  }

  lemma {:induction false} HarmlessKeepsDirs(ws: seq<World>, steps: seq<Step>, start: nat, t: nat)
    requires Run(ws, steps, start) && t <= |steps| && HarmlessUpTo(ws, steps, t)
    ensures DirsRight(ws[t], start)
  {
    if t > 0 {
      HarmlessKeepsDirs(ws, steps, start, t - 1);
      StepKeepsDirsIffHarmless(ws[t - 1], steps[t - 1], start);
    }
  }

  /** Main result. The directories are right in every world of a run if and only if every step is
      harmless. They are right when: a directory is only removed because its status was
      "not_created", or by the flow that made it; every flow in flight has its own directory; and
      any other directory that this program made belongs to a flow that completed, with its port
      in the configuration if that could be opened, or to one whose dialog was closed. */
  lemma DirectoriesRightIffHarmless(ws: seq<World>, steps: seq<Step>, start: nat)
    requires Run(ws, steps, start)
    ensures (forall t :: 0 <= t < |ws| ==> DirsRight(ws[t], start))
       <==> (forall j :: 0 <= j < |steps| ==> Harmless(ws[j], steps[j]))
  {
    if forall t :: 0 <= t < |ws| ==> DirsRight(ws[t], start) {
      forall j | 0 <= j < |steps| ensures Harmless(ws[j], steps[j]) {
        assert DirsRight(ws[j], start) && DirsRight(ws[j + 1], start);
        StepKeepsDirsIffHarmless(ws[j], steps[j], start);
      }
    }
    if HarmlessUpTo(ws, steps, |steps|) {
      forall t | 0 <= t < |ws| ensures DirsRight(ws[t], start) { HarmlessKeepsDirs(ws, steps, start, t); }
    }
  }

  /** The program shows one create dialog at a time, and its button is disabled during a flow:
      then only other actors can do harm. */
  ghost predicate OneDialog(w: World, s: Step) { s.Create? ==> w.flows == [] }

  lemma OneDialogIsHarmless(w: World, s: Step)
    requires OneDialog(w, s) && (s.Outside? ==> !InFlight(w, s.name))
    ensures Harmless(w, s)
  {
  }

  // ---------------------------------------------------------------- directories and what happened

  /** The flow was started before step t by a press with valid input and all requirements met. */
  ghost predicate StartedBy(ws: seq<World>, steps: seq<Step>, t: nat, f: Flow)
    requires t <= |steps| < |ws|
  {
    exists i :: 0 <= i < t && steps[i].Create? && !steps[i].p.invalid && AllMet(steps[i].p.requirements)
             && f == Flow(steps[i].p.name, ws[i].births, steps[i].port)
  }

  ghost predicate AllStarted(ws: seq<World>, steps: seq<Step>, t: nat)
    requires t <= |steps| < |ws|
  {
    forall f :: f in ws[t].flows ==> StartedBy(ws, steps, t, f)
  }

  /** The init of such a flow succeeded before step t, for the directory that it had made, and
      wrote the flow's port if the configuration file could be opened. */
  ghost predicate CompletedBy(ws: seq<World>, steps: seq<Step>, t: nat, name: string, d: Dir)
    requires t <= |steps| < |ws|
  {
    exists j :: 0 <= j < t && steps[j].InitDone? && steps[j].ok && steps[j].k < |ws[j].flows|
             && StartedBy(ws, steps, j, ws[j].flows[steps[j].k])
             && EndsAs(ws[j].flows[steps[j].k], steps[j].canOpen, name, d)
  }

  /** The dialog of such a flow was closed before step t, during its init. */
  ghost predicate AbandonedBy(ws: seq<World>, steps: seq<Step>, t: nat, name: string, d: Dir)
    requires t <= |steps| < |ws|
  {
    exists j :: 0 <= j < t && steps[j].Abandon? && steps[j].k < |ws[j].flows|
             && StartedBy(ws, steps, j, ws[j].flows[steps[j].k])
             && EndsAs(ws[j].flows[steps[j].k], false, name, d)
  }

  predicate EndsAs(f: Flow, written: bool, name: string, d: Dir)
  {
    f.name == name && d == Dir(f.born, if written then Some(f.port) else None)
  }

  ghost predicate Accounted(ws: seq<World>, steps: seq<Step>, t: nat, name: string)
    requires t <= |steps| < |ws| && name in ws[t].dirs
  {
    || InFlight(ws[t], name)
    || CompletedBy(ws, steps, t, name, ws[t].dirs[name])
    || AbandonedBy(ws, steps, t, name, ws[t].dirs[name])
  }

  lemma FlowsAfterStep(ws: seq<World>, steps: seq<Step>, start: nat, t: nat)
    requires Run(ws, steps, start) && t < |steps| && AllStarted(ws, steps, t)
    ensures AllStarted(ws, steps, t + 1)
  {
    var w, w', s := ws[t], ws[t + 1], steps[t];
    forall f | f in w'.flows ensures StartedBy(ws, steps, t + 1, f) {
      if f in w.flows {
        var i :| 0 <= i < t && steps[i].Create? && !steps[i].p.invalid && AllMet(steps[i].p.requirements)
               && f == Flow(steps[i].p.name, ws[i].births, steps[i].port);
      } else {
        assert s.Create? && f == Flow(s.p.name, w.births, s.port);
      }
    }
  }

  /** A directory after a press: it was there before, or its flow is in flight. */
  lemma DirsAfterCreate(w: World, p: Press, port: nat, n: string)
    requires n in Pressed(w, p, port).dirs
    ensures var w' := Pressed(w, p, port);
      (n in w.dirs && w'.dirs[n] == w.dirs[n] && (InFlight(w, n) ==> InFlight(w', n))) || InFlight(w', n)
  {
    var w' := Pressed(w, p, port);
    if Reserves(w, p) { assert Flow(p.name, w.births, port) in w'.flows; }
    if InFlight(w, n) {
      var f :| f in w.flows && f.name == n;
      assert f in w'.flows;
    }
  }

  lemma AccountedAfterStep(ws: seq<World>, steps: seq<Step>, start: nat, t: nat, n: string)
    requires Run(ws, steps, start) && t < |steps| && DirsRight(ws[t], start) && AllStarted(ws, steps, t)
    requires n in ws[t + 1].dirs && ws[t + 1].dirs[n].born >= start
    requires n in ws[t].dirs && ws[t].dirs[n].born >= start ==> Accounted(ws, steps, t, n)
    ensures Accounted(ws, steps, t + 1, n)
  {
    var w, w', s := ws[t], ws[t + 1], steps[t];
    if s.Create? {
      DirsAfterCreate(w, s.p, s.port, n);
    } else if s.InitDone? || s.Abandon? {
      var f := w.flows[s.k];
      assert f in w.flows && Owns(w, f, start);
      FlowsWithout(w.flows, s.k);
      if n == f.name {
        assert EndsAs(f, s.InitDone? && s.canOpen, n, w'.dirs[n]);
      }
    }
  }

  /** Main result. In every run of harmless steps, a directory that this program made and that no
      flow in flight uses was made by a press with valid input whose requirements were all met.
      Then its init succeeded, and its configuration holds the port that was reserved for it
      unless the file could not be opened; or its dialog was closed during init. */
  lemma {:induction false} SurvivorsAreAccounted(ws: seq<World>, steps: seq<Step>, start: nat, t: nat)
    requires Run(ws, steps, start) && t <= |steps| && HarmlessUpTo(ws, steps, t)
    ensures AllStarted(ws, steps, t)
    ensures forall n :: n in ws[t].dirs && ws[t].dirs[n].born >= start ==> Accounted(ws, steps, t, n)
  {
    if t > 0 {
      SurvivorsAreAccounted(ws, steps, start, t - 1);
      HarmlessKeepsDirs(ws, steps, start, t - 1);
      FlowsAfterStep(ws, steps, start, t - 1);
      forall n | n in ws[t].dirs && ws[t].dirs[n].born >= start ensures Accounted(ws, steps, t, n) {
        AccountedAfterStep(ws, steps, start, t - 1, n);
      }
    }
  }

  // ---------------------------------------------------------------- directories that no flow uses

  /** The directory that was made as number `born` is there under its name. */
  predicate There(w: World, name: string, born: nat) { name in w.dirs && w.dirs[name].born == born }

  /** A step that takes the directory of that name away: a press that finds it with status
      "not_created", or another actor. */
  predicate Takes(s: Step, name: string)
  {
    (s.Create? && s.p.name == name && s.p.status == "not_created") || (s.Outside? && s.name == name)
  }

  /** Directory d was made by this program under this name, and no flow uses it any more. */
  ghost predicate Left(w: World, name: string, d: Dir, start: nat, untaken: bool)
  {
    && start <= d.born < w.births && (forall f :: f in w.flows ==> f.born != d.born)
    && (There(w, name, d.born) <==> untaken) && (untaken ==> w.dirs[name] == d)
  }

  lemma LeftWhenUnused(w: World, name: string, start: nat)
    requires Numbered(w, start) && name in w.dirs && w.dirs[name].born >= start && !InFlight(w, name)
    ensures Left(w, name, w.dirs[name], start, true)
  {
  }

  lemma LeftAfterStep(w: World, s: Step, start: nat, name: string, d: Dir, untaken: bool)
    requires DirsRight(w, start) && CanStep(w, s, start) && Left(w, name, d, start, untaken)
    ensures Left(Next(w, s, start), name, d, start, untaken && !Takes(s, name))
  {
    if s.Create? {
      PressNetEffect(w, s.p, s.port);
    } else if s.InitDone? {
      var g := w.flows[s.k];
      assert g in w.flows && Owns(w, g, start);
      assert untaken ==> g.name != name;
    }
  }

  /** No step from i on and before t takes the directory of that name away. */
  ghost predicate Untaken(steps: seq<Step>, i: nat, t: nat, name: string)
    requires t <= |steps|
  {
    forall m :: i <= m < t ==> !Takes(steps[m], name)
  }

  lemma LeftOneMoreStep(ws: seq<World>, steps: seq<Step>, start: nat, i: nat, t: nat, name: string, d: Dir)
    requires Run(ws, steps, start) && i < t <= |steps| && HarmlessUpTo(ws, steps, t)
    requires Left(ws[t - 1], name, d, start, Untaken(steps, i, t - 1, name))
    ensures Left(ws[t], name, d, start, Untaken(steps, i, t, name))
  {
    HarmlessKeepsDirs(ws, steps, start, t - 1);
    LeftAfterStep(ws[t - 1], steps[t - 1], start, name, d, Untaken(steps, i, t - 1, name));
    assert Untaken(steps, i, t, name) <==> Untaken(steps, i, t - 1, name) && !Takes(steps[t - 1], name);
  }

  /** Main result. In every run of harmless steps, a directory that this program made and no flow
      uses is still there, unchanged, if and only if no later press on its name has found it with
      status "not_created" and no other actor has taken it away. */
  lemma {:induction false} StaysUntilTaken(ws: seq<World>, steps: seq<Step>, start: nat, i: nat, t: nat, name: string)
    requires Run(ws, steps, start) && i <= t <= |steps| && HarmlessUpTo(ws, steps, t)
    requires name in ws[i].dirs && ws[i].dirs[name].born >= start && !InFlight(ws[i], name)
    ensures Left(ws[t], name, ws[i].dirs[name], start, Untaken(steps, i, t, name))
    decreases t
  {
    var d := ws[i].dirs[name];
    if i == t {
      NumbersStayRight(ws, steps, start, i);
      LeftWhenUnused(ws[i], name, start);
    } else {
      StaysUntilTaken(ws, steps, start, i, t - 1, name);
      LeftOneMoreStep(ws, steps, start, i, t, name, d);
    }
  }

  lemma LeftAtFirst(w: World, s: Step, start: nat)
    requires DirsRight(w, start) && CanStep(w, s, start) && (s.Abandon? || (s.InitDone? && s.ok))
    ensures var f, w' := w.flows[s.k], Next(w, s, start);
      && f.name in w'.dirs && w'.dirs[f.name] == Dir(f.born, if s.InitDone? && s.canOpen then Some(f.port) else None)
      && f.born >= start && !InFlight(w', f.name)
  {
    assert w.flows[s.k] in w.flows && Owns(w, w.flows[s.k], start);
    FlowsWithout(w.flows, s.k);
  }

  /** So the directory of a flow whose dialog was closed during init, without a configuration. */
  lemma AbandonedStaysUntilTaken(ws: seq<World>, steps: seq<Step>, start: nat, i: nat, t: nat)
    requires Run(ws, steps, start) && i < t <= |steps| && HarmlessUpTo(ws, steps, t)
    requires steps[i].Abandon? && steps[i].k < |ws[i].flows|
    ensures var f := ws[i].flows[steps[i].k];
      && (There(ws[t], f.name, f.born) <==> Untaken(steps, i + 1, t, f.name))
      && (There(ws[t], f.name, f.born) ==> ws[t].dirs[f.name].config == None)
  {
    HarmlessKeepsDirs(ws, steps, start, i);
    LeftAtFirst(ws[i], steps[i], start);
    StaysUntilTaken(ws, steps, start, i + 1, t, ws[i].flows[steps[i].k].name);
  }

  /** And so the directory of a flow whose init succeeded, with the port that was reserved for it
      in its configuration if that could be opened. */
  lemma PeerStaysUntilTaken(ws: seq<World>, steps: seq<Step>, start: nat, i: nat, t: nat)
    requires Run(ws, steps, start) && i < t <= |steps| && HarmlessUpTo(ws, steps, t)
    requires steps[i].InitDone? && steps[i].ok && steps[i].k < |ws[i].flows|
    ensures var f := ws[i].flows[steps[i].k];
      && (There(ws[t], f.name, f.born) <==> Untaken(steps, i + 1, t, f.name))
      && (There(ws[t], f.name, f.born) ==>
           ws[t].dirs[f.name].config == if steps[i].canOpen then Some(f.port) else None)
  {
    HarmlessKeepsDirs(ws, steps, start, i);
    LeftAtFirst(ws[i], steps[i], start);
    StaysUntilTaken(ws, steps, start, i + 1, t, ws[i].flows[steps[i].k].name);
  }

  /** A press that gets through, on a name whose directory, if any, has status "not_created". */
  lemma PressGoesThrough(w: World, p: Press, port: nat)
    requires p.status == "not_created" && !p.invalid && p.canMake && AllMet(p.requirements)
    ensures Reserves(w, p)
    ensures var w' := Pressed(w, p, port);
      && w'.dirs == w.dirs[p.name := Dir(w.births, None)] && w'.births == w.births + 1
      && w'.flows == w.flows + [Flow(p.name, w.births, port)] && w'.reserved == w.reserved + {port}
      && w'.removed == w.removed + (if p.name in w.dirs then [Removal(w.dirs[p.name], OldStatus("not_created"))] else [])
      && w'.abandoned == w.abandoned
  {
    assert w.dirs - {p.name} + map[p.name := Dir(w.births, None)] == w.dirs[p.name := Dir(w.births, None)];
  }

  /** With one dialog at a time: close it during init and press again on the same name, of which
      vagrant does not know yet. The directory is removed under the init that still runs. */
  lemma InitLosesItsDirectory(p: Press, first: nat, second: nat) returns (ws: seq<World>, steps: seq<Step>)
    requires p.status == "not_created" && !p.invalid && p.canMake && AllMet(p.requirements)
    requires LeastFree(UsedPorts(p.global, p.portTexts, {}), first)
    requires LeastFree(UsedPorts(p.global, p.portTexts, {first}), second)
    ensures Run(ws, steps, 0) && steps == [Create(p, first), Abandon(0), Create(p, second)]
    ensures forall j :: 0 <= j < |steps| ==> OneDialog(ws[j], steps[j])
    ensures var w := ws[|steps|];
      && w.abandoned == {0} && w.removed == [Removal(Dir(0, None), OldStatus("not_created"))]
      && w.dirs == map[p.name := Dir(1, None)] && w.flows == [Flow(p.name, 1, second)]
  {
    var w0 := World(map[], {}, [], [], 0, [], {}, map[], {});
    steps := [Create(p, first), Abandon(0), Create(p, second)];
    LeastFreeIsGap(UsedPorts(p.global, p.portTexts, {}), first);
    LeastFreeIsGap(UsedPorts(p.global, p.portTexts, {first}), second);
    PressGoesThrough(w0, p, first);
    var w1 := Next(w0, steps[0], 0);
    assert w1.reserved == {first} && w1.flows == [Flow(p.name, 0, first)];
    var w2 := Next(w1, steps[1], 0);
    assert w2.flows == [] && w2.reserved == {first};
    PressGoesThrough(w2, p, second);
    var w3 := Next(w2, steps[2], 0);
    ws := [w0, w1, w2, w3];
  }
}
