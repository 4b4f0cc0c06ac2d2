/** Creating a peer: the reservation of its console port until vagrant has it, and the directory
    that the flow makes and, when it fails, removes. */
module PeerCreation {
  import opened Sequences
  import opened Text
  import opened PortAllocator

  // ---------------------------------------------------------------- the state

  /** A peer directory. `born` tells directories of the same name apart, as an inode number would;
      `config` is the port in its vagrant-subutai.yml. */
  datatype Dir = Dir(born: nat, config: Option<nat>)

  /** A flow whose init is running: it captured its directory and its port. */
  datatype Flow = Flow(name: string, born: nat, port: nat)

  datatype Reason = OldStatus(status: string) | OwnFailure(born: nat)

  datatype Removal = Removal(dir: Dir, reason: Reason)

  /** `timers` holds the port that each pending timer captured. `births`, `removed`, `failed`,
      `ready` and `abandoned` record what happened; `ready` maps a directory whose init succeeded to
      its port and to whether its configuration file could be opened. */
  datatype World = World(dirs: map<string, Dir>, reserved: set<nat>, timers: seq<nat>, flows: seq<Flow>,
                         births: nat, removed: seq<Removal>, failed: set<nat>, ready: map<nat, (nat, bool)>,
                         abandoned: set<nat>)

  /** One press of "create" and everything it learns from outside. */
  datatype Press = Press(name: string, status: string, invalid: bool, canMake: bool,
                         requirements: seq<bool>, global: SystemCallResult, portTexts: seq<string>)

  // ---------------------------------------------------------------- the operations on values

  function Dropped(w: World, name: string, reason: Reason): World
    requires name in w.dirs
  {
    w.(dirs := w.dirs - {name}, removed := w.removed + [Removal(w.dirs[name], reason)])
  }

  /** check_configurations looks for an old directory before it looks at the input. */
  function Checked(w: World, p: Press): World
  {
    if p.name in w.dirs && p.status == "not_created" then Dropped(w, p.name, OldStatus(p.status)) else w
  }

  function Made(w: World, name: string): World
  {
    w.(dirs := w.dirs[name := Dir(w.births, None)], births := w.births + 1)
  }

  predicate AllMet(requirements: seq<bool>) { forall i :: 0 <= i < |requirements| ==> requirements[i] }

  /** How far a press gets. */
  predicate MakesDir(w: World, p: Press) { !p.invalid && p.canMake && p.name !in Checked(w, p).dirs }

  predicate Reserves(w: World, p: Press) { MakesDir(w, p) && AllMet(p.requirements) }

  function Reserved(w: World, name: string, born: nat, port: nat): World
  {
    w.(reserved := w.reserved + {port}, timers := w.timers + [port], flows := w.flows + [Flow(name, born, port)])
  }

  /** create_button_pressed; `port` is what reserve_new_port gave, if it came to that. */
  function Pressed(w: World, p: Press, port: nat): World
  {
    var w1 := Checked(w, p);
    if !MakesDir(w, p) then w1
    else
      var w2 := Made(w1, p.name);
      if !AllMet(p.requirements) then Dropped(w2, p.name, OwnFailure(w.births)).(failed := w.failed + {w.births})
      else Reserved(w2, p.name, w.births, port)
  }

  /** init_completed of flow k. */
  function Completed(w: World, k: nat, ok: bool, canOpen: bool): World
    requires k < |w.flows|
  {
    var f := w.flows[k];
    var w1 := w.(flows := Without(w.flows, k));
    if !ok then
      var w2 := w1.(failed := w.failed + {f.born});
      if f.name in w.dirs then Dropped(w2, f.name, OwnFailure(f.born)) else w2
    else
      var written := canOpen && f.name in w.dirs;
      w1.(ready := w.ready[f.born := (f.port, written)],
          dirs := if written then w.dirs[f.name := w.dirs[f.name].(config := Some(f.port))] else w.dirs)
  }

  /** The dialog of flow k is closed during init: it is deleted, and with it the worker, its child,
      so that init_completed never runs. Directory and reservation stay. */
  function Abandoned(w: World, k: nat): World
    requires k < |w.flows|
  {
    w.(flows := Without(w.flows, k), abandoned := w.abandoned + {w.flows[k].born})
  }

  function Fired(w: World, k: nat): World
    requires k < |w.timers|
  {
    w.(reserved := w.reserved - {w.timers[k]}, timers := Without(w.timers, k))
  }

  /** The press gets through: valid input, a name that is free or whose directory vagrant does not
      know, a file system that allows it, and every requirement met. */
  predicate GetsThrough(w: World, p: Press)
  {
    && !p.invalid && p.canMake
    && (p.name in w.dirs ==> p.status == "not_created")
    && forall j :: 0 <= j < |p.requirements| ==> p.requirements[j]
  }

  /** Main result. What a press leaves behind, all its steps taken together. If it gets through,
      there is one new directory of that name, without configuration, and one flow, timer and
      reservation for it. If not, then no flow, timer or reservation; and the name is free, unless
      it was taken by a directory that vagrant knows, which is then untouched. No other directory
      is touched in either case. */
  lemma PressNetEffect(w: World, p: Press, port: nat)
    ensures Reserves(w, p) <==> GetsThrough(w, p)
    ensures var w' := Pressed(w, p, port);
      if GetsThrough(w, p) then
        && w'.dirs == w.dirs[p.name := Dir(w.births, None)] && w'.flows == w.flows + [Flow(p.name, w.births, port)]
        && w'.timers == w.timers + [port] && w'.reserved == w.reserved + {port}
      else
        && w'.dirs == (if p.name in w.dirs && p.status != "not_created" then w.dirs else w.dirs - {p.name})
        && w'.flows == w.flows && w'.timers == w.timers && w'.reserved == w.reserved
  {
    assert p.name !in w.dirs ==> w.dirs - {p.name} == w.dirs;
    var bare := w.dirs - {p.name};
    assert bare[p.name := Dir(w.births, None)] == w.dirs[p.name := Dir(w.births, None)];
    assert bare[p.name := Dir(w.births, None)] - {p.name} == bare;
  }

  /** The end of an init: a failed one leaves no directory of the name, a successful one writes the
      flow's port into the configuration of what is there under the name, if that can be opened. */
  lemma InitNetEffect(w: World, k: nat, ok: bool, canOpen: bool)
    requires k < |w.flows|
    ensures var w', f := Completed(w, k, ok, canOpen), w.flows[k];
      && w'.flows == w.flows[..k] + w.flows[k + 1..] && w'.timers == w.timers && w'.reserved == w.reserved
      && (forall n :: n != f.name ==> (n in w'.dirs <==> n in w.dirs) && (n in w.dirs ==> w'.dirs[n] == w.dirs[n]))
      && (f.name in w'.dirs <==> ok && f.name in w.dirs)
      && (ok && f.name in w.dirs ==>
           w'.dirs[f.name].config == if canOpen then Some(f.port) else w.dirs[f.name].config)
  {
  }

  // ---------------------------------------------------------------- the object

  class PeerHost {
    var dirs: map<string, Dir>
    var reservedPorts: set<nat>
    ghost var timers: seq<nat>
    ghost var flows: seq<Flow>
    var births: nat
    ghost var removed: seq<Removal>
    ghost var failed: set<nat>
    ghost var ready: map<nat, (nat, bool)>
    ghost var abandoned: set<nat>

    ghost function View(): World
      reads this
    {
      World(dirs, reservedPorts, timers, flows, births, removed, failed, ready, abandoned)
    }

    method RemoveRecursively(name: string, ghost reason: Reason)
      requires name in dirs
      modifies this`dirs, this`removed
      ensures View() == Dropped(old(View()), name, reason)
    {
      removed := removed + [Removal(dirs[name], reason)];
      dirs := dirs - {name};
    }

    method CheckConfigurations(p: Press) returns (errorsExist: bool)
      modifies this`dirs, this`removed
      ensures View() == Checked(old(View()), p) && errorsExist == p.invalid
    {
      if p.name in dirs {
        if p.status == "not_created" {
          RemoveRecursively(p.name, OldStatus(p.status));
        }
      }
      errorsExist := p.invalid;
    }

    /** QDir::mkdir fails on an existing directory. */
    method PeerDir(name: string, canMake: bool) returns (made: bool)
      modifies this`dirs, this`births
      ensures made == (canMake && name !in old(dirs))
      ensures View() == if made then Made(old(View()), name) else old(View())
    {
      if !canMake || name in dirs {
        return false;
      }
      dirs := dirs[name := Dir(births, None)];
      births := births + 1;
      return true;
    }

    /** Stops at the first requirement that is not met. */
    method CheckMachine(requirements: seq<bool>) returns (ok: bool, checked: nat)
      ensures ok <==> forall j :: 0 <= j < |requirements| ==> requirements[j]
      ensures checked <= |requirements| && forall j :: 0 <= j < checked - 1 ==> requirements[j]
      ensures !ok ==> checked > 0 && !requirements[checked - 1]
    {
      var i := 0;
      checked := 0;
      while i < |requirements|
        invariant i <= |requirements| && checked == i
        invariant forall j :: 0 <= j < i ==> requirements[j]
      {
        checked := i + 1;
        if !requirements[i] {
          break;
        }
        i := i + 1;
      }
      ok := i == |requirements|;
    }

    method CreateButtonPressed(p: Press) returns (port: nat)
      modifies this
      ensures View() == Pressed(old(View()), p, port)
      ensures Reserves(old(View()), p) ==>
        FirstGap({FIRST_PORT - 1} + UsedPorts(p.global, p.portTexts, old(reservedPorts)), port)
    {
      port := 0;
      var errors := CheckConfigurations(p);
      if errors {
        return;
      }
      ghost var born := births;
      var made := PeerDir(p.name, p.canMake);
      if !made {
        return;
      }
      var ready, _ := CheckMachine(p.requirements);
      if !ready {
        RemoveRecursively(p.name, OwnFailure(born));
        failed := failed + {born};
        return;
      }
      port := ReserveNewPort(p.global, p.portTexts, reservedPorts);
      reservedPorts := reservedPorts + {port};
      timers := timers + [port];
      flows := flows + [Flow(p.name, born, port)];
    }

    /** The timer holds nothing but its port. */
    method TimerFired(ghost k: nat, port: nat)
      requires k < |timers| && timers[k] == port
      modifies this`reservedPorts, this`timers
      ensures View() == Fired(old(View()), k)
    {
      reservedPorts := reservedPorts - {port};
      timers := Without(timers, k);
    }

    /** Closing a create dialog touches neither directories nor reservations. */
    method DialogClosed(ghost k: nat)
      requires k < |flows|
      modifies this`flows, this`abandoned
      ensures View() == Abandoned(old(View()), k)
    {
      abandoned := abandoned + {flows[k].born};
      flows := Without(flows, k);
    }

    method InitCompleted(ghost k: nat, name: string, port: nat, ok: bool, canOpen: bool)
      requires k < |flows| && flows[k].name == name && flows[k].port == port
      modifies this
      ensures View() == Completed(old(View()), k, ok, canOpen)
    {
      ghost var f := flows[k];
      flows := Without(flows, k);
      if !ok {
        failed := failed + {f.born};
        if name in dirs {
          RemoveRecursively(name, OwnFailure(f.born));
        }
        return;
      }
      ready := ready[f.born := (port, canOpen && name in dirs)];
      if canOpen && name in dirs {
        dirs := dirs[name := dirs[name].(config := Some(port))];
      }
    }
  }
}
