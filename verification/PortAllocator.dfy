/** DlgCreatePeer::reserve_new_port: sort the ports in use and take the first gap. */
module PortAllocator {
  import opened Text

  const FIRST_PORT: nat := 9999

  /** What "vagrant global-status" answered. */
  datatype SystemCallResult = SystemCallResult(success: bool, exitCode: int, out: seq<string>)

  /** QString::remove of everything that is not a digit. */
  function DigitsOf(s: string): (d: string)
    ensures forall c :: c in d ==> Digit(c)
  {
    if s == "" then "" else (if Digit(s[0]) then [s[0]] else "") + DigitsOf(s[1..])
  }

  /** toInt of digits alone: never negative, 0 when there are none or too many. */
  function PortOf(s: string): nat
  {
    var d := DigitsOf(s);
    assert d != "" ==> d[0] in d && Digit(d[0]);
    ToInt(d)
  }

  lemma {:induction false} DigitsOfConcat(a: string, b: string)
    ensures DigitsOf(a + b) == DigitsOf(a) + DigitsOf(b)
  {
    if a == "" {
      assert a + b == b;
    } else {
      assert (a + b)[1..] == a[1..] + b;
      DigitsOfConcat(a[1..], b);
    }
  }

  lemma {:induction false} DigitsOfDigits(s: string)
    ensures (forall c :: c in s ==> Digit(c)) ==> DigitsOf(s) == s
    ensures (forall c :: c in s ==> !Digit(c)) ==> DigitsOf(s) == ""
  {
    if s != "" {
      DigitsOfDigits(s[1..]);
      assert s == [s[0]] + s[1..] && s[0] in s;
    }
  }

  /** A port is read back from its text, whatever stands around it that is not a digit. */
  lemma PortOfText(before: string, port: nat, after: string)
    requires (forall c :: c in before ==> !Digit(c)) && (forall c :: c in after ==> !Digit(c))
    ensures PortOf(before + (Decimal(port) + after)) == if port <= MAX_INT then port else 0
  {
    DigitsOfConcat(before, Decimal(port) + after);
    DigitsOfConcat(Decimal(port), after);
    DigitsOfDigits(before);
    DigitsOfDigits(Decimal(port));
    DigitsOfDigits(after);
    assert DigitsOf(before + (Decimal(port) + after)) == Decimal(port);
    ToIntOfDecimal(port);
  }

  /** The ports of the listed machines, as far as they are at least 9999; none if the call failed. */
  function VagrantPorts(rs: SystemCallResult, texts: seq<string>): set<nat>
  {
    if rs.success && rs.exitCode == 0 && rs.out != [] then HighPorts(texts) else {}
  }

  function HighPorts(texts: seq<string>): set<nat>
  {
    set text | text in texts && PortOf(text) >= FIRST_PORT :: PortOf(text)
  }

  function UsedPorts(rs: SystemCallResult, texts: seq<string>, reserved: set<nat>): set<nat>
  {
    VagrantPorts(rs, texts) + reserved
  }

  // ---------------------------------------------------------------- std::sort

  predicate Sorted(s: seq<nat>) { forall i, j :: 0 <= i < j < |s| ==> s[i] <= s[j] }

  function Insert(x: nat, s: seq<nat>): seq<nat>
  {
    if s == [] || x <= s[0] then [x] + s else [s[0]] + Insert(x, s[1..])
  }

  function Sort(s: seq<nat>): seq<nat>
  {
    if s == [] then [] else Insert(s[0], Sort(s[1..]))
  }

  lemma {:induction false} InsertPermutes(x: nat, s: seq<nat>)
    ensures multiset(Insert(x, s)) == multiset(s) + multiset{x}
  {
    if s != [] && x > s[0] {
      InsertPermutes(x, s[1..]);
      assert s == [s[0]] + s[1..];
    }
  }

  lemma {:induction false} InsertSorts(x: nat, s: seq<nat>)
    requires Sorted(s)
    ensures Sorted(Insert(x, s))
    ensures s != [] ==> Insert(x, s)[0] == if x <= s[0] then x else s[0]
  {
    if s != [] && x > s[0] {
      InsertSorts(x, s[1..]);
      var r := Insert(x, s[1..]);
      assert r != [];
      forall j | 0 <= j < |r| ensures s[0] <= r[j] {
        assert r[0] <= r[j];
      }
    }
  }

  lemma {:induction false} SortSorts(s: seq<nat>)
    ensures Sorted(Sort(s)) && multiset(Sort(s)) == multiset(s)
  {
    if s != [] {
      SortSorts(s[1..]);
      InsertSorts(s[0], Sort(s[1..]));
      InsertPermutes(s[0], Sort(s[1..]));
      assert s == [s[0]] + s[1..];
    }
  }

  lemma SortHasSame(s: seq<nat>)
    ensures Sorted(Sort(s)) && |Sort(s)| == |s|
    ensures forall p :: p in Sort(s) <==> p in s
  {
    SortSorts(s);
    assert |multiset(Sort(s))| == |multiset(s)|;
    forall p ensures p in Sort(s) <==> p in s {
      assert p in Sort(s) <==> p in multiset(Sort(s));
      assert p in s <==> p in multiset(s);
    }
  }

  // ---------------------------------------------------------------- the method

  /** The first number that is not in `used` above the least number that is. */
  ghost predicate FirstGap(used: set<nat>, port: nat)
  {
    && port !in used
    && exists least :: least in used && least < port && FullFrom(used, least, port)
  }

  /** `least` is the least number in use, and all numbers up to `port` are in use. */
  ghost predicate FullFrom(used: set<nat>, least: nat, port: nat)
  {
    (forall u :: u in used ==> least <= u) && (forall p :: least <= p < port ==> p in used)
  }

  method ReserveNewPort(rs: SystemCallResult, texts: seq<string>, reserved: set<nat>) returns (port: nat)
    ensures FirstGap({FIRST_PORT - 1} + UsedPorts(rs, texts, reserved), port)
  {
    var usedPorts := [FIRST_PORT - 1];
    if rs.success && rs.exitCode == 0 && rs.out != [] {
      usedPorts := AddVagrantPorts(texts, usedPorts);
    }
    usedPorts := AddReservedPorts(reserved, usedPorts);
    SortHasSame(usedPorts);
    usedPorts := Sort(usedPorts);
    assert FIRST_PORT - 1 in usedPorts;
    port := Scan(usedPorts);
    FirstGapOfSorted(usedPorts, {FIRST_PORT - 1} + UsedPorts(rs, texts, reserved), port);
  }

  method AddVagrantPorts(texts: seq<string>, before: seq<nat>) returns (usedPorts: seq<nat>)
    ensures forall p :: p in usedPorts <==> p in before || p in HighPorts(texts)
  {
    usedPorts := before;
    for i := 0 to |texts|
      invariant forall p :: p in usedPorts <==> p in before || p in HighPorts(texts[..i])
    {
      OneText(texts, i);
      var curPort := PortOf(texts[i]);
      if curPort < FIRST_PORT {
        continue;
      }
      usedPorts := usedPorts + [curPort];
    }
    assert texts[..|texts|] == texts;
  }

  lemma OneText(texts: seq<string>, i: nat)
    requires i < |texts|
    ensures var p := PortOf(texts[i]);
      HighPorts(texts[..i + 1]) == HighPorts(texts[..i]) + (if p < FIRST_PORT then {} else {p})
  {
    assert texts[..i + 1] == texts[..i] + [texts[i]];
  }

  /** The order in which the set is walked does not matter: the ports are sorted afterwards. */
  method AddReservedPorts(reserved: set<nat>, before: seq<nat>) returns (usedPorts: seq<nat>)
    ensures forall p :: p in usedPorts <==> p in before || p in reserved
  {
    usedPorts := before;
    var rest := reserved;
    while rest != {}
      invariant rest <= reserved
      invariant forall p :: p in usedPorts <==> p in before || p in reserved - rest
      decreases rest
    {
      var i :| i in rest;
      usedPorts := usedPorts + [i];
      rest := rest - {i};
    }
  }

  /** The loop over the sorted ports. It is always left by its break. */
  method Scan(usedPorts: seq<nat>) returns (port: nat)
    requires usedPorts != [] && Sorted(usedPorts)
    ensures usedPorts[0] < port && port !in usedPorts
    ensures forall p :: usedPorts[0] <= p < port ==> p in usedPorts
  {
    port := FIRST_PORT;
    ghost var broken := false;
    for i := 0 to |usedPorts|
      invariant !broken
      invariant forall p :: usedPorts[0] <= p <= usedPorts[if i == 0 then 0 else i - 1] ==> p in usedPorts
      invariant i > 0 ==> i < |usedPorts| && usedPorts[i] <= usedPorts[i - 1] + 1
    {
      assert usedPorts[0] <= usedPorts[i];
      if i + 1 == |usedPorts| || usedPorts[i] + 1 < usedPorts[i + 1] {
        port := usedPorts[i] + 1;
        broken := true;
        break;
      }
    }
    assert broken;
  }

  lemma FirstGapOfSorted(s: seq<nat>, used: set<nat>, port: nat)
    requires s != [] && Sorted(s) && (forall p :: p in s <==> p in used)
    requires s[0] < port && port !in s && forall p :: s[0] <= p < port ==> p in s
    ensures FirstGap(used, port)
  {
    assert s[0] in used;
    forall u | u in used ensures s[0] <= u {
      var i :| 0 <= i < |s| && s[i] == u;
    }
    assert FullFrom(used, s[0], port);
  }

  // ---------------------------------------------------------------- what the gap is

  /** The least port from 9999 up that is not in use. */
  ghost predicate LeastFree(used: set<nat>, port: nat)
  {
    port >= FIRST_PORT && port !in used && forall p :: FIRST_PORT <= p < port ==> p in used
  }

  /** The first gap is the least free port exactly when no reserved port below 9998 has a free
      port directly above it; in particular when none is reserved there at all. */
  lemma LeastFreeIffNoHoleBelow(used: set<nat>, port: nat)
    requires FirstGap({FIRST_PORT - 1} + used, port)
    ensures LeastFree(used, port)
       <==> forall r :: r in used && r < FIRST_PORT - 1 ==> r + 1 in {FIRST_PORT - 1} + used
  {
    var all := {FIRST_PORT - 1} + used;
    var least :| least in all && least < port && FullFrom(all, least, port);
    assert FIRST_PORT - 1 in all;
    if port < FIRST_PORT {
      assert port - 1 in all && port - 1 < FIRST_PORT - 1;
    } else {
      forall r | r in used && r < FIRST_PORT - 1 ensures r + 1 in all {
        assert r in all && least <= r;
        assert r + 1 in all;
      }
      forall p | FIRST_PORT <= p < port ensures p in used {
        assert p in all;
      }
    }
  }

  lemma LeastFreeIsGap(used: set<nat>, port: nat)
    requires LeastFree(used, port) && forall u :: u in used ==> u >= FIRST_PORT
    ensures FirstGap({FIRST_PORT - 1} + used, port)
  {
    var all := {FIRST_PORT - 1} + used;
    assert FIRST_PORT - 1 in all && FullFrom(all, FIRST_PORT - 1, port);
  }

  // ---------------------------------------------------------------- which ports count

  /** Port p is taken: it is reserved; or the status call came off, with exit code 0 and some
      output, and p is the number, from 9999 up, in the text of some machine. */
  ghost predicate Taken(rs: SystemCallResult, texts: seq<string>, reserved: set<nat>, p: nat)
  {
    || p in reserved
    || (rs.success && rs.exitCode == 0 && |rs.out| > 0 && p >= 9999 && exists text :: text in texts && PortOf(text) == p)
  }

  lemma UsedIffTaken(rs: SystemCallResult, texts: seq<string>, reserved: set<nat>, p: nat)
    ensures p in UsedPorts(rs, texts, reserved) <==> Taken(rs, texts, reserved, p)
  {
  }

  /** Main result. While only ports from 9999 up are reserved, the allocator gives the least port
      from 9999 up that is not taken, and no other. */
  lemma GivesLeastNotTaken(rs: SystemCallResult, texts: seq<string>, reserved: set<nat>, port: nat)
    requires forall r :: r in reserved ==> r >= FIRST_PORT
    ensures FirstGap({FIRST_PORT - 1} + UsedPorts(rs, texts, reserved), port)
       <==> port >= 9999 && !Taken(rs, texts, reserved, port) && forall p :: 9999 <= p < port ==> Taken(rs, texts, reserved, p)
  {
    var used := UsedPorts(rs, texts, reserved);
    forall p ensures p in used <==> Taken(rs, texts, reserved, p) { UsedIffTaken(rs, texts, reserved, p); }
    if FirstGap({FIRST_PORT - 1} + used, port) {
      LeastFreeIffNoHoleBelow(used, port);
    } else if LeastFree(used, port) {
      LeastFreeIsGap(used, port);
    }
  }

  /** The port that a machine reports, whatever stands around it that is not a digit, is not given
      to another. */
  lemma MachinePortIsNotGiven(rs: SystemCallResult, texts: seq<string>, reserved: set<nat>,
                              before: string, machinePort: nat, after: string, port: nat)
    requires rs.success && rs.exitCode == 0 && rs.out != []
    requires (forall c :: c in before ==> !Digit(c)) && (forall c :: c in after ==> !Digit(c))
    requires before + (Decimal(machinePort) + after) in texts && 9999 <= machinePort <= MAX_INT
    requires FirstGap({FIRST_PORT - 1} + UsedPorts(rs, texts, reserved), port)
    ensures port != machinePort
  {
    PortOfText(before, machinePort, after);
    UsedIffTaken(rs, texts, reserved, machinePort);
  }

  /** After a failed call, or one without output, the texts do not matter. */
  lemma FailedCallLeavesReserved(rs: SystemCallResult, texts: seq<string>, reserved: set<nat>, port: nat)
    requires !rs.success || rs.exitCode != 0 || rs.out == []
    requires forall r :: r in reserved ==> r >= FIRST_PORT
    ensures FirstGap({FIRST_PORT - 1} + UsedPorts(rs, texts, reserved), port) <==> LeastFree(reserved, port)
  {
    GivesLeastNotTaken(rs, texts, reserved, port);
  }

  /** A reservation below 9998 makes the allocator hand out a port below 9999. */
  lemma LowReservation()
    ensures FirstGap({FIRST_PORT - 1} + {5}, 6) && !LeastFree({5}, 6)
  {
    assert FullFrom({FIRST_PORT - 1} + {5}, 5, 6);
  }

  // ---------------------------------------------------------------- counting

  lemma {:induction false} SizeOfInterval(lo: int, hi: int, s: set<nat>)
    requires lo <= hi && forall p :: lo <= p < hi ==> p in s
    ensures hi - lo <= |s|
    decreases hi - lo
  {
    if lo < hi { SizeOfInterval(lo, hi - 1, s - {hi - 1}); }
  }

  /** At most 9999 plus the number of distinct ports in use from 9999 up; so a valid TCP port
      while at most 55536 of them are in use. */
  lemma PortBound(used: set<nat>, port: nat)
    requires LeastFree(used, port)
    ensures var high := set u | u in used && u >= FIRST_PORT;
      port <= FIRST_PORT + |high| && (|high| <= 55536 ==> port <= 65535)
  {
    SizeOfInterval(FIRST_PORT, port, set u | u in used && u >= FIRST_PORT);
  }
}
