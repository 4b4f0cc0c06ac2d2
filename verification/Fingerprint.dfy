/** CCommons::GetFingerprintFromUid, whose index is a 16-bit unsigned number. */
module Fingerprint {
  import opened Text

  /** The number of values of a quint16. */
  const WRAP: nat := 65536

  /** The loop condition is false at index i. */
  predicate Stop(uid: string, i: nat) { i >= |uid| || uid[i] == ':' }

  /** Conversion to quint16. */
  function ToUnsigned16(n: nat): (r: nat)
    ensures r < WRAP && (n < WRAP ==> r == n)
  {
    n % 65536
  }

  /** The index n steps after `begin`. */
  function Index(begin: nat, n: nat): nat { ToUnsigned16(begin + n) }

  /** indexOf is -1 when there is no "uid:"; the sum is then 3. */
  function Beginning(uid: string): (i: int)
    ensures i >= 3
  {
    IndexOf(uid, "uid:") + |"uid:"|
  }

  /** `res` is what the loop collects from index `begin`, the index wrapping around. */
  ghost predicate Scans(uid: string, begin: nat, res: string)
  {
    && (forall j :: 0 <= j < |res| ==> !Stop(uid, Index(begin, j)) && res[j] == uid[Index(begin, j)])
    && Stop(uid, Index(begin, |res|))
  }

  /** The loop ends, whatever index it begins at, if and only if some 16-bit index stops it. */
  lemma EndsIffSomeStop(uid: string, begin: nat)
    ensures (exists n: nat :: Stop(uid, Index(begin, n))) <==> SomeStop(uid)
  {
    if SomeStop(uid) {
      var k: nat :| k < WRAP && Stop(uid, k);
      var b := ToUnsigned16(begin);
      var n: nat := if k >= b then k - b else k + WRAP - b;
      assert Index(begin, n) == k;
    }
  }

  ghost predicate SomeStop(uid: string) { exists k: nat :: k < WRAP && Stop(uid, k) }

  /** For other inputs the source does not return. */
  ghost predicate Ends(uid: string)
  {
    IndexOf(uid, "uid") == -1 || SomeStop(uid)
  }

  /** Exactly the inputs with "uid" and without a ':' in their first 65536 characters, of which
      there must be that many, make the loop run for ever. */
  lemma EndlessInputs(uid: string)
    ensures !Ends(uid) <==> IndexOf(uid, "uid") != -1 && |uid| >= WRAP && ':' !in uid[..WRAP]
  {
    if SomeStop(uid) && |uid| >= WRAP {
      var k: nat :| k < WRAP && Stop(uid, k);
      assert uid[..WRAP][k] == ':';
    }
    if |uid| < WRAP { assert Stop(uid, |uid|); }
    if |uid| >= WRAP && ':' in uid[..WRAP] {
      var k :| 0 <= k < WRAP && uid[..WRAP][k] == ':';
      assert Stop(uid, k);
    }
  }

  /** "uid" and 65533 letters, or more. */
  lemma EndlessExample(n: nat)
    requires n >= 65533
    ensures !Ends("uid" + seq(n, _ => 'x'))
  {
    var uid := "uid" + seq(n, _ => 'x');
    assert uid[0..3] == "uid" && OccursAt(uid, "uid", 0);
    assert forall k :: 3 <= k < |uid| ==> uid[k] == 'x';
    EndlessInputs(uid);
  }

  /** What the source returns, if it does. */
  ghost predicate Returns(uid: string, res: string)
  {
    if IndexOf(uid, "uid") == -1 then res == "" else Scans(uid, ToUnsigned16(Beginning(uid)), res)
  }

  method GetFingerprintFromUid(uid: string) returns (res: string)
    requires Ends(uid)
    ensures Returns(uid, res)
  {
    res := "";
    if IndexOf(uid, "uid") == -1 {
      return;
    }
    res := CollectFrom(uid, ToUnsigned16(IndexOf(uid, "uid:") + |"uid:"|));
  }

  /** The loop. */
  method CollectFrom(uid: string, begin: nat) returns (res: string)
    requires begin < WRAP && SomeStop(uid)
    ensures Scans(uid, begin, res)
  {
    res := "";
    var indexUid := begin;
    EndsIffSomeStop(uid, begin);
    ghost var n: nat :| Stop(uid, Index(begin, n));
    while indexUid < |uid| && uid[indexUid] != ':'
      invariant indexUid == Index(begin, |res|)
      invariant |res| <= n
      invariant forall j :: 0 <= j < |res| ==> !Stop(uid, Index(begin, j)) && res[j] == uid[Index(begin, j)]
      decreases n - |res|
    {
      NextIndex(begin, |res|);
      res := res + [uid[indexUid]];
      indexUid := ToUnsigned16(indexUid + 1);
    }
  }

  lemma NextIndex(begin: nat, n: nat)
    ensures Index(begin, n + 1) == ToUnsigned16(Index(begin, n) + 1)
  {
  }

  // ---------------------------------------------------------------- what is collected

  /** The longest text without ':' from index i. */
  function Field(uid: string, i: nat): string
    requires i <= |uid|
    decreases |uid| - i
  {
    if i == |uid| || uid[i] == ':' then "" else [uid[i]] + Field(uid, i + 1)
  }

  lemma {:induction false} FieldStops(uid: string, i: nat)
    requires i <= |uid|
    ensures var e := i + |Field(uid, i)|;
      && e <= |uid| && Stop(uid, e) && Field(uid, i) == uid[i..e]
      && forall j :: i <= j < e ==> uid[j] != ':'
    decreases |uid| - i
  {
    if i < |uid| && uid[i] != ':' {
      FieldStops(uid, i + 1);
      var e := i + 1 + |Field(uid, i + 1)|;
      assert uid[i..e] == [uid[i]] + uid[i + 1..e];
    }
  }

  lemma FieldIs(uid: string, i: nat, e: nat)
    requires i <= e <= |uid| && (e == |uid| || uid[e] == ':')
    requires ':' !in uid[i..e]
    ensures Field(uid, i) == uid[i..e]
  {
    FieldStops(uid, i);
    assert forall j :: i <= j < e ==> uid[j] == uid[i..e][j - i];
  }

  lemma ScansAgree(uid: string, begin: nat, a: string, b: string)
    requires Scans(uid, begin, a) && Scans(uid, begin, b)
    ensures a == b
  {
    assert |a| == |b|;
    forall j | 0 <= j < |a| ensures a[j] == b[j] {
      assert a[j] == uid[Index(begin, j)];
    }
  }

  lemma ScanWithoutWrap(uid: string, begin: nat)
    requires begin <= |uid| && begin + |Field(uid, begin)| < WRAP
    ensures Scans(uid, begin, Field(uid, begin))
  {
    FieldStops(uid, begin);
    forall j | 0 <= j < |Field(uid, begin)|
      ensures !Stop(uid, Index(begin, j)) && Field(uid, begin)[j] == uid[Index(begin, j)]
    {
      assert Index(begin, j) == begin + j;
    }
  }

  lemma ScanWithWrap(uid: string, begin: nat)
    requires begin < WRAP && begin <= |uid| && begin + |Field(uid, begin)| >= WRAP && SomeStop(uid)
    ensures |uid| >= WRAP && Scans(uid, begin, uid[begin..WRAP] + Field(uid, 0))
  {
    FieldStops(uid, begin);
    FieldStops(uid, 0);
    var k: nat :| k < WRAP && Stop(uid, k);
    var low, c, all := WRAP - begin, |Field(uid, 0)|, uid[begin..WRAP] + Field(uid, 0);
    assert c <= k;
    forall j | 0 <= j < |all| ensures !Stop(uid, Index(begin, j)) && all[j] == uid[Index(begin, j)] {
      assert Index(begin, j) == if j < low then begin + j else j - low;
    }
    assert Index(begin, |all|) == c;
  }

  /** Main result. For every 16-bit index at which the loop may begin: it collects the field there
      if the field ends below index 65536; otherwise it runs on from index 0 and adds the field
      there to what it has. */
  lemma WhatIsCollected(uid: string, begin: nat, res: string)
    requires begin < WRAP && begin <= |uid| && Scans(uid, begin, res)
    ensures begin + |Field(uid, begin)| < WRAP ==> res == Field(uid, begin)
    ensures begin + |Field(uid, begin)| >= WRAP ==> |uid| >= WRAP && res == uid[begin..WRAP] + Field(uid, 0)
  {
    if begin + |Field(uid, begin)| < WRAP {
      ScanWithoutWrap(uid, begin);
      ScansAgree(uid, begin, res, Field(uid, begin));
    } else {
      assert SomeStop(uid) by { assert Stop(uid, Index(begin, |res|)); }
      ScanWithWrap(uid, begin);
      ScansAgree(uid, begin, res, uid[begin..WRAP] + Field(uid, 0));
    }
  }

  // ---------------------------------------------------------------- what was wanted

  /** The field after "uid:" ends below index 65536; so it does in every input of at most 65535
      characters. */
  predicate InReach(uid: string)
  {
    Beginning(uid) <= |uid| ==> Beginning(uid) + |Field(uid, Beginning(uid))| < WRAP
  }

  lemma ShortInputsAreInReach(uid: string)
    requires |uid| < WRAP
    ensures InReach(uid) && Ends(uid)
  {
    if Beginning(uid) <= |uid| { FieldStops(uid, Beginning(uid)); }
    EndlessInputs(uid);
  }

  lemma BeginningIsInside(uid: string)
    requires IndexOf(uid, "uid") != -1
    ensures Beginning(uid) <= |uid|
  {
    var i := IndexOf(uid, "uid:");
    if i != -1 { assert OccursAt(uid, "uid:", i); } else { assert OccursAt(uid, "uid", IndexOf(uid, "uid")); }
  }

  /** What a fingerprint is: the field after the first "uid:", and nothing if there is none. */
  function Wanted(uid: string): string
  {
    var i := IndexOf(uid, "uid:");
    if i == -1 then "" else assert OccursAt(uid, "uid:", i); Field(uid, i + 4)
  }

  /** An input with "uid" but without "uid:" is read from its fourth character. */
  predicate Misread(uid: string)
  {
    IndexOf(uid, "uid") != -1 && IndexOf(uid, "uid:") == -1 && |uid| > 3 && uid[3] != ':'
  }

  lemma NoUidNoMark(uid: string)
    requires IndexOf(uid, "uid") == -1
    ensures IndexOf(uid, "uid:") == -1
  {
    IndexOfLonger(uid, "uid", ":");
    assert "uid" + ":" == "uid:";
  }

  /** Main result. For every input whose field is in reach, in particular of at most 65535
      characters, what is returned is the field after the first "uid:", and nothing if there is
      none, if and only if the input is not one of the misread ones. */
  lemma FingerprintIffNotMisread(uid: string, res: string)
    requires InReach(uid) && Returns(uid, res)
    ensures res == Wanted(uid) <==> !Misread(uid)
  {
    if IndexOf(uid, "uid") == -1 {
      NoUidNoMark(uid);
    } else {
      BeginningIsInside(uid);
      WhatIsCollected(uid, Beginning(uid), res);
      FieldAtBeginning(uid);
    }
  }

  lemma FieldAtBeginning(uid: string)
    requires Beginning(uid) <= |uid|
    ensures Field(uid, Beginning(uid)) == if IndexOf(uid, "uid:") == -1 then Field(uid, 3) else Wanted(uid)
    ensures |uid| >= 3 && (Field(uid, 3) == "" <==> |uid| == 3 || uid[3] == ':')
  {
  }

  /** "uid:" does not overlap itself: behind a prefix without it, it occurs first where it is put. */
  lemma MarkIsFoundWhereItIsPut(prefix: string, rest: string)
    requires IndexOf(prefix, "uid:") == -1
    ensures IndexOf(prefix + ("uid:" + rest), "uid:") == |prefix|
  {
    var mark := "uid:";
    assert NoOverlap(mark);
    FirstWhereItIsPut(prefix, mark, rest);
  }

  lemma ComposedField(prefix: string, fp: string, rest: string)
    requires ':' !in fp && (rest == "" || rest[0] == ':')
    ensures var s, i := prefix + ("uid:" + (fp + rest)), |prefix| + 4; i <= |s| && Field(s, i) == fp
  {
    var s, i := prefix + ("uid:" + (fp + rest)), |prefix| + 4;
    assert s[i..i + |fp|] == fp;
    FieldIs(s, i, i + |fp|);
  }

  /** Main result. What is returned for prefix + "uid:" + fingerprint, at the end or followed by
      ':', is the fingerprint, as long as it ends below index 65536. */
  lemma FingerprintRoundTrip(prefix: string, fp: string, rest: string, res: string)
    requires IndexOf(prefix, "uid:") == -1 && ':' !in fp && (rest == "" || rest[0] == ':')
    requires |prefix| + 4 + |fp| < WRAP
    requires Returns(prefix + ("uid:" + (fp + rest)), res)
    ensures res == fp
  {
    var s := prefix + ("uid:" + (fp + rest));
    MarkIsFoundWhereItIsPut(prefix, fp + rest);
    if IndexOf(s, "uid") == -1 { NoUidNoMark(s); }
    ComposedField(prefix, fp, rest);
    assert Beginning(s) == |prefix| + 4;
    WhatIsCollected(s, |prefix| + 4, res);
  }

  /** "myuid" has no "uid:", and "id" is taken for its fingerprint. */
  lemma MisreadExample(res: string)
    requires Returns("myuid", res)
    ensures res == "id" && Wanted("myuid") == ""
  {
    assert "myuid"[0..4][0] == 'm' && "myuid"[1..5][0] == 'y';
    assert IndexOf("myuid", "uid:") == -1;
    assert OccursAt("myuid", "uid", 2);
    assert "myuid"[3..5] == "id";
    FieldIs("myuid", 3, 5);
    WhatIsCollected("myuid", 3, res);
  }
}
