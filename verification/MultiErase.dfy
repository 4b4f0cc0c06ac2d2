/** Erasing several rows of a list one after the other, by row number: the inner working of
    clear_files, and the exact condition under which it erases the rows that were selected. */
module MultiErase {
  import opened Sequences

  /** Every row number is in bounds when its turn comes. */
  predicate InBounds(n: nat, rows: seq<nat>)
  {
    rows == [] || (rows[0] < n && InBounds(n - 1, rows[1..]))
  }

  function EraseAll<T>(s: seq<T>, rows: seq<nat>): (r: seq<T>)
    requires InBounds(|s|, rows)
    ensures |r| == |s| - |rows|
    decreases rows
  {
    if rows == [] then s else EraseAll(Without(s, rows[0]), rows[1..])
  }

  /** What should be left: the elements below `end` whose row is not selected, in order. */
  function Kept<T>(s: seq<T>, rows: seq<nat>, end: nat): seq<T>
    requires end <= |s|
  {
    if end == 0 then []
    else Kept(s, rows, end - 1) + (if end - 1 in rows then [] else [s[end - 1]])
  }

  ghost predicate Descending(rows: seq<nat>)
  {
    forall i, j :: 0 <= i < j < |rows| ==> rows[i] > rows[j]
  }

  /** Exactly the selected rows go: no erase is out of bounds and the rest is left in order. */
  ghost predicate Exact<T>(s: seq<T>, rows: seq<nat>)
  {
    InBounds(|s|, rows) && EraseAll(s, rows) == Kept(s, rows, |s|)
  }

  // ---------------------------------------------------------------- descending is enough

  lemma {:induction false} KeptBelow<T>(s: seq<T>, rows: seq<nat>, end: nat)
    requires Descending(rows) && rows != [] && rows[0] < |s| && end <= |s|
    ensures Kept(s, rows, end) == Kept(Without(s, rows[0]), rows[1..], if end <= rows[0] then end else end - 1)
  {
    if end > 0 {
      KeptBelow(s, rows, end - 1);
      var i := end - 1;
      assert rows == [rows[0]] + rows[1..];
      if i > rows[0] {
        assert forall r :: r in rows ==> r != i;
        assert Without(s, rows[0])[i - 1] == s[i];
      }
    }
  }

  lemma {:induction false} DescendingErases<T>(s: seq<T>, rows: seq<nat>)
    requires Descending(rows)
    requires forall r :: r in rows ==> r < |s|
    ensures Exact(s, rows)
    decreases rows
  {
    if rows == [] {
      KeptNone(s, |s|);
    } else {
      assert rows[0] in rows;
      KeptBelow(s, rows, |s|);
      DescendingErases(Without(s, rows[0]), rows[1..]);
    }
  }

  lemma {:induction false} KeptNone<T>(s: seq<T>, end: nat)
    requires end <= |s|
    ensures Kept(s, [], end) == s[..end]
  {
    if end > 0 { KeptNone(s, end - 1); }
  }

  /** Of distinct elements, those are kept whose row is not selected. */
  lemma {:induction false} KeptHas<T>(s: seq<T>, rows: seq<nat>, end: nat, p: nat)
    requires Distinct(s) && end <= |s| && p < |s|
    ensures s[p] in Kept(s, rows, end) <==> p < end && p !in rows
  {
    if end > 0 { KeptHas(s, rows, end - 1, p); }
  }

  // ---------------------------------------------------------------- and nothing else is

  function Sum(s: seq<nat>): nat
  {
    if s == [] then 0 else s[0] + Sum(s[1..])
  }

  lemma {:induction false} SumWithout(s: seq<nat>, k: nat)
    requires k < |s|
    ensures Sum(s) == s[k] + Sum(Without(s, k))
  {
    if k > 0 {
      SumWithout(s[1..], k - 1);
      assert Without(s, k)[1..] == Without(s[1..], k - 1);
    } else {
      assert Without(s, 0) == s[1..];
    }
  }

  lemma {:induction false} SumAppend(s: seq<nat>, x: nat)
    ensures Sum(s + [x]) == Sum(s) + x
  {
    if s == [] {
      assert [] + [x] == [x];
    } else {
      assert (s + [x])[1..] == s[1..] + [x];
      SumAppend(s[1..], x);
    }
  }

  /** The original rows, in a table whose row i shows original row idx[i]. */
  ghost predicate Rising(idx: seq<nat>)
  {
    (forall i, j :: 0 <= i < j < |idx| ==> idx[i] < idx[j]) && (forall i :: 0 <= i < |idx| ==> i <= idx[i])
  }

  /** The original rows that are really erased. */
  function Gone(idx: seq<nat>, rows: seq<nat>): (r: seq<nat>)
    requires InBounds(|idx|, rows)
    ensures |r| == |rows|
    decreases rows
  {
    if rows == [] then [] else [idx[rows[0]]] + Gone(Without(idx, rows[0]), rows[1..])
  }

  lemma {:induction false} GoneSum(idx: seq<nat>, rows: seq<nat>)
    requires InBounds(|idx|, rows)
    ensures Sum(idx) == Sum(EraseAll(idx, rows)) + Sum(Gone(idx, rows))
    decreases rows
  {
    if rows != [] {
      SumWithout(idx, rows[0]);
      GoneSum(Without(idx, rows[0]), rows[1..]);
    }
  }

  /** A row number never points below itself, so the sum can only grow. */
  lemma {:induction false} GoneAtLeast(idx: seq<nat>, rows: seq<nat>)
    requires InBounds(|idx|, rows) && Rising(idx)
    ensures Sum(Gone(idx, rows)) >= Sum(rows)
    ensures Sum(Gone(idx, rows)) == Sum(rows) ==> Gone(idx, rows) == rows
    decreases rows
  {
    if rows != [] {
      var idx' := Without(idx, rows[0]);
      assert Rising(idx') by {
        assert forall i :: 0 <= i < |idx'| ==> idx'[i] == idx[if i < rows[0] then i else i + 1];
      }
      GoneAtLeast(idx', rows[1..]);
      assert Gone(idx, rows) == [idx[rows[0]]] + Gone(idx', rows[1..]);
      assert rows == [rows[0]] + rows[1..];
    }
  }

  /** Once a row at or above `p` cannot show itself any more, it never will. */
  lemma {:induction false} NoneAbove(idx: seq<nat>, rows: seq<nat>, p: nat)
    requires InBounds(|idx|, rows) && Rising(idx) && Gone(idx, rows) == rows
    requires forall i :: p <= i < |idx| ==> idx[i] > i
    ensures forall r :: r in rows ==> r < p
    decreases rows
  {
    if rows != [] {
      assert idx[rows[0]] == Gone(idx, rows)[0] == rows[0];
      assert Gone(Without(idx, rows[0]), rows[1..]) == Gone(idx, rows)[1..];
      NoneAbove(Without(idx, rows[0]), rows[1..], p);
      assert rows == [rows[0]] + rows[1..];
    }
  }

  lemma {:induction false} SelfOnlyDescending(idx: seq<nat>, rows: seq<nat>)
    requires InBounds(|idx|, rows) && Rising(idx) && Gone(idx, rows) == rows
    ensures Descending(rows)
    decreases rows
  {
    if rows != [] {
      var idx' := Without(idx, rows[0]);
      assert Gone(idx', rows[1..]) == Gone(idx, rows)[1..];
      forall i | rows[0] <= i < |idx'| ensures idx'[i] > i {
        assert idx'[i] == idx[i + 1];
      }
      NoneAbove(idx', rows[1..], rows[0]);
      SelfOnlyDescending(idx', rows[1..]);
      forall i, j | 0 <= i < j < |rows| ensures rows[i] > rows[j] {
        assert rows[j] == rows[1..][j - 1] && rows[j] in rows[1..];
        if i > 0 { assert rows[i] == rows[1..][i - 1]; }
      }
    }
  }

  function Iota(n: nat): (s: seq<nat>)
    ensures |s| == n && forall i :: 0 <= i < n ==> s[i] == i
  {
    seq(n, i => i)
  }

  /** The sum of the row numbers below `end` that are not selected. */
  function KeptTotal(rows: seq<nat>, end: nat): nat
  {
    if end == 0 then 0 else KeptTotal(rows, end - 1) + (if end - 1 in rows then 0 else end - 1)
  }

  lemma {:induction false} KeptTotalIsSum(n: nat, rows: seq<nat>, end: nat)
    requires end <= n
    ensures Sum(Kept(Iota(n), rows, end)) == KeptTotal(rows, end)
  {
    if end > 0 {
      var before := Kept(Iota(n), rows, end - 1);
      KeptTotalIsSum(n, rows, end - 1);
      SumAppend(before, end - 1);
      assert before + [] == before;
    }
  }

  /** Selecting one row more takes that row number from what is kept. */
  lemma {:induction false} KeptTotalOneMore(row: nat, rows: seq<nat>, end: nat)
    requires row !in rows
    ensures KeptTotal(rows, end) == KeptTotal([row] + rows, end) + (if row < end then row else 0)
  {
    if end > 0 { KeptTotalOneMore(row, rows, end - 1); }
  }

  lemma {:induction false} KeptTotalOfAll(n: nat, rows: seq<nat>)
    requires Distinct(rows) && forall r :: r in rows ==> r < n
    ensures KeptTotal([], n) == KeptTotal(rows, n) + Sum(rows)
    decreases rows
  {
    if rows != [] {
      assert rows[0] in rows && rows == [rows[0]] + rows[1..];
      assert forall r :: r in rows[1..] ==> r in rows;
      KeptTotalOfAll(n, rows[1..]);
      KeptTotalOneMore(rows[0], rows[1..], n);
    }
  }

  lemma KeptSum(n: nat, rows: seq<nat>)
    requires Distinct(rows) && forall r :: r in rows ==> r < n
    ensures Sum(Iota(n)) == Sum(Kept(Iota(n), rows, n)) + Sum(rows)
  {
    KeptTotalIsSum(n, rows, n);
    KeptTotalIsSum(n, [], n);
    KeptTotalOfAll(n, rows);
    KeptNone(Iota(n), n);
    assert Iota(n)[..n] == Iota(n);
  }

  lemma ExactOnRowNumbers(n: nat, rows: seq<nat>)
    requires Distinct(rows) && forall r :: r in rows ==> r < n
    requires Exact(Iota(n), rows)
    ensures Descending(rows)
  {
    KeptSum(n, rows);
    GoneSum(Iota(n), rows);
    GoneAtLeast(Iota(n), rows);
    SelfOnlyDescending(Iota(n), rows);
  }

  // ---------------------------------------------------------------- for any list of distinct elements

  ghost predicate Picks<T>(s: seq<T>, all: seq<T>, idx: seq<nat>)
  {
    |s| == |idx| && forall i :: 0 <= i < |s| ==> idx[i] < |all| && s[i] == all[idx[i]]
  }

  lemma {:induction false} EraseAllPicks<T>(s: seq<T>, all: seq<T>, idx: seq<nat>, rows: seq<nat>)
    requires Picks(s, all, idx) && InBounds(|s|, rows)
    ensures Picks(EraseAll(s, rows), all, EraseAll(idx, rows))
    decreases rows
  {
    if rows != [] {
      assert Picks(Without(s, rows[0]), all, Without(idx, rows[0]));
      EraseAllPicks(Without(s, rows[0]), all, Without(idx, rows[0]), rows[1..]);
    }
  }

  lemma {:induction false} KeptPicks<T>(s: seq<T>, rows: seq<nat>, end: nat)
    requires end <= |s|
    ensures Picks(Kept(s, rows, end), s, Kept(Iota(|s|), rows, end))
  {
    if end > 0 { KeptPicks(s, rows, end - 1); }
  }

  /** Main result. Erasing distinct rows of a list of distinct elements by their original row
      numbers, one after the other, erases exactly those rows if and only if the row numbers
      are taken from higher to lower. */
  lemma ExactIffDescending<T>(s: seq<T>, rows: seq<nat>)
    requires Distinct(s) && Distinct(rows)
    requires forall r :: r in rows ==> r < |s|
    ensures Exact(s, rows) <==> Descending(rows)
  {
    if Descending(rows) { DescendingErases(s, rows); }
    if Exact(s, rows) {
      var erased, kept := EraseAll(Iota(|s|), rows), Kept(Iota(|s|), rows, |s|);
      EraseAllPicks(s, s, Iota(|s|), rows);
      KeptPicks(s, rows, |s|);
      forall i | 0 <= i < |erased| ensures erased[i] == kept[i] {
        assert s[erased[i]] == s[kept[i]];
      }
      assert erased == kept;
      ExactOnRowNumbers(|s|, rows);
    }
  }

  // ---------------------------------------------------------------- ranges of rows

  /** QTableWidgetSelectionRange, rows only. */
  datatype Range = Range(top: nat, bottom: nat)

  /** The rows of a range from the bottom up to the top. */
  function RowsDown(r: Range): (rows: seq<nat>)
    ensures |rows| == if r.top > r.bottom then 0 else r.bottom + 1 - r.top
    ensures forall i :: 0 <= i < |rows| ==> rows[i] == r.bottom - i
    decreases r.bottom + 1 - r.top
  {
    if r.top > r.bottom then []
    else
      var rows := RowsDown(Range(r.top + 1, r.bottom));
      rows + [r.top]
  }

  lemma RowsDownHas(r: Range, x: nat)
    ensures x in RowsDown(r) <==> r.top <= x <= r.bottom
  {
    if r.top <= x <= r.bottom { assert RowsDown(r)[r.bottom - x] == x; }
  }

  /** The rows of a selection in the order in which the source visits them. */
  function Flatten(ranges: seq<Range>): seq<nat>
  {
    if ranges == [] then [] else RowsDown(ranges[0]) + Flatten(ranges[1..])
  }

  ghost predicate Proper(ranges: seq<Range>) { forall i :: 0 <= i < |ranges| ==> ranges[i].top <= ranges[i].bottom }

  ghost predicate HigherToLower(ranges: seq<Range>)
  {
    forall i, j :: 0 <= i < j < |ranges| ==> ranges[i].top > ranges[j].bottom
  }

  ghost predicate Disjoint(ranges: seq<Range>)
  {
    forall i, j :: 0 <= i < j < |ranges| ==> ranges[i].top > ranges[j].bottom || ranges[j].top > ranges[i].bottom
  }

  lemma {:induction false} InFlatten(ranges: seq<Range>, x: nat)
    ensures x in Flatten(ranges) <==> exists i :: 0 <= i < |ranges| && ranges[i].top <= x <= ranges[i].bottom
  {
    if ranges != [] {
      InFlatten(ranges[1..], x);
      RowsDownHas(ranges[0], x);
      if x in Flatten(ranges[1..]) {
        var i :| 0 <= i < |ranges[1..]| && ranges[1..][i].top <= x <= ranges[1..][i].bottom;
        assert ranges[i + 1].top <= x <= ranges[i + 1].bottom;
      }
      if i :| 0 < i < |ranges| && ranges[i].top <= x <= ranges[i].bottom {
        assert ranges[1..][i - 1].top <= x <= ranges[1..][i - 1].bottom;
      }
    }
  }

  ghost predicate Above(a: seq<nat>, b: seq<nat>) { forall x, y :: x in a && y in b ==> x > y }

  lemma DescendingConcat(a: seq<nat>, b: seq<nat>)
    ensures Descending(a + b) <==> Descending(a) && Descending(b) && Above(a, b)
  {
    if Descending(a) && Descending(b) && Above(a, b) {
      forall i, j | 0 <= i < j < |a + b| ensures (a + b)[i] > (a + b)[j] {
        if i < |a| <= j { assert a[i] in a && b[j - |a|] in b; }
      }
    }
    if Descending(a + b) {
      assert forall i :: 0 <= i < |a| ==> (a + b)[i] == a[i];
      assert forall j :: 0 <= j < |b| ==> (a + b)[|a| + j] == b[j];
      forall i, j | 0 <= i < j < |b| ensures b[i] > b[j] {
        assert (a + b)[|a| + i] > (a + b)[|a| + j];
      }
      forall x, y | x in a && y in b ensures x > y {
        var i :| 0 <= i < |a| && a[i] == x;
        var j :| 0 <= j < |b| && b[j] == y;
        assert (a + b)[i] > (a + b)[|a| + j];
      }
    }
  }

  /** All rows of one range are above all rows of those that follow. */
  lemma RangeAboveRest(r: Range, rest: seq<Range>)
    requires r.top <= r.bottom && Proper(rest)
    ensures Above(RowsDown(r), Flatten(rest)) <==> forall j :: 0 <= j < |rest| ==> r.top > rest[j].bottom
  {
    var first, later := RowsDown(r), Flatten(rest);
    forall x | x in later && forall j :: 0 <= j < |rest| ==> r.top > rest[j].bottom ensures x < r.top {
      InFlatten(rest, x);
    }
    forall x | x in first ensures x >= r.top { RowsDownHas(r, x); }
    RowsDownHas(r, r.top);
    forall j | 0 <= j < |rest| && Above(first, later) ensures r.top > rest[j].bottom {
      InFlatten(rest, rest[j].bottom);
    }
  }

  /** Rows are visited in descending order exactly when the ranges are listed from higher to lower. */
  lemma {:induction false} FlattenDescends(ranges: seq<Range>)
    requires Proper(ranges)
    ensures Descending(Flatten(ranges)) <==> HigherToLower(ranges)
  {
    if ranges != [] {
      var rest := ranges[1..];
      FlattenDescends(rest);
      DescendingConcat(RowsDown(ranges[0]), Flatten(rest));
      RangeAboveRest(ranges[0], rest);
      HigherToLowerFirst(ranges);
    }
  }

  lemma HigherToLowerFirst(ranges: seq<Range>)
    requires ranges != []
    ensures HigherToLower(ranges)
       <==> HigherToLower(ranges[1..]) && forall j :: 0 <= j < |ranges[1..]| ==> ranges[0].top > ranges[1..][j].bottom
  {
    var rest := ranges[1..];
    assert forall j :: 0 <= j < |rest| ==> rest[j] == ranges[j + 1];
    if HigherToLower(rest) && forall j :: 0 <= j < |rest| ==> ranges[0].top > rest[j].bottom {
      forall i, j | 0 <= i < j < |ranges| ensures ranges[i].top > ranges[j].bottom {
        assert ranges[j] == rest[j - 1];
        if i > 0 { assert ranges[i] == rest[i - 1]; }
      }
    }
  }

  /** No row is visited twice when the ranges are disjoint. */
  lemma {:induction false} FlattenDistinct(ranges: seq<Range>)
    requires Disjoint(ranges)
    ensures Distinct(Flatten(ranges))
  {
    if ranges != [] {
      var first, rest := RowsDown(ranges[0]), Flatten(ranges[1..]);
      FlattenDistinct(ranges[1..]);
      forall x | x in rest ensures x !in first {
        InFlatten(ranges[1..], x);
        RowsDownHas(ranges[0], x);
        var i :| 0 <= i < |ranges[1..]| && ranges[1..][i].top <= x <= ranges[1..][i].bottom;
        assert ranges[i + 1] == ranges[1..][i];
      }
      forall i, j | 0 <= i < j < |first + rest| ensures (first + rest)[i] != (first + rest)[j] {
        if i < |first| <= j {
          assert first[i] in first && rest[j - |first|] in rest;
        }
      }
    }
  }

  /** For the disjoint ranges of a selection: exactly the selected rows go if and only if the
      ranges are listed from higher to lower. */
  lemma ClearExactIffHigherToLower<T>(s: seq<T>, ranges: seq<Range>)
    requires Distinct(s) && Proper(ranges) && Disjoint(ranges)
    requires forall r :: r in Flatten(ranges) ==> r < |s|
    ensures Exact(s, Flatten(ranges)) <==> HigherToLower(ranges)
  {
    FlattenDistinct(ranges);
    FlattenDescends(ranges);
    ExactIffDescending(s, Flatten(ranges));
  }

  /** Lower range first: of four rows with 0 and 2 selected, rows 0 and 3 go. */
  lemma LowerFirstErasesOthers()
    ensures Flatten([Range(0, 0), Range(2, 2)]) == [0, 2]
    ensures InBounds(4, [0, 2]) && EraseAll(Iota(4), [0, 2]) == [1, 2]
  {
    FlattenTwo(0, 2);
    assert [0, 2][1..] == [2] && [2][1..] == [];
    assert Without(Iota(4), 0) == [1, 2, 3] && Without([1, 2, 3], 2) == [1, 2];
    assert EraseAll([1, 2, 3], [2]) == EraseAll([1, 2], []);
  }

  /** Of two rows that are selected as two ranges, the second erase is out of bounds. */
  lemma LowerFirstRunsOut()
    ensures Flatten([Range(0, 0), Range(1, 1)]) == [0, 1] && !InBounds(2, [0, 1])
  {
    FlattenTwo(0, 1);
    assert [0, 1][1..] == [1];
  }

  lemma FlattenTwo(a: nat, b: nat)
    ensures Flatten([Range(a, a), Range(b, b)]) == [a, b]
  {
    assert RowsDown(Range(a, a)) == [a] && RowsDown(Range(b, b)) == [b];
    assert Flatten([Range(b, b)]) == [b] + Flatten([]);
    assert [Range(a, a), Range(b, b)][1..] == [Range(b, b)];
  }
}
