/** What every run of the transfer queue keeps, whatever the interleaving of attempts. */
module QueueRuns {
  import opened Sequences
  import opened Text
  import opened MultiErase
  import opened Transfers

  // ---------------------------------------------------------------- the invariant

  /** The texts that may stand beside a status. Success is announced by finished entries only. */
  predicate Fits(s: Status, note: Note)
  {
    match s
    case WithoutOperation => false
    case ToUpload => note in {NotYetUploaded, Uploading}
    case FailedToUpload => note in {UploadFailed, PermissionDenied, InvalidFileName, Uploading}
    case FinishedUpload => note == UploadedSuccessfully
    case ToDownload => note in {NotYetDownloaded, Downloading}
    case FailedToDownload => note in {DownloadFailed, PermissionDenied, InvalidFileName, Downloading}
    case FinishedDownload => note == DownloadedSuccessfully
    case ToRemoveLocal => note in {NotYetRemoved, Removing}
    case ToRemoveRemote => note in {NotYetRemoved, Removing}
    case FinishedRemove => note == RemovedSuccessfully
    case FailedToRemoveLocal => note in {RemoveFailed, PermissionDenied, InvalidFileName, Removing}
    case FailedToRemoveRemote => note in {RemoveFailed, PermissionDenied, InvalidFileName, Removing}
  }

  /** Entry and row are those of request `r`, and the entry is finished exactly when `won`. */
  predicate RowRight(f: FileToTransfer, row: Row, r: Request, won: bool)
  {
    && f.info == r.file && f.destination == r.destination && f.source == SourceOf(r.op)
    && Serves(f.status, r.op)
    && row.(note := NotYetRemoved) == Row(f.info.fileName, f.info.filePath, f.destination, f.info.fileSize, NotYetRemoved)
    && Fits(f.status, row.note)
    && (Finished(f.status) <==> won)
  }

  /** A successful completion has hit entry `id`. */
  ghost predicate Won(log: seq<Delivery>, id: nat)
  {
    exists d :: d in log && d.hit == Some(id) && d.ok
  }

  ghost predicate Known(q: Queue)
  {
    && Distinct(q.ids)
    && (forall i :: 0 <= i < |q.ids| ==> q.ids[i] < |q.asked|)
    && (forall a :: a in q.attempts ==> a.id < |q.asked|)
    && (forall d :: d in q.log && d.hit.Some? ==> d.hit.value < |q.asked|)
  }

  ghost predicate RowsRight(q: Queue)
    requires Aligned(q) && Known(q)
  {
    forall i :: 0 <= i < |q.entries| ==> RowRight(q.entries[i], q.table[i], q.asked[q.ids[i]], Won(q.log, q.ids[i]))
  }

  ghost predicate Inv(q: Queue) { Aligned(q) && Known(q) && RowsRight(q) }

  // ---------------------------------------------------------------- one row

  lemma RowKept(f: FileToTransfer, row: Row, r: Request, won: bool, res: Outcome)
    requires RowRight(f, row, r, won)
    ensures !won ==> RowRight(f, row.(note := Busy(f.status)), r, won)
    ensures RowRight(f.(status := Retried(f.status)), row.(note := Busy(Retried(f.status))), r, won) || won
    ensures RowRight(f.(status := Settled(f.status, res.Success?)),
                     row.(note := NoteAfter(f.status, res, f.info.fileName, row.note)), r, won || res.Success?)
  {
  }

  lemma AddKeeps(q: Queue, r: Request)
    requires Inv(q)
    ensures Inv(Added(q, r))
  {
    var q' := Added(q, r);
    assert !Won(q.log, |q.asked|);
    forall i | 0 <= i < |q'.entries|
      ensures RowRight(q'.entries[i], q'.table[i], q'.asked[q'.ids[i]], Won(q'.log, q'.ids[i]))
    {
      if i < |q.entries| {
        assert RowRight(q.entries[i], q.table[i], q.asked[q.ids[i]], Won(q.log, q.ids[i]));
      }
    }
  }

  lemma StartKeeps(q: Queue, row: nat, selected: bool)
    requires Inv(q) && row < |q.entries|
    ensures Inv(StartedRow(q, row, selected))
  {
    var q' := StartedRow(q, row, selected);
    forall i | 0 <= i < |q'.entries|
      ensures RowRight(q'.entries[i], q'.table[i], q'.asked[q'.ids[i]], Won(q'.log, q'.ids[i]))
    {
      RowKept(q.entries[i], q.table[i], q.asked[q.ids[i]], Won(q.log, q.ids[i]), Success);
    }
  }

  lemma {:induction false} StartRowsKeep(q: Queue, rows: seq<nat>, selected: bool)
    requires Inv(q) && Below(rows, |q.entries|)
    ensures Inv(StartedRows(q, rows, selected))
    decreases rows
  {
    if rows != [] {
      assert rows[0] in rows && forall r :: r in rows[1..] ==> r in rows;
      StartKeeps(q, rows[0], selected);
      StartRowsKeep(StartedRow(q, rows[0], selected), rows[1..], selected);
    }
  }

  lemma WonAfter(log: seq<Delivery>, d: Delivery, id: nat)
    ensures Won(log + [d], id) <==> Won(log, id) || (d.hit == Some(id) && d.ok)
  {
    if Won(log, id) {
      var e :| e in log && e.hit == Some(id) && e.ok;
      assert e in log + [d];
    }
    if d.hit == Some(id) && d.ok { assert d in log + [d]; }
  }

  lemma DeliverKeeps(q: Queue, k: nat, res: Outcome)
    requires Inv(q) && k < |q.attempts|
    ensures Inv(Delivered(q, k, res))
  {
    var q', row := Delivered(q, k, res), q.attempts[k].row;
    var d := q'.log[|q.log|];
    assert q.attempts[k] in q.attempts;
    forall i | 0 <= i < |q'.entries|
      ensures RowRight(q'.entries[i], q'.table[i], q'.asked[q'.ids[i]], Won(q'.log, q'.ids[i]))
    {
      RowKept(q.entries[i], q.table[i], q.asked[q.ids[i]], Won(q.log, q.ids[i]), res);
      WonAfter(q.log, d, q.ids[i]);
    }
  }

  lemma EraseOneKeeps(q: Queue, row: nat)
    requires Inv(q) && row < |q.entries|
    ensures Inv(q.(entries := Without(q.entries, row), table := Without(q.table, row), ids := Without(q.ids, row)))
  {
    var q' := q.(entries := Without(q.entries, row), table := Without(q.table, row), ids := Without(q.ids, row));
    forall i | 0 <= i < |q'.entries|
      ensures q'.ids[i] < |q'.asked| && RowRight(q'.entries[i], q'.table[i], q'.asked[q'.ids[i]], Won(q'.log, q'.ids[i]))
    {
      var j := if i < row then i else i + 1;
      assert q'.entries[i] == q.entries[j] && q'.table[i] == q.table[j] && q'.ids[i] == q.ids[j];
    }
  }

  lemma {:induction false} EraseKeeps(q: Queue, rows: seq<nat>)
    requires Inv(q) && InBounds(|q.entries|, rows)
    ensures Inv(Erased(q, rows))
    decreases rows
  {
    if rows != [] {
      var row := rows[0];
      EraseOneKeeps(q, row);
      EraseKeeps(q.(entries := Without(q.entries, row), table := Without(q.table, row), ids := Without(q.ids, row)), rows[1..]);
    }
  }

  lemma StepKeeps(q: Queue, s: Step)
    requires Inv(q) && CanStep(q, s)
    ensures Inv(Next(q, s))
    ensures q.asked <= Next(q, s).asked
  {
    match s
    case Add(r, instant) =>
      AddKeeps(q, r);
      if instant {
        assert Started(Added(q, r), |q.table|) == StartedRow(Added(q, r), |q.table|, false);
        StartKeeps(Added(q, r), |q.table|, false);
      }
    case Start(rows) =>
      StartRowsKeep(q, rows, true);
      StartRowsAsk(q, rows, true);
    case StartEverything =>
      StartRowsKeep(q, Iota(|q.entries|), false);
      StartRowsAsk(q, Iota(|q.entries|), false);
    case Deliver(k, res) => DeliverKeeps(q, k, res);
    case Clear(rows) => EraseKeeps(q, rows);
    case ClearEverything =>
  }

  lemma {:induction false} StartRowsAsk(q: Queue, rows: seq<nat>, selected: bool)
    requires Aligned(q) && Below(rows, |q.entries|)
    ensures var q' := StartedRows(q, rows, selected);
      q'.asked == q.asked && q'.ids == q.ids && q'.log == q.log
    decreases rows
  {
    if rows != [] {
      assert rows[0] in rows && forall r :: r in rows[1..] ==> r in rows;
      StartRowsAsk(StartedRow(q, rows[0], selected), rows[1..], selected);
    }
  }

  // ---------------------------------------------------------------- every run

  /** Main result. In every run from the empty queue, with clears, retries and overlapping
      attempts in any order: table and queue have the same length, row i shows name, path,
      destination and size of entry i, every entry is what was asked for, on its source machine
      and in a status of its operation, and it is finished exactly when a successful completion
      has hit it. */
  lemma {:induction false} RunsKeepInv(qs: seq<Queue>, steps: seq<Step>, i: nat)
    requires Run(qs, steps) && qs[0] == NONE && i < |qs|
    ensures Inv(qs[i])
  {
    if i > 0 {
      RunsKeepInv(qs, steps, i - 1);
      StepKeeps(qs[i - 1], steps[i - 1]);
    }
  }

  /** An entry keeps file, destination, source machine and operation for as long as it is queued. */
  lemma {:induction false} EntryKeepsRequest(qs: seq<Queue>, steps: seq<Step>, i: nat, j: nat, p: nat, r: nat)
    requires Run(qs, steps) && qs[0] == NONE && i <= j < |qs|
    requires p < |qs[i].ids| && r < |qs[j].ids| && qs[i].ids[p] == qs[j].ids[r]
    ensures qs[i].asked <= qs[j].asked
    ensures qs[j].entries[r].(status := WithoutOperation) == qs[i].entries[p].(status := WithoutOperation)
    ensures exists op :: Serves(qs[i].entries[p].status, op) && Serves(qs[j].entries[r].status, op)
                         && qs[i].entries[p].source == SourceOf(op)
    decreases j
  {
    RunsKeepInv(qs, steps, i);
    RunsKeepInv(qs, steps, j);
    AskedGrows(qs, steps, i, j);
    var request := qs[i].asked[qs[i].ids[p]];
    assert qs[j].asked[qs[j].ids[r]] == request;
    assert RowRight(qs[i].entries[p], qs[i].table[p], request, Won(qs[i].log, qs[i].ids[p]));
    assert RowRight(qs[j].entries[r], qs[j].table[r], request, Won(qs[j].log, qs[j].ids[r]));
  }

  lemma {:induction false} AskedGrows(qs: seq<Queue>, steps: seq<Step>, i: nat, j: nat)
    requires Run(qs, steps) && qs[0] == NONE && i <= j < |qs|
    ensures qs[i].asked <= qs[j].asked
    decreases j
  {
    if i < j {
      AskedGrows(qs, steps, i, j - 1);
      RunsKeepInv(qs, steps, j - 1);
      StepKeeps(qs[j - 1], steps[j - 1]);
    }
  }

  // ---------------------------------------------------------------- a completion and its own entry

  predicate InPlace(ids: seq<nat>, a: Attempt) { a.row < |ids| && ids[a.row] == a.id }

  ghost predicate OutOfPlace(ids: seq<nat>, a: Attempt)
  {
    forall i :: 0 <= i < |ids| && ids[i] == a.id ==> i < a.row
  }

  /** The entry for which the attempt was started is still at the row that the attempt carries. */
  predicate Intact(q: Queue, a: Attempt) { InPlace(q.ids, a) }

  /** The entry is gone, or has moved up; it never comes back. */
  ghost predicate Lost(q: Queue, a: Attempt) { OutOfPlace(q.ids, a) }

  /** A row at or below this row number is removed. */
  predicate Disturbs(s: Step, row: nat)
  {
    match s
    case Clear(rows) => exists r :: r in rows && r <= row
    case ClearEverything => true
    case _ => false
  }

  lemma {:induction false} EraseMoves(ids: seq<nat>, rows: seq<nat>, a: Attempt)
    requires Distinct(ids) && InBounds(|ids|, rows) && InPlace(ids, a)
    ensures if exists r :: r in rows && r <= a.row then OutOfPlace(EraseAll(ids, rows), a) else InPlace(EraseAll(ids, rows), a)
    decreases rows
  {
    if rows != [] {
      var ids' := Without(ids, rows[0]);
      assert EraseAll(ids, rows) == EraseAll(ids', rows[1..]);
      assert rows == [rows[0]] + rows[1..] && rows[0] in rows;
      if rows[0] <= a.row {
        forall i | 0 <= i < |ids'| && ids'[i] == a.id ensures i < a.row {
          assert ids'[i] == ids[if i < rows[0] then i else i + 1];
        }
        LostStaysLost(ids', rows[1..], a);
      } else {
        EraseMoves(ids', rows[1..], a);
        assert forall r :: r in rows && r <= a.row ==> r in rows[1..];
        assert forall r :: r in rows[1..] ==> r in rows;
      }
    }
  }

  lemma {:induction false} LostStaysLost(ids: seq<nat>, rows: seq<nat>, a: Attempt)
    requires InBounds(|ids|, rows) && OutOfPlace(ids, a)
    ensures OutOfPlace(EraseAll(ids, rows), a)
    decreases rows
  {
    if rows != [] {
      var ids' := Without(ids, rows[0]);
      forall i | 0 <= i < |ids'| && ids'[i] == a.id ensures i < a.row {
        if i < rows[0] { assert ids'[i] == ids[i]; } else { assert ids'[i] == ids[i + 1]; }
      }
      LostStaysLost(ids', rows[1..], a);
      assert EraseAll(ids, rows) == EraseAll(ids', rows[1..]);
    }
  }

  lemma IdsAfter(q: Queue, s: Step)
    requires Aligned(q) && CanStep(q, s)
    ensures Next(q, s).ids == match s
      case Add(_, _) => q.ids + [|q.asked|]
      case Clear(rows) => EraseAll(q.ids, rows)
      case ClearEverything => []
      case _ => q.ids
  {
    if s.Start? { StartRowsAsk(q, s.rows, true); }
    if s.StartEverything? { StartRowsAsk(q, Iota(|q.entries|), false); }
  }

  lemma StepMovesEntry(q: Queue, s: Step, a: Attempt)
    requires Inv(q) && CanStep(q, s) && a.id < |q.asked|
    ensures Intact(q, a) ==> if Disturbs(s, a.row) then Lost(Next(q, s), a) else Intact(Next(q, s), a)
    ensures Lost(q, a) ==> Lost(Next(q, s), a)
  {
    IdsAfter(q, s);
    if s.Clear? {
      if Intact(q, a) { EraseMoves(q.ids, s.rows, a); }
      if Lost(q, a) { LostStaysLost(q.ids, s.rows, a); }
    }
  }

  /** Main result. An attempt that was started at the row of its entry finds the entry there
      later if and only if no row at or below that row number has been removed in between.
      Appends and removals of higher rows never disturb it. */
  lemma {:induction false} CompletionFindsItsEntry(qs: seq<Queue>, steps: seq<Step>, i: nat, j: nat, a: Attempt)
    requires Run(qs, steps) && qs[0] == NONE && i <= j < |qs|
    requires a.id < |qs[i].asked| && Intact(qs[i], a)
    ensures Intact(qs[j], a) <==> forall m :: i <= m < j ==> !Disturbs(steps[m], a.row)
    ensures !Intact(qs[j], a) ==> Lost(qs[j], a)
    decreases j
  {
    if i < j {
      CompletionFindsItsEntry(qs, steps, i, j - 1, a);
      RunsKeepInv(qs, steps, j - 1);
      AskedGrows(qs, steps, i, j - 1);
      StepMovesEntry(qs[j - 1], steps[j - 1], a);
    }
  }

  /** A clear removes no row whose number is at most that of an attempt in flight. */
  ghost predicate Considerate(q: Queue, s: Step)
  {
    forall a :: a in q.attempts ==> !Disturbs(s, a.row)
  }

  ghost predicate AllOwn(q: Queue)
  {
    && (forall a :: a in q.attempts ==> Intact(q, a))
    && (forall d :: d in q.log ==> d.hit == Some(d.id))
  }

  lemma {:induction false} StartRowsIntact(q: Queue, rows: seq<nat>, selected: bool)
    requires Aligned(q) && AllOwn(q) && Below(rows, |q.entries|)
    ensures AllOwn(StartedRows(q, rows, selected))
    decreases rows
  {
    if rows != [] {
      assert rows[0] in rows && forall r :: r in rows[1..] ==> r in rows;
      StartRowsIntact(StartedRow(q, rows[0], selected), rows[1..], selected);
    }
  }

  lemma StepKeepsAllOwn(q: Queue, s: Step)
    requires Inv(q) && CanStep(q, s) && AllOwn(q) && Considerate(q, s)
    ensures AllOwn(Next(q, s))
  {
    match s
    case Add(r, instant) =>
      assert forall a :: a in q.attempts ==> Intact(Added(q, r), a);
    case Start(rows) => StartRowsIntact(q, rows, true);
    case StartEverything => StartRowsIntact(q, Iota(|q.entries|), false);
    case Deliver(k, res) => assert q.attempts[k] in q.attempts;
    case Clear(rows) =>
      forall a | a in q.attempts ensures Intact(Next(q, s), a) { StepMovesEntry(q, s, a); }
    case ClearEverything =>
      assert forall a :: a in q.attempts ==> Disturbs(s, a.row);
  }

  /** Main result. Success wins: in every run in which no clear removes a row whose number is at
      most that of an attempt in flight, an entry is finished if and only if one of its own
      attempts has come back successful. */
  lemma {:induction false} SuccessWins(qs: seq<Queue>, steps: seq<Step>, i: nat)
    requires Run(qs, steps) && qs[0] == NONE && i < |qs|
    requires forall m :: 0 <= m < |steps| ==> Considerate(qs[m], steps[m])
    ensures AllOwn(qs[i]) && Inv(qs[i])
    ensures forall p :: 0 <= p < |qs[i].entries| ==>
      (Finished(qs[i].entries[p].status) <==> exists d :: d in qs[i].log && d.id == qs[i].ids[p] && d.ok)
  {
    RunsKeepInv(qs, steps, i);
    if i > 0 {
      SuccessWins(qs, steps, i - 1);
      StepKeepsAllOwn(qs[i - 1], steps[i - 1]);
    }
    var q := qs[i];
    forall p | 0 <= p < |q.entries|
      ensures Finished(q.entries[p].status) <==> exists d :: d in q.log && d.id == q.ids[p] && d.ok
    {
      assert RowRight(q.entries[p], q.table[p], q.asked[q.ids[p]], Won(q.log, q.ids[p]));
    }
  }

  ghost predicate RowIsId(q: Queue)
  {
    && |q.ids| == |q.asked| && (forall p :: 0 <= p < |q.ids| ==> q.ids[p] == p)
    && (forall d :: d in q.log ==> d.row == d.id)
  }

  lemma NoClearStep(q: Queue, s: Step)
    requires Inv(q) && AllOwn(q) && RowIsId(q) && CanStep(q, s) && !s.Clear? && !s.ClearEverything?
    ensures RowIsId(Next(q, s))
  {
    IdsAfter(q, s);
    if s.Start? { StartRowsAsk(q, s.rows, true); }
    if s.StartEverything? { StartRowsAsk(q, Iota(|q.entries|), false); }
    if s.Deliver? {
      assert q.attempts[s.k] in q.attempts;
      assert Intact(q, q.attempts[s.k]);
    }
  }

  lemma {:induction false} NoClearRun(qs: seq<Queue>, steps: seq<Step>, i: nat)
    requires Run(qs, steps) && qs[0] == NONE && i < |qs|
    requires forall m :: 0 <= m < |steps| ==> !steps[m].Clear? && !steps[m].ClearEverything?
    ensures RowIsId(qs[i])
  {
    if i > 0 {
      NoClearRun(qs, steps, i - 1);
      SuccessWins(qs, steps, i - 1);
      NoClearStep(qs[i - 1], steps[i - 1]);
    }
  }

  /** Without clears, rows stand for entries: row p is finished if and only if a completion
      for row p has succeeded so far. */
  lemma SuccessWinsByRow(qs: seq<Queue>, steps: seq<Step>, i: nat, p: nat)
    requires Run(qs, steps) && qs[0] == NONE && i < |qs|
    requires forall m :: 0 <= m < |steps| ==> !steps[m].Clear? && !steps[m].ClearEverything?
    requires p < |qs[i].entries|
    ensures p < |qs[i].asked| && qs[i].asked[p].file == qs[i].entries[p].info
    ensures Finished(qs[i].entries[p].status) <==> exists d :: d in qs[i].log && d.row == p && d.ok
  {
    SuccessWins(qs, steps, i);
    NoClearRun(qs, steps, i);
    var q := qs[i];
    assert RowRight(q.entries[p], q.table[p], q.asked[q.ids[p]], Won(q.log, q.ids[p]));
    assert (exists d :: d in q.log && d.row == p && d.ok) <==> (exists d :: d in q.log && d.id == q.ids[p] && d.ok);
  }

  /** A finished entry stays finished in whatever step comes next. */
  lemma FinishedForGood(q: Queue, s: Step, p: nat, r: nat)
    requires Inv(q) && CanStep(q, s)
    requires p < |q.ids| && r < |Next(q, s).ids| && q.ids[p] == Next(q, s).ids[r]
    requires Finished(q.entries[p].status)
    ensures Finished(Next(q, s).entries[r].status)
  {
    var q' := Next(q, s);
    StepKeeps(q, s);
    assert RowRight(q.entries[p], q.table[p], q.asked[q.ids[p]], Won(q.log, q.ids[p]));
    assert RowRight(q'.entries[r], q'.table[r], q'.asked[q'.ids[r]], Won(q'.log, q'.ids[r]));
    var d :| d in q.log && d.hit == Some(q.ids[p]) && d.ok;
    if s.Start? { StartRowsAsk(q, s.rows, true); }
    if s.StartEverything? { StartRowsAsk(q, Iota(|q.entries|), false); }
    assert d in q'.log;
  }

  lemma TwoRunning(first: Request, second: Request)
    ensures var q := Next(Next(NONE, Add(first, true)), Add(second, true));
      && q.entries == [EntryOf(first), EntryOf(second)] && q.ids == [0, 1] && |q.table| == 2
      && q.attempts == [Attempt(0, 0), Attempt(1, 1)] && q.log == []
  {
    var q1 := Next(NONE, Add(first, true));
    assert q1.entries == [EntryOf(first)] && q1.ids == [0] && q1.attempts == [Attempt(0, 0)] && q1.log == [];
    assert |q1.table| == 1 && |q1.asked| == 1;
  }

  lemma EraseFirstOfTwo<T>(a: T, b: T)
    ensures InBounds(2, [0]) && EraseAll([a, b], [0]) == [b]
  {
    assert [0][1..] == [] && Without([a, b], 0) == [b];
  }

  /** Clearing the row of a running attempt makes a completion finish the wrong entry: the
      success of the first upload marks the second, which has not come back at all. */
  lemma MisdirectedCompletion(first: Request, second: Request) returns (qs: seq<Queue>, steps: seq<Step>)
    ensures Run(qs, steps) && qs[0] == NONE
    ensures var q := qs[|steps|];
      q.ids == [1] && |q.entries| == 1 && Finished(q.entries[0].status) && q.log == [Delivery(0, 0, Some(1), true)]
  {
    TwoRunning(first, second);
    EraseFirstOfTwo(EntryOf(first), EntryOf(second));
    EraseFirstOfTwo<nat>(0, 1);
    qs, steps := [NONE], [];
    qs, steps := Extended(qs, steps, Add(first, true));
    qs, steps := Extended(qs, steps, Add(second, true));
    qs, steps := Extended(qs, steps, Clear([0]));
    var q := qs[|steps|];
    assert q.entries == [EntryOf(second)] && q.ids == [1] && q.attempts[0] == Attempt(0, 0) && q.log == [];
    qs, steps := Extended(qs, steps, Deliver(0, Success));
  }

  lemma Extended(qs: seq<Queue>, steps: seq<Step>, s: Step) returns (qs': seq<Queue>, steps': seq<Step>)
    requires Run(qs, steps) && CanStep(qs[|steps|], s)
    ensures Run(qs', steps') && qs'[0] == qs[0] && qs'[|steps'|] == Next(qs[|steps|], s)
  {
    qs', steps' := qs + [Next(qs[|steps|], s)], steps + [s];
  }

  // ---------------------------------------------------------------- the order of completions

  datatype Completion = Completion(row: nat, res: Outcome)

  function CompletedAll(q: Queue, cs: seq<Completion>): (q': Queue)
    requires Aligned(q)
    ensures Aligned(q') && |q'.entries| == |q.entries|
    decreases cs
  {
    if cs == [] then q else CompletedAll(Completed(q, cs[0].row, cs[0].res), cs[1..])
  }

  ghost predicate SomeFor(cs: seq<Completion>, row: nat) { exists c :: c in cs && c.row == row }

  ghost predicate SuccessFor(cs: seq<Completion>, row: nat) { exists c :: c in cs && c.row == row && c.res.Success? }

  /** The status a row ends with depends only on whether a completion, and whether a successful
      one, is among those that came. */
  lemma {:induction false} StatusAfterAll(q: Queue, cs: seq<Completion>, row: nat)
    requires Aligned(q) && row < |q.entries|
    ensures CompletedAll(q, cs).entries[row]
         == if SomeFor(cs, row) then q.entries[row].(status := Settled(q.entries[row].status, SuccessFor(cs, row)))
            else q.entries[row]
    decreases cs
  {
    if cs != [] {
      assert cs == [cs[0]] + cs[1..];
      StatusAfterAll(Completed(q, cs[0].row, cs[0].res), cs[1..], row);
    }
  }

  /** Completions in flight may come back in any order. */
  lemma OrderDoesNotMatter(q: Queue, cs: seq<Completion>, ds: seq<Completion>)
    requires Aligned(q) && multiset(cs) == multiset(ds)
    ensures CompletedAll(q, cs).entries == CompletedAll(q, ds).entries
  {
    assert forall c :: c in cs <==> c in multiset(cs);
    assert forall c :: c in ds <==> c in multiset(ds);
    forall row | 0 <= row < |q.entries|
      ensures CompletedAll(q, cs).entries[row] == CompletedAll(q, ds).entries[row]
    {
      StatusAfterAll(q, cs, row);
      StatusAfterAll(q, ds, row);
      assert SomeFor(cs, row) <==> SomeFor(ds, row);
      assert SuccessFor(cs, row) <==> SuccessFor(ds, row);
    }
  }

  // ---------------------------------------------------------------- starting

  lemma Associative<T>(a: seq<T>, b: seq<T>, c: seq<T>)
    ensures a + b + c == a + (b + c)
  {
  }

  function LaunchedAt(q: Queue, row: nat): seq<Attempt>
    requires Aligned(q) && row < |q.entries|
  {
    if Finished(q.entries[row].status) then [] else [Attempt(row, q.ids[row])]
  }

  /** The attempts that starting `rows` makes: one for each unfinished row, none for a finished one. */
  function Launched(q: Queue, rows: seq<nat>): seq<Attempt>
    requires Aligned(q) && Below(rows, |q.entries|)
    decreases rows
  {
    if rows == [] then []
    else
      assert rows[0] in rows && forall r :: r in rows[1..] ==> r in rows;
      LaunchedAt(q, rows[0]) + Launched(q, rows[1..])
  }

  ghost predicate SameFinished(q: Queue, q': Queue)
    requires Aligned(q) && Aligned(q')
  {
    && |q.entries| == |q'.entries| && q.ids == q'.ids
    && forall r :: 0 <= r < |q.entries| ==> (Finished(q.entries[r].status) <==> Finished(q'.entries[r].status))
  }

  lemma {:induction false} LaunchedSame(q: Queue, q': Queue, rows: seq<nat>)
    requires Aligned(q) && Aligned(q') && SameFinished(q, q') && Below(rows, |q.entries|)
    ensures Launched(q, rows) == Launched(q', rows)
    decreases rows
  {
    if rows != [] {
      assert rows[0] in rows && forall r :: r in rows[1..] ==> r in rows;
      LaunchedSame(q, q', rows[1..]);
    }
  }

  lemma StartLaunchesOne(q: Queue, row: nat, selected: bool)
    requires Inv(q) && row < |q.entries|
    ensures SameFinished(q, StartedRow(q, row, selected))
    ensures StartedRow(q, row, selected).attempts == q.attempts + LaunchedAt(q, row)
  {
    assert RowRight(q.entries[row], q.table[row], q.asked[q.ids[row]], Won(q.log, q.ids[row]));
  }

  lemma {:induction false} StartLaunches(q: Queue, rows: seq<nat>, selected: bool)
    requires Inv(q) && Below(rows, |q.entries|)
    ensures StartedRows(q, rows, selected).attempts == q.attempts + Launched(q, rows)
    decreases rows
  {
    if rows == [] {
      assert q.attempts + [] == q.attempts;
    } else {
      assert rows[0] in rows && forall r :: r in rows[1..] ==> r in rows;
      var q1 := StartedRow(q, rows[0], selected);
      StartKeeps(q, rows[0], selected);
      StartLaunchesOne(q, rows[0], selected);
      LaunchedSame(q, q1, rows[1..]);
      StartLaunches(q1, rows[1..], selected);
      Associative(q.attempts, LaunchedAt(q, rows[0]), Launched(q, rows[1..]));
    }
  }

  /** Each selected unfinished row is started exactly once, and no finished one. */
  lemma {:induction false} EachRowOnce(q: Queue, rows: seq<nat>, r: nat)
    requires Aligned(q) && Below(rows, |q.entries|) && Distinct(rows)
    requires r < |q.entries|
    ensures multiset(Launched(q, rows))[Attempt(r, q.ids[r])]
         == if r in rows && !Finished(q.entries[r].status) then 1 else 0
    ensures forall a :: a in Launched(q, rows) ==> a.row in rows && a.id == q.ids[a.row]
    decreases rows
  {
    if rows != [] {
      assert rows[0] in rows && forall x :: x in rows[1..] ==> x in rows;
      assert rows == [rows[0]] + rows[1..];
      EachRowOnce(q, rows[1..], r);
    }
  }

  /** start_transfer_files on a selection of disjoint ranges. */
  lemma SelectionStartsEachOnce(q: Queue, ranges: seq<Range>, r: nat) returns (launched: seq<Attempt>)
    requires Inv(q) && Disjoint(ranges) && r < |q.entries|
    requires Below(Flatten(ranges), |q.entries|)
    ensures StartedRows(q, Flatten(ranges), true).attempts == q.attempts + launched
    ensures multiset(launched)[Attempt(r, q.ids[r])]
         == if (exists i :: 0 <= i < |ranges| && ranges[i].top <= r <= ranges[i].bottom) && !Finished(q.entries[r].status)
            then 1 else 0
    ensures forall a :: a in launched ==> a.row in Flatten(ranges) && a.id == q.ids[a.row]
  {
    launched := Launched(q, Flatten(ranges));
    StartLaunches(q, Flatten(ranges), true);
    FlattenDistinct(ranges);
    EachRowOnce(q, Flatten(ranges), r);
    InFlatten(ranges, r);
  }

  /** start_transfer_files without a selection. */
  lemma EverythingStartsEachOnce(q: Queue, r: nat) returns (launched: seq<Attempt>)
    requires Inv(q) && r < |q.entries|
    ensures Next(q, StartEverything).attempts == q.attempts + launched
    ensures multiset(launched)[Attempt(r, q.ids[r])] == if Finished(q.entries[r].status) then 0 else 1
  {
    var rows := Iota(|q.entries|);
    launched := Launched(q, rows);
    StartLaunches(q, rows, false);
    assert rows[r] == r;
    EachRowOnce(q, rows, r);
  }

  // ---------------------------------------------------------------- clearing

  /** clear_files on a selection of disjoint ranges, in any queue that can come up: exactly the
      selected rows go, from deque and table together, if and only if the ranges are listed from
      higher to lower. Entries are told apart by their identity, since files may repeat. */
  lemma QueueClearExactIffHigherToLower(q: Queue, ranges: seq<Range>)
    requires Inv(q) && Proper(ranges) && Disjoint(ranges) && Below(Flatten(ranges), |q.entries|)
    ensures Exact(q.ids, Flatten(ranges)) && Exact(q.entries, Flatten(ranges)) && Exact(q.table, Flatten(ranges))
       <==> HigherToLower(ranges)
    ensures HigherToLower(ranges) ==>
      && CanStep(q, Clear(Flatten(ranges)))
      && Next(q, Clear(Flatten(ranges))) == q.(ids := Kept(q.ids, Flatten(ranges), |q.ids|),
                                              entries := Kept(q.entries, Flatten(ranges), |q.entries|),
                                              table := Kept(q.table, Flatten(ranges), |q.table|))
  {
    ClearExactIffHigherToLower(q.ids, ranges);
    if HigherToLower(ranges) {
      FlattenDescends(ranges);
      DescendingErases(q.entries, Flatten(ranges));
      DescendingErases(q.table, Flatten(ranges));
    }
  }

  /** An entry survives such a clear if and only if its row is in none of the ranges. */
  lemma ClearKeepsUnselected(q: Queue, ranges: seq<Range>, p: nat)
    requires Inv(q) && Proper(ranges) && Disjoint(ranges) && Below(Flatten(ranges), |q.entries|)
    requires HigherToLower(ranges) && p < |q.ids|
    ensures CanStep(q, Clear(Flatten(ranges)))
    ensures q.ids[p] in Next(q, Clear(Flatten(ranges))).ids <==> forall r :: r in ranges ==> p < r.top || r.bottom < p
  {
    QueueClearExactIffHigherToLower(q, ranges);
    KeptHas(q.ids, Flatten(ranges), |q.ids|, p);
    InFlatten(ranges, p);
    assert p in Flatten(ranges) <==> exists r :: r in ranges && r.top <= p <= r.bottom;
  }
}
