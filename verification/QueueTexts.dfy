/** What an entry shows, told from the operation it was queued for and the last thing that happened
    to it; and which side of the dialog a completion refreshes. */
module QueueTexts {
  import opened Sequences
  import opened Text
  import opened MultiErase
  import opened Transfers
  import opened QueueRuns

  /** The request behind row `row`. */
  function AskedAt(q: Queue, row: nat): Request
    requires row < |q.ids| && q.ids[row] < |q.asked|
  {
    q.asked[q.ids[row]]
  }

  lemma RowIsRight(q: Queue, row: nat)
    requires Inv(q) && row < |q.entries|
    ensures q.ids[row] < |q.asked|
    ensures RowRight(q.entries[row], q.table[row], AskedAt(q, row), Won(q.log, q.ids[row]))
  {
  }

  // ---------------------------------------------------------------- refreshing

  /** The completion makes the row finished, which it was not before. */
  predicate Finishes(q: Queue, row: nat, res: Outcome)
    requires Aligned(q)
  {
    row < |q.entries| && !Finished(q.entries[row].status) && Finished(Completed(q, row, res).entries[row].status)
  }

  /** Main result. A completion refreshes the remote side exactly if it finishes an upload or a
      remote removal, and the local side exactly if it finishes a download or a local removal. */
  lemma CompletionRefreshes(q: Queue, row: nat, res: Outcome)
    requires Inv(q)
    ensures ChangesRemote(q, row, res)
       <==> Finishes(q, row, res) && (AskedAt(q, row).op == Upload || AskedAt(q, row).op == RemoveRemote)
    ensures ChangesLocal(q, row, res)
       <==> Finishes(q, row, res) && (AskedAt(q, row).op == Download || AskedAt(q, row).op == RemoveLocal)
  {
    if row < |q.entries| { RowIsRight(q, row); }
  }

  // ---------------------------------------------------------------- what each event leaves

  /** A new entry waits; with `instant` it is running. */
  lemma ShownWhenAdded(q: Queue, r: Request, instant: bool)
    requires Inv(q)
    ensures var q', n := Next(q, Add(r, instant)), |q.entries|;
      && |q'.entries| == n + 1 && q'.ids[n] == |q.asked| && q'.asked == q.asked + [r]
      && q'.table[n].note == match r.op
         case Upload => if instant then Uploading else NotYetUploaded
         case Download => if instant then Downloading else NotYetDownloaded
         case RemoveLocal => if instant then Removing else NotYetRemoved
         case RemoveRemote => if instant then Removing else NotYetRemoved
  {
  }

  /** The completion of an unfinished entry, whatever it was for and however it ended. */
  lemma ShownWhenCompleted(q: Queue, row: nat, res: Outcome)
    requires Inv(q) && row < |q.entries| && !Finished(q.entries[row].status)
    ensures q.ids[row] < |q.asked|
    ensures var q', op := Completed(q, row, res), AskedAt(q, row).op;
      && q'.entries[row].status == (match op
         case Upload => if res == Success then FinishedUpload else FailedToUpload
         case Download => if res == Success then FinishedDownload else FailedToDownload
         case RemoveLocal => if res == Success then FinishedRemove else FailedToRemoveLocal
         case RemoveRemote => if res == Success then FinishedRemove else FailedToRemoveRemote)
      && q'.table[row].note == match res
         case Success => (match op
           case Upload => UploadedSuccessfully
           case Download => DownloadedSuccessfully
           case RemoveLocal => RemovedSuccessfully
           case RemoveRemote => RemovedSuccessfully)
         case Denied => if '\\' in AskedAt(q, row).file.fileName then InvalidFileName else PermissionDenied
         case OtherError => if '\\' in AskedAt(q, row).file.fileName then InvalidFileName else match op
           case Upload => UploadFailed
           case Download => DownloadFailed
           case RemoveLocal => RemoveFailed
           case RemoveRemote => RemoveFailed
  {
    RowIsRight(q, row);
  }

  /** A finished entry keeps status and text, however many completions still come for it. */
  lemma ShownWhenFinished(q: Queue, row: nat, res: Outcome)
    requires Inv(q) && row < |q.entries| && Finished(q.entries[row].status)
    ensures Completed(q, row, res).entries[row] == q.entries[row] && Completed(q, row, res).table[row] == q.table[row]
  {
  }

  /** An unfinished entry after it was started: it is labelled as running; a selected start turns
      failed uploads and downloads back, and leaves the status of removals alone. */
  ghost predicate ShownAsStarted(f: FileToTransfer, f': FileToTransfer, row: Row, row': Row, op: Operation, selected: bool)
  {
    && f' == f.(status := match op
         case Upload => if selected then ToUpload else f.status
         case Download => if selected then ToDownload else f.status
         case RemoveLocal => f.status
         case RemoveRemote => f.status)
    && row' == row.(note := match op
         case Upload => Uploading
         case Download => Downloading
         case RemoveLocal => Removing
         case RemoveRemote => Removing)
  }

  lemma ShownWhenOneStarted(q: Queue, row: nat, selected: bool, p: nat)
    requires Inv(q) && row < |q.entries| && p < |q.entries|
    ensures var q' := StartedRow(q, row, selected);
      if p == row && !Finished(q.entries[p].status)
      then ShownAsStarted(q.entries[p], q'.entries[p], q.table[p], q'.table[p], AskedAt(q, p).op, selected)
      else q'.entries[p] == q.entries[p] && q'.table[p] == q.table[p]
  {
    RowIsRight(q, p);
  }

  lemma FinishedOrNot(q: Queue, row: nat, selected: bool, p: nat)
    requires Inv(q) && row < |q.entries| && p < |q.entries|
    ensures var q' := StartedRow(q, row, selected);
      AskedAt(q', p) == AskedAt(q, p) && (Finished(q'.entries[p].status) <==> Finished(q.entries[p].status))
  {
    StartLaunchesOne(q, row, selected);
  }

  lemma {:induction false} ShownWhenStarted(q: Queue, rows: seq<nat>, selected: bool, p: nat)
    requires Inv(q) && Below(rows, |q.entries|) && p < |q.entries|
    ensures var q' := StartedRows(q, rows, selected);
      if p in rows && !Finished(q.entries[p].status)
      then ShownAsStarted(q.entries[p], q'.entries[p], q.table[p], q'.table[p], AskedAt(q, p).op, selected)
      else q'.entries[p] == q.entries[p] && q'.table[p] == q.table[p]
    decreases rows
  {
    if rows != [] {
      assert rows[0] in rows && forall r :: r in rows[1..] ==> r in rows;
      var q1 := StartedRow(q, rows[0], selected);
      assert rows == [rows[0]] + rows[1..];
      StartKeeps(q, rows[0], selected);
      ShownWhenOneStarted(q, rows[0], selected, p);
      ShownWhenStarted(q1, rows[1..], selected, p);
      FinishedOrNot(q, rows[0], selected, p);
    }
  }

  /** start_transfer_files: with a selection, for the selected rows; without one, for every row, and
      then no status changes. */
  lemma ShownAfterStart(q: Queue, ranges: seq<Range>, p: nat)
    requires Inv(q) && Below(Flatten(ranges), |q.entries|) && p < |q.entries|
    ensures var q', selected := Next(q, Start(Flatten(ranges))), exists r :: r in ranges && r.top <= p <= r.bottom;
      if selected && !Finished(q.entries[p].status)
      then ShownAsStarted(q.entries[p], q'.entries[p], q.table[p], q'.table[p], AskedAt(q, p).op, true)
      else q'.entries[p] == q.entries[p] && q'.table[p] == q.table[p]
    ensures var q' := Next(q, StartEverything);
      && q'.entries[p] == q.entries[p]
      && if !Finished(q.entries[p].status)
         then ShownAsStarted(q.entries[p], q'.entries[p], q.table[p], q'.table[p], AskedAt(q, p).op, false)
         else q'.table[p] == q.table[p]
  {
    InFlatten(ranges, p);
    assert p in Flatten(ranges) <==> exists r :: r in ranges && r.top <= p <= r.bottom;
    ShownWhenStarted(q, Flatten(ranges), true, p);
    assert Iota(|q.entries|)[p] == p;
    ShownWhenStarted(q, Iota(|q.entries|), false, p);
  }

  // ---------------------------------------------------------------- and until the next one

  /** The step starts entry `id`, or a completion hits it. */
  predicate Touches(q: Queue, s: Step, id: nat)
  {
    match s
    case Start(rows) => exists r :: r in rows && r < |q.ids| && q.ids[r] == id
    case StartEverything => true
    case Deliver(k, _) => k < |q.attempts| && q.attempts[k].row < |q.ids| && q.ids[q.attempts[k].row] == id
    case _ => false
  }

  lemma ErasingKeepsOthers(q: Queue, rows: seq<nat>, p: nat, r: nat)
    requires Inv(q) && InBounds(|q.entries|, rows)
    requires p < |q.ids| && r < |Erased(q, rows).ids| && q.ids[p] == Erased(q, rows).ids[r]
    ensures Erased(q, rows).entries[r] == q.entries[p] && Erased(q, rows).table[r] == q.table[p]
  {
    var idx := Iota(|q.entries|);
    EraseAllPicks(q.ids, q.ids, idx, rows);
    EraseAllPicks(q.entries, q.entries, idx, rows);
    EraseAllPicks(q.table, q.table, idx, rows);
    var at := EraseAll(idx, rows)[r];
    assert q.ids[at] == q.ids[p];
  }

  lemma UntouchedStep(q: Queue, s: Step, p: nat, r: nat)
    requires Inv(q) && CanStep(q, s) && p < |q.ids| && r < |Next(q, s).ids| && q.ids[p] == Next(q, s).ids[r]
    requires !Touches(q, s, q.ids[p])
    ensures Next(q, s).entries[r] == q.entries[p] && Next(q, s).table[r] == q.table[p]
  {
    IdsAfter(q, s);
    match s
    case Clear(rows) => ErasingKeepsOthers(q, rows, p, r);
    case Start(rows) =>
      assert r == p;
      ShownWhenStarted(q, rows, true, p);
    case Deliver(k, res) => assert r == p;
    case Add(_, _) => assert r == p;
    case StartEverything =>
    case ClearEverything =>
  }

  /** An entry that was asked for before the step and is queued after it was queued before it. */
  lemma WasThere(q: Queue, s: Step, r: nat) returns (p: nat)
    requires Inv(q) && CanStep(q, s) && r < |Next(q, s).ids| && Next(q, s).ids[r] < |q.asked|
    ensures p < |q.ids| && q.ids[p] == Next(q, s).ids[r]
  {
    IdsAfter(q, s);
    p := r;
    if s.Clear? {
      EraseAllPicks(q.ids, q.ids, Iota(|q.ids|), s.rows);
      p := EraseAll(Iota(|q.ids|), s.rows)[r];
    }
  }

  lemma ShownBefore(q: Queue, s: Step, q': Queue, id: nat, r: nat) returns (b: nat)
    requires Inv(q) && CanStep(q, s) && q' == Next(q, s)
    requires r < |q'.ids| && q'.ids[r] == id < |q.asked| && !Touches(q, s, id)
    ensures b < |q.ids| <= |q.entries| && |q.ids| <= |q.table| && q.ids[b] == id
    ensures q'.entries[r] == q.entries[b] && q'.table[r] == q.table[b]
  {
    b := WasThere(q, s, r);
    UntouchedStep(q, s, b, r);
  }

  lemma IdIsAsked(qs: seq<Queue>, steps: seq<Step>, i: nat, j: nat, p: nat)
    requires Run(qs, steps) && qs[0] == NONE && i <= j < |qs| && p < |qs[i].ids|
    ensures qs[i].ids[p] < |qs[j].asked| && Distinct(qs[i].ids) && Inv(qs[j])
  {
    RunsKeepInv(qs, steps, i);
    RunsKeepInv(qs, steps, j);
    AskedGrows(qs, steps, i, j);
  }

  /** Main result. Status and text of an entry stay what the last event left, through additions,
      clears and whatever happens to other entries, until it is started or a completion hits it. */
  lemma {:induction false} ShownUntilTouched(qs: seq<Queue>, steps: seq<Step>, i: nat, j: nat, p: nat, r: nat)
    requires Run(qs, steps) && qs[0] == NONE && i <= j < |qs|
    requires p < |qs[i].ids| && r < |qs[j].ids| && qs[i].ids[p] == qs[j].ids[r]
    requires forall m :: i <= m < j ==> !Touches(qs[m], steps[m], qs[i].ids[p])
    ensures qs[j].entries[r] == qs[i].entries[p] && qs[j].table[r] == qs[i].table[p]
    decreases j
  {
    if i == j {
      IdIsAsked(qs, steps, i, i, p);
    } else {
      IdIsAsked(qs, steps, i, j - 1, p);
      var b := ShownBefore(qs[j - 1], steps[j - 1], qs[j], qs[i].ids[p], r);
      ShownUntilTouched(qs, steps, i, j - 1, p, b);
    }
  }
}
