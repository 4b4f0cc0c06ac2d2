/** The queue half of the dialog as the object it is: files_to_transfer and its table, changed
    in place, each method proved to have the effect that module Transfers gives it. */
module TransferQueue {
  import opened Sequences
  import opened Text
  import opened RemoteListing
  import opened MultiErase
  import opened Transfers
  import opened QueueRuns

  /** The requests of one selected range, from its top row to its bottom row. */
  function RequestsOfRange(op: Operation, files: seq<OneFile>, destination: string, r: Range): seq<Request>
    requires r.bottom < |files|
    decreases r.bottom + 1 - r.top
  {
    if r.top > r.bottom then []
    else [Request(op, files[r.top], destination)] + RequestsOfRange(op, files, destination, Range(r.top + 1, r.bottom))
  }

  ghost predicate Within(ranges: seq<Range>, n: nat) { forall r :: r in ranges ==> r.bottom < n }

  function RequestsOf(op: Operation, files: seq<OneFile>, destination: string, ranges: seq<Range>): seq<Request>
    requires Within(ranges, |files|)
  {
    if ranges == [] then []
    else
      assert ranges[0] in ranges && forall r :: r in ranges[1..] ==> r in ranges;
      RequestsOfRange(op, files, destination, ranges[0]) + RequestsOf(op, files, destination, ranges[1..])
  }

  // ---------------------------------------------------------------- which files a selection queues

  /** How many rows the ranges select together. */
  function RowCount(ranges: seq<Range>): nat
  {
    if ranges == [] then 0
    else (if ranges[0].top > ranges[0].bottom then 0 else ranges[0].bottom + 1 - ranges[0].top) + RowCount(ranges[1..])
  }

  lemma {:induction false} RequestOfRow(op: Operation, files: seq<OneFile>, destination: string, r: Range)
    requires r.bottom < |files|
    ensures var requests := RequestsOfRange(op, files, destination, r);
      && |requests| == (if r.top > r.bottom then 0 else r.bottom + 1 - r.top)
      && forall row :: r.top <= row <= r.bottom ==> requests[row - r.top] == Request(op, files[row], destination)
    decreases r.bottom + 1 - r.top
  {
    if r.top <= r.bottom { RequestOfRow(op, files, destination, Range(r.top + 1, r.bottom)); }
  }

  lemma {:induction false} RequestsAreCounted(op: Operation, files: seq<OneFile>, destination: string, ranges: seq<Range>)
    requires Within(ranges, |files|)
    ensures |RequestsOf(op, files, destination, ranges)| == RowCount(ranges)
    decreases ranges
  {
    if ranges != [] {
      assert ranges[0] in ranges && forall r :: r in ranges[1..] ==> r in ranges;
      RequestOfRow(op, files, destination, ranges[0]);
      RequestsAreCounted(op, files, destination, ranges[1..]);
    }
  }

  lemma CountedBefore(ranges: seq<Range>, k: nat)
    requires 0 < k <= |ranges|
    ensures RowCount(ranges[..k]) == RowCount(ranges[..1]) + RowCount(ranges[1..][..k - 1])
    ensures RowCount(ranges[..1]) == if ranges[0].top > ranges[0].bottom then 0 else ranges[0].bottom + 1 - ranges[0].top
  {
    assert ranges[..k][1..] == ranges[1..][..k - 1] && ranges[..1][1..] == [];
  }

  predicate Has<T(==)>(s: seq<T>, at: int, x: T) { 0 <= at < |s| && s[at] == x }

  lemma HasInConcat<T>(a: seq<T>, b: seq<T>, at: int, x: T)
    ensures Has(a, at, x) ==> Has(a + b, at, x)
    ensures Has(b, at, x) ==> Has(a + b, |a| + at, x)
  {
  }

  /** Row `row` of range k is asked for after all rows of the ranges before, and after those rows
      of its own range that are above it. */
  lemma {:induction false} RequestOfSelectedRow(op: Operation, files: seq<OneFile>, destination: string,
                                                ranges: seq<Range>, k: nat, row: nat)
    requires Within(ranges, |files|)
    requires k < |ranges| && ranges[k].top <= row <= ranges[k].bottom < |files|
    ensures Has(RequestsOf(op, files, destination, ranges), RowCount(ranges[..k]) + (row - ranges[k].top),
                Request(op, files[row], destination))
    decreases ranges
  {
    assert ranges[0] in ranges && forall r :: r in ranges[1..] ==> r in ranges;
    RequestOfRow(op, files, destination, ranges[0]);
    var first, rest := RequestsOfRange(op, files, destination, ranges[0]), RequestsOf(op, files, destination, ranges[1..]);
    var at, x := row - ranges[k].top, Request(op, files[row], destination);
    if k > 0 {
      var before := RowCount(ranges[1..][..k - 1]);
      RequestOfSelectedRow(op, files, destination, ranges[1..], k - 1, row);
      CountedBefore(ranges, k);
      HasInConcat(first, rest, before + at, x);
      assert RowCount(ranges[..k]) + at == |first| + (before + at);
    } else {
      assert RowCount(ranges[..0]) + at == at && first[at] == x;
      HasInConcat(first, rest, at, x);
    }
  }

  /** `after` is `before` and, behind it, one entry for every selected row of `files`: blocks in the
      order of the ranges, each from its top row to its bottom row. */
  ghost predicate Appended(before: seq<FileToTransfer>, after: seq<FileToTransfer>, files: seq<OneFile>,
                           destination: string, source: Machine, status: Status, ranges: seq<Range>)
    requires Within(ranges, |files|)
  {
    && |after| == |before| + RowCount(ranges) && after[..|before|] == before
    && forall k, row :: 0 <= k < |ranges| && ranges[k].top <= row <= ranges[k].bottom < |files| ==>
         Has(after, |before| + RowCount(ranges[..k]) + (row - ranges[k].top),
             FileToTransfer(files[row], destination, source, status))
  }

  /** Attempt n that was added is the one at row `row` + n, for entry `id` + n. */
  ghost predicate StartedEach(before: seq<Attempt>, after: seq<Attempt>, row: nat, id: nat, n: nat)
  {
    && |after| == |before| + n && after[..|before|] == before
    && forall i :: |before| <= i < |after| ==> after[i] == Attempt(row + i - |before|, id + i - |before|)
  }

  // ---------------------------------------------------------------- adding them

  ghost function AddedAll(q: Queue, requests: seq<Request>, instant: bool): (q': Queue)
    requires Aligned(q)
    ensures Aligned(q')
    decreases requests
  {
    if requests == [] then q else AddedAll(Next(q, Add(requests[0], instant)), requests[1..], instant)
  }

  lemma {:induction false} AddedAllConcat(q: Queue, a: seq<Request>, b: seq<Request>, instant: bool)
    requires Aligned(q)
    ensures AddedAll(q, a + b, instant) == AddedAll(AddedAll(q, a, instant), b, instant)
    decreases a
  {
    if a == [] {
      assert a + b == b;
    } else {
      assert (a + b)[1..] == a[1..] + b;
      AddedAllConcat(Next(q, Add(a[0], instant)), a[1..], b, instant);
    }
  }

  function EntriesOf(requests: seq<Request>): seq<FileToTransfer>
  {
    if requests == [] then [] else [EntryOf(requests[0])] + EntriesOf(requests[1..])
  }

  /** One attempt for each of n new entries, from row `row` and entry `id` up. */
  function OwnAttempts(row: nat, id: nat, n: nat): seq<Attempt>
    decreases n
  {
    if n == 0 then [] else [Attempt(row, id)] + OwnAttempts(row + 1, id + 1, n - 1)
  }

  lemma AddAppends(q: Queue, r: Request, instant: bool)
    requires Aligned(q)
    ensures var q' := Next(q, Add(r, instant));
      && q'.entries == q.entries + [EntryOf(r)] && q'.asked == q.asked + [r]
      && q'.attempts == q.attempts + OwnAttempts(|q.entries|, |q.asked|, if instant then 1 else 0)
  {
    assert OwnAttempts(|q.entries| + 1, |q.asked| + 1, 0) == [];
    assert OwnAttempts(|q.entries|, |q.asked|, 1) == [Attempt(|q.entries|, |q.asked|)];
  }

  lemma {:induction false} EnqueueKeepsInv(q: Queue, requests: seq<Request>, instant: bool)
    requires Inv(q)
    ensures Inv(AddedAll(q, requests, instant))
    decreases requests
  {
    if requests != [] {
      StepKeeps(q, Add(requests[0], instant));
      EnqueueKeepsInv(Next(q, Add(requests[0], instant)), requests[1..], instant);
    }
  }

  /** One entry for every request, in order, on the machine and in the status of its operation.
      Nothing that was queued before changes. */
  lemma {:induction false} EnqueueAppends(q: Queue, requests: seq<Request>, instant: bool)
    requires Aligned(q)
    ensures AddedAll(q, requests, instant).entries == q.entries + EntriesOf(requests)
    decreases requests
  {
    if requests != [] {
      var q1, more := Next(q, Add(requests[0], instant)), EntriesOf(requests[1..]);
      AddAppends(q, requests[0], instant);
      EnqueueAppends(q1, requests[1..], instant);
      assert q.entries + [EntryOf(requests[0])] + more == q.entries + ([EntryOf(requests[0])] + more);
    }
  }

  /** With `instant` each new entry is started once, at its own row. */
  lemma {:induction false} EnqueueStartsEach(q: Queue, requests: seq<Request>)
    requires Aligned(q)
    ensures AddedAll(q, requests, true).attempts == q.attempts + OwnAttempts(|q.entries|, |q.asked|, |requests|)
    decreases requests
  {
    if requests == [] {
      assert q.attempts + [] == q.attempts;
    } else {
      var q1 := AddOne(q, requests[0]);
      EnqueueStartsEach(q1, requests[1..]);
      OneMoreAttempt(q.attempts, q1.attempts, AddedAll(q, requests, true).attempts, |q.entries|, |q.asked|, |requests|);
    }
  }

  lemma AddOne(q: Queue, r: Request) returns (q1: Queue)
    requires Aligned(q)
    ensures q1 == Next(q, Add(r, true))
    ensures |q1.entries| == |q.entries| + 1 && |q1.asked| == |q.asked| + 1
    ensures q1.attempts == q.attempts + OwnAttempts(|q.entries|, |q.asked|, 1)
  {
    q1 := Next(q, Add(r, true));
    AddAppends(q, r, true);
  }

  lemma OneMoreAttempt(before: seq<Attempt>, between: seq<Attempt>, after: seq<Attempt>, row: nat, id: nat, n: nat)
    requires n > 0 && between == before + OwnAttempts(row, id, 1)
    requires after == between + OwnAttempts(row + 1, id + 1, n - 1)
    ensures after == before + OwnAttempts(row, id, n)
  {
    assert OwnAttempts(row + 1, id + 1, 0) == [];
    assert OwnAttempts(row, id, 1) == [Attempt(row, id)];
  }

  /** Without `instant` nothing is started. */
  lemma {:induction false} EnqueueStartsNone(q: Queue, requests: seq<Request>)
    requires Aligned(q)
    ensures AddedAll(q, requests, false).attempts == q.attempts
    decreases requests
  {
    if requests != [] {
      EnqueueStartsNone(Next(q, Add(requests[0], false)), requests[1..]);
    }
  }

  lemma {:induction false} EntriesOfAt(requests: seq<Request>)
    ensures |EntriesOf(requests)| == |requests|
    ensures forall i :: 0 <= i < |requests| ==> EntriesOf(requests)[i] == EntryOf(requests[i])
  {
    if requests != [] {
      EntriesOfAt(requests[1..]);
      assert forall i :: 0 < i < |requests| ==> EntriesOf(requests)[i] == EntriesOf(requests[1..])[i - 1];
    }
  }

  lemma {:induction false} OwnAttemptsAt(row: nat, id: nat, n: nat)
    ensures |OwnAttempts(row, id, n)| == n
    ensures forall i :: 0 <= i < n ==> OwnAttempts(row, id, n)[i] == Attempt(row + i, id + i)
    decreases n
  {
    if n > 0 {
      OwnAttemptsAt(row + 1, id + 1, n - 1);
      assert forall i :: 0 < i < n ==> OwnAttempts(row, id, n)[i] == OwnAttempts(row + 1, id + 1, n - 1)[i - 1];
    }
  }

  lemma SelectedRowIsThere(before: seq<FileToTransfer>, op: Operation, files: seq<OneFile>, destination: string,
                           ranges: seq<Range>, k: nat, row: nat)
    requires Within(ranges, |files|)
    requires k < |ranges| && ranges[k].top <= row <= ranges[k].bottom < |files|
    ensures Has(before + EntriesOf(RequestsOf(op, files, destination, ranges)),
                |before| + RowCount(ranges[..k]) + (row - ranges[k].top),
                FileToTransfer(files[row], destination, SourceOf(op), InitialStatus(op)))
  {
    EntriesOfAt(RequestsOf(op, files, destination, ranges));
    RequestOfSelectedRow(op, files, destination, ranges, k, row);
  }

  lemma EntriesAreAppended(before: seq<FileToTransfer>, op: Operation, files: seq<OneFile>, destination: string,
                           ranges: seq<Range>)
    requires Within(ranges, |files|)
    ensures Appended(before, before + EntriesOf(RequestsOf(op, files, destination, ranges)), files, destination,
                     SourceOf(op), InitialStatus(op), ranges)
  {
    var requests := RequestsOf(op, files, destination, ranges);
    EntriesOfAt(requests);
    RequestsAreCounted(op, files, destination, ranges);
    forall k, row | 0 <= k < |ranges| && ranges[k].top <= row <= ranges[k].bottom < |files|
      ensures Has(before + EntriesOf(requests), |before| + RowCount(ranges[..k]) + (row - ranges[k].top),
                  FileToTransfer(files[row], destination, SourceOf(op), InitialStatus(op)))
    {
      SelectedRowIsThere(before, op, files, destination, ranges, k, row);
    }
  }

  lemma SelectionIsAppended(q: Queue, op: Operation, files: seq<OneFile>, destination: string, ranges: seq<Range>,
                            instant: bool)
    requires Aligned(q) && Within(ranges, |files|)
    ensures var q' := AddedAll(q, RequestsOf(op, files, destination, ranges), instant);
      Appended(q.entries, q'.entries, files, destination, SourceOf(op), InitialStatus(op), ranges)
  {
    EnqueueAppends(q, RequestsOf(op, files, destination, ranges), instant);
    EntriesAreAppended(q.entries, op, files, destination, ranges);
  }

  lemma SelectionIsStarted(q: Queue, op: Operation, files: seq<OneFile>, destination: string, ranges: seq<Range>,
                           instant: bool)
    requires Aligned(q) && Within(ranges, |files|)
    ensures var q' := AddedAll(q, RequestsOf(op, files, destination, ranges), instant);
      StartedEach(q.attempts, q'.attempts, |q.entries|, |q.asked|, if instant then RowCount(ranges) else 0)
  {
    var requests := RequestsOf(op, files, destination, ranges);
    RequestsAreCounted(op, files, destination, ranges);
    if instant {
      EnqueueStartsEach(q, requests);
      OwnAttemptsAt(|q.entries|, |q.asked|, |requests|);
    } else {
      EnqueueStartsNone(q, requests);
    }
  }

  // ---------------------------------------------------------------- one loop after the other

  lemma {:induction false} StartedRowsConcat(q: Queue, a: seq<nat>, b: seq<nat>, selected: bool)
    requires Aligned(q) && Below(a, |q.entries|) && Below(b, |q.entries|)
    ensures StartedRows(q, a + b, selected) == StartedRows(StartedRows(q, a, selected), b, selected)
    decreases a
  {
    if a == [] {
      assert a + b == b;
    } else {
      assert a[0] in a && forall r :: r in a[1..] ==> r in a;
      assert (a + b)[0] == a[0] && (a + b)[1..] == a[1..] + b;
      StartedRowsConcat(StartedRow(q, a[0], selected), a[1..], b, selected);
    }
  }

  lemma {:induction false} InBoundsConcat(n: nat, a: seq<nat>, b: seq<nat>)
    ensures InBounds(n, a + b) <==> InBounds(n, a) && |a| <= n && InBounds(n - |a|, b)
    decreases a
  {
    if a == [] {
      assert a + b == b;
    } else {
      assert (a + b)[0] == a[0] && (a + b)[1..] == a[1..] + b;
      if a[0] < n { InBoundsConcat(n - 1, a[1..], b); }
    }
  }

  lemma {:induction false} ErasedConcat(q: Queue, a: seq<nat>, b: seq<nat>)
    requires Aligned(q) && InBounds(|q.entries|, a + b)
    ensures InBounds(|q.entries|, a) && |a| <= |q.entries| && InBounds(|q.entries| - |a|, b)
    ensures Erased(q, a + b) == Erased(Erased(q, a), b)
    decreases a
  {
    InBoundsConcat(|q.entries|, a, b);
    if a == [] {
      assert a + b == b;
    } else {
      assert (a + b)[0] == a[0] && (a + b)[1..] == a[1..] + b;
      ErasedConcat(Erased(q, a[..1]), a[1..], b);
      EraseFirst(q, a);
      EraseFirst(q, a + b);
      assert (a + b)[..1] == a[..1];
    }
  }

  lemma EraseFirst(q: Queue, rows: seq<nat>)
    requires Aligned(q) && rows != [] && InBounds(|q.entries|, rows)
    ensures InBounds(|q.entries|, rows[..1]) && InBounds(|q.entries| - 1, rows[1..])
    ensures Erased(q, rows) == Erased(Erased(q, rows[..1]), rows[1..])
    ensures Erased(q, rows[..1])
         == q.(entries := Without(q.entries, rows[0]), table := Without(q.table, rows[0]), ids := Without(q.ids, rows[0]))
  {
    assert rows[..1] == [rows[0]] && [rows[0]][1..] == [];
  }

  lemma {:induction false} FlattenConcat(a: seq<Range>, b: seq<Range>)
    ensures Flatten(a + b) == Flatten(a) + Flatten(b)
    decreases a
  {
    if a == [] {
      assert a + b == b;
    } else {
      assert (a + b)[1..] == a[1..] + b;
      FlattenConcat(a[1..], b);
    }
  }

  lemma FlattenParts(a: seq<Range>, r: Range, b: seq<Range>)
    ensures Flatten(a + [r]) == Flatten(a) + RowsDown(r)
    ensures Flatten(a + [r] + b) == Flatten(a) + RowsDown(r) + Flatten(b)
  {
    assert [r][1..] == [];
    FlattenConcat(a, [r]);
    FlattenConcat(a + [r], b);
  }

  lemma SplitAt<T>(s: seq<T>, i: nat)
    requires i < |s|
    ensures s[..i + 1] == s[..i] + [s[i]] && s == s[..i] + [s[i]] + s[i + 1..]
  {
  }

  /** The rows up to range i, range i, and the rows after it. */
  lemma FlattenAt(ranges: seq<Range>, i: nat)
    requires i < |ranges|
    ensures Flatten(ranges[..i + 1]) == Flatten(ranges[..i]) + RowsDown(ranges[i])
    ensures Flatten(ranges) == Flatten(ranges[..i]) + RowsDown(ranges[i]) + Flatten(ranges[i + 1..])
  {
    SplitAt(ranges, i);
    FlattenParts(ranges[..i], ranges[i], ranges[i + 1..]);
  }

  lemma PartsBelow(a: seq<nat>, b: seq<nat>, c: seq<nat>, n: nat)
    requires Below(a + b + c, n)
    ensures Below(a, n) && Below(b, n) && Below(a + b, n)
  {
    assert forall r :: r in a || r in b ==> r in a + b + c;
  }

  /** The rows from the bottom up to `row`, and the rows above it. */
  lemma RowsDownSplit(r: Range, row: nat)
    requires r.top <= row <= r.bottom
    ensures RowsDown(Range(row, r.bottom)) == RowsDown(Range(row + 1, r.bottom)) + [row]
    ensures RowsDown(Range(row, r.bottom)) <= RowsDown(r)
  {
  }

  lemma StartOneMore(q: Queue, r: Range, row: nat)
    requires Aligned(q) && r.top <= row <= r.bottom < |q.entries|
    ensures StartedRow(StartedRows(q, RowsDown(Range(row + 1, r.bottom)), true), row, true)
         == StartedRows(q, RowsDown(Range(row, r.bottom)), true)
  {
    RowsDownSplit(r, row);
    StartedRowsConcat(q, RowsDown(Range(row + 1, r.bottom)), [row], true);
    assert [row][1..] == [];
  }

  lemma StartOneMoreRange(q: Queue, ranges: seq<Range>, i: nat)
    requires Aligned(q) && i < |ranges| && Below(Flatten(ranges), |q.entries|)
    ensures Below(Flatten(ranges[..i]), |q.entries|)
    ensures Below(RowsDown(ranges[i]), |q.entries|)
    ensures Below(Flatten(ranges[..i + 1]), |q.entries|)
    ensures StartedRows(StartedRows(q, Flatten(ranges[..i]), true), RowsDown(ranges[i]), true)
         == StartedRows(q, Flatten(ranges[..i + 1]), true)
  {
    FlattenAt(ranges, i);
    PartsBelow(Flatten(ranges[..i]), RowsDown(ranges[i]), Flatten(ranges[i + 1..]), |q.entries|);
    StartedRowsConcat(q, Flatten(ranges[..i]), RowsDown(ranges[i]), true);
  }

  lemma InBoundsOfPrefix(n: nat, a: seq<nat>, all: seq<nat>)
    requires a <= all && InBounds(n, all)
    ensures InBounds(n, a)
  {
    assert all == a + all[|a|..];
    InBoundsConcat(n, a, all[|a|..]);
  }

  lemma EraseOneMore(q: Queue, r: Range, row: nat)
    requires Aligned(q) && r.top <= row <= r.bottom && InBounds(|q.entries|, RowsDown(r))
    ensures InBounds(|q.entries|, RowsDown(Range(row, r.bottom))) && InBounds(|q.entries|, RowsDown(Range(row + 1, r.bottom)))
    ensures var q' := Erased(q, RowsDown(Range(row + 1, r.bottom)));
      && row < |q'.entries|
      && q'.(entries := Without(q'.entries, row), table := Without(q'.table, row), ids := Without(q'.ids, row))
         == Erased(q, RowsDown(Range(row, r.bottom)))
  {
    RowsDownSplit(r, row);
    InBoundsOfPrefix(|q.entries|, RowsDown(Range(row, r.bottom)), RowsDown(r));
    ErasedConcat(q, RowsDown(Range(row + 1, r.bottom)), [row]);
    EraseFirst(Erased(q, RowsDown(Range(row + 1, r.bottom))), [row]);
    assert [row][..1] == [row];
  }

  /** Erasing `a` and then `b`, when all of the rows can be erased and begin with these. */
  lemma EraseParts(q: Queue, a: seq<nat>, b: seq<nat>, both: seq<nat>, all: seq<nat>)
    requires Aligned(q) && InBounds(|q.entries|, all) && both == a + b && both <= all
    ensures InBounds(|q.entries|, a) && InBounds(|q.entries|, both)
    ensures InBounds(|Erased(q, a).entries|, b) && Erased(Erased(q, a), b) == Erased(q, both)
  {
    InBoundsOfPrefix(|q.entries|, both, all);
    InBoundsConcat(|q.entries|, a, b);
    ErasedConcat(q, a, b);
  }

  class TransferQueue {
    var filesToTransfer: seq<FileToTransfer>
    var table: seq<Row>
    ghost var ids: seq<nat>
    ghost var asked: seq<Request>
    ghost var attempts: seq<Attempt>
    ghost var log: seq<Delivery>

    ghost function View(): Queue
      reads this
    {
      Queue(filesToTransfer, table, ids, asked, attempts, log)
    }

    constructor ()
      ensures View() == NONE
    {
      filesToTransfer, table := [], [];
      ids, asked, attempts, log := [], [], [], [];
    }

    method TransferFile(row: int)
      requires Aligned(View())
      modifies this`table, this`attempts
      ensures View() == Started(old(View()), row)
    {
      if row < 0 || row >= |filesToTransfer| {
        return;
      }
      var status := filesToTransfer[row].status;
      if status.ToUpload? || status.FailedToUpload? {
        table := table[row := table[row].(note := Uploading)];
      } else if status.ToDownload? || status.FailedToDownload? {
        table := table[row := table[row].(note := Downloading)];
      } else {
        table := table[row := table[row].(note := Removing)];
      }
      // One worker of a kind that depends on the status; each captures the row.
      if Uploads(status) || Downloads(status) || RemovesRemote(status) || RemovesLocal(status) {
        attempts := attempts + [Attempt(row, ids[row])];
      }
    }

    method FileTransferFieldAddFile(file: FileToTransfer, instant: bool, ghost r: Request)
      requires Aligned(View()) && file == EntryOf(r)
      modifies this
      ensures View() == Next(old(View()), Add(r, instant))
    {
      var currentRow := |table|;
      var note := if file.status.ToUpload? then NotYetUploaded
                  else if file.status.ToDownload? then NotYetDownloaded else NotYetRemoved;
      table := table + [Row(file.info.fileName, file.info.filePath, file.destination, file.info.fileSize, note)];
      filesToTransfer := filesToTransfer + [file];
      ids := ids + [|asked|];
      asked := asked + [r];
      if instant {
        TransferFile(currentRow);
      }
    }

    /** The loops that upload_selected, download_selected, file_to_upload, file_to_download, the two
        drops and the two removals share: every selected file is queued with the destination,
        source machine and status that the caller sets, which must fit the operation. */
    method Enqueue(ghost op: Operation, source: Machine, status: Status, files: seq<OneFile>, destination: string,
                   ranges: seq<Range>, instant: bool)
      requires Aligned(View()) && Within(ranges, |files|)
      requires source == SourceOf(op) && status == InitialStatus(op)
      modifies this
      ensures View() == AddedAll(old(View()), RequestsOf(op, files, destination, ranges), instant)
      ensures Appended(old(filesToTransfer), filesToTransfer, files, destination, source, status, ranges)
      ensures StartedEach(old(attempts), attempts, |old(filesToTransfer)|, |old(asked)|, if instant then RowCount(ranges) else 0)
    {
      SelectionIsAppended(View(), op, files, destination, ranges, instant);
      SelectionIsStarted(View(), op, files, destination, ranges, instant);
      ghost var target := AddedAll(View(), RequestsOf(op, files, destination, ranges), instant);
      assert ranges[0..] == ranges;
      for i := 0 to |ranges|
        invariant Aligned(View())
        invariant AddedAll(View(), RequestsOf(op, files, destination, ranges[i..]), instant) == target
      {
        var range := ranges[i];
        assert range in ranges && ranges[i..][1..] == ranges[i + 1..];
        AddedAllConcat(View(), RequestsOfRange(op, files, destination, range),
                       RequestsOf(op, files, destination, ranges[i + 1..]), instant);
        EnqueueRange(op, source, status, files, destination, range, instant);
      }
    }

    method EnqueueRange(ghost op: Operation, source: Machine, status: Status, files: seq<OneFile>, destination: string,
                        range: Range, instant: bool)
      requires Aligned(View()) && range.bottom < |files|
      requires source == SourceOf(op) && status == InitialStatus(op)
      modifies this
      ensures Aligned(View())
      ensures View() == AddedAll(old(View()), RequestsOfRange(op, files, destination, range), instant)
    {
      ghost var requests := RequestsOfRange(op, files, destination, range);
      ghost var target := AddedAll(View(), requests, instant);
      var row := range.top;
      while row <= range.bottom
        invariant Aligned(View())
        invariant requests == RequestsOfRange(op, files, destination, Range(row, range.bottom))
        invariant AddedAll(View(), requests, instant) == target
      {
        assert requests[0] == Request(op, files[row], destination);
        FileTransferFieldAddFile(FileToTransfer(files[row], destination, source, status), instant, requests[0]);
        requests := requests[1..];
        row := row + 1;
      }
    }

    /** Tells whether the remote, or the local, listing has to be refreshed. */
    method TransferFinished(row: nat, res: Outcome) returns (remoteChanged: bool, localChanged: bool)
      requires Aligned(View())
      modifies this`filesToTransfer, this`table
      ensures View() == Completed(old(View()), row, res)
      ensures remoteChanged == ChangesRemote(old(View()), row, res) && localChanged == ChangesLocal(old(View()), row, res)
    {
      remoteChanged, localChanged := false, false;
      if row >= |table| {
        return;
      }
      var file := filesToTransfer[row];
      var status, note := file.status, table[row].note;
      var invalid := '\\' in file.info.fileName;
      if status.ToUpload? || status.FailedToUpload? {
        if res.Success? {
          status, note, remoteChanged := FinishedUpload, UploadedSuccessfully, true;
        } else {
          status := FailedToUpload;
          note := if invalid then InvalidFileName else if res.Denied? then PermissionDenied else UploadFailed;
        }
      } else if status.ToDownload? || status.FailedToDownload? {
        if res.Success? {
          status, note, localChanged := FinishedDownload, DownloadedSuccessfully, true;
        } else {
          status := FailedToDownload;
          note := if invalid then InvalidFileName else if res.Denied? then PermissionDenied else DownloadFailed;
        }
      } else if status.ToRemoveRemote? || status.FailedToRemoveRemote? {
        if res.Success? {
          status, note, remoteChanged := FinishedRemove, RemovedSuccessfully, true;
        } else {
          status := FailedToRemoveRemote;
          note := if invalid then InvalidFileName else if res.Denied? then PermissionDenied else RemoveFailed;
        }
      } else if status.ToRemoveLocal? || status.FailedToRemoveLocal? {
        if res.Success? {
          status, note, localChanged := FinishedRemove, RemovedSuccessfully, true;
        } else {
          status := FailedToRemoveLocal;
          note := if invalid then InvalidFileName else if res.Denied? then PermissionDenied else RemoveFailed;
        }
      }
      filesToTransfer := filesToTransfer[row := file.(status := status)];
      table := table[row := table[row].(note := note)];
    }

    /** The signal of attempt k arrives with the row that the attempt captured. */
    method OutputReceived(ghost k: nat, row: nat, res: Outcome) returns (remoteChanged: bool, localChanged: bool)
      requires Aligned(View()) && k < |attempts| && attempts[k].row == row
      modifies this
      ensures View() == Delivered(old(View()), k, res)
      ensures remoteChanged == ChangesRemote(old(View()), row, res) && localChanged == ChangesLocal(old(View()), row, res)
    {
      log := log + [Delivery(attempts[k].id, row, if row < |ids| then Some(ids[row]) else None, res.Success?)];
      attempts := Without(attempts, k);
      remoteChanged, localChanged := TransferFinished(row, res);
    }

    /** start_transfer_files on the selected ranges; without a selection every row is started. */
    method StartTransferFiles(ranges: seq<Range>)
      requires Aligned(View()) && Below(Flatten(ranges), |filesToTransfer|)
      modifies this
      ensures View() == if ranges == [] then Next(old(View()), StartEverything) else Next(old(View()), Start(Flatten(ranges)))
    {
      if ranges == [] {
        StartAllRows();
        return;
      }
      for i := 0 to |ranges|
        invariant Aligned(View()) && |filesToTransfer| == |old(filesToTransfer)|
        invariant Below(Flatten(ranges[..i]), |filesToTransfer|)
        invariant View() == StartedRows(old(View()), Flatten(ranges[..i]), true)
      {
        StartOneMoreRange(old(View()), ranges, i);
        StartRange(ranges[i]);
      }
      assert ranges[..|ranges|] == ranges;
    }

    method StartRange(range: Range)
      requires Aligned(View()) && Below(RowsDown(range), |filesToTransfer|)
      modifies this
      ensures View() == StartedRows(old(View()), RowsDown(range), true)
    {
      RowsDownHas(range, range.bottom);
      var row: int := range.bottom;
      while row >= range.top
        invariant row <= range.bottom && (row + 1 >= range.top || row == range.bottom)
        invariant range.top <= range.bottom ==> range.bottom < |filesToTransfer|
        invariant Aligned(View()) && |filesToTransfer| == |old(filesToTransfer)|
        invariant View() == StartedRows(old(View()), RowsDown(Range(row + 1, range.bottom)), true)
      {
        StartOneMore(old(View()), range, row);
        StartSelectedRow(row);
        row := row - 1;
      }
      assert RowsDown(Range(row + 1, range.bottom)) == RowsDown(range);
    }

    method StartSelectedRow(row: nat)
      requires Aligned(View()) && row < |filesToTransfer|
      modifies this
      ensures View() == StartedRow(old(View()), row, true)
    {
      var status := filesToTransfer[row].status;
      if status.FinishedDownload? || status.FinishedUpload? || status.FinishedRemove? {
        return;
      }
      if status.FailedToDownload? {
        filesToTransfer := filesToTransfer[row := filesToTransfer[row].(status := ToDownload)];
      }
      if filesToTransfer[row].status.FailedToUpload? {
        filesToTransfer := filesToTransfer[row := filesToTransfer[row].(status := ToUpload)];
      }
      if filesToTransfer[row].status.FailedToRemoveLocal? {
        filesToTransfer := filesToTransfer[row := filesToTransfer[row].(status := FailedToRemoveLocal)];
      }
      if filesToTransfer[row].status.FailedToRemoveRemote? {
        filesToTransfer := filesToTransfer[row := filesToTransfer[row].(status := FailedToRemoveRemote)];
      }
      assert filesToTransfer == RetriedRow(old(View()), row).entries;
      TransferFile(row);
    }

    method StartAllRows()
      requires Aligned(View())
      modifies this`table, this`attempts
      ensures View() == Next(old(View()), StartEverything)
    {
      ghost var rows := Iota(|filesToTransfer|);
      ghost var target := StartedRows(View(), rows, false);
      for row := 0 to |filesToTransfer|
        invariant Aligned(View()) && filesToTransfer == old(filesToTransfer) && ids == old(ids)
        invariant rows == Iota(|filesToTransfer|)[row..]
        invariant StartedRows(View(), rows, false) == target
      {
        assert rows[0] == row && rows[1..] == Iota(|filesToTransfer|)[row + 1..];
        assert forall r :: r in rows[1..] ==> r in rows;
        rows := rows[1..];
        var status := filesToTransfer[row].status;
        if status.FinishedDownload? || status.FinishedUpload? || status.FinishedRemove? {
          continue;
        }
        TransferFile(row);
      }
    }

    /** clear_files on the selected ranges; without a selection everything goes. Erasing beyond
        the end of the deque is undefined, hence the precondition. */
    method ClearFiles(ranges: seq<Range>)
      requires Aligned(View()) && InBounds(|filesToTransfer|, Flatten(ranges))
      modifies this
      ensures View() == if ranges == [] then Next(old(View()), ClearEverything) else Next(old(View()), Clear(Flatten(ranges)))
    {
      if ranges == [] {
        table, filesToTransfer := [], [];
        ids := [];
        return;
      }
      for i := 0 to |ranges|
        invariant Aligned(View()) && InBounds(|old(filesToTransfer)|, Flatten(ranges[..i]))
        invariant View() == Erased(old(View()), Flatten(ranges[..i]))
      {
        FlattenAt(ranges, i);
        EraseParts(old(View()), Flatten(ranges[..i]), RowsDown(ranges[i]), Flatten(ranges[..i + 1]), Flatten(ranges));
        ClearRange(ranges[i]);
      }
      assert ranges[..|ranges|] == ranges;
    }

    method ClearRange(range: Range)
      requires Aligned(View()) && InBounds(|filesToTransfer|, RowsDown(range))
      modifies this`filesToTransfer, this`table, this`ids
      ensures View() == Erased(old(View()), RowsDown(range))
    {
      var row: int := range.bottom;
      while row >= range.top
        invariant row <= range.bottom && (row + 1 >= range.top || row == range.bottom)
        invariant Aligned(View())
        invariant InBounds(|old(filesToTransfer)|, RowsDown(Range(row + 1, range.bottom)))
        invariant View() == Erased(old(View()), RowsDown(Range(row + 1, range.bottom)))
      {
        EraseOneMore(old(View()), range, row);
        table := table[..row] + table[row + 1..];
        filesToTransfer := filesToTransfer[..row] + filesToTransfer[row + 1..];
        ids := Without(ids, row);
        row := row - 1;
      }
      assert RowsDown(Range(row + 1, range.bottom)) == RowsDown(range);
    }
  }
}
