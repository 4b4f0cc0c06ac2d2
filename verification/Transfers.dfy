/** The transfer queue as a value: its entries, its table, the attempts in flight and what was
    delivered; and the effect of every operation on it. */
module Transfers {
  import opened Sequences
  import opened Text
  import opened RemoteListing
  import opened MultiErase

  // ---------------------------------------------------------------- the enums and the record

  /** TRANSFER_FILE_STATUS. */
  datatype Status =
    | WithoutOperation
    | ToUpload | FailedToUpload | FinishedUpload
    | ToDownload | FinishedDownload | FailedToDownload
    | ToRemoveLocal | ToRemoveRemote | FinishedRemove | FailedToRemoveLocal | FailedToRemoveRemote

  /** MACHINE_TYPE. */
  datatype Machine = MachineUnknown | LocalMachine | RemoteMachine

  datatype FileToTransfer = FileToTransfer(info: OneFile, destination: string, source: Machine, status: Status)

  /** The texts of the status cell. */
  datatype Note =
    | NotYetUploaded | NotYetDownloaded | NotYetRemoved
    | Uploading | Downloading | Removing
    | UploadedSuccessfully | DownloadedSuccessfully | RemovedSuccessfully
    | PermissionDenied | UploadFailed | DownloadFailed | RemoveFailed | InvalidFileName

  /** One row of tw_transfer_file: its five cells. `size` is the number that is printed. */
  datatype Row = Row(name: string, path: string, destination: string, size: nat, note: Note)

  /** system_call_wrapper_error_t, as far as a completion looks at it. */
  datatype Outcome = Success | Denied | OtherError

  /** What the user asked for. */
  datatype Operation = Upload | Download | RemoveLocal | RemoveRemote

  datatype Request = Request(op: Operation, file: OneFile, destination: string)

  function InitialStatus(op: Operation): Status
  {
    match op
    case Upload => ToUpload
    case Download => ToDownload
    case RemoveLocal => ToRemoveLocal
    case RemoveRemote => ToRemoveRemote
  }

  /** The machine on which the file is. */
  function SourceOf(op: Operation): Machine
  {
    match op
    case Upload => LocalMachine
    case Download => RemoteMachine
    case RemoveLocal => LocalMachine
    case RemoveRemote => RemoteMachine
  }

  /** The entry that an enqueuing function fills in. */
  function EntryOf(r: Request): FileToTransfer
  {
    FileToTransfer(r.file, r.destination, SourceOf(r.op), InitialStatus(r.op))
  }

  predicate Finished(s: Status)
  {
    s.FinishedUpload? || s.FinishedDownload? || s.FinishedRemove?
  }

  predicate Uploads(s: Status) { s.ToUpload? || s.FailedToUpload? }

  predicate Downloads(s: Status) { s.ToDownload? || s.FailedToDownload? }

  predicate RemovesRemote(s: Status) { s.ToRemoveRemote? || s.FailedToRemoveRemote? }

  predicate RemovesLocal(s: Status) { s.ToRemoveLocal? || s.FailedToRemoveLocal? }

  /** The statuses an entry can have that was enqueued for `op`. */
  predicate Serves(s: Status, op: Operation)
  {
    match op
    case Upload => Uploads(s) || s.FinishedUpload?
    case Download => Downloads(s) || s.FinishedDownload?
    case RemoveLocal => RemovesLocal(s) || s.FinishedRemove?
    case RemoveRemote => RemovesRemote(s) || s.FinishedRemove?
  }

  /** The status after one completion. */
  function Settled(s: Status, ok: bool): Status
  {
    if Uploads(s) then (if ok then FinishedUpload else FailedToUpload)
    else if Downloads(s) then (if ok then FinishedDownload else FailedToDownload)
    else if RemovesRemote(s) then (if ok then FinishedRemove else FailedToRemoveRemote)
    else if RemovesLocal(s) then (if ok then FinishedRemove else FailedToRemoveLocal)
    else s
  }

  /** The text after one completion of an entry that had status `s`. */
  function NoteAfter(s: Status, res: Outcome, name: string, before: Note): Note
  {
    if Finished(s) || s.WithoutOperation? then before
    else if res.Success? then
      (if Uploads(s) then UploadedSuccessfully else if Downloads(s) then DownloadedSuccessfully else RemovedSuccessfully)
    else if '\\' in name then InvalidFileName
    else if res.Denied? then PermissionDenied
    else if Uploads(s) then UploadFailed else if Downloads(s) then DownloadFailed else RemoveFailed
  }

  function NotYet(s: Status): Note
  {
    if s.ToUpload? then NotYetUploaded else if s.ToDownload? then NotYetDownloaded else NotYetRemoved
  }

  function Busy(s: Status): Note
  {
    if Uploads(s) then Uploading else if Downloads(s) then Downloading else Removing
  }

  /** The retry of a selected row turns a failed upload or download back; a failed removal stays. */
  function Retried(s: Status): Status
  {
    match s
    case FailedToDownload => ToDownload
    case FailedToUpload => ToUpload
    case _ => s
  }

  // ---------------------------------------------------------------- the queue

  /** An attempt carries the row it was started at; `id` is the entry it was started for. */
  datatype Attempt = Attempt(row: nat, id: nat)

  /** A completion that arrived: for which entry, at which row, and which entry it hit. */
  datatype Delivery = Delivery(id: nat, row: nat, hit: Option<nat>, ok: bool)

  /** `ids` gives every entry an identity, the number of its request in `asked`. */
  datatype Queue = Queue(entries: seq<FileToTransfer>, table: seq<Row>, ids: seq<nat>,
                         asked: seq<Request>, attempts: seq<Attempt>, log: seq<Delivery>)

  const NONE := Queue([], [], [], [], [], [])

  ghost predicate Aligned(q: Queue) { |q.entries| == |q.table| == |q.ids| }

  function RowFor(f: FileToTransfer): Row
  {
    Row(f.info.fileName, f.info.filePath, f.destination, f.info.fileSize, NotYet(f.status))
  }

  /** file_transfer_field_add_file, before it starts anything. */
  function Added(q: Queue, r: Request): Queue
  {
    var f := EntryOf(r);
    q.(entries := q.entries + [f], table := q.table + [RowFor(f)], ids := q.ids + [|q.asked|], asked := q.asked + [r])
  }

  /** transfer_file: an entry that is finished or has no operation is labelled but not started. */
  function Started(q: Queue, row: int): Queue
    requires Aligned(q)
  {
    if row < 0 || row >= |q.entries| then q
    else
      var s := q.entries[row].status;
      q.(table := q.table[row := q.table[row].(note := Busy(s))],
         attempts := if Finished(s) || s.WithoutOperation? then q.attempts
                     else q.attempts + [Attempt(row, q.ids[row])])
  }

  function RetriedRow(q: Queue, row: nat): Queue
    requires row < |q.entries|
  {
    q.(entries := q.entries[row := q.entries[row].(status := Retried(q.entries[row].status))])
  }

  /** One row of start_transfer_files; only with a selection are failures turned back. */
  function StartedRow(q: Queue, row: nat, selected: bool): (q': Queue)
    requires Aligned(q) && row < |q.entries|
    ensures Aligned(q') && |q'.entries| == |q.entries|
  {
    if Finished(q.entries[row].status) then q
    else Started(if selected then RetriedRow(q, row) else q, row)
  }

  predicate Below(rows: seq<nat>, n: nat) { forall r :: r in rows ==> r < n }

  function StartedRows(q: Queue, rows: seq<nat>, selected: bool): (q': Queue)
    requires Aligned(q)
    requires Below(rows, |q.entries|)
    ensures Aligned(q') && |q'.entries| == |q.entries|
    decreases rows
  {
    if rows == [] then q
    else
      assert rows[0] in rows && forall r :: r in rows[1..] ==> r in rows;
      StartedRows(StartedRow(q, rows[0], selected), rows[1..], selected)
  }

  /** transfer_finished(row, res, ...). */
  function Completed(q: Queue, row: nat, res: Outcome): Queue
    requires Aligned(q)
  {
    if row >= |q.entries| then q
    else
      var f := q.entries[row];
      q.(entries := q.entries[row := f.(status := Settled(f.status, res.Success?))],
         table := q.table[row := q.table[row].(note := NoteAfter(f.status, res, f.info.fileName, q.table[row].note))])
  }

  /** The completion changes files on the remote, or on the local machine. */
  predicate ChangesRemote(q: Queue, row: nat, res: Outcome)
  {
    row < |q.entries| && res.Success? && (Uploads(q.entries[row].status) || RemovesRemote(q.entries[row].status))
  }

  predicate ChangesLocal(q: Queue, row: nat, res: Outcome)
  {
    row < |q.entries| && res.Success? && (Downloads(q.entries[row].status) || RemovesLocal(q.entries[row].status))
  }

  /** Attempt k comes back. */
  function Delivered(q: Queue, k: nat, res: Outcome): Queue
    requires Aligned(q) && k < |q.attempts|
  {
    var a := q.attempts[k];
    var hit := if a.row < |q.ids| then Some(q.ids[a.row]) else None;
    Completed(q, a.row, res).(attempts := Without(q.attempts, k),
                              log := q.log + [Delivery(a.id, a.row, hit, res.Success?)])
  }

  function Erased(q: Queue, rows: seq<nat>): Queue
    requires Aligned(q) && InBounds(|q.entries|, rows)
  {
    q.(entries := EraseAll(q.entries, rows), table := EraseAll(q.table, rows), ids := EraseAll(q.ids, rows))
  }

  function Cleared(q: Queue): Queue { q.(entries := [], table := [], ids := []) }

  // ---------------------------------------------------------------- steps and runs

  datatype Step =
    | Add(request: Request, instant: bool)
    | Start(rows: seq<nat>)
    | StartEverything
    | Deliver(k: nat, res: Outcome)
    | Clear(rows: seq<nat>)
    | ClearEverything

  ghost predicate CanStep(q: Queue, s: Step)
    requires Aligned(q)
  {
    match s
    case Start(rows) => Below(rows, |q.entries|)
    case Deliver(k, _) => k < |q.attempts|
    case Clear(rows) => InBounds(|q.entries|, rows)
    case _ => true
  }

  ghost function Next(q: Queue, s: Step): (q': Queue)
    requires Aligned(q) && CanStep(q, s)
    ensures Aligned(q')
  {
    match s
    case Add(r, instant) => if instant then Started(Added(q, r), |q.table|) else Added(q, r)
    case Start(rows) => StartedRows(q, rows, true)
    case StartEverything => StartedRows(q, Iota(|q.entries|), false)
    case Deliver(k, res) => Delivered(q, k, res)
    case Clear(rows) => Erased(q, rows)
    case ClearEverything => Cleared(q)
  }

  ghost predicate Run(qs: seq<Queue>, steps: seq<Step>)
  {
    && |qs| == |steps| + 1
    && (forall i :: 0 <= i < |qs| ==> Aligned(qs[i]))
    && forall i :: 0 <= i < |steps| ==> CanStep(qs[i], steps[i]) && qs[i + 1] == Next(qs[i], steps[i])
  }
}
