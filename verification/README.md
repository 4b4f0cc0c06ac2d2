# SubutaiTray: transfers, peer creation and two scanners, verified in Dafny

The project models the parts of SubutaiTray that hold real state or parse text, and proves what
they keep over every run. `dafny verify dfyconfig.toml` checks all of it.

- **Remote listing** (`Text`, `LineScanner`, `RemoteListing`, `RemotePath`). The flag-driven scanner
  of `ls -lF` lines, the records made from them, and the remote directory edited by enter and back.
- **Remote browser** (`RemoteBrowser`, `BrowserRuns`, `BrowserHistory`). One object per dialog:
  current directory, listed files, disabled buttons; and the one counter of outstanding listings
  that all dialogs share. What a dialog shows, where it is and whether its buttons are enabled is
  told from the steps of a run alone.
- **Transfer queue** (`MultiErase`, `Transfers`, `QueueRuns`, `QueueTexts`, `TransferQueue`,
  `TransferDialog`). The deque and its table, the twelve statuses, attempts that carry a row number and come back in any
  order, starting and clearing selections. Every entry gets an identity, so that "the entry that
  was started" and "the entry at that row now" can be told apart.
- **Peer creation** (`PortAllocator`, `PeerCreation`, `PeerRuns`). The port allocator, the
  reservation that a timer releases, and the directory that a flow makes and removes.
- **Two small pieces**: the fingerprint scanner with its 16-bit index (`Fingerprint`) and the
  "updating" latch of a local peer (`UpdateLatch`).

What the source changes in place is a class whose methods are proved equal to a function on values
(`Queue`, `Dialog`, `World`); what holds over all runs is proved about sequences of those values,
one per step. Identities, outstanding listings, attempts in flight and timers are ghost fields of
the classes, or input, where the source keeps them in Qt objects.

## Where the code falls short

Each of these is proved as an if-and-only-if, or with a run or input that shows it.

- A listing is read back faithfully exactly when every entry shown is a plain file, executable or
  directory, no name begins with a blank, no plain file's name ends in `*`, and no file exceeds
  2147483647 bytes (`toInt` then gives 0). Pipes and sockets keep their mark; a device takes its time
  column into its name; a directory named by blanks alone leads to a path with `//`.
- `clear_files` erases exactly the selected rows if and only if the ranges are listed from higher to
  lower rows.
- A completion reaches its own entry if and only if no row at or below its row number was removed
  since the start. Otherwise it can finish an entry that is still running.
- The counter of listings is shared: the answer to a dialog's last listing enables its buttons if and
  only if no other dialog, open or closed, has one outstanding. A dialog closed during a listing
  therefore keeps answers from enabling anything, for good; and a dialog that missed its chance is
  not enabled by the answers to others.
- A local refresh enables the buttons during a remote listing; an answer that then arrives after the
  directory was changed shows wrong paths.
- The first gap is the least free port exactly when no port in use below 9998 has a free port
  directly above it. The protocol never reserves such a port.
- The remote directory keeps the form `/a/.../z/` in a run if and only if no step enters a record
  named by a `/` alone, which is how a directory is listed whose name is all blanks.
- The directories of peer creation stay right in a run if and only if every step is harmless: no press
  finds the name of a flow in flight with status "not_created", and no other actor touches it.
- A create dialog that is closed during init leaves its directory, without a configuration, until a
  later press finds the name "not_created" or another actor takes it. Such a press removes the
  directory under the init that still runs, with one dialog at a time (`InitLosesItsDirectory`).
- A fingerprint input with "uid" but without "uid:" is read from its fourth character. The loop never
  ends exactly for inputs with "uid" and 65536 characters or more of which the first 65536 hold no
  `:`; it runs on from index 0 when the field does not end below index 65536.

The doc comment at `DlgCreatePeer.cpp:440-442` says that the port found is the minimum excluded
number; that holds under the condition above.

## Model

| member | source | states |
|---|---|---|
| LineScanner.ParseRemoteFile | hub/forms/DlgTransferFile.cpp:1023-1055 | The flag-driven loop appends what "skip blanks, take a word, eight times, then the rest verbatim" gives. |
| LineScanner.PiecesAreTheOnlyLayout | hub/forms/DlgTransferFile.cpp:1023-1055 | The pieces of a line are the one and only list of well-formed pieces that the line can be laid out from with gaps of blanks; every line has one. |
| LineScanner.PiecesOfRender | hub/forms/DlgTransferFile.cpp:1023-1055 | Eight words and a name, joined by any positive gaps, are given back. |
| LineScanner.NinePieces | hub/forms/DlgTransferFile.cpp:774-775 | At most nine pieces, the first eight words; exactly nine if and only if the line has nine word beginnings or more. |
| LineScanner.RejoinIsStable | hub/forms/DlgTransferFile.cpp:1023-1055 | Joining the pieces of any line by single blanks and splitting again gives the same pieces. |
| Text.ToIntOfDecimal | hub/forms/DlgTransferFile.cpp:800 | The size column is read back up to 2147483647 and as 0 above. |
| RemoteListing.FilesOfEntryLine | hub/forms/DlgTransferFile.cpp:770-810 | The record of an entry's line is made from the name without leading blanks and the size column; none for a name of blanks. |
| RemoteListing.FilesOfDeviceLine | hub/forms/DlgTransferFile.cpp:778-787 | A device line, with two numbers for a size, shifts the columns: the time becomes part of the name. |
| RemoteListing.FilesOfTotalLine | hub/forms/DlgTransferFile.cpp:774-775 | A "total" line makes no record. |
| RemoteListing.RecordIffNineWords | hub/forms/DlgTransferFile.cpp:774-775 | Any line makes a record if and only if it has nine words or more and does not begin with 'l'. |
| RemoteListing.EntryRoundTrip | hub/forms/DlgTransferFile.cpp:786-803 | Name, path, size and type of an entry come back right if and only if the entry is readable. |
| RemoteListing.ListingRoundTrip | hub/forms/DlgTransferFile.cpp:992-1006 | A whole listing gives exactly its entries in order, without symbolic links and "total" lines, if and only if every entry shown is readable. |
| RemoteListing.UnreadableEntries | hub/forms/DlgTransferFile.cpp:789-803 | What a leading blank, a final `*`, a pipe and a file of 2 GiB become. |
| RemoteListing.DirectoryRecords | hub/forms/DlgTransferFile.cpp:801-802 | Only directories make records of directory type, named by the entry's name and a final `/`. |
| RemotePath.SplitOfPath | hub/forms/DlgTransferFile.cpp:740-743 | Splitting the path of a stack gives an empty part, the stack, and an empty part. |
| RemotePath.ParentPops | hub/forms/DlgTransferFile.cpp:738-750 | Back pops the component stack; the root is a fixed point. |
| RemotePath.BackUndoesEnter | hub/forms/DlgTransferFile.cpp:715-717 | Back undoes enter, and both keep the path form. |
| RemotePath.PathOfIsInjective | hub/forms/DlgTransferFile.cpp:81 | A path stands for one stack only. |
| RemotePath.WalkRefinesStack | hub/forms/DlgTransferFile.cpp:738-750 | Any sequence of enter and back edits the text as it edits the stack. |
| RemotePath.EmptyNameBreaksPath | hub/forms/DlgTransferFile.cpp:716 | Entering an empty name would leave the path form. |
| RemoteBrowser.RemoteBrowser.constructor | hub/forms/DlgTransferFile.cpp:81 | The dialog begins in "/", with no listing outstanding. |
| RemoteBrowser.ParseRecord | hub/forms/DlgTransferFile.cpp:770-802 | The parsing half of add_file_remote makes the record of the line, or none. |
| RemoteBrowser.RemoteBrowser.AddFileRemote | hub/forms/DlgTransferFile.cpp:770-810 | Files and table rows grow together by the record of the line. |
| RemoteBrowser.RemoteBrowser.RefreshRemoteFileSystem | hub/forms/DlgTransferFile.cpp:965-990 | Issues a listing of the current directory, counts it and disables the buttons. |
| RemoteBrowser.RemoteBrowser.OutputFromRemoteCommand | hub/forms/DlgTransferFile.cpp:992-1020 | The files become those of all lines, read against the current directory, and the rows show their cells; the counter falls by one and the buttons come back if it reaches zero. |
| RemoteBrowser.RemoteBrowser.FileRemoteSelected | hub/forms/DlgTransferFile.cpp:709-727 | Appends the name of a directory to the current one and lists it; for a file gives the record to queue and leaves the buttons disabled. |
| RemoteBrowser.RemoteBrowser.RemoteBack | hub/forms/DlgTransferFile.cpp:738-750 | The loop over the split path pops the last name, and the parent is then listed. |
| RemoteBrowser.RemoteBrowser.RefreshButtonLocal | hub/forms/DlgTransferFile.cpp:938-942 | Leaves the buttons enabled, whatever is outstanding. |
| BrowserRuns.CounterIsExact | hub/forms/DlgTransferFile.cpp:974-1018 | In every run of any number of dialogs the counter is the number of listings issued and not answered, never negative; the enabling branch runs exactly at answers that leave none outstanding. |
| BrowserRuns.LastAnswerEnables | hub/forms/DlgTransferFile.cpp:1007-1009 | A dialog's last answer enables its buttons if and only if no other dialog, open or closed, has a listing outstanding. |
| BrowserRuns.ClosedWhileListing | hub/forms/DlgTransferFile.h:415 | After a dialog was closed during a listing, no answer ever enables a disabled dialog again. |
| BrowserRuns.MissedForGood | hub/forms/DlgTransferFile.cpp:1007-1018 | A dialog whose last answer did not enable it stays disabled with nothing outstanding, whatever other dialogs do, until it is refreshed itself. |
| BrowserRuns.AnswerPaths | hub/forms/DlgTransferFile.cpp:787 | An answer shows right paths if and only if it was issued for the directory that is current when it arrives, or shows nothing. |
| BrowserRuns.PathsStayRight | hub/forms/DlgTransferFile.cpp:965-1020 | In every run without a local refresh during a remote listing, every file of every dialog is shown under its path in the listed directory. |
| BrowserRuns.StaleListing | hub/forms/DlgTransferFile.cpp:349-354 | A run in which a finished download enables the buttons during a listing, and a file is shown under a path that it does not have. |
| BrowserRuns.DirectoryStaysPathIff | hub/forms/DlgTransferFile.cpp:709-750 | In a run over any listings of directories, every dialog is in "/" or "/a/.../z/" in all worlds if and only if no step enters a record named by a '/' alone. |
| BrowserRuns.BlankDirectory | hub/forms/DlgTransferFile.cpp:716 | A directory is listed as "/", and entering it leaves the path form, if and only if its name is all blanks. |
| BrowserHistory.AnswerShows | hub/forms/DlgTransferFile.cpp:992-1006 | An answer shows all true files of the current directory in order if and only if every entry is readable. |
| BrowserHistory.ShowsLastAnswer | hub/forms/DlgTransferFile.cpp:992-1006 | At any time a dialog shows exactly the true files of the directory in which its last answer arrived, if and only if every entry of that answer is readable. |
| BrowserHistory.ShowsWhatWasListed | hub/forms/DlgTransferFile.cpp:965-1020 | Without a local refresh during a remote listing, that is the directory the listing was issued for. |
| BrowserHistory.SelectPushes | hub/forms/DlgTransferFile.cpp:716 | In the path of a stack, a double click on "c/" leads to the path of that stack with c pushed. |
| BrowserHistory.BackPops | hub/forms/DlgTransferFile.cpp:738-750 | Back leads to the path of the popped stack. |
| BrowserHistory.DirectoryIsTheStack | hub/forms/DlgTransferFile.cpp:709-750 | As long as nobody has entered a record named by a '/' alone, the directory of every dialog is the path of exactly the names that it has entered and not left again. |
| BrowserHistory.EnabledIffTurnedOn | hub/forms/DlgTransferFile.cpp:1007-1018 | In every run the buttons of a dialog are enabled if and only if since its last refresh, double click or step back it was refreshed locally, answered with nothing left outstanding anywhere, or opened. |
| MultiErase.ExactIffDescending | hub/forms/DlgTransferFile.cpp:487-491 | Erasing distinct rows by their original numbers erases exactly those rows, in bounds and keeping the order of the rest, if and only if the numbers descend. |
| MultiErase.ClearExactIffHigherToLower | hub/forms/DlgTransferFile.cpp:479-495 | For the disjoint ranges of a selection: exactly the selected rows go if and only if the ranges are listed from higher to lower. |
| MultiErase.LowerFirstErasesOthers | hub/forms/DlgTransferFile.cpp:487-491 | Lower range first: rows 0 and 2 are selected, rows 0 and 3 go. |
| MultiErase.LowerFirstRunsOut | hub/forms/DlgTransferFile.cpp:490 | Lower range first on two rows: the second erase is out of bounds. |
| TransferQueue.TransferQueue.constructor | hub/forms/DlgTransferFile.h:434 | The queue begins empty. |
| TransferQueue.TransferQueue.FileTransferFieldAddFile | hub/forms/DlgTransferFile.cpp:533-576 | Appends the entry and its row, and starts it at that row if instant. |
| TransferQueue.TransferQueue.Enqueue | hub/forms/DlgTransferFile.cpp:614-675 | Appends one entry for every selected row, the blocks in the order of the ranges and each from its top to its bottom row, on the machine and in the status that the caller sets; with instant transfer each is started at its own row. |
| TransferQueue.RequestOfSelectedRow | hub/forms/DlgTransferFile.cpp:616-617 | Row r of range k is asked for after all rows of the ranges before it and after the rows of its own range above it. |
| TransferQueue.RequestsAreCounted | hub/forms/DlgTransferFile.cpp:616-617 | As many files are asked for as rows are selected, bottom rows included. |
| TransferQueue.EnqueueAppends | hub/forms/DlgTransferFile.cpp:533-576 | One entry for every request, in order, on the machine and in the status of its operation; nothing queued before changes. |
| TransferQueue.SelectionIsAppended | hub/forms/DlgTransferFile.cpp:176-216 | From files and ranges alone: the entry at each new position is that of the selected row that belongs there. |
| TransferQueue.EnqueueStartsEach | hub/forms/DlgTransferFile.cpp:574-575 | With instant transfer each new entry is started once, at its own row. |
| TransferQueue.EnqueueStartsNone | hub/forms/DlgTransferFile.cpp:574-575 | Without instant transfer nothing is started. |
| TransferQueue.TransferQueue.TransferFile | hub/forms/DlgTransferFile.cpp:357-444 | Labels the row and, unless the entry is finished or has no operation, starts one attempt that captures the row. |
| TransferQueue.TransferQueue.TransferFinished | hub/forms/DlgTransferFile.cpp:246-355 | Sets status and text of the row that was captured, ignores finished entries and missing rows, and tells which side changed. |
| TransferQueue.TransferQueue.OutputReceived | hub/forms/DlgTransferFile.cpp:404-407 | The signal of an attempt arrives with the captured row. |
| TransferQueue.TransferQueue.StartTransferFiles | hub/forms/DlgTransferFile.cpp:448-475 | Starts the selected rows, or all rows without a selection. |
| TransferQueue.TransferQueue.StartSelectedRow | hub/forms/DlgTransferFile.cpp:460-472 | Skips a finished row; turns a failed upload or download back; starts the row. |
| TransferQueue.TransferQueue.ClearFiles | hub/forms/DlgTransferFile.cpp:481-493 | Erases the rows of the ranges one after the other from deque and table; everything without a selection. |
| QueueRuns.RunsKeepInv | hub/forms/DlgTransferFile.cpp:246-576 | In every run: table and deque in step, every row shows its entry, every entry is what was asked for on its source machine in a status of its operation, success is announced by finished entries only, and an entry is finished if and only if a successful completion has hit it. |
| QueueRuns.EntryKeepsRequest | hub/forms/DlgTransferFile.h:314-351 | An entry keeps file, destination, source machine and operation for as long as it is queued. |
| QueueRuns.FinishedForGood | hub/forms/DlgTransferFile.cpp:262-347 | A finished status is never left. |
| QueueRuns.SuccessWins | hub/forms/DlgTransferFile.cpp:246-355 | In every run in which no clear removes a row at or below that of an attempt in flight, an entry is finished if and only if one of its own attempts came back successful. |
| QueueRuns.SuccessWinsByRow | hub/forms/DlgTransferFile.cpp:246-355 | Without clears: a row is finished if and only if a completion for that row has succeeded so far. |
| QueueRuns.CompletionFindsItsEntry | hub/forms/DlgTransferFile.cpp:404-407 | An attempt finds its entry at its row if and only if no row at or below that number was removed since it was started. |
| QueueRuns.MisdirectedCompletion | hub/forms/DlgTransferFile.cpp:428-441 | A run in which the success of one transfer finishes another that has not come back. |
| QueueRuns.StatusAfterAll | hub/forms/DlgTransferFile.cpp:262-347 | After any completions a row's status depends only on whether one, and whether a successful one, was for it. |
| QueueRuns.OrderDoesNotMatter | hub/forms/DlgTransferFile.cpp:246-355 | The same completions in another order leave the same entries. |
| QueueRuns.SelectionStartsEachOnce | hub/forms/DlgTransferFile.cpp:458-474 | Each selected unfinished row is started exactly once, no finished and no other row at all. |
| QueueRuns.EverythingStartsEachOnce | hub/forms/DlgTransferFile.cpp:448-456 | Without a selection each unfinished row is started exactly once. |
| QueueRuns.QueueClearExactIffHigherToLower | hub/forms/DlgTransferFile.cpp:479-495 | Clearing a selection in any reachable queue takes exactly the selected rows out of identities, entries and table together if and only if the ranges are listed from higher to lower; the new queue then is the old one without them. |
| QueueRuns.ClearKeepsUnselected | hub/forms/DlgTransferFile.cpp:479-495 | When the ranges are listed from higher to lower, an entry survives if and only if its row is in none of them. |
| QueueTexts.CompletionRefreshes | hub/forms/DlgTransferFile.cpp:349-354 | A completion refreshes the remote side if and only if it finishes an upload or a remote removal, the local side if and only if it finishes a download or a local removal. |
| QueueTexts.ShownWhenAdded | hub/forms/DlgTransferFile.cpp:559-566 | The text of a new entry for each operation, waiting or running. |
| QueueTexts.ShownWhenCompleted | hub/forms/DlgTransferFile.cpp:262-347 | Status and text that each outcome leaves for each operation; an invalid file name is told before a denied permission. |
| QueueTexts.ShownAfterStart | hub/forms/DlgTransferFile.cpp:446-477 | Selected unfinished rows are labelled for their operation and failed uploads and downloads turned back; without a selection every unfinished row is labelled and no status changes; all else stays. |
| QueueTexts.ShownUntilTouched | hub/forms/DlgTransferFile.cpp:246-576 | In every run status and text of an entry stay until it is started or a completion hits it, whatever else is added, cleared or completed. |
| TransferDialog.DlgTransferFile.constructor | hub/forms/DlgTransferFile.cpp:17-23 | Browser and queue of a new dialog. |
| TransferDialog.DlgTransferFile.UploadSelected | hub/forms/DlgTransferFile.cpp:614-627 | Queues the selected local files for upload into the remote directory, started. |
| TransferDialog.DlgTransferFile.DownloadSelected | hub/forms/DlgTransferFile.cpp:629-642 | Queues the selected remote files for download, started. |
| TransferDialog.DlgTransferFile.FileToUpload | hub/forms/DlgTransferFile.cpp:646-660 | The same for upload, not started. |
| TransferDialog.DlgTransferFile.FileToDownload | hub/forms/DlgTransferFile.cpp:662-675 | The same for download, not started. |
| TransferDialog.DlgTransferFile.RemoveSelectedLocal | hub/forms/DlgTransferFile.cpp:814-827 | Queues the selected local files for removal, started. |
| TransferDialog.DlgTransferFile.RemoveSelectedRemote | hub/forms/DlgTransferFile.cpp:829-842 | Queues the selected remote files for removal, started. |
| TransferDialog.DlgTransferFile.LocalFileSystemDrop | hub/forms/DlgTransferFile.cpp:176-187 | A drop onto the local side downloads the remote selection. |
| TransferDialog.DlgTransferFile.RemoteFileSystemDrop | hub/forms/DlgTransferFile.cpp:189-200 | A drop onto the remote side uploads the local selection. |
| TransferDialog.DlgTransferFile.FileWasDropped | hub/forms/DlgTransferFile.cpp:203-216 | A dropped file is uploaded into the remote directory. |
| TransferDialog.DlgTransferFile.StartTransferFiles | hub/forms/DlgTransferFile.cpp:446-477 | Starts the selection and leaves the buttons enabled. |
| TransferDialog.DlgTransferFile.ClearFiles | hub/forms/DlgTransferFile.cpp:479-495 | Clears the selection and leaves the buttons enabled. |
| TransferDialog.DlgTransferFile.FileLocalSelected | hub/forms/DlgTransferFile.cpp:691-707 | A double click on a local file queues it for upload, not started. |
| TransferDialog.DlgTransferFile.FileRemoteSelected | hub/forms/DlgTransferFile.cpp:709-727 | A double click enters a remote directory or queues a remote file for download, not started. |
| TransferDialog.DlgTransferFile.TransferFinished | hub/forms/DlgTransferFile.cpp:349-354 | One remote listing is issued if and only if an upload or remote removal has been finished; a finished download or local removal leaves the buttons enabled; anything else touches neither. |
| PortAllocator.ReserveNewPort | DlgCreatePeer.cpp:414-449 | Gives the first number not in use above the least one that is, 9998 counting as used, for any list in any order with duplicates. |
| PortAllocator.GivesLeastNotTaken | DlgCreatePeer.cpp:420-437 | A port is given if and only if it is the least from 9999 up that is neither reserved nor, when the status call came off with exit code 0 and output, read from 9999 up in the text of a machine. |
| PortAllocator.MachinePortIsNotGiven | DlgCreatePeer.cpp:421-431 | The port that a machine reports, whatever stands around its digits, is not given to another. |
| PortAllocator.FailedCallLeavesReserved | DlgCreatePeer.cpp:421 | After a failed call, or without output, the least port from 9999 up that is not reserved is given, whatever the texts. |
| PortAllocator.PortOfText | DlgCreatePeer.cpp:424-426 | A port is read back from its text, whatever that is not a digit stands around it; 0 if it does not fit an int. |
| PortAllocator.Scan | DlgCreatePeer.cpp:438-448 | The loop is always left by its break, at the first gap of the sorted ports. |
| PortAllocator.SortSorts | DlgCreatePeer.cpp:438 | The sorted list is a sorted permutation. |
| PortAllocator.LeastFreeIffNoHoleBelow | DlgCreatePeer.cpp:438-448 | The first gap is the least free port from 9999 up if and only if no port in use below 9998 has a free port directly above it. |
| PortAllocator.LowReservation | DlgCreatePeer.cpp:435-437 | With port 5 reserved the allocator would give port 6. |
| PortAllocator.PortBound | DlgCreatePeer.cpp:438-448 | The port is at most 9999 plus the number of distinct used ports from 9999 up, hence at most 65535 while those are at most 55536. |
| PeerCreation.PeerHost.CheckConfigurations | DlgCreatePeer.cpp:305-317 | Removes an existing directory of the name if its status is "not_created", even when the input is then rejected. |
| PeerCreation.PeerHost.PeerDir | DlgCreatePeer.cpp:574-592 | Makes the directory exactly if there is none and the file system allows it. |
| PeerCreation.PeerHost.CheckMachine | DlgCreatePeer.cpp:531-548 | True if and only if every requirement is met; stops at the first that is not. |
| PeerCreation.PeerHost.CreateButtonPressed | DlgCreatePeer.cpp:470-529 | The whole press: rejected, name taken, requirements failed and directory removed, or port reserved, timer started and init running. |
| PeerCreation.PressNetEffect | DlgCreatePeer.cpp:470-529 | All steps of a press together: one new directory, flow, timer and reservation exactly if the input is valid, the name free or "not_created", the directory can be made and every requirement is met; otherwise none, and the name free unless vagrant knows its directory. |
| PeerCreation.InitNetEffect | DlgCreatePeer.cpp:594-656 | A failed init leaves no directory of the name, a successful one the port in its configuration if that can be opened; no other directory, reservation or timer is touched. |
| PeerCreation.PeerHost.TimerFired | DlgCreatePeer.cpp:514-516 | The timer erases its port from the reserved ones. |
| PeerCreation.PeerHost.DialogClosed | hub/src/TrayControlWindow.cpp:1528-1533 | Closing a create dialog during init deletes the worker with it; directory and reservation stay. |
| PeerCreation.PeerHost.InitCompleted | DlgCreatePeer.cpp:594-656 | Removes the directory after a failed init; otherwise writes the port to the configuration if that can be opened. |
| PeerRuns.PortsStayExact | DlgCreatePeer.cpp:504-516 | In every run the reserved ports are exactly those of the pending timers, no two timers hold the same port, and all are at least 9999. |
| PeerRuns.TimerReleasesItsOwn | DlgCreatePeer.cpp:514-516 | A firing timer releases its own reservation and no other. |
| PeerRuns.EveryPortIsLeastFree | DlgCreatePeer.cpp:414-449 | In every run a flow gets the least port from 9999 up that no pending timer holds and no machine reports, at most 9999 plus their number. |
| PeerRuns.PendingPortIsNotReused | DlgCreatePeer.cpp:512-516 | While the timer of a port is pending, no other flow gets that port. |
| PeerRuns.StepKeepsDirsIffHarmless | DlgCreatePeer.cpp:313-317 | A step keeps the directories right if and only if it is no press that finds the name of a flow in flight with status "not_created", and no other actor on such a name. |
| PeerRuns.DirectoriesRightIffHarmless | DlgCreatePeer.cpp:470-614 | In all worlds of a run a directory is removed only because its status was "not_created" or by the flow that made it, every flow in flight owns its directory, and every other directory of this program is explained by its flow's end, if and only if every step is harmless. |
| PeerRuns.OneDialogIsHarmless | hub/src/TrayControlWindow.cpp:1459-1464 | With one create dialog at a time only other actors can do harm to a flow in flight. |
| PeerRuns.SurvivorsAreAccounted | DlgCreatePeer.cpp:594-656 | In every run of harmless steps a directory of this program that is not in flight was made by a valid press with all requirements met; its init succeeded, and its configuration holds the reserved port unless it could not be opened; or its dialog was closed during init. |
| PeerRuns.StaysUntilTaken | DlgCreatePeer.cpp:313-317 | In every run of harmless steps a directory of this program that no flow uses is still there, unchanged, if and only if no later press has found its name "not_created" and no other actor has taken it. |
| PeerRuns.PeerStaysUntilTaken | DlgCreatePeer.cpp:594-620 | So for a flow whose init succeeded: until then its configuration holds the port that was reserved for it. |
| PeerRuns.AbandonedStaysUntilTaken | hub/src/TrayControlWindow.cpp:1528-1533 | So for a flow whose dialog was closed during init: until then its directory stays, without a configuration. |
| PeerRuns.FailuresLeaveNothing | DlgCreatePeer.cpp:493-614 | In every run, whatever the names, a flow that failed before or during init never has a directory of its own again. |
| PeerRuns.InitLosesItsDirectory | DlgCreatePeer.cpp:313-317 | A run with one dialog at a time in which a dialog is closed during init and the next press on the same name removes the directory under the init that still runs. |
| Fingerprint.GetFingerprintFromUid | commons/src/Commons.cpp:229-239 | Nothing without "uid"; otherwise what is collected from behind "uid:" with an index that wraps at 65536. |
| Fingerprint.EndsIffSomeStop | commons/src/Commons.cpp:233-237 | The loop ends, from any index, if and only if one of the first 65536 indices is at or behind the end or at a ':'. |
| Fingerprint.EndlessInputs | commons/src/Commons.cpp:231-237 | The source does not return exactly for inputs with "uid", of at least 65536 characters, without a ':' among the first 65536. |
| Fingerprint.EndlessExample | commons/src/Commons.cpp:234-237 | "uid" and 65533 letters or more is such an input. |
| Fingerprint.WhatIsCollected | commons/src/Commons.cpp:233-237 | From any beginning: the longest text without ':' there if it ends below index 65536; otherwise all up to there, and then the longest text without ':' from index 0. |
| Fingerprint.ShortInputsAreInReach | commons/src/Commons.cpp:233-237 | For at most 65535 characters the loop ends and its field ends below index 65536. |
| Fingerprint.FingerprintIffNotMisread | commons/src/Commons.cpp:229-239 | For every input whose field ends below index 65536, what is returned is the field behind the first "uid:", or nothing if there is none, if and only if the input is not one of the misread ones. |
| Fingerprint.MarkIsFoundWhereItIsPut | commons/src/Commons.cpp:233 | "uid:" does not overlap itself: behind a prefix without it, it occurs first where it is put. |
| Fingerprint.FingerprintRoundTrip | commons/src/Commons.cpp:229-239 | What is returned for prefix + "uid:" + fingerprint, at the end or followed by ':', is the fingerprint, as long as it ends below index 65536. |
| Fingerprint.MisreadExample | commons/src/Commons.cpp:231-233 | "myuid" gives "id". |
| UpdateLatch.LocalPeer.constructor | hub/include/PeerController.h:25-34 | A new peer has no update. |
| UpdateLatch.LocalPeer.SetUpdateAvailable | hub/include/PeerController.h:50-60 | One call of the setter. |
| UpdateLatch.UpdatingIffLeftUpdating | hub/include/PeerController.h:50-60 | After any calls the state is "updating" if and only if some call passed "updating" and no later one "finished". |
| UpdateLatch.WhatIsShown | hub/include/PeerController.h:50-60 | What the state is in every other case. |

## Left out

- Widgets, icons, tooltips, translations and drag-and-drop plumbing; completions, answers and timers are steps that may happen at any time.
- SSH, scp, vagrant and file system calls: their results are inputs. Names with line breaks, which the command output would split, are not lines of the model.
- RemoteBrowser.ParseRecord: does not model the date of the record (`parseDate`), which depends on the current year.
- RemoteBrowser.RemoteBrowser.AddFileRemote: does not model the date cell of the row.
- TransferQueue.TransferQueue.TransferFile: does not model the rewriting of Windows paths and the arguments of the workers, which go to scp and ssh.
- TransferDialog.DlgTransferFile.constructor: the home directory is an input, and the first local listing is left out.
- Creating folders (`create_folder_remote`), which also issues a listing and enables the buttons when its dialog closes.
- RemoteBrowser.RemoteBrowser.OutputFromRemoteCommand: does not model the label and the animation, which change in the same branch as the buttons.
- TransferDialog.DlgTransferFile.FileLocalSelected: the directory entered and its listing come from the file system and are inputs.
- TransferQueue.TransferQueue.ClearFiles: requires every erase to be in bounds, because erasing beyond the end of a deque is undefined; so does the method of the dialog.
- TransferQueue.TransferQueue.TransferFinished: success, denied permission and any other error are told apart, as in the source; the tooltip with the error code is not modelled.
- PortAllocator.ReserveNewPort: does not model the overflow of a 32-bit port, because `PortBound` keeps the port far below it for any real number of ports. The two readings of the global status are two inputs.
- PeerCreation.PeerHost.CheckConfigurations: the checks of password, name, memory and disk are one input, because they are independent comparisons.
- PeerCreation.PeerHost.InitCompleted: of the configuration file only the port is modelled; the terminal that starts the peer afterwards changes no modelled state. Removing a directory is taken to succeed.
- PeerRuns.SurvivorsAreAccounted: is about runs of harmless steps, because any other step takes a directory from the flow that owns it, as `StepKeepsDirsIffHarmless` says.
- PeerCreation.PeerHost.DialogClosed: of the worker only its callback is modelled, which is gone with the dialog; what the external command still does to the directory is not.
- Fingerprint.GetFingerprintFromUid: requires that the loop ends, because otherwise the source does not return; `EndlessInputs` says when that is.
- Other setters of the local peer, the peer controller, and the tables of constants elsewhere in the repository: they would only add easy members.
