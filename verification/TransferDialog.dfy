/** The dialog as a whole: every function that queues something, the double clicks, and the
    completion of a transfer, which refreshes the side that it changed. */
module TransferDialog {
  import opened Text
  import opened RemoteListing
  import opened MultiErase
  import opened RemoteBrowser
  import opened Transfers
  import opened QueueRuns
  import opened QueueTexts
  import opened TransferQueue

  class DlgTransferFile {
    const browser: RemoteBrowser
    const queue: TransferQueue
    var localFiles: seq<OneFile>
    var localDir: string

    constructor (counter: RefreshCounter, localDir: string)
      ensures browser.View() == FRESH && browser.counter == counter && queue.View() == NONE
      ensures fresh(browser) && fresh(queue)
    {
      browser := new RemoteBrowser(counter);
      queue := new TransferQueue();
      this.localDir, localFiles := localDir, [];
    }

    /** What all enqueuing functions promise: exactly the selected files of one side are queued,
        in order, for one operation and one destination; nothing else of the queue changes. */
    twostate predicate Queued(op: Operation, source: Machine, status: Status, files: seq<OneFile>, destination: string,
                              ranges: seq<Range>, instant: bool)
      requires old(Aligned(queue.View())) && Within(ranges, |files|)
      reads queue
    {
      && Appended(old(queue.filesToTransfer), queue.filesToTransfer, files, destination, source, status, ranges)
      && StartedEach(old(queue.attempts), queue.attempts, |old(queue.filesToTransfer)|, |old(queue.asked)|,
                     if instant then RowCount(ranges) else 0)
      && queue.View() == AddedAll(old(queue.View()), RequestsOf(op, files, destination, ranges), instant)
    }

    method UploadSelected(ranges: seq<Range>)
      requires Aligned(queue.View()) && Within(ranges, |localFiles|)
      modifies queue, browser`enabled
      ensures Queued(Upload, LocalMachine, ToUpload, localFiles, browser.currentRemoteDir, ranges, true) && browser.enabled
    {
      browser.SetButtonsEnabled(false);
      queue.Enqueue(Upload, LocalMachine, ToUpload, localFiles, browser.currentRemoteDir, ranges, true);
      browser.SetButtonsEnabled(true);
    }

    method DownloadSelected(ranges: seq<Range>)
      requires Aligned(queue.View()) && Within(ranges, |browser.remoteFiles|)
      modifies queue, browser`enabled
      ensures Queued(Download, RemoteMachine, ToDownload, browser.remoteFiles, localDir, ranges, true) && browser.enabled
    {
      browser.SetButtonsEnabled(false);
      queue.Enqueue(Download, RemoteMachine, ToDownload, browser.remoteFiles, localDir, ranges, true);
      browser.SetButtonsEnabled(true);
    }

    method FileToUpload(ranges: seq<Range>)
      requires Aligned(queue.View()) && Within(ranges, |localFiles|)
      modifies queue, browser`enabled
      ensures Queued(Upload, LocalMachine, ToUpload, localFiles, browser.currentRemoteDir, ranges, false) && browser.enabled
    {
      browser.SetButtonsEnabled(false);
      queue.Enqueue(Upload, LocalMachine, ToUpload, localFiles, browser.currentRemoteDir, ranges, false);
      browser.SetButtonsEnabled(true);
    }

    method FileToDownload(ranges: seq<Range>)
      requires Aligned(queue.View()) && Within(ranges, |browser.remoteFiles|)
      modifies queue, browser`enabled
      ensures Queued(Download, RemoteMachine, ToDownload, browser.remoteFiles, localDir, ranges, false) && browser.enabled
    {
      browser.SetButtonsEnabled(false);
      queue.Enqueue(Download, RemoteMachine, ToDownload, browser.remoteFiles, localDir, ranges, false);
      browser.SetButtonsEnabled(true);
    }

    method RemoveSelectedLocal(ranges: seq<Range>)
      requires Aligned(queue.View()) && Within(ranges, |localFiles|)
      modifies queue, browser`enabled
      ensures Queued(RemoveLocal, LocalMachine, ToRemoveLocal, localFiles, "", ranges, true) && browser.enabled
    {
      browser.SetButtonsEnabled(false);
      queue.Enqueue(RemoveLocal, LocalMachine, ToRemoveLocal, localFiles, "", ranges, true);
      browser.SetButtonsEnabled(true);
    }

    method RemoveSelectedRemote(ranges: seq<Range>)
      requires Aligned(queue.View()) && Within(ranges, |browser.remoteFiles|)
      modifies queue, browser`enabled
      ensures Queued(RemoveRemote, RemoteMachine, ToRemoveRemote, browser.remoteFiles, "", ranges, true) && browser.enabled
    {
      browser.SetButtonsEnabled(false);
      queue.Enqueue(RemoveRemote, RemoteMachine, ToRemoveRemote, browser.remoteFiles, "", ranges, true);
      browser.SetButtonsEnabled(true);
    }

    /** Dropping onto the local side downloads what is selected on the remote side. */
    method LocalFileSystemDrop(ranges: seq<Range>)
      requires Aligned(queue.View()) && Within(ranges, |browser.remoteFiles|)
      modifies queue
      ensures Queued(Download, RemoteMachine, ToDownload, browser.remoteFiles, localDir, ranges, true)
    {
      queue.Enqueue(Download, RemoteMachine, ToDownload, browser.remoteFiles, localDir, ranges, true);
    }

    /** Dropping onto the remote side uploads what is selected on the local side. */
    method RemoteFileSystemDrop(ranges: seq<Range>)
      requires Aligned(queue.View()) && Within(ranges, |localFiles|)
      modifies queue
      ensures Queued(Upload, LocalMachine, ToUpload, localFiles, browser.currentRemoteDir, ranges, true)
    {
      queue.Enqueue(Upload, LocalMachine, ToUpload, localFiles, browser.currentRemoteDir, ranges, true);
    }

    method FileWasDropped(file: OneFile)
      requires Aligned(queue.View())
      modifies queue
      ensures queue.filesToTransfer == old(queue.filesToTransfer)
        + [FileToTransfer(file, browser.currentRemoteDir, LocalMachine, ToUpload)]
      ensures queue.attempts == old(queue.attempts) + [Attempt(|old(queue.filesToTransfer)|, |old(queue.asked)|)]
      ensures queue.View() == Next(old(queue.View()), Add(Request(Upload, file, browser.currentRemoteDir), true))
    {
      queue.FileTransferFieldAddFile(FileToTransfer(file, browser.currentRemoteDir, LocalMachine, ToUpload), true,
                                     Request(Upload, file, browser.currentRemoteDir));
    }

    method StartTransferFiles(ranges: seq<Range>)
      requires Aligned(queue.View()) && Below(Flatten(ranges), |queue.filesToTransfer|)
      modifies queue, browser`enabled
      ensures browser.enabled
      ensures queue.View() == Next(old(queue.View()), if ranges == [] then StartEverything else Start(Flatten(ranges)))
    {
      browser.SetButtonsEnabled(false);
      queue.StartTransferFiles(ranges);
      browser.SetButtonsEnabled(true);
    }

    method ClearFiles(ranges: seq<Range>)
      requires Aligned(queue.View()) && InBounds(|queue.filesToTransfer|, Flatten(ranges))
      modifies queue, browser`enabled
      ensures browser.enabled
      ensures queue.View() == Next(old(queue.View()), if ranges == [] then ClearEverything else Clear(Flatten(ranges)))
    {
      browser.SetButtonsEnabled(false);
      queue.ClearFiles(ranges);
      browser.SetButtonsEnabled(true);
    }

    /** A double click on a local row enters a directory, whose path and listing come from the
        file system, or queues a file without starting it. */
    method FileLocalSelected(row: int, entered: string, listing: seq<OneFile>)
      requires Aligned(queue.View())
      modifies queue, this`localDir, this`localFiles
      ensures var file := 0 <= row < |old(localFiles)| && !old(localFiles)[row].fileType.FileTypeDirectory?;
        queue.View() == if file then Added(old(queue.View()), Request(Upload, old(localFiles)[row], browser.currentRemoteDir))
                        else old(queue.View())
      ensures queue.attempts == old(queue.attempts) && queue.filesToTransfer == old(queue.filesToTransfer)
        + if 0 <= row < |old(localFiles)| && !old(localFiles)[row].fileType.FileTypeDirectory?
          then [FileToTransfer(old(localFiles)[row], browser.currentRemoteDir, LocalMachine, ToUpload)] else []
      ensures if 0 <= row < |old(localFiles)| && old(localFiles)[row].fileType.FileTypeDirectory?
              then localDir == entered && localFiles == listing
              else localDir == old(localDir) && localFiles == old(localFiles)
    {
      if row < 0 || row >= |localFiles| {
        return;
      }
      var selected := localFiles[row];
      if selected.fileType == FileTypeDirectory {
        localDir, localFiles := entered, listing;
      } else {
        queue.FileTransferFieldAddFile(FileToTransfer(selected, browser.currentRemoteDir, LocalMachine, ToUpload), false,
                                       Request(Upload, selected, browser.currentRemoteDir));
      }
    }

    /** A double click on a remote row enters a directory, or queues a file without starting it. */
    method FileRemoteSelected(row: int)
      requires Aligned(queue.View())
      modifies queue, browser, browser.counter
      ensures browser.View() == Selected(old(browser.View()), row)
      ensures browser.counter.queries == old(browser.counter.queries) + (if Enters(old(browser.View()), row) then 1 else 0)
      ensures queue.View() ==
        if 0 <= row < |old(browser.remoteFiles)| && !Enters(old(browser.View()), row)
        then Added(old(queue.View()), Request(Download, old(browser.remoteFiles)[row], localDir))
        else old(queue.View())
      ensures queue.attempts == old(queue.attempts) && queue.filesToTransfer == old(queue.filesToTransfer)
        + if 0 <= row < |old(browser.remoteFiles)| && !old(browser.remoteFiles)[row].fileType.FileTypeDirectory?
          then [FileToTransfer(old(browser.remoteFiles)[row], localDir, RemoteMachine, ToDownload)] else []
    {
      var file := browser.FileRemoteSelected(row);
      if file.Some? {
        queue.FileTransferFieldAddFile(FileToTransfer(file.value, localDir, RemoteMachine, ToDownload), false,
                                       Request(Download, file.value, localDir));
      }
    }

    /** The completion of attempt k: a remote change issues one remote listing, and a local one
        enables the buttons, whether or not a remote listing is outstanding. */
    method TransferFinished(ghost k: nat, row: nat, res: Outcome)
      requires Aligned(queue.View()) && k < |queue.attempts| && queue.attempts[k].row == row
      modifies queue, browser`enabled, browser`pending, browser.counter
      ensures queue.View() == Delivered(old(queue.View()), k, res)
      ensures if ChangesRemote(old(queue.View()), row, res)
        then browser.View() == Refreshed(old(browser.View())) && browser.counter.queries == old(browser.counter.queries) + 1
        else browser.counter.queries == old(browser.counter.queries)
             && browser.View() == if ChangesLocal(old(queue.View()), row, res) then LocalRefreshed(old(browser.View()))
                                  else old(browser.View())
      ensures Inv(old(queue.View())) ==>
        var finishes := Finishes(old(queue.View()), row, res);
        && (browser.counter.queries != old(browser.counter.queries)
            <==> finishes && AskedAt(old(queue.View()), row).op in {Upload, RemoveRemote})
        && (finishes && AskedAt(old(queue.View()), row).op in {Download, RemoveLocal} ==> browser.enabled)
    {
      if Inv(queue.View()) { CompletionRefreshes(queue.View(), row, res); }
      var remoteChanged, localChanged := queue.OutputReceived(k, row, res);
      if remoteChanged {
        browser.RefreshRemoteFileSystem();
      }
      if localChanged {
        browser.RefreshButtonLocal();
      }
    }
  }
}
