/** The remote half of the dialog: current directory, listed files, the buttons that are
    disabled during a listing, and the counter of outstanding listings that all dialogs share. */
module RemoteBrowser {
  import opened Sequences
  import opened Text
  import opened LineScanner
  import opened RemoteListing
  import opened RemotePath

  /** The state of one dialog. `pending` holds the directories of the listings that it has issued
      and not had answered, `listed` the directory whose listing it shows. */
  datatype Dialog = Dialog(dir: string, pending: seq<string>, files: seq<OneFile>, listed: string, enabled: bool)

  const FRESH := Dialog("/", [], [], "/", true)

  function Refreshed(x: Dialog): Dialog
  {
    x.(pending := x.pending + [x.dir], enabled := false)
  }

  /** The answer to listing k: the lines are read against the directory that is current now,
      and the buttons come back when the shared counter reaches zero. */
  function Answered(x: Dialog, k: nat, output: seq<string>, left: int): Dialog
    requires k < |x.pending|
  {
    x.(pending := Without(x.pending, k), files := FilesOfLines(x.dir, output), listed := x.pending[k],
       enabled := x.enabled || left == 0)
  }

  /** A double click: on a directory enter it, on a file only disable the buttons. */
  function Selected(x: Dialog, row: int): Dialog
  {
    if 0 <= row < |x.files| && x.files[row].fileType == FileTypeDirectory
    then Refreshed(x.(dir := x.dir + x.files[row].fileName))
    else x.(enabled := false)
  }

  predicate Enters(x: Dialog, row: int)
  {
    0 <= row < |x.files| && x.files[row].fileType == FileTypeDirectory
  }

  function WentBack(x: Dialog): Dialog
  {
    Refreshed(x.(dir := Parent(x.dir)))
  }

  /** refresh_button_local disables the buttons and enables them again. */
  function LocalRefreshed(x: Dialog): Dialog { x.(enabled := true) }

  /** The cells of one row of the file table; `size` is the number that is printed. */
  datatype FileRow = FileRow(name: string, size: nat, path: string)

  ghost predicate Shows(table: seq<FileRow>, files: seq<OneFile>)
  {
    && |table| == |files|
    && forall i :: 0 <= i < |files| ==>
         table[i].name == files[i].fileName && table[i].size == files[i].fileSize && table[i].path == files[i].filePath
  }

  lemma ChopBoth(dir: string, name: string)
    requires name != ""
    ensures (dir + name)[..|dir + name| - 1] == dir + name[..|name| - 1]
  {
  }

  /** The parsing half of add_file_remote: the record of a line that has all nine pieces. */
  method ParseRecord(dir: string, fileInfo: string) returns (file: Option<OneFile>)
    requires fileInfo == "" || fileInfo[0] != 'l'
    ensures FilesOfLine(dir, fileInfo) == match file case None => [] case Some(f) => [f]
  {
    var splitted := ParseRemoteFile(fileInfo, []);
    ghost var ps := Pieces(fileInfo, 8);
    assert splitted == ps;
    NinePieces(fileInfo);
    if |splitted| < 9 {
      return None;
    }
    var fileSize := splitted[4];
    var fileName := splitted[8];
    var filePath := dir + fileName;
    assert filePath[|filePath| - 1] == fileName[|fileName| - 1];
    if filePath[|filePath| - 1] == '*' {
      ChopBoth(dir, fileName);
      filePath := filePath[..|filePath| - 1];
      fileName := fileName[..|fileName| - 1];
    }
    return Some(OneFile(fileName, filePath, ToUnsigned64(ToInt(fileSize)),
                        if fileName != "" && fileName[|fileName| - 1] == '/'
                        then FileTypeDirectory else FileTypeSimple));
  }

  /** static int refresh_queries. */
  class RefreshCounter {
    var queries: int

    constructor () ensures queries == 0 { queries := 0; }
  }

  class RemoteBrowser {
    const counter: RefreshCounter
    var currentRemoteDir: string
    var remoteFiles: seq<OneFile>
    var table: seq<FileRow>
    var enabled: bool
    ghost var pending: seq<string>
    ghost var listed: string

    ghost function View(): Dialog
      reads this
    {
      Dialog(currentRemoteDir, pending, remoteFiles, listed, enabled)
    }

    constructor (counter: RefreshCounter)
      ensures View() == FRESH && this.counter == counter && Shows(table, remoteFiles)
    {
      this.counter := counter;
      currentRemoteDir, remoteFiles, table, enabled := "/", [], [], true;
      pending, listed := [], "/";
    }

    method SetButtonsEnabled(enable: bool)
      modifies this`enabled
      ensures enabled == enable
    {
      enabled := enable;
    }

    method RefreshRemoteFileSystem()
      modifies this`enabled, this`pending, counter
      ensures View() == Refreshed(old(View()))
      ensures counter.queries == old(counter.queries) + 1
    {
      counter.queries := counter.queries + 1;
      SetButtonsEnabled(false);
      pending := pending + [currentRemoteDir];
    }

    method AddFileRemote(fileInfo: string)
      requires fileInfo == "" || fileInfo[0] != 'l'
      requires Shows(table, remoteFiles)
      modifies this`remoteFiles, this`table
      ensures remoteFiles == old(remoteFiles) + FilesOfLine(currentRemoteDir, fileInfo)
      ensures Shows(table, remoteFiles)
    {
      var parsed := ParseRecord(currentRemoteDir, fileInfo);
      if parsed.Some? {
        table := table + [FileRow(parsed.value.fileName, parsed.value.fileSize, parsed.value.filePath)];
        remoteFiles := remoteFiles + [parsed.value];
      }
    }

    method OutputFromRemoteCommand(ghost k: nat, output: seq<string>)
      requires k < |pending|
      modifies this, counter
      ensures View() == Answered(old(View()), k, output, counter.queries)
      ensures counter.queries == old(counter.queries) - 1
      ensures remoteFiles == FilesOfLines(currentRemoteDir, output) && Shows(table, remoteFiles)
    {
      table := [];
      remoteFiles := [];
      ghost var all := FilesOfLines(currentRemoteDir, output);
      assert output[0..] == output;
      for i := 0 to |output|
        invariant currentRemoteDir == old(currentRemoteDir) && pending == old(pending) && enabled == old(enabled)
        invariant counter.queries == old(counter.queries)
        invariant remoteFiles + FilesOfLines(currentRemoteDir, output[i..]) == all
        invariant Shows(table, remoteFiles)
      {
        var fileInfo := output[i];
        NextLine(currentRemoteDir, output, i, remoteFiles);
        if fileInfo != "" && fileInfo[0] == 'l' {
          assert remoteFiles + [] == remoteFiles;
          continue;
        }
        AddFileRemote(fileInfo);
      }
      counter.queries := counter.queries - 1;
      if counter.queries == 0 {
        SetButtonsEnabled(true);
      }
      pending, listed := Without(pending, k), pending[k];
    }

    /** The record of a file that is to be queued for download, if one was selected. */
    method FileRemoteSelected(row: int) returns (file: Option<OneFile>)
      modifies this`currentRemoteDir, this`enabled, this`pending, counter
      ensures View() == Selected(old(View()), row)
      ensures counter.queries == old(counter.queries) + (if Enters(old(View()), row) then 1 else 0)
      ensures file == if 0 <= row < |remoteFiles| && !Enters(old(View()), row) then Some(remoteFiles[row]) else None
      ensures currentRemoteDir == old(currentRemoteDir) + (if Enters(old(View()), row) then remoteFiles[row].fileName else "")
    {
      SetButtonsEnabled(false);
      if row < 0 || row >= |remoteFiles| {
        return None;
      }
      var selected := remoteFiles[row];
      if selected.fileType == FileTypeDirectory {
        currentRemoteDir := currentRemoteDir + selected.fileName;
        RefreshRemoteFileSystem();
        return None;
      }
      return Some(selected);
    }

    method RemoteBack()
      modifies this`currentRemoteDir, this`enabled, this`pending, counter
      ensures View() == WentBack(old(View()))
      ensures counter.queries == old(counter.queries) + 1
      ensures forall stack :: Components(stack) && old(currentRemoteDir) == PathOf(stack) ==>
        currentRemoteDir == PathOf(Popped(stack))
    {
      var pwd := Split(currentRemoteDir);
      var newDir := "";
      var i := 1;
      while i < |pwd| - 2
        invariant 1 <= i && (i <= |pwd| - 2 || i == 1)
        invariant newDir == Slashed(if i == 1 then [] else pwd[1..i])
      {
        newDir := newDir + ("/" + pwd[i]);
        assert pwd[1..i + 1][..i - 1] == pwd[1..i];
        i := i + 1;
      }
      newDir := newDir + "/";
      forall stack | Components(stack) && currentRemoteDir == PathOf(stack) ensures newDir == PathOf(Popped(stack)) {
        ParentPops(stack);
      }
      currentRemoteDir := newDir;
      RefreshRemoteFileSystem();
    }

    method RefreshButtonLocal()
      modifies this`enabled
      ensures View() == LocalRefreshed(old(View()))
    {
      SetButtonsEnabled(false);
      SetButtonsEnabled(true);
    }
  }
}
