/** Runs of any number of transfer dialogs that share one counter of outstanding listings. */
module BrowserRuns {
  import opened Sequences
  import opened Text
  import opened LineScanner
  import opened RemoteListing
  import opened RemotePath
  import opened RemoteBrowser

  /** All dialogs ever opened. A closed dialog is destroyed: its listings are never answered. */
  datatype World = World(dialogs: seq<Dialog>, closed: set<nat>, queries: int)

  datatype Step =
    | Open
    | Refresh(d: nat)
    | Answer(d: nat, k: nat, output: seq<string>)
    | Select(d: nat, row: int)
    | Back(d: nat)
    | LocalRefresh(d: nat)
    | Close(d: nat)

  const EMPTY := World([], {}, 0)

  ghost predicate Alive(w: World, d: nat) { d < |w.dialogs| && d !in w.closed }

  /** Entering and going back need an enabled button; refreshes, answers and closing do not. */
  ghost predicate CanStep(w: World, s: Step)
  {
    s.Open? ||
    (Alive(w, s.d) &&
     (s.Answer? ==> s.k < |w.dialogs[s.d].pending|) &&
     (s.Select? || s.Back? ==> w.dialogs[s.d].enabled))
  }

  ghost function Next(w: World, s: Step): World
    requires CanStep(w, s)
  {
    match s
    case Open => w.(dialogs := w.dialogs + [FRESH])
    case Refresh(d) => w.(dialogs := w.dialogs[d := Refreshed(w.dialogs[d])], queries := w.queries + 1)
    case Answer(d, k, output) =>
      w.(dialogs := w.dialogs[d := Answered(w.dialogs[d], k, output, w.queries - 1)], queries := w.queries - 1)
    case Select(d, row) =>
      w.(dialogs := w.dialogs[d := Selected(w.dialogs[d], row)],
         queries := w.queries + (if Enters(w.dialogs[d], row) then 1 else 0))
    case Back(d) => w.(dialogs := w.dialogs[d := WentBack(w.dialogs[d])], queries := w.queries + 1)
    case LocalRefresh(d) => w.(dialogs := w.dialogs[d := LocalRefreshed(w.dialogs[d])])
    case Close(d) => w.(closed := w.closed + {d})
  }

  /** The worlds of a run: one more than steps. */
  ghost predicate Run(ws: seq<World>, steps: seq<Step>)
  {
    && |ws| == |steps| + 1
    && forall i :: 0 <= i < |steps| ==> CanStep(ws[i], steps[i]) && ws[i + 1] == Next(ws[i], steps[i])
  }

  // ---------------------------------------------------------------- conservation

  function Outstanding(ds: seq<Dialog>): nat
  {
    if ds == [] then 0 else |ds[0].pending| + Outstanding(ds[1..])
  }

  lemma {:induction false} OutstandingUpdate(ds: seq<Dialog>, d: nat, x: Dialog)
    requires d < |ds|
    ensures Outstanding(ds[d := x]) == Outstanding(ds) - |ds[d].pending| + |x.pending|
  {
    if d == 0 {
      assert ds[0 := x][1..] == ds[1..];
    } else {
      assert ds[d := x][1..] == ds[1..][d - 1 := x];
      OutstandingUpdate(ds[1..], d - 1, x);
    }
  }

  lemma {:induction false} OutstandingAppend(ds: seq<Dialog>, x: Dialog)
    ensures Outstanding(ds + [x]) == Outstanding(ds) + |x.pending|
  {
    if ds == [] {
      assert [] + [x] == [x];
    } else {
      assert (ds + [x])[1..] == ds[1..] + [x];
      OutstandingAppend(ds[1..], x);
    }
  }

  ghost predicate NothingOutstanding(ds: seq<Dialog>)
  {
    forall d :: 0 <= d < |ds| ==> ds[d].pending == []
  }

  lemma {:induction false} NoneOutstanding(ds: seq<Dialog>)
    ensures Outstanding(ds) == 0 <==> NothingOutstanding(ds)
  {
    if ds != [] {
      NoneOutstanding(ds[1..]);
      assert forall d :: 0 < d < |ds| ==> ds[d] == ds[1..][d - 1];
      assert forall d :: 0 <= d < |ds| - 1 ==> ds[1..][d] == ds[d + 1];
    }
  }

  /** The counter is the number of listings that were issued and not answered. */
  ghost predicate Conserved(w: World) { w.queries == Outstanding(w.dialogs) }

  lemma StepConserves(w: World, s: Step)
    requires Conserved(w) && CanStep(w, s)
    ensures Conserved(Next(w, s))
  {
    if s.Open? {
      OutstandingAppend(w.dialogs, FRESH);
    } else if !s.Close? {
      OutstandingUpdate(w.dialogs, s.d, Next(w, s).dialogs[s.d]);
    }
  }

  /** In every run from the beginning the counter is exact, hence never negative, and an answer
      runs the enabling branch if and only if it leaves no dialog with a listing outstanding. */
  lemma {:induction false} CounterIsExact(ws: seq<World>, steps: seq<Step>, i: nat)
    requires Run(ws, steps) && ws[0] == EMPTY && i < |ws|
    ensures ws[i].queries == Outstanding(ws[i].dialogs) >= 0
    ensures i < |steps| && steps[i].Answer? ==>
      (ws[i + 1].queries == 0 <==> NothingOutstanding(ws[i + 1].dialogs))
  {
    if i > 0 {
      CounterIsExact(ws, steps, i - 1);
      StepConserves(ws[i - 1], steps[i - 1]);
    }
    if i < |steps| {
      StepConserves(ws[i], steps[i]);
      NoneOutstanding(ws[i + 1].dialogs);
    }
  }

  /** The answer to a dialog's last listing gives it its buttons back exactly when no other
      dialog, open or closed, has a listing outstanding. */
  lemma LastAnswerEnables(w: World, d: nat, output: seq<string>)
    requires Conserved(w) && Alive(w, d) && |w.dialogs[d].pending| == 1 && !w.dialogs[d].enabled
    ensures Next(w, Answer(d, 0, output)).dialogs[d].enabled
       <==> forall e :: 0 <= e < |w.dialogs| && e != d ==> w.dialogs[e].pending == []
  {
    var w' := Next(w, Answer(d, 0, output));
    StepConserves(w, Answer(d, 0, output));
    NoneOutstanding(w'.dialogs);
    assert forall e :: 0 <= e < |w.dialogs| && e != d ==> w'.dialogs[e] == w.dialogs[e];
  }

  /** After a dialog was closed during a listing, whatever happens: the counter stays positive,
      so that no answer ever enables a disabled dialog again. */
  lemma {:induction false} ClosedWhileListing(ws: seq<World>, steps: seq<Step>, i: nat, j: nat, c: nat, d: nat)
    requires Run(ws, steps) && ws[0] == EMPTY && i <= j < |ws|
    requires c in ws[i].closed && c < |ws[i].dialogs| && ws[i].dialogs[c].pending != []
    requires d < |ws[i].dialogs| && !ws[i].dialogs[d].enabled
    requires forall m :: i <= m < j ==> steps[m] != LocalRefresh(d)
    ensures c in ws[j].closed && c < |ws[j].dialogs| && ws[j].dialogs[c].pending != [] && ws[j].queries > 0
    ensures d < |ws[j].dialogs| && !ws[j].dialogs[d].enabled
    decreases j
  {
    CounterIsExact(ws, steps, j);
    NoneOutstanding(ws[j].dialogs);
    if i < j {
      ClosedWhileListing(ws, steps, i, j - 1, c, d);
      var w, s := ws[j - 1], steps[j - 1];
      assert s.Open? || s.d != c;
      assert ws[j].dialogs[c] == w.dialogs[c];
    }
  }

  /** A dialog whose last answer did not enable it is not enabled by the answers to others either:
      it stays disabled, with nothing outstanding, until it is refreshed itself. */
  lemma {:induction false} MissedForGood(ws: seq<World>, steps: seq<Step>, i: nat, j: nat, d: nat)
    requires Run(ws, steps) && i <= j < |ws|
    requires d < |ws[i].dialogs| && !ws[i].dialogs[d].enabled && ws[i].dialogs[d].pending == []
    requires forall m :: i <= m < j ==> steps[m] != LocalRefresh(d) && steps[m] != Refresh(d)
    ensures d < |ws[j].dialogs| && !ws[j].dialogs[d].enabled && ws[j].dialogs[d].pending == []
    decreases j
  {
    if i < j {
      MissedForGood(ws, steps, i, j - 1, d);
      var w, s := ws[j - 1], steps[j - 1];
      assert CanStep(w, s) && ws[j] == Next(w, s);
    }
  }

  // ---------------------------------------------------------------- paths of the listed files

  /** Every path shown is the path of the file in the directory that was listed. */
  ghost predicate PathsRight(x: Dialog)
  {
    forall f :: f in x.files ==> f.filePath == x.listed + f.fileName
  }

  lemma {:induction false} PathsOfListing(dir: string, lines: seq<string>, f: OneFile)
    requires f in FilesOfLines(dir, lines)
    ensures f.filePath == dir + f.fileName
  {
    if f !in FilesOfLine(dir, lines[0]) {
      PathsOfListing(dir, lines[1..], f);
    }
  }

  lemma SameSuffix(a: string, b: string, suffix: string)
    ensures a + suffix == b + suffix <==> a == b
  {
    if a + suffix == b + suffix {
      assert (a + suffix)[..|a|] == a && (b + suffix)[..|b|] == b;
    }
  }

  /** An answer shows right paths exactly when its listing was issued for the directory that is
      current when it arrives, or it shows no file at all. */
  lemma AnswerPaths(x: Dialog, k: nat, output: seq<string>, left: int)
    requires k < |x.pending|
    ensures PathsRight(Answered(x, k, output, left))
       <==> x.pending[k] == x.dir || FilesOfLines(x.dir, output) == []
  {
    var x' := Answered(x, k, output, left);
    forall f | f in x'.files ensures f.filePath == x.dir + f.fileName {
      PathsOfListing(x.dir, output, f);
    }
    if x'.files != [] && x.pending[k] != x.dir {
      var f := x'.files[0];
      assert f in x'.files && f.filePath == x.dir + f.fileName;
      SameSuffix(x.dir, x.pending[k], f.fileName);
    }
  }

  /** The buttons keep the user in a directory while it is being listed. */
  ghost predicate InStep(x: Dialog)
  {
    && (x.enabled ==> x.pending == [])
    && (forall p :: p in x.pending ==> p == x.dir)
    && PathsRight(x)
  }

  /** A local refresh enables the buttons whether or not a remote listing is outstanding. */
  ghost predicate Undisturbed(w: World, s: Step)
    requires CanStep(w, s)
  {
    s.LocalRefresh? ==> w.dialogs[s.d].pending == []
  }

  lemma IssueKeepsInStep(x: Dialog, row: int)
    requires InStep(x)
    ensures InStep(Refreshed(x))
    ensures x.enabled ==> InStep(Selected(x, row)) && InStep(WentBack(x))
  {
    if x.enabled {
      assert Selected(x, row).pending == (if Enters(x, row) then [Selected(x, row).dir] else []);
      assert WentBack(x).pending == [WentBack(x).dir];
    }
  }

  lemma AnswerKeepsInStep(x: Dialog, k: nat, output: seq<string>, left: int)
    requires InStep(x) && k < |x.pending|
    requires left == 0 ==> |x.pending| == 1
    ensures InStep(Answered(x, k, output, left))
  {
    assert x.pending[k] in x.pending;
    AnswerPaths(x, k, output, left);
  }

  lemma StepKeepsInStep(w: World, s: Step)
    requires Conserved(w) && CanStep(w, s) && Undisturbed(w, s)
    requires forall d :: 0 <= d < |w.dialogs| ==> InStep(w.dialogs[d])
    ensures forall d :: 0 <= d < |Next(w, s).dialogs| ==> InStep(Next(w, s).dialogs[d])
  {
    if !s.Open? && !s.Close? {
      var x := w.dialogs[s.d];
      assert InStep(x);
      if s.Answer? {
        StepConserves(w, s);
        NoneOutstanding(Next(w, s).dialogs);
        assert Next(w, s).dialogs[s.d].pending == Without(x.pending, s.k);
        AnswerKeepsInStep(x, s.k, s.output, w.queries - 1);
      } else {
        IssueKeepsInStep(x, if s.Select? then s.row else 0);
      }
    }
  }

  /** In every run in which no local refresh ends during a remote listing of the same dialog,
      all files shown by all dialogs have the path they have in the listed directory. */
  lemma {:induction false} PathsStayRight(ws: seq<World>, steps: seq<Step>, i: nat)
    requires Run(ws, steps) && ws[0] == EMPTY && i < |ws|
    requires forall j :: 0 <= j < |steps| ==> Undisturbed(ws[j], steps[j])
    ensures forall d :: 0 <= d < |ws[i].dialogs| ==> InStep(ws[i].dialogs[d])
  {
    if i > 0 {
      PathsStayRight(ws, steps, i - 1);
      CounterIsExact(ws, steps, i - 1);
      StepKeepsInStep(ws[i - 1], steps[i - 1]);
    }
  }

  ghost function Solo(x: Dialog, queries: int): World { World([x], {}, queries) }

  lemma SoloStep(x: Dialog, queries: int, s: Step, ws: seq<World>, steps: seq<Step>) returns (ws': seq<World>, steps': seq<Step>)
    requires Run(ws, steps) && ws[|steps|] == Solo(x, queries)
    requires !s.Open? && !s.Close? && s.d == 0 && CanStep(Solo(x, queries), s)
    ensures Run(ws', steps') && ws'[0] == ws[0]
    ensures ws'[|steps'|] == match s
      case Refresh(_) => Solo(Refreshed(x), queries + 1)
      case Answer(_, k, output) => Solo(Answered(x, k, output, queries - 1), queries - 1)
      case Select(_, row) => Solo(Selected(x, row), queries + (if Enters(x, row) then 1 else 0))
      case Back(_) => Solo(WentBack(x), queries + 1)
      case LocalRefresh(_) => Solo(LocalRefreshed(x), queries)
  {
    ws', steps' := ws + [Next(Solo(x, queries), s)], steps + [s];
  }

  lemma OpenAndRefresh() returns (ws: seq<World>, steps: seq<Step>)
    ensures Run(ws, steps) && ws[0] == EMPTY && ws[|steps|] == Solo(Refreshed(FRESH), 1)
    ensures Refreshed(FRESH) == Dialog("/", ["/"], [], "/", false)
  {
    ws, steps := [EMPTY, Solo(FRESH, 0)], [Open];
    ws, steps := SoloStep(FRESH, 0, Refresh(0), ws, steps);
  }

  /** Open a dialog, refresh, and show directory `a` of "/". */
  lemma ShowDirectory(a: Entry) returns (ws: seq<World>, steps: seq<Step>)
    requires ValidEntry(a) && a.kind == Directory && Readable(a)
    ensures Run(ws, steps) && ws[0] == EMPTY
    ensures ws[|steps|] == Solo(Dialog("/", [], [TrueFile("/", a)], "/", true), 0)
  {
    EntryRoundTrip("/", a);
    OneLine("/", EntryLine(a));
    ws, steps := OpenAndRefresh();
    var x := Refreshed(FRESH);
    ws, steps := SoloStep(x, 1, Answer(0, 0, [EntryLine(a)]), ws, steps);
  }

  /** Then refresh again, end a download, and enter `a`. */
  lemma EnterDuringListing(a: Entry) returns (ws: seq<World>, steps: seq<Step>)
    requires ValidEntry(a) && a.kind == Directory && Readable(a)
    ensures Run(ws, steps) && ws[0] == EMPTY
    ensures var dir := "/" + (a.name + "/");
      ws[|steps|] == Solo(Dialog(dir, ["/", dir], [TrueFile("/", a)], "/", false), 2)
  {
    ws, steps := ShowDirectory(a);
    var x := Dialog("/", [], [TrueFile("/", a)], "/", true);
    ws, steps := SoloStep(x, 0, Refresh(0), ws, steps);
    x := Refreshed(x);
    assert x == Dialog("/", ["/"], [TrueFile("/", a)], "/", false);
    ws, steps := SoloStep(x, 1, LocalRefresh(0), ws, steps);
    x := LocalRefreshed(x);
    ws, steps := SoloStep(x, 1, Select(0, 0), ws, steps);
    assert Selected(x, 0).pending == ["/", "/" + (a.name + "/")];
  }

  /** One local refresh during a listing is enough to break this: the answer for "/" that arrives
      in directory `a` shows file `f` of "/" under the path it would have in `a`. */
  lemma StaleListing(a: Entry, f: Entry) returns (ws: seq<World>, steps: seq<Step>)
    requires ValidEntry(a) && a.kind == Directory && Readable(a)
    requires ValidEntry(f) && f.kind == Regular && Readable(f)
    ensures Run(ws, steps) && ws[0] == EMPTY && |ws[|steps|].dialogs| == 1
    ensures var x := ws[|steps|].dialogs[0];
      x.listed == "/" && |x.files| == 1 && x.files[0].filePath == "/" + (a.name + "/") + f.name && !PathsRight(x)
  {
    ws, steps := EnterDuringListing(a);
    var x := ws[|steps|].dialogs[0];
    EntryRoundTrip(x.dir, f);
    OneLine(x.dir, EntryLine(f));
    ws, steps := SoloStep(x, 2, Answer(0, 0, [EntryLine(f)]), ws, steps);
    AnswerPaths(x, 0, [EntryLine(f)], 1);
    assert TrueFile(x.dir, f) in ws[|steps|].dialogs[0].files;
  }

  lemma OneLine(dir: string, line: string)
    ensures FilesOfLines(dir, [line]) == FilesOfLine(dir, line)
  {
    assert [line][1..] == [];
    assert FilesOfLine(dir, line) + [] == FilesOfLine(dir, line);
  }

  // ---------------------------------------------------------------- the directory stays a path

  /** The answer is what `ls -lF` prints for some directory. */
  ghost predicate Honest(s: Step)
  {
    s.Answer? ==> exists items :: ValidItems(items) && s.output == Lines(items)
  }

  ghost predicate ValidItems(items: seq<Item>) { forall i :: i in items ==> ValidItem(i) }

  /** The record of a directory is named by some text without '/', perhaps none, and a '/'. */
  predicate NamedAsDirectory(f: OneFile)
  {
    f.fileType == FileTypeDirectory ==>
      f.fileName != "" && f.fileName[|f.fileName| - 1] == '/' && '/' !in f.fileName[..|f.fileName| - 1]
  }

  ghost predicate WellNamed(x: Dialog) { forall f :: f in x.files ==> NamedAsDirectory(f) }

  lemma {:induction false} ListedDirectories(dir: string, items: seq<Item>, f: OneFile)
    requires ValidItems(items) && f in FilesOfLines(dir, Lines(items))
    ensures NamedAsDirectory(f)
  {
    var first := items[0];
    assert first in items;
    if f in FilesOfLine(dir, Line(first)) {
      if first.Total? {
        FilesOfTotalLine(dir, first.blocks);
      } else {
        DirectoryRecords(dir, first.entry, f);
        SkipBlanksOfAppend(first.entry.name, "");
      }
    } else {
      assert f in FilesOfLines(dir, Lines(items[1..]));
      ListedDirectories(dir, items[1..], f);
    }
  }

  lemma {:induction false} NamesStayWell(ws: seq<World>, steps: seq<Step>, i: nat)
    requires Run(ws, steps) && ws[0] == EMPTY && i < |ws|
    requires forall s :: s in steps ==> Honest(s)
    ensures forall d :: 0 <= d < |ws[i].dialogs| ==> WellNamed(ws[i].dialogs[d])
  {
    if i > 0 {
      NamesStayWell(ws, steps, i - 1);
      var w, s := ws[i - 1], steps[i - 1];
      assert s in steps && CanStep(w, s) && ws[i] == Next(w, s);
      if s.Answer? {
        var items :| ValidItems(items) && s.output == Lines(items);
        forall f | f in ws[i].dialogs[s.d].files ensures NamedAsDirectory(f) {
          ListedDirectories(w.dialogs[s.d].dir, items, f);
        }
      }
    }
  }

  ghost predicate AllOnPath(w: World) { forall d :: 0 <= d < |w.dialogs| ==> IsPath(w.dialogs[d].dir) }

  /** The step enters a record that is named by a '/' alone. */
  predicate EntersNothing(w: World, s: Step)
  {
    s.Select? && s.d < |w.dialogs| && Enters(w.dialogs[s.d], s.row) && w.dialogs[s.d].files[s.row].fileName == "/"
  }

  lemma EnterStaysOnPath(x: Dialog, row: int)
    requires WellNamed(x) && IsPath(x.dir) && Enters(x, row)
    ensures IsPath(Selected(x, row).dir) <==> x.files[row].fileName != "/"
  {
    var f := x.files[row];
    assert f in x.files;
    var c := f.fileName[..|f.fileName| - 1];
    assert f.fileName == c + "/";
    if c == "" {
      EmptyNameBreaksPath(x.dir);
    } else {
      BackUndoesEnter(x.dir, c);
    }
  }

  lemma BackStaysOnPath(x: Dialog)
    requires IsPath(x.dir)
    ensures IsPath(WentBack(x).dir)
  {
    var stack :| Components(stack) && x.dir == PathOf(stack);
    ParentPops(stack);
    assert Components(Popped(stack));
  }

  lemma StepStaysOnPathIff(w: World, s: Step)
    requires CanStep(w, s) && AllOnPath(w) && forall d :: 0 <= d < |w.dialogs| ==> WellNamed(w.dialogs[d])
    ensures AllOnPath(Next(w, s)) <==> !EntersNothing(w, s)
  {
    if s.Open? {
      assert Components([]) && PathOf([]) == "/";
    } else {
      var x := w.dialogs[s.d];
      if s.Select? && Enters(x, s.row) {
        EnterStaysOnPath(x, s.row);
        assert Next(w, s).dialogs[s.d].dir == Selected(x, s.row).dir;
      } else if s.Back? {
        BackStaysOnPath(x);
      }
    }
  }

  /** Main result. In a run over any listings of directories, every dialog is in "/" or
      "/a/.../z/" in all worlds if and only if no step enters a record that is named by a '/'
      alone, which is how a directory is listed whose name is all blanks. */
  lemma DirectoryStaysPathIff(ws: seq<World>, steps: seq<Step>)
    requires Run(ws, steps) && ws[0] == EMPTY
    requires forall s :: s in steps ==> Honest(s)
    ensures (forall i :: 0 <= i < |ws| ==> AllOnPath(ws[i]))
       <==> (forall j :: 0 <= j < |steps| ==> !EntersNothing(ws[j], steps[j]))
  {
    if forall i :: 0 <= i < |ws| ==> AllOnPath(ws[i]) {
      forall j | 0 <= j < |steps| ensures !EntersNothing(ws[j], steps[j]) {
        assert AllOnPath(ws[j]) && AllOnPath(ws[j + 1]);
        NamesStayWell(ws, steps, j);
        StepStaysOnPathIff(ws[j], steps[j]);
      }
    }
    if forall j :: 0 <= j < |steps| ==> !EntersNothing(ws[j], steps[j]) {
      forall i | 0 <= i < |ws| ensures AllOnPath(ws[i]) { PathUntilNothingEntered(ws, steps, i); }
    }
  }

  lemma {:induction false} PathUntilNothingEntered(ws: seq<World>, steps: seq<Step>, i: nat)
    requires Run(ws, steps) && ws[0] == EMPTY && i < |ws|
    requires forall s :: s in steps ==> Honest(s)
    requires forall j :: 0 <= j < |steps| ==> !EntersNothing(ws[j], steps[j])
    ensures AllOnPath(ws[i])
  {
    if i > 0 {
      PathUntilNothingEntered(ws, steps, i - 1);
      NamesStayWell(ws, steps, i - 1);
      StepStaysOnPathIff(ws[i - 1], steps[i - 1]);
    }
  }

  /** A directory is listed as "/" exactly if its name is all blanks, and entering it then leaves
      the path form. */
  lemma BlankDirectory(x: Dialog, e: Entry)
    requires ValidEntry(e) && e.kind == Directory
    requires x.files == FilesOfLine(x.dir, EntryLine(e)) && IsPath(x.dir)
    ensures Enters(x, 0) && (x.files[0].fileName == "/" <==> SkipBlanks(e.name) == "")
    ensures IsPath(Selected(x, 0).dir) <==> SkipBlanks(e.name) != ""
  {
    var c := SkipBlanks(e.name);
    FilesOfEntryLine(x.dir, e);
    SkipBlanksOfAppend(e.name, "/");
    SkipBlanksOfAppend(e.name, "");
    TypeOfShown(x.dir, c, "/", Decimal(e.size));
    assert x.files == [FileOf(x.dir, c + "/", Decimal(e.size))];
    assert c + "/" == "/" <==> c == "";
    assert (c + "/")[..|c|] == c;
    assert WellNamed(x);
    EnterStaysOnPath(x, 0);
  }
}
