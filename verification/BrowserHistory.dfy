/** What a dialog shows, where it is, and whether its buttons are enabled, told from the steps of a
    run alone: its last answer, its entering and going back, and its last enabling step. */
module BrowserHistory {
  import opened Text
  import opened LineScanner
  import opened RemoteListing
  import opened RemotePath
  import opened RemoteBrowser
  import opened BrowserRuns

  // ---------------------------------------------------------------- the files

  ghost predicate AllReadable(items: seq<Item>)
    requires ValidItems(items)
  {
    forall i :: i in items ==> ReadableItem(i)
  }

  /** An answer to any listing shows the true files of the current directory, all of them and in
      order, if and only if every entry is readable. */
  lemma AnswerShows(x: Dialog, k: nat, items: seq<Item>, left: int)
    requires k < |x.pending| && ValidItems(items)
    ensures Answered(x, k, Lines(items), left).files == TrueFiles(x.dir, items) <==> AllReadable(items)
  {
    ListingRoundTrip(x.dir, items);
  }

  predicate Answers(s: Step, d: nat) { s.Answer? && s.d == d }

  /** Only an answer changes what is shown. */
  lemma {:induction false} ShownUntilNextAnswer(ws: seq<World>, steps: seq<Step>, i: nat, j: nat, d: nat)
    requires Run(ws, steps) && i <= j < |ws| && d < |ws[i].dialogs|
    requires forall m :: i <= m < j ==> !Answers(steps[m], d)
    ensures d < |ws[j].dialogs| && ws[j].dialogs[d].files == ws[i].dialogs[d].files
    decreases j
  {
    if i < j {
      ShownUntilNextAnswer(ws, steps, i, j - 1, d);
      assert !Answers(steps[j - 1], d) && ws[j] == Next(ws[j - 1], steps[j - 1]);
    }
  }

  /** Main result. At any time a dialog shows exactly the true files of the directory in which its
      last answer arrived, if and only if every entry of that answer is readable. */
  lemma ShowsLastAnswer(ws: seq<World>, steps: seq<Step>, i: nat, j: nat, items: seq<Item>)
    requires Run(ws, steps) && i < j < |ws| && steps[i].Answer?
    requires ValidItems(items) && steps[i].output == Lines(items)
    requires forall m :: i < m < j ==> !Answers(steps[m], steps[i].d)
    ensures var d := steps[i].d;
      d < |ws[i].dialogs| && d < |ws[j].dialogs| &&
      (ws[j].dialogs[d].files == TrueFiles(ws[i].dialogs[d].dir, items) <==> AllReadable(items))
  {
    var w, s := ws[i], steps[i];
    assert CanStep(w, s) && ws[i + 1] == Next(w, s);
    AnswerShows(w.dialogs[s.d], s.k, items, w.queries - 1);
    ShownUntilNextAnswer(ws, steps, i + 1, j, s.d);
  }

  /** In a run without a local refresh during a remote listing, that is the directory for which
      the listing was issued. */
  lemma ShowsWhatWasListed(ws: seq<World>, steps: seq<Step>, i: nat, j: nat, items: seq<Item>)
    requires Run(ws, steps) && ws[0] == EMPTY && i < j < |ws| && steps[i].Answer?
    requires forall m :: 0 <= m < |steps| ==> Undisturbed(ws[m], steps[m])
    requires ValidItems(items) && steps[i].output == Lines(items)
    requires forall m :: i < m < j ==> !Answers(steps[m], steps[i].d)
    ensures var d, k := steps[i].d, steps[i].k;
      d < |ws[i].dialogs| && d < |ws[j].dialogs| && k < |ws[i].dialogs[d].pending| &&
      (ws[j].dialogs[d].files == TrueFiles(ws[i].dialogs[d].pending[k], items) <==> AllReadable(items))
  {
    var w, s := ws[i], steps[i];
    assert CanStep(w, s);
    PathsStayRight(ws, steps, i);
    assert InStep(w.dialogs[s.d]) && w.dialogs[s.d].pending[s.k] in w.dialogs[s.d].pending;
    ShowsLastAnswer(ws, steps, i, j, items);
  }

  // ---------------------------------------------------------------- the directory

  predicate IsDirectoryRow(x: Dialog, row: int) { 0 <= row < |x.files| && x.files[row].fileType == FileTypeDirectory }

  /** A double click on the directory "c/" pushes c. */
  lemma SelectPushes(x: Dialog, row: int, stack: seq<string>, c: string)
    requires x.dir == PathOf(stack) && IsDirectoryRow(x, row) && x.files[row].fileName == c + "/"
    ensures Selected(x, row).dir == PathOf(stack + [c])
  {
    EnterPushes(stack, c);
  }

  lemma BackPops(x: Dialog, stack: seq<string>)
    requires x.dir == PathOf(stack) && Components(stack)
    ensures WentBack(x).dir == PathOf(Popped(stack))
  {
    ParentPops(stack);
  }

  /** What a step does to the stack of names of the dialog that takes it. */
  function StackAfter(stack: seq<string>, x: Dialog, s: Step): seq<string>
  {
    if s.Select? && IsDirectoryRow(x, s.row) then
      var name := x.files[s.row].fileName;
      stack + [if name == "" then "" else name[..|name| - 1]]
    else if s.Back? && stack != [] then stack[..|stack| - 1]
    else stack
  }

  /** The names that dialog d has entered and not left again before step i. */
  ghost function StackOf(ws: seq<World>, steps: seq<Step>, d: nat, i: nat): seq<string>
    requires Run(ws, steps) && i < |ws|
  {
    if i == 0 then []
    else
      var stack := StackOf(ws, steps, d, i - 1);
      if steps[i - 1].Open? || steps[i - 1].d != d then stack else StackAfter(stack, ws[i - 1].dialogs[d], steps[i - 1])
  }

  ghost predicate IsAt(x: Dialog, stack: seq<string>) { Components(stack) && x.dir == PathOf(stack) }

  lemma SelectFollows(x: Dialog, s: Step, stack: seq<string>)
    requires WellNamed(x) && IsAt(x, stack) && s.Select? && IsDirectoryRow(x, s.row) && x.files[s.row].fileName != "/"
    ensures IsAt(Selected(x, s.row), StackAfter(stack, x, s))
  {
    var f := x.files[s.row];
    assert f in x.files && NamedAsDirectory(f);
    var c := f.fileName[..|f.fileName| - 1];
    assert f.fileName == c + "/";
    SelectPushes(x, s.row, stack, c);
  }

  lemma StepFollows(w: World, s: Step, d: nat, stack: seq<string>)
    requires CanStep(w, s) && d < |w.dialogs| && WellNamed(w.dialogs[d]) && IsAt(w.dialogs[d], stack)
    requires !s.Open? && s.d == d && !EntersNothing(w, s)
    ensures IsAt(Next(w, s).dialogs[d], StackAfter(stack, w.dialogs[d], s))
  {
    var x := w.dialogs[d];
    if s.Select? && IsDirectoryRow(x, s.row) {
      SelectFollows(x, s, stack);
    } else if s.Back? {
      BackPops(x, stack);
    }
  }

  lemma {:induction false} NoStackBeforeOpening(ws: seq<World>, steps: seq<Step>, d: nat, i: nat)
    requires Run(ws, steps) && ws[0] == EMPTY && i < |ws| && d >= |ws[i].dialogs|
    ensures StackOf(ws, steps, d, i) == []
  {
    if i > 0 {
      assert CanStep(ws[i - 1], steps[i - 1]) && ws[i] == Next(ws[i - 1], steps[i - 1]);
      NoStackBeforeOpening(ws, steps, d, i - 1);
    }
  }

  /** Main result. In a run over any listings of directories in which nobody has entered a record
      named by a '/' alone yet, the directory of every dialog is the path of exactly the names that
      the dialog has entered and not left again. */
  lemma {:induction false} DirectoryIsTheStack(ws: seq<World>, steps: seq<Step>, d: nat, i: nat)
    requires Run(ws, steps) && ws[0] == EMPTY && i < |ws| && d < |ws[i].dialogs|
    requires forall s :: s in steps ==> Honest(s)
    requires forall m :: 0 <= m < i ==> !EntersNothing(ws[m], steps[m])
    ensures IsAt(ws[i].dialogs[d], StackOf(ws, steps, d, i))
  {
    if i > 0 {
      var w, s := ws[i - 1], steps[i - 1];
      assert CanStep(w, s) && ws[i] == Next(w, s);
      if d < |w.dialogs| {
        DirectoryIsTheStack(ws, steps, d, i - 1);
        NamesStayWell(ws, steps, i - 1);
        if !s.Open? && s.d == d { StepFollows(w, s, d, StackOf(ws, steps, d, i - 1)); }
      } else {
        NoStackBeforeOpening(ws, steps, d, i - 1);
      }
    }
  }

  // ---------------------------------------------------------------- the buttons

  /** The step opens dialog d, ends a local refresh of it, or answers it and leaves no listing of
      any dialog outstanding. */
  ghost predicate TurnsOn(w: World, s: Step, w': World, d: nat)
  {
    || (s.Open? && |w.dialogs| == d)
    || (s.LocalRefresh? && s.d == d)
    || (Answers(s, d) && Outstanding(w'.dialogs) == 0)
  }

  predicate TurnsOff(s: Step, d: nat) { (s.Refresh? || s.Select? || s.Back?) && s.d == d }

  ghost predicate TurnsOnAt(ws: seq<World>, steps: seq<Step>, d: nat, m: nat)
    requires |ws| == |steps| + 1 && m < |steps|
  {
    TurnsOn(ws[m], steps[m], ws[m + 1], d)
  }

  ghost predicate LeftOn(steps: seq<Step>, d: nat, m: nat, i: nat)
    requires i <= |steps|
  {
    forall n :: m < n < i ==> !TurnsOff(steps[n], d)
  }

  ghost predicate TurnedOn(ws: seq<World>, steps: seq<Step>, d: nat, i: nat)
    requires Run(ws, steps) && i < |ws|
  {
    exists m :: 0 <= m < i && TurnsOnAt(ws, steps, d, m) && LeftOn(steps, d, m, i)
  }

  lemma TurnedOnAfterStep(ws: seq<World>, steps: seq<Step>, d: nat, i: nat)
    requires Run(ws, steps) && i < |steps|
    ensures TurnedOn(ws, steps, d, i + 1)
       <==> TurnsOnAt(ws, steps, d, i) || (TurnedOn(ws, steps, d, i) && !TurnsOff(steps[i], d))
  {
    if TurnsOnAt(ws, steps, d, i) { assert LeftOn(steps, d, i, i + 1); }
    if TurnedOn(ws, steps, d, i) && !TurnsOff(steps[i], d) {
      var m :| 0 <= m < i && TurnsOnAt(ws, steps, d, m) && LeftOn(steps, d, m, i);
      assert LeftOn(steps, d, m, i + 1);
    }
    if TurnedOn(ws, steps, d, i + 1) {
      var m :| 0 <= m < i + 1 && TurnsOnAt(ws, steps, d, m) && LeftOn(steps, d, m, i + 1);
      assert m < i ==> LeftOn(steps, d, m, i);
    }
  }

  predicate IsEnabled(w: World, d: nat) { d < |w.dialogs| && w.dialogs[d].enabled }

  lemma EnabledAfterStep(w: World, s: Step, w': World, d: nat)
    requires Conserved(w) && CanStep(w, s) && w' == Next(w, s)
    ensures IsEnabled(w', d) <==> TurnsOn(w, s, w', d) || (IsEnabled(w, d) && !TurnsOff(s, d))
  {
    StepConserves(w, s);
  }

  /** Main result. The buttons of a dialog are enabled if and only if since its last refresh, double
      click or step back it was locally refreshed, or answered with no listing left outstanding
      anywhere; or if it is new and nothing was done with it. */
  lemma {:induction false} EnabledIffTurnedOn(ws: seq<World>, steps: seq<Step>, d: nat, i: nat)
    requires Run(ws, steps) && ws[0] == EMPTY && i < |ws|
    ensures IsEnabled(ws[i], d) <==> TurnedOn(ws, steps, d, i)
  {
    if i > 0 {
      EnabledIffTurnedOn(ws, steps, d, i - 1);
      TurnedOnAfterStep(ws, steps, d, i - 1);
      CounterIsExact(ws, steps, i - 1);
      EnabledAfterStep(ws[i - 1], steps[i - 1], ws[i], d);
    }
  }
}
