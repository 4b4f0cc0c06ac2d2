/** The remote directory as text, edited by "enter" and "back", against a stack of names. */
module RemotePath {

  /** QString::split("/"), empty parts kept. */
  function Split(s: string): (parts: seq<string>)
    ensures |parts| > 0
  {
    if s == "" then [""]
    else if s[0] == '/' then [""] + Split(s[1..])
    else var parts := Split(s[1..]); [[s[0]] + parts[0]] + parts[1..]
  }

  /** "/a/b" from ["a", "b"]. */
  function Slashed(parts: seq<string>): string
  {
    if parts == [] then "" else Slashed(parts[..|parts| - 1]) + ("/" + parts[|parts| - 1])
  }

  /** The text that remote_back makes: all parts but the first and the last two. */
  function Parent(dir: string): string
  {
    var parts := Split(dir);
    Slashed(if |parts| < 3 then [] else parts[1..|parts| - 2]) + "/"
  }

  // ---------------------------------------------------------------- the stack

  ghost predicate Component(c: string) { c != "" && '/' !in c }

  ghost predicate Components(stack: seq<string>) { forall i :: 0 <= i < |stack| ==> Component(stack[i]) }

  /** "/" or "/a/.../z/". */
  function PathOf(stack: seq<string>): string
  {
    if stack == [] then "/" else PathOf(stack[..|stack| - 1]) + (stack[|stack| - 1] + "/")
  }

  ghost predicate IsPath(dir: string) { exists stack :: Components(stack) && dir == PathOf(stack) }

  function Popped(stack: seq<string>): seq<string>
  {
    if stack == [] then [] else stack[..|stack| - 1]
  }

  // ---------------------------------------------------------------- the text is the stack

  lemma {:induction false} SplitAppend(s: string, c: string)
    requires '/' !in c
    ensures Split(s + (c + "/")) == Split(s)[..|Split(s)| - 1] + [Split(s)[|Split(s)| - 1] + c, ""]
  {
    if s == "" {
      SplitComponent(c);
      assert "" + (c + "/") == c + "/" && "" + c == c;
    } else {
      assert (s + (c + "/"))[1..] == s[1..] + (c + "/");
      SplitAppend(s[1..], c);
      var parts := Split(s[1..]);
      if |parts| == 1 && s[0] != '/' {
        assert [s[0]] + (parts[0] + c) == ([s[0]] + parts[0]) + c;
      }
    }
  }

  lemma {:induction false} SplitComponent(c: string)
    requires '/' !in c
    ensures Split(c + "/") == [c, ""]
  {
    if c == "" {
      assert c + "/" == "/" && "/"[1..] == "";
    } else {
      assert c[0] in c;
      assert (c + "/")[1..] == c[1..] + "/";
      SplitComponent(c[1..]);
      assert [c[0]] + c[1..] == c;
    }
  }

  /** The example in the source: "/usr/bin/" is split into "", "usr", "bin", "". */
  lemma {:induction false} SplitOfPath(stack: seq<string>)
    requires Components(stack)
    ensures Split(PathOf(stack)) == [""] + stack + [""]
  {
    if stack == [] {
      assert "/"[1..] == "";
    } else {
      var top := stack[|stack| - 1];
      SplitOfPath(Popped(stack));
      SplitAppend(PathOf(Popped(stack)), top);
      assert "" + top == top;
      assert stack == Popped(stack) + [top];
    }
  }

  /** The text determines the stack. */
  lemma PathOfIsInjective(a: seq<string>, b: seq<string>)
    requires Components(a) && Components(b) && PathOf(a) == PathOf(b)
    ensures a == b
  {
    SplitOfPath(a);
    SplitOfPath(b);
    assert ([""] + a + [""])[1..|a| + 1] == a && ([""] + b + [""])[1..|b| + 1] == b;
  }

  lemma {:induction false} SlashedIsPath(stack: seq<string>)
    ensures Slashed(stack) + "/" == PathOf(stack)
  {
    if stack != [] {
      var top := stack[|stack| - 1];
      SlashedIsPath(Popped(stack));
      assert Slashed(Popped(stack)) + ("/" + top) + "/" == Slashed(Popped(stack)) + "/" + (top + "/");
    }
  }

  /** Back pops the stack, and leaves the root where it is. */
  lemma ParentPops(stack: seq<string>)
    requires Components(stack)
    ensures Parent(PathOf(stack)) == PathOf(Popped(stack))
  {
    SplitOfPath(stack);
    SlashedIsPath(Popped(stack));
    if stack != [] {
      assert ([""] + stack + [""])[1..|stack|] == Popped(stack);
    }
  }

  lemma EnterPushes(stack: seq<string>, c: string)
    ensures PathOf(stack) + (c + "/") == PathOf(stack + [c])
  {
    assert (stack + [c])[..|stack|] == stack;
  }

  /** Back undoes enter. */
  lemma BackUndoesEnter(dir: string, c: string)
    requires IsPath(dir) && Component(c)
    ensures Parent(dir + (c + "/")) == dir
    ensures IsPath(dir + (c + "/")) && IsPath(Parent(dir))
  {
    var stack :| Components(stack) && dir == PathOf(stack);
    EnterPushes(stack, c);
    assert Components(stack + [c]) && Components(Popped(stack));
    ParentPops(stack + [c]);
    assert Popped(stack + [c]) == stack;
    ParentPops(stack);
  }

  /** An empty name would leave the path form. */
  lemma EmptyNameBreaksPath(dir: string)
    requires IsPath(dir)
    ensures !IsPath(dir + "/")
  {
    var a :| Components(a) && dir == PathOf(a);
    SplitOfPath(a);
    SplitAppend(dir, "");
    assert "" + "/" == "/" && "" + "" == "";
    assert Split(dir + "/") == [""] + a + ["", ""];
    forall b | Components(b) ensures dir + "/" != PathOf(b) {
      SplitOfPath(b);
      if |b| == |a| + 1 {
        assert ([""] + b + [""])[|a| + 1] == b[|a|];
        assert ([""] + a + ["", ""])[|a| + 1] == "";
      }
    }
  }

  datatype Move = Enter(name: string) | Back

  function Walk(dir: string, moves: seq<Move>): string
    decreases moves
  {
    if moves == [] then dir
    else Walk(if moves[0].Enter? then dir + (moves[0].name + "/") else Parent(dir), moves[1..])
  }

  function WalkStack(stack: seq<string>, moves: seq<Move>): seq<string>
    decreases moves
  {
    if moves == [] then stack
    else WalkStack(if moves[0].Enter? then stack + [moves[0].name] else Popped(stack), moves[1..])
  }

  /** Any sequence of enter and back edits the text as it edits the stack. */
  lemma {:induction false} WalkRefinesStack(stack: seq<string>, moves: seq<Move>)
    requires Components(stack)
    requires forall m :: m in moves && m.Enter? ==> Component(m.name)
    ensures Walk(PathOf(stack), moves) == PathOf(WalkStack(stack, moves))
    ensures Components(WalkStack(stack, moves))
    decreases moves
  {
    if moves != [] {
      var m := moves[0];
      assert m in moves;
      if m.Enter? {
        EnterPushes(stack, m.name);
        WalkRefinesStack(stack + [m.name], moves[1..]);
      } else {
        ParentPops(stack);
        WalkRefinesStack(Popped(stack), moves[1..]);
      }
    }
  }
}
