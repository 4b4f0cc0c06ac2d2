/** The splitting of one `ls -lF` line: DlgTransferFile::parse_remote_file. */
module LineScanner {
  import opened Text

  // ---------------------------------------------------------------- specification

  function SkipBlanks(s: string): (r: string)
    ensures |r| <= |s|
    ensures r != "" ==> r[0] != ' '
  {
    if s != "" && s[0] == ' ' then SkipBlanks(s[1..]) else s
  }

  function WordLength(s: string): (n: nat)
    ensures n <= |s|
    ensures s != "" && s[0] != ' ' ==> n > 0
    ensures n < |s| ==> s[n] == ' '
    ensures forall i :: 0 <= i < n ==> s[i] != ' '
  {
    if s == "" || s[0] == ' ' then 0 else 1 + WordLength(s[1..])
  }

  /** Skip blanks and take a word, `n` times; then skip blanks and take all that is left. */
  function Pieces(s: string, n: nat): (ps: seq<string>)
    decreases |s|
  {
    var t := SkipBlanks(s);
    if t == "" then []
    else if n == 0 then [t]
    else [t[..WordLength(t)]] + Pieces(t[WordLength(t)..], n - 1)
  }

  /** Pieces that `n` words followed by a verbatim remainder can be. */
  ghost predicate WellFormed(ps: seq<string>, n: nat)
  {
    && |ps| <= n + 1
    && (forall i :: 0 <= i < |ps| ==> ps[i] != "" && ps[i][0] != ' ')
    && (forall i :: 0 <= i < |ps| && i < n ==> ' ' !in ps[i])
  }

  /** The line that shows `ps`, with `gaps[i]` blanks before piece i and `tail` blanks at the end. */
  function Render(gaps: seq<nat>, ps: seq<string>, tail: nat): string
    requires |gaps| == |ps|
  {
    if ps == [] then Blanks(tail)
    else Blanks(gaps[0]) + ps[0] + Render(gaps[1..], ps[1..], tail)
  }

  /** A layout of a line: all gaps but the first are positive, and a ninth piece runs to the end. */
  ghost predicate Layout(gaps: seq<nat>, ps: seq<string>, tail: nat, n: nat)
  {
    && |gaps| == |ps|
    && WellFormed(ps, n)
    && (forall i :: 0 < i < |gaps| ==> gaps[i] > 0)
    && (|ps| == n + 1 ==> tail == 0)
  }

  /** A word begins at position i. */
  predicate StartsAt(s: string, i: nat)
  {
    i < |s| && s[i] != ' ' && (i == 0 || s[i - 1] == ' ')
  }

  /** The number of positions below `end` where a word begins. */
  function Starts(s: string, end: nat): nat
  {
    if end == 0 then 0 else Starts(s, end - 1) + (if StartsAt(s, end - 1) then 1 else 0)
  }

  function WordStarts(s: string): nat { Starts(s, |s|) }

  // ---------------------------------------------------------------- the loop of the source

  /** What the loop still owes when it has read up to some point, given its flags. */
  ghost function Owed(readingName: bool, readingFile: bool, st: string, rest: string, left: nat): seq<string>
    requires readingFile && !readingName ==> left > 0
  {
    if readingName then [st + rest]
    else if readingFile then [st + rest[..WordLength(rest)]] + Pieces(rest[WordLength(rest)..], left - 1)
    else Pieces(rest, left)
  }

  /** Reading the name, every character is taken. */
  lemma AdvanceName(st: string, rest: string, left: nat)
    requires rest != ""
    ensures Owed(true, true, st, rest, left) == Owed(true, true, st + [rest[0]], rest[1..], left)
  {
    assert rest == [rest[0]] + rest[1..];
    assert st + rest == (st + [rest[0]]) + rest[1..];
  }

  /** A blank ends the word that is being read. */
  lemma AdvanceWordEnd(st: string, rest: string, left: nat)
    requires rest != "" && rest[0] == ' ' && left > 0
    ensures Owed(false, true, st, rest, left) == [st] + Owed(false, false, "", rest[1..], left - 1)
  {
    assert st + rest[..0] == st;
    assert rest[0..] == rest;
    assert SkipBlanks(rest) == SkipBlanks(rest[1..]);
  }

  /** Any other character goes into the word. */
  lemma AdvanceWord(st: string, rest: string, left: nat)
    requires rest != "" && rest[0] != ' ' && left > 0
    ensures Owed(false, true, st, rest, left) == Owed(false, true, st + [rest[0]], rest[1..], left)
  {
    var w := WordLength(rest[1..]);
    assert WordLength(rest) == 1 + w;
    assert rest[..1 + w] == [rest[0]] + rest[1..][..w];
    assert rest[1 + w..] == rest[1..][w..];
    assert st + rest[..1 + w] == (st + [rest[0]]) + rest[1..][..w];
  }

  /** Between words, a character that is not a blank begins the next piece. */
  lemma AdvanceBegin(rest: string, left: nat)
    requires rest != "" && rest[0] != ' '
    ensures Owed(false, false, "", rest, left) == Owed(left == 0, true, [rest[0]], rest[1..], left)
  {
    assert SkipBlanks(rest) == rest;
    assert rest == [rest[0]] + rest[1..];
    if left > 0 {
      AdvanceWord("", rest, left);
      assert "" + rest[..WordLength(rest)] == rest[..WordLength(rest)];
      assert "" + [rest[0]] == [rest[0]];
    }
  }

  /** The loop as a recursion over the characters that are left. */
  function Scan(readingName: bool, readingFile: bool, st: string, rest: string, left: nat): seq<string>
    requires readingFile && !readingName ==> left > 0
    decreases |rest|
  {
    if rest == "" then (if readingFile then [st] else [])
    else if readingName then Scan(true, readingFile, st + [rest[0]], rest[1..], left)
    else if readingFile then
      (if rest[0] == ' ' then [st] + Scan(false, false, "", rest[1..], left - 1)
       else Scan(false, true, st + [rest[0]], rest[1..], left))
    else if rest[0] != ' ' then Scan(left == 0, true, st + [rest[0]], rest[1..], left)
    else Scan(false, false, st, rest[1..], left)
  }

  /** At every point the loop delivers what it owes. */
  lemma {:induction false} ScanPaysWhatIsOwed(readingName: bool, readingFile: bool, st: string, rest: string, left: nat)
    requires readingFile && !readingName ==> left > 0
    requires (readingName ==> readingFile) && (!readingFile ==> st == "")
    ensures Scan(readingName, readingFile, st, rest, left) == Owed(readingName, readingFile, st, rest, left)
    decreases |rest|
  {
    if rest == "" {
      assert st + rest == st && rest[..0] == rest;
    } else if readingName {
      AdvanceName(st, rest, left);
      ScanPaysWhatIsOwed(true, true, st + [rest[0]], rest[1..], left);
    } else if readingFile {
      if rest[0] == ' ' {
        AdvanceWordEnd(st, rest, left);
        ScanPaysWhatIsOwed(false, false, "", rest[1..], left - 1);
      } else {
        AdvanceWord(st, rest, left);
        ScanPaysWhatIsOwed(false, true, st + [rest[0]], rest[1..], left);
      }
    } else if rest[0] != ' ' {
      AdvanceBegin(rest, left);
      assert st + [rest[0]] == [rest[0]];
      ScanPaysWhatIsOwed(left == 0, true, [rest[0]], rest[1..], left);
    } else {
      ScanPaysWhatIsOwed(false, false, st, rest[1..], left);
    }
  }

  /** DlgTransferFile::parse_remote_file. The list is passed by reference and appended to. */
  method ParseRemoteFile(fileInfo: string, before: seq<string>) returns (splitted: seq<string>)
    ensures splitted == before + Pieces(fileInfo, 8)
  {
    splitted := before;
    var counter := 0;
    var readingFile := false;
    var readingFileName := false;
    var parsed := 0;
    var st := "";
    ghost var rest, left := fileInfo, 8;
    ghost var owed := Scan(false, false, "", fileInfo, 8);
    ScanPaysWhatIsOwed(false, false, "", fileInfo, 8);
    while counter != |fileInfo|
      invariant 0 <= counter <= |fileInfo| && rest == fileInfo[counter..]
      invariant left == 8 - parsed >= 0
      invariant readingFileName ==> readingFile
      invariant readingFile && !readingFileName ==> left > 0
      invariant owed == Scan(readingFileName, readingFile, st, rest, left)
      invariant splitted + owed == before + Pieces(fileInfo, 8)
    {
      assert rest[0] == fileInfo[counter];
      if readingFileName {
        st := st + [fileInfo[counter]];
      } else {
        if readingFile {
          if fileInfo[counter] == ' ' {
            readingFile := false;
            assert splitted + owed == splitted + [st] + owed[1..];
            owed := owed[1..];
            splitted := splitted + [st];
            st := "";
            parsed, left := parsed + 1, left - 1;
          } else {
            st := st + [fileInfo[counter]];
          }
        } else {
          if fileInfo[counter] != ' ' {
            readingFile := true;
            st := st + [fileInfo[counter]];
            if parsed == 8 {
              readingFileName := true;
            }
          }
        }
      }
      counter := counter + 1;
      rest := rest[1..];
    }
    if readingFile {
      splitted := splitted + [st];
    }
  }

  // ---------------------------------------------------------------- what the pieces are

  lemma {:induction false} SkipBlanksOf(n: nat, s: string)
    requires s == "" || s[0] != ' '
    ensures SkipBlanks(Blanks(n) + s) == s
  {
    if n == 0 {
      assert Blanks(0) + s == s;
    } else {
      assert (Blanks(n) + s)[1..] == Blanks(n - 1) + s;
      SkipBlanksOf(n - 1, s);
    }
  }

  lemma {:induction false} WordLengthOf(w: string, rest: string)
    requires ' ' !in w
    requires rest == "" || rest[0] == ' '
    ensures WordLength(w + rest) == |w|
  {
    if w == "" {
      assert w + rest == rest;
    } else {
      assert (w + rest)[1..] == w[1..] + rest;
      WordLengthOf(w[1..], rest);
    }
  }

  /** Every line laid out from well-formed pieces is split back into exactly those pieces. */
  lemma {:induction false} PiecesOfRender(gaps: seq<nat>, ps: seq<string>, tail: nat, n: nat)
    requires Layout(gaps, ps, tail, n)
    ensures Pieces(Render(gaps, ps, tail), n) == ps
    decreases n
  {
    if ps == [] {
      SkipBlanksOf(tail, "");
      assert Blanks(tail) + "" == Blanks(tail);
    } else {
      var more := Render(gaps[1..], ps[1..], tail);
      assert Blanks(gaps[0]) + ps[0] + more == Blanks(gaps[0]) + (ps[0] + more);
      SkipBlanksOf(gaps[0], ps[0] + more);
      if n == 0 {
        assert more == "";
        assert ps[0] + more == ps[0];
      } else {
        assert more == "" || more[0] == ' ';
        WordLengthOf(ps[0], more);
        assert (ps[0] + more)[..|ps[0]|] == ps[0];
        assert (ps[0] + more)[|ps[0]|..] == more;
        PiecesOfRender(gaps[1..], ps[1..], tail, n - 1);
      }
    }
  }

  lemma {:induction false} SkipBlanksSplits(s: string)
    ensures s == Blanks(|s| - |SkipBlanks(s)|) + SkipBlanks(s)
  {
    if s != "" && s[0] == ' ' {
      SkipBlanksSplits(s[1..]);
      assert s == [' '] + s[1..];
      var k := |s[1..]| - |SkipBlanks(s)|;
      assert Blanks(k + 1) == [' '] + Blanks(k);
    }
  }

  lemma LayoutCons(g: nat, w: string, gaps: seq<nat>, ps: seq<string>, tail: nat, n: nat)
    requires n > 0 && Layout(gaps, ps, tail, n - 1)
    requires w != "" && ' ' !in w
    requires gaps != [] ==> gaps[0] > 0
    ensures Layout([g] + gaps, [w] + ps, tail, n)
    ensures Render([g] + gaps, [w] + ps, tail) == Blanks(g) + (w + Render(gaps, ps, tail))
  {
    assert Blanks(g) + w + Render(gaps, ps, tail) == Blanks(g) + (w + Render(gaps, ps, tail));
    assert ([g] + gaps)[1..] == gaps && ([w] + ps)[1..] == ps;
    assert w[0] in w;
  }

  lemma RenderOfRemainder(g: nat, t: string)
    ensures Render([g], [t], 0) == Blanks(g) + t
  {
    assert [g][1..] == [] && [t][1..] == [];
    assert Blanks(g) + t + "" == Blanks(g) + t;
  }

  lemma FirstWord(s: string, n: nat) returns (w: string, rest: string)
    requires SkipBlanks(s) != ""
    ensures s == Blanks(|s| - |SkipBlanks(s)|) + (w + rest)
    ensures w != "" && ' ' !in w && (rest == "" || rest[0] == ' ') && |rest| < |s|
    ensures n > 0 ==> Pieces(s, n) == [w] + Pieces(rest, n - 1)
  {
    var t := SkipBlanks(s);
    SkipBlanksSplits(s);
    w, rest := t[..WordLength(t)], t[WordLength(t)..];
    assert t == w + rest;
  }

  /** Every line at all is laid out from its own pieces. */
  lemma {:induction false} RenderOfPieces(s: string, n: nat) returns (gaps: seq<nat>, tail: nat)
    ensures Layout(gaps, Pieces(s, n), tail, n)
    ensures s == Render(gaps, Pieces(s, n), tail)
    ensures s != "" && s[0] == ' ' && gaps != [] ==> gaps[0] > 0
    decreases n
  {
    var t := SkipBlanks(s);
    SkipBlanksSplits(s);
    var k := |s| - |t|;
    if t == "" {
      gaps, tail := [], k;
      assert Blanks(k) + "" == Blanks(k);
    } else if n == 0 {
      gaps, tail := [k], 0;
      RenderOfRemainder(k, t);
    } else {
      var w, rest := FirstWord(s, n);
      gaps, tail := RenderOfPieces(rest, n - 1);
      LayoutCons(k, w, gaps, Pieces(rest, n - 1), tail, n);
      gaps := [k] + gaps;
    }
  }

  /** The split of a line is the one and only list of pieces the line can be laid out from. */
  lemma PiecesAreTheOnlyLayout(s: string, ps: seq<string>, n: nat)
    ensures Pieces(s, n) == ps
       <==> exists gaps, tail :: Layout(gaps, ps, tail, n) && s == Render(gaps, ps, tail)
  {
    if Pieces(s, n) == ps {
      var gaps, tail := RenderOfPieces(s, n);
      assert Layout(gaps, ps, tail, n) && s == Render(gaps, ps, tail);
    }
    if exists gaps, tail :: Layout(gaps, ps, tail, n) && s == Render(gaps, ps, tail) {
      var gaps, tail :| Layout(gaps, ps, tail, n) && s == Render(gaps, ps, tail);
      PiecesOfRender(gaps, ps, tail, n);
    }
  }

  // ---------------------------------------------------------------- how many pieces there are

  lemma {:induction false} StartsOfPrefix(s: string, t: string, end: nat)
    requires end <= |s|
    ensures Starts(s + t, end) == Starts(s, end)
  {
    if end > 0 { StartsOfPrefix(s, t, end - 1); }
  }

  /** Words of a concatenation, when the seam does not run through a word. */
  lemma {:induction false} StartsOfConcat(s: string, t: string, end: nat)
    requires end <= |t|
    requires s == "" || t == "" || s[|s| - 1] == ' ' || t[0] == ' '
    ensures Starts(s + t, |s| + end) == Starts(s, |s|) + Starts(t, end)
  {
    if end == 0 {
      StartsOfPrefix(s, t, |s|);
    } else {
      StartsOfConcat(s, t, end - 1);
      assert (s + t)[|s| + end - 1] == t[end - 1];
      assert StartsAt(s + t, |s| + end - 1) <==> StartsAt(t, end - 1);
    }
  }

  lemma {:induction false} StartsOfBlanks(n: nat, end: nat)
    requires end <= n
    ensures Starts(Blanks(n), end) == 0
  {
    if end > 0 { StartsOfBlanks(n, end - 1); }
  }

  lemma {:induction false} StartsOfWord(w: string, end: nat)
    requires ' ' !in w && 0 < end <= |w|
    ensures Starts(w, end) == 1
  {
    assert w[end - 1] in w;
    if end > 1 {
      assert w[end - 2] in w;
      StartsOfWord(w, end - 1);
    } else {
      assert StartsAt(w, 0) && Starts(w, 0) == 0;
    }
  }

  /** One word more than the rest has. */
  lemma StartsOfFirstWord(g: nat, w: string, rest: string)
    requires w != "" && ' ' !in w && (rest == "" || rest[0] == ' ')
    ensures WordStarts(Blanks(g) + (w + rest)) == 1 + WordStarts(rest)
  {
    StartsOfBlanks(g, g);
    StartsOfWord(w, |w|);
    StartsOfConcat(w, rest, |rest|);
    StartsOfConcat(Blanks(g), w + rest, |w + rest|);
  }

  lemma StartsOfNoWord(s: string)
    requires SkipBlanks(s) == ""
    ensures WordStarts(s) == 0
  {
    SkipBlanksSplits(s);
    assert Blanks(|s|) + "" == Blanks(|s|);
    StartsOfBlanks(|s|, |s|);
  }

  /** The number of pieces is the number of words, capped at n + 1. */
  lemma {:induction false} PieceCount(s: string, n: nat)
    ensures |Pieces(s, n)| == if WordStarts(s) <= n then WordStarts(s) else n + 1
    decreases n
  {
    if SkipBlanks(s) == "" {
      StartsOfNoWord(s);
    } else {
      var w, rest := FirstWord(s, n);
      StartsOfFirstWord(|s| - |SkipBlanks(s)|, w, rest);
      if n > 0 { PieceCount(rest, n - 1); }
    }
  }

  /** At most nine pieces; exactly nine when the line has nine words or more;
      the first eight are words. */
  lemma NinePieces(s: string)
    ensures |Pieces(s, 8)| <= 9
    ensures |Pieces(s, 8)| == 9 <==> WordStarts(s) >= 9
    ensures WellFormed(Pieces(s, 8), 8)
  {
    PieceCount(s, 8);
    var gaps, tail := RenderOfPieces(s, 8);
  }

  // ---------------------------------------------------------------- normal form

  /** The pieces joined by single blanks. */
  function Join(ps: seq<string>): string
  {
    if ps == [] then "" else if |ps| == 1 then ps[0] else ps[0] + " " + Join(ps[1..])
  }

  lemma {:induction false} JoinIsRender(ps: seq<string>, g: nat)
    ensures (if ps == [] then "" else Blanks(g) + Join(ps))
         == Render(seq(|ps|, i => if i == 0 then g else 1), ps, 0)
  {
    if ps != [] {
      var gaps: seq<nat> := seq(|ps|, i => if i == 0 then g else 1);
      JoinIsRender(ps[1..], 1);
      assert gaps[1..] == seq(|ps[1..]|, i => if i == 0 then 1 else 1);
      assert seq(|ps[1..]|, i => if i == 0 then 1 else 1) == seq(|ps[1..]|, i => if i == 0 then 1 else 1 as nat);
      if |ps| == 1 {
        assert Render(gaps, ps, 0) == Blanks(g) + ps[0] + "";
      } else {
        assert Blanks(1) == " ";
        assert Blanks(g) + (ps[0] + " " + Join(ps[1..])) == Blanks(g) + ps[0] + (" " + Join(ps[1..]));
      }
    }
  }

  /** Squeezing the gaps of any line does not change what the line is split into. */
  lemma RejoinIsStable(s: string)
    ensures Pieces(Join(Pieces(s, 8)), 8) == Pieces(s, 8)
  {
    var ps := Pieces(s, 8);
    NinePieces(s);
    JoinIsRender(ps, 0);
    assert ps != [] ==> Blanks(0) + Join(ps) == Join(ps);
    var gaps: seq<nat> := seq(|ps|, i => if i == 0 then 0 else 1);
    PiecesOfRender(gaps, ps, 0, 8);
  }
}
