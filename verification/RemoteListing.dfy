/** From the lines of `ls -lF` to file records: add_file_remote and the loop of
    output_from_remote_command, and when the records are faithful to the directory. */
module RemoteListing {
  import opened Text
  import opened LineScanner

  datatype FileType = FileTypeSimple | FileTypeDirectory | FileTypeUnknown

  datatype OneFile = OneFile(fileName: string, filePath: string, fileSize: nat, fileType: FileType)

  // ---------------------------------------------------------------- what the code makes of a line

  /** quint64 of an int. */
  function ToUnsigned64(n: int): nat
    requires -MAX_INT - 1 <= n <= MAX_INT
  {
    if n < 0 then n + 0x1_0000_0000_0000_0000 else n
  }

  function DropStar(s: string): string
  {
    if s != "" && s[|s| - 1] == '*' then s[..|s| - 1] else s
  }

  /** The record of a file shown under `shown`, with `sizeText` in the size column. */
  function FileOf(dir: string, shown: string, sizeText: string): OneFile
  {
    var name := DropStar(shown);
    OneFile(name, dir + name, ToUnsigned64(ToInt(sizeText)),
            if name != "" && name[|name| - 1] == '/' then FileTypeDirectory else FileTypeSimple)
  }

  /** The records one line adds: none for a symbolic link or a line of fewer than nine words. */
  function FilesOfLine(dir: string, line: string): (fs: seq<OneFile>)
    ensures |fs| <= 1
  {
    var ps := Pieces(line, 8);
    if (line != "" && line[0] == 'l') || |ps| < 9 then [] else [FileOf(dir, ps[8], ps[4])]
  }

  function FilesOfLines(dir: string, lines: seq<string>): seq<OneFile>
  {
    if lines == [] then [] else FilesOfLine(dir, lines[0]) + FilesOfLines(dir, lines[1..])
  }

  /** A line makes a record if and only if it has nine words or more and does not begin with 'l'. */
  lemma RecordIffNineWords(dir: string, line: string)
    ensures FilesOfLine(dir, line) != [] <==> WordStarts(line) >= 9 && line[0] != 'l'
  {
    NinePieces(line);
  }

  lemma NextLine(dir: string, lines: seq<string>, i: nat, before: seq<OneFile>)
    requires i < |lines|
    ensures before + FilesOfLines(dir, lines[i..])
         == (before + FilesOfLine(dir, lines[i])) + FilesOfLines(dir, lines[i + 1..])
    ensures lines[i] != "" && lines[i][0] == 'l' ==> FilesOfLine(dir, lines[i]) == []
  {
    assert lines[i..][1..] == lines[i + 1..];
  }

  // ---------------------------------------------------------------- what a directory is

  datatype Kind = Regular | Executable | Directory | Fifo | Socket | Device | Symlink

  /** A directory entry together with how `ls -l` happens to lay it out: `fields` are the
      words before the name and `gaps` the blanks before them. */
  datatype Entry = Entry(kind: Kind, name: string, size: nat, target: string,
                         fields: seq<string>, gaps: seq<nat>)

  datatype Item = Total(blocks: nat) | File(entry: Entry)

  function TypeLetters(kind: Kind): string
  {
    match kind
    case Regular => "-"
    case Executable => "-"
    case Directory => "d"
    case Fifo => "p"
    case Socket => "s"
    case Device => "bc"
    case Symlink => "l"
  }

  /** What option -F appends (POSIX IEEE Std 1003.1, utility ls; '=' is the GNU mark of a socket). */
  function Marker(kind: Kind): string
  {
    match kind
    case Executable => "*"
    case Directory => "/"
    case Fifo => "|"
    case Socket => "="
    case _ => ""
  }

  ghost predicate AllWords(ws: seq<string>)
  {
    forall i :: 0 <= i < |ws| ==> ws[i] != "" && ' ' !in ws[i]
  }

  /** A file name is not empty and has no '/'. A device has its two numbers for a size. */
  ghost predicate ValidEntry(e: Entry)
  {
    && e.name != "" && '/' !in e.name
    && |e.fields| == |e.gaps| == (if e.kind == Device then 9 else 8)
    && AllWords(e.fields)
    && e.fields[0][0] in TypeLetters(e.kind)
    && (e.kind != Device ==> e.fields[4] == Decimal(e.size))
    && e.gaps[0] == 0
    && (forall i :: 0 < i < |e.gaps| ==> e.gaps[i] > 0)
  }

  function Shown(e: Entry): string
  {
    if e.kind == Symlink then e.name + " -> " + e.target else e.name + Marker(e.kind)
  }

  /** The words, one blank, and the name. */
  function EntryLine(e: Entry): string
    requires ValidEntry(e)
  {
    Render(e.gaps, e.fields, 1) + Shown(e)
  }

  function Line(i: Item): string
    requires ValidItem(i)
  {
    match i
    case Total(n) => "total " + Decimal(n)
    case File(e) => EntryLine(e)
  }

  ghost predicate ValidItem(i: Item) { i.File? ==> ValidEntry(i.entry) }

  function Lines(items: seq<Item>): seq<string>
    requires forall i :: i in items ==> ValidItem(i)
  {
    if items == [] then []
    else
      assert ValidItem(items[0]);
      [Line(items[0])] + Lines(items[1..])
  }

  /** The record that describes an entry of directory `dir`: the '/' of a directory is kept. */
  function TrueFile(dir: string, e: Entry): OneFile
  {
    var name := if e.kind == Directory then e.name + "/" else e.name;
    OneFile(name, dir + name, e.size, if e.kind == Directory then FileTypeDirectory else FileTypeSimple)
  }

  /** Symbolic links are not shown. */
  function TrueFilesOfItem(dir: string, i: Item): (fs: seq<OneFile>)
    ensures |fs| <= 1
  {
    if i.File? && i.entry.kind != Symlink then [TrueFile(dir, i.entry)] else []
  }

  function TrueFiles(dir: string, items: seq<Item>): seq<OneFile>
  {
    if items == [] then [] else TrueFilesOfItem(dir, items[0]) + TrueFiles(dir, items[1..])
  }

  /** The entries whose line can be read back. */
  predicate Readable(e: Entry)
    requires e.name != ""
  {
    && e.kind in {Regular, Executable, Directory}
    && e.name[0] != ' '
    && !(e.kind == Regular && e.name[|e.name| - 1] == '*')
    && e.size <= MAX_INT
  }

  ghost predicate ReadableItem(i: Item)
    requires ValidItem(i)
  {
    i.File? && i.entry.kind != Symlink ==> Readable(i.entry)
  }

  // ---------------------------------------------------------------- the pieces of a line

  lemma {:induction false} RenderSplits(gaps: seq<nat>, ps: seq<string>, tail: nat, s: string)
    requires |gaps| == |ps|
    ensures Render(gaps, ps, tail) + s == Render(gaps, ps, 0) + Blanks(tail) + s
    ensures Render(gaps, ps, 0) + Blanks(tail) + s == Render(gaps, ps, 0) + (Blanks(tail) + s)
  {
    if ps != [] {
      RenderSplits(gaps[1..], ps[1..], tail, s);
      var more, more0 := Render(gaps[1..], ps[1..], tail), Render(gaps[1..], ps[1..], 0);
      RenderSplits(gaps[1..], ps[1..], tail, "");
      assert more == more + "" && more0 + Blanks(tail) + "" == more0 + Blanks(tail);
      assert Blanks(gaps[0]) + ps[0] + (more0 + Blanks(tail)) == Blanks(gaps[0]) + ps[0] + more0 + Blanks(tail);
    }
  }

  lemma FirstPiece(g: nat, w: string, more: string, n: nat)
    requires w != "" && ' ' !in w && n > 0
    requires more == "" || more[0] == ' '
    ensures Pieces(Blanks(g) + (w + more), n) == [w] + Pieces(more, n - 1)
  {
    assert w[0] in w;
    SkipBlanksOf(g, w + more);
    WordLengthOf(w, more);
    assert (w + more)[..|w|] == w && (w + more)[|w|..] == more;
  }

  /** Laid-out words followed by any text: the words are taken, then the text is split. */
  lemma {:induction false} PiecesAfterWords(gaps: seq<nat>, words: seq<string>, s: string, n: nat)
    requires |gaps| == |words| <= n
    requires AllWords(words)
    requires forall i :: 0 < i < |gaps| ==> gaps[i] > 0
    ensures Pieces(Render(gaps, words, 1) + s, n)
         == words + Pieces(Blanks(1) + s, n - |words|)
    decreases n
  {
    if words != [] {
      var w := words[0];
      assert w[0] in w;
      var more := Render(gaps[1..], words[1..], 1) + s;
      assert more[0] == ' ';
      assert Render(gaps, words, 1) + s == Blanks(gaps[0]) + (w + more);
      FirstPiece(gaps[0], w, more, n);
      PiecesAfterWords(gaps[1..], words[1..], s, n - 1);
      assert words == [w] + words[1..];
    }
  }

  lemma FirstOfLine(e: Entry)
    requires ValidEntry(e)
    ensures EntryLine(e) != "" && EntryLine(e)[0] == e.fields[0][0]
  {
    assert Render(e.gaps, e.fields, 1)[..|e.fields[0]|] == e.fields[0];
  }

  /** Eight words before the name: the name without its leading blanks, if any is left. */
  lemma FilesOfEntryLine(dir: string, e: Entry)
    requires ValidEntry(e) && e.kind != Device && e.kind != Symlink
    ensures FilesOfLine(dir, EntryLine(e))
         == if SkipBlanks(Shown(e)) == "" then [] else [FileOf(dir, SkipBlanks(Shown(e)), Decimal(e.size))]
  {
    FirstOfLine(e);
    PiecesAfterWords(e.gaps, e.fields, Shown(e), 8);
    assert SkipBlanks(Blanks(1) + Shown(e)) == SkipBlanks(Shown(e)) by {
      assert (Blanks(1) + Shown(e))[1..] == Shown(e);
    }
    assert Pieces(EntryLine(e), 8)[4] == e.fields[4];
  }

  /** Nine words before the name: the ninth is taken for the beginning of the name. */
  lemma FilesOfDeviceLine(dir: string, e: Entry)
    requires ValidEntry(e) && e.kind == Device
    ensures |FilesOfLine(dir, EntryLine(e))| == 1
    ensures FilesOfLine(dir, EntryLine(e))[0].fileName == DropStar(e.fields[8] + " " + e.name)
  {
    FirstOfLine(e);
    var gaps, words := e.gaps, e.fields;
    assert words[8][0] in words[8];
    var text := words[8] + Blanks(1) + Shown(e);
    RenderSplits(gaps[8..], words[8..], 1, Shown(e));
    SplitRender(gaps, words, 8, Shown(e));
    PiecesAfterWords(gaps[..8], words[..8], Blanks(gaps[8] - 1) + text, 8);
    assert Blanks(1) + (Blanks(gaps[8] - 1) + text) == Blanks(gaps[8]) + text;
    SkipBlanksOf(gaps[8], text);
    assert Pieces(EntryLine(e), 8)[8] == text;
    assert Blanks(1) == " " && Shown(e) == e.name;
  }

  /** A line of laid-out words, cut before word k. */
  lemma {:induction false} SplitRender(gaps: seq<nat>, words: seq<string>, k: nat, s: string)
    requires k < |gaps| == |words|
    requires gaps[k] > 0
    ensures Render(gaps, words, 1) + s
         == Render(gaps[..k], words[..k], 1) + (Blanks(gaps[k] - 1) + (words[k] + Render(gaps[k + 1..], words[k + 1..], 1) + s))
  {
    if k == 0 {
      assert gaps[..0] == [] && words[..0] == [];
      assert Render(gaps[..0], words[..0], 1) == Blanks(1);
      assert Blanks(gaps[0]) == Blanks(1) + Blanks(gaps[0] - 1);
    } else {
      SplitRender(gaps[1..], words[1..], k - 1, s);
      assert gaps[..k][1..] == gaps[1..][..k - 1] && words[..k][1..] == words[1..][..k - 1];
      assert gaps[1..][k..] == gaps[k + 1..] && words[1..][k..] == words[k + 1..];
      var more := Render(gaps[1..], words[1..], 1);
      assert Blanks(gaps[0]) + words[0] + more + s == Blanks(gaps[0]) + words[0] + (more + s);
    }
  }

  /** A "total" line has too few words to become a record. */
  lemma FilesOfTotalLine(dir: string, n: nat)
    ensures FilesOfLine(dir, Line(Total(n))) == []
  {
    var d := Decimal(n);
    assert d[0] in d && ' ' !in d;
    PiecesOfRender([0, 1], ["total", d], 0, 8);
    calc {
      Render([0, 1], ["total", d], 0);
      Blanks(0) + "total" + Render([1], [d], 0);
      { assert Render([], [], 0) == ""; assert Render([1], [d], 0) == Blanks(1) + d + "" == " " + d; }
      "" + "total" + (" " + d);
      "total " + d;
    }
  }

  // ---------------------------------------------------------------- when the record is right

  /** A leading blank is lost, so the name cannot come out right. */
  lemma LeadingBlankIsLost(dir: string, e: Entry)
    requires ValidEntry(e) && e.kind != Symlink && e.kind != Device && e.name[0] == ' '
    ensures FilesOfLine(dir, EntryLine(e)) != [TrueFile(dir, e)]
  {
    FilesOfEntryLine(dir, e);
    var name := DropStar(SkipBlanks(Shown(e)));
    assert name == "" || name[0] != ' ';
    assert TrueFile(dir, e).fileName[0] == ' ';
  }

  lemma PlainNameRoundTrip(dir: string, e: Entry)
    requires ValidEntry(e) && e.kind != Symlink && e.kind != Device && e.name[0] != ' '
    ensures FilesOfLine(dir, EntryLine(e)) == [TrueFile(dir, e)] <==> Readable(e)
  {
    var shown := Shown(e);
    FilesOfEntryLine(dir, e);
    ToIntOfDecimal(e.size);
    var file := FileOf(dir, shown, Decimal(e.size));
    assert FilesOfLine(dir, EntryLine(e)) == [file];
    assert e.name[|e.name| - 1] in e.name;
    if e.kind == Executable {
      assert shown[..|shown| - 1] == e.name;
    }
    assert file.fileSize == e.size <==> e.size <= MAX_INT;
    assert file.fileName == TrueFile(dir, e).fileName
      <==> e.kind in {Regular, Executable, Directory} && !(e.kind == Regular && e.name[|e.name| - 1] == '*') by {
      assert |file.fileName| == |shown| || |file.fileName| == |shown| - 1;
    }
  }

  /** The record of one entry is right exactly when the entry is readable. */
  lemma EntryRoundTrip(dir: string, e: Entry)
    requires ValidEntry(e) && e.kind != Symlink
    ensures FilesOfLine(dir, EntryLine(e)) == [TrueFile(dir, e)] <==> Readable(e)
  {
    if e.kind == Device {
      FilesOfDeviceLine(dir, e);
    } else if e.name[0] == ' ' {
      LeadingBlankIsLost(dir, e);
    } else {
      PlainNameRoundTrip(dir, e);
    }
  }

  lemma {:induction false} AtMostOnePerItem(dir: string, items: seq<Item>)
    requires forall i :: i in items ==> ValidItem(i)
    ensures |FilesOfLines(dir, Lines(items))| <= |TrueFiles(dir, items)|
  {
    if items != [] {
      ItemContribution(dir, items[0]);
      AtMostOnePerItem(dir, items[1..]);
    }
  }

  lemma ItemContribution(dir: string, i: Item)
    requires ValidItem(i)
    ensures |FilesOfLine(dir, Line(i))| <= |TrueFilesOfItem(dir, i)|
    ensures FilesOfLine(dir, Line(i)) == TrueFilesOfItem(dir, i) <==> ReadableItem(i)
  {
    match i
    case Total(n) => FilesOfTotalLine(dir, n);
    case File(e) =>
      if e.kind == Symlink { FirstOfLine(e); } else { EntryRoundTrip(dir, e); }
  }

  lemma TypeOfShown(dir: string, name: string, marker: string, sizeText: string)
    requires '/' !in name && |marker| <= 1 && name + marker != ""
    ensures FileOf(dir, name + marker, sizeText).fileType == FileTypeDirectory <==> marker == "/"
    ensures marker == "/" ==> FileOf(dir, name + marker, sizeText).fileName == name + marker
  {
    if marker != "/" {
      assert '/' !in marker;
      LastAfterDropStar("", name + marker);
      assert "" + (name + marker) == name + marker;
    }
  }

  /** Only a directory makes a record of directory type, and its name is the entry's name
      without leading blanks, with a '/' behind it. */
  lemma DirectoryRecords(dir: string, e: Entry, f: OneFile)
    requires ValidEntry(e) && f in FilesOfLine(dir, EntryLine(e))
    ensures f.filePath == dir + f.fileName
    ensures f.fileType == FileTypeDirectory <==> e.kind == Directory
    ensures e.kind == Directory ==> f.fileName == SkipBlanks(e.name) + "/"
  {
    if e.kind == Symlink {
      FirstOfLine(e);
    } else if e.kind == Device {
      FilesOfDeviceLine(dir, e);
      LastAfterDropStar(e.fields[8] + " ", e.name);
    } else {
      FilesOfEntryLine(dir, e);
      var shown := SkipBlanks(e.name) + Marker(e.kind);
      SkipBlanksOfAppend(e.name, Marker(e.kind));
      assert f == FileOf(dir, shown, Decimal(e.size));
      TypeOfShown(dir, SkipBlanks(e.name), Marker(e.kind), Decimal(e.size));
    }
  }

  lemma {:induction false} SkipBlanksOfAppend(s: string, m: string)
    requires m == "" || m[0] != ' '
    ensures SkipBlanks(s + m) == SkipBlanks(s) + m
    ensures forall c :: c in SkipBlanks(s) ==> c in s
  {
    if s == "" {
      assert s + m == m;
    } else if s[0] == ' ' {
      assert (s + m)[1..] == s[1..] + m;
      SkipBlanksOfAppend(s[1..], m);
    }
  }

  lemma LastAfterDropStar(s: string, t: string)
    requires '/' !in t && t != "" && (s == "" || s[|s| - 1] != '/')
    ensures var r := DropStar(s + t); r == "" || r[|r| - 1] != '/'
  {
    var r := DropStar(s + t);
    if r != "" {
      assert r[|r| - 1] == if |r| > |s| then t[|r| - 1 - |s|] else s[|s| - 1];
      assert |r| > |s| ==> t[|r| - 1 - |s|] in t;
    }
  }

  /** Main result. The records of a whole listing, read line by line, are exactly the entries
      of the directory in their order, without the symbolic links, if and only if every
      entry shown is readable. */
  lemma {:induction false} ListingRoundTrip(dir: string, items: seq<Item>)
    requires forall i :: i in items ==> ValidItem(i)
    ensures FilesOfLines(dir, Lines(items)) == TrueFiles(dir, items)
       <==> forall i :: i in items ==> ReadableItem(i)
  {
    if items != [] {
      var first, rest := items[0], items[1..];
      ItemContribution(dir, first);
      AtMostOnePerItem(dir, rest);
      ListingRoundTrip(dir, rest);
      var got, more := FilesOfLine(dir, Line(first)), FilesOfLines(dir, Lines(rest));
      var want, wanted := TrueFilesOfItem(dir, first), TrueFiles(dir, rest);
      assert FilesOfLines(dir, Lines(items)) == got + more;
      if got + more == want + wanted {
        assert (got + more)[..|got|] == got && (got + more)[|got|..] == more;
        assert (want + wanted)[..|want|] == want && (want + wanted)[|want|..] == wanted;
      }
      assert items == [first] + rest;
    }
  }

  /** What the unreadable families become, on the plain file " a", the plain file "a*",
      the pipe "a" and any file of 2 GiB or more. */
  lemma UnreadableEntries(e: Entry)
    requires ValidEntry(e)
    requires (e.kind == Fifo && e.name == "a") || (e.kind == Regular && e.name in {" a", "a*"})
    ensures |FilesOfLine("/", EntryLine(e))| == 1
    ensures FilesOfLine("/", EntryLine(e))[0].fileName == if e.kind == Fifo then "a|" else "a"
    ensures FilesOfLine("/", EntryLine(e))[0].fileSize == if e.size > MAX_INT then 0 else e.size
  {
    FilesOfEntryLine("/", e);
    ToIntOfDecimal(e.size);
    assert Shown(e) == if e.kind == Fifo then "a|" else e.name;
    assert " a"[1..] == "a" && SkipBlanks("a") == "a";
    assert SkipBlanks(" a") == SkipBlanks("a");
    assert "a*"[..1] == "a";
  }
}
