/** Positional edits of a file: applied from its end, they are what making all of them at once gives. */
module Edits {

  /** FileAlteration; lines and columns count from 1, and the end column is the first one after the edit. */
  datatype Alteration = Alteration(line: nat, startCol: nat, endLine: nat, endCol: nat, text: string) {
    predicate OneLine() { line == endLine }

    function Key(): nat { line * 100000 + startCol }
  }

  /** string.split("\n") */
  function Split(s: string): (lines: seq<string>)
    ensures lines != []
  {
    if s == "" then [""]
    else
      var rest := Split(s[1..]);
      if s[0] == '\n' then [""] + rest else [[s[0]] + rest[0]] + rest[1..]
  }

  /** The text that is written for lines: each is followed by a newline. */
  function Written(lines: seq<string>): string {
    if lines == [] then "" else lines[0] + "\n" + Written(lines[1..])
  }

  lemma {:induction false} WrittenBoth(a: seq<string>, b: seq<string>)
    ensures Written(a + b) == Written(a) + Written(b)
  {
    if a == [] {
      assert a + b == b;
    } else {
      assert (a + b)[1..] == a[1..] + b;
      WrittenBoth(a[1..], b);
      Associative(a[0] + "\n", Written(a[1..]), Written(b));
    }
  }

  lemma Associative(a: string, b: string, c: string)
    ensures a + (b + c) == a + b + c
  {
  }

  /** The lines of a text have no newline in them, and written they are the text and a newline. */
  lemma {:induction false} SplitIs(s: string)
    ensures forall l :: l in Split(s) ==> '\n' !in l
    ensures Written(Split(s)) == s + "\n"
  {
    if s == "" {
      assert Written([""]) == "" + "\n" + Written([]);
    } else {
      var rest := Split(s[1..]);
      SplitIs(s[1..]);
      assert s == [s[0]] + s[1..];
      if s[0] == '\n' {
        assert ([""] + rest)[1..] == rest;
      } else {
        SplitMore(s[0], rest);
        Associative([s[0]], s[1..], "\n");
      }
    }
  }

  lemma SplitMore(c: char, rest: seq<string>)
    requires rest != []
    ensures Written([[c] + rest[0]] + rest[1..]) == [c] + Written(rest)
  {
    var lines := [[c] + rest[0]] + rest[1..];
    assert lines[1..] == rest[1..];
    Associative([c], rest[0], "\n");
    Associative([c], rest[0] + "\n", Written(rest[1..]));
  }

  /** The edit is within the lines. */
  predicate Fits(a: Alteration, lines: seq<string>) {
    && 1 <= a.line <= a.endLine <= |lines|
    && (a.OneLine() ==> 1 <= a.startCol <= a.endCol <= |lines[a.line - 1]| + 1)
  }

  predicate InFile(a: Alteration, lines: seq<string>) {
    Fits(a, lines) && a.startCol < 100000
  }

  /** apply: within a line it replaces columns, otherwise whole lines. */
  function Apply(a: Alteration, lines: seq<string>): seq<string>
    requires Fits(a, lines)
  {
    if a.OneLine() then
      var l := lines[a.line - 1];
      lines[a.line - 1 := l[..a.startCol - 1] + a.text + l[a.endCol - 1..]]
    else lines[..a.line - 1] + Split(a.text) + lines[a.endLine..]
  }

  /** What stands in place of the lines that an edit is in. */
  function ReplacedText(a: Alteration, lines: seq<string>): string
    requires Fits(a, lines)
  {
    if a.OneLine() then lines[a.line - 1][..a.startCol - 1] + a.text + lines[a.line - 1][a.endCol - 1..] else a.text
  }

  /** The text after an edit: the lines before, what replaces those it is in, and the lines after. */
  lemma ApplyWritten(a: Alteration, lines: seq<string>)
    requires Fits(a, lines)
    ensures Written(Apply(a, lines)) ==
      Written(lines[..a.line - 1]) + ReplacedText(a, lines) + "\n" + Written(lines[a.endLine..])
  {
    var before, after := lines[..a.line - 1], lines[a.endLine..];
    if a.OneLine() {
      var line := ReplacedText(a, lines);
      assert Apply(a, lines) == before + ([line] + after);
      WrittenBoth(before, [line] + after);
      WrittenFirst(line, after);
      Associative(Written(before), line + "\n", Written(after));
    } else {
      WrittenBoth(before + Split(a.text), after);
      WrittenBoth(before, Split(a.text));
      SplitIs(a.text);
    }
    Associative(Written(before), ReplacedText(a, lines), "\n");
  }

  /** a comes before b, and they do not touch. */
  predicate Precedes(a: Alteration, b: Alteration) {
    if a.OneLine() && b.OneLine() && a.line == b.line then a.endCol <= b.startCol && a.startCol < b.startCol
    else a.endLine < b.line
  }

  predicate Apart(a: Alteration, b: Alteration) {
    Precedes(a, b) || Precedes(b, a)
  }

  /** Edits of one file that do not touch each other. */
  predicate Compatible(es: seq<Alteration>, lines: seq<string>) {
    && (forall a :: a in es ==> InFile(a, lines))
    && (forall i, j :: 0 <= i < j < |es| ==> Apart(es[i], es[j]))
  }

  // The reference: all edits at once, position by position.

  /** The edit within line l that begins at position p, both counted from 0. */
  function At(es: seq<Alteration>, l: nat, p: nat): seq<Alteration> {
    if es == [] then []
    else if es[0].OneLine() && es[0].line == l + 1 && es[0].startCol == p + 1 then [es[0]]
    else At(es[1..], l, p)
  }

  /** The edit of whole lines that begins at line l. */
  function LinesAt(es: seq<Alteration>, l: nat): seq<Alteration> {
    if es == [] then []
    else if !es[0].OneLine() && es[0].line == l + 1 then [es[0]]
    else LinesAt(es[1..], l)
  }

  /** The character at position p of line l is replaced. */
  predicate Replaced(es: seq<Alteration>, l: nat, p: nat) {
    exists i :: 0 <= i < |es| && es[i].OneLine() && es[i].line == l + 1 && es[i].startCol <= p + 1 < es[i].endCol
  }

  /** A line as a list of pieces: new texts and single characters. */
  datatype Pieces = End | Piece(text: string, rest: Pieces)

  function Text(pieces: Pieces): string {
    match pieces
    case End => ""
    case Piece(text, rest) => text + Text(rest)
  }

  function WithInserted(es: seq<Alteration>, l: nat, p: nat, rest: Pieces): Pieces {
    if At(es, l, p) == [] then rest else Piece(At(es, l, p)[0].text, rest)
  }

  function WithKept(line: string, es: seq<Alteration>, l: nat, p: nat, rest: Pieces): Pieces {
    if p < |line| && !Replaced(es, l, p) then Piece([line[p]], rest) else rest
  }

  /** Line l from position p on, with every new text where its edit begins and without the replaced characters. */
  function NewLine(line: string, es: seq<Alteration>, l: nat, p: nat): Pieces
    decreases |line| + 1 - p
  {
    if p > |line| then End else WithInserted(es, l, p, WithKept(line, es, l, p, NewLine(line, es, l, p + 1)))
  }

  /** The file from line l on, with all edits made at once. */
  function NewLines(lines: seq<string>, es: seq<Alteration>, l: nat): seq<string>
    decreases |lines| - l
  {
    if l >= |lines| then []
    else
      var whole := LinesAt(es, l);
      if whole != [] && l < whole[0].endLine then Split(whole[0].text) + NewLines(lines, es, whole[0].endLine)
      else [Text(NewLine(lines[l], es, l, 0))] + NewLines(lines, es, l + 1)
  }

  /** The text of the file from line l on, with all edits made at once; a text of several lines goes in as it is. */
  function NewText(lines: seq<string>, es: seq<Alteration>, l: nat): string
    decreases |lines| - l
  {
    if l >= |lines| then ""
    else
      var whole := LinesAt(es, l);
      if whole != [] && l < whole[0].endLine then whole[0].text + "\n" + NewText(lines, es, whole[0].endLine)
      else Text(NewLine(lines[l], es, l, 0)) + "\n" + NewText(lines, es, l + 1)
  }

  lemma {:induction false} NewLinesWritten(lines: seq<string>, es: seq<Alteration>, l: nat)
    ensures Written(NewLines(lines, es, l)) == NewText(lines, es, l)
    decreases |lines| - l
  {
    if l < |lines| {
      var whole := LinesAt(es, l);
      if whole != [] && l < whole[0].endLine {
        NewLinesWritten(lines, es, whole[0].endLine);
        SplitIs(whole[0].text);
        WrittenBoth(Split(whole[0].text), NewLines(lines, es, whole[0].endLine));
      } else {
        NewLinesWritten(lines, es, l + 1);
        WrittenFirst(Text(NewLine(lines[l], es, l, 0)), NewLines(lines, es, l + 1));
      }
    }
  }

  lemma WrittenFirst(line: string, rest: seq<string>)
    ensures Written([line] + rest) == line + "\n" + Written(rest)
  {
    assert ([line] + rest)[1..] == rest;
  }

  lemma {:induction false} AtExactly(es: seq<Alteration>, l: nat, p: nat)
    ensures At(es, l, p) == [] <==> forall a :: a in es && a.OneLine() && a.line == l + 1 ==> a.startCol != p + 1
    ensures At(es, l, p) != [] ==>
      var a := At(es, l, p)[0]; At(es, l, p) == [a] && a in es && a.OneLine() && a.line == l + 1 && a.startCol == p + 1
  {
    if es != [] {
      AtExactly(es[1..], l, p);
      assert es == [es[0]] + es[1..];
    }
  }

  lemma {:induction false} LinesAtExactly(es: seq<Alteration>, l: nat)
    ensures LinesAt(es, l) == [] <==> forall a :: a in es && !a.OneLine() ==> a.line != l + 1
    ensures LinesAt(es, l) != [] ==>
      var a := LinesAt(es, l)[0]; LinesAt(es, l) == [a] && a in es && !a.OneLine() && a.line == l + 1
  {
    if es != [] {
      LinesAtExactly(es[1..], l);
      assert es == [es[0]] + es[1..];
    }
  }

  /** Edits elsewhere do not matter: from position p of line l on, es and es' have the same edits. */
  ghost predicate SameOnLine(es: seq<Alteration>, es': seq<Alteration>, l: nat, p: nat) {
    && (forall q: nat :: q >= p ==> At(es, l, q) == At(es', l, q))
    && (forall q: nat :: q >= p ==> Replaced(es, l, q) == Replaced(es', l, q))
  }

  lemma {:induction false} SameNewLine(line: string, es: seq<Alteration>, es': seq<Alteration>, l: nat, p: nat)
    requires SameOnLine(es, es', l, p)
    ensures NewLine(line, es, l, p) == NewLine(line, es', l, p)
    decreases |line| + 1 - p
  {
    if p <= |line| {
      SameNewLine(line, es, es', l, p + 1);
    }
  }

  /** No edit of line l begins before position q. */
  predicate NoneBefore(es: seq<Alteration>, l: nat, q: nat) {
    forall a :: a in es && a.OneLine() && a.line == l + 1 ==> a.startCol >= q + 1
  }

  lemma NothingAt(es: seq<Alteration>, l: nat, q: nat, p: nat)
    requires NoneBefore(es, l, q) && p < q
    ensures At(es, l, p) == [] && !Replaced(es, l, p)
  {
    AtExactly(es, l, p);
  }

  /** Up to position q nothing is edited. */
  lemma {:induction false} Unedited(line: string, es: seq<Alteration>, l: nat, p: nat, q: nat)
    requires p <= q <= |line| && NoneBefore(es, l, q)
    ensures Text(NewLine(line, es, l, p)) == line[p..q] + Text(NewLine(line, es, l, q))
    decreases q - p
  {
    if p < q {
      NothingAt(es, l, q, p);
      Unedited(line, es, l, p + 1, q);
    } else {
      assert line[p..q] + Text(NewLine(line, es, l, q)) == Text(NewLine(line, es, l, q));
    }
  }

  /** Nothing is edited at all. */
  lemma {:induction false} UneditedLine(line: string, es: seq<Alteration>, l: nat)
    requires forall a :: a in es && a.OneLine() ==> a.line != l + 1
    ensures Text(NewLine(line, es, l, 0)) == line
  {
    Unedited(line, es, l, 0, |line|);
    AtExactly(es, l, |line|);
    assert Text(NewLine(line, es, l, |line|)) == "";
    assert line[0..|line|] + "" == line;
  }

  ghost predicate AllReplaced(es: seq<Alteration>, l: nat, p: nat, t: nat) {
    forall q: nat :: p <= q < t ==> Replaced(es, l, q) && At(es, l, q) == []
  }

  /** Inside an edit nothing is kept. */
  lemma {:induction false} Skipped(line: string, es: seq<Alteration>, l: nat, p: nat, t: nat)
    requires p <= t <= |line| && AllReplaced(es, l, p, t)
    ensures NewLine(line, es, l, p) == NewLine(line, es, l, t)
    decreases t - p
  {
    if p < t {
      Skipped(line, es, l, p + 1, t);
    }
  }

  /** e is the first of the edits, and the only one that is not in es. */
  predicate First(e: Alteration, es: seq<Alteration>) {
    forall a :: a in es ==> Precedes(e, a)
  }

  /** Beyond e, the edits with and without it are the same. */
  lemma {:induction false} BeyondEdit(e: Alteration, es: seq<Alteration>, l: nat, p: nat)
    requires e.OneLine() && p >= e.startCol && p + 1 >= e.endCol
    ensures SameOnLine([e] + es, es, l, p)
  {
    forall q: nat | q >= p ensures At([e] + es, l, q) == At(es, l, q) && Replaced([e] + es, l, q) == Replaced(es, l, q) {
      assert ([e] + es)[1..] == es;
      ReplacedCons(e, es, l, q);
    }
  }

  lemma ReplacedCons(e: Alteration, es: seq<Alteration>, l: nat, q: nat)
    ensures Replaced([e] + es, l, q) <==>
      (e.OneLine() && e.line == l + 1 && e.startCol <= q + 1 < e.endCol) || Replaced(es, l, q)
  {
    var all := [e] + es;
    assert all[0] == e;
    if i :| 0 <= i < |es| && es[i].OneLine() && es[i].line == l + 1 && es[i].startCol <= q + 1 < es[i].endCol {
      assert all[i + 1] == es[i];
    }
    if i :| 0 <= i < |all| && all[i].OneLine() && all[i].line == l + 1 && all[i].startCol <= q + 1 < all[i].endCol {
      if i > 0 {
        assert es[i - 1] == all[i];
      }
    }
  }

  lemma {:induction false} NothingElseBegins(e: Alteration, es: seq<Alteration>, q: nat)
    requires e.OneLine() && e.line >= 1 && First(e, es) && (q + 1 < e.endCol || q + 1 <= e.startCol)
    ensures At(es, e.line - 1, q) == []
  {
    AtExactly(es, e.line - 1, q);
  }

  lemma {:induction false} BeyondOnLine(line: string, e: Alteration, es: seq<Alteration>, p: nat)
    requires e.OneLine() && e.line >= 1 && p >= e.startCol && p + 1 >= e.endCol
    ensures NewLine(line, [e] + es, e.line - 1, p) == NewLine(line, es, e.line - 1, p)
  {
    BeyondEdit(e, es, e.line - 1, p);
    SameNewLine(line, [e] + es, es, e.line - 1, p);
  }

  lemma {:induction false} ReplacedByFirst(e: Alteration, es: seq<Alteration>)
    requires e.OneLine() && e.line >= 1 && 1 <= e.startCol <= e.endCol && First(e, es)
    ensures AllReplaced([e] + es, e.line - 1, e.startCol, e.endCol - 1)
  {
    var all, l, t := [e] + es, e.line - 1, e.endCol - 1;
    assert all[1..] == es;
    forall q: nat | e.startCol <= q < t ensures Replaced(all, l, q) && At(all, l, q) == [] {
      ReplacedCons(e, es, l, q);
      NothingElseBegins(e, es, q);
    }
  }

  /** The new line where the first edit begins. */
  lemma {:induction false} AtFirstEdit(line: string, e: Alteration, es: seq<Alteration>)
    requires e.OneLine() && e.line >= 1 && 1 <= e.startCol <= e.endCol <= |line| + 1 && First(e, es)
    ensures NewLine(line, [e] + es, e.line - 1, e.startCol - 1) == Piece(e.text, NewLine(line, es, e.line - 1, e.endCol - 1))
  {
    var l, s, t, all := e.line - 1, e.startCol - 1, e.endCol - 1, [e] + es;
    assert At(all, l, s) == [e];
    ReplacedCons(e, es, l, s);
    if s == t {
      NothingElseBegins(e, es, s);
      BeyondOnLine(line, e, es, s + 1);
    } else {
      ReplacedByFirst(e, es);
      Skipped(line, all, l, s + 1, t);
      BeyondOnLine(line, e, es, t);
    }
  }

  /** Making one more edit, before all the others on the line. */
  lemma {:induction false} OneMoreOnLine(line: string, e: Alteration, es: seq<Alteration>)
    requires e.OneLine() && e.line >= 1 && 1 <= e.startCol <= e.endCol <= |line| + 1 && First(e, es)
    ensures var l := Text(NewLine(line, es, e.line - 1, 0));
      e.endCol - 1 <= |l| &&
      Text(NewLine(line, [e] + es, e.line - 1, 0)) == l[..e.startCol - 1] + e.text + l[e.endCol - 1..]
  {
    var k, s, t, all := e.line - 1, e.startCol - 1, e.endCol - 1, [e] + es;
    AtFirstEdit(line, e, es);
    assert NoneBefore(all, k, s) && NoneBefore(es, k, t);
    Unedited(line, all, k, 0, s);
    Unedited(line, es, k, 0, t);
    Cut(line, s, t, Text(NewLine(line, es, k, t)));
  }

  lemma Cut<T>(line: seq<T>, s: nat, t: nat, rest: seq<T>)
    requires s <= t <= |line|
    ensures (line[0..t] + rest)[..s] == line[0..s] && (line[0..t] + rest)[t..] == rest
  {
  }

  lemma {:induction false} LineKept(lines: seq<string>, es: seq<Alteration>, l: nat)
    requires l < |lines| && forall a :: a in es ==> a.line > l + 1
    ensures NewLines(lines, es, l) == [lines[l]] + NewLines(lines, es, l + 1)
  {
    LinesAtExactly(es, l);
    UneditedLine(lines[l], es, l);
  }

  /** Up to line m nothing is edited. */
  lemma {:induction false} UneditedLines(lines: seq<string>, es: seq<Alteration>, l: nat, m: nat)
    requires l <= m <= |lines| && forall a :: a in es ==> a.line >= m + 1
    ensures NewLines(lines, es, l) == lines[l..m] + NewLines(lines, es, m)
    decreases m - l
  {
    if l < m {
      UneditedLines(lines, es, l + 1, m);
      LineKept(lines, es, l);
    } else {
      assert lines[l..m] + NewLines(lines, es, m) == NewLines(lines, es, m);
    }
  }

  /** From line l on, es and es' have the same edits. */
  ghost predicate SameOnLines(es: seq<Alteration>, es': seq<Alteration>, l: nat) {
    && (forall k: nat :: k >= l ==> LinesAt(es, k) == LinesAt(es', k))
    && (forall k: nat :: k >= l ==> SameOnLine(es, es', k, 0))
  }

  lemma {:induction false} SameNewLines(lines: seq<string>, es: seq<Alteration>, es': seq<Alteration>, l: nat)
    requires SameOnLines(es, es', l)
    ensures NewLines(lines, es, l) == NewLines(lines, es', l)
    decreases |lines| - l
  {
    if l < |lines| {
      var whole := LinesAt(es, l);
      assert whole == LinesAt(es', l);
      if whole != [] && l < whole[0].endLine {
        SameNewLines(lines, es, es', whole[0].endLine);
      } else {
        SameNewLine(lines[l], es, es', l, 0);
        SameNewLines(lines, es, es', l + 1);
      }
    }
  }

  lemma {:induction false} BeyondLines(e: Alteration, es: seq<Alteration>, l: nat)
    requires e.line <= e.endLine && l >= e.endLine
    ensures SameOnLines([e] + es, es, l)
  {
    assert ([e] + es)[1..] == es;
    forall k: nat | k >= l ensures SameOnLine([e] + es, es, k, 0) {
      forall q: nat ensures At([e] + es, k, q) == At(es, k, q) && Replaced([e] + es, k, q) == Replaced(es, k, q) {
        ReplacedCons(e, es, k, q);
      }
    }
  }

  /** Making one more edit, before all the others of the file. */
  lemma {:induction false} OneMore(lines: seq<string>, e: Alteration, es: seq<Alteration>)
    requires InFile(e, lines) && First(e, es) && forall a :: a in es ==> InFile(a, lines)
    ensures Fits(e, NewLines(lines, es, 0)) && NewLines(lines, [e] + es, 0) == Apply(e, NewLines(lines, es, 0))
  {
    BeyondLines(e, es, e.endLine);
    SameNewLines(lines, [e] + es, es, e.endLine);
    UneditedLines(lines, [e] + es, 0, e.line - 1);
    if e.OneLine() {
      OneMoreInLine(lines, e, es);
    } else {
      OneMoreOfLines(lines, e, es);
    }
  }

  lemma {:induction false} OneMoreInLine(lines: seq<string>, e: Alteration, es: seq<Alteration>)
    requires InFile(e, lines) && First(e, es) && e.OneLine() && forall a :: a in es ==> InFile(a, lines)
    requires NewLines(lines, [e] + es, e.line) == NewLines(lines, es, e.line)
    requires NewLines(lines, [e] + es, 0) == lines[0..e.line - 1] + NewLines(lines, [e] + es, e.line - 1)
    ensures Fits(e, NewLines(lines, es, 0)) && NewLines(lines, [e] + es, 0) == Apply(e, NewLines(lines, es, 0))
  {
    var l := e.line - 1;
    UneditedLines(lines, es, 0, l);
    LineOf(lines, es, l);
    LineOf(lines, [e] + es, l);
    OneMoreOnLine(lines[l], e, es);
    ReplaceOne(lines[0..l], Text(NewLine(lines[l], es, l, 0)), NewLines(lines, es, e.line),
               Text(NewLine(lines[l], [e] + es, l, 0)));
  }

  lemma {:induction false} LineOf(lines: seq<string>, es: seq<Alteration>, l: nat)
    requires l < |lines| && forall a :: a in es && a.line == l + 1 ==> a.OneLine()
    ensures NewLines(lines, es, l) == [Text(NewLine(lines[l], es, l, 0))] + NewLines(lines, es, l + 1)
  {
    LinesAtExactly(es, l);
  }

  lemma ReplaceOne<T>(before: seq<T>, x: T, after: seq<T>, y: T)
    ensures var all := before + ([x] + after);
      all[|before|] == x && all[|before| := y] == before + ([y] + after)
  {
  }

  lemma {:induction false} OneMoreOfLines(lines: seq<string>, e: Alteration, es: seq<Alteration>)
    requires InFile(e, lines) && First(e, es) && !e.OneLine() && forall a :: a in es ==> InFile(a, lines)
    requires NewLines(lines, [e] + es, e.endLine) == NewLines(lines, es, e.endLine)
    requires NewLines(lines, [e] + es, 0) == lines[0..e.line - 1] + NewLines(lines, [e] + es, e.line - 1)
    ensures Fits(e, NewLines(lines, es, 0)) && NewLines(lines, [e] + es, 0) == Apply(e, NewLines(lines, es, 0))
  {
    UneditedLines(lines, es, 0, e.endLine);
    assert LinesAt([e] + es, e.line - 1) == [e];
    Cut(lines, e.line - 1, e.endLine, NewLines(lines, es, e.endLine));
  }

  // The order of application.

  predicate Descending(es: seq<Alteration>) {
    forall i, j :: 0 <= i < j < |es| ==> es[i].Key() >= es[j].Key()
  }

  /** The edits from the end of the file to its beginning, as sorted by the key, with larger keys first. */
  function Sorted(es: seq<Alteration>): (r: seq<Alteration>)
    ensures forall a :: a in r <==> a in es
  {
    if es == [] then []
    else
      assert es == [es[0]] + es[1..];
      Insert(es[0], Sorted(es[1..]))
  }

  function Insert(a: Alteration, es: seq<Alteration>): (r: seq<Alteration>)
    ensures forall b :: b in r <==> b == a || b in es
  {
    if es == [] then [a]
    else if a.Key() >= es[0].Key() then [a] + es
    else
      assert es == [es[0]] + es[1..];
      [es[0]] + Insert(a, es[1..])
  }

  lemma {:induction false} InsertDescending(a: Alteration, es: seq<Alteration>)
    requires Descending(es)
    ensures Descending(Insert(a, es))
  {
    if es != [] && a.Key() < es[0].Key() {
      var rest := Insert(a, es[1..]);
      InsertDescending(a, es[1..]);
      forall j | 0 <= j < |rest| ensures es[0].Key() >= rest[j].Key() {
        assert rest[j] in rest;
        if rest[j] != a {
          var k :| 0 <= k < |es[1..]| && es[1..][k] == rest[j];
          assert es[k + 1] == rest[j];
        }
      }
    }
  }

  lemma {:induction false} SortedDescending(es: seq<Alteration>)
    ensures Descending(Sorted(es))
  {
    if es != [] {
      SortedDescending(es[1..]);
      InsertDescending(es[0], Sorted(es[1..]));
    }
  }

  /** All edits are apart from each other, in any order of them. */
  predicate AllApart(es: seq<Alteration>) {
    forall i, j :: 0 <= i < j < |es| ==> Apart(es[i], es[j])
  }

  lemma {:induction false} ApartFromRest(a: Alteration, es: seq<Alteration>, b: Alteration)
    requires AllApart(es) && es != [] && Apart(a, es[0]) && (b == a || b in es[1..])
    ensures Apart(es[0], b)
  {
    if b != a {
      var k :| 0 <= k < |es[1..]| && es[1..][k] == b;
      assert es[k + 1] == b;
    }
  }

  lemma {:induction false} InsertApart(a: Alteration, es: seq<Alteration>)
    requires AllApart(es) && (forall b :: b in es ==> Apart(a, b))
    ensures AllApart(Insert(a, es))
  {
    if es != [] && a.Key() < es[0].Key() {
      assert es == [es[0]] + es[1..];
      var rest := Insert(a, es[1..]);
      InsertApart(a, es[1..]);
      assert forall k :: 0 <= k < |es[1..]| ==> es[1..][k] == es[k + 1];
      forall j | 0 <= j < |rest| ensures Apart(es[0], rest[j]) {
        ApartFromRest(a, es, rest[j]);
      }
    } else {
      forall j | 0 <= j < |es| ensures Apart(a, es[j]) {
        assert es[j] in es;
      }
    }
  }

  lemma {:induction false} SortedApart(es: seq<Alteration>)
    requires AllApart(es)
    ensures AllApart(Sorted(es))
  {
    if es != [] {
      SortedApart(es[1..]);
      InsertApart(es[0], Sorted(es[1..]));
    }
  }

  /** The keys order the edits of a file as they stand in it. */
  lemma KeyOrder(a: Alteration, b: Alteration, lines: seq<string>)
    requires InFile(a, lines) && InFile(b, lines) && Apart(a, b)
    ensures Precedes(a, b) <==> a.Key() < b.Key()
  {
  }

  /** Only which edits there are matters for the reference, not their order. */
  lemma {:induction false} SameMembers(es: seq<Alteration>, es': seq<Alteration>)
    requires AllApart(es) && AllApart(es') && (forall a :: a in es <==> a in es')
    requires forall a :: a in es ==> a.line <= a.endLine
    ensures SameOnLines(es, es', 0)
  {
    forall k: nat ensures LinesAt(es, k) == LinesAt(es', k) && SameOnLine(es, es', k, 0) {
      LinesAtExactly(es, k);
      LinesAtExactly(es', k);
      forall q: nat ensures At(es, k, q) == At(es', k, q) && Replaced(es, k, q) == Replaced(es', k, q) {
        SameAt(es, es', k, q);
      }
    }
  }

  lemma {:induction false} SameAt(es: seq<Alteration>, es': seq<Alteration>, k: nat, q: nat)
    requires AllApart(es) && AllApart(es') && (forall a :: a in es <==> a in es')
    requires forall a :: a in es ==> a.line <= a.endLine
    ensures At(es, k, q) == At(es', k, q) && Replaced(es, k, q) == Replaced(es', k, q)
  {
    AtExactly(es, k, q);
    AtExactly(es', k, q);
    if i :| 0 <= i < |es| && es[i].OneLine() && es[i].line == k + 1 && es[i].startCol <= q + 1 < es[i].endCol {
      assert es[i] in es';
    }
    if i :| 0 <= i < |es'| && es'[i].OneLine() && es'[i].line == k + 1 && es'[i].startCol <= q + 1 < es'[i].endCol {
      assert es'[i] in es;
    }
  }

  /** A file whose lines are edited in place. */
  class SourceFile {
    var lines: seq<string>

    constructor (lines: seq<string>)
      ensures this.lines == lines
    {
      this.lines := lines;
    }

    method Alter(a: Alteration)
      requires Fits(a, lines)
      modifies this
      ensures lines == Apply(a, old(lines))
      ensures Written(lines) ==
        Written(old(lines)[..a.line - 1]) + ReplacedText(a, old(lines)) + "\n" + Written(old(lines)[a.endLine..])
    {
      ApplyWritten(a, lines);
      if a.OneLine() {
        var l := lines[a.line - 1];
        lines := lines[a.line - 1 := l[..a.startCol - 1] + a.text + l[a.endCol - 1..]];
      } else {
        lines := lines[..a.line - 1] + Split(a.text) + lines[a.endLine..];
      }
    }

    /** apply_alterations: one after the other, the last one in the file first, is all of them at once. */
    method ApplyAlterations(alterations: seq<Alteration>)
      requires Compatible(alterations, lines)
      modifies this
      ensures Written(lines) == NewText(old(lines), alterations, 0)
      ensures lines == NewLines(old(lines), alterations, 0)
    {
      NewLinesWritten(lines, alterations, 0);
      var es := Sorted(alterations);
      ghost var original := lines;
      SortedApart(alterations);
      SortedDescending(alterations);
      NothingEdited(lines);
      for i := 0 to |es|
        invariant lines == NewLines(original, es[..i], 0)
      {
        OneAfterOther(original, es, i);
        Alter(es[i]);
      }
      assert es[..|es|] == es;
      SameMembers(es, alterations);
      SameNewLines(original, es, alterations, 0);
    }
  }

  lemma {:induction false} NothingEdited(lines: seq<string>)
    ensures NewLines(lines, [], 0) == lines
  {
    UneditedLines(lines, [], 0, |lines|);
    assert lines[0..|lines|] + NewLines(lines, [], |lines|) == lines;
  }

  /** One round of the loop: the next edit is before those already made. */
  lemma {:induction false} OneAfterOther(lines: seq<string>, es: seq<Alteration>, i: nat)
    requires i < |es| && AllApart(es) && forall a :: a in es ==> InFile(a, lines)
    requires Descending(es)
    ensures Fits(es[i], NewLines(lines, es[..i], 0))
    ensures NewLines(lines, es[..i + 1], 0) == Apply(es[i], NewLines(lines, es[..i], 0))
  {
    var done, e := es[..i], es[i];
    forall k | 0 <= k < i ensures Precedes(e, es[k]) {
      assert Apart(es[k], e);
      KeyOrder(es[k], e, lines);
    }
    assert First(e, done);
    OneMore(lines, e, done);
    assert es[..i + 1] == done + [e];
    forall k, m | 0 <= k < m < i + 1 ensures Apart(([e] + done)[k], ([e] + done)[m]) {
    }
    SameMembers(es[..i + 1], [e] + done);
    SameNewLines(lines, es[..i + 1], [e] + done, 0);
  }
}
