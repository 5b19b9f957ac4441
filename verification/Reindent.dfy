// The line rewriter of lab4/pox/tools/reindent-pox.py.  The tokenizer's verdict is an input: one
// mark per statement or comment line, giving its line number and its indent level, -1 for a
// comment.
module Reindent {
  import Options

  type Line = string

  datatype Mark = Mark(line: nat, level: int)

  // ---- Single lines ---------------------------------------------------------------------

  predicate Junk(c: char) {
    c == '\n' || c == ' ' || c == '\t'
  }

  function Rstrip(line: Line): Line {
    if line != [] && Junk(line[|line| - 1]) then Rstrip(line[..|line| - 1]) else line
  }

  function Lspace(line: Line): (n: nat)
    ensures n <= |line|
    ensures n < |line| ==> line[n] != ' '
    ensures forall k :: 0 <= k < n ==> line[k] == ' '
  {
    if line != [] && line[0] == ' ' then 1 + Lspace(line[1..]) else 0
  }

  function Spaces(n: nat): (s: Line)
    ensures |s| == n && forall k :: 0 <= k < n ==> s[k] == ' '
  {
    seq(n, _ => ' ')
  }

  // The column after one character.
  function NextColumn(c: char, col: nat): nat {
    if c == '\t' then col + (8 - col % 8) else if c == '\n' || c == '\r' then 0 else col + 1
  }

  // str.expandtabs with the default tab size of 8, from column `col`.
  function ExpandTabs(s: Line, col: nat): Line {
    if s == [] then []
    else (if s[0] == '\t' then Spaces(8 - col % 8) else [s[0]]) + ExpandTabs(s[1..], NextColumn(s[0], col))
  }

  function Normal(raw: Line): Line {
    ExpandTabs(Rstrip(raw), 0) + "\n"
  }

  // No tab, and nothing but the newline after the last visible character.
  ghost predicate IsNormal(line: Line) {
    && line != [] && line[|line| - 1] == '\n'
    && (forall k :: 0 <= k < |line| - 1 ==> line[k] != '\t')
    && (|line| >= 2 ==> !Junk(line[|line| - 2]))
  }

  lemma {:induction false} RstripEnds(line: Line)
    ensures Rstrip(line) != [] ==> !Junk(Rstrip(line)[|Rstrip(line)| - 1])
  {
    if line != [] && Junk(line[|line| - 1]) {
      RstripEnds(line[..|line| - 1]);
    }
  }

  lemma {:induction false} ExpandShape(s: Line, col: nat)
    ensures forall k :: 0 <= k < |ExpandTabs(s, col)| ==> ExpandTabs(s, col)[k] != '\t'
    ensures s != [] ==> ExpandTabs(s, col) != []
    ensures s != [] && s[|s| - 1] != '\t' ==> ExpandTabs(s, col)[|ExpandTabs(s, col)| - 1] == s[|s| - 1]
  {
    if s != [] {
      ExpandShape(s[1..], NextColumn(s[0], col));
    }
  }

  lemma {:induction false} ExpandNothing(s: Line, col: nat)
    requires forall k :: 0 <= k < |s| ==> s[k] != '\t'
    ensures ExpandTabs(s, col) == s
  {
    if s != [] {
      var rest := s[1..];
      assert forall k :: 0 <= k < |rest| ==> rest[k] == s[k + 1];
      ExpandNothing(rest, NextColumn(s[0], col));
      assert s == [s[0]] + rest;
    }
  }

  lemma NormalIsNormal(raw: Line)
    ensures IsNormal(Normal(raw))
  {
    RstripEnds(raw);
    ExpandShape(Rstrip(raw), 0);
    assert Rstrip(raw) == [] ==> Normal(raw) == "\n";
  }

  lemma NormalFixes(line: Line)
    requires IsNormal(line)
    ensures Normal(line) == line
  {
    var text := line[..|line| - 1];
    assert Rstrip(line) == text;
    ExpandNothing(text, 0);
  }

  // ---- What normalising keeps --------------------------------------------------------------

  // The characters that show: everything but spaces, tabs and newlines.
  function Visible(line: Line): Line {
    if line == [] then []
    else (if line[0] == ' ' || line[0] == '\t' || line[0] == '\n' then [] else [line[0]]) + Visible(line[1..])
  }

  lemma {:induction false} VisibleConcat(a: Line, b: Line)
    ensures Visible(a + b) == Visible(a) + Visible(b)
  {
    if a == [] {
      assert a + b == b;
    } else {
      assert (a + b)[1..] == a[1..] + b;
      VisibleConcat(a[1..], b);
    }
  }

  lemma {:induction false} NothingVisible(line: Line)
    requires forall k :: 0 <= k < |line| ==> line[k] == ' ' || line[k] == '\t' || line[k] == '\n'
    ensures Visible(line) == []
  {
    if line != [] {
      NothingVisible(line[1..]);
    }
  }

  // Stripping cuts off exactly the spaces, tabs and newlines a line ends in.
  lemma {:induction false} RstripCuts(line: Line)
    ensures Rstrip(line) <= line
    ensures forall k :: |Rstrip(line)| <= k < |line| ==> line[k] == ' ' || line[k] == '\t' || line[k] == '\n'
    ensures Rstrip(line) != [] ==> Rstrip(line)[|Rstrip(line)| - 1] !in {' ', '\t', '\n'}
  {
    if line != [] && Junk(line[|line| - 1]) {
      RstripCuts(line[..|line| - 1]);
    }
  }

  lemma RstripVisible(line: Line)
    ensures Visible(Rstrip(line)) == Visible(line)
  {
    RstripCuts(line);
    var tail := line[|Rstrip(line)|..];
    assert line == Rstrip(line) + tail;
    NothingVisible(tail);
    VisibleConcat(Rstrip(line), tail);
  }

  lemma {:induction false} ExpandVisible(s: Line, col: nat)
    ensures Visible(ExpandTabs(s, col)) == Visible(s)
  {
    if s != [] {
      var rest := ExpandTabs(s[1..], NextColumn(s[0], col));
      ExpandVisible(s[1..], NextColumn(s[0], col));
      if s[0] == '\t' {
        NothingVisible(Spaces(8 - col % 8));
        VisibleConcat(Spaces(8 - col % 8), rest);
      } else {
        assert ([s[0]] + rest)[1..] == rest;
      }
    }
  }

  // Normalising changes nothing that shows.
  lemma NormalVisible(raw: Line)
    ensures Visible(Normal(raw)) == Visible(raw)
  {
    RstripVisible(raw);
    ExpandVisible(Rstrip(raw), 0);
    NothingVisible("\n");
    VisibleConcat(ExpandTabs(Rstrip(raw), 0), "\n");
  }

  // The column `text` ends at, when it starts at col and holds no tab.
  function ColumnAfter(text: Line, col: nat): nat {
    if text == [] then col
    else if text[|text| - 1] == '\n' || text[|text| - 1] == '\r' then 0
    else ColumnAfter(text[..|text| - 1], col) + 1
  }

  lemma {:induction false} ColumnAfterConcat(a: Line, b: Line, col: nat)
    ensures ColumnAfter(a + b, col) == ColumnAfter(b, ColumnAfter(a, col))
  {
    if b == [] {
      assert a + b == a;
    } else {
      assert (a + b)[..|a + b| - 1] == a + b[..|b| - 1];
      ColumnAfterConcat(a, b[..|b| - 1], col);
    }
  }

  lemma {:induction false} ColumnAfterSpaces(n: nat, col: nat)
    ensures ColumnAfter(Spaces(n), col) == col + n
  {
    if n > 0 {
      assert Spaces(n)[..n - 1] == Spaces(n - 1);
      ColumnAfterSpaces(n - 1, col);
    }
  }

  lemma ExpandOne(c: char, col: nat)
    ensures ExpandTabs([c], col) == if c == '\t' then Spaces(8 - col % 8) else [c]
  {
    var nothing := [c][1..];
    assert ExpandTabs(nothing, NextColumn(c, col)) == [];
  }

  lemma OneColumn(c: char, col: nat)
    ensures ColumnAfter(ExpandTabs([c], col), col) == NextColumn(c, col)
  {
    ExpandOne(c, col);
    if c == '\t' {
      ColumnAfterSpaces(8 - col % 8, col);
    } else {
      var nothing := [c][..0];
      assert ColumnAfter(nothing, col) == col;
    }
  }

  lemma ExpandFirst(s: Line, col: nat)
    requires s != []
    ensures ExpandTabs(s, col) == ExpandTabs([s[0]], col) + ExpandTabs(s[1..], NextColumn(s[0], col))
  {
    ExpandOne(s[0], col);
  }

  // Expanding what follows depends on what came before only through the column it ended at.
  lemma {:induction false} ExpandConcat(a: Line, b: Line, col: nat)
    ensures ExpandTabs(a + b, col) == ExpandTabs(a, col) + ExpandTabs(b, ColumnAfter(ExpandTabs(a, col), col))
    decreases |a|
  {
    if a == [] {
      assert a + b == b;
    } else {
      var next, head := NextColumn(a[0], col), ExpandTabs([a[0]], col);
      assert (a + b)[1..] == a[1..] + b;
      ExpandFirst(a, col);
      ExpandFirst(a + b, col);
      ExpandConcat(a[1..], b, next);
      OneColumn(a[0], col);
      ColumnAfterConcat(head, ExpandTabs(a[1..], next), col);
    }
  }

  lemma NextStop(col: nat)
    ensures 1 <= 8 - col % 8 <= 8 && (col + (8 - col % 8)) % 8 == 0
  {
  }

  // Character by character, from the left: a tab becomes one to eight spaces and ends at the next
  // multiple of eight columns; anything else is copied.
  lemma TabStops(before: Line, c: char)
    ensures var out, longer := ExpandTabs(before, 0), ExpandTabs(before + [c], 0);
            && (c != '\t' ==> longer == out + [c])
            && (c == '\t' ==>
                  && out <= longer && 1 <= |longer| - |out| <= 8 && ColumnAfter(longer, 0) % 8 == 0
                  && forall k :: |out| <= k < |longer| ==> longer[k] == ' ')
  {
    var out := ExpandTabs(before, 0);
    var col := ColumnAfter(out, 0);
    ExpandConcat(before, [c], 0);
    ExpandOne(c, col);
    ColumnAfterConcat(out, Spaces(8 - col % 8), 0);
    ColumnAfterSpaces(8 - col % 8, col);
    NextStop(col);
  }

  // ---- Whole files ----------------------------------------------------------------------

  // The lines of the file, from index 1, without trailing blank lines; index 0 is a dummy.
  function PopBlank(lines: seq<Line>): (r: seq<Line>)
    ensures r <= lines
    ensures r != [] ==> r[|r| - 1] != "\n"
    ensures lines != [] && lines[0] != "\n" ==> r != []
  {
    if lines != [] && lines[|lines| - 1] == "\n" then PopBlank(lines[..|lines| - 1]) else lines
  }

  function NormalLines(raw: seq<Line>): (r: seq<Line>)
    ensures |r| == |raw| && forall k :: 0 <= k < |r| ==> r[k] == Normal(raw[k])
  {
    seq(|raw|, k requires 0 <= k < |raw| => Normal(raw[k]))
  }

  function LinesOf(raw: seq<Line>): (r: seq<Line>)
    ensures r != []
  {
    PopBlank([""] + NormalLines(raw))
  }

  // Marks name lines of the file in order; the level of a comment is -1.
  ghost predicate GoodMarks(marks: seq<Mark>, n: nat) {
    && (forall i :: 0 <= i < |marks| ==> 1 <= marks[i].line < n && marks[i].level >= -1)
    && (forall i, j :: 0 <= i < j < |marks| ==> marks[i].line < marks[j].line)
  }

  // The line after the last one mark i governs; the sentinel gives the end of the file.
  function LineAt(marks: seq<Mark>, n: nat, i: nat): nat
    requires i <= |marks|
  {
    if i < |marks| then marks[i].line else n
  }

  // ---- Where a mark's line should go ----------------------------------------------------

  type Memo = map<nat, int>

  // The next statement's indentation, if the comment lines up with it, else -1.
  function NextWant(lines: seq<Line>, marks: seq<Mark>, have: nat, j: nat): int
    requires GoodMarks(marks, |lines|)
    decreases |marks| - j
  {
    if j >= |marks| then -1
    else if marks[j].level < 0 then NextWant(lines, marks, have, j + 1)
    else if have == Lspace(lines[marks[j].line]) then marks[j].level * 2
    else -1
  }

  // The shift its base line got, if there is one before mark j, else -1.
  function HangWant(lines: seq<Line>, after: seq<Line>, marks: seq<Mark>, have: nat, j: nat): int
    requires GoodMarks(marks, |lines|) && j <= |marks|
    requires j > 0 ==> marks[j - 1].line <= |after|
  {
    if j == 0 then -1
    else if marks[j - 1].level < 0 then HangWant(lines, after, marks, have, j - 1)
    else have + Lspace(after[marks[j - 1].line - 1]) - Lspace(lines[marks[j - 1].line])
  }

  function Want(lines: seq<Line>, after: seq<Line>, marks: seq<Mark>, memo: Memo, i: nat): (w: nat)
    requires GoodMarks(marks, |lines|) && i < |marks|
    requires i > 0 ==> marks[i - 1].line <= |after|
  {
    var have := Lspace(lines[marks[i].line]);
    if marks[i].level >= 0 then marks[i].level * 2
    else if have == 0 then 0
    else
      var seen := if have in memo then memo[have] else -1;
      var next := if seen < 0 then NextWant(lines, marks, have, i + 1) else seen;
      var hang := if next < 0 then HangWant(lines, after, marks, have, i) else next;
      if hang < 0 then have else hang
  }

  // A line moved by diff columns.
  function Shift(line: Line, diff: int): Line {
    if diff > 0 then if line == "\n" then line else Spaces(diff) + line
    else line[if Lspace(line) < -diff then Lspace(line) else -diff..]
  }

  function ShiftAll(lines: seq<Line>, diff: int): (r: seq<Line>)
    ensures |r| == |lines| && forall k {:trigger r[k]} :: 0 <= k < |r| ==> r[k] == Shift(lines[k], diff)
  {
    seq(|lines|, k requires 0 <= k < |lines| => Shift(lines[k], diff))
  }

  function Moved(lines: seq<Line>, have: nat, want: nat): (r: seq<Line>)
    ensures |r| == |lines|
  {
    if want == have || have == 0 then lines else ShiftAll(lines, want - have)
  }

  datatype Progress = Progress(memo: Memo, after: seq<Line>)

  // What the main loop does with mark i.
  function MarkDone(lines: seq<Line>, marks: seq<Mark>, i: nat, p: Progress): (r: Progress)
    requires GoodMarks(marks, |lines|) && i < |marks| && |p.after| == marks[i].line - 1
    ensures |r.after| == LineAt(marks, |lines|, i + 1) - 1
  {
    var here := marks[i].line;
    var have := Lspace(lines[here]);
    assert i > 0 ==> marks[i - 1].line < here;
    var want := Want(lines, p.after, marks, p.memo, i);
    Progress(p.memo[have := want], p.after + Moved(lines[here..LineAt(marks, |lines|, i + 1)], have, want))
  }

  ghost predicate Steps(f: (seq<Line>, seq<Mark>, nat, Progress) -> Progress) {
    forall lines: seq<Line>, marks: seq<Mark>, i: nat, p: Progress {:trigger MarkDone(lines, marks, i, p)} ::
      GoodMarks(marks, |lines|) && i < |marks| && |p.after| == marks[i].line - 1 ==>
        f(lines, marks, i, p) == MarkDone(lines, marks, i, p)
  }

  lemma StepExists()
    ensures exists f :: Steps(f)
  {
    ghost var g: (seq<Line>, seq<Mark>, nat, Progress) -> Progress :=
      (lines: seq<Line>, marks: seq<Mark>, i: nat, p: Progress) =>
        if GoodMarks(marks, |lines|) && i < |marks| && |p.after| == marks[i].line - 1
        then MarkDone(lines, marks, i, p)
        else p;
    assert Steps(g);
  }

  // MarkDone as a value, so that reasoning about whole runs need not look inside it.
  ghost function Step(): (f: (seq<Line>, seq<Mark>, nat, Progress) -> Progress)
    ensures Steps(f)
  {
    StepExists();
    var f: (seq<Line>, seq<Mark>, nat, Progress) -> Progress :| Steps(f);
    f
  }

  lemma StepIs(lines: seq<Line>, marks: seq<Mark>, i: nat, p: Progress)
    requires GoodMarks(marks, |lines|) && i < |marks| && |p.after| == marks[i].line - 1
    ensures Step()(lines, marks, i, p) == MarkDone(lines, marks, i, p)
  {
  }

  lemma StepLength(lines: seq<Line>, marks: seq<Mark>, i: nat, p: Progress)
    requires GoodMarks(marks, |lines|) && i < |marks| && |p.after| == marks[i].line - 1
    ensures |Step()(lines, marks, i, p).after| == LineAt(marks, |lines|, i + 1) - 1
    ensures p.after <= Step()(lines, marks, i, p).after
  {
    StepIs(lines, marks, i, p);
  }

  // The state of the main loop before mark i.
  ghost function RunTo(lines: seq<Line>, marks: seq<Mark>, i: nat): (p: Progress)
    requires lines != [] && GoodMarks(marks, |lines|) && i <= |marks|
    ensures |p.after| == LineAt(marks, |lines|, i) - 1
  {
    if i == 0 then Progress(map[], lines[1..LineAt(marks, |lines|, 0)])
    else
      var p := RunTo(lines, marks, i - 1);
      StepLength(lines, marks, i - 1, p);
      Step()(lines, marks, i - 1, p)
  }

  ghost function After(lines: seq<Line>, marks: seq<Mark>): (r: seq<Line>)
    requires lines != [] && GoodMarks(marks, |lines|)
    ensures |r| == |lines| - 1
  {
    RunTo(lines, marks, |marks|).after
  }

  // ---- Only indentation changes ---------------------------------------------------------

  // What a line says once its leading spaces are dropped.
  function Text(line: Line): Line {
    line[Lspace(line)..]
  }

  // Same text, still normal, and blank exactly when it was.
  ghost predicate Reindented(was: Line, now: Line) {
    IsNormal(now) && Text(now) == Text(was) && (now == "\n" <==> was == "\n")
  }

  lemma {:induction false} LspaceOf(n: nat, rest: Line)
    requires rest != [] && rest[0] != ' '
    ensures Lspace(Spaces(n) + rest) == n && Text(Spaces(n) + rest) == rest
    decreases n
  {
    var line := Spaces(n) + rest;
    if n > 0 {
      assert line[1..] == Spaces(n - 1) + rest;
      LspaceOf(n - 1, rest);
    } else {
      assert line == rest;
    }
  }

  lemma Split(line: Line)
    ensures line == Spaces(Lspace(line)) + Text(line)
  {
  }

  // The text of a line that is not blank.
  ghost predicate IsText(text: Line) {
    && |text| >= 2 && text[0] != ' ' && text[|text| - 1] == '\n' && !Junk(text[|text| - 2])
    && forall k :: 0 <= k < |text| - 1 ==> text[k] != '\t'
  }

  lemma TextOfNormal(line: Line, n: nat, text: Line)
    requires IsNormal(line) && line != "\n" && n == Lspace(line) && text == line[n..]
    ensures IsText(text)
  {
    assert line[|line| - 2] != ' ' && n <= |line| - 2;
    assert text[|text| - 1] == line[|line| - 1] && text[|text| - 2] == line[|line| - 2];
    forall k | 0 <= k < |text| - 1
      ensures text[k] != '\t'
    {
      assert text[k] == line[n + k];
    }
  }

  lemma IndentNormal(m: nat, text: Line)
    requires IsText(text)
    ensures IsNormal(Spaces(m) + text) && |Spaces(m) + text| >= 2
  {
    var line := Spaces(m) + text;
    assert line[|line| - 1] == text[|text| - 1] && line[|line| - 2] == text[|text| - 2];
    forall k | 0 <= k < |line| - 1
      ensures line[k] != '\t'
    {
      if k >= m {
        assert line[k] == text[k - m];
      }
    }
  }

  // Shifting moves the text by exactly diff columns, or to the margin if that is nearer.
  lemma ShiftMoves(line: Line, diff: int)
    requires IsNormal(line)
    ensures Reindented(line, Shift(line, diff))
    ensures line != "\n" ==> Lspace(Shift(line, diff)) == if Lspace(line) + diff >= 0 then Lspace(line) + diff else 0
  {
    if line == "\n" {
      assert Lspace(line) == 0;
      assert Shift(line, diff) == line;
    } else {
      var n, text := Lspace(line), Text(line);
      var m := if n + diff >= 0 then n + diff else 0;
      Split(line);
      ShiftIs(line, n, text, diff, m);
      assert IsText(text) by { TextOfNormal(line, n, text); }
      Indented(m, text, Shift(line, diff));
    }
  }

  lemma Indented(m: nat, text: Line, line: Line)
    requires IsText(text) && line == Spaces(m) + text
    ensures IsNormal(line) && line != "\n" && Lspace(line) == m && Text(line) == text
  {
    IndentNormal(m, text);
    LspaceOf(m, text);
  }

  lemma ShiftIs(line: Line, n: nat, text: Line, diff: int, m: nat)
    requires line == Spaces(n) + text && n == Lspace(line) && line != "\n"
    requires m == if n + diff >= 0 then n + diff else 0
    ensures Shift(line, diff) == Spaces(m) + text
  {
    if diff > 0 {
      assert Spaces(diff) + Spaces(n) == Spaces(m);
      assert Spaces(diff) + line == (Spaces(diff) + Spaces(n)) + text;
    } else {
      var cut := if n < -diff then n else -diff;
      assert Spaces(n)[cut..] == Spaces(m);
      assert line[cut..] == Spaces(n)[cut..] + text;
    }
  }

  // `now` is what became of the lines from `from` on.
  ghost predicate AllReindented(lines: seq<Line>, from: nat, now: seq<Line>) {
    from + |now| <= |lines| &&
    forall k: nat {:trigger ReindentedAt(lines, from, now, k)} :: k < |now| ==> ReindentedAt(lines, from, now, k)
  }

  ghost predicate ReindentedAt(lines: seq<Line>, from: nat, now: seq<Line>, k: nat)
    requires k < |now| && from + |now| <= |lines|
  {
    Reindented(lines[from + k], now[k])
  }

  ghost predicate NormalFile(lines: seq<Line>) {
    lines != [] && forall k {:trigger IsNormal(lines[k])} :: 1 <= k < |lines| ==> IsNormal(lines[k])
  }

  lemma MovedMoves(lines: seq<Line>, here: nat, next: nat, have: nat, want: nat)
    requires NormalFile(lines) && 1 <= here <= next <= |lines|
    ensures AllReindented(lines, here, Moved(lines[here..next], have, want))
    ensures here < next && have == Lspace(lines[here]) ==>
              Lspace(Moved(lines[here..next], have, want)[0]) == if have == 0 then 0 else want
  {
    var now := Moved(lines[here..next], have, want);
    forall k: nat | k < |now|
      ensures ReindentedAt(lines, here, now, k)
    {
      assert IsNormal(lines[here + k]);
      ShiftMoves(lines[here + k], want - have);
    }
    if here < next {
      assert IsNormal(lines[here]);
      ShiftMoves(lines[here], want - have);
    }
  }

  lemma AlreadyNormal(lines: seq<Line>, next: nat)
    requires NormalFile(lines) && 1 <= next <= |lines|
    ensures AllReindented(lines, 1, lines[1..next])
  {
    forall k: nat | k < next - 1
      ensures ReindentedAt(lines, 1, lines[1..next], k)
    {
      assert IsNormal(lines[1 + k]);
    }
  }

  lemma AllReindentedJoin(lines: seq<Line>, from: nat, a: seq<Line>, b: seq<Line>)
    requires AllReindented(lines, from, a) && AllReindented(lines, from + |a|, b)
    ensures AllReindented(lines, from, a + b)
  {
    forall k: nat | k < |a + b|
      ensures ReindentedAt(lines, from, a + b, k)
    {
      if k < |a| {
        assert ReindentedAt(lines, from, a, k);
      } else {
        assert ReindentedAt(lines, from + |a|, b, k - |a|);
      }
    }
  }

  lemma StepReindents(lines: seq<Line>, marks: seq<Mark>, i: nat, p: Progress)
    requires NormalFile(lines) && GoodMarks(marks, |lines|) && i < |marks|
    requires AllReindented(lines, 1, p.after) && |p.after| == marks[i].line - 1
    ensures AllReindented(lines, 1, Step()(lines, marks, i, p).after)
  {
    StepIs(lines, marks, i, p);
    var here, next := marks[i].line, LineAt(marks, |lines|, i + 1);
    assert i > 0 ==> marks[i - 1].line < here;
    var have, want := Lspace(lines[here]), Want(lines, p.after, marks, p.memo, i);
    MovedMoves(lines, here, next, have, want);
    AllReindentedJoin(lines, 1, p.after, Moved(lines[here..next], have, want));
  }

  // Every output line is its input line with only leading spaces changed.
  lemma {:induction false} OnlyIndentation(lines: seq<Line>, marks: seq<Mark>, i: nat)
    requires NormalFile(lines) && GoodMarks(marks, |lines|) && i <= |marks|
    ensures AllReindented(lines, 1, RunTo(lines, marks, i).after)
  {
    if i == 0 {
      AlreadyNormal(lines, LineAt(marks, |lines|, 0));
    } else {
      OnlyIndentation(lines, marks, i - 1);
      StepReindents(lines, marks, i - 1, RunTo(lines, marks, i - 1));
    }
  }

  // A statement ends at twice its level, or stays at the margin if that is where it was.
  ghost predicate StatementsSet(after: seq<Line>, marks: seq<Mark>, i: nat)
    requires i <= |marks|
  {
    forall m: nat {:trigger IsSet(after, marks[m])} :: m < i ==> IsSet(after, marks[m])
  }

  ghost predicate IsSet(after: seq<Line>, mark: Mark) {
    mark.level >= 0 && 1 <= mark.line <= |after| ==>
      Lspace(after[mark.line - 1]) == 0 || Lspace(after[mark.line - 1]) == 2 * mark.level
  }

  lemma OneMarkSets(marks: seq<Mark>, n: nat, i: nat, after: seq<Line>, moved: seq<Line>)
    requires GoodMarks(marks, n) && i < |marks| && StatementsSet(after, marks, i)
    requires |after| == marks[i].line - 1 && moved != []
    requires marks[i].level >= 0 ==> Lspace(moved[0]) == 0 || Lspace(moved[0]) == 2 * marks[i].level
    ensures StatementsSet(after + moved, marks, i + 1)
  {
    forall m: nat | m <= i
      ensures IsSet(after + moved, marks[m])
    {
      if m < i {
        assert marks[m].line < marks[i].line && IsSet(after, marks[m]);
      }
    }
  }

  lemma StepSets(lines: seq<Line>, marks: seq<Mark>, i: nat, p: Progress)
    requires NormalFile(lines) && GoodMarks(marks, |lines|) && i < |marks|
    requires |p.after| == marks[i].line - 1 && StatementsSet(p.after, marks, i)
    ensures StatementsSet(Step()(lines, marks, i, p).after, marks, i + 1)
  {
    StepIs(lines, marks, i, p);
    var here, next := marks[i].line, LineAt(marks, |lines|, i + 1);
    assert i > 0 ==> marks[i - 1].line < here;
    var have, want := Lspace(lines[here]), Want(lines, p.after, marks, p.memo, i);
    MovedMoves(lines, here, next, have, want);
    OneMarkSets(marks, |lines|, i, p.after, Moved(lines[here..next], have, want));
  }

  lemma {:induction false} StatementsEndSet(lines: seq<Line>, marks: seq<Mark>, i: nat)
    requires NormalFile(lines) && GoodMarks(marks, |lines|) && i <= |marks|
    ensures StatementsSet(RunTo(lines, marks, i).after, marks, i)
  {
    if i > 0 {
      StatementsEndSet(lines, marks, i - 1);
      StepSets(lines, marks, i - 1, RunTo(lines, marks, i - 1));
    }
  }

  // ---- Where each line ends up -------------------------------------------------------------

  // What the loop decides for mark i: the memo table then says so.
  ghost function WantAt(lines: seq<Line>, marks: seq<Mark>, i: nat): int
    requires lines != [] && GoodMarks(marks, |lines|) && i < |marks|
  {
    var memo := RunTo(lines, marks, i + 1).memo;
    if Had(lines, marks, i) in memo then memo[Had(lines, marks, i)] else -1
  }

  // The indentation of mark i's line before, and in the rewritten file.
  function Had(lines: seq<Line>, marks: seq<Mark>, i: nat): nat
    requires GoodMarks(marks, |lines|) && i < |marks|
  {
    Lspace(lines[marks[i].line])
  }

  ghost function Has(lines: seq<Line>, marks: seq<Mark>, i: nat): nat
    requires lines != [] && GoodMarks(marks, |lines|) && i < |marks|
  {
    Lspace(After(lines, marks)[marks[i].line - 1])
  }

  lemma {:induction false} RunPrefix(lines: seq<Line>, marks: seq<Mark>, i: nat, n: nat)
    requires lines != [] && GoodMarks(marks, |lines|) && i <= n <= |marks|
    ensures RunTo(lines, marks, i).after <= RunTo(lines, marks, n).after
    decreases n
  {
    if i < n {
      RunPrefix(lines, marks, i, n - 1);
      StepLength(lines, marks, n - 1, RunTo(lines, marks, n - 1));
    }
  }

  // One step adds the decision to the memo table and puts the mark's line there.
  lemma StepAt(lines: seq<Line>, marks: seq<Mark>, i: nat, p: Progress)
    requires NormalFile(lines) && GoodMarks(marks, |lines|) && i < |marks| && |p.after| == marks[i].line - 1
    ensures i > 0 ==> marks[i - 1].line <= |p.after|
    ensures var want, next := Want(lines, p.after, marks, p.memo, i), Step()(lines, marks, i, p);
            && next.memo == p.memo[Had(lines, marks, i) := want]
            && |next.after| >= marks[i].line
            && Lspace(next.after[marks[i].line - 1]) == if Had(lines, marks, i) == 0 then 0 else want
  {
    var here, next := marks[i].line, LineAt(marks, |lines|, i + 1);
    StepIs(lines, marks, i, p);
    assert i > 0 ==> marks[i - 1].line < here;
    MovedMoves(lines, here, next, Lspace(lines[here]), Want(lines, p.after, marks, p.memo, i));
  }

  lemma StepMemo(lines: seq<Line>, marks: seq<Mark>, i: nat, p: Progress, h: nat)
    requires NormalFile(lines) && GoodMarks(marks, |lines|) && i < |marks| && |p.after| == marks[i].line - 1
    ensures var memo := Step()(lines, marks, i, p).memo;
            && Had(lines, marks, i) in memo
            && (h != Had(lines, marks, i) ==> (h in memo <==> h in p.memo) && (h in memo ==> memo[h] == p.memo[h]))
  {
    StepAt(lines, marks, i, p);
  }

  lemma StepPuts(lines: seq<Line>, marks: seq<Mark>, i: nat, p: Progress)
    requires NormalFile(lines) && GoodMarks(marks, |lines|) && i < |marks| && |p.after| == marks[i].line - 1
    ensures var next, have := Step()(lines, marks, i, p), Had(lines, marks, i);
            && have in next.memo && |next.after| >= marks[i].line
            && Lspace(next.after[marks[i].line - 1]) == if have == 0 then 0 else next.memo[have]
  {
    StepAt(lines, marks, i, p);
  }

  // A line at the margin stays there; any other goes where the loop wants it.
  lemma EndsWhereWanted(lines: seq<Line>, marks: seq<Mark>, i: nat)
    requires NormalFile(lines) && GoodMarks(marks, |lines|) && i < |marks|
    ensures Has(lines, marks, i) == if Had(lines, marks, i) == 0 then 0 else WantAt(lines, marks, i)
  {
    StepPuts(lines, marks, i, RunTo(lines, marks, i));
    RunPrefix(lines, marks, i + 1, |marks|);
  }

  // A statement ends at twice its level, unless it was at the margin.
  lemma StatementIndent(lines: seq<Line>, marks: seq<Mark>, i: nat)
    requires NormalFile(lines) && GoodMarks(marks, |lines|) && i < |marks| && marks[i].level >= 0
    ensures Has(lines, marks, i) == if Had(lines, marks, i) == 0 then 0 else 2 * marks[i].level
  {
    EndsWhereWanted(lines, marks, i);
    StepAt(lines, marks, i, RunTo(lines, marks, i));
  }

  lemma StepMovesLine(lines: seq<Line>, marks: seq<Mark>, i: nat, p: Progress, k: nat)
    requires NormalFile(lines) && GoodMarks(marks, |lines|) && i < |marks| && |p.after| == marks[i].line - 1
    requires marks[i].line <= k < LineAt(marks, |lines|, i + 1) && lines[k] != "\n"
    ensures var next, have := Step()(lines, marks, i, p), Had(lines, marks, i);
            && have in next.memo && |next.after| >= k
            && Lspace(next.after[k - 1]) == Carried(lines[k], have, next.memo[have])
  {
    var here, next, have := marks[i].line, LineAt(marks, |lines|, i + 1), Had(lines, marks, i);
    StepAt(lines, marks, i, p);
    StepIs(lines, marks, i, p);
    MovedAt(lines, here, next, have, Want(lines, p.after, marks, p.memo, i), k);
    Behind(p.after, Moved(lines[here..next], have, Want(lines, p.after, marks, p.memo, i)), k - here);
  }

  lemma Behind(after: seq<Line>, moved: seq<Line>, k: nat)
    requires k < |moved|
    ensures (after + moved)[|after| + k] == moved[k]
  {
  }

  lemma MovedAt(lines: seq<Line>, here: nat, next: nat, have: nat, want: nat, k: nat)
    requires NormalFile(lines) && 1 <= here <= k < next <= |lines| && lines[k] != "\n"
    ensures Lspace(Moved(lines[here..next], have, want)[k - here]) == Carried(lines[k], have, want)
  {
    var part, diff: int := lines[here..next], want as int - have as int;
    assert part[k - here] == lines[k];
    if want != have && have != 0 {
      assert ShiftAll(part, diff)[k - here] == Shift(lines[k], diff);
      assert IsNormal(lines[k]);
      ShiftMoves(lines[k], diff);
    }
  }

  // The indentation of a line whose mark's line goes from have to want.
  function Carried(line: Line, have: nat, want: int): int {
    if have == 0 then Lspace(line)
    else if Lspace(line) + want - have >= 0 then Lspace(line) + want - have
    else 0
  }

  // The lines up to the next mark move as far as their mark's line does, but not past the
  // margin, so the shape of what hangs below a line is kept.
  lemma LinesMoveTogether(lines: seq<Line>, marks: seq<Mark>, i: nat, k: nat)
    requires NormalFile(lines) && GoodMarks(marks, |lines|) && i < |marks|
    requires marks[i].line <= k < LineAt(marks, |lines|, i + 1) && lines[k] != "\n"
    ensures Lspace(After(lines, marks)[k - 1]) == Carried(lines[k], Had(lines, marks, i), Has(lines, marks, i))
  {
    EndsWhereWanted(lines, marks, i);
    StepMovesLine(lines, marks, i, RunTo(lines, marks, i), k);
    RunPrefix(lines, marks, i + 1, |marks|);
  }

  // The last mark before i on a line with h leading spaces.
  function LastWith(lines: seq<Line>, marks: seq<Mark>, i: nat, h: nat): (k: Options.Option<nat>)
    requires GoodMarks(marks, |lines|) && i <= |marks|
    ensures k.Some? ==> k.value < i && Had(lines, marks, k.value) == h
  {
    if i == 0 then Options.None
    else if Had(lines, marks, i - 1) == h then Options.Some(i - 1)
    else LastWith(lines, marks, i - 1, h)
  }

  // The memo table holds what that mark wanted.
  lemma {:induction false} MemoRemembers(lines: seq<Line>, marks: seq<Mark>, i: nat, h: nat)
    requires NormalFile(lines) && GoodMarks(marks, |lines|) && i <= |marks|
    ensures var memo, k := RunTo(lines, marks, i).memo, LastWith(lines, marks, i, h);
            && (h in memo <==> k.Some?)
            && (k.Some? ==> memo[h] == WantAt(lines, marks, k.value))
  {
    if i > 0 {
      MemoRemembers(lines, marks, i - 1, h);
      StepMemo(lines, marks, i - 1, RunTo(lines, marks, i - 1), h);
    }
  }

  function NextStatement(marks: seq<Mark>, j: nat): nat
    decreases |marks| - j
  {
    if j < |marks| && marks[j].level < 0 then NextStatement(marks, j + 1) else j
  }

  lemma {:induction false} NextIs(lines: seq<Line>, marks: seq<Mark>, have: nat, j: nat)
    requires GoodMarks(marks, |lines|)
    ensures var s := NextStatement(marks, j);
            NextWant(lines, marks, have, j) ==
            if s < |marks| && Had(lines, marks, s) == have then 2 * marks[s].level else -1
    decreases |marks| - j
  {
    if j < |marks| && marks[j].level < 0 {
      NextIs(lines, marks, have, j + 1);
    }
  }

  function LastStatement(marks: seq<Mark>, j: nat): (b: Options.Option<nat>)
    requires j <= |marks|
    ensures b.Some? ==> b.value < j && marks[b.value].level >= 0
  {
    if j == 0 then Options.None else if marks[j - 1].level < 0 then LastStatement(marks, j - 1) else Options.Some(j - 1)
  }

  lemma {:induction false} HangIs(lines: seq<Line>, marks: seq<Mark>, after: seq<Line>, have: nat, j: nat)
    requires lines != [] && GoodMarks(marks, |lines|) && j <= |marks|
    requires (j > 0 ==> marks[j - 1].line <= |after|) && after <= After(lines, marks)
    ensures var b := LastStatement(marks, j);
            HangWant(lines, after, marks, have, j) ==
            if b.None? then -1 else have + Has(lines, marks, b.value) - Had(lines, marks, b.value)
  {
    if j > 0 && marks[j - 1].level < 0 {
      if j > 1 {
        assert marks[j - 2].line < marks[j - 1].line;
      }
      HangIs(lines, marks, after, have, j - 1);
    }
  }

  // Where the next statement's indentation would take a comment, if they line up; else -1.
  function NextIndent(lines: seq<Line>, marks: seq<Mark>, i: nat): int
    requires GoodMarks(marks, |lines|) && i < |marks|
  {
    var s := NextStatement(marks, i + 1);
    if s < |marks| && Had(lines, marks, s) == Had(lines, marks, i) then 2 * marks[s].level else -1
  }

  // Where moving with the last statement would take it; negative if there is none or no room.
  ghost function BaseIndent(lines: seq<Line>, marks: seq<Mark>, i: nat): int
    requires lines != [] && GoodMarks(marks, |lines|) && i < |marks|
  {
    var b := LastStatement(marks, i);
    if b.None? then -1 else Had(lines, marks, i) + Has(lines, marks, b.value) - Had(lines, marks, b.value)
  }

  // Where the last line with the same indentation went, if there is one.
  ghost function SeenIndent(lines: seq<Line>, marks: seq<Mark>, i: nat): Options.Option<nat>
    requires lines != [] && GoodMarks(marks, |lines|) && i < |marks|
  {
    var k := LastWith(lines, marks, i, Had(lines, marks, i));
    if k.Some? then Options.Some(Has(lines, marks, k.value)) else Options.None
  }

  function FirstOf(seen: Options.Option<nat>, next: int, base: int, have: nat): int {
    if seen.Some? then seen.value else if next >= 0 then next else if base >= 0 then base else have
  }

  // An indented comment goes where the last line with its indentation went, or else lines up
  // with the next statement as it did before, or else moves with the last statement, or stays.
  lemma CommentsFollow(lines: seq<Line>, marks: seq<Mark>, i: nat)
    requires NormalFile(lines) && GoodMarks(marks, |lines|) && i < |marks|
    requires marks[i].level < 0 && Had(lines, marks, i) > 0
    ensures Has(lines, marks, i) ==
            FirstOf(SeenIndent(lines, marks, i), NextIndent(lines, marks, i), BaseIndent(lines, marks, i),
                    Had(lines, marks, i))
  {
    EndsWhereWanted(lines, marks, i);
    SeenIsMemo(lines, marks, i);
    NextIs(lines, marks, Had(lines, marks, i), i + 1);
    RunPrefix(lines, marks, i, |marks|);
    HangIsBase(lines, marks, i, RunTo(lines, marks, i).after);
    StepDecides(lines, marks, i, RunTo(lines, marks, i), SeenIndent(lines, marks, i),
                NextIndent(lines, marks, i), BaseIndent(lines, marks, i));
  }

  lemma SeenIsMemo(lines: seq<Line>, marks: seq<Mark>, i: nat)
    requires NormalFile(lines) && GoodMarks(marks, |lines|) && i < |marks| && Had(lines, marks, i) > 0
    ensures var memo, have := RunTo(lines, marks, i).memo, Had(lines, marks, i);
            SeenIndent(lines, marks, i) ==
            if have in memo && memo[have] >= 0 then Options.Some(memo[have]) else Options.None
  {
    MemoRemembers(lines, marks, i, Had(lines, marks, i));
    var k := LastWith(lines, marks, i, Had(lines, marks, i));
    if k.Some? {
      EndsWhereWanted(lines, marks, k.value);
    }
  }

  lemma HangIsBase(lines: seq<Line>, marks: seq<Mark>, i: nat, after: seq<Line>)
    requires lines != [] && GoodMarks(marks, |lines|) && i < |marks|
    requires |after| == marks[i].line - 1 && after <= After(lines, marks)
    ensures i > 0 ==> marks[i - 1].line <= |after|
    ensures HangWant(lines, after, marks, Had(lines, marks, i), i) == BaseIndent(lines, marks, i)
  {
    assert i > 0 ==> marks[i - 1].line < marks[i].line;
    HangIs(lines, marks, after, Had(lines, marks, i), i);
  }

  lemma StepDecides(
    lines: seq<Line>, marks: seq<Mark>, i: nat, p: Progress, seen: Options.Option<nat>, next: int, base: int)
    requires NormalFile(lines) && GoodMarks(marks, |lines|) && i < |marks| && |p.after| == marks[i].line - 1
    requires marks[i].level < 0 && Had(lines, marks, i) > 0 && (i > 0 ==> marks[i - 1].line <= |p.after|)
    requires var have := Had(lines, marks, i);
             && seen == (if have in p.memo && p.memo[have] >= 0 then Options.Some(p.memo[have]) else Options.None)
             && NextWant(lines, marks, have, i + 1) == next && HangWant(lines, p.after, marks, have, i) == base
    ensures var memo, have := Step()(lines, marks, i, p).memo, Had(lines, marks, i);
            have in memo && memo[have] == FirstOf(seen, next, base, have)
  {
    StepAt(lines, marks, i, p);
  }

  // ---- Running again --------------------------------------------------------------------

  // In a file whose statements are already set, every mark wants what it has.
  lemma WantsWhatItHas(lines: seq<Line>, marks: seq<Mark>, memo: Memo, after: seq<Line>, i: nat)
    requires NormalFile(lines) && GoodMarks(marks, |lines|) && i < |marks|
    requires StatementsSet(lines[1..], marks, |marks|)
    requires after == lines[1..marks[i].line]
    requires forall h :: h in memo && h > 0 ==> memo[h] == h
    ensures i > 0 ==> marks[i - 1].line <= |after|
    ensures var have := Lspace(lines[marks[i].line]);
            have > 0 ==> Want(lines, after, marks, memo, i) == have
  {
    var have := Lspace(lines[marks[i].line]);
    assert IsSet(lines[1..], marks[i]);
    if i > 0 {
      assert marks[i - 1].line < marks[i].line;
      HangsWhereItIs(lines, after, marks, have, i);
    }
    if have > 0 {
      NextAgrees(lines, marks, have, i + 1);
    }
  }

  lemma {:induction false} NextAgrees(lines: seq<Line>, marks: seq<Mark>, have: nat, j: nat)
    requires NormalFile(lines) && GoodMarks(marks, |lines|) && have > 0
    requires StatementsSet(lines[1..], marks, |marks|)
    ensures NextWant(lines, marks, have, j) == have || NextWant(lines, marks, have, j) == -1
    decreases |marks| - j
  {
    if j < |marks| {
      assert IsSet(lines[1..], marks[j]);
      if marks[j].level < 0 {
        NextAgrees(lines, marks, have, j + 1);
      }
    }
  }

  lemma {:induction false} HangsWhereItIs(lines: seq<Line>, after: seq<Line>, marks: seq<Mark>, have: nat, j: nat)
    requires NormalFile(lines) && GoodMarks(marks, |lines|) && 0 <= j <= |marks|
    requires after <= lines[1..] && (j > 0 ==> marks[j - 1].line <= |after|)
    ensures HangWant(lines, after, marks, have, j) == have || HangWant(lines, after, marks, have, j) == -1
  {
    if j > 0 {
      assert after[marks[j - 1].line - 1] == lines[1..][marks[j - 1].line - 1] == lines[marks[j - 1].line];
      if marks[j - 1].level < 0 {
        if j > 1 {
          assert marks[j - 2].line < marks[j - 1].line;
        }
        HangsWhereItIs(lines, after, marks, have, j - 1);
      }
    }
  }

  lemma {:induction false} RunsInPlace(lines: seq<Line>, marks: seq<Mark>, i: nat)
    requires NormalFile(lines) && GoodMarks(marks, |lines|) && i <= |marks|
    requires StatementsSet(lines[1..], marks, |marks|)
    ensures var p := RunTo(lines, marks, i);
            && p.after == lines[1..LineAt(marks, |lines|, i)]
            && forall h :: h in p.memo && h > 0 ==> p.memo[h] == h
  {
    if i > 0 {
      RunsInPlace(lines, marks, i - 1);
      var p := RunTo(lines, marks, i - 1);
      var here, next := marks[i - 1].line, LineAt(marks, |lines|, i);
      StepInPlace(lines, marks, i - 1, p);
      assert lines[1..here] + lines[here..next] == lines[1..next];
    }
  }

  lemma StepInPlace(lines: seq<Line>, marks: seq<Mark>, i: nat, p: Progress)
    requires NormalFile(lines) && GoodMarks(marks, |lines|) && i < |marks|
    requires StatementsSet(lines[1..], marks, |marks|)
    requires p.after == lines[1..marks[i].line] && forall h :: h in p.memo && h > 0 ==> p.memo[h] == h
    ensures var next := Step()(lines, marks, i, p);
            && next.after == p.after + lines[marks[i].line..LineAt(marks, |lines|, i + 1)]
            && forall h :: h in next.memo && h > 0 ==> next.memo[h] == h
  {
    StepIs(lines, marks, i, p);
    WantsWhatItHas(lines, marks, p.memo, p.after, i);
  }

  lemma LinesAreNormal(raw: seq<Line>)
    ensures NormalFile(LinesOf(raw))
  {
    var lines := LinesOf(raw);
    forall k | 1 <= k < |lines|
      ensures IsNormal(lines[k])
    {
      NormalIsNormal(raw[k - 1]);
      assert lines[k] == ([""] + NormalLines(raw))[k] == Normal(raw[k - 1]);
    }
  }

  lemma NormalAgain(lines: seq<Line>, out: seq<Line>)
    requires AllReindented(lines, 1, out)
    ensures NormalLines(out) == out
  {
    forall k: nat | k < |out|
      ensures Normal(out[k]) == out[k]
    {
      assert ReindentedAt(lines, 1, out, k);
      NormalFixes(out[k]);
    }
  }

  lemma LastStaysVisible(lines: seq<Line>, out: seq<Line>)
    requires AllReindented(lines, 1, out) && |out| == |lines| - 1 && lines[|lines| - 1] != "\n"
    ensures LinesOf(out) == [""] + out
  {
    NormalAgain(lines, out);
    if out != [] {
      assert ReindentedAt(lines, 1, out, |out| - 1);
    }
    NothingToPop([""] + out);
  }

  // Reading the output back in finds exactly the output.
  lemma OutputReadsBack(lines: seq<Line>, marks: seq<Mark>)
    requires NormalFile(lines) && GoodMarks(marks, |lines|) && lines[|lines| - 1] != "\n"
    ensures LinesOf(After(lines, marks)) == [""] + After(lines, marks)
  {
    OnlyIndentation(lines, marks, |marks|);
    LastStaysVisible(lines, After(lines, marks));
  }

  lemma NothingToPop(lines: seq<Line>)
    requires lines != [] && lines[|lines| - 1] != "\n"
    ensures PopBlank(lines) == lines
  {
  }

  lemma ReindentedVisible(was: Line, now: Line)
    requires Reindented(was, now)
    ensures Visible(now) == Visible(was)
  {
    Split(was);
    Split(now);
    NothingVisible(Spaces(Lspace(was)));
    NothingVisible(Spaces(Lspace(now)));
    VisibleConcat(Spaces(Lspace(was)), Text(was));
    VisibleConcat(Spaces(Lspace(now)), Text(now));
  }

  lemma OutputLine(raw: seq<Line>, marks: seq<Mark>, k: nat)
    requires GoodMarks(marks, |LinesOf(raw)|) && k < |After(LinesOf(raw), marks)|
    ensures k < |raw| && Reindented(Normal(raw[k]), After(LinesOf(raw), marks)[k])
  {
    var lines := LinesOf(raw);
    LinesAreNormal(raw);
    OnlyIndentation(lines, marks, |marks|);
    assert ReindentedAt(lines, 1, After(lines, marks), k);
    assert lines[1 + k] == ([""] + NormalLines(raw))[1 + k];
  }

  lemma {:induction false} PoppedAreBlank(lines: seq<Line>, k: nat)
    requires |PopBlank(lines)| <= k < |lines|
    ensures lines[k] == "\n"
  {
    if k < |lines| - 1 {
      PoppedAreBlank(lines[..|lines| - 1], k);
    }
  }

  lemma LineKeepsVisible(raw: seq<Line>, marks: seq<Mark>, k: nat)
    requires GoodMarks(marks, |LinesOf(raw)|) && k < |After(LinesOf(raw), marks)|
    ensures k < |raw| && Visible(After(LinesOf(raw), marks)[k]) == Visible(raw[k])
  {
    OutputLine(raw, marks, k);
    ReindentedVisible(Normal(raw[k]), After(LinesOf(raw), marks)[k]);
    NormalVisible(raw[k]);
  }

  lemma PoppedShowNothing(raw: seq<Line>, k: nat)
    requires |LinesOf(raw)| - 1 <= k < |raw|
    ensures Visible(raw[k]) == []
  {
    PoppedAreBlank([""] + NormalLines(raw), k + 1);
    NormalVisible(raw[k]);
    NothingVisible("\n");
  }

  // Against the file as it was read: every line keeps all that shows, and the lines no longer
  // there showed nothing.
  lemma KeepsWhatShows(raw: seq<Line>, marks: seq<Mark>)
    requires GoodMarks(marks, |LinesOf(raw)|)
    ensures var out := After(LinesOf(raw), marks);
            && |out| <= |raw|
            && (forall k :: 0 <= k < |out| ==> Visible(out[k]) == Visible(raw[k]))
            && (forall k :: |out| <= k < |raw| ==> Visible(raw[k]) == [])
  {
    var out := After(LinesOf(raw), marks);
    forall k | 0 <= k < |out|
      ensures Visible(out[k]) == Visible(raw[k])
    {
      LineKeepsVisible(raw, marks, k);
    }
    forall k | |out| <= k < |raw|
      ensures Visible(raw[k]) == []
    {
      PoppedShowNothing(raw, k);
    }
  }

  ghost predicate Shows(c: char) {
    c != ' ' && c != '\t' && c != '\n'
  }

  lemma {:induction false} RstripIs(kept: Line, tail: Line)
    requires kept != [] && Shows(kept[|kept| - 1]) && forall k :: 0 <= k < |tail| ==> !Shows(tail[k])
    ensures Rstrip(kept + tail) == kept
  {
    if tail == [] {
      assert kept + tail == kept;
    } else {
      assert (kept + tail)[..|kept + tail| - 1] == kept + tail[..|tail| - 1];
      RstripIs(kept, tail[..|tail| - 1]);
    }
  }

  // Spaces, then a text without tabs that shows at both ends, then what stripping drops.
  ghost predicate IsSplit(line: Line, n: nat, text: Line, tail: Line) {
    && line == Spaces(n) + text + tail
    && text != [] && Shows(text[0]) && Shows(text[|text| - 1])
    && (forall j :: 0 <= j < |text| ==> text[j] != '\t')
    && (forall j :: 0 <= j < |tail| ==> !Shows(tail[j]))
  }

  lemma NormalText(line: Line, n: nat, text: Line, tail: Line)
    requires IsSplit(line, n, text, tail)
    ensures Normal(line) == Spaces(n) + (text + "\n") && Text(Normal(line)) == text + "\n" && Normal(line) != "\n"
  {
    RstripIs(Spaces(n) + text, tail);
    ExpandNothing(Spaces(n) + text, 0);
    assert Normal(line) == Spaces(n) + (text + "\n");
    LspaceOf(n, text + "\n");
  }

  // Such a text comes out as it was, spaces inside it included.
  lemma KeepsText(raw: seq<Line>, marks: seq<Mark>, k: nat, n: nat, text: Line, tail: Line)
    requires GoodMarks(marks, |LinesOf(raw)|) && k < |raw| && IsSplit(raw[k], n, text, tail)
    ensures k < |After(LinesOf(raw), marks)| && Text(After(LinesOf(raw), marks)[k]) == text + "\n"
  {
    NormalText(raw[k], n, text, tail);
    if k >= |After(LinesOf(raw), marks)| {
      PoppedAreBlank([""] + NormalLines(raw), k + 1);
    } else {
      OutputLine(raw, marks, k);
    }
  }

  // The file's own claim: running again, with marks on the same lines at the same levels,
  // changes nothing.
  lemma Idempotent(raw: seq<Line>, marks: seq<Mark>)
    requires GoodMarks(marks, |LinesOf(raw)|)
    ensures var out := After(LinesOf(raw), marks);
            && LinesOf(out) == [""] + out
            && After(LinesOf(out), marks) == out
  {
    var lines := LinesOf(raw);
    var out := After(lines, marks);
    LinesAreNormal(raw);
    OutputReadsBack(lines, marks);
    StatementsEndSet(lines, marks, |marks|);
    LinesAreNormal(out);
    assert LinesOf(out)[1..] == out;
    RunsInPlace(LinesOf(out), marks, |marks|);
  }

  // ---- The loops ------------------------------------------------------------------------

  // _rstrip
  method RstripLoop(line: Line) returns (r: Line)
    ensures r == Rstrip(line)
  {
    var i: nat := |line|;
    assert line[..i] == line;
    while i > 0 && Junk(line[i - 1])
      invariant i <= |line| && Rstrip(line) == Rstrip(line[..i])
    {
      assert line[..i][..i - 1] == line[..i - 1];
      i := i - 1;
    }
    r := line[..i];
  }

  // getlspace
  method GetLspace(line: Line) returns (i: nat)
    ensures i == Lspace(line)
  {
    i := 0;
    while i < |line| && line[i] == ' '
      invariant i <= |line| && Lspace(line) == i + Lspace(line[i..])
    {
      i := i + 1;
    }
  }

  class Reindenter {
    const raw: seq<Line>
    var lines: seq<Line>
    var after: seq<Line>

    constructor (raw: seq<Line>)
      ensures this.raw == raw && lines == [""] + NormalLines(raw) && after == []
    {
      this.raw, lines, after := raw, [""], [];
      new;
      for k := 0 to |raw|
        invariant lines == [""] + NormalLines(raw)[..k] && after == []
        invariant this.raw == raw
      {
        var text := RstripLoop(raw[k]);
        lines := lines + [ExpandTabs(text, 0) + "\n"];
      }
    }

    // run: `after` is the rewritten file, and the result says whether that is a change.
    method Run(marks: seq<Mark>) returns (changed: bool)
      requires lines == [""] + NormalLines(raw) && GoodMarks(marks, |LinesOf(raw)|)
      modifies this
      ensures lines == LinesOf(raw) && after == After(LinesOf(raw), marks)
      ensures changed <==> raw != after
    {
      PopLines();
      var memo: Memo := map[];
      after := lines[1..LineAt(marks, |lines|, 0)];
      for i := 0 to |marks|
        invariant lines == LinesOf(raw)
        invariant Progress(memo, after) == RunTo(lines, marks, i)
      {
        memo := DoMark(marks, i, memo);
      }
      changed := raw != after;
    }

    // The loop that removes trailing blank lines.
    method PopLines()
      modifies this`lines
      ensures lines == PopBlank(old(lines))
    {
      while lines != [] && lines[|lines| - 1] == "\n"
        invariant PopBlank(lines) == PopBlank(old(lines))
        decreases |lines|
      {
        lines := lines[..|lines| - 1];
      }
    }

    // The body of the main loop.
    method DoMark(marks: seq<Mark>, i: nat, memo: Memo) returns (next: Memo)
      requires GoodMarks(marks, |lines|) && i < |marks| && |after| == marks[i].line - 1
      modifies this`after
      ensures Progress(next, after) == Step()(lines, marks, i, Progress(memo, old(after)))
    {
      StepIs(lines, marks, i, Progress(memo, after));
      var here := marks[i].line;
      var have := GetLspace(lines[here]);
      var want := WantedIndent(marks, memo, i, have);
      next := memo[have := want];
      Append(here, LineAt(marks, |lines|, i + 1), have, want);
    }

    // The part of the loop that decides where mark i's line should go; never negative.
    method WantedIndent(marks: seq<Mark>, memo: Memo, i: nat, have: nat) returns (w: nat)
      requires GoodMarks(marks, |lines|) && i < |marks| && have == Lspace(lines[marks[i].line])
      requires |after| == marks[i].line - 1
      ensures i > 0 ==> marks[i - 1].line <= |after|
      ensures w == Want(lines, after, marks, memo, i)
    {
      assert i > 0 ==> marks[i - 1].line < marks[i].line;
      var want := marks[i].level * 2;
      if want < 0 {
        if have != 0 {
          want := if have in memo then memo[have] else -1;
          if want < 0 {
            want := NextLoop(marks, have, i + 1);
          }
          if want < 0 {
            want := HangLoop(marks, have, i);
          }
          if want < 0 {
            want := have;
          }
        } else {
          want := 0;
        }
      }
      assert want >= 0;
      w := want;
    }

    method NextLoop(marks: seq<Mark>, have: nat, from: nat) returns (want: int)
      requires GoodMarks(marks, |lines|)
      ensures want == NextWant(lines, marks, have, from)
    {
      want := -1;
      var j := from;
      while j < |marks|
        invariant want == -1 && NextWant(lines, marks, have, from) == NextWant(lines, marks, have, j)
      {
        if marks[j].level >= 0 {
          var other := GetLspace(lines[marks[j].line]);
          if have == other {
            want := marks[j].level * 2;
          }
          return;
        }
        j := j + 1;
      }
    }

    method HangLoop(marks: seq<Mark>, have: nat, i: nat) returns (want: int)
      requires GoodMarks(marks, |lines|) && i <= |marks|
      requires i > 0 ==> marks[i - 1].line <= |after|
      ensures want == HangWant(lines, after, marks, have, i)
    {
      want := -1;
      var j: nat := i;
      while j > 0
        invariant j <= i && (j > 0 ==> marks[j - 1].line <= |after|)
        invariant HangWant(lines, after, marks, have, i) == HangWant(lines, after, marks, have, j)
        decreases j
      {
        j := j - 1;
        if marks[j].level >= 0 {
          var to := GetLspace(after[marks[j].line - 1]);
          var from := GetLspace(lines[marks[j].line]);
          return have + to - from;
        }
        assert j > 0 ==> marks[j - 1].line < marks[j].line;
      }
    }

    // The part that copies or shifts the lines mark i governs.
    method Append(here: nat, next: nat, have: nat, want: nat)
      requires here <= next <= |lines|
      modifies this`after
      ensures after == old(after) + Moved(lines[here..next], have, want)
    {
      var diff, part := want - have, lines[here..next];
      if diff == 0 || have == 0 {
        after := after + part;
      } else {
        AppendShifted(part, diff);
      }
    }

    method AppendShifted(part: seq<Line>, diff: int)
      modifies this`after
      ensures after == old(after) + ShiftAll(part, diff)
    {
      ghost var was, moved := after, ShiftAll(part, diff);
      for k := 0 to |part|
        invariant after == was + moved[..k]
      {
        var line := ShiftLine(part[k], diff);
        after := after + [line];
        assert moved[..k + 1] == moved[..k] + [line];
      }
    }
  }

  // One line of the else-branch of the shifting loop.
  method ShiftLine(line: Line, diff: int) returns (r: Line)
    ensures r == Shift(line, diff)
  {
    if diff > 0 {
      r := if line == "\n" then line else Spaces(diff) + line;
    } else {
      var n := GetLspace(line);
      var remove := if n < -diff then n else -diff;
      r := line[remove..];
    }
  }

  // Running, reading the output back in, and running again reports no change.
  method RunTwice(raw: seq<Line>, marks: seq<Mark>) returns (out: seq<Line>, changedAgain: bool)
    requires GoodMarks(marks, |LinesOf(raw)|)
    ensures out == After(LinesOf(raw), marks) && !changedAgain
  {
    Idempotent(raw, marks);
    var first := new Reindenter(raw);
    var changed := first.Run(marks);
    out := first.after;
    var second := new Reindenter(out);
    changedAgain := second.Run(marks);
  }
}
