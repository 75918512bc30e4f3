/** How the diagnostic printer draws a source line and the highlights underneath it. Columns count
    display cells; `width` gives the cells of a character, and tabs advance to the next tab stop. */
module Highlights {
  import opened SessionTypes
  import opened SourceLines

  datatype Screen = Screen(tabWidth: nat, width: char -> nat)
  {
    /** A printer whose tab stops and blanks make sense. */
    ghost predicate Valid() { 0 < tabWidth && width(' ') == 1 }
  }

  function CellsAt(scr: Screen, c: char, column: nat): nat
    requires scr.Valid()
  {
    if c == '\t' then scr.tabWidth - column % scr.tabWidth else scr.width(c)
  }

  /** The column in front of character `k`. */
  function Column(scr: Screen, text: string, k: nat): nat
    requires scr.Valid() && k <= |text|
  {
    if k == 0 then 0 else Column(scr, text, k - 1) + CellsAt(scr, text[k - 1], Column(scr, text, k - 1))
  }

  /** The number of characters in the first `n` bytes. */
  function CharsIn(text: string, n: nat, k: nat): nat
    requires k <= |text|
    ensures k <= CharsIn(text, n, k) <= |text|
    decreases |text| - k
  {
    if k == |text| || n < BytePos(text, k + 1) then k else CharsIn(text, n, k + 1)
  }

  function Bytes(text: string): nat {
    BytePos(text, |text|)
  }

  ghost predicate OnCharBoundary(text: string, n: nat) {
    exists k: nat :: k <= |text| && BytePos(text, k) == n
  }

  /** What `visual_offset` asks of its argument: it lies on the line, and not inside a character. */
  ghost predicate ValidOffset(line: Line, offset: nat) {
    && line.offset <= offset <= line.offset + line.length
    && (offset - line.offset <= Bytes(line.text) ==> OnCharBoundary(line.text, offset - line.offset))
  }

  /** The visual column of a byte offset. Whatever lies past the text counts as one column. */
  function VisualOffset(scr: Screen, line: Line, offset: nat): nat
    requires scr.Valid() && ValidOffset(line, offset)
  {
    var index := offset - line.offset;
    if index > Bytes(line.text) then Column(scr, line.text, |line.text|) + 1
    else Column(scr, line.text, CharsIn(line.text, index, 0))
  }

  lemma {:induction false} CharsInIs(text: string, k: nat, from: nat)
    requires from <= k <= |text|
    ensures CharsIn(text, BytePos(text, k), from) == k
    decreases k - from
  {
    if k < |text| {
      BytePosMonotone(text, k, k + 1);
    }
    if from == k {
    } else {
      BytePosMonotone(text, from + 1, k);
      CharsInIs(text, k, from + 1);
    }
  }

  lemma {:induction false} ColumnMonotone(scr: Screen, text: string, j: nat, k: nat)
    requires scr.Valid() && j <= k <= |text|
    ensures Column(scr, text, j) <= Column(scr, text, k)
    decreases k
  {
    if j == k {
    } else {
      ColumnMonotone(scr, text, j, k - 1);
    }
  }

  /** `visual_offset` never runs backwards. */
  lemma VisualOffsetMonotone(scr: Screen, line: Line, o1: nat, o2: nat)
    requires scr.Valid() && ValidOffset(line, o1) && ValidOffset(line, o2) && o1 <= o2
    ensures VisualOffset(scr, line, o1) <= VisualOffset(scr, line, o2)
  {
    var text := line.text;
    var i1, i2 := o1 - line.offset, o2 - line.offset;
    if i1 <= Bytes(text) {
      var k1: nat :| k1 <= |text| && BytePos(text, k1) == i1;
      CharsInIs(text, k1, 0);
      ColumnMonotone(scr, text, k1, |text|);
      if i2 <= Bytes(text) {
        var k2: nat :| k2 <= |text| && BytePos(text, k2) == i2;
        CharsInIs(text, k2, 0);
        if k2 < k1 { BytePosMonotone(text, k2, k1); }
        ColumnMonotone(scr, text, k1, k2);
      }
    }
  }

  // ---------------------------------------------------------------- the line itself

  function Blanks(n: nat): string {
    seq(n, _ => ' ')
  }

  /** What is printed for the first `k` characters. */
  function Rendered(scr: Screen, text: string, k: nat): string
    requires scr.Valid() && k <= |text|
  {
    if k == 0 then "" else
    Rendered(scr, text, k - 1) +
    (if text[k - 1] == '\t' then Blanks(CellsAt(scr, '\t', Column(scr, text, k - 1))) else [text[k - 1]])
  }

  function Cells(scr: Screen, s: string): nat {
    if s == "" then 0 else Cells(scr, s[..|s| - 1]) + scr.width(s[|s| - 1])
  }

  lemma {:induction false} CellsOfBlanks(scr: Screen, s: string, n: nat)
    requires scr.Valid()
    ensures Cells(scr, s + Blanks(n)) == Cells(scr, s) + n
  {
    if n == 0 {
      assert s + Blanks(0) == s;
    } else {
      CellsOfBlanks(scr, s, n - 1);
      assert (s + Blanks(n))[..|s| + n - 1] == s + Blanks(n - 1);
    }
  }

  lemma {:induction false} RenderedCells(scr: Screen, text: string, k: nat)
    requires scr.Valid() && k <= |text|
    ensures Cells(scr, Rendered(scr, text, k)) == Column(scr, text, k)
    ensures forall i :: 0 <= i < |Rendered(scr, text, k)| ==> Rendered(scr, text, k)[i] != '\t'
  {
    if k == 0 {
    } else {
      RenderedCells(scr, text, k - 1);
      var before := Rendered(scr, text, k - 1);
      if text[k - 1] == '\t' {
        CellsOfBlanks(scr, before, CellsAt(scr, '\t', Column(scr, text, k - 1)));
      } else {
        assert (before + [text[k - 1]])[..|before|] == before;
      }
    }
  }

  /** The visual column of the first byte of a character is the column in front of it. */
  lemma OffsetOfChar(scr: Screen, line: Line, k: nat)
    requires scr.Valid() && k <= |line.text| && BytePos(line.text, k) <= Bytes(line.text) <= line.length
    ensures ValidOffset(line, line.offset + BytePos(line.text, k))
    ensures VisualOffset(scr, line, line.offset + BytePos(line.text, k)) == Column(scr, line.text, k)
  {
    assert OnCharBoundary(line.text, BytePos(line.text, k));
    CharsInIs(line.text, k, 0);
  }

  lemma {:induction false} RenderedPrefix(scr: Screen, text: string, k: nat, n: nat)
    requires scr.Valid() && k <= n <= |text|
    ensures Rendered(scr, text, k) <= Rendered(scr, text, n)
    decreases n
  {
    if k == n {
    } else {
      RenderedPrefix(scr, text, k, n - 1);
    }
  }

  /** A tab reaches to the next tab stop, which is the next multiple of the tab width; every other
      character takes its own width. */
  lemma NextColumn(scr: Screen, text: string, k: nat)
    requires scr.Valid() && k < |text|
    ensures Column(scr, text, 0) == 0
    ensures text[k] == '\t' ==>
      && Column(scr, text, k + 1) % scr.tabWidth == 0
      && Column(scr, text, k) < Column(scr, text, k + 1) <= Column(scr, text, k) + scr.tabWidth
    ensures text[k] != '\t' ==> Column(scr, text, k + 1) == Column(scr, text, k) + scr.width(text[k])
  {
    var column, w := Column(scr, text, k), scr.tabWidth;
    if text[k] == '\t' {
      assert column == w * (column / w) + column % w;
      RoundedUp(w, column / w + 1, Column(scr, text, k + 1));
    }
  }

  lemma RoundedUp(w: nat, q: nat, n: nat)
    requires 0 < w && n == w * q
    ensures n % w == 0
  {
    var d := q - n / w;
    assert n == w * (n / w) + n % w;
    Distributes(w, q, n / w);
    if d != 0 {
      NotBetween(w, d);
    }
  }

  lemma Distributes(w: int, a: int, b: int)
    ensures w * (a - b) == w * a - w * b
  {
  }

  lemma {:induction false} AtLeast(w: nat, d: nat)
    requires 0 < d
    ensures w <= w * d
  {
    if d == 1 {
    } else {
      AtLeast(w, d - 1);
      Distributes(w, d, 1);
    }
  }

  lemma NotBetween(w: nat, d: int)
    requires 0 < w && d != 0
    ensures w * d + w <= 0 || w <= w * d
  {
    if 0 < d {
      AtLeast(w, d);
    } else {
      AtLeast(w, -d);
      Distributes(w, 0, d);
    }
  }

  /** An offset at the end of the text is in the column after everything that is printed; one past it,
      in the middle or at the end of the terminator, is one column further. */
  lemma PastTheText(scr: Screen, line: Line, offset: nat)
    requires scr.Valid() && ValidOffset(line, offset) && Bytes(line.text) <= offset - line.offset
    ensures VisualOffset(scr, line, offset)
         == Cells(scr, Rendered(scr, line.text, |line.text|))
            + (if offset == line.offset + Bytes(line.text) then 0 else 1)
  {
    RenderedCells(scr, line.text, |line.text|);
    CharsInIs(line.text, |line.text|, 0);
  }

  /** The text of a line of a table takes no more bytes than the line. */
  lemma TextFits(lines: seq<Line>, s: string, line0: nat, offset0: nat, n: nat)
    requires IsTableOf(lines, s, line0, offset0) && n < |lines|
    ensures Bytes(lines[n].text) <= lines[n].length
  {
    var cuts :| Tabulates(lines, s, cuts, line0, offset0) && cuts[|lines|] == |s|;
    LineFacts(lines, s, cuts, line0, offset0, n);
    var a, b, e := cuts[n], cuts[n + 1], TextEnd(s, cuts[n], cuts[n + 1]);
    BytePosOfSlice(s, a, e, e - a);
    BytePosMonotone(s, e, b);
  }

  /** What is printed for a character follows what is printed for those before it. */
  ghost predicate PrintedAfter(scr: Screen, text: string, k: nat, before: string, out: string)
    requires scr.Valid() && k < |text|
  {
    if text[k] == '\t' then before + Blanks(CellsAt(scr, '\t', Cells(scr, before))) <= out
    else before + [text[k]] <= out
  }

  lemma PrintedInOrder(scr: Screen, text: string, k: nat, out: string)
    requires scr.Valid() && k < |text| && Rendered(scr, text, |text|) <= out
    ensures PrintedAfter(scr, text, k, Rendered(scr, text, k), out)
  {
    RenderedCells(scr, text, k);
    RenderedPrefix(scr, text, k + 1, |text|);
  }

  /** Every character of a line is printed in the column that `visual_offset` computes for it: what
      is printed before it is as wide as that, and contains no tab. A tab is printed as blanks. */
  lemma PrintedWhereComputed(scr: Screen, lines: seq<Line>, s: string, line0: nat, offset0: nat, n: nat, k: nat,
                             out: string)
    returns (before: string)
    requires scr.Valid() && IsTableOf(lines, s, line0, offset0) && n < |lines| && k < |lines[n].text|
    requires out == Rendered(scr, lines[n].text, |lines[n].text|) + "\n"
    ensures ValidOffset(lines[n], lines[n].offset + BytePos(lines[n].text, k))
    ensures Cells(scr, before) == Column(scr, lines[n].text, k)
    ensures Cells(scr, before) == VisualOffset(scr, lines[n], lines[n].offset + BytePos(lines[n].text, k))
    ensures forall i :: 0 <= i < |before| ==> before[i] != '\t'
    ensures PrintedAfter(scr, lines[n].text, k, before, out)
  {
    var text := lines[n].text;
    TextFits(lines, s, line0, offset0, n);
    BytePosMonotone(text, k, |text|);
    OffsetOfChar(scr, lines[n], k);
    RenderedCells(scr, text, k);
    PrintedInOrder(scr, text, k, out);
    before := Rendered(scr, text, k);
  }

  /** Print a line, with tabs replaced by blanks. */
  method RenderLineText(scr: Screen, text: string) returns (out: string)
    requires scr.Valid()
    ensures out == Rendered(scr, text, |text|) + "\n"
  {
    out := "";
    var column := 0;
    for i := 0 to |text|
      invariant column == Column(scr, text, i) && out == Rendered(scr, text, i)
    {
      var cells := if text[i] == '\t' then scr.tabWidth - column % scr.tabWidth else scr.width(text[i]);
      column := column + cells;
      if text[i] == '\t' {
        ghost var before := out;
        for j := 0 to cells
          invariant out == before + Blanks(j)
        {
          out := out + " ";
        }
      } else {
        out := out + [text[i]];
      }
    }
    out := out + "\n";
  }

  // ---------------------------------------------------------------- underlines

  datatype Theme = Theme(underline: char, underbar: char, uarrow: char, vbar: char, hbar: char, lbot: char, rbot: char)

  /** Where a highlight is drawn: from `start` up to `end`, its label hanging from `anchor`. */
  datatype Mark = Mark(span: Span, start: nat, end: nat, anchor: nat)

  function Symbol(theme: Theme, span: Span): char {
    if span.len == 0 then theme.uarrow
    else if span.caption.Some? then theme.underbar
    else theme.underline
  }

  /** The symbol of a highlight in its anchor's column, and its underline in all its other ones. */
  ghost predicate MarkShown(underlines: string, mark: Mark, theme: Theme) {
    && mark.end <= |underlines|
    && forall c :: mark.start <= c < mark.end ==>
         underlines[c] == if c == mark.anchor then Symbol(theme, mark.span) else theme.underline
  }

  /** The picture: all the marks, and blanks everywhere else. */
  ghost predicate Depicts(underlines: string, marks: seq<Mark>, theme: Theme) {
    && (forall k :: 0 <= k < |marks| ==> MarkShown(underlines, marks[k], theme))
    && (forall c :: 0 <= c < |underlines|
                    && (forall k :: 0 <= k < |marks| ==> !(marks[k].start <= c < marks[k].end)) ==>
          underlines[c] == ' ')
  }

  /** Marks are not empty, hold their anchors, and follow one another without overlap. */
  ghost predicate Ordered(marks: seq<Mark>) {
    && (forall k :: 0 <= k < |marks| ==> marks[k].start <= marks[k].anchor < marks[k].end)
    && (forall j, k :: 0 <= j < k < |marks| ==> marks[j].end <= marks[k].start)
  }

  ghost predicate SingleLiners(line: Line, spans: seq<Span>) {
    forall k :: 0 <= k < |spans| ==>
      ValidOffset(line, spans[k].offset) && ValidOffset(line, spans[k].offset + spans[k].len)
  }

  function Max(a: nat, b: nat): nat {
    if a < b then b else a
  }

  function Highest(marks: seq<Mark>): nat {
    if marks == [] then 0 else marks[|marks| - 1].end
  }

  /** The visual columns at which a span starts and ends. */
  datatype Columns = Columns(start: nat, end: nat)

  function ColumnsOf(scr: Screen, line: Line, span: Span): Columns
    requires scr.Valid() && ValidOffset(line, span.offset) && ValidOffset(line, span.offset + span.len)
  {
    Columns(VisualOffset(scr, line, span.offset), VisualOffset(scr, line, span.offset + span.len))
  }

  /** The mark of a span: at its visual columns, but not before column `from`, and not empty. */
  function MarkFrom(span: Span, cols: Columns, from: nat): (mark: Mark)
    ensures from <= mark.start <= mark.anchor < mark.end
  {
    var start := Max(cols.start, from);
    var end := Max(cols.end, start + 1);
    Mark(span, start, end, (start + end) / 2)
  }

  ghost predicate Placed(marks: seq<Mark>, spans: seq<Span>, cols: seq<Columns>) {
    && |marks| <= |spans| == |cols|
    && forall k :: 0 <= k < |marks| ==> PlacedAt(marks, spans[k], cols[k], k)
  }

  ghost predicate PlacedAt(marks: seq<Mark>, span: Span, cols: Columns, k: nat)
    requires k < |marks|
  {
    marks[k] == MarkFrom(span, cols, Highest(marks[..k]))
  }

  lemma PlacedAppend(marks: seq<Mark>, spans: seq<Span>, cols: seq<Columns>, mark: Mark)
    requires Placed(marks, spans, cols) && |marks| < |spans|
    requires mark == MarkFrom(spans[|marks|], cols[|marks|], Highest(marks))
    ensures Placed(marks + [mark], spans, cols)
  {
    var more := marks + [mark];
    forall k | 0 <= k < |more|
      ensures PlacedAt(more, spans[k], cols[k], k)
    {
      if k < |marks| {
        assert PlacedAt(marks, spans[k], cols[k], k);
        assert more[..k] == marks[..k];
      } else {
        assert more[..k] == marks;
      }
    }
  }

  lemma OrderedAppend(marks: seq<Mark>, mark: Mark)
    requires Ordered(marks) && Highest(marks) <= mark.start <= mark.anchor < mark.end
    ensures Ordered(marks + [mark]) && Highest(marks + [mark]) == mark.end
  {
    forall k | 0 <= k < |marks|
      ensures marks[k].end <= Highest(marks)
    {
      if k < |marks| - 1 {
        assert marks[k].end <= marks[|marks| - 1].start;
      }
    }
  }

  function Repeated(c: char, n: nat): string {
    seq(n, _ => c)
  }

  function Underlining(theme: Theme, mark: Mark, from: nat): string
    requires from <= mark.start <= mark.anchor < mark.end
  {
    Blanks(mark.start - from) + Repeated(theme.underline, mark.anchor - mark.start)
    + [Symbol(theme, mark.span)] + Repeated(theme.underline, mark.end - mark.anchor - 1)
  }

  /** The buffer after one more mark was drawn: nothing changes before it, and it ends where the
      mark ends. */
  lemma MarkDrawn(underlines: string, theme: Theme, mark: Mark, all: string)
    requires |underlines| <= mark.start <= mark.anchor < mark.end
    requires all == underlines + Underlining(theme, mark, |underlines|)
    ensures |all| == mark.end
    ensures forall c :: 0 <= c < |underlines| ==> all[c] == underlines[c]
    ensures forall c :: |underlines| <= c < mark.start ==> all[c] == ' '
    ensures forall c :: mark.start <= c < mark.end ==>
      all[c] == if c == mark.anchor then Symbol(theme, mark.span) else theme.underline
  {
  }

  lemma DepictsAppend(underlines: string, marks: seq<Mark>, theme: Theme, mark: Mark, all: string)
    requires Ordered(marks) && Depicts(underlines, marks, theme) && |underlines| == Highest(marks)
    requires |underlines| <= mark.start <= mark.anchor < mark.end
    requires all == underlines + Underlining(theme, mark, |underlines|)
    ensures Depicts(all, marks + [mark], theme)
  {
    var more := marks + [mark];
    MarkDrawn(underlines, theme, mark, all);
    assert forall k :: 0 <= k < |marks| ==> more[k] == marks[k];
    assert more[|marks|] == mark;
  }

  /** The marks drawn so far and their picture. */
  ghost predicate Drawn(underlines: string, marks: seq<Mark>, theme: Theme, spans: seq<Span>, cols: seq<Columns>) {
    && Ordered(marks) && Placed(marks, spans, cols)
    && |underlines| == Highest(marks) && Depicts(underlines, marks, theme)
  }

  lemma OneMoreDrawn(underlines: string, marks: seq<Mark>, theme: Theme, spans: seq<Span>, cols: seq<Columns>,
                     mark: Mark, drawn: string)
    requires Drawn(underlines, marks, theme, spans, cols) && |marks| < |spans|
    requires mark == MarkFrom(spans[|marks|], cols[|marks|], |underlines|)
    requires drawn == Underlining(theme, mark, |underlines|)
    ensures Drawn(underlines + drawn, marks + [mark], theme, spans, cols)
    ensures |underlines| <= mark.end == |underlines + drawn|
  {
    PlacedAppend(marks, spans, cols, mark);
    OrderedAppend(marks, mark);
    DepictsAppend(underlines, marks, theme, mark, underlines + drawn);
    MarkDrawn(underlines, theme, mark, underlines + drawn);
  }

  /** Draw one mark, from column `from` on. */
  method DrawMark(theme: Theme, span: Span, cols: Columns, from: nat) returns (mark: Mark, drawn: string)
    ensures mark == MarkFrom(span, cols, from) && drawn == Underlining(theme, mark, from)
  {
    var start := Max(cols.start, from);
    var end := Max(cols.end, start + 1);
    var anchor := (start + end) / 2;
    var left, right := anchor - start, end - anchor - 1;
    var symbol := if span.len == 0 then theme.uarrow
      else if span.caption.Some? then theme.underbar
      else theme.underline;
    mark := Mark(span, start, end, anchor);
    drawn := Blanks(start - from) + Repeated(theme.underline, left) + [symbol] + Repeated(theme.underline, right);
  }

  /** Draw the underlines of the highlights of one line: the buffer is always as wide as the last
      mark reaches, marks never overlap, and the picture is that of the marks. */
  method Underline(theme: Theme, spans: seq<Span>, cols: seq<Columns>) returns (underlines: string, marks: seq<Mark>)
    requires |cols| == |spans|
    ensures |marks| == |spans| && Ordered(marks) && Placed(marks, spans, cols)
    ensures |underlines| == Highest(marks) && Depicts(underlines, marks, theme)
  {
    underlines, marks := "", [];
    var highest := 0;
    for i := 0 to |spans|
      invariant |marks| == i && highest == |underlines| && Drawn(underlines, marks, theme, spans, cols)
    {
      var mark, drawn := DrawMark(theme, spans[i], cols[i], highest);
      OneMoreDrawn(underlines, marks, theme, spans, cols, mark, drawn);
      underlines := underlines + drawn;
      highest := Max(highest, mark.end);
      marks := marks + [mark];
    }
  }

  /** The underlines of a line, from the byte offsets of its single-line highlights. */
  method UnderlineSpans(scr: Screen, theme: Theme, line: Line, spans: seq<Span>)
    returns (underlines: string, marks: seq<Mark>, cols: seq<Columns>)
    requires scr.Valid() && SingleLiners(line, spans)
    ensures AreColumns(cols, scr, line, spans)
    ensures |marks| == |spans| && Ordered(marks) && Placed(marks, spans, cols)
    ensures |underlines| == Highest(marks) && Depicts(underlines, marks, theme)
  {
    cols := [];
    for i := 0 to |spans|
      invariant |cols| == i && forall k :: 0 <= k < i ==> cols[k] == ColumnsOf(scr, line, spans[k])
    {
      cols := cols + [ColumnsOf(scr, line, spans[i])];
    }
    underlines, marks := Underline(theme, spans, cols);
  }

  /** Anchors strictly increase. */
  lemma AnchorsIncrease(marks: seq<Mark>, j: nat, k: nat)
    requires Ordered(marks) && j < k < |marks|
    ensures marks[j].anchor < marks[j].end <= marks[k].start <= marks[k].anchor
  {
  }

  /** A mark starts at its visual column, or where the one before it ends if that is further right; it
      ends at its visual column, but is never empty; and its anchor is its middle. */
  lemma MarkShape(marks: seq<Mark>, spans: seq<Span>, cols: seq<Columns>, k: nat)
    requires Placed(marks, spans, cols) && k < |marks|
    ensures var mark, from := marks[k], if k == 0 then 0 else marks[k - 1].end;
      && mark.span == spans[k]
      && cols[k].start <= mark.start && from <= mark.start && (mark.start == cols[k].start || mark.start == from)
      && cols[k].end <= mark.end && mark.start < mark.end && (mark.end == cols[k].end || mark.end == mark.start + 1)
      && 0 <= (mark.anchor - mark.start) - (mark.end - mark.anchor - 1) <= 1
  {
    assert PlacedAt(marks, spans[k], cols[k], k);
  }

  /** What is drawn at an anchor tells what is there: an arrow for an empty highlight, a bar for one with
      a label, and nothing special otherwise. */
  lemma AnchorShows(underlines: string, marks: seq<Mark>, theme: Theme, k: nat)
    requires Ordered(marks) && Depicts(underlines, marks, theme) && k < |marks|
    ensures var span, anchor := marks[k].span, marks[k].anchor;
      && anchor < |underlines|
      && (span.len == 0 ==> underlines[anchor] == theme.uarrow)
      && (0 < span.len && span.caption.Some? ==> underlines[anchor] == theme.underbar)
      && (0 < span.len && span.caption.None? ==> underlines[anchor] == theme.underline)
    ensures forall c :: marks[k].start <= c < marks[k].end && c != marks[k].anchor ==>
      c < |underlines| && underlines[c] == theme.underline
  {
    assert MarkShown(underlines, marks[k], theme);
  }

  /** Highlights that do not collide are underlined exactly at their visual columns; one of no width
      gets one column. */
  lemma {:induction false} ApartMeansExact(marks: seq<Mark>, spans: seq<Span>, cols: seq<Columns>, k: nat)
    requires Placed(marks, spans, cols) && k < |marks|
    requires forall i :: 0 <= i < |cols| ==> cols[i].start <= cols[i].end
    requires forall i, j :: 0 <= i < j < |cols| ==> Max(cols[i].end, cols[i].start + 1) <= cols[j].start
    ensures marks[k].start == cols[k].start && marks[k].end == Max(cols[k].end, cols[k].start + 1)
  {
    assert PlacedAt(marks, spans[k], cols[k], k);
    if k == 0 {
    } else {
      ApartMeansExact(marks, spans, cols, k - 1);
      assert Highest(marks[..k]) == marks[k - 1].end;
    }
  }

  // ---------------------------------------------------------------- from the context to the picture

  /** The span starts and ends between two characters of the context. */
  ghost predicate OnChars(s: string, offset0: nat, span: Span) {
    exists a: nat, b: nat :: a <= b <= |s| && StartsAndEnds(s, offset0, span, a, b)
  }

  predicate StartsAndEnds(s: string, offset0: nat, span: Span, a: nat, b: nat)
    requires a <= b <= |s|
  {
    span.offset == offset0 + BytePos(s, a) && span.offset + span.len == offset0 + BytePos(s, b)
  }

  lemma SliceOffsetIsValid(line: Line, s: string, offset0: nat, first: nat, end: nat, a: nat)
    requires first <= end <= |s| && line.text == s[first..end] && line.offset == offset0 + BytePos(s, first)
    requires a <= |s| && line.offset <= offset0 + BytePos(s, a) <= line.End()
    ensures ValidOffset(line, offset0 + BytePos(s, a))
  {
    BytePosOfSlice(s, first, end, end - first);
    if a < first {
      BytePosMonotone(s, a, first);
    } else if a <= end {
      BoundaryInSlice(s, first, end, a);
    } else {
      BytePosMonotone(s, end, a);
    }
  }

  lemma BoundaryInSlice(s: string, first: nat, end: nat, a: nat)
    requires first <= a <= end <= |s|
    ensures BytePos(s, first) <= BytePos(s, a)
    ensures OnCharBoundary(s[first..end], BytePos(s, a) - BytePos(s, first))
  {
    BytePosMonotone(s, first, a);
    BytePosOfSlice(s, first, end, a - first);
    Boundary(s[first..end], a - first);
  }

  lemma Boundary(text: string, k: nat)
    requires k <= |text|
    ensures OnCharBoundary(text, BytePos(text, k))
  {
  }

  lemma CharOffsetIsValid(lines: seq<Line>, s: string, line0: nat, offset0: nat, n: nat, a: nat)
    requires IsTableOf(lines, s, line0, offset0) && n < |lines| && a <= |s|
    requires lines[n].offset <= offset0 + BytePos(s, a) <= lines[n].End()
    ensures ValidOffset(lines[n], offset0 + BytePos(s, a))
  {
    var cuts :| Tabulates(lines, s, cuts, line0, offset0) && cuts[|lines|] == |s|;
    LineFacts(lines, s, cuts, line0, offset0, n);
    SliceOffsetIsValid(lines[n], s, offset0, cuts[n], TextEnd(s, cuts[n], cuts[n + 1]), a);
  }

  lemma CharSpanIsValid(lines: seq<Line>, s: string, line0: nat, offset0: nat, n: nat, span: Span)
    requires IsTableOf(lines, s, line0, offset0) && n < |lines|
    requires OnChars(s, offset0, span) && SpanLineOnly(lines[n], span)
    ensures ValidOffset(lines[n], span.offset) && ValidOffset(lines[n], span.offset + span.len)
  {
    var a: nat, b: nat :| a <= b <= |s| && StartsAndEnds(s, offset0, span, a, b);
    CharOffsetIsValid(lines, s, line0, offset0, n, a);
    CharOffsetIsValid(lines, s, line0, offset0, n, b);
  }

  /** Highlights of one line of the context, in order and without a common byte. */
  ghost predicate HighlightsOf(spans: seq<Span>, line: Line, s: string, offset0: nat) {
    && (forall k :: 0 <= k < |spans| ==> OnChars(s, offset0, spans[k]) && SpanLineOnly(line, spans[k]))
    && (forall j, k :: 0 <= j < k < |spans| ==> spans[j].offset + spans[j].len <= spans[k].offset)
  }

  predicate Covers(line: Line, span: Span, i: nat)
    requires i < |line.text|
  {
    span.offset <= line.offset + BytePos(line.text, i) < span.offset + span.len
  }

  /** A valid offset is not inside a character. */
  lemma BeforeOrAfter(line: Line, offset: nat, i: nat)
    requires ValidOffset(line, offset) && i < |line.text|
    ensures offset <= line.offset + BytePos(line.text, i) || line.offset + BytePos(line.text, i + 1) <= offset
  {
    var text, index := line.text, offset - line.offset;
    BytePosMonotone(text, i + 1, |text|);
    if index <= Bytes(text) {
      var k: nat :| k <= |text| && BytePos(text, k) == index;
      if k <= i { BytePosMonotone(text, k, i); } else { BytePosMonotone(text, i + 1, k); }
    }
  }

  /** Offsets before and after a character boundary of the text, and their columns. */
  lemma ColumnOrder(scr: Screen, line: Line, offset: nat, k: nat)
    requires scr.Valid() && k <= |line.text| && Bytes(line.text) <= line.length && ValidOffset(line, offset)
    ensures offset <= line.offset + BytePos(line.text, k) ==>
      VisualOffset(scr, line, offset) <= Column(scr, line.text, k)
    ensures line.offset + BytePos(line.text, k) <= offset ==>
      Column(scr, line.text, k) <= VisualOffset(scr, line, offset)
  {
    BytePosMonotone(line.text, k, |line.text|);
    OffsetOfChar(scr, line, k);
    var boundary := line.offset + BytePos(line.text, k);
    if offset <= boundary {
      VisualOffsetMonotone(scr, line, offset, boundary);
    }
    if boundary <= offset {
      VisualOffsetMonotone(scr, line, boundary, offset);
    }
  }

  /** A covered character is printed between the visual columns of the span, any other one is not. */
  lemma CoveredColumns(scr: Screen, line: Line, span: Span, i: nat)
    requires scr.Valid() && i < |line.text| && Bytes(line.text) <= line.length
    requires ValidOffset(line, span.offset) && ValidOffset(line, span.offset + span.len)
    ensures var cols := ColumnsOf(scr, line, span);
      var left, right := Column(scr, line.text, i), Column(scr, line.text, i + 1);
      if Covers(line, span, i) then cols.start <= left && right <= cols.end
      else right <= cols.start || cols.end <= left
  {
    BeforeOrAfter(line, span.offset, i);
    BeforeOrAfter(line, span.offset + span.len, i);
    ColumnOrder(scr, line, span.offset, i);
    ColumnOrder(scr, line, span.offset, i + 1);
    ColumnOrder(scr, line, span.offset + span.len, i);
    ColumnOrder(scr, line, span.offset + span.len, i + 1);
  }

  /** The columns of spans, as `UnderlineSpans` computes them. */
  ghost predicate AreColumns(cols: seq<Columns>, scr: Screen, line: Line, spans: seq<Span>)
    requires scr.Valid() && SingleLiners(line, spans)
  {
    |cols| == |spans| && forall k :: 0 <= k < |spans| ==> cols[k] == ColumnsOf(scr, line, spans[k])
  }

  lemma ColumnsApart(scr: Screen, line: Line, s: string, offset0: nat, spans: seq<Span>, cols: seq<Columns>)
    requires scr.Valid() && SingleLiners(line, spans) && HighlightsOf(spans, line, s, offset0)
    requires AreColumns(cols, scr, line, spans)
    ensures forall j, k :: 0 <= j < k < |cols| ==> cols[j].end <= cols[k].start
  {
    forall j, k | 0 <= j < k < |cols|
      ensures cols[j].end <= cols[k].start
    {
      VisualOffsetMonotone(scr, line, spans[j].offset + spans[j].len, spans[k].offset);
    }
  }

  ghost predicate AllVisible(cols: seq<Columns>) {
    forall k :: 0 <= k < |cols| ==> cols[k].start < cols[k].end
  }

  ghost predicate MatchesCover(mark: Mark, span: Span, line: Line, i: nat, c: nat)
    requires i < |line.text|
  {
    mark.span == span && (mark.start <= c < mark.end <==> Covers(line, span, i))
  }

  lemma MarkCovers(scr: Screen, line: Line, spans: seq<Span>, cols: seq<Columns>, marks: seq<Mark>, k: nat, i: nat,
                   c: nat)
    requires scr.Valid() && SingleLiners(line, spans) && Bytes(line.text) <= line.length && i < |line.text|
    requires AreColumns(cols, scr, line, spans) && AllVisible(cols)
    requires forall j, l :: 0 <= j < l < |cols| ==> cols[j].end <= cols[l].start
    requires Placed(marks, spans, cols) && k < |marks|
    requires Column(scr, line.text, i) <= c < Column(scr, line.text, i + 1)
    ensures MatchesCover(marks[k], spans[k], line, i, c)
  {
    ApartMeansExact(marks, spans, cols, k);
    assert PlacedAt(marks, spans[k], cols[k], k);
    CoveredColumns(scr, line, spans[k], i);
  }

  /** Column `c` of the underlines shows the mark of the one highlight that covers character `i`, or a
      blank if there is none. */
  ghost predicate ShowsCover(underlines: string, c: nat, theme: Theme, line: Line, spans: seq<Span>,
                             marks: seq<Mark>, i: nat)
    requires i < |line.text| && |marks| == |spans|
  {
    && (forall k :: 0 <= k < |spans| && Covers(line, spans[k], i) ==>
         && c < |underlines|
         && underlines[c] == if c == marks[k].anchor then Symbol(theme, spans[k]) else theme.underline)
    && (c < |underlines| && (forall k :: 0 <= k < |spans| ==> !Covers(line, spans[k], i)) ==> underlines[c] == ' ')
  }

  lemma PictureShowsCover(underlines: string, c: nat, theme: Theme, line: Line, spans: seq<Span>, marks: seq<Mark>,
                          i: nat)
    requires i < |line.text| && |marks| == |spans| && Depicts(underlines, marks, theme)
    requires forall k :: 0 <= k < |marks| ==> MatchesCover(marks[k], spans[k], line, i, c)
    ensures ShowsCover(underlines, c, theme, line, spans, marks, i)
  {
    forall k | 0 <= k < |spans| && Covers(line, spans[k], i)
      ensures c < |underlines|
      ensures underlines[c] == if c == marks[k].anchor then Symbol(theme, spans[k]) else theme.underline
    {
      assert MatchesCover(marks[k], spans[k], line, i, c) && MarkShown(underlines, marks[k], theme);
    }
    if forall k :: 0 <= k < |spans| ==> !Covers(line, spans[k], i) {
      forall k | 0 <= k < |marks|
        ensures !(marks[k].start <= c < marks[k].end)
      {
        assert MatchesCover(marks[k], spans[k], line, i, c);
      }
    }
  }

  lemma HighlightsAreSingleLiners(lines: seq<Line>, s: string, line0: nat, offset0: nat, n: nat, spans: seq<Span>)
    requires IsTableOf(lines, s, line0, offset0) && n < |lines| && HighlightsOf(spans, lines[n], s, offset0)
    ensures SingleLiners(lines[n], spans)
  {
    forall k | 0 <= k < |spans|
      ensures ValidOffset(lines[n], spans[k].offset) && ValidOffset(lines[n], spans[k].offset + spans[k].len)
    {
      CharSpanIsValid(lines, s, line0, offset0, n, spans[k]);
    }
  }

  /** From the context to the picture. Take any line of a context, and highlights on it that start
      and end between characters, have no byte in common, and are wide enough to be seen. Underneath
      column `c` of the printed line, where character `i` is printed, there is the mark of exactly
      the highlight that covers this character, and a blank if none does. */
  lemma UnderlinedExactly(scr: Screen, theme: Theme, lines: seq<Line>, s: string, line0: nat, offset0: nat, n: nat,
                          spans: seq<Span>, cols: seq<Columns>, marks: seq<Mark>, underlines: string, i: nat, c: nat)
    requires scr.Valid() && IsTableOf(lines, s, line0, offset0) && n < |lines|
    requires HighlightsOf(spans, lines[n], s, offset0)
    requires i < |lines[n].text| && Column(scr, lines[n].text, i) <= c < Column(scr, lines[n].text, i + 1)
    requires |marks| == |spans| && Placed(marks, spans, cols) && Depicts(underlines, marks, theme)
    ensures SingleLiners(lines[n], spans)
    ensures AreColumns(cols, scr, lines[n], spans) && AllVisible(cols) ==>
      ShowsCover(underlines, c, theme, lines[n], spans, marks, i)
  {
    HighlightsAreSingleLiners(lines, s, line0, offset0, n, spans);
    TextFits(lines, s, line0, offset0, n);
    if AreColumns(cols, scr, lines[n], spans) && AllVisible(cols) {
      ColumnsApart(scr, lines[n], s, offset0, spans, cols);
      forall k | 0 <= k < |marks|
        ensures MatchesCover(marks[k], spans[k], lines[n], i, c)
      {
        MarkCovers(scr, lines[n], spans, cols, marks, k, i, c);
      }
      PictureShowsCover(underlines, c, theme, lines[n], spans, marks, i);
    }
  }
}
