/** The labels under a source line: where a label goes, and the rows it is drawn in. Text is wrapped
    by display cells, but placed by its length in bytes. */
module Labels {
  import opened SessionTypes
  import opened SourceLines
  import opened Highlights

  function Minus(a: nat, b: nat): nat {
    if a < b then 0 else a - b
  }

  datatype Position = Left | Center | Right

  /** On which side of its anchor a label is put, and how much space it has there. */
  function Placement(captionBytes: nat, maxWidth: nat, marks: seq<Mark>, index: nat): (nat, Position)
    requires index < |marks|
  {
    var anchor := marks[index].anchor;
    var right := Minus(maxWidth, anchor + 4);
    var left := Minus(Minus(anchor, 4), if index != 0 then marks[index - 1].anchor + 1 else 0);
    var center := Minus(maxWidth, if index != 0 then marks[index - 1].anchor else 0);
    if captionBytes <= right then (right, Right)
    else if captionBytes <= left then (left, Left)
    else (center, Center)
  }

  /** A label that is not empty goes to the right of its anchor if it fits there, with its sigil, into
      the width; else to the left, if it fits there between the bar before and the anchor; else to the
      center. The space is what is left at the chosen side. */
  lemma PlacementIff(captionBytes: nat, maxWidth: nat, marks: seq<Mark>, index: nat)
    requires Ordered(marks) && index < |marks| && 0 < captionBytes
    ensures var (space, position) := Placement(captionBytes, maxWidth, marks, index);
      var anchor, bars := marks[index].anchor, AfterBars(marks, index);
      var fitsRight, fitsLeft := anchor + 4 + captionBytes <= maxWidth, bars + captionBytes + 4 <= anchor;
      && (position == Right <==> fitsRight)
      && (position == Left <==> !fitsRight && fitsLeft)
      && (position == Right ==> anchor + 4 + space == maxWidth)
      && (position == Left ==> bars + space + 4 == anchor)
      && (position == Center ==>
           if index == 0 then space == maxWidth
           else if marks[index - 1].anchor <= maxWidth then marks[index - 1].anchor + space == maxWidth
           else space == 0)
  {
  }

  /** The first mark of a highlight equal to the given one. */
  ghost predicate IsMarkOf(marks: seq<Mark>, span: Span, index: nat) {
    index < |marks| && marks[index].span == span && forall j :: 0 <= j < index ==> marks[j].span != span
  }

  method FindMark(marks: seq<Mark>, span: Span) returns (index: nat)
    requires exists k :: 0 <= k < |marks| && marks[k].span == span
    ensures IsMarkOf(marks, span, index)
  {
    index := 0;
    while marks[index].span != span
      invariant index < |marks| && exists k :: index <= k < |marks| && marks[k].span == span
      invariant forall j :: 0 <= j < index ==> marks[j].span != span
      decreases |marks| - index
    {
      index := index + 1;
    }
  }

  // ---------------------------------------------------------------- bars

  /** Up to column `upTo`, the row shows the vertical bars of the first `n` marks and nothing else. */
  ghost predicate ShowsBars(row: string, theme: Theme, marks: seq<Mark>, n: nat, upTo: nat) {
    && n <= |marks| && upTo <= |row|
    && (forall j :: 0 <= j < n ==> marks[j].anchor < upTo && row[marks[j].anchor] == theme.vbar)
    && (forall c :: 0 <= c < upTo && row[c] != ' ' ==> exists j :: 0 <= j < n && marks[j].anchor == c)
  }

  /** One more bar, after enough blanks. */
  lemma BarAdded(row: string, theme: Theme, marks: seq<Mark>, n: nat, blanks: nat)
    requires ShowsBars(row, theme, marks, n, |row|) && n < |marks| && |row| + blanks == marks[n].anchor
    ensures ShowsBars(row + Blanks(blanks) + [theme.vbar], theme, marks, n + 1, marks[n].anchor + 1)
  {
    var more := row + Blanks(blanks) + [theme.vbar];
    assert more[..|row|] == row;
    forall j | 0 <= j < n
      ensures more[marks[j].anchor] == theme.vbar
    {
      assert more[marks[j].anchor] == row[marks[j].anchor];
    }
    forall c | 0 <= c < |more| && more[c] != ' '
      ensures exists j :: 0 <= j < n + 1 && marks[j].anchor == c
    {
      if c < |row| {
        assert more[c] == row[c];
        var j :| 0 <= j < n && marks[j].anchor == c;
      }
    }
  }

  /** What follows a row does not disturb its bars. */
  lemma BarsKept(row: string, more: string, theme: Theme, marks: seq<Mark>, n: nat, upTo: nat)
    requires ShowsBars(row, theme, marks, n, |row|) && |row| <= upTo <= |row + more|
    requires forall c :: |row| <= c < upTo ==> (row + more)[c] == ' '
    ensures ShowsBars(row + more, theme, marks, n, upTo)
  {
    forall c | 0 <= c < upTo && (row + more)[c] != ' '
      ensures exists j :: 0 <= j < n && marks[j].anchor == c
    {
      assert (row + more)[c] == row[c];
      var j :| 0 <= j < n && marks[j].anchor == c;
    }
  }

  /** The column after the bars of the first `n` marks. */
  function AfterBars(marks: seq<Mark>, n: nat): nat
    requires n <= |marks|
  {
    if n == 0 then 0 else marks[n - 1].anchor + 1
  }

  lemma AfterBarsFits(marks: seq<Mark>, n: nat)
    requires Ordered(marks) && n < |marks|
    ensures AfterBars(marks, n) <= marks[n].anchor
  {
    if n > 0 { AnchorsIncrease(marks, n - 1, n); }
  }

  method DrawBars(theme: Theme, marks: seq<Mark>, n: nat) returns (row: string)
    requires Ordered(marks) && n < |marks|
    ensures ShowsBars(row, theme, marks, n, |row|) && |row| == AfterBars(marks, n) <= marks[n].anchor
  {
    row := "";
    AfterBarsFits(marks, 0);
    for j := 0 to n
      invariant ShowsBars(row, theme, marks, j, |row|)
      invariant |row| == AfterBars(marks, j) <= marks[j].anchor
    {
      var blanks := marks[j].anchor - |row|;
      BarAdded(row, theme, marks, j, blanks);
      row := row + Blanks(blanks) + [theme.vbar];
      AfterBarsFits(marks, j + 1);
    }
  }

  // ---------------------------------------------------------------- rows

  /** The bytes of the sigil. Rows after the first get as many blanks in its place. */
  function SigilBytes(theme: Theme, position: Position): nat {
    match position
    case Right => Utf8Len(theme.lbot) + 2 * Utf8Len(theme.hbar) + 1
    case Left => Utf8Len(theme.rbot) + 2 * Utf8Len(theme.hbar) + 1
    case Center => 0
  }

  /** The rest of a row, after bars and blanks. */
  function Body(theme: Theme, position: Position, text: string, first: bool): string {
    match position
    case Right => (if first then [theme.lbot, theme.hbar, theme.hbar, ' '] else Blanks(SigilBytes(theme, Right))) + text
    case Left => text + (if first then [' ', theme.hbar, theme.hbar, theme.rbot] else Blanks(SigilBytes(theme, Left)))
    case Center => text
  }

  /** The subtraction that yields the leading blanks does not underflow. To the right, it takes the
      column after the bars, counted from one, from the anchor, and adds the one afterwards. */
  predicate Fits(marks: seq<Mark>, index: nat, placement: (nat, Position), text: string)
    requires index < |marks|
  {
    if placement.1 == Right then AfterBars(marks, index) + 1 <= marks[index].anchor else Bytes(text) <= placement.0
  }

  /** Where that rest starts: at the anchor; or so that text and corner end there if a cell were a
      byte; or in the middle of the space, in the same sense. */
  function BodyStart(marks: seq<Mark>, index: nat, placement: (nat, Position), text: string): int
    requires index < |marks|
  {
    match placement.1
    case Right => marks[index].anchor
    case Left => marks[index].anchor - 3 - Bytes(text)
    case Center => AfterBars(marks, index) + (placement.0 - Bytes(text)) / 2
  }

  /** A row of a label: the bars of the highlights to the left in their columns, then the rest. */
  ghost predicate IsRow(row: string, theme: Theme, marks: seq<Mark>, index: nat, placement: (nat, Position),
                        text: string,
                        first: bool) {
    && index < |marks|
    && var start := BodyStart(marks, index, placement, text);
       0 <= start <= |row| && ShowsBars(row, theme, marks, index, start)
       && row[start..] == Body(theme, placement.1, text, first)
  }

  lemma RowIs(bars: string, theme: Theme, marks: seq<Mark>, index: nat, placement: (nat, Position), leading: nat,
              text: string, first: bool)
    requires index < |marks| && ShowsBars(bars, theme, marks, index, |bars|)
    requires |bars| + leading == BodyStart(marks, index, placement, text)
    ensures IsRow(bars + (Blanks(leading) + Body(theme, placement.1, text, first)), theme, marks, index, placement,
                  text, first)
  {
    BarsKept(bars, Blanks(leading) + Body(theme, placement.1, text, first), theme, marks, index, |bars| + leading);
  }

  /** Draw the label of a highlight, whose caption was wrapped into these pieces. A piece that does
      not fit makes the drawing panic, on an underflow, after the rows of all earlier ones. */
  method DrawLabel(theme: Theme, marks: seq<Mark>, span: Span, wrapped: seq<string>, maxWidth: nat)
    returns (rows: seq<string>, index: nat, underflow: bool)
    requires Ordered(marks) && span.caption.Some? && exists k :: 0 <= k < |marks| && marks[k].span == span
    ensures IsMarkOf(marks, span, index)
    ensures var placement := Placement(Bytes(span.caption.value), maxWidth, marks, index);
      && (underflow <==> exists i :: 0 <= i < |wrapped| && !Fits(marks, index, placement, wrapped[i]))
      && |rows| <= |wrapped|
      && (if underflow then |rows| < |wrapped| && !Fits(marks, index, placement, wrapped[|rows|])
          else |rows| == |wrapped|)
      && (forall i :: 0 <= i < |rows| ==>
           && Fits(marks, index, placement, wrapped[i])
           && IsRow(rows[i], theme, marks, index, placement, wrapped[i], i == 0))
  {
    index := FindMark(marks, span);
    var placement := Placement(Bytes(span.caption.value), maxWidth, marks, index);
    var (space, position) := placement;
    rows := [];
    for i := 0 to |wrapped|
      invariant |rows| == i
      invariant forall k :: 0 <= k < i ==>
        && Fits(marks, index, placement, wrapped[k])
        && IsRow(rows[k], theme, marks, index, placement, wrapped[k], k == 0)
    {
      var text := wrapped[i];
      var bars := DrawBars(theme, marks, index);
      var offset := |bars| + 1;
      if if position == Right then marks[index].anchor < offset else space < Bytes(text) {
        underflow := true;
        return;
      }
      var leading := match position
        case Left => space - Bytes(text) + 1
        case Center => (space - Bytes(text)) / 2
        case Right => marks[index].anchor - offset + 1;
      RowIs(bars, theme, marks, index, placement, leading, text, i == 0);
      rows := rows + [bars + (Blanks(leading) + Body(theme, position, text, i == 0))];
    }
    underflow := false;
  }

  // ---------------------------------------------------------------- when the drawing panics

  lemma SliceBytes(s: string, a: nat, b: nat)
    requires a <= b <= |s|
    ensures Bytes(s[a..b]) <= Bytes(s)
  {
    BytePosOfSlice(s, a, b, b - a);
    BytePosMonotone(s, b, |s|);
  }

  lemma {:induction false} BytesWithinCells(scr: Screen, s: string)
    requires forall c <- s :: Utf8Len(c) <= scr.width(c)
    ensures Bytes(s) <= Cells(scr, s)
  {
    if s == "" {
    } else {
      var n := |s| - 1;
      BytePosOfSlice(s, 0, n, n);
      BytesWithinCells(scr, s[..n]);
    }
  }

  /** Exactly when a label to the right does not fit: its highlight is one cell wide and starts the
      line, or directly follows another one that is at most two cells wide. */
  lemma RightUnderflowsIff(marks: seq<Mark>, spans: seq<Span>, cols: seq<Columns>, index: nat, space: nat, text: string)
    requires Ordered(marks) && Placed(marks, spans, cols) && index < |marks|
    ensures !Fits(marks, index, (space, Right), text) <==>
      && marks[index].end == marks[index].start + 1
      && (if index == 0 then marks[0].start == 0
          else marks[index].start == marks[index - 1].end <= marks[index - 1].start + 2)
  {
    assert PlacedAt(marks, spans[index], cols[index], index);
    if index > 0 {
      assert PlacedAt(marks, spans[index - 1], cols[index - 1], index - 1);
      assert marks[index - 1].end <= marks[index].start;
    }
  }

  /** For example the label of the first character of a line, however short the label. */
  lemma ColumnZeroUnderflows(caption: string, len: nat, maxWidth: nat)
    requires Bytes(caption) + 4 <= maxWidth && len <= 1
    ensures var span, cols := Span(Some(caption), 0, len), Columns(0, len);
      var marks := [MarkFrom(span, cols, 0)];
      && Ordered(marks) && Placed(marks, [span], [cols])
      && Placement(Bytes(caption), maxWidth, marks, 0) == (maxWidth - 4, Right)
      && !Fits(marks, 0, (maxWidth - 4, Right), caption)
  {
    var span, cols := Span(Some(caption), 0, len), Columns(0, len);
    var marks := [MarkFrom(span, cols, 0)];
    assert PlacedAt(marks, span, cols, 0);
  }

  /** Pieces of a caption that is put to the left always fit. In the center, they do if no character
      has more bytes than cells and the wrapping kept the piece within the space. */
  lemma PiecesThatFit(scr: Screen, caption: string, maxWidth: nat, marks: seq<Mark>, index: nat, a: nat, b: nat)
    requires index < |marks| && a <= b <= |caption|
    ensures var placement := Placement(Bytes(caption), maxWidth, marks, index);
      && (placement.1 == Left ==> Fits(marks, index, placement, caption[a..b]))
      && (placement.1 == Center && Cells(scr, caption[a..b]) <= placement.0
          && (forall c <- caption :: Utf8Len(c) <= scr.width(c)) ==>
            Fits(marks, index, placement, caption[a..b]))
  {
    SliceBytes(caption, a, b);
    if forall c <- caption :: Utf8Len(c) <= scr.width(c) {
      BytesWithinCells(scr, caption[a..b]);
    }
  }

  lemma {:induction false} BytesOfRepeated(c: char, n: nat)
    ensures Bytes(seq(n, _ => c)) == n * Utf8Len(c)
  {
    if n == 0 {
    } else {
      var s := seq(n, _ => c);
      assert s[0..n - 1] == seq(n - 1, _ => c);
      BytePosOfSlice(s, 0, n - 1, n - 1);
      BytesOfRepeated(c, n - 1);
    }
  }

  /** A caption that does not fit, although it takes fewer cells than there are: fifty times an e with
      an acute accent, under column 30 of 60. */
  lemma AccentsUnderflow(scr: Screen)
    requires scr.width('\U{E9}') == 1
    ensures var caption := seq(50, _ => '\U{E9}');
      var marks := [Mark(Span(Some(caption), 0, 1), 30, 31, 30)];
      && Placement(Bytes(caption), 60, marks, 0) == (60, Center)
      && Cells(scr, caption) == 50 && !Fits(marks, 0, (60, Center), caption)
  {
    BytesOfRepeated('\U{E9}', 50);
    CellsOfNarrow(scr, seq(50, _ => '\U{E9}'));
  }

  // ---------------------------------------------------------------- columns

  /** The signs that labels are drawn with are one cell wide each. */
  ghost predicate OneCellWide(scr: Screen, theme: Theme) {
    scr.Valid() && scr.width(theme.vbar) == scr.width(theme.hbar) == scr.width(theme.lbot) == scr.width(theme.rbot) == 1
  }

  lemma {:induction false} CellsAdd(scr: Screen, a: string, b: string)
    ensures Cells(scr, a + b) == Cells(scr, a) + Cells(scr, b)
    decreases |b|
  {
    if b == "" {
      assert a + b == a;
    } else {
      CellsAdd(scr, a, b[..|b| - 1]);
      assert (a + b)[..|a + b| - 1] == a + b[..|b| - 1];
    }
  }

  lemma {:induction false} CellsOfNarrow(scr: Screen, s: string)
    requires forall c :: 0 <= c < |s| ==> scr.width(s[c]) == 1
    ensures Cells(scr, s) == |s|
  {
    if s == "" {
    } else {
      CellsOfNarrow(scr, s[..|s| - 1]);
    }
  }

  lemma CellsOfBars(scr: Screen, theme: Theme, row: string, marks: seq<Mark>, n: nat, upTo: nat)
    requires OneCellWide(scr, theme) && ShowsBars(row, theme, marks, n, upTo)
    ensures Cells(scr, row[..upTo]) == upTo
  {
    CellsOfNarrow(scr, row[..upTo]);
  }

  /** The cells in front of the text of a row to the right, and of everything after the text of a row
      to the left. */
  function Indent(theme: Theme, position: Position, first: bool): nat {
    if position == Center then 0 else if first then 4 else SigilBytes(theme, position)
  }

  lemma SigilThenText(scr: Screen, row: string, anchor: nat, sigil: string, text: string)
    requires anchor <= |row| && row[anchor..] == sigil + text && Cells(scr, row[..anchor]) == anchor
    requires forall c :: 0 <= c < |sigil| ==> scr.width(sigil[c]) == 1
    ensures var start := anchor + |sigil|;
      start + |text| == |row| && row[start..] == text && Cells(scr, row[..start]) == start
  {
    var start := anchor + |sigil|;
    assert row == row[..anchor] + (sigil + text);
    assert row[..start] == row[..anchor] + sigil;
    CellsOfNarrow(scr, sigil);
    CellsAdd(scr, row[..anchor], sigil);
  }

  /** Labels to the right: the corner is in the anchor's column, and the text starts four columns
      further in the first row. In the other rows it starts as many columns further as the sigil has
      bytes, which is the same if and only if corner and dash are ASCII characters. */
  lemma RightColumns(scr: Screen, row: string, theme: Theme, marks: seq<Mark>, index: nat, space: nat, text: string,
                     first: bool)
    requires OneCellWide(scr, theme) && IsRow(row, theme, marks, index, (space, Right), text, first)
    ensures var anchor, textStart := marks[index].anchor, marks[index].anchor + Indent(theme, Right, first);
      && textStart + |text| == |row| && row[textStart..] == text && Cells(scr, row[..textStart]) == textStart
      && (first ==> row[anchor..][0] == theme.lbot && Cells(scr, row[..anchor]) == anchor)
    ensures Indent(theme, Right, first) == 4 <==> first || (theme.lbot < '\U{80}' && theme.hbar < '\U{80}')
  {
    var anchor := marks[index].anchor;
    CellsOfBars(scr, theme, row, marks, index, anchor);
    var sigil := if first then [theme.lbot, theme.hbar, theme.hbar, ' '] else Blanks(SigilBytes(theme, Right));
    SigilThenText(scr, row, anchor, sigil, text);
  }

  lemma LeftParts(scr: Screen, theme: Theme, lead: string, text: string)
    requires OneCellWide(scr, theme) && Cells(scr, lead) == |lead|
    ensures Cells(scr, lead + text) == |lead| + Cells(scr, text)
    ensures Cells(scr, (lead + text) + [' ', theme.hbar, theme.hbar]) == |lead| + Cells(scr, text) + 3
  {
    CellsAdd(scr, lead, text);
    CellsOfNarrow(scr, [' ', theme.hbar, theme.hbar]);
    CellsAdd(scr, lead + text, [' ', theme.hbar, theme.hbar]);
  }

  /** A row that consists of a lead, the text, and the corner or as many blanks. */
  ghost predicate SplitsLeft(row: string, theme: Theme, start: int, text: string, first: bool) {
    var end := start + |text|;
    && 0 <= start && |row| == end + Indent(theme, Left, first)
    && row[start..end] == text && row[..end] == row[..start] + text
    && (first ==>
         && row[..|row| - 1] == (row[..start] + text) + [' ', theme.hbar, theme.hbar]
         && row[|row| - 1] == theme.rbot)
  }

  lemma LeftSplit(row: string, theme: Theme, marks: seq<Mark>, index: nat, space: nat, text: string, first: bool)
    requires IsRow(row, theme, marks, index, (space, Left), text, first)
    ensures SplitsLeft(row, theme, marks[index].anchor - 3 - Bytes(text), text, first)
  {
    var start := marks[index].anchor - 3 - Bytes(text);
    assert row == row[..start] + Body(theme, Left, text, first);
    assert row[start..start + |text|] == text;
  }

  /** The text of such a row, and its corner, in the right columns. */
  ghost predicate EndsLeft(scr: Screen, row: string, theme: Theme, anchor: nat, text: string, first: bool) {
    var textEnd := |row| - Indent(theme, Left, first);
    && 0 <= textEnd - |text| && row[textEnd - |text|..textEnd] == text
    && (Cells(scr, row[..textEnd]) == anchor - 3 <==> Bytes(text) == Cells(scr, text))
    && (first ==>
         && row[|row| - 1] == theme.rbot
         && (Cells(scr, row[..|row| - 1]) == anchor <==> Bytes(text) == Cells(scr, text)))
  }

  lemma LeftEnds(scr: Screen, row: string, theme: Theme, start: int, text: string, first: bool, anchor: nat)
    requires OneCellWide(scr, theme) && start == anchor - 3 - Bytes(text)
    requires SplitsLeft(row, theme, start, text, first) && Cells(scr, row[..start]) == start
    ensures EndsLeft(scr, row, theme, anchor, text, first)
  {
    LeftParts(scr, theme, row[..start], text);
  }

  /** Labels to the left: the text ends three columns before the anchor's, and the corner of the first
      row is in the anchor's column, if and only if the text has as many bytes as it has cells. */
  lemma LeftColumns(scr: Screen, row: string, theme: Theme, marks: seq<Mark>, index: nat, space: nat, text: string,
                    first: bool)
    requires OneCellWide(scr, theme) && IsRow(row, theme, marks, index, (space, Left), text, first)
    ensures EndsLeft(scr, row, theme, marks[index].anchor, text, first)
  {
    var start := marks[index].anchor - 3 - Bytes(text);
    CellsOfBars(scr, theme, row, marks, index, start);
    LeftSplit(row, theme, marks, index, space, text, first);
    LeftEnds(scr, row, theme, start, text, first, marks[index].anchor);
  }

  /** Labels in the center: the text is in the middle of the space, in bytes, up to one column. */
  lemma CenterColumns(scr: Screen, row: string, theme: Theme, marks: seq<Mark>, index: nat, space: nat, text: string,
                      first: bool)
    requires OneCellWide(scr, theme) && IsRow(row, theme, marks, index, (space, Center), text, first)
    requires Fits(marks, index, (space, Center), text)
    ensures var start := |row| - |text|;
      var before := start - AfterBars(marks, index);
      && 0 <= start && row[start..] == text && Cells(scr, row[..start]) == start
      && 0 <= before && 0 <= (space - Bytes(text) - before) - before <= 1
  {
    CellsOfBars(scr, theme, row, marks, index, BodyStart(marks, index, (space, Center), text));
  }

  /** The blanks in place of the sigil are as many as the sigil has bytes. */
  lemma SigilBytesAre(theme: Theme)
    ensures SigilBytes(theme, Right) == Bytes([theme.lbot, theme.hbar, theme.hbar, ' '])
    ensures SigilBytes(theme, Left) == Bytes([theme.hbar, theme.hbar, theme.rbot, ' '])
    ensures SigilBytes(theme, Center) == Bytes("")
  {
    BytesOfFour(theme.lbot, theme.hbar, theme.hbar, ' ');
    BytesOfFour(theme.hbar, theme.hbar, theme.rbot, ' ');
  }

  lemma BytesOfFour(c0: char, c1: char, c2: char, c3: char)
    ensures Bytes([c0, c1, c2, c3]) == Utf8Len(c0) + Utf8Len(c1) + Utf8Len(c2) + Utf8Len(c3)
  {
    var s := [c0, c1, c2, c3];
    assert BytePos(s, 1) == BytePos(s, 0) + Utf8Len(s[0]);
    assert BytePos(s, 2) == BytePos(s, 1) + Utf8Len(s[1]);
    assert BytePos(s, 3) == BytePos(s, 2) + Utf8Len(s[2]);
    assert BytePos(s, 4) == BytePos(s, 3) + Utf8Len(s[3]);
  }
}
