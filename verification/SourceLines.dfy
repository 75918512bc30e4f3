/** How the diagnostic printer cuts the source context of a report into lines, and which
    highlighted spans it relates to which line. Offsets and lengths count UTF-8 bytes. */
module SourceLines {
  import opened SessionTypes

  function Utf8Len(c: char): nat {
    if c as int < 0x80 then 1 else if c as int < 0x800 then 2 else if c as int < 0x1_0000 then 3 else 4
  }

  /** The number of code points that UTF-8 encodes in at most `n` bytes: one byte carries 7 bits, two to
      four bytes carry 5n + 1 bits (section 3 of RFC 3629). */
  function Utf8Capacity(n: nat): nat {
    match n
    case 0 => 0
    case 1 => Pow2(7)
    case _ => Pow2(5 * n + 1)
  }

  function Pow2(n: nat): nat {
    if n == 0 then 1 else 2 * Pow2(n - 1)
  }

  lemma PowersOfTwo()
    ensures Pow2(7) == 0x80 && Pow2(11) == 0x800 && Pow2(16) == 0x1_0000 && Pow2(21) == 0x20_0000
  {
    assert Pow2(7) == 0x80;
    assert Pow2(11) == 16 * Pow2(7);
    assert Pow2(16) == 32 * Pow2(11);
    assert Pow2(21) == 32 * Pow2(16);
  }

  /** A character takes the least number of bytes that can hold it. */
  lemma Utf8LenIsLeast(c: char)
    ensures 1 <= Utf8Len(c) <= 4
    ensures Utf8Capacity(Utf8Len(c) - 1) <= c as int < Utf8Capacity(Utf8Len(c))
  {
    PowersOfTwo();
  }

  /** The byte offset of character `i`. */
  function BytePos(s: string, i: nat): nat
    requires i <= |s|
  {
    if i == 0 then 0 else BytePos(s, i - 1) + Utf8Len(s[i - 1])
  }

  datatype Line = Line(number: nat, offset: nat, length: nat, text: string)
  {
    function End(): nat { offset + length }
  }

  // ---------------------------------------------------------------- what a line is

  /** The characters from `a` to `b` are a line: a line feed ends it, and nothing else in it is one.
      Only the last line may lack it. */
  ghost predicate IsLine(s: string, a: nat, b: nat) {
    && a < b <= |s|
    && (forall k :: a <= k < b - 1 ==> s[k] != '\n')
    && (b == |s| || s[b - 1] == '\n')
  }

  /** Where its text ends and its terminator, LF or CRLF, begins. */
  function TextEnd(s: string, a: nat, b: nat): nat
    requires a < b <= |s|
  {
    if s[b - 1] != '\n' then b
    else if a + 1 < b && s[b - 2] == '\r' then b - 2
    else b - 1
  }

  /** The entry for line `k`. A line that ends in a lone CR gets the number of the line before. */
  function LineFor(s: string, a: nat, b: nat, k: nat, line0: nat, offset0: nat): Line
    requires a < b <= |s| && BytePos(s, a) <= BytePos(s, b)
  {
    Line(line0 + k + (if s[b - 1] == '\r' then 0 else 1),
         offset0 + BytePos(s, a), BytePos(s, b) - BytePos(s, a), s[a..TextEnd(s, a, b)])
  }

  /** The entries are those of the lines between these cuts. */
  ghost predicate Tabulates(lines: seq<Line>, s: string, cuts: seq<nat>, line0: nat, offset0: nat) {
    && |cuts| == |lines| + 1 && cuts[0] == 0
    && forall k :: 0 <= k < |lines| ==> Tabulated(lines[k], s, cuts[k], cuts[k + 1], k, line0, offset0)
  }

  /** The table of the lines of a context that starts after `line0` lines, at byte `offset0`. */
  ghost predicate IsTableOf(lines: seq<Line>, s: string, line0: nat, offset0: nat) {
    exists cuts :: Tabulates(lines, s, cuts, line0, offset0) && cuts[|lines|] == |s|
  }

  ghost predicate Tabulated(line: Line, s: string, a: nat, b: nat, k: nat, line0: nat, offset0: nat) {
    IsLine(s, a, b) && BytePos(s, a) <= BytePos(s, b) && line == LineFor(s, a, b, k, line0, offset0)
  }

  lemma {:induction false} BytePosMonotone(s: string, i: nat, j: nat)
    requires i <= j <= |s|
    ensures BytePos(s, i) + (j - i) <= BytePos(s, j)
    decreases j
  {
    if i == j {
    } else {
      BytePosMonotone(s, i, j - 1);
    }
  }

  /** Byte positions in a slice are those in the whole, counted from where it starts. */
  lemma {:induction false} BytePosOfSlice(s: string, a: nat, b: nat, i: nat)
    requires a <= b <= |s| && i <= b - a
    ensures BytePos(s, a) + BytePos(s[a..b], i) == BytePos(s, a + i)
  {
    if i == 0 {
    } else {
      BytePosOfSlice(s, a, b, i - 1);
    }
  }

  // ---------------------------------------------------------------- the loop

  /** The lines cut off so far: the first `start` characters. */
  ghost predicate CutUpTo(s: string, start: nat, cuts: seq<nat>, lines: seq<Line>, line0: nat, offset0: nat) {
    Tabulates(lines, s, cuts, line0, offset0) && cuts[|lines|] == start
  }

  lemma CutOff(s: string, start: nat, next: nat, cuts: seq<nat>, lines: seq<Line>, line0: nat, offset0: nat, line: Line)
    requires CutUpTo(s, start, cuts, lines, line0, offset0)
    requires IsLine(s, start, next) && line.text == s[start..TextEnd(s, start, next)]
    requires line.number == line0 + |lines| + (if s[next - 1] == '\r' then 0 else 1)
    requires line.offset == offset0 + BytePos(s, start) && line.End() == offset0 + BytePos(s, next)
    ensures CutUpTo(s, next, cuts + [next], lines + [line], line0, offset0)
  {
    BytePosMonotone(s, start, next);
    assert Tabulated(line, s, start, next, |lines|, line0, offset0);
    forall k | 0 <= k < |lines|
      ensures Tabulated((lines + [line])[k], s, (cuts + [next])[k], (cuts + [next])[k + 1], k, line0, offset0)
    {
      assert Tabulated(lines[k], s, cuts[k], cuts[k + 1], k, line0, offset0);
    }
  }

  lemma AllCutOff(s: string, cuts: seq<nat>, lines: seq<Line>, line0: nat, offset0: nat)
    requires CutUpTo(s, |s|, cuts, lines, line0, offset0)
    ensures IsTableOf(lines, s, line0, offset0)
  {
  }

  /** Cut a context into lines, one character after the other. */
  method GetLines(context: string, line0: nat, column0: nat, offset0: nat)
    returns (lines: seq<Line>)
    ensures IsTableOf(lines, context, line0, offset0)
  {
    var line, column, offset := line0, column0, offset0;
    var lineOffset := offset;
    var i := 0;
    var lineStr := "";
    lines := [];
    ghost var start, cuts: seq<nat> := 0, [0];
    while i < |context|
      invariant start <= i <= |context| && lineStr == context[start..i]
      invariant CutUpTo(context, start, cuts, lines, line0, offset0)
      invariant lineOffset == offset0 + BytePos(context, start) <= offset == offset0 + BytePos(context, i)
      invariant forall k :: start <= k < i ==> context[k] != '\n'
      invariant i < |context| ==> line == line0 + |lines|
      invariant i == |context| ==> start == i
      invariant start < i ==> column > 0
      invariant start < i < |context| && context[i] == '\n' ==> context[i - 1] != '\r'
    {
      ghost var last := i;
      var c := context[i];
      i := i + 1;
      offset := offset + Utf8Len(c);
      var atEndOfFile := false;
      match c {
        case '\r' =>
          if i < |context| && context[i] == '\n' {
            i := i + 1;
            offset := offset + 1;
            line := line + 1;
            column := 0;
          } else {
            lineStr := lineStr + [c];
            column := column + 1;
          }
          atEndOfFile := i == |context|;
        case '\n' =>
          atEndOfFile := i == |context|;
          line := line + 1;
          column := 0;
        case _ =>
          lineStr := lineStr + [c];
          column := column + 1;
      }
      assert if column == 0 then context[i - 1] == '\n' && TextEnd(context, start, i) == last
             else i == last + 1 && c != '\n';
      assert lineStr == if column == 0 then context[start..last] else context[start..i];
      if i == |context| && !atEndOfFile {
        line := line + 1;
      }
      if column == 0 || i == |context| {
        CutOff(context, start, i, cuts, lines, line0, offset0, Line(line, lineOffset, offset - lineOffset, lineStr));
        lines := lines + [Line(line, lineOffset, offset - lineOffset, lineStr)];
        cuts := cuts + [i];
        lineStr := "";
        lineOffset := offset;
        start := i;
      }
    }
    AllCutOff(context, cuts, lines, line0, offset0);
  }

  // ---------------------------------------------------------------- what the table is good for

  /** The lines cover the bytes from `first` to `end`, one right after the other. */
  ghost predicate Tiles(lines: seq<Line>, first: nat, end: nat) {
    && lines != [] && lines[0].offset == first && lines[|lines| - 1].End() == end
    && (forall k :: 0 <= k < |lines| ==> 0 < lines[k].length)
    && (forall j, k :: 0 <= j && k == j + 1 < |lines| ==> lines[j].End() == lines[k].offset)
  }

  lemma LineFacts(lines: seq<Line>, s: string, cuts: seq<nat>, line0: nat, offset0: nat, k: nat)
    requires Tabulates(lines, s, cuts, line0, offset0) && cuts[|lines|] == |s| && k < |lines|
    ensures IsLine(s, cuts[k], cuts[k + 1])
    ensures 0 < lines[k].length
    ensures lines[k].offset == offset0 + BytePos(s, cuts[k]) && lines[k].End() == offset0 + BytePos(s, cuts[k + 1])
    ensures lines[k].text == s[cuts[k]..TextEnd(s, cuts[k], cuts[k + 1])]
    ensures cuts[k + 1] < |s| || k == |lines| - 1
    ensures lines[k].number == line0 + 1 + k <==> !(k == |lines| - 1 && s[|s| - 1] == '\r')
  {
    assert Tabulated(lines[k], s, cuts[k], cuts[k + 1], k, line0, offset0);
    BytePosMonotone(s, cuts[k], cuts[k + 1]);
    if k < |lines| - 1 {
      assert Tabulated(lines[k + 1], s, cuts[k + 1], cuts[k + 2], k + 1, line0, offset0);
    }
  }

  /** The lines tile the bytes of the context, and are numbered consecutively, except that a context
      ending in a lone CR repeats the number before its last line. */
  lemma LinesTile(lines: seq<Line>, s: string, line0: nat, offset0: nat)
    requires IsTableOf(lines, s, line0, offset0)
    ensures lines == [] <==> s == ""
    ensures s != "" ==> Tiles(lines, offset0, offset0 + BytePos(s, |s|))
    ensures forall k :: 0 <= k < |lines| ==>
      (lines[k].number == line0 + 1 + k <==> !(k == |lines| - 1 && s[|s| - 1] == '\r'))
  {
    var cuts :| Tabulates(lines, s, cuts, line0, offset0) && cuts[|lines|] == |s|;
    forall k: nat | k < |lines|
      ensures 0 < lines[k].length
      ensures lines[k].number == line0 + 1 + k <==> !(k == |lines| - 1 && s[|s| - 1] == '\r')
    {
      LineFacts(lines, s, cuts, line0, offset0, k);
    }
    if lines == [] {
    } else {
      LinesMeet(lines, s, cuts, line0, offset0);
    }
  }

  lemma LinesMeet(lines: seq<Line>, s: string, cuts: seq<nat>, line0: nat, offset0: nat)
    requires Tabulates(lines, s, cuts, line0, offset0) && cuts[|lines|] == |s| && lines != []
    ensures lines[0].offset == offset0 && lines[|lines| - 1].End() == offset0 + BytePos(s, |s|)
    ensures forall j, k :: 0 <= j && k == j + 1 < |lines| ==> lines[j].End() == lines[k].offset
  {
    LineFacts(lines, s, cuts, line0, offset0, 0);
    LineFacts(lines, s, cuts, line0, offset0, |lines| - 1);
    forall j: nat, k: nat | k == j + 1 < |lines|
      ensures lines[j].End() == lines[k].offset
    {
      LineFacts(lines, s, cuts, line0, offset0, j);
      LineFacts(lines, s, cuts, line0, offset0, k);
    }
  }

  function Terminator(s: string, a: nat, b: nat): string
    requires a < b <= |s|
  {
    s[TextEnd(s, a, b)..b]
  }

  function Joined(lines: seq<Line>, terminators: seq<string>): string
    requires |lines| == |terminators|
  {
    if lines == [] then "" else
    var n := |lines| - 1;
    Joined(lines[..n], terminators[..n]) + lines[n].text + terminators[n]
  }

  lemma ThreeParts(s: string, a: nat, m: nat, b: nat)
    requires a <= m <= b <= |s|
    ensures s[..a] + s[a..m] + s[m..b] == s[..b]
  {
  }

  lemma BytesOfLine(s: string, a: nat, m: nat, b: nat)
    requires a <= m <= b <= |s| && forall k :: m <= k < b ==> Utf8Len(s[k]) == 1
    ensures BytePos(s, b) - BytePos(s, a) == BytePos(s[a..m], m - a) + (b - m)
  {
    BytePosOfSlice(s, a, m, m - a);
    OneByteEach(s, m, b);
  }

  lemma {:induction false} OneByteEach(s: string, m: nat, b: nat)
    requires m <= b <= |s| && forall k :: m <= k < b ==> Utf8Len(s[k]) == 1
    ensures BytePos(s, b) == BytePos(s, m) + (b - m)
    decreases b
  {
    if m == b {
    } else {
      OneByteEach(s, m, b - 1);
    }
  }

  /** The terminator belongs to the line: the text has no LF; it is cut off before LF or, if possible,
      before CRLF, and only the last line may have neither; text and terminator are all of the line. */
  ghost predicate Terminates(term: string, line: Line, last: bool) {
    && '\n' !in line.text
    && (term == "\n" || term == "\r\n" || (term == "" && last))
    && (term == "\n" ==> line.text == "" || line.text[|line.text| - 1] != '\r')
    && line.length == BytePos(line.text, |line.text|) + |term|
  }

  lemma TerminatesLine(lines: seq<Line>, s: string, cuts: seq<nat>, line0: nat, offset0: nat, k: nat)
    requires Tabulates(lines, s, cuts, line0, offset0) && cuts[|lines|] == |s| && k < |lines|
    ensures cuts[k] < cuts[k + 1] <= |s|
    ensures Terminates(Terminator(s, cuts[k], cuts[k + 1]), lines[k], k == |lines| - 1)
  {
    LineFacts(lines, s, cuts, line0, offset0, k);
    var a, b := cuts[k], cuts[k + 1];
    TerminatorIs(s, a, b);
    TextHasNoLF(s, a, b);
    BytesOfLine(s, a, TextEnd(s, a, b), b);
  }

  lemma {:induction false} LinesRebuildPrefix(lines: seq<Line>, s: string, cuts: seq<nat>, line0: nat, offset0: nat,
                                              n: nat)
    returns (terminators: seq<string>)
    requires Tabulates(lines, s, cuts, line0, offset0) && cuts[|lines|] == |s| && n <= |lines|
    ensures |terminators| == n && cuts[n] <= |s| && Joined(lines[..n], terminators) == s[..cuts[n]]
    ensures forall k :: 0 <= k < n ==> Terminates(terminators[k], lines[k], k == |lines| - 1)
  {
    if n == 0 {
      terminators := [];
    } else {
      var before := LinesRebuildPrefix(lines, s, cuts, line0, offset0, n - 1);
      TerminatesLine(lines, s, cuts, line0, offset0, n - 1);
      LineFacts(lines, s, cuts, line0, offset0, n - 1);
      var term := Terminator(s, cuts[n - 1], cuts[n]);
      terminators := before + [term];
      OneMoreRebuilt(lines, before, s, n - 1, cuts[n - 1], TextEnd(s, cuts[n - 1], cuts[n]), cuts[n], term);
    }
  }

  lemma OneMoreRebuilt(lines: seq<Line>, before: seq<string>, s: string, n: nat, a: nat, m: nat, b: nat, term: string)
    requires |before| == n < |lines| && a <= m <= b <= |s|
    requires Joined(lines[..n], before) == s[..a] && lines[n].text == s[a..m] && term == s[m..b]
    ensures Joined(lines[..n + 1], before + [term]) == s[..b]
  {
    assert lines[..n + 1][..n] == lines[..n] && (before + [term])[..n] == before;
    ThreeParts(s, a, m, b);
  }

  /** Nothing of the input is lost or made up: it is rebuilt from the texts and the terminators,
      each of which is LF, CRLF or, for the last line only, nothing. No text contains an LF, and a CR
      before an LF is never part of the text. */
  lemma LinesRebuild(lines: seq<Line>, s: string, line0: nat, offset0: nat) returns (terminators: seq<string>)
    requires IsTableOf(lines, s, line0, offset0)
    ensures |terminators| == |lines| && Joined(lines, terminators) == s
    ensures forall k :: 0 <= k < |lines| ==> Terminates(terminators[k], lines[k], k == |lines| - 1)
  {
    var cuts :| Tabulates(lines, s, cuts, line0, offset0) && cuts[|lines|] == |s|;
    terminators := LinesRebuildPrefix(lines, s, cuts, line0, offset0, |lines|);
    assert lines[..|lines|] == lines && s[..|s|] == s;
  }

  lemma TerminatorIs(s: string, a: nat, b: nat)
    requires IsLine(s, a, b)
    ensures var term := Terminator(s, a, b);
      && (term == "\n" || term == "\r\n" || (term == "" && b == |s|))
      && (term == "\n" && a < TextEnd(s, a, b) ==> s[TextEnd(s, a, b) - 1] != '\r')
      && (forall k :: TextEnd(s, a, b) <= k < b ==> Utf8Len(s[k]) == 1)
  {
    var term := Terminator(s, a, b);
    if s[b - 1] != '\n' {
      assert term == "";
    } else if a + 1 < b && s[b - 2] == '\r' {
      assert term == "\r\n";
    } else {
      assert term == "\n";
    }
  }

  lemma TextHasNoLF(s: string, a: nat, b: nat)
    requires IsLine(s, a, b)
    ensures '\n' !in s[a..TextEnd(s, a, b)]
  {
    var text := s[a..TextEnd(s, a, b)];
    assert forall k :: 0 <= k < |text| ==> text[k] == s[a + k];
  }

  lemma {:induction false} CutsAreUnique(s: string, cuts1: seq<nat>, cuts2: seq<nat>, k: nat)
    requires cuts1 != [] && cuts2 != [] && cuts1[0] == cuts2[0] == 0
    requires forall i :: 0 <= i < |cuts1| - 1 ==> IsLine(s, cuts1[i], cuts1[i + 1])
    requires forall i :: 0 <= i < |cuts2| - 1 ==> IsLine(s, cuts2[i], cuts2[i + 1])
    requires cuts1[|cuts1| - 1] == cuts2[|cuts2| - 1] == |s| && k < |cuts1|
    ensures k < |cuts2| && cuts1[k] == cuts2[k]
  {
    if k == 0 {
    } else {
      CutsAreUnique(s, cuts1, cuts2, k - 1);
      assert IsLine(s, cuts1[k - 1], cuts1[k - 1 + 1]);
      assert k < |cuts2|;
      assert IsLine(s, cuts2[k - 1], cuts2[k - 1 + 1]);
    }
  }

  /** There is only one table of the lines of a context. */
  lemma TablesAreUnique(s: string, line0: nat, offset0: nat, lines1: seq<Line>, lines2: seq<Line>)
    requires IsTableOf(lines1, s, line0, offset0) && IsTableOf(lines2, s, line0, offset0)
    ensures lines1 == lines2
  {
    var cuts1 :| Tabulates(lines1, s, cuts1, line0, offset0) && cuts1[|lines1|] == |s|;
    var cuts2 :| Tabulates(lines2, s, cuts2, line0, offset0) && cuts2[|lines2|] == |s|;
    AllLines(lines1, s, cuts1, line0, offset0);
    AllLines(lines2, s, cuts2, line0, offset0);
    CutsAreUnique(s, cuts1, cuts2, |lines1|);
    CutsAreUnique(s, cuts2, cuts1, |lines2|);
    forall k: nat | k < |lines1|
      ensures lines1[k] == lines2[k]
    {
      CutsAreUnique(s, cuts1, cuts2, k);
      CutsAreUnique(s, cuts1, cuts2, k + 1);
      assert Tabulated(lines1[k], s, cuts1[k], cuts1[k + 1], k, line0, offset0);
      assert Tabulated(lines2[k], s, cuts2[k], cuts2[k + 1], k, line0, offset0);
    }
  }

  lemma AllLines(lines: seq<Line>, s: string, cuts: seq<nat>, line0: nat, offset0: nat)
    requires Tabulates(lines, s, cuts, line0, offset0)
    ensures forall k :: 0 <= k < |cuts| - 1 ==> IsLine(s, cuts[k], cuts[k + 1])
  {
    forall k | 0 <= k < |cuts| - 1
      ensures IsLine(s, cuts[k], cuts[k + 1])
    {
      assert Tabulated(lines[k], s, cuts[k], cuts[k + 1], k, line0, offset0);
    }
  }

  // ---------------------------------------------------------------- spans

  datatype Span = Span(caption: Option<string>, offset: nat, len: nat)

  predicate SpanLineOnly(line: Line, span: Span) {
    span.offset >= line.offset && span.offset + span.len <= line.offset + line.length
  }

  predicate SpanApplies(line: Line, span: Span) {
    var spanLen := if span.len == 0 then 1 else span.len;
    || (span.offset >= line.offset && span.offset < line.offset + line.length)
    || (span.offset < line.offset && span.offset + spanLen > line.offset + line.length)
    || (span.offset + spanLen > line.offset && span.offset + spanLen <= line.offset + line.length)
  }

  predicate SpanFlyby(line: Line, span: Span) {
    span.offset < line.offset && span.offset + span.len > line.offset + line.length
  }

  predicate SpanStarts(line: Line, span: Span) {
    span.offset >= line.offset
  }

  predicate SpanEnds(line: Line, span: Span) {
    span.offset + span.len >= line.offset && span.offset + span.len <= line.offset + line.length
  }

  lemma {:induction false} TilesOrdered(lines: seq<Line>, first: nat, end: nat, j: nat, k: nat)
    requires Tiles(lines, first, end) && j < k < |lines|
    ensures lines[j].End() <= lines[k].offset
    decreases k
  {
    assert lines[k - 1].End() == lines[k].offset;
    if j == k - 1 {
    } else {
      TilesOrdered(lines, first, end, j, k - 1);
    }
  }

  /** The line that holds byte `x`. */
  lemma {:induction false} LineHolding(lines: seq<Line>, first: nat, end: nat, x: nat, upTo: nat) returns (k: nat)
    requires Tiles(lines, first, end) && first <= x && upTo < |lines| && x < lines[upTo].End()
    ensures k <= upTo && lines[k].offset <= x < lines[k].End()
    decreases upTo
  {
    k := upTo;
    if x < lines[upTo].offset {
      assert lines[upTo - 1].End() == lines[upTo].offset;
      k := LineHolding(lines, first, end, x, upTo - 1);
    }
  }

  /** A non-empty span inside the context starts on exactly one line, the one that holds its first
      byte, and ends on exactly one, which holds its last. It applies to these and to the lines
      between them, which are the lines it has a byte in common with; it flies by exactly those
      strictly between, and is drawn on a single line exactly if the two are the same. */
  lemma SpanClassification(lines: seq<Line>, first: nat, end: nat, span: Span) returns (i: nat, j: nat)
    requires Tiles(lines, first, end)
    requires 0 < span.len && first <= span.offset && span.offset + span.len <= end
    ensures i <= j < |lines|
    ensures lines[i].offset <= span.offset < lines[i].End()
    ensures lines[j].offset < span.offset + span.len <= lines[j].End()
    ensures forall k :: 0 <= k < |lines| ==>
      && (SpanApplies(lines[k], span) <==> span.offset < lines[k].End() && lines[k].offset < span.offset + span.len)
      && (SpanApplies(lines[k], span) <==> i <= k <= j)
      && (SpanApplies(lines[k], span) && SpanStarts(lines[k], span) <==> k == i)
      && (SpanApplies(lines[k], span) && SpanEnds(lines[k], span) <==> k == j)
      && (SpanStarts(lines[k], span) <==> k <= i)
      && (SpanEnds(lines[k], span) <==> k == j || (j < k && lines[k].offset == span.offset + span.len))
      && (SpanFlyby(lines[k], span) <==> i < k < j)
      && (SpanLineOnly(lines[k], span) <==> i == k == j)
  {
    i := LineHolding(lines, first, end, span.offset, |lines| - 1);
    j := LineHolding(lines, first, end, span.offset + span.len - 1, |lines| - 1);
    if j < i {
      TilesOrdered(lines, first, end, j, i);
    }
    forall k | 0 <= k < |lines|
      ensures k < i ==> lines[k].End() <= lines[i].offset
      ensures i < k ==> lines[i].End() <= lines[k].offset
      ensures k < j ==> lines[k].End() <= lines[j].offset
      ensures j < k ==> lines[j].End() <= lines[k].offset
    {
      if k < i { TilesOrdered(lines, first, end, k, i); }
      if i < k { TilesOrdered(lines, first, end, i, k); }
      if k < j { TilesOrdered(lines, first, end, k, j); }
      if j < k { TilesOrdered(lines, first, end, j, k); }
    }
  }

  /** An empty span applies to the line that holds its offset, and to no other; at the very end of
      the context it applies to no line at all. On the line it applies to it is drawn as a highlight
      of that single line; no line is flown by. */
  lemma EmptySpanClassification(lines: seq<Line>, first: nat, end: nat, span: Span, k: nat)
    requires Tiles(lines, first, end) && span.len == 0 && k < |lines|
    ensures SpanApplies(lines[k], span) <==> lines[k].offset <= span.offset < lines[k].End()
    ensures span.offset == end ==> !SpanApplies(lines[k], span)
    ensures SpanApplies(lines[k], span) ==>
      SpanLineOnly(lines[k], span) && SpanStarts(lines[k], span) && SpanEnds(lines[k], span)
    ensures SpanLineOnly(lines[k], span) <==> lines[k].offset <= span.offset <= lines[k].End()
    ensures !SpanFlyby(lines[k], span)
  {
    if k < |lines| - 1 {
      TilesOrdered(lines, first, end, k, |lines| - 1);
    }
  }
}
