/** What applying a diff does with any hunk header and any body lines, and when it refuses. */
module DiffLaws {
  import opened Wrappers
  import opened TextLines
  import opened UnifiedDiff
  import opened DiffMerge
  import opened DiffRoundTrip
  import HunkHeader
  import Decimal

  // ----- Headers -----

  /** The parts of a header line: the gaps, the two ranges with their optional counts, and what
      stands behind the second `@@`. */
  datatype Header = Header(gap1: string, old_: Numbers, gap2: string, new_: Numbers, gap3: string, rest: string)

  datatype Numbers = Numbers(first: string, count: Option<string>)

  function NumbersText(n: Numbers): string {
    n.first + if n.count.Some? then "," + n.count.value else ""
  }

  function HeaderText(h: Header): string {
    var end := h.gap3 + ("@@" + h.rest);
    "@@" + (h.gap1 + ("-" + (NumbersText(h.old_) + (h.gap2 + ("+" + (NumbersText(h.new_) + end))))))
  }

  predicate IsNumber(s: string) {
    s != "" && forall i :: 0 <= i < |s| ==> '0' <= s[i] <= '9'
  }

  predicate AreNumbers(n: Numbers) {
    IsNumber(n.first) && (n.count.Some? ==> IsNumber(n.count.value))
  }

  predicate HeaderOk(h: Header) {
    IsGap(h.gap1) && AreNumbers(h.old_) && IsGap(h.gap2) && AreNumbers(h.new_) && IsGap(h.gap3)
  }

  /** A missing count is one line. */
  function RangeOf(n: Numbers): HunkHeader.Range
    requires AreNumbers(n)
  {
    HunkHeader.Range(Decimal.Value(n.first), if n.count.Some? then Decimal.Value(n.count.value) else 1)
  }

  lemma NumberOf(digits: string, rest: string)
    requires IsNumber(digits) && (rest != "" ==> !IsDigit(rest[0]))
    ensures HunkHeader.Number(digits + rest) == Some((Decimal.Value(digits), rest))
  {
    HunkHeader.SpanDigitsExact(digits, rest);
    assert (digits + rest)[..|digits|] == digits && (digits + rest)[|digits|..] == rest;
  }

  lemma RangeIsRead(n: Numbers, gap: string, rest: string)
    requires AreNumbers(n) && IsGap(gap)
    ensures HunkHeader.ParseRange(NumbersText(n) + (gap + rest)) ==
      Some((RangeOf(n), gap + rest))
  {
    hide HunkHeader.Number, Decimal.Value, IsSpace;
    var tail := gap + rest;
    SpaceIsNoDigit(gap[0]);
    if n.count.None? {
      assert NumbersText(n) + tail == n.first + tail;
      NumberOf(n.first, tail);
    } else {
      var count := n.count.value;
      assert NumbersText(n) + tail == n.first + ("," + (count + tail));
      NumberOf(n.first, "," + (count + tail));
      NumberOf(count, tail);
      assert ("," + (count + tail))[1..] == count + tail;
    }
  }

  lemma SpaceIsNoDigit(c: char)
    ensures IsSpace(c) ==> !IsDigit(c) && c != ','
  {
  }

  lemma SignedOf(gap: string, sign: string, n: Numbers, gap': string, rest: string)
    requires IsGap(gap) && (sign == "-" || sign == "+") && AreNumbers(n) && IsGap(gap')
    ensures HunkHeader.SignedRange(gap + (sign + (NumbersText(n) + (gap' + rest))), sign) ==
      Some((RangeOf(n), gap' + rest))
  {
    hide HunkHeader.ParseRange, Decimal.Value, NumbersText, RangeOf, IsSpace, SpanSpaces;
    var t := NumbersText(n) + (gap' + rest);
    SignsAreNoSpace();
    SpanGap(gap, sign + t);
    assert (gap + (sign + t))[|gap|..] == sign + t;
    assert (sign + t)[|sign|..] == t;
    RangeIsRead(n, gap', rest);
  }

  lemma SignsAreNoSpace()
    ensures !IsSpace('-') && !IsSpace('+') && !IsSpace('@')
  {
  }

  /** A line of these parts is a header, whatever stands behind the second `@@`. */
  lemma HeaderMatches(h: Header)
    requires HeaderOk(h)
    ensures HunkHeader.Match(HeaderText(h)) == Some(RangeOf(h.old_))
  {
    hide HunkHeader.SignedRange, Decimal.Value, NumbersText, RangeOf, IsSpace, SpanSpaces;
    var s4 := "@@" + h.rest;
    var s3 := h.gap3 + s4;
    var s2 := h.gap2 + ("+" + (NumbersText(h.new_) + s3));
    var s1 := h.gap1 + ("-" + (NumbersText(h.old_) + s2));
    assert HeaderText(h) == "@@" + s1 && ("@@" + s1)[2..] == s1;
    SignedOf(h.gap1, "-", h.old_, h.gap2, "+" + (NumbersText(h.new_) + s3));
    SignedOf(h.gap2, "+", h.new_, h.gap3, s4);
    SignsAreNoSpace();
    SpanGap(h.gap3, s4);
    assert s3[|h.gap3|..] == s4;
  }

  lemma NumberParts(s: string) returns (digits: string, rest: string)
    requires HunkHeader.Number(s).Some?
    ensures IsNumber(digits) && s == digits + rest && HunkHeader.Number(s) == Some((Decimal.Value(digits), rest))
  {
    var n := HunkHeader.SpanDigits(s);
    digits, rest := s[..n], s[n..];
  }

  lemma RangeParts(s: string) returns (n: Numbers, rest: string)
    requires HunkHeader.ParseRange(s).Some?
    ensures AreNumbers(n) && s == NumbersText(n) + rest
    ensures HunkHeader.ParseRange(s) ==
      Some((RangeOf(n), rest))
  {
    hide HunkHeader.Number, Decimal.Value;
    var first, r1 := NumberParts(s);
    if StartsWith(r1, ",") {
      var count, r2 := NumberParts(r1[1..]);
      n, rest := Numbers(first, Some(count)), r2;
      assert r1 == "," + r1[1..];
      assert s == first + ("," + count) + r2;
    } else {
      n, rest := Numbers(first, None), r1;
      assert first + "" == first;
    }
  }

  lemma SignedParts(s: string, sign: string) returns (gap: string, n: Numbers, rest: string)
    requires HunkHeader.SignedRange(s, sign).Some?
    ensures IsGap(gap) && AreNumbers(n) && s == gap + (sign + (NumbersText(n) + rest))
    ensures HunkHeader.SignedRange(s, sign) ==
      Some((RangeOf(n), rest))
  {
    hide HunkHeader.ParseRange, Decimal.Value, NumbersText, RangeOf, IsSpace, SpanSpaces, AreNumbers;
    var k := SpanSpaces(s);
    SpanIsSpaces(s);
    gap := s[..k];
    var s1 := s[k..];
    assert s == gap + s1;
    var t := s1[|sign|..];
    assert s1 == sign + t;
    n, rest := RangeParts(t);
  }

  /** A line is a header exactly when it is of these parts. */
  lemma HeaderIff(line: string)
    ensures HunkHeader.IsHeader(line) <==> exists h :: HeaderOk(h) && HeaderText(h) == line
  {
    if HunkHeader.IsHeader(line) {
      var h := HeaderParts(line);
    }
    if exists h :: HeaderOk(h) && HeaderText(h) == line {
      hide HunkHeader.Match, HeaderText, HeaderOk;
      var h :| HeaderOk(h) && HeaderText(h) == line;
      HeaderMatches(h);
    }
  }

  lemma HeaderParts(line: string) returns (h: Header)
    requires HunkHeader.IsHeader(line)
    ensures HeaderOk(h) && HeaderText(h) == line
  {
    hide HunkHeader.SignedRange, Decimal.Value, NumbersText, RangeOf, IsSpace, SpanSpaces, AreNumbers;
    var s1 := line[2..];
    assert line == "@@" + s1;
    var gap1, old_, s2 := SignedParts(s1, "-");
    var gap2, new_, s3 := SignedParts(s2, "+");
    var k := SpanSpaces(s3);
    SpanIsSpaces(s3);
    var gap3, s4 := s3[..k], s3[k..];
    assert s3 == gap3 + s4 && s4 == "@@" + s4[2..];
    h := Header(gap1, old_, gap2, new_, gap3, s4[2..]);
  }

  /** Numbers are read as Python reads them. */
  lemma ValueOfDigits(s: string, c: char)
    requires (forall i :: 0 <= i < |s| ==> '0' <= s[i] <= '9') && '0' <= c <= '9'
    ensures Decimal.Value("") == 0 && Decimal.Value(s + [c]) == 10 * Decimal.Value(s) + (c as int - '0' as int)
  {
    var t := s + [c];
    assert t[..|t| - 1] == s;
  }

  // ----- Any diff -----

  /** A body line: those a differ prints, a note such as "\ No newline at end of file", and a line
      without a marker. */
  datatype BodyLine =
    | Context(text: string)
    | Added(text: string)
    | Removed(text: string)
    | Note(text: string)
    | Bare(text: string)

  function BodyText(b: BodyLine): string {
    match b
    case Context(text) => " " + text
    case Added(text) => "+" + text
    case Removed(text) => "-" + text
    case Note(text) => "\\" + text
    case Bare(text) => text
  }

  ghost predicate IsHeaderLine(line: string) {
    exists h :: HeaderOk(h) && HeaderText(h) == line
  }

  ghost predicate BodyLineOk(b: BodyLine) {
    b.Bare? ==> b.text != "" && b.text[0] !in " +-\\" && !IsHeaderLine(b.text)
  }

  /** What a body line is in the new file: a line without a marker is context, and whole. */
  function BodyMeaning(b: BodyLine): seq<string> {
    if b.Removed? || b.Note? then [] else [b.text]
  }

  datatype Block = Block(header: Header, body: seq<BodyLine>)

  function BodyTexts(body: seq<BodyLine>): seq<string> {
    if body == [] then [] else [BodyText(body[0])] + BodyTexts(body[1..])
  }

  function BodyMeanings(body: seq<BodyLine>): seq<string> {
    if body == [] then [] else BodyMeaning(body[0]) + BodyMeanings(body[1..])
  }

  /** The lines of a diff that goes on in blocks, each a header and a body. */
  function BlockLines(blocks: seq<Block>): seq<string> {
    if blocks == [] then [] else
      [HeaderText(blocks[0].header)] + (BodyTexts(blocks[0].body) + BlockLines(blocks[1..]))
  }

  ghost predicate BlockOk(b: Block) {
    HeaderOk(b.header) && forall l :: l in b.body ==> BodyLineOk(l)
  }

  ghost predicate BlocksOk(blocks: seq<Block>) {
    forall b :: b in blocks ==> BlockOk(b)
  }

  ghost function BlockHunk(b: Block): Hunk
    requires BlockOk(b)
  {
    var r := RangeOf(b.header.old_);
    Hunk(r.first - 1, r.count, BodyMeanings(b.body))
  }

  ghost function BlockHunks(blocks: seq<Block>): (hunks: seq<Hunk>)
    requires BlocksOk(blocks)
    ensures |hunks| == |blocks|
  {
    if blocks == [] then [] else [BlockHunk(blocks[0])] + BlockHunks(blocks[1..])
  }

  ghost predicate NoHeaders(lines: seq<string>) {
    forall i :: 0 <= i < |lines| ==> !IsHeaderLine(lines[i])
  }

  lemma BodyLineIsRead(b: BodyLine)
    requires BodyLineOk(b)
    ensures !HunkHeader.IsHeader(BodyText(b))
    ensures ReplacementOf(BodyText(b)) == BodyMeaning(b)
  {
    hide HunkHeader.Match, HeaderText, HeaderOk;
    if b.Bare? {
      HeaderIff(b.text);
    } else {
      FirstCharNotHeader(BodyText(b));
    }
    assert !b.Bare? ==> BodyText(b)[1..] == b.text;
  }

  lemma {:induction false} BodyIsReadBack(body: seq<BodyLine>, rest: seq<string>)
    requires forall l :: l in body ==> BodyLineOk(l)
    requires rest == [] || HunkHeader.IsHeader(rest[0])
    ensures Body(BodyTexts(body) + rest) == BodyTexts(body)
    ensures ParseHunks(BodyTexts(body) + rest) == ParseHunks(rest)
    ensures Replacement(BodyTexts(body)) == BodyMeanings(body)
  {
    hide HunkHeader.Match, ParseHunks, ReplacementOf, BodyMeaning, BodyLineOk, BodyText;
    if body == [] {
      assert BodyTexts(body) + rest == rest;
    } else {
      var line, lines := BodyText(body[0]), BodyTexts(body[1..]);
      BodyIsReadBack(body[1..], rest);
      BodyLineIsRead(body[0]);
      assert BodyTexts(body) + rest == [line] + (lines + rest);
      ReadPastLine(line, lines + rest);
      assert BodyTexts(body)[1..] == lines;
    }
  }

  lemma ParseBlock(b: Block, rest: seq<string>)
    requires BlockOk(b)
    requires rest == [] || HunkHeader.IsHeader(rest[0])
    ensures ParseHunks([HeaderText(b.header)] + (BodyTexts(b.body) + rest)) == [BlockHunk(b)] + ParseHunks(rest)
    ensures HunkHeader.IsHeader(HeaderText(b.header))
  {
    hide HunkHeader.Match, Body, BodyTexts, BodyMeanings, Replacement, HeaderText, HeaderOk, RangeOf, BodyLineOk;
    BodyIsReadBack(b.body, rest);
    HeaderMatches(b.header);
    var lines := [HeaderText(b.header)] + (BodyTexts(b.body) + rest);
    assert lines[1..] == BodyTexts(b.body) + rest;
    assert HunkAt(lines) == BlockHunk(b);
  }

  /** The lines before the first header are passed over, and each block is one hunk. */
  lemma {:induction false} BlocksAreParsed(blocks: seq<Block>)
    requires BlocksOk(blocks)
    ensures ParseHunks(BlockLines(blocks)) == BlockHunks(blocks)
    ensures blocks != [] ==> HunkHeader.IsHeader(BlockLines(blocks)[0])
  {
    hide HunkHeader.Match, ParseHunks, HeaderText, BodyTexts, BlockOk, BlockHunk;
    if blocks == [] {
      ParseNothing();
    } else {
      BlocksAreParsed(blocks[1..]);
      ParseBlock(blocks[0], BlockLines(blocks[1..]));
    }
  }

  lemma DiffIsParsed(before: seq<string>, blocks: seq<Block>)
    requires NoHeaders(before) && BlocksOk(blocks)
    ensures ParseHunks(before + BlockLines(blocks)) == BlockHunks(blocks)
  {
    hide HunkHeader.Match, ParseHunks, IsHeaderLine, BlocksOk, BlockLines, BlockHunks;
    forall i | 0 <= i < |before|
      ensures !HunkHeader.IsHeader(before[i])
    {
      HeaderLineIff(before[i]);
    }
    SkipNonHeaders(before, BlockLines(blocks));
    BlocksAreParsed(blocks);
  }

  lemma HeaderLineIff(line: string)
    ensures HunkHeader.IsHeader(line) <==> IsHeaderLine(line)
  {
    hide HunkHeader.Match, HeaderOk, HeaderText;
    HeaderIff(line);
  }

  lemma BodyLineOf(line: string) returns (b: BodyLine)
    requires line != "" && !IsHeaderLine(line)
    ensures BodyLineOk(b) && BodyText(b) == line
  {
    hide IsHeaderLine;
    var text := line[1..];
    assert line == [line[0]] + text;
    b := match line[0]
      case ' ' => Context(text)
      case '+' => Added(text)
      case '-' => Removed(text)
      case '\\' => Note(text)
      case _ => Bare(line);
  }

  /** Every list of lines is one of these. */
  lemma {:induction false} LinesInBlocks(lines: seq<string>) returns (before: seq<BodyLine>, blocks: seq<Block>)
    requires forall i :: 0 <= i < |lines| ==> lines[i] != ""
    ensures forall b :: b in before ==> BodyLineOk(b)
    ensures NoHeaders(BodyTexts(before)) && BlocksOk(blocks)
    ensures lines == BodyTexts(before) + BlockLines(blocks)
  {
    hide HeaderText, HeaderOk, BodyText, BodyLineOk;
    if lines == [] {
      before, blocks := [], [];
    } else {
      var before', blocks' := LinesInBlocks(lines[1..]);
      if IsHeaderLine(lines[0]) {
        var h :| HeaderOk(h) && HeaderText(h) == lines[0];
        var b := Block(h, before');
        before, blocks := [], [b] + blocks';
        assert lines == [lines[0]] + lines[1..];
        assert blocks[1..] == blocks';
      } else {
        var b := BodyLineOf(lines[0]);
        before, blocks := [b] + before', blocks';
        assert lines == [lines[0]] + lines[1..];
        assert before[1..] == before';
      }
    }
  }

  /** Every diff goes on in blocks behind some lines that are none. */
  lemma EveryDiff(diff: string) returns (before: seq<string>, blocks: seq<Block>)
    ensures NoHeaders(before) && BlocksOk(blocks) && SplitLines(diff) == before + BlockLines(blocks)
  {
    hide SplitLines, BlockLines, NoHeaders, BlocksOk, BodyLineOk;
    SplitNonempty(diff);
    var b, blocks' := LinesInBlocks(SplitLines(diff));
    before, blocks := BodyTexts(b), blocks';
  }

  // ----- When a diff is refused -----

  /** How many lines a hunk takes out of a list of `n`. A range that starts at line 0 is counted from
      the end: it takes the last line, and only when it ends there too. */
  function Taken(h: Hunk, n: int): int {
    if 0 <= h.start || h.count == 0 then h.count
    else if h.End() == n && n > 0 then 1
    else 0
  }

  /** The length of a list of `n` lines once the hunks are applied. */
  function LengthAfter(hunks: seq<Hunk>, n: int): int {
    if hunks == [] then n else
      var m := LengthAfter(hunks[1..], n);
      m - Taken(hunks[0], m) + |hunks[0].lines|
  }

  lemma {:induction false} LengthGrows(hunks: seq<Hunk>, n: int)
    requires forall k :: 0 <= k < |hunks| ==> 0 <= hunks[k].start || hunks[k].count == 0
    ensures LengthAfter(hunks, n) == n + TotalGrowth(hunks)
  {
    if hunks != [] {
      LengthGrows(hunks[1..], n);
    }
  }

  /** Some hunk ends beyond the list it meets. */
  predicate Overruns(hunks: seq<Hunk>, n: int) {
    exists k | 0 <= k < |hunks| :: hunks[k].End() > LengthAfter(hunks[k + 1..], n)
  }

  ghost predicate FromParser(hunks: seq<Hunk>) {
    forall k :: 0 <= k < |hunks| ==> hunks[k].start >= -1
  }

  lemma SpliceLength(lines: seq<string>, h: Hunk)
    requires h.start >= -1
    ensures h.End() > |lines| ==> Splice(lines, h) == Err(OutOfRange)
    ensures h.End() <= |lines| ==>
      (Splice(lines, h).Ok? && |Splice(lines, h).value| == |lines| - Taken(h, |lines|) + |h.lines|)
  {
  }

  lemma OverrunsStep(hunks: seq<Hunk>, n: int)
    requires hunks != []
    ensures Overruns(hunks, n) <==>
      (hunks[0].End() > LengthAfter(hunks[1..], n) || Overruns(hunks[1..], n))
  {
    hide LengthAfter;
    var rest := hunks[1..];
    forall k | 0 <= k < |rest|
      ensures rest[k] == hunks[k + 1] && rest[k + 1..] == hunks[k + 2..]
    {
    }
    if Overruns(hunks, n) {
      var k :| 0 <= k < |hunks| && hunks[k].End() > LengthAfter(hunks[k + 1..], n);
      if k > 0 {
        assert rest[k - 1].End() > LengthAfter(rest[k..], n);
      }
    }
    if Overruns(rest, n) {
      var k :| 0 <= k < |rest| && rest[k].End() > LengthAfter(rest[k + 1..], n);
      assert hunks[k + 1].End() > LengthAfter(hunks[k + 2..], n);
    }
    if hunks[0].End() > LengthAfter(hunks[1..], n) {
      assert hunks[0].End() > LengthAfter(hunks[0 + 1..], n);
    }
  }

  lemma {:induction false} SpliceBackRefuses(lines: seq<string>, hunks: seq<Hunk>)
    requires FromParser(hunks)
    ensures Overruns(hunks, |lines|) ==> SpliceBack(lines, hunks) == Err(OutOfRange)
    ensures !Overruns(hunks, |lines|) ==>
      (SpliceBack(lines, hunks).Ok? && |SpliceBack(lines, hunks).value| == LengthAfter(hunks, |lines|))
  {
    hide Splice, SpliceBack, Overruns, Taken;
    if hunks == [] {
      SpliceBackStep(lines, [], Hunk(0, 0, []));
      NothingOverruns(|lines|);
    } else {
      var rest := hunks[1..];
      SpliceBackRefuses(lines, rest);
      OverrunsStep(hunks, |lines|);
      assert hunks == [hunks[0]] + rest;
      SpliceBackHead(lines, hunks[0], rest);
      if SpliceBack(lines, rest).Ok? {
        SpliceLength(SpliceBack(lines, rest).value, hunks[0]);
      }
    }
  }

  lemma NothingOverruns(n: int)
    ensures !Overruns([], n)
  {
  }

  lemma BlockHunksStart(blocks: seq<Block>)
    requires BlocksOk(blocks)
    ensures FromParser(BlockHunks(blocks))
  {
    hide BlockOk, RangeOf, BodyMeanings;
    if blocks != [] {
      BlockHunksStart(blocks[1..]);
    }
  }

  /** Of any diff: without a header it is refused for that; it is refused for its ranges if and only
      if some hunk ends beyond the list that the later ones leave. */
  lemma RefusedIff(original: string, diff: string, before: seq<string>, blocks: seq<Block>)
    requires NoHeaders(before) && BlocksOk(blocks) && SplitLines(diff) == before + BlockLines(blocks)
    ensures Apply(original, diff) == Err(NoHunks) <==> blocks == []
    ensures Apply(original, diff) == Err(OutOfRange) <==> Overruns(BlockHunks(blocks), |SplitLines(original)|)
  {
    hide SplitLines, NoHeaders, BlocksOk, BlockLines, BlockHunks, FromParser, Overruns, SpliceBack;
    DiffIsParsed(before, blocks);
    BlockHunksStart(blocks);
    SpliceBackRefuses(SplitLines(original), BlockHunks(blocks));
    if blocks == [] {
      assert BlockHunks(blocks) == [];
      NothingOverruns(|SplitLines(original)|);
    }
  }

  /** A diff is taken for none at all if and only if no line of it is a header. */
  lemma NoHunksIff(original: string, diff: string)
    ensures Apply(original, diff) == Err(NoHunks) <==> NoHeaders(SplitLines(diff))
  {
    hide SplitLines, HeaderOk, HeaderText, BlockHunks, Overruns;
    var before, blocks := EveryDiff(diff);
    RefusedIff(original, diff, before, blocks);
    if blocks == [] {
      assert before + [] == before;
    } else {
      var at := SplitLines(diff)[|before|];
      assert at == HeaderText(blocks[0].header);
      assert blocks[0] in blocks;
      assert IsHeaderLine(at);
    }
  }

  /** For ordered, disjoint hunks no list but the original matters, and of the hunks only the last. */
  lemma OrderedRefusedIff(original: string, diff: string, before: seq<string>, blocks: seq<Block>)
    requires NoHeaders(before) && BlocksOk(blocks) && SplitLines(diff) == before + BlockLines(blocks)
    requires blocks != [] && InOrder(BlockHunks(blocks), 0, BlockHunks(blocks)[|blocks| - 1].End())
    ensures var n := |SplitLines(original)|;
      var beyond := BlockHunks(blocks)[|blocks| - 1].End() > n;
      (Apply(original, diff) == Err(OutOfRange) <==> beyond) &&
      (!beyond ==>
        (InOrder(BlockHunks(blocks), 0, n) &&
         Apply(original, diff) == Ok(Join(Merge(SplitLines(original), BlockHunks(blocks), 0)))))
  {
    hide SplitLines, NoHeaders, BlocksOk, BlockLines, InOrder, SpliceBack, Merge, BlockHunks;
    var lines, hunks := SplitLines(original), BlockHunks(blocks);
    var k := |blocks| - 1;
    RefusedIff(original, diff, before, blocks);
    if hunks[k].End() > |lines| {
      assert hunks[k + 1..] == [];
      assert hunks[k].End() > LengthAfter(hunks[k + 1..], |lines|);
    } else {
      InOrderWiden(hunks, 0, hunks[k].End(), |lines|);
      DiffIsParsed(before, blocks);
      SpliceBackIsMerge(lines, hunks);
    }
  }

  /** A diff of one block with any body: its lines take the place of the range its header names. */
  lemma OneBlock(original: string, diff: string, before: seq<string>, b: Block)
    requires NoHeaders(before) && BlockOk(b) && SplitLines(diff) == before + BlockLines([b])
    requires RangeOf(b.header.old_).first > 0
    ensures var lines, r := SplitLines(original), RangeOf(b.header.old_);
      var start := r.first - 1;
      Apply(original, diff) ==
        if start + r.count > |lines| then Err(OutOfRange)
        else Ok(Join(lines[..start] + BodyMeanings(b.body) + lines[start + r.count..]))
  {
    hide SplitLines, NoHeaders, BlockLines, SpliceBack, RangeOf, BodyMeanings, BodyLineOk;
    var lines, r, hunks := SplitLines(original), RangeOf(b.header.old_), BlockHunks([b]);
    assert hunks == [BlockHunk(b)] && hunks[1..] == [];
    assert InOrder(hunks, 0, hunks[0].End());
    OrderedRefusedIff(original, diff, before, [b]);
    if r.first - 1 + r.count <= |lines| {
      assert lines[0..r.first - 1] == lines[..r.first - 1];
    }
  }
}
