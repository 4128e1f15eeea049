/** Edit scripts, the diff printer, and what applying a printed diff gives. */
module DiffRoundTrip {
  import opened Wrappers
  import opened TextLines
  import opened UnifiedDiff
  import opened DiffMerge
  import HunkHeader

  // ----- Edit scripts -----

  datatype Edit = Keep(line: string) | Remove(line: string) | Add(line: string)

  /** Lines left alone, then the edits that one hunk carries. */
  datatype Segment = Segment(gap: seq<string>, edits: seq<Edit>)

  /** What an edit leaves in the old file. */
  function OldPart(e: Edit): seq<string> {
    if e.Add? then [] else [e.line]
  }

  /** What an edit leaves in the new file. */
  function NewPart(e: Edit): seq<string> {
    if e.Remove? then [] else [e.line]
  }

  function OldOf(edits: seq<Edit>): seq<string> {
    if edits == [] then [] else OldPart(edits[0]) + OldOf(edits[1..])
  }

  function NewOf(edits: seq<Edit>): seq<string> {
    if edits == [] then [] else NewPart(edits[0]) + NewOf(edits[1..])
  }

  /** The file before the script, ending in the lines after its last hunk. */
  function OldLines(script: seq<Segment>, tail: seq<string>): seq<string> {
    if script == [] then tail else
      script[0].gap + OldOf(script[0].edits) + OldLines(script[1..], tail)
  }

  /** The file after the script. */
  function NewLines(script: seq<Segment>, tail: seq<string>): seq<string> {
    if script == [] then tail else
      script[0].gap + NewOf(script[0].edits) + NewLines(script[1..], tail)
  }

  ghost predicate LinesOk(script: seq<Segment>, tail: seq<string>) {
    AllLines(tail) &&
    forall k :: 0 <= k < |script| ==>
      AllLines(script[k].gap) && forall e :: e in script[k].edits ==> IsLine(e.line)
  }

  // ----- The printer -----

  function Marked(e: Edit): string {
    match e
    case Keep(line) => " " + line
    case Remove(line) => "-" + line
    case Add(line) => "+" + line
  }

  function BodyOf(edits: seq<Edit>): seq<string> {
    if edits == [] then [] else [Marked(edits[0])] + BodyOf(edits[1..])
  }

  /** The range of `count` lines after the first `before` lines; an empty range is named
      by the line before it. */
  function RangeAfter(before: nat, count: nat): HunkHeader.Range {
    HunkHeader.Range(if count == 0 then before else before + 1, count)
  }

  /** Print the hunks of a script whose segments start after `oldPos` and `newPos` lines. */
  function PrintHunks(script: seq<Segment>, oldPos: nat, newPos: nat, short: bool): seq<string> {
    if script == [] then [] else
      var olds, news := OldOf(script[0].edits), NewOf(script[0].edits);
      var o, n := oldPos + |script[0].gap|, newPos + |script[0].gap|;
      [HunkHeader.Print(RangeAfter(o, |olds|), RangeAfter(n, |news|), short)]
      + (BodyOf(script[0].edits) + PrintHunks(script[1..], o + |olds|, n + |news|, short))
  }

  // ----- Parsing what was printed -----

  lemma FirstCharNotHeader(line: string)
    requires line == "" || line[0] != '@'
    ensures !HunkHeader.IsHeader(line)
  {
  }

  lemma MarkedNotHeader(e: Edit)
    ensures !HunkHeader.IsHeader(Marked(e))
  {
    hide HunkHeader.Match;
    FirstCharNotHeader(Marked(e));
  }

  lemma {:induction false} SkipNonHeaders(lines: seq<string>, rest: seq<string>)
    requires forall i :: 0 <= i < |lines| ==> !HunkHeader.IsHeader(lines[i])
    ensures ParseHunks(lines + rest) == ParseHunks(rest)
  {
    hide HunkHeader.Match;
    if lines == [] {
      assert lines + rest == rest;
    } else {
      assert (lines + rest)[1..] == lines[1..] + rest;
      SkipNonHeaders(lines[1..], rest);
    }
  }

  lemma ReadPastLine(line: string, rest: seq<string>)
    requires !HunkHeader.IsHeader(line)
    ensures Body([line] + rest) == [line] + Body(rest)
    ensures ParseHunks([line] + rest) == ParseHunks(rest)
  {
    hide HunkHeader.Match;
    assert ([line] + rest)[1..] == rest;
  }

  lemma {:induction false} BodyIsRead(edits: seq<Edit>, rest: seq<string>)
    requires rest == [] || HunkHeader.IsHeader(rest[0])
    ensures Body(BodyOf(edits) + rest) == BodyOf(edits)
    ensures ParseHunks(BodyOf(edits) + rest) == ParseHunks(rest)
  {
    hide HunkHeader.Match;
    hide ParseHunks;
    if edits == [] {
      assert BodyOf(edits) + rest == rest;
    } else {
      BodyIsRead(edits[1..], rest);
      MarkedNotHeader(edits[0]);
      assert BodyOf(edits) + rest == [Marked(edits[0])] + (BodyOf(edits[1..]) + rest);
      ReadPastLine(Marked(edits[0]), BodyOf(edits[1..]) + rest);
    }
  }

  lemma {:induction false} ReplacementOfBody(edits: seq<Edit>)
    ensures Replacement(BodyOf(edits)) == NewOf(edits)
  {
    if edits != [] {
      ReplacementOfBody(edits[1..]);
      assert BodyOf(edits)[1..] == BodyOf(edits[1..]);
      assert Marked(edits[0])[1..] == edits[0].line;
    }
  }

  /** A hunk that only inserts has an empty old range. */
  predicate InsertsOnly(s: Segment) {
    OldOf(s.edits) == []
  }

  function HunkOf(s: Segment, pos: nat): Hunk {
    var o := pos + |s.gap|;
    Hunk(if InsertsOnly(s) then o - 1 else o, |OldOf(s.edits)|, NewOf(s.edits))
  }

  /** The hunks of a script in the code's coordinates. */
  function HunksOf(script: seq<Segment>, pos: nat): seq<Hunk> {
    if script == [] then [] else
      [HunkOf(script[0], pos)]
      + HunksOf(script[1..], pos + |script[0].gap| + |OldOf(script[0].edits)|)
  }

  lemma ParseOneHunk(header: string, r: HunkHeader.Range, edits: seq<Edit>, rest: seq<string>)
    requires HunkHeader.Match(header) == Some(r)
    requires rest == [] || HunkHeader.IsHeader(rest[0])
    ensures ParseHunks([header] + (BodyOf(edits) + rest))
      == [Hunk(r.first - 1, r.count, NewOf(edits))] + ParseHunks(rest)
  {
    hide HunkHeader.Match;
    hide Body;
    hide BodyOf;
    hide Replacement;
    var lines := [header] + (BodyOf(edits) + rest);
    assert lines[1..] == BodyOf(edits) + rest;
    BodyIsRead(edits, rest);
    ReplacementOfBody(edits);
    assert HunkAt(lines) == Hunk(r.first - 1, r.count, NewOf(edits));
  }

  lemma {:induction false} ParseOfPrint(script: seq<Segment>, oldPos: nat, newPos: nat, short: bool)
    ensures var lines := PrintHunks(script, oldPos, newPos, short);
      ParseHunks(lines) == HunksOf(script, oldPos) &&
      (script != [] ==> lines != [] && HunkHeader.IsHeader(lines[0]))
  {
    hide HunkHeader.Match, HunkHeader.Print, ParseHunks, OldOf, NewOf, BodyOf;
    if script == [] {
      assert ParseHunks([]) == [] by {
        ParseNothing();
      }
    } else {
      var edits := script[0].edits;
      var olds, news := OldOf(edits), NewOf(edits);
      var o, n := oldPos + |script[0].gap|, newPos + |script[0].gap|;
      var rest := PrintHunks(script[1..], o + |olds|, n + |news|, short);
      ParseOfPrint(script[1..], o + |olds|, n + |news|, short);
      HunkHeader.MatchOfPrint(RangeAfter(o, |olds|), RangeAfter(n, |news|), short);
      var header := HunkHeader.Print(RangeAfter(o, |olds|), RangeAfter(n, |news|), short);
      ParseOneHunk(header, RangeAfter(o, |olds|), edits, rest);
    }
  }

  lemma ParseNothing()
    ensures ParseHunks([]) == []
  {
  }

  lemma {:induction false} BodyLines(edits: seq<Edit>)
    requires forall e :: e in edits ==> IsLine(e.line)
    ensures AllLines(BodyOf(edits))
  {
    if edits != [] {
      BodyLines(edits[1..]);
      var line := Marked(edits[0]);
      assert line[1..] == edits[0].line;
      assert !IsBreak(line[0]);
    }
  }

  lemma {:induction false} PrintedLines(script: seq<Segment>, tail: seq<string>, oldPos: nat, newPos: nat, short: bool)
    requires LinesOk(script, tail)
    ensures AllLines(PrintHunks(script, oldPos, newPos, short))
  {
    hide HunkHeader.Print;
    hide IsLine;
    if script != [] {
      var olds, news := OldOf(script[0].edits), NewOf(script[0].edits);
      var o, n := oldPos + |script[0].gap|, newPos + |script[0].gap|;
      PrintedLines(script[1..], tail, o + |olds|, n + |news|, short);
      BodyLines(script[0].edits);
      HunkHeader.PrintIsLine(RangeAfter(o, |olds|), RangeAfter(n, |news|), short);
    }
  }

  // ----- What the code makes of a script -----

  /** The start of a hunk at the top becomes -1, which Python counts from the end: the lines go
      before the last line there is. */
  function BeforeLast(news: seq<string>, lines: seq<string>): seq<string> {
    if lines == [] then news else lines[..|lines| - 1] + news + [lines[|lines| - 1]]
  }

  /** What a list becomes from the start of a segment on, and the lines that go before the last line
      ahead of it: an insertion right behind an earlier hunk reaches back into that hunk's range. */
  datatype Carry = Carry(back: seq<string>, lines: seq<string>)

  /** What the code makes of a script that starts behind old lines, or, with `top`, behind none. */
  function PatchFrom(script: seq<Segment>, tail: seq<string>, top: bool): Carry {
    if script == [] then Carry([], tail)
    else
      var s := script[0];
      PatchSegment(s, top, PatchFrom(script[1..], tail, top && s.gap == [] && InsertsOnly(s)))
  }

  /** One more segment in front. An insertion goes before the old line it should follow; a range
      with old lines takes the first line that was put there in place of its last. */
  function PatchSegment(s: Segment, top: bool, c: Carry): Carry {
    var olds, news := OldOf(s.edits), NewOf(s.edits);
    if olds != [] then Carry([], s.gap + (news + ((c.back + [olds[|olds| - 1]])[1..] + c.lines)))
    else if s.gap != [] then
      var g := |s.gap| - 1;
      Carry([], s.gap[..g] + (news + (c.back + ([s.gap[g]] + c.lines))))
    else if top then Carry([], BeforeLast(news, c.lines))
    else Carry(news + c.back, c.lines)
  }

  function Patched(script: seq<Segment>, tail: seq<string>): seq<string> {
    PatchFrom(script, tail, true).lines
  }

  lemma {:induction false} NothingBack(script: seq<Segment>, tail: seq<string>)
    ensures PatchFrom(script, tail, true).back == []
  {
    hide OldOf, NewOf, BeforeLast;
    if script != [] && script[0].gap == [] && InsertsOnly(script[0]) {
      NothingBack(script[1..], tail);
    }
  }

  lemma SpliceAtTop(lines: seq<string>, news: seq<string>)
    ensures Splice(lines, Hunk(-1, 0, news)) == Ok(BeforeLast(news, lines))
  {
    if lines == [] {
      assert lines[..0] == [] && lines[0..] == [];
      assert [] + (news + []) == news;
    } else {
      var n := |lines| - 1;
      assert lines[n..] == [lines[n]];
      assert lines[..n] + (news + lines[n..]) == lines[..n] + news + lines[n..];
    }
  }

  lemma SpliceBackStep(lines: seq<string>, hunks: seq<Hunk>, h: Hunk)
    ensures SpliceBack(lines, hunks + [h]) ==
      if Splice(lines, h).Err? then Err(Splice(lines, h).error) else SpliceBack(Splice(lines, h).value, hunks)
    ensures SpliceBack(lines, []) == Ok(lines)
  {
    assert (hunks + [h])[..|hunks|] == hunks;
  }

  lemma {:induction false} SpliceBackHead(lines: seq<string>, h: Hunk, hunks: seq<Hunk>)
    ensures SpliceBack(lines, [h] + hunks) ==
      if SpliceBack(lines, hunks).Err? then Err(SpliceBack(lines, hunks).error)
        else Splice(SpliceBack(lines, hunks).value, h)
    decreases |hunks|
  {
    hide Splice, SpliceBack;
    if hunks == [] {
      SpliceBackStep(lines, [], h);
      assert [h] + hunks == [] + [h];
      if Splice(lines, h).Ok? {
        SpliceBackStep(Splice(lines, h).value, [], h);
      }
    } else {
      var init, last := hunks[..|hunks| - 1], hunks[|hunks| - 1];
      assert hunks == init + [last] && [h] + hunks == ([h] + init) + [last];
      SpliceBackStep(lines, init, last);
      SpliceBackStep(lines, [h] + init, last);
      if Splice(lines, last).Ok? {
        SpliceBackHead(Splice(lines, last).value, h, init);
      }
    }
  }

  /** The list once the hunks from some segment on are applied: `before` is what the old file has
      ahead of it. */
  function Carried(before: seq<string>, c: Carry): seq<string> {
    if before == [] then c.lines else BeforeLast(c.back, before) + c.lines
  }

  lemma SpliceOld(before: seq<string>, gap: seq<string>, olds: seq<string>, news: seq<string>, c: Carry)
    requires olds != []
    ensures var o := |before| + |gap|;
      Splice(Carried(before + gap + olds, c), Hunk(o, |olds|, news))
      == Ok(before + (gap + (news + ((c.back + [olds[|olds| - 1]])[1..] + c.lines))))
  {
    var x := |olds| - 1;
    var head, mid := before + gap, c.back + [olds[x]];
    var all := head + olds[..x] + mid + c.lines;
    assert (before + gap + olds)[..|before + gap + olds| - 1] == head + olds[..x];
    assert Carried(before + gap + olds, c) == all;
    assert all[..|head|] == head;
    assert mid == [mid[0]] + mid[1..];
    assert all == (head + olds[..x] + [mid[0]]) + (mid[1..] + c.lines);
    assert |head + olds[..x] + [mid[0]]| == |head| + |olds|;
    assert all[|head| + |olds|..] == mid[1..] + c.lines;
    assert head + (news + (mid[1..] + c.lines)) == before + (gap + (news + (mid[1..] + c.lines)));
  }

  lemma SpliceGap(before: seq<string>, gap: seq<string>, news: seq<string>, c: Carry)
    requires gap != []
    ensures var o, g := |before| + |gap|, |gap| - 1;
      Splice(Carried(before + gap, c), Hunk(o - 1, 0, news))
      == Ok(before + (gap[..g] + (news + (c.back + ([gap[g]] + c.lines)))))
  {
    var g := |gap| - 1;
    var head, rest := before + gap[..g], c.back + ([gap[g]] + c.lines);
    assert (before + gap)[..|before + gap| - 1] == head;
    assert Carried(before + gap, c) == head + rest;
    assert (head + rest)[..|head|] == head && (head + rest)[|head|..] == rest;
    assert head + (news + rest) == before + (gap[..g] + (news + rest));
  }

  lemma SpliceBehind(before: seq<string>, news: seq<string>, c: Carry)
    requires before != []
    ensures Splice(Carried(before, c), Hunk(|before| - 1, 0, news))
      == Ok(Carried(before, Carry(news + c.back, c.lines)))
  {
    var b := |before| - 1;
    var head, rest := before[..b], c.back + ([before[b]] + c.lines);
    assert Carried(before, c) == head + rest;
    assert (head + rest)[..b] == head && (head + rest)[b..] == rest;
    assert head + (news + rest) == head + (news + c.back) + [before[b]] + c.lines;
  }

  lemma {:induction false} SpliceScript(before: seq<string>, script: seq<Segment>, tail: seq<string>)
    ensures SpliceBack(before + OldLines(script, tail), HunksOf(script, |before|))
      == Ok(Carried(before, PatchFrom(script, tail, before == [])))
    decreases |script|
  {
    hide OldOf, NewOf, SpliceBack, Splice, BeforeLast;
    if script == [] {
      NoHunks(before + tail);
      CarriedNothing(before, tail);
    } else {
      var s := script[0];
      var olds, news := OldOf(s.edits), NewOf(s.edits);
      var before' := before + s.gap + olds;
      var c := PatchFrom(script[1..], tail, before' == []);
      assert before + OldLines(script, tail) == before' + OldLines(script[1..], tail);
      SpliceScript(before', script[1..], tail);
      SpliceBackHead(before + OldLines(script, tail), HunkOf(s, |before|), HunksOf(script[1..], |before'|));
      SpliceSegment(before, s, c);
    }
  }

  lemma SpliceSegment(before: seq<string>, s: Segment, c: Carry)
    ensures Splice(Carried(before + s.gap + OldOf(s.edits), c), HunkOf(s, |before|))
      == Ok(Carried(before, PatchSegment(s, before == [], c)))
  {
    hide OldOf, NewOf, Splice, BeforeLast;
    var olds, news := OldOf(s.edits), NewOf(s.edits);
    if olds != [] {
      SpliceOld(before, s.gap, olds, news, c);
      CarriedNothing(before, PatchSegment(s, before == [], c).lines);
    } else if s.gap != [] {
      assert before + s.gap + olds == before + s.gap;
      SpliceGap(before, s.gap, news, c);
      CarriedNothing(before, PatchSegment(s, before == [], c).lines);
    } else {
      assert before + s.gap + olds == before;
      if before == [] {
        SpliceAtTop(c.lines, news);
      } else {
        SpliceBehind(before, news, c);
      }
    }
  }

  lemma CarriedNothing(before: seq<string>, lines: seq<string>)
    ensures Carried(before, Carry([], lines)) == before + lines
  {
    if before == [] {
      assert [] + lines == lines;
    } else {
      BeforeLastNothing(before);
    }
  }

  lemma BeforeLastNothing(lines: seq<string>)
    ensures BeforeLast([], lines) == lines
  {
  }

  lemma NoHunks(lines: seq<string>)
    ensures SpliceBack(lines, []) == Ok(lines)
  {
  }

  lemma {:induction false} LinesOfScript(script: seq<Segment>, tail: seq<string>)
    requires LinesOk(script, tail)
    ensures AllLines(OldLines(script, tail)) && AllLines(NewLines(script, tail))
  {
    hide IsLine;
    if script != [] {
      LinesOfScript(script[1..], tail);
      LinesOfEdits(script[0].edits);
    }
  }

  lemma {:induction false} LinesOfEdits(edits: seq<Edit>)
    requires forall e :: e in edits ==> IsLine(e.line)
    ensures AllLines(OldOf(edits)) && AllLines(NewOf(edits))
  {
    hide IsLine;
    if edits != [] {
      LinesOfEdits(edits[1..]);
    }
  }

  /** The text of a diff: lines that are no headers, such as the file names, then the hunks. */
  function DiffText(preamble: seq<string>, script: seq<Segment>, short: bool): string {
    Join(preamble + PrintHunks(script, 0, 0, short))
  }

  ghost predicate IsPreamble(lines: seq<string>) {
    AllLines(lines) && forall i :: 0 <= i < |lines| ==> !HunkHeader.IsHeader(lines[i])
  }

  /** Applying a printed diff, for every script. */
  lemma ApplyPrinted(preamble: seq<string>, script: seq<Segment>, tail: seq<string>, short: bool)
    requires IsPreamble(preamble) && LinesOk(script, tail) && script != []
    ensures Apply(Join(OldLines(script, tail)), DiffText(preamble, script, short))
      == Ok(Join(Patched(script, tail)))
  {
    hide HunkHeader.Match, PatchFrom, SpliceBack, ParseHunks, Join, SplitLines;
    var original, hunks := OldLines(script, tail), HunksOf(script, 0);
    var printed := PrintHunks(script, 0, 0, short);
    PrintedLines(script, tail, 0, 0, short);
    SplitOfJoin(preamble + printed);
    SkipNonHeaders(preamble, printed);
    ParseOfPrint(script, 0, 0, short);
    LinesOfScript(script, tail);
    SplitOfJoin(original);
    SpliceScript([], script, tail);
    assert [] + original == original;
  }

  // ----- When that is right -----

  predicate AllEqual(lines: seq<string>, line: string) {
    forall i :: 0 <= i < |lines| ==> lines[i] == line
  }

  lemma {:induction false} CommutesOnlyIfRepeats(news: seq<string>, line: string)
    requires news + [line] == [line] + news
    ensures forall i :: 0 <= i < |news| ==> news[i] == line
  {
    if news != [] {
      assert news[0] == (news + [line])[0] == line;
      assert news[1..] + [line] == (news + [line])[1..] == news;
      assert [line] + news[1..] == news;
      CommutesOnlyIfRepeats(news[1..], line);
      assert news == [news[0]] + news[1..];
    }
  }

  /** Every line an insert-only hunk adds equals the old line before it; `last` is the old line
      before the script. */
  ghost predicate Repeats(script: seq<Segment>, last: string)
    decreases |script|
  {
    script == [] ||
    var s := script[0];
    var olds := [last] + s.gap + OldOf(s.edits);
    && (InsertsOnly(s) ==> AllEqual(NewOf(s.edits), olds[|olds| - 1]))
    && Repeats(script[1..], olds[|olds| - 1])
  }

  /** What is carried back is the start of what is meant, and the whole is right exactly when the
      insertions repeat the lines before them. */
  ghost predicate CarryExact(script: seq<Segment>, tail: seq<string>, last: string) {
    var c, meant := PatchFrom(script, tail, false), NewLines(script, tail);
    && |meant| == |c.back| + |c.lines| && meant[..|c.back|] == c.back
    && (Repeats(script, last) <==> AllEqual(c.back, last) && c.lines == meant[|c.back|..])
  }

  lemma ExactBehindOld(gap: seq<string>, news: seq<string>, old_: string, c: Carry, meant: seq<string>)
    requires |meant| == |c.back| + |c.lines| && meant[..|c.back|] == c.back
    ensures var lines := gap + (news + ((c.back + [old_])[1..] + c.lines));
      |lines| == |gap + news + meant| &&
      (lines == gap + news + meant <==> AllEqual(c.back, old_) && c.lines == meant[|c.back|..])
  {
    var moved := (c.back + [old_])[1..];
    assert meant == c.back + meant[|c.back|..];
    SamePrefix(gap, news + (moved + c.lines), news + meant);
    SamePrefix(news, moved + c.lines, meant);
    assert gap + news + meant == gap + (news + meant);
    SameHalves(moved, c.lines, c.back, meant[|c.back|..]);
    if moved == c.back {
      ShiftedIsEqual(c.back, old_);
    }
    if AllEqual(c.back, old_) {
      assert moved == c.back;
    }
  }

  lemma ExactBehindGap(gap: seq<string>, news: seq<string>, c: Carry, meant: seq<string>)
    requires gap != [] && |meant| == |c.back| + |c.lines| && meant[..|c.back|] == c.back
    ensures var g := |gap| - 1;
      var lines := gap[..g] + (news + (c.back + ([gap[g]] + c.lines)));
      |lines| == |gap + news + meant| &&
      (lines == gap + news + meant <==>
        AllEqual(news, gap[g]) && AllEqual(c.back, gap[g]) && c.lines == meant[|c.back|..])
  {
    hide AllEqual;
    var g := |gap| - 1;
    var added, line := news + c.back, [gap[g]];
    var rest := meant[|c.back|..];
    assert meant == c.back + rest;
    assert gap == gap[..g] + line;
    assert gap[..g] + (news + (c.back + (line + c.lines))) == gap[..g] + ((added + line) + c.lines);
    assert gap + news + meant == gap[..g] + ((line + added) + rest);
    SamePrefix(gap[..g], (added + line) + c.lines, (line + added) + rest);
    SameHalves(added + line, c.lines, line + added, rest);
    CommutesIffEqual(added, gap[g]);
    AllEqualAppend(news, c.back, gap[g]);
  }

  lemma CommutesIffEqual(lines: seq<string>, line: string)
    ensures lines + [line] == [line] + lines <==> AllEqual(lines, line)
  {
    if lines + [line] == [line] + lines {
      CommutesOnlyIfRepeats(lines, line);
    }
  }

  lemma AllEqualAppend(a: seq<string>, b: seq<string>, line: string)
    ensures AllEqual(a + b, line) <==> AllEqual(a, line) && AllEqual(b, line)
  {
    assert forall i :: 0 <= i < |a| ==> (a + b)[i] == a[i];
    assert forall i :: 0 <= i < |b| ==> (a + b)[|a| + i] == b[i];
    assert forall i :: |a| <= i < |a + b| ==> (a + b)[i] == b[i - |a|];
  }

  lemma ShiftedIsEqual(lines: seq<string>, last: string)
    requires (lines + [last])[1..] == lines
    ensures AllEqual(lines, last)
  {
    var n := |lines|;
    forall i | 0 <= i < n ensures lines[i] == last {
      ShiftedFrom(lines, last, i);
    }
  }

  lemma {:induction false} ShiftedFrom(lines: seq<string>, last: string, i: nat)
    requires (lines + [last])[1..] == lines && i < |lines|
    ensures lines[i] == last
    decreases |lines| - i
  {
    assert lines[i] == (lines + [last])[1..][i] == (lines + [last])[i + 1];
    if i + 1 < |lines| {
      ShiftedFrom(lines, last, i + 1);
    }
  }

  lemma SamePrefix<T>(a: seq<T>, x: seq<T>, y: seq<T>)
    ensures a + x == a + y <==> x == y
  {
    if a + x == a + y {
      assert x == (a + x)[|a|..] == (a + y)[|a|..] == y;
    }
  }

  lemma SameHalves<T>(a: seq<T>, b: seq<T>, x: seq<T>, y: seq<T>)
    requires |a| == |x|
    ensures a + b == x + y <==> a == x && b == y
  {
    if a + b == x + y {
      assert a == (a + b)[..|a|] == (x + y)[..|a|] == x;
      assert b == (a + b)[|a|..] == (x + y)[|a|..] == y;
    }
  }

  lemma {:induction false} CarryIsExact(script: seq<Segment>, tail: seq<string>, last: string)
    ensures CarryExact(script, tail, last)
    decreases |script|
  {
    hide OldOf, NewOf, AllEqual;
    if script == [] {
      assert AllEqual([], last) by {
        NothingDiffers(last);
      }
    } else {
      var s := script[0];
      var olds, news, gap := OldOf(s.edits), NewOf(s.edits), s.gap;
      var c, meant := PatchFrom(script[1..], tail, false), NewLines(script[1..], tail);
      var before := [last] + gap + olds;
      var line := before[|before| - 1];
      CarryIsExact(script[1..], tail, line);
      NothingDiffers(last);
      if olds != [] {
        assert line == olds[|olds| - 1];
        ExactBehindOld(gap, news, line, c, meant);
      } else if gap != [] {
        assert line == gap[|gap| - 1];
        ExactBehindGap(gap, news, c, meant);
      } else {
        assert before == [last];
        ExactBehindNothing(news, c, meant, last);
        assert gap + news + meant == news + meant;
      }
    }
  }

  lemma NothingDiffers(line: string)
    ensures AllEqual([], line)
  {
  }

  lemma ExactBehindNothing(news: seq<string>, c: Carry, meant: seq<string>, last: string)
    requires |meant| == |c.back| + |c.lines| && meant[..|c.back|] == c.back
    ensures var back := news + c.back;
      && (news + meant)[..|back|] == back && (news + meant)[|back|..] == meant[|c.back|..]
      && (AllEqual(back, last) <==> AllEqual(news, last) && AllEqual(c.back, last))
  {
    hide AllEqual;
    var back := news + c.back;
    assert meant == c.back + meant[|c.back|..];
    assert news + meant == back + meant[|c.back|..];
    AllEqualAppend(news, c.back, last);
  }

  /** If hunk `k` only inserts, its lines equal the old line before it; `before` are the old lines
      ahead of the script. */
  ghost predicate RepeatsAt(before: seq<string>, script: seq<Segment>, k: nat)
    requires k < |script|
  {
    var olds := before + OldLines(script[..k], script[k].gap);
    InsertsOnly(script[k]) && olds != [] ==> AllEqual(NewOf(script[k].edits), olds[|olds| - 1])
  }

  ghost predicate RepeatsAnchor(script: seq<Segment>, k: nat)
    requires k < |script|
  {
    RepeatsAt([], script, k)
  }

  lemma RepeatsAtNext(before: seq<string>, script: seq<Segment>, k: nat)
    requires 0 < k < |script|
    ensures RepeatsAt(before, script, k)
      <==> RepeatsAt(before + script[0].gap + OldOf(script[0].edits), script[1..], k - 1)
  {
    hide OldOf, NewOf, AllEqual;
    var s, gap := script[0], script[k].gap;
    assert script[1..][k - 1] == script[k];
    assert script[..k][0] == s && script[..k][1..] == script[1..][..k - 1];
    assert before + OldLines(script[..k], gap)
      == (before + s.gap + OldOf(s.edits)) + OldLines(script[1..][..k - 1], gap);
  }

  lemma {:induction false} RepeatsFrom(before: seq<string>, script: seq<Segment>)
    requires before != []
    ensures Repeats(script, before[|before| - 1]) <==> forall k :: 0 <= k < |script| ==> RepeatsAt(before, script, k)
    decreases |script|
  {
    hide OldOf, NewOf, AllEqual, RepeatsAt;
    if script != [] {
      var s := script[0];
      var before' := before + s.gap + OldOf(s.edits);
      RepeatsFrom(before', script[1..]);
      assert before'[|before'| - 1] == ([before[|before| - 1]] + s.gap + OldOf(s.edits))[|s.gap| + |OldOf(s.edits)|];
      FirstRepeats(before, script);
      forall k | 0 < k < |script| ensures RepeatsAt(before, script, k) <==> RepeatsAt(before', script[1..], k - 1) {
        RepeatsAtNext(before, script, k);
      }
      assert forall k :: 0 <= k < |script[1..]| ==>
        (RepeatsAt(before', script[1..], k) <==> RepeatsAt(before, script, k + 1));
    }
  }

  lemma FirstRepeats(before: seq<string>, script: seq<Segment>)
    requires before != [] && script != []
    ensures var s := script[0];
      var olds := [before[|before| - 1]] + s.gap + OldOf(s.edits);
      RepeatsAt(before, script, 0) <==> (InsertsOnly(s) ==> AllEqual(NewOf(s.edits), olds[|olds| - 1]))
  {
    hide OldOf, NewOf, AllEqual;
    var s := script[0];
    assert script[..0] == [] && OldLines([], s.gap) == s.gap;
    var all := before + s.gap;
    assert all[|all| - 1] == ([before[|before| - 1]] + s.gap)[|s.gap|];
  }

  lemma RepeatsEach(script: seq<Segment>, last: string)
    requires !AtTop(script)
    ensures Repeats(script, last) <==> forall k :: 0 <= k < |script| ==> RepeatsAnchor(script, k)
  {
    hide OldOf, NewOf, AllEqual, Repeats;
    RepeatsFrom([last], script);
    forall k | 0 <= k < |script| ensures RepeatsAt([last], script, k) <==> RepeatsAnchor(script, k) {
      if InsertsOnly(script[k]) {
        OldLinesBefore(script, k);
      }
      var olds := OldLines(script[..k], script[k].gap);
      assert [] + olds == olds;
      assert olds != [] ==> ([last] + olds)[|olds|] == olds[|olds| - 1];
    }
  }

  lemma OldLinesBefore(script: seq<Segment>, k: nat)
    requires !AtTop(script) && k < |script| && InsertsOnly(script[k])
    ensures OldLines(script[..k], script[k].gap) != []
  {
    if k == 0 {
      assert script[..0] == [];
    } else {
      assert script[..k][0] == script[0];
    }
  }

  /** The first hunk inserts before the first line: its header is `@@ -0,0 ... @@`. */
  predicate AtTop(script: seq<Segment>) {
    script != [] && InsertsOnly(script[0]) && script[0].gap == []
  }

  /** For an insertion at the top: with the last line taken off, what the rest of the script is
      patched to, then the inserted lines, is the inserted lines, then what the rest is meant to
      be; and the last lines agree. */
  predicate TopFits(script: seq<Segment>, tail: seq<string>)
    requires AtTop(script)
  {
    var news, patched, meant := NewOf(script[0].edits), Patched(script[1..], tail), NewLines(script[1..], tail);
    |patched| == |meant| && (meant == [] ||
      (patched[|meant| - 1] == meant[|meant| - 1] && patched[..|meant| - 1] + news == news + meant[..|meant| - 1]))
  }

  lemma BeforeLastFits(news: seq<string>, patched: seq<string>, meant: seq<string>)
    requires |patched| == |meant|
    ensures BeforeLast(news, patched) == news + meant <==>
      meant == [] ||
      (patched[|meant| - 1] == meant[|meant| - 1] && patched[..|meant| - 1] + news == news + meant[..|meant| - 1])
  {
    if meant != [] {
      var n := |meant| - 1;
      assert meant == meant[..n] + [meant[n]];
      assert news + meant == (news + meant[..n]) + [meant[n]];
      var a, b := patched[..n] + news, news + meant[..n];
      assert (a + [patched[n]])[..|a|] == a && (b + [meant[n]])[..|b|] == b;
      assert (a + [patched[n]])[|a|] == patched[n] && (b + [meant[n]])[|b|] == meant[n];
    }
  }

  lemma {:induction false} TopMakesNoDifference(script: seq<Segment>, tail: seq<string>)
    requires !AtTop(script)
    ensures PatchFrom(script, tail, true) == PatchFrom(script, tail, false)
    ensures PatchFrom(script, tail, true).back == []
  {
    hide OldOf, NewOf;
  }

  lemma {:induction false} PatchedLength(script: seq<Segment>, tail: seq<string>)
    ensures |Patched(script, tail)| == |NewLines(script, tail)|
    decreases |script|
  {
    hide OldOf, NewOf;
    if AtTop(script) {
      PatchedLength(script[1..], tail);
      NothingBack(script[1..], tail);
    } else {
      TopMakesNoDifference(script, tail);
      CarryIsExact(script, tail, "");
    }
  }

  lemma PatchedExact(script: seq<Segment>, tail: seq<string>)
    requires script != []
    ensures Patched(script, tail) == NewLines(script, tail) <==>
      if AtTop(script) then TopFits(script, tail) else forall k :: 0 <= k < |script| ==> RepeatsAnchor(script, k)
  {
    hide OldOf, NewOf, BeforeLast, RepeatsAnchor, AllEqual;
    if AtTop(script) {
      TopExact(script, tail);
    } else {
      TopMakesNoDifference(script, tail);
      CarryIsExact(script, tail, "");
      NothingDiffers("");
      RepeatsEach(script, "");
    }
  }

  lemma TopExact(script: seq<Segment>, tail: seq<string>)
    requires AtTop(script)
    ensures Patched(script, tail) == NewLines(script, tail) <==> TopFits(script, tail)
  {
    hide BeforeLast, OldOf, NewOf;
    var news, patched, meant := NewOf(script[0].edits), Patched(script[1..], tail), NewLines(script[1..], tail);
    PatchedLength(script[1..], tail);
    BeforeLastFits(news, patched, meant);
    assert NewLines(script, tail) == [] + news + meant == news + meant;
  }

  lemma LinesOfPatch(script: seq<Segment>, tail: seq<string>)
    requires LinesOk(script, tail)
    ensures AllLines(Patched(script, tail))
  {
    LinesOfCarry(script, tail, true);
  }

  lemma {:induction false} LinesOfCarry(script: seq<Segment>, tail: seq<string>, top: bool)
    requires LinesOk(script, tail)
    ensures AllLines(PatchFrom(script, tail, top).back) && AllLines(PatchFrom(script, tail, top).lines)
    decreases |script|
  {
    hide AllLines, OldOf, NewOf, PatchSegment;
    if script != [] {
      var s := script[0];
      var top' := top && s.gap == [] && InsertsOnly(s);
      LinesOfCarry(script[1..], tail, top');
      LinesOfEdits(s.edits);
      LinesOfSegment(s, top, PatchFrom(script[1..], tail, top'));
    } else {
      NoLinesAtAll();
    }
  }

  lemma NoLinesAtAll()
    ensures AllLines([])
  {
  }

  lemma LinesOfSegment(s: Segment, top: bool, c: Carry)
    requires AllLines(s.gap) && AllLines(OldOf(s.edits)) && AllLines(NewOf(s.edits)) && AllLines(c.back) &&
      AllLines(c.lines)
    ensures AllLines(PatchSegment(s, top, c).back) && AllLines(PatchSegment(s, top, c).lines)
  {
    hide IsLine, OldOf, NewOf;
  }

  /** When a printed diff patches correctly: exactly when no insert-only hunk adds a line that
      differs from the old line before it; for a diff that inserts at the top, exactly when it
      fits there. */
  lemma PatchIsExactIff(preamble: seq<string>, script: seq<Segment>, tail: seq<string>, short: bool)
    requires IsPreamble(preamble) && LinesOk(script, tail) && script != []
    ensures Apply(Join(OldLines(script, tail)), DiffText(preamble, script, short))
        == Ok(Join(NewLines(script, tail)))
      <==> if AtTop(script) then TopFits(script, tail) else forall k :: 0 <= k < |script| ==> RepeatsAnchor(script, k)
  {
    hide *;
    ApplyPrinted(preamble, script, tail, short);
    PatchedExact(script, tail);
    LinesOfPatch(script, tail);
    LinesOfScript(script, tail);
    SplitOfJoin(Patched(script, tail));
    SplitOfJoin(NewLines(script, tail));
  }

  /** Each hunk has a line of the old file. */
  ghost predicate EachHunkHasOld(script: seq<Segment>) {
    forall k :: 0 <= k < |script| ==> OldOf(script[k].edits) != []
  }

  /** Each hunk has a line of the new file. */
  ghost predicate EachHunkHasNew(script: seq<Segment>) {
    forall k :: 0 <= k < |script| ==> NewOf(script[k].edits) != []
  }

  /** Round trip: a printed diff takes the old file to the new one. */
  lemma RoundTrip(preamble: seq<string>, script: seq<Segment>, tail: seq<string>, short: bool)
    requires IsPreamble(preamble) && LinesOk(script, tail)
    requires script != [] && EachHunkHasOld(script)
    ensures Apply(Join(OldLines(script, tail)), DiffText(preamble, script, short))
      == Ok(Join(NewLines(script, tail)))
  {
    PatchIsExactIff(preamble, script, tail, short);
  }

  /** The hunks of such a diff are ordered, disjoint and in range, so the merge over the old file
      is the new file. */
  lemma MergeOfPrinted(script: seq<Segment>, tail: seq<string>)
    requires script != [] && EachHunkHasOld(script)
    ensures InOrder(HunksOf(script, 0), 0, |OldLines(script, tail)|)
    ensures Merge(OldLines(script, tail), HunksOf(script, 0), 0) == NewLines(script, tail)
  {
    hide SpliceBack, Merge, InOrder, PatchFrom, OldLines, NewLines, HunksOf;
    HunksInOrder(script, tail, 0);
    var original := OldLines(script, tail);
    SpliceBackIsMerge(original, HunksOf(script, 0));
    SpliceScript([], script, tail);
    assert [] + original == original;
    PatchedExact(script, tail);
  }

  lemma {:induction false} HunksInOrder(script: seq<Segment>, tail: seq<string>, pos: nat)
    requires EachHunkHasOld(script)
    ensures InOrder(HunksOf(script, pos), pos, pos + |OldLines(script, tail)|)
    decreases |script|
  {
    hide OldOf, NewOf;
    if script != [] {
      var next := pos + |script[0].gap| + |OldOf(script[0].edits)|;
      HunksInOrder(script[1..], tail, next);
      assert HunksOf(script, pos)[1..] == HunksOf(script[1..], next);
    }
  }

  // ----- The reverse diff -----

  function FlipMarker(line: string): string {
    if line != "" && line[0] == '+' then "-" + line[1..]
    else if line != "" && line[0] == '-' then "+" + line[1..]
    else line
  }

  function FlipMarkers(lines: seq<string>): seq<string> {
    if lines == [] then [] else [FlipMarker(lines[0])] + FlipMarkers(lines[1..])
  }

  /** The same diff with plus and minus swapped in every body and the two ranges swapped in
      every header. */
  function PrintReversed(script: seq<Segment>, oldPos: nat, newPos: nat, short: bool): seq<string> {
    if script == [] then [] else
      var olds, news := OldOf(script[0].edits), NewOf(script[0].edits);
      var o, n := oldPos + |script[0].gap|, newPos + |script[0].gap|;
      [HunkHeader.Print(RangeAfter(n, |news|), RangeAfter(o, |olds|), short)]
      + (FlipMarkers(BodyOf(script[0].edits)) + PrintReversed(script[1..], o + |olds|, n + |news|, short))
  }

  function Swapped(edits: seq<Edit>): seq<Edit> {
    if edits == [] then [] else
      [match edits[0]
       case Keep(line) => Keep(line)
       case Remove(line) => Add(line)
       case Add(line) => Remove(line)]
      + Swapped(edits[1..])
  }

  function SwapScript(script: seq<Segment>): (r: seq<Segment>)
    ensures |r| == |script|
    ensures forall k :: 0 <= k < |r| ==> r[k] == Segment(script[k].gap, Swapped(script[k].edits))
  {
    if script == [] then [] else
      [Segment(script[0].gap, Swapped(script[0].edits))] + SwapScript(script[1..])
  }

  lemma {:induction false} SwappedEdits(edits: seq<Edit>)
    ensures OldOf(Swapped(edits)) == NewOf(edits) && NewOf(Swapped(edits)) == OldOf(edits)
    ensures BodyOf(Swapped(edits)) == FlipMarkers(BodyOf(edits))
    ensures (forall e :: e in edits ==> IsLine(e.line)) ==> forall e :: e in Swapped(edits) ==> IsLine(e.line)
  {
    if edits != [] {
      SwappedEdits(edits[1..]);
      assert FlipMarkers(BodyOf(edits)) == [FlipMarker(Marked(edits[0]))] + FlipMarkers(BodyOf(edits[1..]));
      assert Marked(edits[0])[1..] == edits[0].line;
      assert FlipMarker(Marked(edits[0])) == Marked(Swapped(edits)[0]);
      assert Swapped(edits)[1..] == Swapped(edits[1..]);
    }
  }

  lemma {:induction false} SwappedLines(script: seq<Segment>, tail: seq<string>)
    ensures OldLines(SwapScript(script), tail) == NewLines(script, tail)
    ensures NewLines(SwapScript(script), tail) == OldLines(script, tail)
  {
    hide OldOf, NewOf, Swapped;
    if script != [] {
      SwappedEdits(script[0].edits);
      SwappedLines(script[1..], tail);
      assert SwapScript(script)[1..] == SwapScript(script[1..]);
    }
  }

  lemma {:induction false} SwappedPrint(script: seq<Segment>, oldPos: nat, newPos: nat, short: bool)
    ensures PrintHunks(SwapScript(script), newPos, oldPos, short) == PrintReversed(script, oldPos, newPos, short)
  {
    hide HunkHeader.Print, OldOf, NewOf, Swapped, BodyOf, FlipMarkers, RangeAfter;
    if script != [] {
      var olds, news := OldOf(script[0].edits), NewOf(script[0].edits);
      var o, n := oldPos + |script[0].gap|, newPos + |script[0].gap|;
      SwappedEdits(script[0].edits);
      SwappedPrint(script[1..], o + |olds|, n + |news|, short);
      assert SwapScript(script)[1..] == SwapScript(script[1..]);
    }
  }

  /** The reversed diff takes the new file back to the old one. */
  lemma ReverseRoundTrip(preamble: seq<string>, script: seq<Segment>, tail: seq<string>, short: bool)
    requires IsPreamble(preamble) && LinesOk(script, tail)
    requires script != [] && EachHunkHasNew(script)
    ensures Apply(Join(NewLines(script, tail)), Join(preamble + PrintReversed(script, 0, 0, short)))
      == Ok(Join(OldLines(script, tail)))
  {
    hide HunkHeader.Match;
    var swapped := SwapScript(script);
    SwappedLines(script, tail);
    SwappedPrint(script, 0, 0, short);
    forall k | 0 <= k < |script|
      ensures OldOf(swapped[k].edits) != []
      ensures forall e :: e in swapped[k].edits ==> IsLine(e.line)
    {
      SwappedEdits(script[k].edits);
    }
    RoundTrip(preamble, swapped, tail, short);
  }

  // ----- Every pair of files -----

  function RemoveAll(lines: seq<string>): seq<Edit> {
    if lines == [] then [] else [Remove(lines[0])] + RemoveAll(lines[1..])
  }

  function AddAll(lines: seq<string>): seq<Edit> {
    if lines == [] then [] else [Add(lines[0])] + AddAll(lines[1..])
  }

  lemma {:induction false} EditsAppend(a: seq<Edit>, b: seq<Edit>)
    ensures OldOf(a + b) == OldOf(a) + OldOf(b)
    ensures NewOf(a + b) == NewOf(a) + NewOf(b)
  {
    hide OldPart, NewPart;
    if a == [] {
      assert a + b == b;
    } else {
      assert (a + b)[0] == a[0] && (a + b)[1..] == a[1..] + b;
      EditsAppend(a[1..], b);
      Associate(OldPart(a[0]), OldOf(a[1..]), OldOf(b));
      Associate(NewPart(a[0]), NewOf(a[1..]), NewOf(b));
    }
  }

  lemma Associate<T>(a: seq<T>, b: seq<T>, c: seq<T>)
    ensures a + (b + c) == (a + b) + c
  {
  }

  lemma {:induction false} RemoveAllEdits(lines: seq<string>)
    ensures OldOf(RemoveAll(lines)) == lines && NewOf(RemoveAll(lines)) == []
    ensures forall e :: e in RemoveAll(lines) ==> e.line in lines
  {
    if lines != [] {
      RemoveAllEdits(lines[1..]);
      assert RemoveAll(lines)[1..] == RemoveAll(lines[1..]);
    }
  }

  lemma {:induction false} AddAllEdits(lines: seq<string>)
    ensures NewOf(AddAll(lines)) == lines && OldOf(AddAll(lines)) == []
    ensures forall e :: e in AddAll(lines) ==> e.line in lines
  {
    if lines != [] {
      AddAllEdits(lines[1..]);
      assert AddAll(lines)[1..] == AddAll(lines[1..]);
    }
  }

  lemma RewriteEdits(olds: seq<string>, news: seq<string>)
    ensures OldOf(RemoveAll(olds) + AddAll(news)) == olds
    ensures NewOf(RemoveAll(olds) + AddAll(news)) == news
    ensures forall e :: e in RemoveAll(olds) + AddAll(news) ==> e.line in olds || e.line in news
  {
    hide OldOf, NewOf, RemoveAll, AddAll;
    RemoveAllEdits(olds);
    AddAllEdits(news);
    EditsAppend(RemoveAll(olds), AddAll(news));
  }

  /** Any nonempty file can be patched into any other: the one-hunk rewrite does it. */
  lemma EveryPairIsReachable(olds: seq<string>, news: seq<string>)
    requires AllLines(olds) && AllLines(news) && olds != []
    ensures var script := [Segment([], RemoveAll(olds) + AddAll(news))];
      OldLines(script, []) == olds && NewLines(script, []) == news &&
      Apply(Join(olds), DiffText([], script, true)) == Ok(Join(news))
  {
    hide HunkHeader.Match, Apply, DiffText, Join, IsLine, OldOf, NewOf;
    var edits := RemoveAll(olds) + AddAll(news);
    RewriteEdits(olds, news);
    var script := [Segment([], edits)];
    assert script[1..] == [];
    assert OldLines(script[1..], []) == [] && NewLines(script[1..], []) == [];
    assert OldLines(script, []) == [] + olds + [] == olds;
    assert NewLines(script, []) == [] + news + [] == news;
    RoundTrip([], script, [], true);
  }

  // ----- Insertions at the very top -----

  function Repeat(block: seq<string>, n: nat): seq<string> {
    if n == 0 then [] else block + Repeat(block, n - 1)
  }

  lemma {:induction false} RepeatAdds(block: seq<string>, m: nat, n: nat)
    ensures Repeat(block, m) + Repeat(block, n) == Repeat(block, m + n)
  {
    if m == 0 {
      assert [] + Repeat(block, n) == Repeat(block, n);
    } else {
      RepeatAdds(block, m - 1, n);
      assert block + Repeat(block, m - 1) + Repeat(block, n) == block + (Repeat(block, m - 1) + Repeat(block, n));
    }
  }

  /** Two lists of lines can be exchanged only when both repeat one block. */
  lemma {:induction false} CommuteOnlyIfRepeated(a: seq<string>, b: seq<string>)
    returns (block: seq<string>, m: nat, n: nat)
    requires a + b == b + a
    ensures a == Repeat(block, m) && b == Repeat(block, n)
    decreases |a| + |b|, |a|
  {
    if a == [] {
      block, m, n := b, 0, 1;
      assert Repeat(b, 1) == b + Repeat(b, 0) == b;
    } else if b == [] {
      block, m, n := a, 1, 0;
      assert Repeat(a, 1) == a + Repeat(a, 0) == a;
    } else if |a| <= |b| {
      var c := b[|a|..];
      assert b[..|a|] == (b + a)[..|a|] == (a + b)[..|a|] == a;
      assert b == a + c;
      assert (a + b)[|a|..] == b && (b + a)[|a|..] == c + a;
      var k;
      block, m, k := CommuteOnlyIfRepeated(a, c);
      n := m + k;
      RepeatAdds(block, m, k);
    } else {
      block, n, m := CommuteOnlyIfRepeated(b, a);
    }
  }

  ghost predicate RepeatOneBlock(a: seq<string>, b: seq<string>) {
    exists block, m: nat, n: nat :: a == Repeat(block, m) && b == Repeat(block, n)
  }

  lemma CommuteIffRepeated(a: seq<string>, b: seq<string>)
    ensures a + b == b + a <==> RepeatOneBlock(a, b)
  {
    if a + b == b + a {
      var block, m, n := CommuteOnlyIfRepeated(a, b);
      assert a == Repeat(block, m) && b == Repeat(block, n);
    } else if RepeatOneBlock(a, b) {
      var block, m: nat, n: nat :| a == Repeat(block, m) && b == Repeat(block, n);
      RepeatAdds(block, m, n);
      RepeatAdds(block, n, m);
    }
  }

  /** A diff that inserts at the top, its other hunks being right, patches correctly exactly when
      the rest of the new file is empty, or without its last line repeats one block of lines that
      the inserted lines repeat too. */
  lemma TopInsertionIff(preamble: seq<string>, script: seq<Segment>, tail: seq<string>, short: bool)
    requires IsPreamble(preamble) && LinesOk(script, tail)
    requires AtTop(script) && !AtTop(script[1..])
    requires forall k :: 0 <= k < |script[1..]| ==> RepeatsAnchor(script[1..], k)
    ensures var rest := NewLines(script[1..], tail);
      Apply(Join(OldLines(script, tail)), DiffText(preamble, script, short)) == Ok(Join(NewLines(script, tail)))
      <==> rest == [] || RepeatOneBlock(NewOf(script[0].edits), rest[..|rest| - 1])
  {
    hide Apply, DiffText, Join;
    PatchIsExactIff(preamble, script, tail, short);
    TopFitsIff(script, tail);
  }

  lemma TopFitsIff(script: seq<Segment>, tail: seq<string>)
    requires AtTop(script) && !AtTop(script[1..])
    requires forall k :: 0 <= k < |script[1..]| ==> RepeatsAnchor(script[1..], k)
    ensures var rest := NewLines(script[1..], tail);
      TopFits(script, tail) <==> rest == [] || RepeatOneBlock(NewOf(script[0].edits), rest[..|rest| - 1])
  {
    hide NewLines, PatchFrom, RepeatsAnchor, RepeatOneBlock, NewOf, OldOf;
    if script[1..] == [] {
      NothingPatched(tail);
    } else {
      PatchedExact(script[1..], tail);
    }
    var rest := NewLines(script[1..], tail);
    if rest != [] {
      CommuteIffRepeated(NewOf(script[0].edits), rest[..|rest| - 1]);
    }
  }

  lemma NothingPatched(tail: seq<string>)
    ensures Patched([], tail) == NewLines([], tail) == tail
  {
  }

  /** Creating a file is right: nothing follows the inserted lines. */
  lemma NewFile(preamble: seq<string>, news: seq<string>, short: bool)
    requires IsPreamble(preamble) && AllLines(news)
    ensures Apply("", DiffText(preamble, [Segment([], AddAll(news))], short)) == Ok(Join(news))
  {
    hide Apply, DiffText, IsLine, OldOf, NewOf;
    var script := [Segment([], AddAll(news))];
    AddAllEdits(news);
    assert script[1..] == [];
    assert OldLines(script[1..], []) == [] && NewLines(script[1..], []) == [];
    assert OldLines(script, []) == [] + [] + [] == [] && NewLines(script, []) == [] + news + [] == news;
    TopInsertionIff(preamble, script, [], short);
  }

  lemma TopScript(x: string, tail: seq<string>)
    ensures var script := [Segment([], [Add(x)])];
      && OldLines(script, tail) == tail && NewLines(script, tail) == [x] + tail
      && AtTop(script) && Patched(script, tail) == BeforeLast([x], tail)
  {
    hide BeforeLast;
    var script := [Segment([], [Add(x)])];
    assert script[1..] == [] && [Add(x)][1..] == [];
    assert OldOf([Add(x)]) == [] + OldOf([]) == [] && NewOf([Add(x)]) == [x] + NewOf([]) == [x];
    assert OldLines([], tail) == tail && NewLines([], tail) == tail && PatchFrom([], tail, true) == Carry([], tail);
    assert OldLines(script, tail) == [] + [] + tail == tail;
    assert NewLines(script, tail) == [] + [x] + tail == [x] + tail;
  }

  /** Inserting `x` before a file of two lines, the first of them another: misplaced. */
  lemma TopInsertionMisplaced(a: string, b: string, x: string)
    requires IsLine(a) && IsLine(b) && IsLine(x) && x != a
    ensures var script := [Segment([], [Add(x)])];
      NewLines(script, [a, b]) == [x, a, b] &&
      Apply(Join([a, b]), DiffText([], script, false)) == Ok(Join([a, x, b])) &&
      Join([a, x, b]) != Join([x, a, b])
  {
    hide HunkHeader.Match, Apply, DiffText, Join, IsLine, OldLines, NewLines, PatchFrom;
    var script := [Segment([], [Add(x)])];
    TopScript(x, [a, b]);
    assert [a, b][..1] == [a];
    assert BeforeLast([x], [a, b]) == [a] + [x] + [b] == [a, x, b];
    assert [x] + [a, b] == [x, a, b];
    ApplyPrinted([], script, [a, b], false);
    SplitOfJoin([a, x, b]);
    SplitOfJoin([x, a, b]);
  }

  lemma InsertionSegment(s: Segment, tail: seq<string>, top: bool)
    requires |s.gap| == 1 && |s.edits| == 1 && s.edits[0].Add?
    ensures OldLines([s], tail) == s.gap + tail
    ensures NewLines([s], tail) == s.gap + [s.edits[0].line] + tail
    ensures !AtTop([s]) && PatchFrom([s], tail, top) == Carry([], [s.edits[0].line] + s.gap + tail)
    ensures RepeatsAnchor([s], 0) <==> s.edits[0].line == s.gap[0]
  {
    var x := s.edits[0].line;
    assert s.edits[1..] == [] && [s][1..] == [] && [s][..0] == [] && s.gap[..0] == [];
    assert OldOf(s.edits) == [] + OldOf(s.edits[1..]) == [];
    assert NewOf(s.edits) == [x] + NewOf(s.edits[1..]) == [x];
    assert PatchFrom([], tail, false) == Carry([], tail);
    assert [] + ([x] + ([] + ([s.gap[0]] + tail))) == [x] + s.gap + tail;
    assert [] + OldLines([], s.gap) == s.gap;
    assert AllEqual([x], s.gap[0]) <==> x == s.gap[0] by {
      assert [x][0] == x;
    }
  }

  /** Two misplaced insertions can make up for each other, so no condition on one hunk alone is
      exact once a diff inserts at the top. */
  lemma TwoMistakesCancel(a: string, b: string, last: string)
    requires IsLine(a) && IsLine(b) && IsLine(last) && a != b
    ensures var script := [Segment([], [Add(a)]), Segment([b], [Add(a)])];
      !RepeatsAnchor(script[1..], 0) &&
      Apply(Join(OldLines(script, [last])), DiffText([], script, false)) == Ok(Join(NewLines(script, [last])))
  {
    hide Apply, DiffText, Join, IsLine, PatchFrom, RepeatsAnchor, TopFits;
    var first, second := Segment([], [Add(a)]), Segment([b], [Add(a)]);
    var script := [first, second];
    assert script[1..] == [second];
    InsertionSegment(second, [last], true);
    TwoMistakesFit(a, b, last);
    PatchIsExactIff([], script, [last], false);
  }

  lemma TwoMistakesFit(a: string, b: string, last: string)
    ensures var script := [Segment([], [Add(a)]), Segment([b], [Add(a)])];
      AtTop(script) && TopFits(script, [last])
  {
    hide PatchFrom;
    var first, second := Segment([], [Add(a)]), Segment([b], [Add(a)]);
    var script := [first, second];
    assert script[1..] == [second] && [Add(a)][1..] == [];
    assert OldOf([Add(a)]) == [] + OldOf([]) == [] && NewOf([Add(a)]) == [a] + NewOf([]) == [a];
    InsertionSegment(second, [last], true);
    assert Patched([second], [last]) == [a, b, last] && NewLines([second], [last]) == [b, a, last];
    assert [a, b, last][..2] == [a, b] && [b, a, last][..2] == [b, a];
    assert [a, b] + [a] == [a] + [b, a];
  }

  /** The mistake at work: the diff that inserts `x` after `a` in the file `a`, `b` gives
      `x`, `a`, `b`. */
  lemma InsertionMisplaced(a: string, b: string, x: string)
    requires IsLine(a) && IsLine(b) && IsLine(x) && x != a
    ensures var script := [Segment([a], [Add(x)])];
      NewLines(script, [b]) == [a, x, b] &&
      Apply(Join([a, b]), DiffText([], script, false)) == Ok(Join([x, a, b])) &&
      Join([x, a, b]) != Join([a, x, b])
  {
    hide HunkHeader.Match, Apply, DiffText, Join, IsLine, OldLines, NewLines, PatchFrom, InsertsOnly;
    var s := Segment([a], [Add(x)]);
    InsertionSegment(s, [b], true);
    assert s.gap + [b] == [a, b] && [x] + s.gap + [b] == [x, a, b];
    ApplyPrinted([], [s], [b], false);
    SplitOfJoin([x, a, b]);
    SplitOfJoin([a, x, b]);
  }

  /** The context is never compared: a hunk that replaces `a` replaces whatever line stands there. */
  lemma WrongContextIsPatched(a: string, b: string, x: string)
    requires IsLine(a) && IsLine(b) && IsLine(x) && a != b
    ensures Apply(Join([b]), DiffText([], [Segment([], RemoveAll([a]) + AddAll([x]))], true)) == Ok(Join([x]))
  {
    hide HunkHeader.Match, Join, IsLine, OldOf, NewOf, ParseHunks, SplitLines;
    var edits := RemoveAll([a]) + AddAll([x]);
    var script := [Segment([], edits)];
    RewriteEdits([a], [x]);
    assert script[1..] == [];
    var printed := PrintHunks(script, 0, 0, true);
    assert LinesOk(script, []);
    PrintedLines(script, [], 0, 0, true);
    ParseOfPrint(script, 0, 0, true);
    assert HunksOf(script, 0) == [Hunk(0, 1, [x])];
    assert [] + printed == printed;
    SplitOfJoin(printed);
    SplitOfJoin([b]);
    SpliceBackStep([b], [], Hunk(0, 1, [x]));
    assert [] + [Hunk(0, 1, [x])] == [Hunk(0, 1, [x])];
    assert [b][..0] + ([x] + [b][1..]) == [x];
  }
}
