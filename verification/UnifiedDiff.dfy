/** `_apply_unified_diff`: parse the hunks of a unified diff, then splice them into the
    list of original lines from the last hunk to the first. */
module UnifiedDiff {
  import opened Wrappers
  import opened TextLines
  import HunkHeader

  /** The two `ValueError`s. */
  datatype Error = NoHunks | OutOfRange

  /** A hunk in the code's own coordinates: `start` counts from 0, and is -1 for a
      header that names line 0. */
  datatype Hunk = Hunk(start: int, count: nat, lines: seq<string>) {
    function End(): int {
      start + count
    }

    function Growth(): int {
      |lines| - count
    }
  }

  type Patched = Result<string, Error>

  // ----- Parsing -----

  /** What one body line adds to the replacement. */
  function ReplacementOf(line: string): seq<string> {
    if line == "" then []
    else if line[0] == ' ' || line[0] == '+' then [line[1..]]
    else if line[0] == '-' || line[0] == '\\' then []
    else [line]
  }

  function Replacement(body: seq<string>): seq<string> {
    if body == [] then [] else ReplacementOf(body[0]) + Replacement(body[1..])
  }

  /** The lines before the next header. */
  function Body(lines: seq<string>): (body: seq<string>)
    ensures body <= lines
  {
    hide HunkHeader.Match;
    if lines == [] || HunkHeader.IsHeader(lines[0]) then [] else [lines[0]] + Body(lines[1..])
  }

  function HunkAt(lines: seq<string>): Hunk
    requires lines != [] && HunkHeader.IsHeader(lines[0])
  {
    hide HunkHeader.Match;
    var r := HunkHeader.Match(lines[0]).value;
    Hunk(r.first - 1, r.count, Replacement(Body(lines[1..])))
  }

  function ParseHunks(lines: seq<string>): seq<Hunk> {
    hide HunkHeader.Match;
    if lines == [] then []
    else (if HunkHeader.IsHeader(lines[0]) then [HunkAt(lines)] else []) + ParseHunks(lines[1..])
  }

  // ----- Splicing -----

  /** How Python resolves one end of a slice of a list of length `n`. */
  function SliceIndex(i: int, n: nat): (k: nat)
    ensures k <= n
  {
    if i < 0 then (if i + n < 0 then 0 else i + n) else if i > n then n else i
  }

  /** `s[lo:hi] = new` */
  function SliceAssign<T>(s: seq<T>, lo: int, hi: int, new_: seq<T>): seq<T> {
    var a, b := SliceIndex(lo, |s|), SliceIndex(hi, |s|);
    s[..a] + (new_ + s[if b < a then a else b..])
  }

  function Splice(lines: seq<string>, h: Hunk): Result<seq<string>, Error> {
    if h.start > |lines| || h.End() > |lines| then Err(OutOfRange)
    else Ok(SliceAssign(lines, h.start, h.End(), h.lines))
  }

  /** The last hunk first. */
  function SpliceBack(lines: seq<string>, hunks: seq<Hunk>): Result<seq<string>, Error>
    decreases |hunks|
  {
    if hunks == [] then Ok(lines) else
      var lines' :- Splice(lines, hunks[|hunks| - 1]);
      SpliceBack(lines', hunks[..|hunks| - 1])
  }

  function Apply(original: string, diff: string): Patched {
    var hunks := ParseHunks(SplitLines(diff));
    if hunks == [] then Err(NoHunks) else
      var lines :- SpliceBack(SplitLines(original), hunks);
      Ok(Join(lines))
  }

  // ----- The code's loops -----

  ghost predicate AreHeaders(lines: seq<string>, starts: seq<nat>) {
    forall k :: 0 <= k < |starts| ==> starts[k] < |lines| && HunkHeader.IsHeader(lines[starts[k]])
  }

  /** Indices of the header lines from line `i` on. */
  ghost function HeaderIndices(lines: seq<string>, i: nat): (starts: seq<nat>)
    requires i <= |lines|
    ensures AreHeaders(lines, starts)
    decreases |lines| - i
  {
    hide HunkHeader.Match;
    if i == |lines| then []
    else (if HunkHeader.IsHeader(lines[i]) then [i] else []) + HeaderIndices(lines, i + 1)
  }

  ghost function HunksAt(lines: seq<string>, starts: seq<nat>): (hunks: seq<Hunk>)
    requires AreHeaders(lines, starts)
    ensures |hunks| == |starts|
    ensures forall k :: 0 <= k < |starts| ==> hunks[k] == HunkAt(lines[starts[k]..])
  {
    hide HunkHeader.Match, Body, Replacement;
    if starts == [] then [] else [HunkAt(lines[starts[0]..])] + HunksAt(lines, starts[1..])
  }

  /** The hunks the forward scan finds are the parsed hunks, in order. */
  lemma {:induction false} HeaderScanFindsHunks(lines: seq<string>, i: nat)
    requires i <= |lines|
    ensures HunksAt(lines, HeaderIndices(lines, i)) == ParseHunks(lines[i..])
    decreases |lines| - i
  {
    hide HunkHeader.Match, HunkAt;
    if i < |lines| {
      HeaderScanFindsHunks(lines, i + 1);
      assert lines[i..][1..] == lines[i + 1..];
      var rest := HeaderIndices(lines, i + 1);
      if HunkHeader.IsHeader(lines[i]) {
        assert ([i] + rest)[1..] == rest;
      } else {
        assert [] + rest == rest;
      }
    }
  }

  lemma {:induction false} BodySnoc(lines: seq<string>, i: nat, j: nat)
    requires i <= j < |lines|
    requires forall k :: i <= k < j ==> !HunkHeader.IsHeader(lines[k])
    ensures HunkHeader.IsHeader(lines[j]) ==> Body(lines[i..]) == lines[i..j]
    decreases j - i
  {
    hide HunkHeader.Match;
    if i < j {
      assert lines[i..][1..] == lines[i + 1..];
      BodySnoc(lines, i + 1, j);
    }
  }

  lemma {:induction false} BodyToEnd(lines: seq<string>, i: nat)
    requires i <= |lines|
    requires forall k :: i <= k < |lines| ==> !HunkHeader.IsHeader(lines[k])
    ensures Body(lines[i..]) == lines[i..]
    decreases |lines| - i
  {
    hide HunkHeader.Match;
    if i < |lines| {
      assert lines[i..][1..] == lines[i + 1..];
      BodyToEnd(lines, i + 1);
    }
  }

  lemma {:induction false} ReplacementSnoc(body: seq<string>, line: string)
    ensures Replacement(body + [line]) == Replacement(body) + ReplacementOf(line)
  {
    if body == [] {
      assert body + [line] == [line];
    } else {
      assert (body + [line])[1..] == body[1..] + [line];
      ReplacementSnoc(body[1..], line);
    }
  }

  /** The lines from behind the header at `start` up to the next header. */
  method CollectBody(lines: seq<string>, start: nat) returns (body: seq<string>)
    requires start < |lines|
    ensures body == Body(lines[start + 1..])
  {
    hide HunkHeader.Match;
    body := [];
    var j := start + 1;
    while j < |lines|
      invariant start + 1 <= j <= |lines|
      invariant body == lines[start + 1..j]
      invariant forall k :: start + 1 <= k < j ==> !HunkHeader.IsHeader(lines[k])
    {
      if HunkHeader.IsHeader(lines[j]) {
        BodySnoc(lines, start + 1, j);
        return;
      }
      body := body + [lines[j]];
      j := j + 1;
    }
    BodyToEnd(lines, start + 1);
  }

  /** What the body puts in place of the old range, line by line and marker by marker. */
  method CollectReplacement(body: seq<string>) returns (newLines: seq<string>)
    ensures newLines == Replacement(body)
  {
    hide HunkHeader.Match;
    newLines := [];
    for i := 0 to |body|
      invariant newLines == Replacement(body[..i])
    {
      ReplacementSnoc(body[..i], body[i]);
      assert body[..i + 1] == body[..i] + [body[i]];
      if body[i] == "" {
        continue;
      }
      var marker, content := body[i][0], body[i][1..];
      if marker == ' ' {
        newLines := newLines + [content];
      } else if marker == '+' {
        newLines := newLines + [content];
      } else if marker == '-' {
      } else if marker == '\\' {
        continue;
      } else {
        newLines := newLines + [body[i]];
      }
    }
    assert body[..|body|] == body;
  }

  /** The indices of the header lines. */
  method FindHunkStarts(lines: seq<string>) returns (starts: seq<nat>)
    ensures AreHeaders(lines, starts)
    ensures HunksAt(lines, starts) == ParseHunks(lines)
  {
    hide HunkHeader.Match;
    starts := [];
    for i := 0 to |lines|
      invariant AreHeaders(lines, starts)
      invariant starts + HeaderIndices(lines, i) == HeaderIndices(lines, 0)
    {
      if HunkHeader.IsHeader(lines[i]) {
        starts := starts + [i];
      }
    }
    HeaderScanFindsHunks(lines, 0);
    assert starts == HeaderIndices(lines, 0);
    assert lines[0..] == lines;
  }

  /** The hunk whose header stands at `start`. */
  method ReadHunk(lines: seq<string>, start: nat) returns (h: Hunk)
    requires start < |lines| && HunkHeader.IsHeader(lines[start])
    ensures h == HunkAt(lines[start..])
  {
    hide HunkHeader.Match;
    var range := HunkHeader.Match(lines[start]).value;
    var body := CollectBody(lines, start);
    var newLines := CollectReplacement(body);
    assert lines[start..][1..] == lines[start + 1..];
    h := Hunk(range.first - 1, range.count, newLines);
  }

  method ApplyUnifiedDiff(original: string, diff: string) returns (r: Patched)
    ensures r == Apply(original, diff)
  {
    hide HunkHeader.Match, SliceAssign, SplitLines, Join, HunkAt, ParseHunks;
    var result := SplitLines(original);
    var lines := SplitLines(diff);
    var starts := FindHunkStarts(lines);
    if starts == [] {
      return Err(NoHunks);
    }
    ghost var original', hunks := result, ParseHunks(lines);
    var k := |starts|;
    assert hunks[..k] == hunks;
    while k > 0
      invariant 0 <= k <= |starts|
      invariant SpliceBack(result, hunks[..k]) == SpliceBack(original', hunks)
    {
      k := k - 1;
      var h := ReadHunk(lines, starts[k]);
      assert h == HunksAt(lines, starts)[k];
      assert hunks[..k + 1][..k] == hunks[..k];
      if h.start > |result| || h.End() > |result| {
        return Err(OutOfRange);
      }
      result := SliceAssign(result, h.start, h.End(), h.lines);
    }
    r := Ok(Join(result));
  }
}
