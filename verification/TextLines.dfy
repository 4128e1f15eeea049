/** Python's text primitives used by the modelled code: `str.splitlines(keepends=True)`,
    `"".join(lines)`, `str.strip`, and the character classes `str.isspace` and `[0-9]`. */
module TextLines {

  /** The characters at which `str.splitlines` ends a line. */
  predicate IsBreak(c: char) {
    c in "\n\r\U{B}\U{C}\U{1C}\U{1D}\U{1E}\U{85}\U{2028}\U{2029}"
  }

  /** The characters `str.isspace` accepts; also what the regex class `\s` matches. */
  predicate IsSpace(c: char) {
    c in " \t\n\r\U{B}\U{C}\U{1C}\U{1D}\U{1E}\U{1F}\U{85}\U{A0}\U{1680}\U{2028}\U{2029}\U{202F}\U{205F}\U{3000}"
    || '\U{2000}' <= c <= '\U{200A}'
  }

  predicate IsDigit(c: char) {
    '0' <= c <= '9'
  }

  /** Length of the first line of `s`, its line break included; "\r\n" is one break. */
  function LineLength(s: string): (n: nat)
    requires s != ""
    ensures 1 <= n <= |s|
  {
    if IsBreak(s[0]) then
      if s[0] == '\r' && |s| > 1 && s[1] == '\n' then 2 else 1
    else if |s| == 1 then 1
    else 1 + LineLength(s[1..])
  }

  /** `s.splitlines(keepends=True)` */
  function SplitLines(s: string): seq<string>
    decreases |s|
  {
    if s == "" then [] else
      var n := LineLength(s);
      [s[..n]] + SplitLines(s[n..])
  }

  /** `"".join(lines)` */
  function Join(lines: seq<string>): string {
    if lines == [] then "" else lines[0] + Join(lines[1..])
  }

  /** Exactly one line, ended by a newline. */
  predicate IsLine(s: string) {
    s != "" && s[|s| - 1] == '\n' && LineLength(s) == |s|
  }

  predicate AllLines(lines: seq<string>) {
    forall i :: 0 <= i < |lines| ==> IsLine(lines[i])
  }

  /** `s.lstrip()` */
  function StripLeft(s: string): string {
    if s != "" && IsSpace(s[0]) then StripLeft(s[1..]) else s
  }

  /** `s.rstrip()` */
  function StripRight(s: string): string {
    if s != "" && IsSpace(s[|s| - 1]) then StripRight(s[..|s| - 1]) else s
  }

  /** `s.strip()` */
  function Strip(s: string): string {
    StripRight(StripLeft(s))
  }

  /** How many spaces `s` begins with. */
  function SpanSpaces(s: string): (n: nat)
    ensures n <= |s|
    ensures n < |s| ==> !IsSpace(s[n])
  {
    if s != "" && IsSpace(s[0]) then 1 + SpanSpaces(s[1..]) else 0
  }

  /** Whitespace, at least one character. */
  predicate IsGap(gap: string) {
    gap != "" && forall i :: 0 <= i < |gap| ==> IsSpace(gap[i])
  }

  predicate StartsWith(s: string, prefix: string) {
    prefix <= s
  }

  predicate OccursAt(s: string, part: string, i: int) {
    0 <= i <= |s| - |part| && s[i..i + |part|] == part
  }

  /** `part in s` */
  predicate Contains(s: string, part: string) {
    exists i | 0 <= i <= |s| - |part| :: OccursAt(s, part, i)
  }

  /** Text without a line break, such as what `json.dumps` writes. */
  predicate Unbroken(s: string) {
    forall i :: 0 <= i < |s| ==> !IsBreak(s[i])
  }

  lemma {:induction false} JoinAppend(a: seq<string>, b: seq<string>)
    ensures Join(a + b) == Join(a) + Join(b)
  {
    if a == [] {
      assert a + b == b;
    } else {
      assert (a + b)[1..] == a[1..] + b;
      JoinAppend(a[1..], b);
    }
  }

  lemma SplitStep(s: string)
    requires s != ""
    ensures SplitLines(s) == [s[..LineLength(s)]] + SplitLines(s[LineLength(s)..])
  {
  }

  lemma NoLines()
    ensures SplitLines("") == []
  {
  }

  lemma JoinStep(line: string, rest: seq<string>)
    ensures Join([line] + rest) == line + Join(rest)
  {
    assert ([line] + rest)[1..] == rest;
  }

  /** Splitting loses nothing. */
  lemma {:induction false} JoinOfSplit(s: string)
    ensures Join(SplitLines(s)) == s
    decreases |s|
  {
    if s != "" {
      hide *;
      var n := LineLength(s);
      JoinOfSplit(s[n..]);
      SplitStep(s);
      JoinStep(s[..n], SplitLines(s[n..]));
      CutWhole(s, n);
    }
  }

  lemma CutWhole(s: string, n: nat)
    requires n <= |s|
    ensures s == s[..n] + s[n..]
  {
  }

  lemma {:induction false} LineLengthStable(line: string, rest: string)
    requires IsLine(line)
    ensures LineLength(line + rest) == |line|
    decreases |line|
  {
    var s := line + rest;
    if IsBreak(line[0]) {
      if |line| > 1 {
        assert s[1] == line[1];
      }
    } else {
      assert |line| > 1;
      assert s[1..] == line[1..] + rest;
      LineLengthStable(line[1..], rest);
    }
  }

  /** Joining whole lines and splitting again gives the lines back. */
  lemma {:induction false} SplitOfJoin(lines: seq<string>)
    requires AllLines(lines)
    ensures SplitLines(Join(lines)) == lines
  {
    if lines != [] {
      var rest := Join(lines[1..]);
      LineLengthStable(lines[0], rest);
      SplitOfJoin(lines[1..]);
      assert (lines[0] + rest)[|lines[0]|..] == rest;
      assert (lines[0] + rest)[..|lines[0]|] == lines[0];
    }
  }

  /** No line of a split is empty. */
  lemma {:induction false} SplitNonempty(s: string)
    ensures forall i :: 0 <= i < |SplitLines(s)| ==> SplitLines(s)[i] != ""
    decreases |s|
  {
    if s != "" {
      SplitNonempty(s[LineLength(s)..]);
    }
  }

  lemma {:induction false} LineLengthAppend(s: string, rest: string)
    requires s != "" && s[|s| - 1] == '\n'
    ensures LineLength(s + rest) == LineLength(s)
    decreases |s|
  {
    if IsBreak(s[0]) {
      if |s| > 1 {
        assert (s + rest)[1] == s[1];
      }
    } else {
      assert |s| > 1;
      assert (s + rest)[1..] == s[1..] + rest;
      LineLengthAppend(s[1..], rest);
    }
  }

  lemma CutAppend(s: string, rest: string, n: nat)
    requires n <= |s|
    ensures (s + rest)[..n] == s[..n] && (s + rest)[n..] == s[n..] + rest
  {
  }

  lemma ConsAppend<T>(x: T, a: seq<T>, b: seq<T>)
    ensures [x] + (a + b) == ([x] + a) + b
  {
  }

  /** Text that ends in a newline splits apart from what follows it. */
  lemma {:induction false} SplitAppend(s: string, rest: string)
    requires s != "" ==> s[|s| - 1] == '\n'
    ensures SplitLines(s + rest) == SplitLines(s) + SplitLines(rest)
    decreases |s|
  {
    if s == "" {
      assert s + rest == rest;
    } else {
      hide *;
      LineLengthAppend(s, rest);
      var n := LineLength(s);
      var tail := s[n..];
      CutAppend(s, rest, n);
      assert tail != "" ==> tail[|tail| - 1] == s[|s| - 1];
      SplitAppend(tail, rest);
      SplitStep(s);
      SplitStep(s + rest);
      ConsAppend(s[..n], SplitLines(tail), SplitLines(rest));
    }
  }

  /** Text that does not end in whitespace is kept when what follows is all whitespace. */
  lemma {:induction false} StripRightOf(s: string, blank: string)
    requires s != "" && !IsSpace(s[|s| - 1])
    requires forall i :: 0 <= i < |blank| ==> IsSpace(blank[i])
    ensures StripRight(s + blank) == s
    decreases |blank|
  {
    if blank == "" {
      assert s + blank == s;
    } else {
      var shorter := blank[..|blank| - 1];
      assert (s + blank)[..|s + blank| - 1] == s + shorter;
      StripRightOf(s, shorter);
    }
  }

  lemma {:induction false} UnbrokenLine(s: string)
    requires forall i :: 0 <= i < |s| ==> !IsBreak(s[i])
    ensures IsLine(s + "\n")
  {
    if s == "" {
      assert s + "\n" == "\n";
    } else {
      UnbrokenLine(s[1..]);
      assert (s + "\n")[1..] == s[1..] + "\n";
    }
  }

  /** What reading a text file gives: every "\r\n" and "\r" becomes "\n". */
  function ReadText(s: string): string {
    if s == "" then ""
    else if s[0] == '\r' then
      "\n" + ReadText(if |s| > 1 && s[1] == '\n' then s[2..] else s[1..])
    else [s[0]] + ReadText(s[1..])
  }

  lemma {:induction false} ReadTextPlain(s: string)
    requires '\r' !in s
    ensures ReadText(s) == s
  {
    if s != "" {
      ReadTextPlain(s[1..]);
    }
  }

  lemma {:induction false} ReadTextHasNoReturn(s: string)
    ensures '\r' !in ReadText(s)
    decreases |s|
  {
    if s != "" {
      ReadTextHasNoReturn(s[1..]);
      if |s| > 1 {
        ReadTextHasNoReturn(s[2..]);
      }
    }
  }

  /** What was read of a file is still there when it has grown. */
  lemma {:induction false} ReadTextGrows(a: string, b: string)
    ensures ReadText(a) <= ReadText(a + b)
    decreases |a|
  {
    if a != "" {
      assert (a + b)[1..] == a[1..] + b;
      ReadTextGrows(a[1..], b);
      if |a| > 1 {
        assert (a + b)[1] == a[1] && (a + b)[2..] == a[2..] + b;
        ReadTextGrows(a[2..], b);
      }
    }
  }

  lemma {:induction false} ReadTextAfter(a: string, b: string)
    requires '\r' !in a
    ensures ReadText(a + b) == a + ReadText(b)
    decreases |a|
  {
    if a == "" {
      assert a + b == b;
    } else {
      assert (a + b)[1..] == a[1..] + b;
      ReadTextAfter(a[1..], b);
    }
  }

  /** Text without a line break, then one: the length of that line. */
  lemma {:induction false} LineLengthOf(u: string, r: string)
    requires forall i :: 0 <= i < |u| ==> !IsBreak(u[i])
    requires r != "" && IsBreak(r[0]) && !(r[0] == '\r' && |r| > 1 && r[1] == '\n')
    ensures LineLength(u + r) == |u| + 1
    decreases |u|
  {
    hide IsBreak;
    if u == "" {
      assert u + r == r;
    } else {
      assert (u + r)[1..] == u[1..] + r;
      LineLengthOf(u[1..], r);
    }
  }

  lemma {:induction false} StripRightEnds(s: string)
    ensures StripRight(s) != "" ==> !IsSpace(StripRight(s)[|StripRight(s)| - 1])
  {
    if s != "" {
      StripRightEnds(s[..|s| - 1]);
    }
  }

  lemma {:induction false} UnbrokenAlone(u: string)
    requires Unbroken(u) && u != ""
    ensures LineLength(u) == |u|
    decreases |u|
  {
    hide IsBreak;
    if |u| > 1 {
      UnbrokenAlone(u[1..]);
    }
  }

  lemma {:induction false} SpanGap(gap: string, rest: string)
    requires (forall i :: 0 <= i < |gap| ==> IsSpace(gap[i])) && rest != "" && !IsSpace(rest[0])
    ensures SpanSpaces(gap + rest) == |gap|
    decreases |gap|
  {
    hide IsSpace;
    if gap == "" {
      assert gap + rest == rest;
    } else {
      assert (gap + rest)[1..] == gap[1..] + rest;
      SpanGap(gap[1..], rest);
    }
  }

  lemma {:induction false} SpanIsSpaces(s: string)
    ensures forall i :: 0 <= i < SpanSpaces(s) ==> IsSpace(s[i])
  {
    hide IsSpace;
    if s != "" && IsSpace(s[0]) {
      SpanIsSpaces(s[1..]);
      assert forall i :: 0 < i < |s| ==> s[i] == s[1..][i - 1];
    }
  }

  /** `t` is `s` without the spaces around it. */
  ghost predicate IsTrimmed(s: string, t: string) {
    (t == "" || (!IsSpace(t[0]) && !IsSpace(t[|t| - 1]))) &&
    exists before, after :: s == before + (t + after) && AllSpaces(before) && AllSpaces(after)
  }

  predicate AllSpaces(s: string) {
    forall i :: 0 <= i < |s| ==> IsSpace(s[i])
  }

  lemma {:induction false} LeftSpaces(s: string) returns (before: string)
    ensures AllSpaces(before) && s == before + StripLeft(s)
    ensures StripLeft(s) != "" ==> !IsSpace(StripLeft(s)[0])
  {
    hide IsSpace;
    before := "";
    if s != "" && IsSpace(s[0]) {
      before := LeftSpaces(s[1..]);
      before := [s[0]] + before;
    }
  }

  lemma {:induction false} RightSpaces(s: string) returns (after: string)
    ensures AllSpaces(after) && s == StripRight(s) + after
    ensures StripRight(s) != "" ==> !IsSpace(StripRight(s)[|StripRight(s)| - 1])
  {
    hide IsSpace;
    after := "";
    if s != "" && IsSpace(s[|s| - 1]) {
      after := RightSpaces(s[..|s| - 1]);
      after := after + [s[|s| - 1]];
    }
  }

  lemma StripTrims(s: string)
    ensures IsTrimmed(s, Strip(s))
  {
    hide IsSpace, StripLeft, StripRight, AllSpaces;
    var before := LeftSpaces(s);
    var after := RightSpaces(StripLeft(s));
    assert s == before + (Strip(s) + after);
    if Strip(s) != "" {
      assert Strip(s)[0] == StripLeft(s)[0];
    }
  }

  lemma TrimmedEmpty(s: string, t: string)
    requires IsTrimmed(s, t)
    ensures t == "" <==> AllSpaces(s)
  {
    hide IsSpace;
    var before, after :| s == before + (t + after) && AllSpaces(before) && AllSpaces(after);
    if t == "" {
      forall i | 0 <= i < |s|
        ensures IsSpace(s[i])
      {
        assert s[i] == if i < |before| then before[i] else after[i - |before|];
      }
    } else {
      assert s[|before|] == t[0];
    }
  }

  /** Where the first line ends: behind the first break, the two characters "\r\n" being one, or at the
      end of the text. */
  lemma {:induction false} FirstLineEnds(s: string)
    requires s != ""
    ensures var n := LineLength(s);
      && (forall i :: 0 <= i < n - 1 ==> !IsBreak(s[i]) || (i == n - 2 && s[i] == '\r' && s[i + 1] == '\n'))
      && (n < |s| ==> IsBreak(s[n - 1]) && !(s[n - 1] == '\r' && s[n] == '\n'))
    decreases |s|
  {
    hide IsBreak;
    ReturnBreaks();
    if !IsBreak(s[0]) && |s| > 1 {
      var tail := s[1..];
      FirstLineEnds(tail);
      var n := LineLength(tail);
      assert forall i :: 0 <= i < |tail| ==> tail[i] == s[i + 1];
      forall i | 0 < i < n
        ensures !IsBreak(s[i]) || (i == n - 1 && s[i] == '\r' && s[i + 1] == '\n')
      {
        var k := i - 1;
        assert 0 <= k < n - 1 && tail[k] == s[i] && tail[k + 1] == s[i + 1];
        assert !IsBreak(tail[k]) || (k == n - 2 && tail[k] == '\r' && tail[k + 1] == '\n');
      }
    }
  }

  lemma ReturnBreaks()
    ensures IsBreak('\r') && IsBreak('\n')
  {
  }
}
