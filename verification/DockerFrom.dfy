/** Normalising the base image of a generated Dockerfile. */
module DockerFrom {
  import opened Wrappers
  import opened TextLines

  const FALLBACK := "runpod/pytorch" + (":2.1.0-" + ("py3.10-" + ("cuda11.8.0-" + ("runtime-" + "ubuntu22.04"))))

  const FROM_FALLBACK := "FROM " + FALLBACK

  const FAMILIES := ["runpod/pytorch", "pytorch/pytorch", "nvidia/cuda", "nvcr.io/nvidia", "python:", "python ",
                     "ubuntu:", "ubuntu ", "debian:", "debian ", "tensorflow/tensorflow", "rocm/pytorch",
                     "continuumio/", "mambaorg/", "quay.io/", "gcr.io/", "us-central1-docker.pkg.dev/",
                     "europe-west4-docker.pkg.dev/", "scratch", "busybox", "alpine"]

  // ----- Words -----

  function UpperChar(c: char): char {
    if 'a' <= c <= 'z' then c - 'a' + 'A' else c
  }

  /** The Kelvin sign is the one character outside ASCII whose lower case is an ASCII letter. */
  function LowerChar(c: char): char {
    if 'A' <= c <= 'Z' then c - 'A' + 'a' else if c == '\U{212A}' then 'k' else c
  }

  function Upper(s: string): string {
    seq(|s|, i requires 0 <= i < |s| => UpperChar(s[i]))
  }

  function Lower(s: string): string {
    seq(|s|, i requires 0 <= i < |s| => LowerChar(s[i]))
  }

  function WordLength(s: string): (n: nat)
    ensures n <= |s|
    ensures s != "" && !IsSpace(s[0]) ==> n > 0
  {
    if s == "" || IsSpace(s[0]) then 0 else 1 + WordLength(s[1..])
  }

  /** `s.split()` */
  function Words(s: string): seq<string>
    decreases |s|
  {
    if s == "" then []
    else if IsSpace(s[0]) then Words(s[1..])
    else [s[..WordLength(s)]] + Words(s[WordLength(s)..])
  }

  /** `" ".join(ws)` */
  function JoinWords(ws: seq<string>): string {
    if ws == [] then "" else if |ws| == 1 then ws[0] else ws[0] + (" " + JoinWords(ws[1..]))
  }

  predicate IsWord(w: string) {
    w != "" && forall i :: 0 <= i < |w| ==> !IsSpace(w[i])
  }

  predicate AllWords(ws: seq<string>) {
    forall i :: 0 <= i < |ws| ==> IsWord(ws[i])
  }

  // ----- Finding the base image -----

  /** A blank line, a comment or an `ARG`: what may precede the first `FROM`. */
  predicate IsSkipped(line: string) {
    var stripped := Strip(line);
    stripped == "" || StartsWith(stripped, "#") || StartsWith(Upper(stripped), "ARG")
  }

  predicate IsFrom(line: string) {
    StartsWith(Upper(Strip(line)), "FROM ")
  }

  /** The image named by the first instruction, when that is a `FROM` with an image. */
  function FirstImage(lines: seq<string>): Option<string> {
    if lines == [] then None
    else if IsSkipped(lines[0]) then FirstImage(lines[1..])
    else if IsFrom(lines[0]) && |Words(Strip(lines[0]))| >= 2 then Some(Words(Strip(lines[0]))[1])
    else None
  }

  method ExtractFromImage(dockerfile: string) returns (image: Option<string>)
    ensures image == FirstImage(SplitLines(dockerfile))
  {
    hide Strip, Upper, Words, StartsWith;
    var lines := SplitLines(dockerfile);
    for n := 0 to |lines|
      invariant FirstImage(lines) == FirstImage(lines[n..])
    {
      assert lines[n..][1..] == lines[n + 1..];
      var stripped := Strip(lines[n]);
      if stripped == "" || StartsWith(stripped, "#") {
        continue;
      }
      if StartsWith(Upper(stripped), "ARG") {
        continue;
      }
      if StartsWith(Upper(stripped), "FROM ") {
        var parts := Words(stripped);
        if |parts| >= 2 {
          return Some(parts[1]);
        }
        return None;
      }
      return None;
    }
    return None;
  }

  predicate IsKnownGood(image: string) {
    image != "" && (image[0] == '$' || exists k :: 0 <= k < |FAMILIES| && StartsWith(Lower(image), FAMILIES[k]))
  }

  // ----- Normalising -----

  predicate EndsInNewline(line: string) {
    line != "" && line[|line| - 1] == '\n'
  }

  /** The `FROM` line with its image replaced and its words respaced. */
  function NewFrom(line: string): string
    requires |Words(Strip(line))| >= 2
  {
    var suffix := JoinWords(Words(Strip(line))[2..]);
    FROM_FALLBACK + (if suffix != "" then " " + suffix else "") + (if EndsInNewline(line) then "\n" else "")
  }

  function SwapFirst(lines: seq<string>): seq<string> {
    if lines == [] then []
    else if IsFrom(lines[0]) && |Words(Strip(lines[0]))| >= 2 then [NewFrom(lines[0])] + lines[1..]
    else [lines[0]] + SwapFirst(lines[1..])
  }

  predicate MentionsFrom(line: string) {
    StartsWith(Upper(Strip(line)), "FROM")
  }

  function WithoutFroms(lines: seq<string>): seq<string>
    decreases |lines|
  {
    if lines == [] then [] else
      var n := |lines| - 1;
      WithoutFroms(lines[..n]) + (if MentionsFrom(lines[n]) then [] else [lines[n]])
  }

  function Normalized(dockerfile: string): string {
    var lines := SplitLines(dockerfile);
    var image := FirstImage(lines);
    if image.None? then FROM_FALLBACK + "\n" + Join(WithoutFroms(lines))
    else if IsKnownGood(image.value) then dockerfile
    else Join(SwapFirst(lines))
  }

  method NormalizeDockerfileFrom(dockerfile: string) returns (r: string)
    ensures r == Normalized(dockerfile)
  {
    hide Strip, Words, NewFrom, IsKnownGood, Join, FirstImage, IsFrom, MentionsFrom, FROM_FALLBACK, FALLBACK, FAMILIES,
      SplitLines, SwapFirst;
    var lines := SplitLines(dockerfile);
    var image := ExtractFromImage(dockerfile);
    if image.None? {
      var cleaned: seq<string> := [];
      for n := 0 to |lines|
        invariant cleaned == WithoutFroms(lines[..n])
      {
        assert lines[..n + 1][..n] == lines[..n];
        if !MentionsFrom(lines[n]) {
          cleaned := cleaned + [lines[n]];
        }
      }
      assert lines[..|lines|] == lines;
      return FROM_FALLBACK + "\n" + Join(cleaned);
    }
    if IsKnownGood(image.value) {
      return dockerfile;
    }
    var newLines: seq<string> := [];
    var replaced := false;
    assert lines[0..] == lines;
    for n := 0 to |lines|
      invariant SwapFirst(lines) == newLines + (if replaced then lines[n..] else SwapFirst(lines[n..]))
    {
      SwapStep(newLines, lines, n);
      if !replaced && IsFrom(lines[n]) && |Words(Strip(lines[n]))| >= 2 {
        newLines := newLines + [NewFrom(lines[n])];
        replaced := true;
      } else {
        newLines := newLines + [lines[n]];
      }
    }
    NothingToSwap(newLines, lines);
    return Join(newLines);
  }

  lemma SwapStep(done: seq<string>, lines: seq<string>, n: nat)
    requires n < |lines|
    ensures done + lines[n..] == (done + [lines[n]]) + lines[n + 1..]
    ensures done + SwapFirst(lines[n..]) ==
      if IsFrom(lines[n]) && |Words(Strip(lines[n]))| >= 2 then (done + [NewFrom(lines[n])]) + lines[n + 1..]
      else (done + [lines[n]]) + SwapFirst(lines[n + 1..])
  {
    hide IsFrom, NewFrom, Words;
    assert lines[n..][1..] == lines[n + 1..];
  }

  lemma NothingToSwap(done: seq<string>, lines: seq<string>)
    ensures done + lines[|lines|..] == done && done + SwapFirst(lines[|lines|..]) == done
  {
  }

  // ----- Words, split and joined -----

  lemma {:induction false} WordLengthOf(w: string, rest: string)
    requires IsWord(w) && (rest != "" ==> IsSpace(rest[0]))
    ensures WordLength(w + rest) == |w|
    decreases |w|
  {
    hide IsSpace;
    assert (w + rest)[1..] == w[1..] + rest;
    if |w| == 1 {
      assert w[1..] + rest == rest;
    } else {
      WordLengthOf(w[1..], rest);
    }
  }

  lemma {:induction false} WordLengthAtLeast(w: string, rest: string)
    requires IsWord(w)
    ensures WordLength(w + rest) >= |w|
    decreases |w|
  {
    hide IsSpace;
    assert (w + rest)[1..] == w[1..] + rest;
    if |w| > 1 {
      WordLengthAtLeast(w[1..], rest);
    }
  }

  lemma WordsFront(w: string, rest: string)
    requires IsWord(w) && (rest != "" ==> IsSpace(rest[0]))
    ensures Words(w + rest) == [w] + Words(rest)
  {
    hide IsSpace;
    WordLengthOf(w, rest);
    assert (w + rest)[..|w|] == w && (w + rest)[|w|..] == rest;
  }

  lemma {:induction false} WordsOfSpaces(s: string)
    requires forall i :: 0 <= i < |s| ==> IsSpace(s[i])
    ensures Words(s) == []
    decreases |s|
  {
    hide IsSpace;
    if s != "" {
      WordsOfSpaces(s[1..]);
    }
  }

  lemma WordsSkip(c: char, s: string)
    requires IsSpace(c)
    ensures Words([c] + s) == Words(s)
  {
    assert ([c] + s)[1..] == s;
  }

  /** Joining words and splitting again gives them back. */
  lemma {:induction false} WordsOfJoin(ws: seq<string>, ending: string)
    requires AllWords(ws) && forall i :: 0 <= i < |ending| ==> IsSpace(ending[i])
    ensures Words(JoinWords(ws) + ending) == ws
    decreases |ws|
  {
    hide IsSpace, Words;
    if ws == [] {
      assert "" + ending == ending;
      WordsOfSpaces(ending);
    } else if |ws| == 1 {
      WordsFront(ws[0], ending);
      WordsOfSpaces(ending);
      assert ws == [ws[0]];
    } else {
      var tail := JoinWords(ws[1..]) + ending;
      assert JoinWords(ws) + ending == ws[0] + ([' '] + tail);
      assert IsSpace(' ') by {
        BlankIsSpace();
      }
      WordsFront(ws[0], [' '] + tail);
      WordsSkip(' ', tail);
      WordsOfJoin(ws[1..], ending);
    }
  }

  lemma BlankIsSpace()
    ensures IsSpace(' ') && IsSpace('\n')
  {
  }

  lemma {:induction false} WordLengthWord(s: string)
    ensures forall i :: 0 <= i < WordLength(s) ==> !IsSpace(s[i])
    ensures WordLength(s) < |s| ==> IsSpace(s[WordLength(s)])
    decreases |s|
  {
    hide IsSpace;
    if s != "" && !IsSpace(s[0]) {
      WordLengthWord(s[1..]);
      forall i | 0 <= i < WordLength(s) ensures !IsSpace(s[i]) {
        if i > 0 {
          assert s[i] == s[1..][i - 1];
        }
      }
    }
  }

  lemma {:induction false} WordsAreWords(s: string)
    ensures AllWords(Words(s))
    decreases |s|
  {
    hide IsSpace;
    if s != "" {
      if IsSpace(s[0]) {
        WordsAreWords(s[1..]);
      } else {
        WordLengthWord(s);
        WordsAreWords(s[WordLength(s)..]);
      }
    }
  }

  lemma {:induction false} WordsNonempty(s: string)
    requires s != "" && !IsSpace(s[|s| - 1])
    ensures Words(s) != []
    decreases |s|
  {
    hide IsSpace;
    if IsSpace(s[0]) {
      assert |s| > 1;
      WordsNonempty(s[1..]);
    }
  }

  // ----- Stripping -----

  lemma {:induction false} StripRightKeeps(u: string, t: string)
    requires u != "" && !IsSpace(u[|u| - 1])
    ensures u <= StripRight(u + t)
    decreases |t|
  {
    hide IsSpace;
    if t == "" {
      assert u + t == u;
    } else {
      assert (u + t)[..|u + t| - 1] == u + t[..|t| - 1];
      StripRightKeeps(u, t[..|t| - 1]);
    }
  }

  lemma StripKeeps(u: string, t: string)
    requires u != "" && !IsSpace(u[0]) && !IsSpace(u[|u| - 1])
    ensures u <= Strip(u + t)
  {
    hide IsSpace;
    StripRightKeeps(u, t);
    assert StripLeft(u + t) == u + t;
  }

  /** A `FROM` line always names an image: nothing is left of a trailing blank. */
  lemma FromHasImage(line: string)
    requires IsFrom(line)
    ensures |Words(Strip(line))| >= 2
  {
    var s := Strip(line);
    hide Words, IsWord;
    var t := s[4..];
    StripRightEnds(StripLeft(line));
    FromLetters(s);
    assert |s| > 5 && t[|t| - 1] == s[|s| - 1] by {
      hide *;
      AfterFrom(s);
    }
    assert s == s[..4] + t;
    WordsFront(s[..4], t);
    WordsNonempty(t);
  }

  lemma FromLetters(s: string)
    requires StartsWith(Upper(s), "FROM ")
    ensures |s| >= 5 && s[4] == ' ' && IsWord(s[..4])
  {
    var from := "FROM ";
    forall i | 0 <= i < 5 ensures UpperChar(s[i]) == from[i] {
      assert Upper(s)[i] == from[i];
    }
    LetterIsWord(s[0]);
    LetterIsWord(s[1]);
    LetterIsWord(s[2]);
    LetterIsWord(s[3]);
  }

  lemma LetterIsWord(c: char)
    ensures 'A' <= UpperChar(c) <= 'Z' ==> !IsSpace(c)
    ensures UpperChar(c) == ' ' ==> c == ' '
  {
  }

  lemma AfterFrom(s: string)
    requires StartsWith(Upper(s), "FROM ") && s != "" && !IsSpace(s[|s| - 1])
    ensures |s| > 5
  {
    FromLetters(s);
    BlankIsSpace();
  }
}
