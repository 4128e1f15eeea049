/** What normalising a Dockerfile's base image keeps and guarantees. */
module DockerFromLaws {
  import opened Wrappers
  import opened TextLines
  import opened DockerFrom

  // ----- The fallback image -----

  predicate Printable(c: char) {
    '!' <= c <= '~'
  }

  lemma PrintableIsWord(s: string)
    requires s != "" && forall i :: 0 <= i < |s| ==> Printable(s[i])
    ensures IsWord(s)
  {
  }

  lemma WordAppend(a: string, b: string)
    requires IsWord(a) && IsWord(b)
    ensures IsWord(a + b)
  {
  }

  lemma FallbackIsWord()
    ensures IsWord(FALLBACK) && IsWord("FROM")
  {
    hide IsSpace;
    PrintableIsWord("ubuntu22.04");
    PrintableIsWord("runtime-");
    WordAppend("runtime-", "ubuntu22.04");
    PrintableIsWord("cuda11.8.0-");
    WordAppend("cuda11.8.0-", "runtime-" + "ubuntu22.04");
    PrintableIsWord("py3.10-");
    WordAppend("py3.10-", "cuda11.8.0-" + ("runtime-" + "ubuntu22.04"));
    PrintableIsWord(":2.1.0-");
    WordAppend(":2.1.0-", "py3.10-" + ("cuda11.8.0-" + ("runtime-" + "ubuntu22.04")));
    PrintableIsWord("runpod/pytorch");
    WordAppend("runpod/pytorch", ":2.1.0-" + ("py3.10-" + ("cuda11.8.0-" + ("runtime-" + "ubuntu22.04"))));
    PrintableIsWord("FROM");
  }

  lemma FallbackIsKnownGood(t: string)
    ensures IsKnownGood(FALLBACK + t)
  {
    var image := FALLBACK + t;
    var fam := "runpod/pytorch";
    forall i | 0 <= i < 14 ensures Lower(image)[i] == fam[i] {
      assert image[i] == FALLBACK[i];
    }
    assert FAMILIES[0] == fam;
    assert StartsWith(Lower(image), FAMILIES[0]);
  }

  // ----- Lines -----

  lemma {:induction false} UnbrokenExtends(u: string, r: string)
    requires Unbroken(u) && r != ""
    ensures LineLength(u + r) == |u| + LineLength(r)
    decreases |u|
  {
    hide IsBreak;
    if u == "" {
      assert u + r == r;
    } else {
      assert (u + r)[1..] == u[1..] + r;
      UnbrokenExtends(u[1..], r);
    }
  }

  lemma UnbrokenStart(u: string, r: string)
    requires Unbroken(u) && u != ""
    ensures LineLength(u + r) >= |u|
  {
    if r == "" {
      assert u + r == u;
      UnbrokenAlone(u);
    } else {
      UnbrokenExtends(u, r);
    }
  }

  /** A line that is not the last keeps its length whatever follows, except a newline where
      none followed before. */
  lemma {:induction false} LineLengthCut(d: string, r: string)
    requires d != "" && LineLength(d) < |d|
    requires r != "" ==> r[0] != '\n' || d[LineLength(d)] == '\n'
    ensures LineLength(d[..LineLength(d)] + r) == LineLength(d)
    decreases |d|
  {
    var n := LineLength(d);
    var s := d[..n] + r;
    if IsBreak(d[0]) {
      if d[0] == '\r' && |s| > 1 {
        assert n == 1 ==> s[1] == r[0];
      }
    } else {
      LineLengthCut(d[1..], r);
      assert s[1..] == d[1..][..n - 1] + r;
    }
  }

  lemma SplitCons(line: string, more: string)
    requires line != "" && LineLength(line + more) == |line|
    ensures SplitLines(line + more) == [line] + SplitLines(more)
  {
    assert (line + more)[..|line|] == line && (line + more)[|line|..] == more;
  }

  lemma JoinCons(lines: seq<string>, i: nat, r: string)
    requires 0 < i <= |lines|
    ensures Join(lines[..i]) + r == lines[0] + (Join(lines[1..][..i - 1]) + r)
  {
    assert lines[..i][1..] == lines[1..][..i - 1];
  }

  /** Replacing what follows the first `i` lines leaves those lines as they are. */
  lemma {:induction false} SplitPrefix(d: string, i: nat, r: string)
    requires i < |SplitLines(d)| && (r != "" ==> r[0] != '\n')
    ensures SplitLines(Join(SplitLines(d)[..i]) + r) == SplitLines(d)[..i] + SplitLines(r)
    decreases i
  {
    if i == 0 {
      assert SplitLines(d)[..0] == [];
      assert "" + r == r;
    } else {
      assert d != "";
      hide *;
      SplitStep(d);
      var n := LineLength(d);
      var line, rest, lines := d[..n], d[n..], SplitLines(d);
      var more := Join(SplitLines(rest)[..i - 1]) + r;
      SplitPrefix(rest, i - 1, r);
      JoinCons(lines, i, r);
      FirstOfMore(rest, i - 1, r);
      assert n < |d| by {
        if rest == "" {
          NoLines();
        }
      }
      LineLengthCut(d, more);
      SplitCons(line, more);
      TakeCons(lines, i, SplitLines(r));
    }
  }

  lemma TakeCons<T>(xs: seq<T>, i: nat, ys: seq<T>)
    requires 0 < i <= |xs|
    ensures xs[..i] + ys == [xs[0]] + (xs[1..][..i - 1] + ys)
  {
    assert xs[..i] == [xs[0]] + xs[1..][..i - 1];
  }

  lemma FirstOfMore(rest: string, i: nat, r: string)
    requires i < |SplitLines(rest)| && (r != "" ==> r[0] != '\n')
    ensures var more := Join(SplitLines(rest)[..i]) + r; more != "" ==> more[0] != '\n' || rest[0] == '\n'
  {
    if i > 0 {
      assert SplitLines(rest)[..i][0] == rest[..LineLength(rest)];
    }
  }

  lemma {:induction false} SplitSuffix(d: string, i: nat)
    requires i <= |SplitLines(d)|
    ensures SplitLines(Join(SplitLines(d)[i..])) == SplitLines(d)[i..]
    decreases i
  {
    if i == 0 {
      JoinOfSplit(d);
      assert SplitLines(d)[0..] == SplitLines(d);
    } else {
      var rest := d[LineLength(d)..];
      SplitSuffix(rest, i - 1);
      assert SplitLines(d)[i..] == SplitLines(rest)[i - 1..];
    }
  }

  // ----- The fallback as first instruction -----

  lemma FromFallbackShape()
    ensures FROM_FALLBACK == "FROM" + ([' '] + FALLBACK) && Unbroken(FROM_FALLBACK)
    ensures FROM_FALLBACK[0] == 'F' && !IsSpace(FROM_FALLBACK[|FROM_FALLBACK| - 1])
  {
    hide IsSpace, FALLBACK;
    FallbackIsWord();
    WordsAreUnbroken("FROM");
    WordsAreUnbroken(FALLBACK);
    assert FROM_FALLBACK == "FROM" + ([' '] + FALLBACK);
    assert FROM_FALLBACK[|FROM_FALLBACK| - 1] == FALLBACK[|FALLBACK| - 1];
  }

  lemma WordsAreUnbroken(w: string)
    requires IsWord(w)
    ensures Unbroken(w)
  {
  }

  lemma FallbackLine(line: string)
    requires FROM_FALLBACK <= line
    ensures FROM_FALLBACK <= Strip(line)
    ensures IsFrom(line) && !IsSkipped(line)
    ensures |Words(Strip(line))| >= 2 && FALLBACK <= Words(Strip(line))[1]
  {
    hide FALLBACK, FROM_FALLBACK, IsSpace, Words, Strip, IsSkipped, IsFrom, Unbroken, IsWord;
    FromFallbackShape();
    var u := FROM_FALLBACK;
    assert line == u + line[|u|..];
    assert !IsSpace('F') by {
      LetterIsWord('F');
    }
    StripKeeps(u, line[|u|..]);
    var stripped := Strip(line);
    var t := stripped[|u|..];
    assert stripped == u + t;
    FallbackIsWord();
    assert stripped == "FROM" + ([' '] + (FALLBACK + t));
    BlankIsSpace();
    WordsFront("FROM", [' '] + (FALLBACK + t));
    WordsSkip(' ', FALLBACK + t);
    FirstWord(FALLBACK, t);
    FromNotSkipped(line);
  }

  lemma FirstWord(w: string, t: string)
    requires IsWord(w)
    ensures Words(w + t) != [] && w <= Words(w + t)[0]
  {
    hide IsSpace;
    WordLengthAtLeast(w, t);
  }

  lemma FromNotSkipped(line: string)
    requires FROM_FALLBACK <= Strip(line)
    ensures IsFrom(line) && !IsSkipped(line)
  {
    hide Strip, FALLBACK;
    var s := Strip(line);
    var from := "FROM ";
    forall i | 0 <= i < 5 ensures Upper(s)[i] == from[i] {
      assert s[i] == FROM_FALLBACK[i] == from[i];
    }
    assert StartsWith(Upper(s), from);
    assert s[0] == 'F' && Upper(s)[0] == 'F';
  }

  lemma FromIsNotSkipped(line: string)
    requires IsFrom(line)
    ensures !IsSkipped(line)
  {
    hide Strip;
    var s := Strip(line);
    FromLetters(s);
    assert Upper(s)[0] == 'F';
    assert UpperChar(s[0]) == 'F';
  }

  lemma StartsWithFallback(s: string)
    requires FROM_FALLBACK <= s
    ensures SplitLines(s) != [] && FROM_FALLBACK <= SplitLines(s)[0]
  {
    hide FROM_FALLBACK, FALLBACK, Unbroken, LineLength;
    FromFallbackShape();
    var u := FROM_FALLBACK;
    assert s == u + s[|u|..];
    UnbrokenStart(u, s[|u|..]);
  }

  /** The first instruction is a `FROM` with a known-good image. */
  predicate StartsKnownGood(dockerfile: string) {
    var image := FirstImage(SplitLines(dockerfile));
    image.Some? && IsKnownGood(image.value)
  }

  lemma FallbackFirst(lines: seq<string>)
    requires lines != [] && FROM_FALLBACK <= lines[0]
    ensures FirstImage(lines).Some? && IsKnownGood(FirstImage(lines).value)
  {
    hide FALLBACK, FROM_FALLBACK, IsSkipped, IsFrom, Words, Strip, IsKnownGood;
    FallbackLine(lines[0]);
    var image := Words(Strip(lines[0]))[1];
    assert image == FALLBACK + image[|FALLBACK|..];
    FallbackIsKnownGood(image[|FALLBACK|..]);
  }

  /** Line `i` is the first instruction, and it is a `FROM`. */
  predicate FromAt(lines: seq<string>, i: nat) {
    i < |lines| && IsFrom(lines[i]) && forall j :: 0 <= j < i ==> IsSkipped(lines[j])
  }

  lemma {:induction false} SkipFirst(pre: seq<string>, lines: seq<string>)
    requires forall j :: 0 <= j < |pre| ==> IsSkipped(pre[j])
    ensures FirstImage(pre + lines) == FirstImage(lines)
  {
    hide IsSkipped, IsFrom, Words, Strip;
    if pre == [] {
      assert pre + lines == lines;
    } else {
      assert (pre + lines)[1..] == pre[1..] + lines;
      SkipFirst(pre[1..], lines);
    }
  }

  lemma {:induction false} ImageIffFrom(lines: seq<string>) returns (i: nat)
    ensures FirstImage(lines).Some? ==> FromAt(lines, i)
    ensures FirstImage(lines).None? ==> forall k: nat :: !FromAt(lines, k)
  {
    hide IsSkipped, IsFrom, Words, Strip;
    i := 0;
    if lines != [] {
      if IsSkipped(lines[0]) {
        var k := ImageIffFrom(lines[1..]);
        i := k + 1;
        if IsFrom(lines[0]) {
          FromIsNotSkipped(lines[0]);
        }
        forall n: nat ensures FromAt(lines, n) ==> n > 0 && FromAt(lines[1..], n - 1) {
        }
      } else if IsFrom(lines[0]) {
        FromHasImage(lines[0]);
      }
    }
  }

  lemma {:induction false} SwapAtFrom(lines: seq<string>, i: nat)
    requires FromAt(lines, i)
    ensures |Words(Strip(lines[i]))| >= 2 && FirstImage(lines) == Some(Words(Strip(lines[i]))[1])
    ensures SwapFirst(lines) == lines[..i] + ([NewFrom(lines[i])] + lines[i + 1..])
  {
    hide IsSkipped, IsFrom, Words, Strip, NewFrom;
    if i == 0 {
      FromIsNotSkipped(lines[0]);
      FromHasImage(lines[0]);
    } else {
      if IsFrom(lines[0]) {
        FromIsNotSkipped(lines[0]);
      }
      SwapAtFrom(lines[1..], i - 1);
    }
  }

  // ----- The main results -----

  lemma NewFromStarts(line: string)
    requires |Words(Strip(line))| >= 2
    ensures FROM_FALLBACK <= NewFrom(line)
  {
    hide FROM_FALLBACK, Words, Strip, JoinWords;
  }

  lemma UnknownParts(d: string, i: nat)
    requires var lines := SplitLines(d);
      FromAt(lines, i) && |Words(Strip(lines[i]))| >= 2 && !IsKnownGood(Words(Strip(lines[i]))[1])
    ensures var lines := SplitLines(d);
      Normalized(d) == Join(lines[..i]) + (NewFrom(lines[i]) + Join(lines[i + 1..]))
    ensures var lines := SplitLines(d);
      SplitLines(Normalized(d)) == lines[..i] + SplitLines(NewFrom(lines[i]) + Join(lines[i + 1..]))
  {
    hide FROM_FALLBACK, FALLBACK, FAMILIES, Words, Strip, NewFrom, IsKnownGood, IsSkipped, IsFrom, FirstImage,
      SwapFirst, SplitLines, Join;
    var lines := SplitLines(d);
    SwapAtFrom(lines, i);
    var line := NewFrom(lines[i]);
    JoinAppend(lines[..i], [line] + lines[i + 1..]);
    JoinAppend([line], lines[i + 1..]);
    JoinOne(line);
    NewFromStarts(lines[i]);
    FromFallbackShape();
    SplitPrefix(d, i, line + Join(lines[i + 1..]));
  }

  lemma JoinOne(line: string)
    ensures Join([line]) == line
  {
  }

  /** The result always starts with a known-good base image. */
  lemma ResultStartsKnownGood(d: string)
    ensures StartsKnownGood(Normalized(d))
  {
    hide FROM_FALLBACK, FALLBACK, FAMILIES, Words, Strip, NewFrom, IsKnownGood, IsSkipped, IsFrom, FirstImage,
      SwapFirst, SplitLines, Join, WithoutFroms;
    var lines := SplitLines(d);
    var i := ImageIffFrom(lines);
    if FirstImage(lines).None? {
      StartsWithFallback(Normalized(d));
      FallbackFirst(SplitLines(Normalized(d)));
    } else {
      SwapAtFrom(lines, i);
      if !IsKnownGood(FirstImage(lines).value) {
        UnknownParts(d, i);
        NewFromStarts(lines[i]);
        var rest := NewFrom(lines[i]) + Join(lines[i + 1..]);
        StartsWithFallback(rest);
        FallbackFirst(SplitLines(rest));
        SkipFirst(lines[..i], SplitLines(rest));
      }
    }
  }

  /** A Dockerfile comes back unchanged exactly when it already starts with a known-good image. */
  lemma UnchangedIff(d: string)
    ensures Normalized(d) == d <==> StartsKnownGood(d)
  {
    hide FROM_FALLBACK, FALLBACK, IsKnownGood, FirstImage, SwapFirst, SplitLines, Join, WithoutFroms;
    ResultStartsKnownGood(d);
  }

  lemma NormalizingTwice(d: string)
    ensures Normalized(Normalized(d)) == Normalized(d)
  {
    ResultStartsKnownGood(d);
    UnchangedIff(Normalized(d));
  }

  lemma NewFromWords(line: string)
    requires |Words(Strip(line))| >= 2
    ensures Words(NewFrom(line)) == ["FROM", FALLBACK] + Words(Strip(line))[2..]
    ensures NewFrom(line) == JoinWords(["FROM", FALLBACK] + Words(Strip(line))[2..]) +
      (if EndsInNewline(line) then "\n" else "")
  {
    hide FALLBACK, Words, Strip, IsSpace, IsWord;
    var rest := Words(Strip(line))[2..];
    var ending := if EndsInNewline(line) then "\n" else "";
    var words := ["FROM", FALLBACK] + rest;
    WordsAreWords(Strip(line));
    FallbackIsWord();
    BlankIsSpace();
    JoinFrom(rest);
    assert NewFrom(line) == JoinWords(words) + ending;
    WordsOfJoin(words, ending);
  }

  lemma JoinFrom(rest: seq<string>)
    requires AllWords(rest)
    ensures JoinWords(["FROM", FALLBACK] + rest)
      == FROM_FALLBACK + if JoinWords(rest) != "" then " " + JoinWords(rest) else ""
  {
    hide FALLBACK;
    var words := ["FROM", FALLBACK] + rest;
    assert words[1..] == [FALLBACK] + rest;
    assert words[1..][1..] == rest;
    FallbackIsWord();
    if rest != [] {
      assert IsWord(rest[0]);
      assert JoinWords(words[1..]) == FALLBACK + (" " + JoinWords(rest));
      assert JoinWords(words) == "FROM" + (" " + (FALLBACK + (" " + JoinWords(rest))));
      assert FROM_FALLBACK == "FROM" + (" " + FALLBACK);
    } else {
      assert words[1..] == [FALLBACK];
    }
  }

  lemma {:induction false} JoinedWordsUnbroken(ws: seq<string>)
    requires AllWords(ws)
    ensures Unbroken(JoinWords(ws))
    decreases |ws|
  {
    hide IsSpace, IsBreak;
    if ws != [] {
      WordsAreUnbroken(ws[0]);
      if |ws| > 1 {
        JoinedWordsUnbroken(ws[1..]);
        assert !IsBreak(' ') by {
          BlankIsNoBreak();
        }
      }
    }
  }

  lemma BlankIsNoBreak()
    ensures !IsBreak(' ')
  {
  }

  /** What the new line is made of: unbroken text, then at most a newline. */
  lemma NewFromText(line: string) returns (text: string)
    requires |Words(Strip(line))| >= 2
    ensures text != "" && Unbroken(text)
    ensures NewFrom(line) == text + if EndsInNewline(line) then "\n" else ""
  {
    hide FALLBACK, Words, Strip, IsSpace, IsBreak, NewFrom, JoinWords, Unbroken;
    var rest := Words(Strip(line))[2..];
    WordsAreWords(Strip(line));
    FallbackIsWord();
    NewFromWords(line);
    text := JoinWords(["FROM", FALLBACK] + rest);
    JoinedWordsUnbroken(["FROM", FALLBACK] + rest);
    JoinFrom(rest);
    assert text != "";
  }

  lemma NewFromLines(line: string, rest: string)
    requires |Words(Strip(line))| >= 2
    ensures (EndsInNewline(line) || rest == "") ==>
      SplitLines(NewFrom(line) + rest) == [NewFrom(line)] + SplitLines(rest)
    ensures !EndsInNewline(line) && rest != "" ==>
      SplitLines(NewFrom(line) + rest) != [] && SplitLines(NewFrom(line) + rest)[0] != NewFrom(line)
  {
    hide FALLBACK, Words, Strip, IsBreak, NewFrom, LineLength, Unbroken;
    var text := NewFromText(line);
    if EndsInNewline(line) {
      UnbrokenIsLine(text);
      LineLengthStable(text + "\n", rest);
      SplitCons(text + "\n", rest);
    } else {
      assert NewFrom(line) == text;
      if rest == "" {
        UnbrokenAlone(text);
        assert text + rest == text;
        SplitCons(text, rest);
      } else {
        UnbrokenExtends(text, rest);
        assert |SplitLines(text + rest)[0]| > |text|;
      }
    }
  }

  lemma UnbrokenIsLine(text: string)
    requires Unbroken(text)
    ensures IsLine(text + "\n")
  {
    UnbrokenLine(text);
  }

  /** An image of no known family changes in its one line alone: all other text is kept, and in
      the line only the image word. The lines stay lines exactly when that line ends in a newline
      or is the last one; after any other line break it runs into the next line. */
  lemma UnknownImage(d: string, i: nat)
    requires FromAt(SplitLines(d), i) && !StartsKnownGood(d)
    ensures var lines := SplitLines(d);
      && |Words(Strip(lines[i]))| >= 2
      && Normalized(d) == Join(lines[..i]) + (NewFrom(lines[i]) + Join(lines[i + 1..]))
      && Words(NewFrom(lines[i])) == ["FROM", FALLBACK] + Words(Strip(lines[i]))[2..]
      && (SplitLines(Normalized(d)) == lines[..i] + ([NewFrom(lines[i])] + lines[i + 1..])
          <==> EndsInNewline(lines[i]) || i == |lines| - 1)
  {
    hide FROM_FALLBACK, FALLBACK, FAMILIES, Words, Strip, NewFrom, IsKnownGood, IsSkipped, IsFrom, FirstImage,
      SplitLines, Normalized, Join;
    var lines := SplitLines(d);
    SwapAtFrom(lines, i);
    UnknownParts(d, i);
    NewFromWords(lines[i]);
    var rest := Join(lines[i + 1..]);
    NewFromLines(lines[i], rest);
    SplitSuffix(d, i + 1);
    RestIsEmpty(d, i);
    var tail := SplitLines(NewFrom(lines[i]) + rest);
    var wanted := [NewFrom(lines[i])] + lines[i + 1..];
    assert lines[..i] + tail == lines[..i] + wanted <==> tail == wanted by {
      hide *;
      SameAfter(lines[..i], tail, wanted);
    }
  }

  lemma SameAfter<T>(a: seq<T>, x: seq<T>, y: seq<T>)
    ensures a + x == a + y <==> x == y
  {
    if a + x == a + y {
      assert x == (a + x)[|a|..] == (a + y)[|a|..] == y;
    }
  }

  lemma RestIsEmpty(d: string, i: nat)
    requires i < |SplitLines(d)|
    ensures Join(SplitLines(d)[i + 1..]) == "" <==> i == |SplitLines(d)| - 1
  {
    SplitNonempty(d);
  }

  // ----- No first image -----

  /** One line, with or without its line break. */
  predicate IsPiece(line: string) {
    line != "" && LineLength(line) == |line|
  }

  predicate Ended(line: string) {
    line != "" && IsBreak(line[|line| - 1])
  }

  predicate Pieces(lines: seq<string>) {
    forall i :: 0 <= i < |lines| ==> IsPiece(lines[i]) && (i < |lines| - 1 ==> Ended(lines[i]))
  }

  /** A carriage return meets a newline where two lines join. */
  predicate Seam(a: string, b: string) {
    a != "" && b != "" && a[|a| - 1] == '\r' && b[0] == '\n'
  }

  predicate Seamless(lines: seq<string>) {
    forall i :: 0 < i < |lines| ==> !Seam(lines[i - 1], lines[i])
  }

  lemma {:induction false} PieceExtends(line: string, r: string)
    requires IsPiece(line) && Ended(line) && r != ""
    ensures LineLength(line + r) == |line| + if Seam(line, r) then 1 else 0
    decreases |line|
  {
    if IsBreak(line[0]) {
      assert line + r != "" && (line + r)[0] == line[0];
      if |line| == 1 {
        assert (line + r)[1] == r[0];
      } else {
        assert |line| == 2;
        assert (line + r)[1] == line[1];
      }
    } else {
      hide IsBreak;
      assert (line + r)[1..] == line[1..] + r;
      PieceExtends(line[1..], r);
    }
  }

  /** Lines joined and split again come back exactly when no carriage return meets a newline. */
  lemma {:induction false} RejoinIff(lines: seq<string>)
    requires Pieces(lines)
    ensures SplitLines(Join(lines)) == lines <==> Seamless(lines)
    decreases |lines|
  {
    hide LineLength, IsBreak;
    if |lines| == 1 {
      assert Join(lines) == lines[0] + "" == lines[0];
      SplitCons(lines[0], "");
    } else if |lines| > 1 {
      var line, rest := lines[0], lines[1..];
      assert forall i :: 0 <= i < |rest| ==> rest[i] == lines[i + 1];
      RejoinIff(rest);
      var r := Join(rest);
      assert r == rest[0] + Join(rest[1..]);
      assert r[0] == lines[1][0];
      PieceExtends(line, r);
      if Seam(line, lines[1]) {
        assert |SplitLines(line + r)[0]| == |line| + 1;
      } else {
        SplitCons(line, r);
        SameAfter([line], SplitLines(r), rest);
        SeamlessCons(lines);
      }
    }
  }

  lemma SeamlessCons(lines: seq<string>)
    requires |lines| > 1 && !Seam(lines[0], lines[1])
    ensures Seamless(lines) <==> Seamless(lines[1..])
  {
    forall i | 0 < i < |lines[1..]| ensures lines[1..][i] == lines[i + 1] && lines[1..][i - 1] == lines[i] {
    }
    if Seamless(lines[1..]) {
      forall i | 0 < i < |lines| ensures !Seam(lines[i - 1], lines[i]) {
        if i > 1 {
          assert lines[i] == lines[1..][i - 1] && lines[i - 1] == lines[1..][i - 2];
        }
      }
    }
    if Seamless(lines) {
      forall i | 0 < i < |lines[1..]| ensures !Seam(lines[1..][i - 1], lines[1..][i]) {
        assert !Seam(lines[i + 1 - 1], lines[i + 1]);
      }
    }
  }

  lemma {:induction false} FirstPiece(d: string)
    requires d != ""
    ensures IsPiece(d[..LineLength(d)]) && (LineLength(d) < |d| ==> Ended(d[..LineLength(d)]))
    decreases |d|
  {
    var n := LineLength(d);
    if !IsBreak(d[0]) && |d| > 1 {
      FirstPiece(d[1..]);
      assert d[..n][1..] == d[1..][..n - 1];
    }
  }

  lemma {:induction false} SplitIsPieces(d: string)
    ensures Pieces(SplitLines(d))
    decreases |d|
  {
    hide LineLength, IsPiece, Ended;
    if d != "" {
      var n := LineLength(d);
      FirstPiece(d);
      SplitIsPieces(d[n..]);
      var lines, rest := SplitLines(d), SplitLines(d[n..]);
      forall i | 0 <= i < |lines| ensures IsPiece(lines[i]) && (i < |lines| - 1 ==> Ended(lines[i])) {
        if i > 0 {
          assert lines[i] == rest[i - 1];
        }
      }
    }
  }

  predicate AllEnded(lines: seq<string>) {
    forall i :: 0 <= i < |lines| ==> IsPiece(lines[i]) && Ended(lines[i])
  }

  lemma {:induction false} DroppingKeepsEnded(lines: seq<string>)
    requires AllEnded(lines)
    ensures AllEnded(WithoutFroms(lines))
    decreases |lines|
  {
    hide IsPiece, Ended, MentionsFrom;
    if lines != [] {
      DroppingKeepsEnded(lines[..|lines| - 1]);
    }
  }

  lemma DroppingKeepsPieces(lines: seq<string>)
    requires Pieces(lines)
    ensures Pieces(WithoutFroms(lines))
  {
    hide IsPiece, Ended, MentionsFrom;
    if lines != [] {
      DroppingKeepsEnded(lines[..|lines| - 1]);
    }
  }

  /** Without a first image the result is the fallback instruction followed by all lines that do
      not begin with `FROM`, in order. They stay lines exactly when dropping the others does not
      bring a carriage return next to a newline. */
  lemma MissingImage(d: string)
    requires FirstImage(SplitLines(d)).None?
    ensures var kept := WithoutFroms(SplitLines(d));
      && Normalized(d) == FROM_FALLBACK + "\n" + Join(kept)
      && (SplitLines(Normalized(d)) == [FROM_FALLBACK + "\n"] + kept <==> Seamless(kept))
  {
    hide FROM_FALLBACK, FALLBACK, FirstImage, SplitLines, WithoutFroms, Join, Pieces, Seamless, Unbroken, LineLength,
      IsBreak;
    var lines := SplitLines(d);
    var kept := WithoutFroms(lines);
    SplitIsPieces(d);
    DroppingKeepsPieces(lines);
    RejoinIff(kept);
    FromFallbackShape();
    UnbrokenIsLine(FROM_FALLBACK);
    LineLengthStable(FROM_FALLBACK + "\n", Join(kept));
    SplitCons(FROM_FALLBACK + "\n", Join(kept));
    SameAfter([FROM_FALLBACK + "\n"], SplitLines(Join(kept)), kept);
  }

  // ----- Line breaks that are not kept -----

  lemma FromLineWords(image: string, ending: string)
    requires IsWord(image) && forall i :: 0 <= i < |ending| ==> IsSpace(ending[i])
    ensures var line := FromWord(image) + ending;
      Strip(line) == FromWord(image) && IsFrom(line) && Words(Strip(line)) == ["FROM", image]
  {
    hide Words, IsSpace, FALLBACK;
    var s := FromWord(image);
    FallbackIsWord();
    WordsOfJoin(["FROM", image], "");
    assert JoinWords(["FROM", image]) + "" == s by {
      assert ["FROM", image][1..] == [image];
    }
    assert s[0] == 'F' && s[|s| - 1] == image[|image| - 1];
    assert !IsSpace('F') by {
      LetterIsWord('F');
    }
    assert StripLeft(s + ending) == s + ending;
    StripRightOf(s, ending);
    var from := "FROM ";
    assert forall i :: 0 <= i < 5 ==> Upper(s)[i] == from[i];
    assert StartsWith(Upper(s), from);
  }

  function FromWord(image: string): string {
    "FROM " + image
  }

  /** After a lone carriage return the next line is swallowed: `FROM image` ended by one, then
      `rest`, becomes a single instruction. */
  lemma ReturnSwallowsLine(image: string, rest: string)
    requires IsWord(image) && !IsKnownGood(image) && rest != "" && rest[0] != '\n'
    ensures Normalized(FromWord(image) + "\r" + rest) == FROM_FALLBACK + rest
  {
    hide FALLBACK, FROM_FALLBACK, IsKnownGood, Words, Strip, IsWord, IsSpace, IsFrom, IsSkipped, FirstImage,
      SplitLines, Normalized, NewFrom, Join, JoinWords, LineLength, SwapFirst;
    var line := FromWord(image) + "\r";
    var d := line + rest;
    ReturnIsSpace();
    FromLineWords(image, "\r");
    FromLineLength(image, rest);
    SplitCons(line, rest);
    var lines := SplitLines(d);
    assert lines[0] == line && lines[1..] == SplitLines(rest);
    assert FromAt(lines, 0);
    SwapAtFrom(lines, 0);
    UnknownParts(d, 0);
    JoinOfSplit(rest);
    NoLinesJoined();
    NewFromReturn(line, image);
    assert lines[..0] == [];
    assert "" + (FROM_FALLBACK + rest) == FROM_FALLBACK + rest;
  }

  lemma ReturnIsSpace()
    ensures forall i :: 0 <= i < 1 ==> IsSpace("\r"[i])
  {
  }

  lemma NoLinesJoined()
    ensures Join([]) == ""
  {
  }

  lemma NewFromReturn(line: string, image: string)
    requires Words(Strip(line)) == ["FROM", image] && !EndsInNewline(line)
    ensures NewFrom(line) == FROM_FALLBACK
  {
    hide FALLBACK, FROM_FALLBACK, Words, Strip;
    assert ["FROM", image][2..] == [];
    assert FROM_FALLBACK + "" + "" == FROM_FALLBACK;
  }

  lemma FromLineLength(image: string, rest: string)
    requires IsWord(image) && rest != "" && rest[0] != '\n'
    ensures LineLength(FromWord(image) + "\r" + rest) == |FromWord(image)| + 1
  {
    hide LineLength;
    WordsAreUnbroken(image);
    FromIsUnbroken();
    assert FromWord(image) + "\r" + rest == FromWord(image) + ("\r" + rest);
    assert IsBreak('\r');
    LineLengthOf(FromWord(image), "\r" + rest);
  }

  lemma FromIsUnbroken()
    ensures Unbroken("FROM ")
  {
  }

  /** Such an input: the build command becomes part of the image name. */
  lemma RunIsSwallowed()
    ensures Normalized(FromWord("x") + "\r" + "RUN y\n") == FROM_FALLBACK + "RUN y\n"
  {
    hide FALLBACK, FROM_FALLBACK, Normalized;
    PrintableIsWord("x");
    assert Lower("x")[0] == 'x';
    assert forall k :: 0 <= k < |FAMILIES| ==> FAMILIES[k] != "" && FAMILIES[k][0] != 'x';
    ReturnSwallowsLine("x", "RUN y\n");
  }

  /** Dropping a bare `FROM` between a carriage return and an empty line makes one line of two. */
  lemma DroppingJoinsLines()
    ensures FirstImage(SplitLines("R\rFROM\n\n")).None?
    ensures WithoutFroms(SplitLines("R\rFROM\n\n")) == ["R\r", "\n"] && !Seamless(["R\r", "\n"])
    ensures SplitLines(Normalized("R\rFROM\n\n")) != [FROM_FALLBACK + "\n", "R\r", "\n"]
  {
    hide FALLBACK, FROM_FALLBACK, Normalized, SplitLines, WithoutFroms, IsSkipped, IsFrom, FirstImage, Strip,
      MentionsFrom;
    var d := "R\rFROM\n\n";
    SeamLines();
    SeamKinds();
    DropMiddle("R\r", "FROM\n", "\n");
    NoFirstImage("R\r", ["FROM\n", "\n"]);
    assert ["R\r"] + ["FROM\n", "\n"] == ["R\r", "FROM\n", "\n"];
    assert Seam("R\r", "\n");
    assert !Seamless(["R\r", "\n"]) by {
      var kept := ["R\r", "\n"];
      assert Seam(kept[0], kept[1]);
    }
    MissingImage(d);
    assert [FROM_FALLBACK + "\n"] + ["R\r", "\n"] == [FROM_FALLBACK + "\n", "R\r", "\n"];
  }

  lemma SeamLines()
    ensures SplitLines("R\rFROM\n\n") == ["R\r", "FROM\n", "\n"]
  {
    hide SplitLines, LineLength, IsBreak;
    var d := "R\rFROM\n\n";
    SeamLengths();
    assert d == "R" + "\rFROM\n\n" && d[..2] == "R\r" && d[2..] == "FROM" + "\n\n";
    var e := "FROM" + "\n\n";
    assert e[..5] == "FROM\n" && e[5..] == "" + "\n";
    var f := "" + "\n";
    assert f[..1] == "\n" && f[1..] == "";
    SplitStep(d);
    SplitStep(e);
    SplitStep(f);
    NoLines();
  }

  lemma SeamLengths()
    ensures LineLength("R" + "\rFROM\n\n") == 2 && LineLength("FROM" + "\n\n") == 5 && LineLength("" + "\n") == 1
  {
    LineLengthOf("R", "\rFROM\n\n");
    LineLengthOf("FROM", "\n\n");
    LineLengthOf("", "\n");
  }

  lemma SeamKinds()
    ensures !IsSkipped("R\r") && !IsFrom("R\r") && !MentionsFrom("R\r") && MentionsFrom("FROM\n") && !MentionsFrom("\n")
  {
    SeamStrips();
    hide Strip;
    assert Upper("R")[0] == 'R' && |Upper("R")| == 1;
    assert Upper("FROM") == "FROM";
  }

  lemma SeamStrips()
    ensures Strip("R\r") == "R" && Strip("FROM\n") == "FROM" && Strip("\n") == ""
  {
    hide IsSpace;
    LetterIsWord('R');
    LetterIsWord('F');
    LetterIsWord('M');
    BlankIsSpace();
    ReturnIsSpace();
    StripsTo("R", "\r");
    StripsTo("FROM", "\n");
    assert "R" + "\r" == "R\r" && "FROM" + "\n" == "FROM\n";
    NewlineStrips();
  }

  lemma NewlineStrips()
    ensures Strip("\n") == ""
  {
    assert "\n"[1..] == "" && StripLeft("\n") == StripLeft("") == "";
  }

  lemma StripsTo(s: string, ending: string)
    requires s != "" && !IsSpace(s[0]) && !IsSpace(s[|s| - 1]) && forall i :: 0 <= i < |ending| ==> IsSpace(ending[i])
    ensures Strip(s + ending) == s
  {
    hide IsSpace;
    assert StripLeft(s + ending) == s + ending;
    StripRightOf(s, ending);
  }

  lemma DropMiddle(a: string, b: string, c: string)
    requires !MentionsFrom(a) && MentionsFrom(b) && !MentionsFrom(c)
    ensures WithoutFroms([a, b, c]) == [a, c]
  {
    hide MentionsFrom;
    assert [a, b, c][..2] == [a, b] && [a, b][..1] == [a] && [a][..0] == [];
    assert WithoutFroms([a]) == [] + [a] == [a];
    assert WithoutFroms([a, b]) == [a] + [] == [a];
  }

  lemma NoFirstImage(line: string, rest: seq<string>)
    requires !IsSkipped(line) && !IsFrom(line)
    ensures FirstImage([line] + rest).None?
  {
    hide IsSkipped, IsFrom;
  }

  // ----- A flag in front of the image -----

  /** `FROM --platform=... image` is taken to name an image of no known family: the flag, not the
      image, is what the fallback replaces, and the real image becomes a stray argument. */
  lemma FlagTakenForImage(d: string, i: nat)
    requires i < |SplitLines(d)| && FromAt(SplitLines(d), i)
    requires var words := Words(Strip(SplitLines(d)[i])); |words| >= 3 && StartsWith(words[1], "--")
    ensures var words := Words(Strip(SplitLines(d)[i]));
      && !StartsKnownGood(d)
      && FirstThree(Words(NewFrom(SplitLines(d)[i])), "FROM", FALLBACK, words[2])
  {
    var lines := SplitLines(d);
    var words := Words(Strip(lines[i]));
    hide *;
    SwapAtFrom(lines, i);
    NewFromWords(lines[i]);
    FlagIsNotAnImage(words[1]);
    ImageOf(d);
    ThirdWord("FROM", FALLBACK, words);
  }

  lemma ImageOf(d: string)
    ensures StartsKnownGood(d) ==> FirstImage(SplitLines(d)).Some? && IsKnownGood(FirstImage(SplitLines(d)).value)
  {
  }

  predicate FirstThree(words: seq<string>, a: string, b: string, c: string) {
    |words| >= 3 && words[0] == a && words[1] == b && words[2] == c
  }

  lemma ThirdWord(a: string, b: string, words: seq<string>)
    requires |words| >= 3
    ensures FirstThree([a, b] + words[2..], a, b, words[2])
  {
  }

  lemma FlagIsNotAnImage(image: string)
    requires StartsWith(image, "--")
    ensures !IsKnownGood(image)
  {
    assert image[0] == '-' && Lower(image)[0] == '-';
    forall k | 0 <= k < |FAMILIES| ensures FAMILIES[k] != "" && FAMILIES[k][0] != '-' {
    }
  }
}
