/** Finding the imports of curated helpers in a program's text. */
module ImportLines {
  import opened Wrappers
  import opened TextLines

  // ----- The pattern -----

  /** The text up to the next newline. */
  function RestOfLine(s: string): (n: nat)
    ensures n <= |s|
    ensures n < |s| ==> s[n] == '\n'
    ensures forall i :: 0 <= i < n ==> s[i] != '\n'
  {
    if s == "" || s[0] == '\n' then 0 else 1 + RestOfLine(s[1..])
  }

  /** The word and the spaces after it: what follows them. */
  function AfterWord(s: string, word: string): Option<string> {
    if StartsWith(s, word) && SpanSpaces(s[|word|..]) > 0 then Some(s[|word|..][SpanSpaces(s[|word|..])..]) else None
  }

  /** The last position before `n`, but not the first, that is no newline. */
  function LastOnLine(s: string, n: nat): (m: Option<nat>)
    requires n <= |s|
    ensures m.Some? ==> 0 < m.value < n
  {
    if n <= 1 then None else if s[n - 1] != '\n' then Some(n - 1) else LastOnLine(s, n - 1)
  }

  /** `\s+(.+)$`: the group and what follows it. The spaces take all they can, newlines included;
      when nothing is left for the group they give back as little as they must. */
  function SpacesThenLine(s: string): Option<(string, string)> {
    var n := SpanSpaces(s);
    if n == 0 then None
    else if n < |s| then
      var e := RestOfLine(s[n..]);
      Some((s[n..][..e], s[n..][e..]))
    else
      var m :- LastOnLine(s, n);
      Some((s[m..m + 1], s[m + 1..]))
  }

  const MODULE := "_reprolab_curated"

  /** `from\s+_reprolab_curated\s+import\s+(.+)$` at the start of `s`. */
  function MatchImport(s: string): Option<(string, string)> {
    var s1 :- AfterWord(s, "from");
    var s2 :- AfterWord(s1, MODULE);
    if StartsWith(s2, "import") then SpacesThenLine(s2[6..]) else None
  }

  predicate IsLineStart(source: string, p: nat)
    requires p <= |source|
  {
    p == 0 || source[p - 1] == '\n'
  }

  /** The groups of all matches that do not overlap, from position `p` on. */
  function ImportLists(source: string, p: nat): seq<string>
    requires p <= |source|
    decreases |source| - p
  {
    if IsLineStart(source, p) && MatchImport(source[p..]).Some? then
      var (group, rest) := MatchImport(source[p..]).value;
      [group] + if p < |source| - |rest| then ImportLists(source, |source| - |rest|) else []
    else if p < |source| then ImportLists(source, p + 1)
    else []
  }

  // ----- The check -----

  /** `{tok.strip() for tok in s.split(",")}` */
  function Tokens(s: string, start: nat, i: nat): (r: set<string>)
    requires start <= i <= |s|
    decreases |s| - i
  {
    if i == |s| then {Strip(s[start..])}
    else if s[i] == ',' then {Strip(s[start..i])} + Tokens(s, i + 1, i + 1)
    else Tokens(s, start, i + 1)
  }

  predicate Lists(imports: seq<string>, name: string) {
    exists k | 0 <= k < |imports| :: name in Tokens(imports[k], 0, 0)
  }

  predicate ImportPresent(source: string, name: string) {
    Lists(ImportLists(source, 0), name)
  }

  method CheckImportPresent(source: string, name: string) returns (present: bool)
    ensures present == ImportPresent(source, name)
  {
    hide ImportLists, Tokens;
    var imports := ImportLists(source, 0);
    for k := 0 to |imports|
      invariant forall i :: 0 <= i < k ==> name !in Tokens(imports[i], 0, 0)
    {
      if name in Tokens(imports[k], 0, 0) {
        return true;
      }
    }
    present := false;
  }

  // ----- The import line -----

  ghost predicate IsToken(name: string) {
    name != "" && ',' !in name && !IsSpace(name[0]) && !IsSpace(name[|name| - 1])
  }

  lemma StripToken(name: string)
    requires IsToken(name)
    ensures Strip(name) == name && Strip(" " + name) == name
  {
    assert (" " + name)[1..] == name;
    assert StripLeft(" " + name) == StripLeft(name) == name;
    assert StripRight(name) == name;
  }

  /** The tokens of `s` from `start` on are the token up to the next comma, then the rest. */
  lemma {:induction false} TokenThen(s: string, start: nat, i: nat, end: nat)
    requires start <= i <= end <= |s|
    requires forall k :: i <= k < end ==> s[k] != ','
    requires end == |s| || s[end] == ','
    ensures Tokens(s, start, i)
      == {Strip(s[start..end])} + if end == |s| then {} else Tokens(s, end + 1, end + 1)
    decreases end - i
  {
    hide Strip;
    if i < end {
      TokenThen(s, start, i + 1, end);
    } else if end == |s| {
      assert s[start..] == s[start..end];
    }
  }

  // ----- Programs, line by line -----

  /** `",".join(pieces)` */
  function Commas(pieces: seq<string>): string {
    if pieces == [] then "" else if |pieces| == 1 then pieces[0] else pieces[0] + ("," + Commas(pieces[1..]))
  }

  function Trimmed(pieces: seq<string>): set<string> {
    set k | 0 <= k < |pieces| :: Strip(pieces[k])
  }

  /** A line of a program: an import from the curated module, with any spaces between the words and
      any pieces between its commas, or another line. */
  datatype Line = Import(gap1: string, gap2: string, gap3: string, pieces: seq<string>) | Other(text: string)

  function Text(l: Line): string {
    match l
    case Import(gap1, gap2, gap3, pieces) =>
      "from" + (gap1 + (MODULE + (gap2 + ("import" + (gap3 + Commas(pieces))))))
    case Other(text) => text
  }

  predicate IsPiece(piece: string) {
    ',' !in piece && '\n' !in piece
  }

  predicate IsList(list: string) {
    list != "" && !IsSpace(list[0]) && '\n' !in list
  }

  /** The text has the words in turn, each with spaces behind it, or ends, but for spaces, behind one
      of them. */
  predicate Reaches(text: string, words: seq<string>)
    decreases |words|
  {
    words == [] ||
    (StartsWith(text, words[0]) &&
     var rest := text[|words[0]|..];
     var n := SpanSpaces(rest);
     n == |rest| || (n > 0 && Reaches(rest[n..], words[1..])))
  }

  /** The line is an import from the curated module, or runs into the next line as one. */
  predicate MayImport(text: string) {
    Reaches(text, ["from", MODULE, "import"])
  }

  predicate LineOk(l: Line) {
    match l
    case Import(gap1, gap2, gap3, pieces) =>
      && IsGap(gap1) && IsGap(gap2) && IsGap(gap3)
      && (forall k :: 0 <= k < |pieces| ==> IsPiece(pieces[k]))
      && IsList(Commas(pieces))
    case Other(text) => '\n' !in text && !MayImport(text)
  }

  predicate AllOk(lines: seq<Line>) {
    forall k :: 0 <= k < |lines| ==> LineOk(lines[k])
  }

  function Program(lines: seq<Line>): string {
    if lines == [] then "" else if |lines| == 1 then Text(lines[0]) else Text(lines[0]) + ("\n" + Program(lines[1..]))
  }

  /** The lists of names in the program's imports, in order. */
  function ListsOf(lines: seq<Line>): seq<string> {
    if lines == [] then []
    else (if lines[0].Import? then [Commas(lines[0].pieces)] else []) + ListsOf(lines[1..])
  }

  // ----- Commas -----

  lemma {:induction false} TokensFrom(before: string, pieces: seq<string>)
    requires pieces != [] && forall k :: 0 <= k < |pieces| ==> ',' !in pieces[k]
    ensures Tokens(before + Commas(pieces), |before|, |before|) == Trimmed(pieces)
    decreases |pieces|
  {
    hide Strip, Tokens;
    var s, piece := before + Commas(pieces), pieces[0];
    var end := |before| + |piece|;
    assert forall k :: |before| <= k < end ==> s[k] == piece[k - |before|];
    assert s[|before|..end] == piece;
    TokenThen(s, |before|, |before|, end);
    if |pieces| == 1 {
      assert Trimmed(pieces) == {Strip(piece)};
    } else {
      var before' := before + piece + ",";
      assert s == before' + Commas(pieces[1..]);
      TokensFrom(before', pieces[1..]);
      assert pieces == [piece] + pieces[1..];
      TrimmedStep(pieces);
    }
  }

  lemma TrimmedStep(pieces: seq<string>)
    requires pieces != []
    ensures Trimmed(pieces) == {Strip(pieces[0])} + Trimmed(pieces[1..])
  {
    hide Strip;
    forall t ensures t in Trimmed(pieces) <==> t in {Strip(pieces[0])} + Trimmed(pieces[1..]) {
      if t in Trimmed(pieces) {
        var k :| 0 <= k < |pieces| && Strip(pieces[k]) == t;
        assert k > 0 ==> Strip(pieces[1..][k - 1]) == t;
      }
      if t in Trimmed(pieces[1..]) {
        var k :| 0 <= k < |pieces[1..]| && Strip(pieces[1..][k]) == t;
        assert Strip(pieces[k + 1]) == t;
      }
    }
  }

  // ----- The pattern on a line -----

  lemma WordThenGap(word: string, gap: string, rest: string)
    requires IsGap(gap) && rest != "" && !IsSpace(rest[0])
    ensures AfterWord(word + (gap + rest), word) == Some(rest)
  {
    hide IsSpace;
    assert (word + (gap + rest))[|word|..] == gap + rest;
    SpanGap(gap, rest);
    assert (gap + rest)[|gap|..] == rest;
  }

  lemma {:induction false} RestOfLineIs(line: string, rest: string)
    requires '\n' !in line && (rest != "" ==> rest[0] == '\n')
    ensures RestOfLine(line + rest) == |line|
    decreases |line|
  {
    if line == "" {
      assert line + rest == rest;
    } else {
      assert (line + rest)[1..] == line[1..] + rest;
      RestOfLineIs(line[1..], rest);
    }
  }

  lemma ListMatches(gap: string, list: string, rest: string)
    requires IsGap(gap) && IsList(list) && (rest != "" ==> rest[0] == '\n')
    ensures SpacesThenLine(gap + (list + rest)) == Some((list, rest))
  {
    hide IsSpace, SpanSpaces, RestOfLine;
    var tail := list + rest;
    SpanGap(gap, tail);
    assert (gap + tail)[|gap|..] == tail;
    RestOfLineIs(list, rest);
    assert tail[..|list|] == list && tail[|list|..] == rest;
  }

  /** An import line matches, and its list is the group. */
  lemma ImportMatches(l: Line, rest: string)
    requires l.Import? && LineOk(l) && (rest != "" ==> rest[0] == '\n')
    ensures MatchImport(Text(l) + rest) == Some((Commas(l.pieces), rest))
  {
    hide IsSpace, AfterWord, SpacesThenLine, IsGap, Commas;
    var tail := Commas(l.pieces) + rest;
    var s3 := "import" + (l.gap3 + tail);
    var s2 := MODULE + (l.gap2 + s3);
    assert Text(l) + rest == "from" + (l.gap1 + s2);
    LettersAreNoSpace();
    WordThenGap("from", l.gap1, s2);
    WordThenGap(MODULE, l.gap2, s3);
    assert s3[6..] == l.gap3 + tail;
    ListMatches(l.gap3, Commas(l.pieces), rest);
  }

  lemma LettersAreNoSpace()
    ensures !IsSpace('i') && !IsSpace('_')
  {
  }

  lemma {:induction false} SpanStops(s: string, rest: string)
    requires SpanSpaces(s) < |s|
    ensures SpanSpaces(s + rest) == SpanSpaces(s)
    decreases |s|
  {
    hide IsSpace;
    if s != "" && IsSpace(s[0]) {
      assert (s + rest)[1..] == s[1..] + rest;
      SpanStops(s[1..], rest);
    }
  }

  lemma LongPrefix(word: string, text: string, rest: string)
    requires word <= text + rest && |word| > |text|
    ensures rest != "" && rest[0] in word
  {
    assert word[|text|] == (text + rest)[|text|] == rest[0];
  }

  lemma PrefixOnLine(word: string, text: string, rest: string)
    requires '\n' !in word && (rest != "" ==> rest[0] == '\n')
    ensures StartsWith(text + rest, word) ==> StartsWith(text, word)
  {
    if word <= text + rest {
      if |word| > |text| {
        LongPrefix(word, text, rest);
      } else {
        assert (text + rest)[..|word|] == text[..|word|];
      }
    }
  }

  lemma WordOnLine(word: string, text: string, rest: string)
    requires '\n' !in word && (rest != "" ==> rest[0] == '\n')
    ensures !StartsWith(text, word) ==> AfterWord(text + rest, word).None?
    ensures StartsWith(text, word) ==>
      var n := SpanSpaces(text[|word|..]);
      n < |text| - |word| ==>
        AfterWord(text + rest, word) == if n == 0 then None else Some(text[|word|..][n..] + rest)
  {
    hide SpanSpaces;
    PrefixOnLine(word, text, rest);
    if StartsWith(text, word) {
      var u := text[|word|..];
      assert text == word + u && (text + rest)[|word|..] == u + rest;
      if SpanSpaces(u) < |u| {
        SpanStops(u, rest);
        assert (u + rest)[SpanSpaces(u)..] == u[SpanSpaces(u)..] + rest;
      }
    }
  }

  lemma ReachesStep(text: string, words: seq<string>)
    requires words != []
    ensures Reaches(text, words) ==
      (StartsWith(text, words[0]) &&
       var rest := text[|words[0]|..];
       var n := SpanSpaces(rest);
       n == |rest| || (n > 0 && Reaches(rest[n..], words[1..])))
  {
  }

  /** Any other line does not match, whatever follows. */
  lemma OtherLines(text: string, rest: string)
    requires '\n' !in text && !MayImport(text) && (rest != "" ==> rest[0] == '\n')
    ensures MatchImport(text + rest).None?
  {
    var words := ["from", MODULE, "import"];
    assert words[1..] == [MODULE, "import"] && words[1..][1..] == ["import"] && ["import"][1..] == [];
    NoNewlineInWords();
    hide MODULE, SpanSpaces, Reaches, AfterWord;
    ReachesStep(text, words);
    WordOnLine("from", text, rest);
    if AfterWord(text + rest, "from").Some? {
      var t1 := text[4..][SpanSpaces(text[4..])..];
      ReachesStep(t1, [MODULE, "import"]);
      WordOnLine(MODULE, t1, rest);
      if AfterWord(t1 + rest, MODULE).Some? {
        var t2 := t1[|MODULE|..][SpanSpaces(t1[|MODULE|..])..];
        ReachesStep(t2, ["import"]);
        assert Reaches("", []) by {
          ReachesNothing("");
        }
        LastWord(t2, rest);
      }
    }
  }

  lemma ReachesNothing(text: string)
    ensures Reaches(text, [])
  {
  }

  lemma LastWord(text: string, rest: string)
    requires !Reaches(text, ["import"]) && (rest != "" ==> rest[0] == '\n')
    ensures StartsWith(text + rest, "import") ==> SpacesThenLine((text + rest)[6..]).None?
  {
    hide SpanSpaces;
    PrefixOnLine("import", text, rest);
    if StartsWith(text, "import") {
      var u := text[6..];
      assert ["import"][1..] == [];
      assert (text + rest)[6..] == u + rest;
      if SpanSpaces(u) < |u| {
        SpanStops(u, rest);
      }
    }
  }

  lemma NoNewlineInWords()
    ensures '\n' !in "from" && '\n' !in MODULE && '\n' !in "import"
  {
  }

  // ----- Every line is of one kind -----

  /** The text ends, but for spaces, behind one of the words: the pattern would read on in the next
      line. No such line is Python. */
  predicate RunsOn(text: string, words: seq<string>)
    decreases |words|
  {
    words != [] && StartsWith(text, words[0]) &&
    var rest := text[|words[0]|..];
    var n := SpanSpaces(rest);
    n == |rest| || (n > 0 && RunsOn(rest[n..], words[1..]))
  }

  /** The pieces between the commas. */
  function SplitCommas(s: string): seq<string> {
    if s == "" then [""]
    else
      var rest := SplitCommas(s[1..]);
      if s[0] == ',' then [""] + rest else [[s[0]] + rest[0]] + rest[1..]
  }

  lemma {:induction false} SplitCommasExact(s: string)
    requires '\n' !in s
    ensures SplitCommas(s) != [] && Commas(SplitCommas(s)) == s
    ensures forall k :: 0 <= k < |SplitCommas(s)| ==> IsPiece(SplitCommas(s)[k])
  {
    if s != "" {
      SplitCommasExact(s[1..]);
      var rest, pieces := SplitCommas(s[1..]), SplitCommas(s);
      if s[0] == ',' {
        assert pieces[1..] == rest;
        assert Commas(pieces) == "" + ("," + Commas(rest));
        assert forall k :: 0 < k < |pieces| ==> pieces[k] == rest[k - 1];
      } else {
        assert pieces[0] == [s[0]] + rest[0] && pieces[1..] == rest[1..];
        assert forall k :: 0 < k < |pieces| ==> pieces[k] == rest[k];
        assert IsPiece(rest[0]);
        if |rest| == 1 {
          assert Commas(pieces) == [s[0]] + Commas(rest);
        } else {
          assert [s[0]] + (rest[0] + ("," + Commas(rest[1..]))) == ([s[0]] + rest[0]) + ("," + Commas(rest[1..]));
        }
      }
    }
  }

  lemma RunsOnStep(text: string, words: seq<string>)
    requires words != []
    ensures RunsOn(text, words) ==
      (StartsWith(text, words[0]) &&
       var rest := text[|words[0]|..];
       var n := SpanSpaces(rest);
       n == |rest| || (n > 0 && RunsOn(rest[n..], words[1..])))
  {
  }

  /** What is behind a word that the text reaches without running on: a gap, and the rest. */
  lemma BehindWord(text: string, words: seq<string>) returns (gap: string, rest: string)
    requires words != [] && Reaches(text, words) && !RunsOn(text, words)
    ensures text == words[0] + (gap + rest) && IsGap(gap) && rest != "" && !IsSpace(rest[0])
    ensures Reaches(rest, words[1..]) && !RunsOn(rest, words[1..])
  {
    hide IsSpace, SpanSpaces, Reaches, RunsOn;
    ReachesStep(text, words);
    RunsOnStep(text, words);
    var u := text[|words[0]|..];
    var n := SpanSpaces(u);
    SpanIsSpaces(u);
    gap, rest := u[..n], u[n..];
    assert text == words[0] + u && u == gap + rest;
  }

  /** Every line that does not run on is an import line, for some spacing and pieces, or another. */
  lemma EveryLine(text: string) returns (l: Line)
    requires '\n' !in text && !RunsOn(text, ["from", MODULE, "import"])
    ensures LineOk(l) && Text(l) == text
  {
    hide IsSpace, Reaches, RunsOn, Commas, SplitCommas;
    if !MayImport(text) {
      l := Other(text);
    } else {
      var words := ["from", MODULE, "import"];
      assert words[1..] == [MODULE, "import"] && [MODULE, "import"][1..] == ["import"];
      hide MODULE;
      var gap1, t1 := BehindWord(text, words);
      var gap2, t2 := BehindWord(t1, [MODULE, "import"]);
      var gap3, list := BehindWord(t2, ["import"]);
      assert '\n' !in list by {
        assert text == ("from" + (gap1 + (MODULE + (gap2 + ("import" + gap3))))) + list;
      }
      SplitCommasExact(list);
      l := Import(gap1, gap2, gap3, SplitCommas(list));
    }
  }

  // ----- All matches of a program -----

  lemma ScanStep(s: string, p: nat)
    requires p <= |s|
    ensures ImportLists(s, p) ==
      if IsLineStart(s, p) && MatchImport(s[p..]).Some? then
        var (group, rest) := MatchImport(s[p..]).value;
        [group] + if p < |s| - |rest| then ImportLists(s, |s| - |rest|) else []
      else if p < |s| then ImportLists(s, p + 1)
      else []
  {
  }

  /** Text behind a newline is scanned as if it stood alone. */
  lemma {:induction false} Shift(a: string, s: string, p: nat)
    requires p <= |s| && (a != "" ==> a[|a| - 1] == '\n')
    ensures ImportLists(a + s, |a| + p) == ImportLists(s, p)
    decreases |s| - p
  {
    hide MatchImport, ImportLists;
    var all := a + s;
    assert all[|a| + p..] == s[p..];
    assert IsLineStart(all, |a| + p) <==> IsLineStart(s, p);
    ScanStep(all, |a| + p);
    ScanStep(s, p);
    if IsLineStart(s, p) && MatchImport(s[p..]).Some? {
      var next := |s| - |MatchImport(s[p..]).value.1|;
      if p < next {
        Shift(a, s, next);
        assert |a| + next == |all| - |MatchImport(s[p..]).value.1|;
      }
    } else if p < |s| {
      Shift(a, s, p + 1);
    }
  }

  /** Inside a line nothing matches. */
  lemma {:induction false} SkipInside(s: string, p: nat, n: nat)
    requires 0 < p <= n <= |s| && forall i :: p - 1 <= i < n - 1 ==> s[i] != '\n'
    ensures ImportLists(s, p) == ImportLists(s, n)
    decreases n - p
  {
    hide MatchImport;
    if p < n {
      SkipInside(s, p + 1, n);
    }
  }

  /** From the end of a line on: what the rest of the program has. */
  lemma ScanRest(text: string, more: seq<Line>)
    requires text != "" && text[|text| - 1] != '\n'
    ensures var rest := if more == [] then "" else "\n" + Program(more);
      ImportLists(text + rest, |text|) == if more == [] then [] else ImportLists(Program(more), 0)
  {
    hide MatchImport, ImportLists, Program;
    var rest := if more == [] then "" else "\n" + Program(more);
    var s := text + rest;
    ScanStep(s, |text|);
    if more != [] {
      var before := text + "\n";
      assert s == before + Program(more);
      Shift(before, Program(more), 0);
    }
  }

  lemma EndOfImport(l: Line)
    requires l.Import? && LineOk(l)
    ensures Text(l) != "" && Text(l)[|Text(l)| - 1] != '\n'
  {
    hide MODULE, IsGap, Commas;
    var list := Commas(l.pieces);
    var front := "from" + (l.gap1 + (MODULE + (l.gap2 + ("import" + l.gap3))));
    assert Text(l) == front + list;
    assert (front + list)[|front + list| - 1] == list[|list| - 1];
  }

  lemma ScanImport(l: Line, more: seq<Line>)
    requires l.Import? && LineOk(l)
    ensures var rest := if more == [] then "" else "\n" + Program(more);
      ImportLists(Text(l) + rest, 0) == [Commas(l.pieces)] + if more == [] then [] else ImportLists(Program(more), 0)
  {
    hide MatchImport, ImportLists, Text, Commas, Program, LineOk;
    var text := Text(l);
    EndOfImport(l);
    var rest := if more == [] then "" else "\n" + Program(more);
    ImportMatches(l, rest);
    assert (text + rest)[0..] == text + rest;
    ScanStep(text + rest, 0);
    ScanRest(text, more);
  }

  lemma ScanOther(text: string, more: seq<Line>)
    requires LineOk(Other(text))
    ensures var rest := if more == [] then "" else "\n" + Program(more);
      ImportLists(text + rest, 0) == if more == [] then [] else ImportLists(Program(more), 0)
  {
    hide MatchImport, ImportLists, Program, MayImport;
    var rest := if more == [] then "" else "\n" + Program(more);
    var s := text + rest;
    OtherLines(text, rest);
    assert s[0..] == s;
    ScanStep(s, 0);
    if text != "" {
      SkipInside(s, 1, |text|);
      ScanRest(text, more);
    } else if more != [] {
      assert s == "\n" + Program(more);
      Shift("\n", Program(more), 0);
    }
  }

  /** Whatever lines it has: the matches in a program are the lists of its import lines, in order. */
  lemma {:induction false} ImportListsOf(lines: seq<Line>)
    requires AllOk(lines)
    ensures ImportLists(Program(lines), 0) == ListsOf(lines)
    decreases |lines|
  {
    hide MatchImport, ImportLists, Text, LineOk;
    if lines == [] {
      EmptyProgram();
    } else {
      var l, more := lines[0], lines[1..];
      assert AllOk(more);
      ImportListsOf(more);
      EmptyProgram();
      assert Program(lines) == Text(l) + if more == [] then "" else "\n" + Program(more) by {
        assert Text(l) + "" == Text(l);
      }
      if l.Import? {
        ScanImport(l, more);
      } else {
        TextOfOther(l);
        ScanOther(l.text, more);
      }
    }
  }

  lemma TextOfOther(l: Line)
    requires l.Other?
    ensures Text(l) == l.text && l == Other(l.text)
  {
  }

  lemma EmptyProgram()
    ensures ImportLists("", 0) == []
  {
    assert ""[0..] == "";
  }

  // ----- Who is found -----

  /** Some import line of the program has the name between its commas. */
  predicate Imports(lines: seq<Line>, name: string) {
    exists k :: 0 <= k < |lines| && lines[k].Import? && name in Trimmed(lines[k].pieces)
  }

  lemma {:induction false} ListedIff(lines: seq<Line>, name: string)
    requires AllOk(lines)
    ensures Lists(ListsOf(lines), name) <==> Imports(lines, name)
    decreases |lines|
  {
    hide Strip, Tokens, Trimmed, Text, Commas;
    if lines != [] {
      var l, more := lines[0], lines[1..];
      assert AllOk(more);
      ListedIff(more, name);
      ImportsStep(lines, name);
      var rest := ListsOf(more);
      if l.Import? {
        PiecesOfImport(l);
        TokensFrom("", l.pieces);
        assert "" + Commas(l.pieces) == Commas(l.pieces);
        ListsStep(Commas(l.pieces), rest, name);
      } else {
        assert [] + rest == rest;
      }
    }
  }

  lemma PiecesOfImport(l: Line)
    requires l.Import? && LineOk(l)
    ensures l.pieces != [] && forall k :: 0 <= k < |l.pieces| ==> ',' !in l.pieces[k]
  {
    assert forall k :: 0 <= k < |l.pieces| ==> IsPiece(l.pieces[k]);
  }

  lemma ListsStep(list: string, rest: seq<string>, name: string)
    ensures Lists([list] + rest, name) <==> name in Tokens(list, 0, 0) || Lists(rest, name)
  {
    hide Tokens;
    var all := [list] + rest;
    assert all[0] == list;
    if Lists(rest, name) {
      var k :| 0 <= k < |rest| && name in Tokens(rest[k], 0, 0);
      assert name in Tokens(all[k + 1], 0, 0);
    }
    if Lists(all, name) {
      var k :| 0 <= k < |all| && name in Tokens(all[k], 0, 0);
      assert k > 0 ==> name in Tokens(rest[k - 1], 0, 0);
    }
  }

  lemma ImportsStep(lines: seq<Line>, name: string)
    requires lines != []
    ensures Imports(lines, name) <==>
      (lines[0].Import? && name in Trimmed(lines[0].pieces)) || Imports(lines[1..], name)
  {
    hide Trimmed;
    var more := lines[1..];
    if Imports(more, name) {
      var k :| 0 <= k < |more| && more[k].Import? && name in Trimmed(more[k].pieces);
      assert lines[k + 1] == more[k];
    }
    if Imports(lines, name) {
      var k :| 0 <= k < |lines| && lines[k].Import? && name in Trimmed(lines[k].pieces);
      assert k > 0 ==> more[k - 1] == lines[k];
    }
  }

  /** A name passes the check if and only if it is, trimmed, a piece between the commas of some
      import line, however many there are and whatever lines stand between them. */
  lemma PresentIff(lines: seq<Line>, name: string)
    requires AllOk(lines)
    ensures ImportPresent(Program(lines), name) <==> Imports(lines, name)
  {
    ImportListsOf(lines);
    ListedIff(lines, name);
  }

  /** The line a fact requires. */
  function Required(name: string): Line {
    Import(" ", " ", " ", [name])
  }

  /** A program that has the required line of each of its facts, in any places, passes the check for
      every one of them. */
  lemma RequiredImportsAccepted(lines: seq<Line>, names: seq<string>)
    requires AllOk(lines)
    requires forall i :: 0 <= i < |names| ==> IsToken(names[i]) && Required(names[i]) in lines
    ensures forall i :: 0 <= i < |names| ==> ImportPresent(Program(lines), names[i])
  {
    hide ImportPresent, Program, Strip;
    forall i | 0 <= i < |names| ensures ImportPresent(Program(lines), names[i]) {
      var k :| 0 <= k < |lines| && lines[k] == Required(names[i]);
      PresentIff(lines, names[i]);
      StripToken(names[i]);
      assert lines[k].pieces[0] == names[i];
    }
  }

  /** A required line is as the facts give it, and is an import line. */
  lemma RequiredLine(name: string)
    requires IsToken(name) && '\n' !in name
    ensures Text(Required(name)) == "from _reprolab_curated import " + name && LineOk(Required(name))
  {
    hide IsSpace;
    BlankIsGap();
    assert Commas([name]) == name;
    assert "from" + (" " + (MODULE + (" " + ("import" + (" " + name))))) == "from _reprolab_curated import " + name;
  }

  // ----- What hides a name -----

  /** A piece that starts with a name shows it exactly when nothing but spaces follows: an alias or a
      comment behind a name hides it. */
  lemma ExtraHidesName(name: string, more: string)
    requires IsToken(name)
    ensures Strip(name + more) == name <==> forall i :: 0 <= i < |more| ==> IsSpace(more[i])
  {
    hide IsSpace;
    assert StripLeft(name + more) == name + more;
    if forall i :: 0 <= i < |more| ==> IsSpace(more[i]) {
      StripRightOf(name, more);
    } else {
      LastNonSpace(name, more);
    }
  }

  lemma {:induction false} LastNonSpace(s: string, more: string)
    requires exists i :: 0 <= i < |more| && !IsSpace(more[i])
    ensures |StripRight(s + more)| > |s|
    decreases |more|
  {
    hide IsSpace;
    var n := |more| - 1;
    if IsSpace(more[n]) {
      var i :| 0 <= i < |more| && !IsSpace(more[i]);
      assert more[..n][i] == more[i];
      assert (s + more)[..|s + more| - 1] == s + more[..n];
      LastNonSpace(s, more[..n]);
    }
  }

  /** The pieces of a parenthesised list on one line. */
  function InParentheses(names: seq<string>): seq<string>
    requires names != []
  {
    var n := |names| - 1;
    if n == 0 then ["(" + names[0] + ")"] else ["(" + names[0]] + names[1..n] + [names[n] + ")"]
  }

  predicate IsPlainName(name: string) {
    name != "" && forall i :: 0 <= i < |name| ==> name[i] !in "(),\n" && !IsSpace(name[i])
  }

  lemma Bracketed(name: string, other: string)
    requires IsPlainName(name) && IsPlainName(other)
    ensures Strip("(" + name) != other && Strip("(" + name + ")") != other && Strip(name + ")") != other
    ensures Strip(name) == name
  {
    var a, b, c := "(" + name, "(" + name + ")", name + ")";
    assert IsToken(a) && IsToken(b) && IsToken(c) && IsToken(name) by {
      assert !IsSpace('(') && !IsSpace(')');
    }
    StripToken(a);
    StripToken(b);
    StripToken(c);
    StripToken(name);
    assert a[0] == '(' && b[0] == '(' && c[|c| - 1] == ')';
  }

  /** Of the names in parentheses on one line, which Python accepts, exactly those neither first nor
      last are found. */
  lemma ParenthesesHideEnds(names: seq<string>, name: string)
    requires names != [] && forall k :: 0 <= k < |names| ==> IsPlainName(names[k])
    requires IsPlainName(name)
    ensures name in Trimmed(InParentheses(names)) <==> exists k :: 0 < k < |names| - 1 && names[k] == name
  {
    hide Strip, IsPlainName;
    var pieces, n := InParentheses(names), |names| - 1;
    forall k | 0 <= k < |pieces| ensures Strip(pieces[k]) == name <==> 0 < k < n && names[k] == name {
      Bracketed(names[k], name);
      if 0 < k < n {
        assert pieces[k] == names[1..n][k - 1] == names[k];
      }
    }
    if name in Trimmed(pieces) {
      var k :| 0 <= k < |pieces| && Strip(pieces[k]) == name;
      assert names[k] == name;
    }
    if exists k :: 0 < k < n && names[k] == name {
      var k :| 0 < k < n && names[k] == name;
      assert Strip(pieces[k]) == name;
    }
  }

  /** A parenthesised list over several lines: no name is found at all. */
  lemma SeveralLinesHideAll(lines: seq<Line>, name: string)
    requires AllOk(lines) && IsPlainName(name)
    requires forall k :: 0 <= k < |lines| && lines[k].Import? ==> lines[k].pieces == ["("]
    ensures !ImportPresent(Program(lines), name)
  {
    hide ImportPresent, Program;
    PresentIff(lines, name);
    BracketAlone();
    TrimmedOne("(");
    assert name[0] != '(';
  }

  lemma BracketAlone()
    ensures Strip("(") == "("
  {
    StripToken("(");
  }

  /** The first of two names in parentheses, and a name before a comment. */
  lemma HiddenNames()
    ensures !ImportPresent(Program([Import(" ", " ", " ", ["(f", "g)"])]), "f")
    ensures !ImportPresent(Program([Import(" ", " ", " ", ["f#x"])]), "f")
  {
    hide ImportPresent, Program;
    HiddenLinesOk();
    PresentIff([Import(" ", " ", " ", ["(f", "g)"])], "f");
    PresentIff([Import(" ", " ", " ", ["f#x"])], "f");
  }

  lemma HiddenLinesOk()
    ensures LineOk(Import(" ", " ", " ", ["(f", "g)"])) && LineOk(Import(" ", " ", " ", ["f#x"]))
    ensures "f" !in Trimmed(["(f", "g)"]) && "f" !in Trimmed(["f#x"])
  {
    hide IsSpace, Strip;
    HiddenLetters();
    BlankIsGap();
    var names := ["f", "g"];
    assert names[1..1] == [] && "(" + "f" == "(f" && "g" + ")" == "g)";
    assert InParentheses(names) == ["(" + "f"] + [] + ["g" + ")"] == ["(f", "g)"];
    ParenthesesHideEnds(names, "f");
    ExtraHidesName("f", "#x");
    assert "#x"[0] == '#' && "f" + "#x" == "f#x";
    TrimmedOne("f#x");
    assert ["(f", "g)"][1..] == ["g)"];
    assert Commas(["g)"]) == "g)" && Commas(["(f", "g)"]) == "(f" + ("," + "g)") && Commas(["f#x"]) == "f#x";
  }

  lemma TrimmedOne(piece: string)
    ensures Trimmed([piece]) == {Strip(piece)}
  {
    assert [piece][0] == piece;
  }

  lemma HiddenLetters()
    ensures !IsSpace('(') && !IsSpace('f') && !IsSpace('#') && !IsSpace('g')
  {
  }

  lemma BlankIsGap()
    ensures IsGap(" ")
  {
  }
}
