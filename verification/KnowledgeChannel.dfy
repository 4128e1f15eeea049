/** The knowledge channel: curated helpers are rendered into one Python module, and the
    verifier cuts each helper out of the module again to compare its hash. The hash is a
    parameter. */
module KnowledgeChannel {
  import opened Wrappers
  import opened TextLines

  datatype Severity = Strict | Preferred | Advisory

  datatype Fact<H> = Fact(id: string, severity: Severity, name: string, body: string, banned: seq<string>, hash: H)

  // ----- The printer -----

  /** The header of the module: comment lines. */
  ghost predicate IsHeader(header: seq<string>) {
    AllLines(header) && header != [] &&
    forall i :: 0 <= i < |header| ==> header[i] != "" && header[i][0] == '#'
  }

  /** `"\n\n".join(f.helper_body for f in facts)` */
  function JoinBodies<H>(facts: seq<Fact<H>>): string {
    if facts == [] then ""
    else if |facts| == 1 then facts[0].body
    else facts[0].body + "\n\n" + JoinBodies(facts[1..])
  }

  function Render<H>(header: seq<string>, facts: seq<Fact<H>>): string {
    Join(header) + "\n" + JoinBodies(facts) + "\n"
  }

  // ----- The parser -----

  /** `^(def|class)\s+` */
  predicate IsTopLevel(line: string) {
    (StartsWith(line, "def") && |line| > 3 && IsSpace(line[3]))
    || (StartsWith(line, "class") && |line| > 5 && IsSpace(line[5]))
  }

  /** `^def\s+<name>\s*\(`, for a name that does not start with a space */
  predicate Defines(line: string, name: string) {
    StartsWith(line, "def") && |line| > 3 && IsSpace(line[3]) &&
    var rest := StripLeft(line[3..]);
    StartsWith(rest, name) && StartsWith(StripLeft(rest[|name|..]), "(")
  }

  function FindDef(lines: seq<string>, name: string): (i: nat)
    ensures i <= |lines|
    ensures i < |lines| ==> Defines(lines[i], name)
    ensures forall j :: 0 <= j < i ==> !Defines(lines[j], name)
  {
    hide Defines;
    if lines == [] || Defines(lines[0], name) then 0 else 1 + FindDef(lines[1..], name)
  }

  function UntilTopLevel(lines: seq<string>): seq<string> {
    if lines == [] || IsTopLevel(lines[0]) then [] else [lines[0]] + UntilTopLevel(lines[1..])
  }

  function Extract(source: string, name: string): Option<string> {
    var lines := SplitLines(source);
    var i := FindDef(lines, name);
    if i == |lines| then None
    else Some(StripRight(Join([lines[i]] + UntilTopLevel(lines[i + 1..]))))
  }

  lemma {:induction false} UntilTopLevelPrefix(lines: seq<string>, from: nat, j: nat)
    requires from <= j <= |lines|
    requires forall k :: from <= k < j ==> !IsTopLevel(lines[k])
    requires j == |lines| || IsTopLevel(lines[j])
    ensures UntilTopLevel(lines[from..]) == lines[from..j]
    decreases j - from
  {
    hide IsTopLevel;
    if from < j {
      assert lines[from..][1..] == lines[from + 1..];
      UntilTopLevelPrefix(lines, from + 1, j);
    }
  }

  method ExtractHelperBody(source: string, name: string) returns (r: Option<string>)
    ensures r == Extract(source, name)
  {
    hide IsTopLevel, Defines, StripRight, SplitLines;
    var lines := SplitLines(source);
    var start := 0;
    while start < |lines| && !Defines(lines[start], name)
      invariant start <= |lines|
      invariant forall k :: 0 <= k < start ==> !Defines(lines[k], name)
    {
      start := start + 1;
    }
    assert start == FindDef(lines, name);
    if start == |lines| {
      return None;
    }
    var bodyLines: seq<string> := [];
    var j := start;
    while j < |lines|
      invariant start <= j <= |lines|
      invariant bodyLines == lines[start..j]
      invariant forall k :: start < k < j ==> !IsTopLevel(lines[k])
    {
      if j > start && IsTopLevel(lines[j]) {
        break;
      }
      bodyLines := bodyLines + [lines[j]];
      j := j + 1;
    }
    UntilTopLevelPrefix(lines, start + 1, j);
    assert bodyLines == [lines[start]] + lines[start + 1..j];
    r := Some(StripRight(Join(bodyLines)));
  }

  // ----- Printer and parser agree -----

  /** A Python identifier has no space and no parenthesis. */
  predicate IsName(name: string) {
    name != "" && forall i :: 0 <= i < |name| ==> !IsSpace(name[i]) && name[i] != '('
  }

  /** A stripped body that begins with the definition of `name` and has no other top-level
      definition. */
  ghost predicate IsHelper(body: string, name: string) {
    body != "" && !IsSpace(body[|body| - 1]) &&
    var lines := SplitLines(body + "\n");
    Defines(lines[0], name) && forall i :: 0 < i < |lines| ==> !IsTopLevel(lines[i])
  }

  ghost predicate WellFormed<H>(facts: seq<Fact<H>>) {
    (forall k :: 0 <= k < |facts| ==> IsName(facts[k].name) && IsHelper(facts[k].body, facts[k].name)) &&
    (forall j, k :: 0 <= j < k < |facts| ==> facts[j].name != facts[k].name)
  }

  lemma DefinesIsTopLevel(line: string, name: string)
    requires Defines(line, name)
    ensures IsTopLevel(line)
  {
  }

  lemma {:induction false} NameEndsAtBracket(rest: string, a: string, b: string)
    requires IsName(a) && IsName(b) && |a| <= |b|
    requires StartsWith(rest, a) && StartsWith(StripLeft(rest[|a|..]), "(")
    requires StartsWith(rest, b)
    ensures a == b
  {
  }

  /** A line defines one name. */
  lemma DefinesOne(line: string, a: string, b: string)
    requires IsName(a) && IsName(b) && Defines(line, a) && Defines(line, b)
    ensures a == b
  {
    var rest := StripLeft(line[3..]);
    if |a| <= |b| {
      NameEndsAtBracket(rest, a, b);
    } else {
      NameEndsAtBracket(rest, b, a);
    }
  }

  /** The module after its header, as lines: each body ended by a newline, with an empty line
      between two bodies. */
  ghost function BlockLines<H>(facts: seq<Fact<H>>): seq<string> {
    if facts == [] then []
    else if |facts| == 1 then SplitLines(facts[0].body + "\n")
    else SplitLines(facts[0].body + "\n") + (["\n"] + BlockLines(facts[1..]))
  }

  lemma {:induction false} SplitBodies<H>(facts: seq<Fact<H>>)
    requires facts != []
    ensures SplitLines(JoinBodies(facts) + "\n") == BlockLines(facts)
  {
    hide SplitLines;
    if |facts| > 1 {
      SplitBodies(facts[1..]);
      var first, rest := facts[0].body + "\n", JoinBodies(facts[1..]) + "\n";
      assert JoinBodies(facts) + "\n" == first + ("\n" + rest);
      SplitAppend(first, "\n" + rest);
      SplitAppend("\n", rest);
      SplitNewline();
    }
  }

  lemma SplitNewline()
    ensures SplitLines("\n") == ["\n"]
  {
    assert "\n"[..1] == "\n" && "\n"[1..] == "";
    assert SplitLines("") == [];
  }

  lemma {:induction false} JoinEndsInNewline(lines: seq<string>)
    requires AllLines(lines) && lines != []
    ensures Join(lines) != "" && Join(lines)[|Join(lines)| - 1] == '\n'
  {
    hide LineLength;
    if |lines| > 1 {
      JoinEndsInNewline(lines[1..]);
    } else {
      assert Join(lines) == lines[0] + Join(lines[1..]) == lines[0];
    }
  }

  lemma SplitRendered<H>(header: seq<string>, facts: seq<Fact<H>>)
    requires IsHeader(header) && facts != []
    ensures SplitLines(Render(header, facts)) == header + (["\n"] + BlockLines(facts))
  {
    hide SplitLines, Join, IsLine;
    var bodies := JoinBodies(facts) + "\n";
    assert Render(header, facts) == Join(header) + ("\n" + bodies);
    JoinEndsInNewline(header);
    SplitAppend(Join(header), "\n" + bodies);
    SplitAppend("\n", bodies);
    SplitNewline();
    SplitBodies(facts);
    SplitOfJoin(header);
  }

  // ----- Where the helper is found -----

  lemma {:induction false} FindDefSkips(a: seq<string>, b: seq<string>, name: string)
    requires forall i :: 0 <= i < |a| ==> !Defines(a[i], name)
    ensures FindDef(a + b, name) == |a| + FindDef(b, name)
  {
    hide Defines;
    if a == [] {
      assert a + b == b;
    } else {
      assert (a + b)[1..] == a[1..] + b;
      FindDefSkips(a[1..], b, name);
    }
  }

  lemma {:induction false} UntilStops(a: seq<string>, b: seq<string>)
    requires forall i :: 0 <= i < |a| ==> !IsTopLevel(a[i])
    requires b == [] || IsTopLevel(b[0])
    ensures UntilTopLevel(a + b) == a
  {
    hide IsTopLevel;
    if a == [] {
      assert a + b == b;
    } else {
      assert (a + b)[1..] == a[1..] + b;
      UntilStops(a[1..], b);
    }
  }

  lemma BlankIsNoDefinition(name: string)
    ensures !IsTopLevel("\n") && !Defines("\n", name)
  {
  }

  lemma CommentIsNoDefinition(line: string, name: string)
    requires line != "" && line[0] == '#'
    ensures !Defines(line, name)
  {
  }

  /** No line of another helper defines `name`. */
  lemma OtherHelper(body: string, other: string, name: string)
    requires IsHelper(body, other) && IsName(other) && IsName(name) && other != name
    ensures var lines := SplitLines(body + "\n"); forall i :: 0 <= i < |lines| ==> !Defines(lines[i], name)
  {
    hide SplitLines, Defines, IsTopLevel;
    var lines := SplitLines(body + "\n");
    forall i | 0 <= i < |lines|
      ensures !Defines(lines[i], name)
    {
      if Defines(lines[i], name) {
        DefinesIsTopLevel(lines[i], name);
        DefinesOne(lines[0], other, name);
      }
    }
  }

  /** The line after which the body of fact `k` ends: that of the next helper's definition. */
  ghost function Following<H>(facts: seq<Fact<H>>, k: nat): seq<string>
    requires k < |facts|
  {
    if k + 1 == |facts| then [] else BlockLines(facts[k + 1..])
  }

  ghost function Gap<H>(facts: seq<Fact<H>>, k: nat): seq<string>
    requires k < |facts|
  {
    if k + 1 == |facts| then [] else ["\n"]
  }

  ghost function OwnLines<H>(f: Fact<H>): (lines: seq<string>)
    ensures lines != []
  {
    SplitLines(f.body + "\n")
  }

  lemma WellFormedTail<H>(facts: seq<Fact<H>>)
    requires WellFormed(facts) && facts != []
    ensures WellFormed(facts[1..])
  {
    hide IsHelper, IsName;
  }

  lemma OtherBlock<H>(f: Fact<H>, name: string)
    requires IsHelper(f.body, f.name) && IsName(f.name) && IsName(name) && f.name != name
    ensures var block := OwnLines(f) + ["\n"]; forall i :: 0 <= i < |block| ==> !Defines(block[i], name)
  {
    hide SplitLines, Defines, IsTopLevel, IsHelper, IsName;
    OtherHelper(f.body, f.name, name);
    BlankIsNoDefinition(name);
    var block := OwnLines(f) + ["\n"];
    forall i | 0 <= i < |block|
      ensures !Defines(block[i], name)
    {
      if i < |OwnLines(f)| {
        assert block[i] == SplitLines(f.body + "\n")[i];
      }
    }
  }

  lemma BlocksHead<H>(facts: seq<Fact<H>>)
    requires facts != []
    ensures BlockLines(facts) == OwnLines(facts[0]) + (Gap(facts, 0) + Following(facts, 0))
  {
    hide SplitLines;
  }

  lemma {:induction false} FindInBlocks<H>(facts: seq<Fact<H>>, k: nat)
    requires k < |facts| && WellFormed(facts)
    ensures var lines, i := BlockLines(facts), FindDef(BlockLines(facts), facts[k].name);
      i < |lines| && lines[i..] == OwnLines(facts[k]) + (Gap(facts, k) + Following(facts, k))
  {
    hide SplitLines, Defines, IsTopLevel, OwnLines, BlockLines, WellFormed, IsHelper, IsName, Gap, Following, FindDef;
    var name, lines := facts[k].name, BlockLines(facts);
    BlocksHead(facts);
    WellFormedNames(facts, k);
    if k == 0 {
      FirstLineDefines(facts[0]);
      FindDefHere(lines, name);
      assert lines[0..] == lines;
    } else {
      WellFormedTail(facts);
      FindInBlocks(facts[1..], k - 1);
      OtherBlock(facts[0], name);
      var block, rest := OwnLines(facts[0]) + ["\n"], BlockLines(facts[1..]);
      GapAfter(facts, k);
      assert lines == block + rest;
      FindDefSkips(block, rest, name);
      var j := FindDef(rest, name);
      assert (block + rest)[|block| + j..] == rest[j..];
    }
  }

  lemma WellFormedNames<H>(facts: seq<Fact<H>>, k: nat)
    requires WellFormed(facts) && k < |facts|
    ensures IsName(facts[k].name) && IsHelper(facts[0].body, facts[0].name) && IsName(facts[0].name)
    ensures k > 0 ==> facts[0].name != facts[k].name
  {
    hide IsHelper, IsName;
  }

  lemma FindDefHere(lines: seq<string>, name: string)
    requires lines != [] && Defines(lines[0], name)
    ensures FindDef(lines, name) == 0
  {
    hide Defines;
  }

  lemma GapAfter<H>(facts: seq<Fact<H>>, k: nat)
    requires 0 < k < |facts|
    ensures Gap(facts, 0) + Following(facts, 0) == ["\n"] + BlockLines(facts[1..])
    ensures Gap(facts, k) == Gap(facts[1..], k - 1) && Following(facts, k) == Following(facts[1..], k - 1)
  {
    hide BlockLines;
    assert facts[1..][k..] == facts[k + 1..];
  }

  lemma FirstLineDefines<H>(f: Fact<H>)
    requires IsHelper(f.body, f.name)
    ensures Defines(OwnLines(f)[0], f.name)
  {
  }

  lemma {:induction false} BlocksStartWithDefinition<H>(facts: seq<Fact<H>>)
    requires facts != [] && WellFormed(facts)
    ensures BlockLines(facts) != [] && IsTopLevel(BlockLines(facts)[0])
  {
    hide SplitLines, Defines, IsTopLevel;
    DefinesIsTopLevel(OwnLines(facts[0])[0], facts[0].name);
  }

  lemma FindInRendered<H>(header: seq<string>, facts: seq<Fact<H>>, k: nat)
    requires IsHeader(header) && WellFormed(facts) && k < |facts|
    ensures var lines := SplitLines(Render(header, facts));
      var i := FindDef(lines, facts[k].name);
      i < |lines| && lines[i..] == OwnLines(facts[k]) + (Gap(facts, k) + Following(facts, k))
  {
    hide SplitLines, Defines, IsTopLevel, IsLine, Render, WellFormed, BlockLines, OwnLines, Gap, Following;
    var name := facts[k].name;
    SplitRendered(header, facts);
    var before, blocks := header + ["\n"], BlockLines(facts);
    forall i | 0 <= i < |before|
      ensures !Defines(before[i], name)
    {
      if i < |header| {
        CommentIsNoDefinition(header[i], name);
      } else {
        BlankIsNoDefinition(name);
      }
    }
    assert header + (["\n"] + blocks) == before + blocks;
    FindDefSkips(before, blocks, name);
    FindInBlocks(facts, k);
    assert (before + blocks)[|before| + FindDef(blocks, name)..] == blocks[FindDef(blocks, name)..];
  }

  lemma CutBody(body: string, own: seq<string>, gap: seq<string>)
    requires body != "" && !IsSpace(body[|body| - 1])
    requires own == SplitLines(body + "\n") && own != []
    requires Join(gap) == "" || Join(gap) == "\n"
    ensures StripRight(Join([own[0]] + (own[1..] + gap))) == body
  {
    hide SplitLines, StripRight, Join;
    assert [own[0]] + (own[1..] + gap) == own + gap;
    JoinAppend(own, gap);
    JoinOfSplit(body + "\n");
    var blank := "\n" + Join(gap);
    assert body + "\n" + Join(gap) == body + blank;
    StripRightOf(body, blank);
  }

  /** Round trip: extracting a helper from the rendered module gives back its body. */
  lemma RenderExtract<H>(header: seq<string>, facts: seq<Fact<H>>, k: nat)
    requires IsHeader(header) && WellFormed(facts) && k < |facts|
    ensures Extract(Render(header, facts), facts[k].name) == Some(facts[k].body)
  {
    hide SplitLines, Defines, IsTopLevel, StripRight, Join, IsLine, Render, BlockLines;
    var f := facts[k];
    var own, gap, following := OwnLines(f), Gap(facts, k), Following(facts, k);
    var lines := SplitLines(Render(header, facts));
    var i := FindDef(lines, f.name);
    FindInRendered(header, facts, k);
    assert lines[i] == lines[i..][0] == own[0];
    assert lines[i + 1..] == lines[i..][1..] == (own[1..] + gap) + following;
    BlankIsNoDefinition(f.name);
    if k + 1 < |facts| {
      assert WellFormed(facts[k + 1..]);
      BlocksStartWithDefinition(facts[k + 1..]);
    }
    UntilStops(own[1..] + gap, following);
    JoinGap(facts, k);
    CutBody(f.body, own, gap);
  }

  lemma JoinGap<H>(facts: seq<Fact<H>>, k: nat)
    requires k < |facts|
    ensures Join(Gap(facts, k)) == "" || Join(Gap(facts, k)) == "\n"
  {
    assert ["\n"][1..] == [];
    assert Join(["\n"]) == "\n" + Join([]) == "\n";
  }

  // ----- What is taken for a definition, letter by letter -----

  /** A definition of a function or a class at the beginning of a line. */
  lemma TopLevelIff(line: string)
    ensures IsTopLevel(line) <==>
      exists c, rest :: IsSpace(c) && (line == "def" + ([c] + rest) || line == "class" + ([c] + rest))
  {
    hide IsSpace;
    if IsTopLevel(line) {
      if StartsWith(line, "def") && |line| > 3 && IsSpace(line[3]) {
        assert line == "def" + ([line[3]] + line[4..]);
      } else {
        assert line == "class" + ([line[5]] + line[6..]);
      }
    }
  }

  ghost predicate IsDefinition(line: string, name: string) {
    exists gap, gap', rest :: IsGap(gap) && AllSpaces(gap') && line == "def" + (gap + (name + (gap' + ("(" + rest))))
  }

  lemma {:induction false} StripLeftOf(gap: string, text: string)
    requires AllSpaces(gap) && text != "" && !IsSpace(text[0])
    ensures StripLeft(gap + text) == text
    decreases |gap|
  {
    hide IsSpace;
    if gap == "" {
      assert gap + text == text;
    } else {
      assert (gap + text)[1..] == gap[1..] + text;
      StripLeftOf(gap[1..], text);
    }
  }

  /** A line defines a name when `def`, spaces, the name, perhaps spaces and a bracket come first. */
  lemma DefinesIff(line: string, name: string)
    requires name != "" && !IsSpace(name[0])
    ensures Defines(line, name) <==> IsDefinition(line, name)
  {
    if Defines(line, name) {
      DefinitionParts(line, name);
    }
    if IsDefinition(line, name) {
      hide IsSpace, StripLeft;
      var gap, gap', rest :| IsGap(gap) && AllSpaces(gap') && line == "def" + (gap + (name + (gap' + ("(" + rest))));
      var bracket := "(" + rest;
      BracketIsNoSpace();
      StripLeftOf(gap', bracket);
      StripLeftOf(gap, name + (gap' + bracket));
      assert line[3..] == gap + (name + (gap' + bracket)) && line[3] == gap[0];
      assert (name + (gap' + bracket))[|name|..] == gap' + bracket;
    }
  }

  lemma DefinitionParts(line: string, name: string)
    requires Defines(line, name)
    ensures IsDefinition(line, name)
  {
    hide IsSpace, StripLeft;
    var tail := line[3..];
    var gap := LeftSpaces(tail);
    var rest := StripLeft(tail);
    var gap' := LeftSpaces(rest[|name|..]);
    var bracket := StripLeft(rest[|name|..]);
    assert line == "def" + tail && rest == name + rest[|name|..] && bracket == "(" + bracket[1..];
    assert gap != "" by {
      assert IsSpace(tail[0]);
      assert "" + rest == rest;
    }
    assert IsGap(gap) && line == "def" + (gap + (name + (gap' + ("(" + bracket[1..]))));
  }

  lemma BracketIsNoSpace()
    ensures !IsSpace('(')
  {
  }

  /** What is extracted: from the first line that defines the name up to the next definition of anything,
      or to the end, without the spaces behind it. */
  lemma ExtractIs(source: string, name: string, i: nat, j: nat)
    requires var lines := SplitLines(source);
      && i <= |lines| && (i < |lines| ==> Defines(lines[i], name) && i < j <= |lines|)
      && (forall k :: 0 <= k < i ==> !Defines(lines[k], name))
      && (i < |lines| ==>
            (forall k :: i < k < j ==> !IsTopLevel(lines[k])) && (j < |lines| ==> IsTopLevel(lines[j])))
    ensures var lines := SplitLines(source);
      Extract(source, name) == if i == |lines| then None else Some(StripRight(Join(lines[i..j])))
  {
    hide SplitLines, Defines, IsTopLevel, Join, StripRight;
    var lines := SplitLines(source);
    assert FindDef(lines, name) == i;
    if i < |lines| {
      UntilTopLevelPrefix(lines, i + 1, j);
      assert lines[i..j] == [lines[i]] + lines[i + 1..j];
    }
  }
}
