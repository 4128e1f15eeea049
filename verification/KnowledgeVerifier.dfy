/** `verify_emitted_code`: check a generated program against the curated facts. What the
    Python parser finds in the program is an input; the hash is a parameter. */
module KnowledgeVerifier {
  import opened Wrappers
  import opened TextLines
  import opened KnowledgeChannel
  import opened ImportLines

  // ----- Facts and the manifest -----

  datatype Recipe = Recipe(id: string, severity: Severity, name: string, body: string, banned: seq<string>)

  function NonEmpty(literals: seq<string>): seq<string> {
    if literals == [] then []
    else (if literals[0] == "" then [] else [literals[0]]) + NonEmpty(literals[1..])
  }

  /** `_fact_from_recipe`: no fact without a body. */
  function FactFromRecipe<H>(r: Recipe, hash: string -> H): Option<Fact<H>> {
    var body, name, id := Strip(r.body), Strip(r.name), Strip(r.id);
    if body == "" then None
    else Some(Fact(if id == "" then "dataset." + name else id, r.severity, name, body, NonEmpty(r.banned), hash(body)))
  }

  function FromRecipes<H>(recipes: seq<Recipe>, hash: string -> H): seq<Fact<H>> {
    if recipes == [] then []
    else
      var fact := FactFromRecipe(recipes[0], hash);
      (if fact.Some? then [fact.value] else []) + FromRecipes(recipes[1..], hash)
  }

  /** One entry of the manifest; an entry without a hash is not checked for tampering. */
  datatype Entry<H> = Entry(id: string, severity: Severity, name: string, banned: seq<string>, hash: Option<H>)

  function Manifest<H>(facts: seq<Fact<H>>): (m: seq<Entry<H>>)
    ensures |m| == |facts|
    ensures forall k :: 0 <= k < |m| ==>
      m[k] == Entry(facts[k].id, facts[k].severity, facts[k].name, facts[k].banned, Some(facts[k].hash))
  {
    seq(|facts|, k requires 0 <= k < |facts| =>
      Entry(facts[k].id, facts[k].severity, facts[k].name, facts[k].banned, Some(facts[k].hash)))
  }

  // ----- The checks -----

  /** `train.py`: its text and, when it parses, its top-level functions and string constants. */
  datatype Train = Train(source: string, functions: set<string>, constants: set<string>)

  datatype Kind = MissingImport | ShadowedHelper | BannedLiteral | HelperHashMismatch

  datatype Violation = Violation(factId: string, severity: Severity, kind: Kind)

  predicate IsBanned(t: Train, literal: string) {
    Contains(t.source, literal) || exists c | c in t.constants :: Contains(c, literal)
  }

  predicate UsesBanned(t: Train, banned: seq<string>) {
    exists k | 0 <= k < |banned| :: IsBanned(t, banned[k])
  }

  predicate HashDiffers<H(==)>(source: Option<string>, name: string, expected: Option<H>, hash: string -> H) {
    expected.Some? &&
    match source
    case None => true
    case Some(text) =>
      var body := Extract(text, name);
      body.None? || hash(body.value) != expected.value
  }

  function When<H>(e: Entry<H>, condition: bool, kind: Kind): seq<Violation> {
    if condition then [Violation(e.id, e.severity, kind)] else []
  }

  /** What is wrong with one fact, in the order of the checks. */
  function ReportWith<H(==)>(t: Train, e: Entry<H>, source: Option<string>, hash: string -> H): seq<Violation> {
    When(e, !ImportPresent(t.source, e.name), MissingImport)
    + When(e, e.name != "" && e.name in t.functions, ShadowedHelper)
    + When(e, UsesBanned(t, e.banned), BannedLiteral)
    + When(e, HashDiffers(source, e.name, e.hash, hash), HelperHashMismatch)
  }

  /** Without a program, every fact's import is missing. */
  function Report<H(==)>(train: Option<Train>, e: Entry<H>, source: Option<string>, hash: string -> H): seq<Violation> {
    if train.None? then When(e, true, MissingImport) else ReportWith(train.value, e, source, hash)
  }

  function Reports<H(==)>(train: Option<Train>, entries: seq<Entry<H>>, source: Option<string>, hash: string -> H)
    : seq<Violation>
  {
    if entries == [] then [] else
      Reports(train, entries[..|entries| - 1], source, hash) + Report(train, entries[|entries| - 1], source, hash)
  }

  /** The literals are tried in turn, and the first that occurs is enough. */
  method FindBanned(t: Train, banned: seq<string>) returns (found: bool)
    ensures found == UsesBanned(t, banned)
  {
    found := false;
    for k := 0 to |banned|
      invariant forall i :: 0 <= i < k ==> !IsBanned(t, banned[i])
    {
      if Contains(t.source, banned[k]) {
        found := true;
        return;
      }
      if exists c | c in t.constants :: Contains(c, banned[k]) {
        found := true;
        return;
      }
    }
  }

  method CheckEntry<H(==)>(t: Train, e: Entry<H>, source: Option<string>, hash: string -> H)
    returns (violations: seq<Violation>)
    ensures violations == ReportWith(t, e, source, hash)
  {
    hide ImportPresent, UsesBanned, HashDiffers;
    violations := [];
    var imported := CheckImportPresent(t.source, e.name);
    if !imported {
      violations := violations + [Violation(e.id, e.severity, MissingImport)];
    }
    if e.name != "" && e.name in t.functions {
      violations := violations + [Violation(e.id, e.severity, ShadowedHelper)];
    }
    var banned := FindBanned(t, e.banned);
    if banned {
      violations := violations + [Violation(e.id, e.severity, BannedLiteral)];
    }
    var differs := CheckHash(source, e, hash);
    if differs {
      violations := violations + [Violation(e.id, e.severity, HelperHashMismatch)];
    }
  }

  method VerifyEmittedCode<H(==)>(train: Option<Train>, entries: seq<Entry<H>>, source: Option<string>,
    hash: string -> H)
    returns (violations: seq<Violation>)
    ensures violations == Reports(train, entries, source, hash)
  {
    hide ReportWith;
    violations := [];
    for k := 0 to |entries|
      invariant violations == Reports(train, entries[..k], source, hash)
    {
      var e := entries[k];
      assert entries[..k + 1][..k] == entries[..k];
      if train.None? {
        violations := violations + [Violation(e.id, e.severity, MissingImport)];
      } else {
        var more := CheckEntry(train.value, e, source, hash);
        violations := violations + more;
      }
    }
    assert entries[..|entries|] == entries;
  }

  method CheckHash<H(==)>(source: Option<string>, e: Entry<H>, hash: string -> H) returns (differs: bool)
    ensures differs == HashDiffers(source, e.name, e.hash, hash)
  {
    if e.hash.None? {
      return false;
    }
    if source.None? {
      return true;
    }
    var body := ExtractHelperBody(source.value, e.name);
    if body.None? {
      return true;
    }
    differs := hash(body.value) != e.hash.value;
  }

  // ----- When a violation is reported -----

  ghost predicate OccursIn(part: string, s: string) {
    exists before, after :: s == before + (part + after)
  }

  lemma ContainsIff(s: string, part: string)
    ensures Contains(s, part) <==> OccursIn(part, s)
  {
    if Contains(s, part) {
      var i :| 0 <= i <= |s| - |part| && OccursAt(s, part, i);
      assert s == s[..i] + (part + s[i + |part|..]);
    }
    if OccursIn(part, s) {
      var before, after :| s == before + (part + after);
      assert OccursAt(s, part, |before|);
    }
  }

  ghost predicate OccursInProgram(literal: string, t: Train) {
    OccursIn(literal, t.source) || exists c :: c in t.constants && OccursIn(literal, c)
  }

  /** The module has a helper of that name, and its text has that hash. */
  predicate ReadsBack<H(==)>(text: string, name: string, expected: H, hash: string -> H) {
    Extract(text, name).Some? && hash(Extract(text, name).value) == expected
  }

  /** What each kind of violation says of the program, the module and the entry. Without a program the
      only thing to say is that the import is missing. */
  ghost predicate Breaks<H>(train: Option<Train>, e: Entry<H>, source: Option<string>, hash: string -> H, kind: Kind) {
    if train.None? then kind.MissingImport? else
      var t := train.value;
      match kind
      case MissingImport => !ImportPresent(t.source, e.name)
      case ShadowedHelper => e.name != "" && e.name in t.functions
      case BannedLiteral => exists literal :: literal in e.banned && OccursInProgram(literal, t)
      case HelperHashMismatch => e.hash.Some? && (source.None? || !ReadsBack(source.value, e.name, e.hash.value, hash))
  }

  lemma BannedIff(t: Train, banned: seq<string>)
    ensures UsesBanned(t, banned) <==> exists literal :: literal in banned && OccursInProgram(literal, t)
  {
    hide Contains, OccursIn;
    forall s, part
      ensures Contains(s, part) <==> OccursIn(part, s)
    {
      ContainsIff(s, part);
    }
    if UsesBanned(t, banned) {
      var k :| 0 <= k < |banned| && IsBanned(t, banned[k]);
      assert banned[k] in banned;
    }
    if literal :| literal in banned && OccursInProgram(literal, t) {
      var k :| 0 <= k < |banned| && banned[k] == literal;
      assert IsBanned(t, banned[k]);
    }
  }

  predicate Chosen(kind: Kind, c1: bool, c2: bool, c3: bool, c4: bool) {
    match kind
    case MissingImport => c1
    case ShadowedHelper => c2
    case BannedLiteral => c3
    case HelperHashMismatch => c4
  }

  lemma FourMembers<H>(e: Entry<H>, c1: bool, c2: bool, c3: bool, c4: bool, v: Violation)
    ensures v in When(e, c1, MissingImport) + When(e, c2, ShadowedHelper) + When(e, c3, BannedLiteral)
        + When(e, c4, HelperHashMismatch)
      <==> v.factId == e.id && v.severity == e.severity && Chosen(v.kind, c1, c2, c3, c4)
  {
    hide When;
    InWhen(e, c1, MissingImport, v);
    InWhen(e, c2, ShadowedHelper, v);
    InWhen(e, c3, BannedLiteral, v);
    InWhen(e, c4, HelperHashMismatch, v);
  }

  lemma InWhen<H>(e: Entry<H>, condition: bool, kind: Kind, v: Violation)
    ensures v in When(e, condition, kind) <==>
      condition && v.factId == e.id && v.severity == e.severity && v.kind == kind
  {
  }

  lemma EntryReportedIff<H>(train: Option<Train>, e: Entry<H>, source: Option<string>, hash: string -> H, v: Violation)
    ensures v in Report(train, e, source, hash) <==>
      (v.factId == e.id && v.severity == e.severity && Breaks(train, e, source, hash, v.kind))
  {
    hide ImportPresent, UsesBanned, OccursIn, OccursInProgram, Extract, When;
    InWhen(e, true, MissingImport, v);
    if train.Some? {
      var t := train.value;
      BannedIff(t, e.banned);
      FourMembers(e, !ImportPresent(t.source, e.name), e.name != "" && e.name in t.functions, UsesBanned(t, e.banned),
        HashDiffers(source, e.name, e.hash, hash), v);
    }
  }

  /** A violation is reported if and only if some entry of that id and severity is broken in that way. */
  lemma {:induction false} ReportedIff<H>(train: Option<Train>, entries: seq<Entry<H>>, source: Option<string>,
    hash: string -> H, v: Violation)
    ensures v in Reports(train, entries, source, hash) <==>
      exists e :: e in entries && v.factId == e.id && v.severity == e.severity &&
        Breaks(train, e, source, hash, v.kind)
    decreases |entries|
  {
    hide Report, Breaks;
    if entries != [] {
      var init, last := entries[..|entries| - 1], entries[|entries| - 1];
      ReportedIff(train, init, source, hash, v);
      EntryReportedIff(train, last, source, hash, v);
      assert entries == init + [last];
    }
  }

  // ----- The order of the checks -----

  function Rank(kind: Kind): nat {
    match kind
    case MissingImport => 1
    case ShadowedHelper => 2
    case BannedLiteral => 3
    case HelperHashMismatch => 4
  }

  /** The kinds come in the order of the checks, each at most once, up to a rank. */
  ghost predicate InCheckOrder(vs: seq<Violation>, last: nat) {
    (forall i :: 0 <= i < |vs| ==> Rank(vs[i].kind) <= last) &&
    forall i, j :: 0 <= i < j < |vs| ==> Rank(vs[i].kind) < Rank(vs[j].kind)
  }

  lemma NextCheck<H>(vs: seq<Violation>, e: Entry<H>, condition: bool, kind: Kind)
    requires Rank(kind) > 0 && InCheckOrder(vs, Rank(kind) - 1)
    ensures InCheckOrder(vs + When(e, condition, kind), Rank(kind))
  {
  }

  lemma FourInOrder<H>(e: Entry<H>, c1: bool, c2: bool, c3: bool, c4: bool)
    ensures InCheckOrder(When(e, c1, MissingImport) + When(e, c2, ShadowedHelper) + When(e, c3, BannedLiteral)
      + When(e, c4, HelperHashMismatch), 4)
  {
    hide When, InCheckOrder;
    NothingChecked();
    NextCheck([], e, c1, MissingImport);
    var a := When(e, c1, MissingImport);
    assert [] + a == a;
    NextCheck(a, e, c2, ShadowedHelper);
    var b := a + When(e, c2, ShadowedHelper);
    NextCheck(b, e, c3, BannedLiteral);
    NextCheck(b + When(e, c3, BannedLiteral), e, c4, HelperHashMismatch);
  }

  lemma OnlyFirst<H>(e: Entry<H>)
    ensures InCheckOrder(When(e, true, MissingImport), 4)
  {
  }

  /** The violations of one entry come in the order import, shadowing, literal, hash. */
  lemma ChecksInOrder<H>(train: Option<Train>, e: Entry<H>, source: Option<string>, hash: string -> H)
    ensures InCheckOrder(Report(train, e, source, hash), 4)
  {
    hide ImportPresent, UsesBanned, HashDiffers, InCheckOrder, When;
    OnlyFirst(e);
    if train.Some? {
      var t := train.value;
      FourInOrder(e, !ImportPresent(t.source, e.name), e.name != "" && e.name in t.functions, UsesBanned(t, e.banned),
        HashDiffers(source, e.name, e.hash, hash));
    }
  }

  lemma NothingChecked()
    ensures InCheckOrder([], 0)
  {
  }

  // ----- At most one violation of a kind per fact -----

  ghost predicate OneOfEach(vs: seq<Violation>) {
    forall i, j :: 0 <= i < j < |vs| ==> vs[i].factId != vs[j].factId || vs[i].kind != vs[j].kind
  }

  ghost function Ids<H>(entries: seq<Entry<H>>): set<string> {
    set e | e in entries :: e.id
  }

  ghost predicate OfKinds(vs: seq<Violation>, id: string, kinds: set<Kind>) {
    forall i :: 0 <= i < |vs| ==> vs[i].factId == id && vs[i].kind in kinds
  }

  lemma OneMoreKind<H>(vs: seq<Violation>, e: Entry<H>, kinds: set<Kind>, condition: bool, kind: Kind)
    requires OneOfEach(vs) && OfKinds(vs, e.id, kinds) && kind !in kinds
    ensures OneOfEach(vs + When(e, condition, kind)) && OfKinds(vs + When(e, condition, kind), e.id, kinds + {kind})
  {
  }

  lemma FourKinds<H>(e: Entry<H>, c1: bool, c2: bool, c3: bool, c4: bool)
    ensures var all := When(e, c1, MissingImport) + When(e, c2, ShadowedHelper) + When(e, c3, BannedLiteral)
        + When(e, c4, HelperHashMismatch);
      OneOfEach(all) &&
      OfKinds(all, e.id, {} + {MissingImport} + {ShadowedHelper} + {BannedLiteral} + {HelperHashMismatch})
  {
    hide When, OneOfEach, OfKinds;
    var kinds: set<Kind> := {};
    NoKinds(e.id);
    OneMoreKind([], e, kinds, c1, MissingImport);
    var a := When(e, c1, MissingImport);
    assert [] + a == a;
    OneMoreKind(a, e, {} + {MissingImport}, c2, ShadowedHelper);
    var b := a + When(e, c2, ShadowedHelper);
    OneMoreKind(b, e, {} + {MissingImport} + {ShadowedHelper}, c3, BannedLiteral);
    var c := b + When(e, c3, BannedLiteral);
    OneMoreKind(c, e, {} + {MissingImport} + {ShadowedHelper} + {BannedLiteral}, c4, HelperHashMismatch);
  }

  lemma NoKinds(id: string)
    ensures OneOfEach([]) && OfKinds([], id, {})
  {
  }

  lemma ReportOfEntry<H>(train: Option<Train>, e: Entry<H>, source: Option<string>, hash: string -> H)
    ensures OneOfEach(Report(train, e, source, hash))
    ensures forall v :: v in Report(train, e, source, hash) ==> v.factId == e.id
  {
    if train.Some? {
      hide ImportPresent, UsesBanned, HashDiffers, When, OneOfEach;
      var t := train.value;
      FourKinds(e, !ImportPresent(t.source, e.name), e.name != "" && e.name in t.functions, UsesBanned(t, e.banned),
        HashDiffers(source, e.name, e.hash, hash));
    }
  }

  /** With distinct fact ids, no two violations have both id and kind in common. */
  lemma {:induction false} OnePerKind<H>(train: Option<Train>, entries: seq<Entry<H>>, source: Option<string>,
    hash: string -> H)
    requires forall j, k :: 0 <= j < k < |entries| ==> entries[j].id != entries[k].id
    ensures OneOfEach(Reports(train, entries, source, hash))
    ensures forall v :: v in Reports(train, entries, source, hash) ==> v.factId in Ids(entries)
  {
    hide Report;
    if entries != [] {
      var init, e := entries[..|entries| - 1], entries[|entries| - 1];
      OnePerKind(train, init, source, hash);
      ReportOfEntry(train, e, source, hash);
      assert entries == init + [e];
      assert forall f :: f in init ==> f in entries;
      assert e.id !in Ids(init);
      var a, b := Reports(train, init, source, hash), Report(train, e, source, hash);
      var all: seq<Violation> := a + b;
      forall i, j | 0 <= i < j < |all|
        ensures all[i].factId != all[j].factId || all[i].kind != all[j].kind
      {
        if i < |a| && |a| <= j {
          assert all[i] in a && all[j] in b;
        }
      }
    }
  }

  // ----- Fresh artifacts verify -----

  lemma {:induction false} JoinChars(lines: seq<string>, c: char)
    ensures c in Join(lines) <==> exists i :: 0 <= i < |lines| && c in lines[i]
  {
    if lines != [] {
      JoinChars(lines[1..], c);
      if exists i :: 0 <= i < |lines| && c in lines[i] {
        var i :| 0 <= i < |lines| && c in lines[i];
        if i > 0 {
          assert lines[1..][i - 1] == lines[i];
        }
      }
      if c in lines[0] {
      } else if exists i :: 0 <= i < |lines[1..]| && c in lines[1..][i] {
        var i :| 0 <= i < |lines[1..]| && c in lines[1..][i];
        assert c in lines[i + 1];
      }
    }
  }

  lemma {:induction false} UntilIsPrefix(lines: seq<string>)
    ensures UntilTopLevel(lines) <= lines
  {
    hide IsTopLevel;
    if lines != [] {
      UntilIsPrefix(lines[1..]);
    }
  }

  lemma {:induction false} StripRightIsPrefix(s: string)
    ensures StripRight(s) <= s
  {
    if s != "" {
      StripRightIsPrefix(s[..|s| - 1]);
    }
  }

  /** What is extracted has only characters of the module. */
  lemma ExtractedChars(source: string, name: string, c: char)
    requires Extract(source, name).Some? && c in Extract(source, name).value
    ensures c in source
  {
    hide SplitLines, Defines, IsTopLevel, Join, StripRight, UntilTopLevel;
    var lines := SplitLines(source);
    var i := FindDef(lines, name);
    var rest := UntilTopLevel(lines[i + 1..]);
    UntilIsPrefix(lines[i + 1..]);
    var cut := [lines[i]] + rest;
    StripRightIsPrefix(Join(cut));
    JoinChars(cut, c);
    var k :| 0 <= k < |cut| && c in cut[k];
    assert cut[k] == lines[i + k];
    JoinChars(lines, c);
    JoinOfSplit(source);
  }

  ghost predicate HashedBodies<H>(facts: seq<Fact<H>>, hash: string -> H) {
    forall k :: 0 <= k < |facts| ==> facts[k].hash == hash(facts[k].body)
  }

  ghost function Written<H>(header: seq<string>, facts: seq<Fact<H>>): string {
    ReadText(Render(header, facts))
  }

  /** Whatever the hash is: freshly written artifacts raise no mismatch when no body has a
      carriage return. */
  lemma FreshArtifactsVerify<H>(train: Option<Train>, header: seq<string>, facts: seq<Fact<H>>, hash: string -> H)
    requires IsHeader(header) && '\r' !in Join(header)
    requires WellFormed(facts) && HashedBodies(facts, hash)
    requires forall k :: 0 <= k < |facts| ==> '\r' !in facts[k].body
    ensures forall v :: v in Reports(train, Manifest(facts), Some(Written(header, facts)), hash) ==>
      v.kind != HelperHashMismatch
  {
    hide Extract, Render, ReadText, WellFormed, Reports, HashDiffers;
    RenderedHasNoReturn(header, facts);
    ReadTextPlain(Render(header, facts));
    var text := Written(header, facts);
    forall k | 0 <= k < |facts| ensures !HashDiffers(Some(text), facts[k].name, Some(facts[k].hash), hash) {
      RenderExtract(header, facts, k);
      SameHash(text, facts[k].name, facts[k].body, facts[k].hash, hash);
    }
    NoMismatch(train, Manifest(facts), Some(text), hash);
  }

  lemma SameHash<H>(text: string, name: string, body: string, expected: H, hash: string -> H)
    requires Extract(text, name) == Some(body) && expected == hash(body)
    ensures !HashDiffers(Some(text), name, Some(expected), hash)
  {
    hide Extract;
  }

  lemma {:induction false} NoMismatch<H>(train: Option<Train>, entries: seq<Entry<H>>, source: Option<string>,
    hash: string -> H)
    requires forall k :: 0 <= k < |entries| ==> !HashDiffers(source, entries[k].name, entries[k].hash, hash)
    ensures forall v :: v in Reports(train, entries, source, hash) ==> v.kind != HelperHashMismatch
    decreases |entries|
  {
    hide HashDiffers, ImportPresent, UsesBanned;
    if entries != [] {
      NoMismatch(train, entries[..|entries| - 1], source, hash);
    }
  }

  /** A body with a carriage return is not what is read back: reading turned that into a newline. */
  lemma ReturnIsNotReadBack<H>(header: seq<string>, facts: seq<Fact<H>>, k: nat)
    requires k < |facts| && '\r' in facts[k].body
    ensures Extract(Written(header, facts), facts[k].name) != Some(facts[k].body)
  {
    hide Extract, Render, ReadText;
    ReadTextHasNoReturn(Render(header, facts));
    if Extract(Written(header, facts), facts[k].name) == Some(facts[k].body) {
      ExtractedChars(Written(header, facts), facts[k].name, '\r');
    }
  }

  /** What is read back for a helper has the hash of its body only if it is the body. */
  ghost predicate NoCollision<H>(header: seq<string>, facts: seq<Fact<H>>, hash: string -> H) {
    forall k :: 0 <= k < |facts| ==>
      var read := Extract(Written(header, facts), facts[k].name);
      read.Some? && hash(read.value) == hash(facts[k].body) ==> read.value == facts[k].body
  }

  /** Unless such a pair of texts collides, the freshly written module reports no helper as
      tampered with exactly when no body has a carriage return. */
  lemma TamperReportIff<H>(header: seq<string>, facts: seq<Fact<H>>, hash: string -> H)
    requires IsHeader(header) && '\r' !in Join(header)
    requires WellFormed(facts) && HashedBodies(facts, hash) && NoCollision(header, facts, hash)
    ensures (forall k :: 0 <= k < |facts| ==>
        !HashDiffers(Some(Written(header, facts)), facts[k].name, Some(facts[k].hash), hash))
      <==> forall k :: 0 <= k < |facts| ==> '\r' !in facts[k].body
  {
    hide Extract, Render, ReadText, WellFormed;
    var text := Written(header, facts);
    if forall k :: 0 <= k < |facts| ==> '\r' !in facts[k].body {
      RenderedHasNoReturn(header, facts);
      ReadTextPlain(Render(header, facts));
      forall k | 0 <= k < |facts|
        ensures !HashDiffers(Some(text), facts[k].name, Some(facts[k].hash), hash)
      {
        RenderExtract(header, facts, k);
      }
    } else {
      var k :| 0 <= k < |facts| && '\r' in facts[k].body;
      ReturnIsNotReadBack(header, facts, k);
      assert HashDiffers(Some(text), facts[k].name, Some(facts[k].hash), hash);
    }
  }

  /** A well-formed helper with a carriage return, as its own hash: reported as tampered with. */
  lemma ReturnIsReported()
    ensures var body := "def f():\r 0";
      var facts := [Fact("id", Strict, "f", body, [], body)];
      WellFormed(facts) && HashDiffers(Some(Written(["# header\n"], facts)), "f", Some(body), s => s)
  {
    var body := "def f():\r 0";
    var facts := [Fact("id", Strict, "f", body, [], body)];
    HelperWithReturn();
    hide Extract, Render, ReadText, IsHelper;
    ReturnIsNotReadBack(["# header\n"], facts, 0);
  }

  lemma HelperWithReturn()
    ensures IsHelper("def f():\r 0", "f") && '\r' in "def f():\r 0" && IsName("f")
  {
    hide SplitLines, Defines, IsTopLevel;
    var body := "def f():\r 0";
    ReturnLines();
    ReturnDefines();
    assert body[8] == '\r' && body[10] == '0' && !IsSpace('0');
  }

  lemma ReturnLines()
    ensures SplitLines("def f():\r 0" + "\n") == ["def f():\r", " 0\n"]
  {
    hide LineLength, IsBreak;
    var text, head, rest := "def f():\r 0" + "\n", "def f():\r", " 0\n";
    ReturnLengths();
    assert text == head + rest && head == "def f():" + "\r" && rest == " 0" + "\n";
    assert text == "def f():" + "\r 0\n";
    assert text[..9] == head && text[9..] == rest && rest[..3] == rest && rest[3..] == "";
    SplitStep(text);
    SplitStep(rest);
    NoLines();
  }

  lemma ReturnLengths()
    ensures LineLength("def f():" + "\r 0\n") == 9 && LineLength(" 0" + "\n") == 3
  {
    LineLengthOf("def f():", "\r 0\n");
    LineLengthOf(" 0", "\n");
  }

  lemma ReturnDefines()
    ensures Defines("def f():\r", "f") && !IsTopLevel(" 0\n")
  {
    var line, rest, bracket := "def f():\r", "f():\r", "():\r";
    assert line[3] == ' ' && IsSpace(' ') && " 0\n"[0] != 'd' && " 0\n"[0] != 'c';
    assert StripLeft(line[3..]) == rest by {
      OneSpace(rest);
      assert line[3..] == " " + rest;
    }
    assert rest[1..] == bracket;
    hide IsSpace;
    assert StripLeft(bracket) == bracket by {
      BracketIsNoSpace();
    }
    assert StartsWith(rest, "f") && StartsWith(bracket, "(");
    assert "def" <= line;
  }

  lemma OneSpace(rest: string)
    requires rest != "" && !IsSpace(rest[0])
    ensures StripLeft(" " + rest) == rest
  {
    assert (" " + rest)[1..] == rest;
  }


  lemma {:induction false} JoinedBodiesChars<H>(facts: seq<Fact<H>>)
    requires forall k :: 0 <= k < |facts| ==> '\r' !in facts[k].body
    ensures '\r' !in JoinBodies(facts)
  {
    if |facts| > 1 {
      JoinedBodiesChars(facts[1..]);
    }
  }

  lemma RenderedHasNoReturn<H>(header: seq<string>, facts: seq<Fact<H>>)
    requires '\r' !in Join(header) && forall k :: 0 <= k < |facts| ==> '\r' !in facts[k].body
    ensures '\r' !in Render(header, facts)
  {
    JoinedBodiesChars(facts);
  }

  /** Facts made from recipes carry the hash of their body, and their bodies are stripped. */
  lemma {:induction false} RecipesAreHashed<H>(recipes: seq<Recipe>, hash: string -> H)
    ensures HashedBodies(FromRecipes(recipes, hash), hash)
    ensures forall f :: f in FromRecipes(recipes, hash) ==> f.body != "" && !IsSpace(f.body[|f.body| - 1])
  {
    hide IsSpace, StripRight, StripLeft, NonEmpty;
    if recipes != [] {
      var head := FactFromRecipe(recipes[0], hash);
      RecipesAreHashed(recipes[1..], hash);
      StripRightEnds(StripLeft(recipes[0].body));
    }
  }

  lemma {:induction false} NonEmptyExact(literals: seq<string>)
    ensures forall l :: l in NonEmpty(literals) <==> l in literals && l != ""
  {
    if literals != [] {
      NonEmptyExact(literals[1..]);
    }
  }

  /** What a recipe gives: nothing if its body is all space; else its trimmed body and name, its trimmed id
      or, when that is empty, one made from the name, and its literals but for empty ones. */
  lemma RecipeFact<H>(r: Recipe, hash: string -> H)
    ensures var fact := FactFromRecipe(r, hash);
      && (fact.None? <==> AllSpaces(r.body))
      && (fact.Some? ==>
            var f := fact.value;
            && f.body != "" && IsTrimmed(r.body, f.body) && IsTrimmed(r.name, f.name) && f.hash == hash(f.body)
            && (if AllSpaces(r.id) then f.id == "dataset." + f.name else IsTrimmed(r.id, f.id) && f.id != "")
            && f.severity == r.severity
            && forall l :: l in f.banned <==> l in r.banned && l != "")
  {
    hide Strip, IsTrimmed, AllSpaces;
    StripTrims(r.body);
    StripTrims(r.name);
    StripTrims(r.id);
    TrimmedEmpty(r.body, Strip(r.body));
    TrimmedEmpty(r.id, Strip(r.id));
    NonEmptyExact(r.banned);
  }
}
