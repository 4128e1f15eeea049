/** The regrade backfill: stamp a fresh grade onto the scored artifacts of run directories,
    keeping a verbatim `.v0` copy of each artifact as it was before the first backfill. The
    process may stop between any two file writes. */
module RegradeBackfill {
  import opened Wrappers

  // ----- Documents -----

  /** A number is its printed form. */
  datatype Json = Null | Bool(b: bool) | Num(literal: string) | Str(s: string) | Arr(elements: seq<Json>)
    | Obj(fields: Doc)

  type Doc = map<string, Json>

  /** What the model takes from outside: the JSON reader and writer, Python's `float`, and the
      leaderboard's notion of a report that has a score. */
  datatype Env = Env(
    parse: string -> Option<Doc>, dump: Doc -> string,
    toFloat: Json -> Option<real>, hasScore: Doc -> bool)

  function Get(d: Doc, key: string): Json {
    if key in d then d[key] else Null
  }

  datatype Stamp = Stamp(version: string, samples: Json, temperature: Json)

  // ----- Scoring fields -----

  function MeetsTarget(env: Env, overall: Json, target: Json): Json {
    if target.Null? then Null
    else
      var o, t := env.toFloat(overall), env.toFloat(target);
      if o.None? || t.None? then Null else Bool(o.value >= t.value)
  }

  function ScoringFields(env: Env, result: Doc): Doc {
    var overall, target := Get(result, "overall_score"), Get(result, "target_score");
    map[
      "overall_score" := overall,
      "target_score" := target,
      "meets_target" := MeetsTarget(env, overall, target),
      "leaf_count" := Get(result, "leaf_count"),
      "graded" := Get(result, "graded"),
      "coverage_pct" := Get(result, "coverage_pct"),
      "degraded" := Get(result, "degraded"),
      "rubric_source" := Get(result, "rubric_source"),
      "compute_adjusted_score" := overall,
      "leaf_scores" := if "leaf_scores" in result then result["leaf_scores"] else Arr([])]
  }

  function StampFields(s: Stamp): Doc {
    map["grader_version" := Str(s.version), "grader_samples" := s.samples, "grader_temperature" := s.temperature]
  }

  datatype Grade = Grade(result: Doc, stamp: Stamp)

  /** Everything a backfill writes into a rubric block. */
  function Fresh(env: Env, g: Grade): Doc {
    ScoringFields(env, g.result) + StampFields(g.stamp)
  }

  function RubricBlock(report: Doc): Doc {
    if "rubric" in report && report["rubric"].Obj? then report["rubric"].fields else map[]
  }

  /** `apply_to_final_report` nests the fields under `rubric`; `apply_to_rubric_eval` puts
      them at the top. */
  function Stamped(env: Env, a: Artifact, doc: Doc, g: Grade): Doc {
    match a
    case FinalReport => doc["rubric" := Obj(RubricBlock(doc) + Fresh(env, g))]
    case RubricEval => doc + Fresh(env, g)
  }

  lemma SameFreshKeys(env: Env, g: Grade, h: Grade)
    ensures Fresh(env, g).Keys == Fresh(env, h).Keys
  {
  }

  lemma UpdateAbsorbs(d: Doc, f: Doc, g: Doc)
    requires f.Keys <= g.Keys
    ensures (d + f) + g == d + g
  {
  }

  /** Stamping twice is stamping with the later grade. */
  lemma StampAbsorbs(env: Env, a: Artifact, doc: Doc, g: Grade, h: Grade)
    ensures Stamped(env, a, Stamped(env, a, doc, g), h) == Stamped(env, a, doc, h)
  {
    hide Fresh;
    SameFreshKeys(env, g, h);
    match a
    case FinalReport => UpdateAbsorbs(RubricBlock(doc), Fresh(env, g), Fresh(env, h));
    case RubricEval => UpdateAbsorbs(doc, Fresh(env, g), Fresh(env, h));
  }

  /** The fields a backfill does not write keep their values, whatever the grade. */
  lemma OtherFieldsKept(env: Env, a: Artifact, doc: Doc, g: Grade, key: string)
    requires key !in Fresh(env, g)
    ensures a.RubricEval? ==> Get(Stamped(env, a, doc, g), key) == Get(doc, key)
    ensures a.FinalReport? ==> Get(RubricBlock(Stamped(env, a, doc, g)), key) == Get(RubricBlock(doc), key)
    ensures a.FinalReport? && key != "rubric" ==> Get(Stamped(env, a, doc, g), key) == Get(doc, key)
  {
    hide Fresh;
  }

  // ----- The files of a run directory -----

  datatype Artifact = FinalReport | RubricEval

  datatype FileName = RubricTree | GeneratedRubric | Main(a: Artifact) | Sidecar(a: Artifact) | Temp(a: Artifact)
    | Other(name: string)

  type Files = map<FileName, string>

  function Load(env: Env, fs: Files, f: FileName): Option<Doc> {
    if f in fs then env.parse(fs[f]) else None
  }

  /** The first rubric file decides, even when it does not parse. */
  function ResolveRubric(env: Env, fs: Files): Option<Doc> {
    if RubricTree in fs then env.parse(fs[RubricTree])
    else if GeneratedRubric in fs then env.parse(fs[GeneratedRubric])
    else None
  }

  /** The artifact is there and carries a score. */
  predicate Scored(env: Env, a: Artifact, fs: Files) {
    var doc := Load(env, fs, Main(a));
    doc.Some? &&
    match a
    case FinalReport => doc.value != map[] && env.hasScore(doc.value)
    case RubricEval => Get(doc.value, "overall_score") != Null
  }

  /** The run directory is regraded, not skipped. */
  predicate Gradeable(env: Env, fs: Files) {
    ResolveRubric(env, fs).Some? && (Scored(env, FinalReport, fs) || Scored(env, RubricEval, fs))
  }

  /** The three writes to one artifact: the sidecar, unless there is one; the new text beside
      it; and the replacement. */
  datatype Write = Archive(a: Artifact) | WriteTemp(a: Artifact, text: string) | Replace(a: Artifact)

  /** A new text is written only beside a sidecar. */
  predicate Enabled(fs: Files, w: Write) {
    match w
    case Archive(a) => Main(a) in fs
    case WriteTemp(a, _) => Sidecar(a) in fs
    case Replace(a) => Temp(a) in fs
  }

  function Perform(fs: Files, w: Write): Files
    requires Enabled(fs, w)
  {
    match w
    case Archive(a) => if Sidecar(a) in fs then fs else fs[Sidecar(a) := fs[Main(a)]]
    case WriteTemp(a, text) => fs[Temp(a) := text]
    case Replace(a) => fs[Main(a) := fs[Temp(a)]] - {Temp(a)}
  }

  function WritesTo(env: Env, a: Artifact, fs: Files, g: Grade): seq<Write> {
    if !Scored(env, a, fs) then [] else
      [Archive(a), WriteTemp(a, env.dump(Stamped(env, a, Load(env, fs, Main(a)).value, g))), Replace(a)]
  }

  /** The writes of one applied backfill of a directory, in order. */
  function Writes(env: Env, fs: Files, g: Grade): seq<Write> {
    if !Gradeable(env, fs) then [] else
      WritesTo(env, FinalReport, fs, g) + WritesTo(env, RubricEval, fs, g)
  }

  ghost predicate CanPerform(fs: Files, ws: seq<Write>)
    decreases |ws|
  {
    ws == [] || (Enabled(fs, ws[0]) && CanPerform(Perform(fs, ws[0]), ws[1..]))
  }

  ghost function PerformAll(fs: Files, ws: seq<Write>): Files
    requires CanPerform(fs, ws)
    decreases |ws|
  {
    if ws == [] then fs else PerformAll(Perform(fs, ws[0]), ws[1..])
  }

  // ----- The original is kept -----

  /** `fs` has the artifact as it was in `origin`, or stamped from it, with the sidecar right. */
  ghost predicate ArtifactOk(env: Env, a: Artifact, origin: Files, fs: Files, numeric: bool) {
    && (Main(a) in fs <==> Main(a) in origin)
    && (Sidecar(a) in fs ==> Scored(env, a, origin) && fs[Sidecar(a)] == origin[Main(a)])
    && (Main(a) in fs && Sidecar(a) !in fs ==> fs[Main(a)] == origin[Main(a)])
    && (Main(a) in fs && fs[Main(a)] != origin[Main(a)] ==>
          Scored(env, a, origin)
          && exists g :: Graded(env, g, numeric) && fs[Main(a)] == StampedText(env, a, origin, g))
  }

  ghost function StampedText(env: Env, a: Artifact, origin: Files, g: Grade): string
    requires Scored(env, a, origin)
  {
    env.dump(Stamped(env, a, Load(env, origin, Main(a)).value, g))
  }

  /** The temporary file, if left behind, holds a stamped artifact. */
  ghost predicate TempOk(env: Env, a: Artifact, origin: Files, fs: Files, numeric: bool) {
    Temp(a) in fs ==>
      Sidecar(a) in fs && Scored(env, a, origin) &&
      exists g :: Graded(env, g, numeric) && fs[Temp(a)] == StampedText(env, a, origin, g)
  }

  predicate IsArtifactFile(f: FileName) {
    f.Main? || f.Sidecar? || f.Temp?
  }

  ghost predicate FilesOk(env: Env, origin: Files, fs: Files, numeric: bool) {
    && (forall a :: ArtifactOk(env, a, origin, fs, numeric) && TempOk(env, a, origin, fs, numeric))
    && (forall f :: !IsArtifactFile(f) ==> (f in fs <==> f in origin) && (f in fs ==> fs[f] == origin[f]))
  }

  /** The document is read back as it is written. */
  ghost predicate ReadBack(env: Env, d: Doc) {
    env.parse(env.dump(d)) == Some(d)
  }

  /** A grade whose fields JSON can carry; with `numeric`, one with a number for a score. */
  ghost predicate Graded(env: Env, g: Grade, numeric: bool) {
    ReadBack(env, Fresh(env, g)) && (numeric ==> Numeric(g))
  }

  ghost predicate Numeric(g: Grade) {
    Get(g.result, "overall_score").Num?
  }

  /** No backfill has been applied yet. */
  ghost predicate Untouched(origin: Files) {
    forall a :: Sidecar(a) !in origin && Temp(a) !in origin
  }

  /** What is assumed of the JSON library: a document that was read, stamped with fields that are
      read back, is read back. */
  ghost predicate RoundTrips(env: Env) {
    forall text, a, g ::
      env.parse(text).Some? && ReadBack(env, Fresh(env, g)) ==> ReadBack(env, Stamped(env, a, env.parse(text).value, g))
  }

  /** What is assumed of the leaderboard: a report that was read, stamped with a numeric grade, has
      a score. */
  ghost predicate CountsStamped(env: Env) {
    forall text, g ::
      env.parse(text).Some? && Graded(env, g, true) ==>
        env.hasScore(Stamped(env, FinalReport, env.parse(text).value, g))
  }

  lemma UntouchedOk(env: Env, origin: Files, numeric: bool)
    requires Untouched(origin)
    ensures FilesOk(env, origin, origin, numeric)
  {
  }

  lemma FreshOverall(env: Env, g: Grade)
    ensures "overall_score" in Fresh(env, g) && Fresh(env, g)["overall_score"] == Get(g.result, "overall_score")
  {
    hide MeetsTarget, Get;
    assert "overall_score"[0] != "rubric_source"[0];
  }

  /** Stamped artifacts load as the stamped document, and count as scored after a numeric grade. */
  lemma StampedIsScored(env: Env, a: Artifact, origin: Files, fs: Files, g: Grade, numeric: bool)
    requires RoundTrips(env) && Graded(env, g, numeric)
    requires Scored(env, a, origin) && Main(a) in fs && fs[Main(a)] == StampedText(env, a, origin, g)
    ensures Load(env, fs, Main(a)) == Some(Stamped(env, a, Load(env, origin, Main(a)).value, g))
    ensures CountsStamped(env) && numeric ==> Scored(env, a, fs)
  {
    hide Fresh;
    var text := origin[Main(a)];
    var stamped := Stamped(env, a, env.parse(text).value, g);
    assert ReadBack(env, stamped);
    FreshOverall(env, g);
    match a
    case FinalReport => assert "rubric" in stamped;
    case RubricEval => assert stamped["overall_score"] == Get(g.result, "overall_score");
  }

  /** An artifact that is scored now was scored at first, and after numeric grades the converse
      holds too; stamping it now with a grade gives what stamping the original would. */
  lemma StampFromOrigin(env: Env, a: Artifact, origin: Files, fs: Files, g: Grade, numeric: bool)
    requires RoundTrips(env) && ArtifactOk(env, a, origin, fs, numeric)
    ensures Scored(env, a, fs) ==>
      Scored(env, a, origin) && StampedText(env, a, fs, g) == StampedText(env, a, origin, g)
    ensures numeric && CountsStamped(env) && Scored(env, a, origin) ==> Scored(env, a, fs)
  {
    if Main(a) in fs && fs[Main(a)] != origin[Main(a)] {
      var h :| Graded(env, h, numeric) && fs[Main(a)] == StampedText(env, a, origin, h);
      StampedIsScored(env, a, origin, fs, h, numeric);
      StampAbsorbs(env, a, Load(env, origin, Main(a)).value, h, g);
    }
  }

  // ----- Every write keeps the original -----

  /** A write as a backfill with a numeric grade makes it. */
  ghost predicate Fits(env: Env, origin: Files, fs: Files, w: Write, numeric: bool) {
    match w
    case Archive(a) => Main(a) in fs && Scored(env, a, origin)
    case WriteTemp(a, text) =>
      Sidecar(a) in fs && Scored(env, a, origin) &&
      exists g :: Graded(env, g, numeric) && text == StampedText(env, a, origin, g)
    case Replace(a) => Temp(a) in fs
  }

  lemma WriteKeepsOk(env: Env, origin: Files, fs: Files, w: Write, numeric: bool)
    requires FilesOk(env, origin, fs, numeric) && Fits(env, origin, fs, w, numeric)
    ensures FilesOk(env, origin, Perform(fs, w), numeric)
  {
    hide Scored, StampedText, Graded;
    var fs' := Perform(fs, w);
    forall a
      ensures ArtifactOk(env, a, origin, fs', numeric) && TempOk(env, a, origin, fs', numeric)
    {
      assert ArtifactOk(env, a, origin, fs, numeric) && TempOk(env, a, origin, fs, numeric);
      ScoredIsPresent(env, a, origin);
    }
  }

  lemma ScoredIsPresent(env: Env, a: Artifact, fs: Files)
    ensures Scored(env, a, fs) ==> Main(a) in fs
  {
  }

  ghost predicate FitAll(env: Env, origin: Files, fs: Files, ws: seq<Write>, numeric: bool)
    decreases |ws|
  {
    ws == [] || (Fits(env, origin, fs, ws[0], numeric) && FitAll(env, origin, Perform(fs, ws[0]), ws[1..], numeric))
  }

  /** Stopping after any number of the writes leaves the files in order. */
  lemma {:induction false} StopKeepsOk(env: Env, origin: Files, fs: Files, ws: seq<Write>, k: nat, numeric: bool)
    requires FilesOk(env, origin, fs, numeric) && FitAll(env, origin, fs, ws, numeric) && k <= |ws|
    ensures CanPerform(fs, ws[..k]) && FilesOk(env, origin, PerformAll(fs, ws[..k]), numeric)
    decreases |ws|
  {
    hide FilesOk;
    if k > 0 {
      WriteKeepsOk(env, origin, fs, ws[0], numeric);
      StopKeepsOk(env, origin, Perform(fs, ws[0]), ws[1..], k - 1, numeric);
      assert ws[..k][1..] == ws[1..][..k - 1];
    }
  }

  /** What a complete backfill makes of one scored artifact. */
  function Completed(fs: Files, a: Artifact, text: string): Files
    requires Main(a) in fs
  {
    fs[Sidecar(a) := if Sidecar(a) in fs then fs[Sidecar(a)] else fs[Main(a)]][Main(a) := text] - {Temp(a)}
  }

  lemma ThreeWrites(env: Env, origin: Files, fs: Files, a: Artifact, g: Grade, rest: seq<Write>, numeric: bool)
    requires Main(a) in fs && Scored(env, a, origin) && Graded(env, g, numeric)
    requires var text := StampedText(env, a, origin, g);
      FitAll(env, origin, Completed(fs, a, text), rest, numeric) && CanPerform(Completed(fs, a, text), rest)
    ensures var text := StampedText(env, a, origin, g);
      var ws := [Archive(a), WriteTemp(a, text), Replace(a)] + rest;
      FitAll(env, origin, fs, ws, numeric) && CanPerform(fs, ws) &&
      PerformAll(fs, ws) == PerformAll(Completed(fs, a, text), rest)
  {
    hide Scored, StampedText, Graded, FitAll, CanPerform, PerformAll;
    var text := StampedText(env, a, origin, g);
    var f1 := Perform(fs, Archive(a));
    var f2 := Perform(f1, WriteTemp(a, text));
    var f3 := Perform(f2, Replace(a));
    assert f3 == Completed(fs, a, text);
    OneWrite(env, origin, f2, Replace(a), rest, numeric);
    OneWrite(env, origin, f1, WriteTemp(a, text), [Replace(a)] + rest, numeric);
    OneWrite(env, origin, fs, Archive(a), [WriteTemp(a, text)] + ([Replace(a)] + rest), numeric);
    assert [Archive(a)] + ([WriteTemp(a, text)] + ([Replace(a)] + rest))
      == [Archive(a), WriteTemp(a, text), Replace(a)] + rest;
  }

  lemma OneWrite(env: Env, origin: Files, fs: Files, w: Write, rest: seq<Write>, numeric: bool)
    requires Fits(env, origin, fs, w, numeric)
    requires FitAll(env, origin, Perform(fs, w), rest, numeric) && CanPerform(Perform(fs, w), rest)
    ensures FitAll(env, origin, fs, [w] + rest, numeric) && CanPerform(fs, [w] + rest)
    ensures PerformAll(fs, [w] + rest) == PerformAll(Perform(fs, w), rest)
  {
    assert ([w] + rest)[1..] == rest;
  }

  /** The directory after a complete applied backfill. */
  ghost function Regraded(env: Env, fs: Files, g: Grade): Files {
    if !Gradeable(env, fs) then fs else
      RegradedIf(env, RubricEval, fs, RegradedIf(env, FinalReport, fs, fs, g), g)
  }

  ghost function RegradedIf(env: Env, a: Artifact, before: Files, fs: Files, g: Grade): Files {
    if Scored(env, a, before) && Main(a) in fs then Completed(fs, a, StampedText(env, a, before, g)) else fs
  }

  /** The writes of one backfill fit, whatever earlier backfills left, and amount to the
      regraded directory. */
  lemma WritesFit(env: Env, origin: Files, fs: Files, g: Grade, numeric: bool)
    requires RoundTrips(env) && Graded(env, g, numeric) && FilesOk(env, origin, fs, numeric)
    ensures FitAll(env, origin, fs, Writes(env, fs, g), numeric) && CanPerform(fs, Writes(env, fs, g))
    ensures PerformAll(fs, Writes(env, fs, g)) == Regraded(env, fs, g)
  {
    if Gradeable(env, fs) {
      hide Stamped, ArtifactOk, Graded, StampedText;
      assert ArtifactOk(env, FinalReport, origin, fs, numeric) && ArtifactOk(env, RubricEval, origin, fs, numeric);
      StampFromOrigin(env, FinalReport, origin, fs, g, numeric);
      StampFromOrigin(env, RubricEval, origin, fs, g, numeric);
      var fs1 := RegradedIf(env, FinalReport, fs, fs, g);
      var second := WritesTo(env, RubricEval, fs, g);
      EvalWrites(env, origin, fs, fs1, g, numeric);
      FinalWrites(env, origin, fs, g, second, numeric);
    }
  }

  lemma EvalWrites(env: Env, origin: Files, fs: Files, fs1: Files, g: Grade, numeric: bool)
    requires Graded(env, g, numeric)
    requires Scored(env, RubricEval, fs) ==>
      Scored(env, RubricEval, origin) && Main(RubricEval) in fs1 &&
      StampedText(env, RubricEval, fs, g) == StampedText(env, RubricEval, origin, g)
    ensures var ws := WritesTo(env, RubricEval, fs, g);
      FitAll(env, origin, fs1, ws, numeric) && CanPerform(fs1, ws) &&
      PerformAll(fs1, ws) == RegradedIf(env, RubricEval, fs, fs1, g)
  {
    hide Stamped, Graded;
    if Scored(env, RubricEval, fs) {
      ThreeWrites(env, origin, fs1, RubricEval, g, [], numeric);
      var text := StampedText(env, RubricEval, origin, g);
      assert WritesTo(env, RubricEval, fs, g)
        == [Archive(RubricEval), WriteTemp(RubricEval, text), Replace(RubricEval)] + [];
    }
  }

  lemma FinalWrites(env: Env, origin: Files, fs: Files, g: Grade, rest: seq<Write>, numeric: bool)
    requires Graded(env, g, numeric)
    requires Scored(env, FinalReport, fs) ==>
      Scored(env, FinalReport, origin) &&
      StampedText(env, FinalReport, fs, g) == StampedText(env, FinalReport, origin, g)
    requires var fs1 := RegradedIf(env, FinalReport, fs, fs, g);
      FitAll(env, origin, fs1, rest, numeric) && CanPerform(fs1, rest)
    ensures var ws := WritesTo(env, FinalReport, fs, g) + rest;
      FitAll(env, origin, fs, ws, numeric) && CanPerform(fs, ws) &&
      PerformAll(fs, ws) == PerformAll(RegradedIf(env, FinalReport, fs, fs, g), rest)
  {
    hide Stamped, Graded;
    if Scored(env, FinalReport, fs) {
      ThreeWrites(env, origin, fs, FinalReport, g, rest, numeric);
    } else {
      assert [] + rest == rest;
    }
  }

  // ----- Histories -----

  /** One visit to a directory: a dry run, or an applied one that stops after `stop` writes. */
  datatype Visit = Dry(g: Grade) | Applied(g: Grade, stop: nat)

  /** Every write of a backfill is possible when its turn comes, and together they make the
      regraded directory. */
  lemma WritesAmount(env: Env, fs: Files, g: Grade)
    ensures CanPerform(fs, Writes(env, fs, g))
    ensures PerformAll(fs, Writes(env, fs, g)) == Regraded(env, fs, g)
  {
    hide Stamped, Scored, Gradeable;
    ScoredIsPresent(env, FinalReport, fs);
    ScoredIsPresent(env, RubricEval, fs);
    var first, second := WritesTo(env, FinalReport, fs, g), WritesTo(env, RubricEval, fs, g);
    if Gradeable(env, fs) {
      var fs1 := RegradedIf(env, FinalReport, fs, fs, g);
      if second != [] {
        ThreeCan(fs1, RubricEval, second[1].text, []);
        assert [Archive(RubricEval), second[1], Replace(RubricEval)] + [] == second;
      }
      if first != [] {
        ThreeCan(fs, FinalReport, first[1].text, second);
        assert [Archive(FinalReport), first[1], Replace(FinalReport)] + second == first + second;
      } else {
        assert first + second == second;
      }
    }
  }

  lemma WritesCanPerform(env: Env, fs: Files, g: Grade, k: nat)
    requires k <= |Writes(env, fs, g)|
    ensures CanPerform(fs, Writes(env, fs, g)[..k])
  {
    WritesAmount(env, fs, g);
    CanPerformPrefix(fs, Writes(env, fs, g), k);
  }

  lemma ThreeCan(fs: Files, a: Artifact, text: string, rest: seq<Write>)
    requires Main(a) in fs && CanPerform(Completed(fs, a, text), rest)
    ensures CanPerform(fs, [Archive(a), WriteTemp(a, text), Replace(a)] + rest)
    ensures PerformAll(fs, [Archive(a), WriteTemp(a, text), Replace(a)] + rest)
      == PerformAll(Completed(fs, a, text), rest)
  {
    hide CanPerform, PerformAll;
    var f1 := Perform(fs, Archive(a));
    var f2 := Perform(f1, WriteTemp(a, text));
    assert Perform(f2, Replace(a)) == Completed(fs, a, text);
    OneCan(f2, Replace(a), rest);
    OneCan(f1, WriteTemp(a, text), [Replace(a)] + rest);
    OneCan(fs, Archive(a), [WriteTemp(a, text)] + ([Replace(a)] + rest));
    assert [Archive(a)] + ([WriteTemp(a, text)] + ([Replace(a)] + rest))
      == [Archive(a), WriteTemp(a, text), Replace(a)] + rest;
  }

  lemma OneCan(fs: Files, w: Write, rest: seq<Write>)
    requires Enabled(fs, w) && CanPerform(Perform(fs, w), rest)
    ensures CanPerform(fs, [w] + rest) && PerformAll(fs, [w] + rest) == PerformAll(Perform(fs, w), rest)
  {
    assert ([w] + rest)[1..] == rest;
  }

  lemma {:induction false} CanPerformPrefix(fs: Files, ws: seq<Write>, k: nat)
    requires CanPerform(fs, ws) && k <= |ws|
    ensures CanPerform(fs, ws[..k])
    decreases |ws|
  {
    if k > 0 {
      CanPerformPrefix(Perform(fs, ws[0]), ws[1..], k - 1);
      assert ws[..k][1..] == ws[1..][..k - 1];
    }
  }

  function Least(a: nat, b: nat): nat {
    if a < b then a else b
  }

  ghost function After(env: Env, fs: Files, v: Visit): Files {
    if v.Dry? then fs
    else
      var ws := Writes(env, fs, v.g);
      WritesCanPerform(env, fs, v.g, Least(v.stop, |ws|));
      PerformAll(fs, ws[..Least(v.stop, |ws|)])
  }

  ghost function AfterAll(env: Env, fs: Files, visits: seq<Visit>): Files
    decreases |visits|
  {
    if visits == [] then fs else AfterAll(env, After(env, fs, visits[0]), visits[1..])
  }

  ghost predicate AllGraded(env: Env, visits: seq<Visit>, numeric: bool) {
    forall i :: 0 <= i < |visits| ==> Graded(env, visits[i].g, numeric)
  }

  function WithoutDry(visits: seq<Visit>): seq<Visit> {
    if visits == [] then []
    else (if visits[0].Dry? then [] else [visits[0]]) + WithoutDry(visits[1..])
  }

  /** Leaving out all dry visits of a history changes nothing. */
  lemma {:induction false} DryVisitsDoNothing(env: Env, fs: Files, visits: seq<Visit>)
    ensures AfterAll(env, fs, visits) == AfterAll(env, fs, WithoutDry(visits))
    decreases |visits|
  {
    hide After;
    if visits != [] {
      var v, rest := visits[0], WithoutDry(visits[1..]);
      DryVisitsDoNothing(env, After(env, fs, v), visits[1..]);
      if v.Dry? {
        DryIsNothing(env, fs, v);
        assert [] + rest == rest;
      } else {
        assert ([v] + rest)[1..] == rest;
      }
    }
  }

  lemma DryIsNothing(env: Env, fs: Files, v: Visit)
    requires v.Dry?
    ensures After(env, fs, v) == fs
  {
  }

  lemma VisitKeepsOk(env: Env, origin: Files, fs: Files, v: Visit, numeric: bool)
    requires RoundTrips(env) && Graded(env, v.g, numeric) && FilesOk(env, origin, fs, numeric)
    ensures FilesOk(env, origin, After(env, fs, v), numeric)
  {
    hide FilesOk;
    if v.Applied? {
      var ws := Writes(env, fs, v.g);
      WritesFit(env, origin, fs, v.g, numeric);
      StopKeepsOk(env, origin, fs, ws, Least(v.stop, |ws|), numeric);
    }
  }

  lemma {:induction false} HistoryKeepsOk(env: Env, origin: Files, fs: Files, visits: seq<Visit>, numeric: bool)
    requires RoundTrips(env) && AllGraded(env, visits, numeric) && FilesOk(env, origin, fs, numeric)
    ensures FilesOk(env, origin, AfterAll(env, fs, visits), numeric)
    decreases |visits|
  {
    hide FilesOk, After;
    if visits != [] {
      VisitKeepsOk(env, origin, fs, visits[0], numeric);
      HistoryKeepsOk(env, origin, After(env, fs, visits[0]), visits[1..], numeric);
    }
  }

  /** The originals are kept in `fs`: an artifact without a sidecar is the original, and a sidecar
      is the original. */
  ghost predicate Kept(origin: Files, fs: Files) {
    && (forall a :: Main(a) in fs <==> Main(a) in origin)
    && (forall a :: Main(a) in fs && Sidecar(a) !in fs ==> fs[Main(a)] == origin[Main(a)])
    && (forall a :: Sidecar(a) in fs ==> Main(a) in origin && fs[Sidecar(a)] == origin[Main(a)])
    && (forall a :: Temp(a) in fs ==> Sidecar(a) in fs)
    && (forall f :: !IsArtifactFile(f) ==> (f in fs <==> f in origin) && (f in fs ==> fs[f] == origin[f]))
  }

  lemma WriteKeeps(origin: Files, fs: Files, w: Write)
    requires Kept(origin, fs) && Enabled(fs, w)
    ensures Kept(origin, Perform(fs, w))
  {
  }

  lemma {:induction false} WritesKeep(origin: Files, fs: Files, ws: seq<Write>)
    requires Kept(origin, fs) && CanPerform(fs, ws)
    ensures Kept(origin, PerformAll(fs, ws))
    decreases |ws|
  {
    hide Kept, Enabled, Perform;
    if ws != [] {
      WriteKeeps(origin, fs, ws[0]);
      WritesKeep(origin, Perform(fs, ws[0]), ws[1..]);
    }
  }

  lemma {:induction false} HistoryKeeps(env: Env, origin: Files, fs: Files, visits: seq<Visit>)
    requires Kept(origin, fs)
    ensures Kept(origin, AfterAll(env, fs, visits))
    decreases |visits|
  {
    hide Kept, Writes, PerformAll, CanPerform;
    if visits != [] {
      var v := visits[0];
      if v.Applied? {
        var ws := Writes(env, fs, v.g);
        WritesCanPerform(env, fs, v.g, Least(v.stop, |ws|));
        WritesKeep(origin, fs, ws[..Least(v.stop, |ws|)]);
      }
      HistoryKeeps(env, origin, After(env, fs, v), visits[1..]);
    }
  }

  /** Over any history of dry and applied backfills, each stopped anywhere, whatever the grades
      and the JSON library are: an artifact without a sidecar is still the original, and a sidecar
      is the original byte for byte; no other file changes. */
  lemma OriginalIsKept(env: Env, origin: Files, visits: seq<Visit>, a: Artifact)
    requires Untouched(origin)
    ensures var fs := AfterAll(env, origin, visits);
      && (Main(a) in fs <==> Main(a) in origin)
      && (Main(a) in fs && Sidecar(a) !in fs ==> fs[Main(a)] == origin[Main(a)])
      && (Sidecar(a) in fs ==> Main(a) in origin && fs[Sidecar(a)] == origin[Main(a)])
      && (forall f :: !IsArtifactFile(f) ==> (f in fs <==> f in origin) && (f in fs ==> fs[f] == origin[f]))
  {
    hide AfterAll;
    HistoryKeeps(env, origin, origin, visits);
  }

  /** Fields no grade writes keep their first values, over any history. */
  lemma FieldsKept(env: Env, origin: Files, visits: seq<Visit>, a: Artifact, key: string)
    requires RoundTrips(env) && AllGraded(env, visits, false) && Untouched(origin)
    requires forall g :: key !in Fresh(env, g)
    requires Load(env, origin, Main(a)).Some?
    ensures var now, first := Load(env, AfterAll(env, origin, visits), Main(a)), Load(env, origin, Main(a)).value;
      now.Some? &&
      match a
      case RubricEval => Get(now.value, key) == Get(first, key)
      case FinalReport =>
        Get(RubricBlock(now.value), key) == Get(RubricBlock(first), key) &&
        (key != "rubric" ==> Get(now.value, key) == Get(first, key))
  {
    hide Fresh;
    var fs := AfterAll(env, origin, visits);
    UntouchedOk(env, origin, false);
    HistoryKeepsOk(env, origin, origin, visits, false);
    assert ArtifactOk(env, a, origin, fs, false);
    if fs[Main(a)] != origin[Main(a)] {
      var g :| Graded(env, g, false) && fs[Main(a)] == StampedText(env, a, origin, g);
      StampedIsScored(env, a, origin, fs, g, false);
      OtherFieldsKept(env, a, Load(env, origin, Main(a)).value, g, key);
    }
  }

  /** A visit that is not stopped does the whole backfill. */
  lemma CompleteVisit(env: Env, fs: Files, g: Grade, stop: nat)
    requires stop >= |Writes(env, fs, g)|
    ensures After(env, fs, Applied(g, stop)) == Regraded(env, fs, g)
  {
    hide Regraded;
    WritesAmount(env, fs, g);
    var ws := Writes(env, fs, g);
    assert ws[..Least(stop, |ws|)] == ws;
  }

  lemma RegradedFromOrigin(env: Env, origin: Files, fs: Files, g: Grade, a: Artifact)
    requires RoundTrips(env) && CountsStamped(env) && FilesOk(env, origin, fs, true)
    ensures Scored(env, a, fs) <==> Scored(env, a, origin)
    ensures Scored(env, a, fs) ==>
      Main(a) in fs && StampedText(env, a, fs, g) == StampedText(env, a, origin, g)
    ensures Scored(env, a, fs) && Sidecar(a) in fs ==> fs[Sidecar(a)] == origin[Main(a)]
    ensures Scored(env, a, fs) && Sidecar(a) !in fs ==> fs[Main(a)] == origin[Main(a)]
    ensures !Scored(env, a, fs) ==>
      Sidecar(a) !in fs && Temp(a) !in fs && (Main(a) in fs <==> Main(a) in origin)
      && (Main(a) in fs ==> fs[Main(a)] == origin[Main(a)])
  {
    assert ArtifactOk(env, a, origin, fs, true) && TempOk(env, a, origin, fs, true);
    StampFromOrigin(env, a, origin, fs, g, true);
  }

  lemma SameRubric(env: Env, origin: Files, fs: Files, g: Grade)
    requires RoundTrips(env) && CountsStamped(env) && FilesOk(env, origin, fs, true)
    ensures Gradeable(env, fs) <==> Gradeable(env, origin)
  {
    RegradedFromOrigin(env, origin, fs, g, FinalReport);
    RegradedFromOrigin(env, origin, fs, g, RubricEval);
    assert !IsArtifactFile(RubricTree) && !IsArtifactFile(GeneratedRubric);
  }

  function Lookup(fs: Files, f: FileName): Option<string> {
    if f in fs then Some(fs[f]) else None
  }

  /** What a complete applied backfill leaves in one file. */
  ghost function RegradedFile(env: Env, fs: Files, g: Grade, f: FileName): Option<string> {
    match f
    case Main(a) => if Scored(env, a, fs) then Some(StampedText(env, a, fs, g)) else Lookup(fs, f)
    case Sidecar(a) => if Scored(env, a, fs) && f !in fs then Lookup(fs, Main(a)) else Lookup(fs, f)
    case Temp(a) => if Scored(env, a, fs) then None else Lookup(fs, f)
    case _ => Lookup(fs, f)
  }

  lemma CompletedFiles(fs: Files, a: Artifact, text: string, f: FileName)
    requires Main(a) in fs
    ensures Lookup(Completed(fs, a, text), f) ==
      if f == Main(a) then Some(text)
      else if f == Sidecar(a) then (if f in fs then Lookup(fs, f) else Lookup(fs, Main(a)))
      else if f == Temp(a) then None
      else Lookup(fs, f)
  {
  }

  lemma RegradedFiles(env: Env, fs: Files, g: Grade, f: FileName)
    requires Gradeable(env, fs)
    ensures Lookup(Regraded(env, fs, g), f) == RegradedFile(env, fs, g, f)
  {
    hide Scored, StampedText, Gradeable, Completed;
    ScoredIsPresent(env, FinalReport, fs);
    ScoredIsPresent(env, RubricEval, fs);
    var fs1 := RegradedIf(env, FinalReport, fs, fs, g);
    if Scored(env, FinalReport, fs) {
      var text := StampedText(env, FinalReport, fs, g);
      CompletedFiles(fs, FinalReport, text, f);
      CompletedFiles(fs, FinalReport, text, Main(RubricEval));
      CompletedFiles(fs, FinalReport, text, Sidecar(RubricEval));
    }
    assert Lookup(fs1, Main(RubricEval)) == Lookup(fs, Main(RubricEval));
    assert Lookup(fs1, Sidecar(RubricEval)) == Lookup(fs, Sidecar(RubricEval));
    if Scored(env, RubricEval, fs) {
      CompletedFiles(fs1, RubricEval, StampedText(env, RubricEval, fs, g), f);
    }
    if IsArtifactFile(f) {
      assert f.a == FinalReport || f.a == RubricEval;
    }
  }

  lemma SameRegradedFile(env: Env, origin: Files, fs: Files, g: Grade, f: FileName)
    requires RoundTrips(env) && CountsStamped(env) && Untouched(origin) && FilesOk(env, origin, fs, true)
    ensures RegradedFile(env, fs, g, f) == RegradedFile(env, origin, g, f)
  {
    hide Scored, StampedText, FilesOk, RoundTrips, CountsStamped;
    if IsArtifactFile(f) {
      var a := f.a;
      RegradedFromOrigin(env, origin, fs, g, a);
      ScoredIsPresent(env, a, fs);
      ScoredIsPresent(env, a, origin);
      assert Sidecar(a) !in origin && Temp(a) !in origin;
      if f == Main(a) {
        assert Scored(env, a, fs) || Lookup(fs, f) == Lookup(origin, f);
      } else if f == Sidecar(a) {
        if Scored(env, a, fs) {
          assert RegradedFile(env, origin, g, f) == Some(origin[Main(a)]);
          assert RegradedFile(env, fs, g, f) == Some(origin[Main(a)]);
        } else {
          assert Lookup(fs, f) == None == Lookup(origin, f);
        }
      } else {
        assert f == Temp(a);
        assert Scored(env, a, fs) || Lookup(fs, f) == None == Lookup(origin, f);
      }
    } else {
      OtherFiles(env, origin, fs);
      assert Lookup(fs, f) == Lookup(origin, f);
    }
  }

  lemma SameFiles(x: Files, y: Files)
    requires forall f :: Lookup(x, f) == Lookup(y, f)
    ensures x == y
  {
    forall f
      ensures f in x <==> f in y
      ensures f in x && f in y ==> x[f] == y[f]
    {
      assert Lookup(x, f) == Lookup(y, f);
    }
  }

  /** The last grade wins: after any history, stopped anywhere, a complete applied backfill
      leaves a gradeable directory exactly as if it were the only one. */
  lemma LastGradeWins(env: Env, origin: Files, visits: seq<Visit>, g: Grade)
    requires RoundTrips(env) && CountsStamped(env) && AllGraded(env, visits, true)
    requires Untouched(origin) && Gradeable(env, origin)
    ensures Regraded(env, AfterAll(env, origin, visits), g) == Regraded(env, origin, g)
  {
    hide Scored, StampedText, FilesOk, Gradeable, Graded, Regraded, RoundTrips, CountsStamped;
    var fs := AfterAll(env, origin, visits);
    UntouchedOk(env, origin, true);
    HistoryKeepsOk(env, origin, origin, visits, true);
    SameRubric(env, origin, fs, g);
    forall f
      ensures Lookup(Regraded(env, fs, g), f) == Lookup(Regraded(env, origin, g), f)
    {
      RegradedFiles(env, fs, g, f);
      RegradedFiles(env, origin, g, f);
      SameRegradedFile(env, origin, fs, g, f);
    }
    SameFiles(Regraded(env, fs, g), Regraded(env, origin, g));
  }

  lemma OtherFiles(env: Env, origin: Files, fs: Files)
    requires FilesOk(env, origin, fs, true)
    ensures forall f :: !IsArtifactFile(f) ==>
      (f in fs <==> f in origin) && (f in fs && f in origin ==> fs[f] == origin[f])
  {
  }

  // ----- One run directory -----

  datatype ArtifactOutcome = ArtifactOutcome(a: Artifact, archived: bool, written: bool)

  datatype Outcome = NoRubric | NoScoredArtifact | Done(artifacts: seq<ArtifactOutcome>) | Stopped

  /** What is reported of one artifact: whether a sidecar was, or would be, created. */
  function Reported(env: Env, a: Artifact, fs: Files, apply: bool): seq<ArtifactOutcome> {
    if Scored(env, a, fs) then [ArtifactOutcome(a, Sidecar(a) !in fs, apply)] else []
  }

  function OutcomeOf(env: Env, fs: Files, apply: bool): Outcome {
    if ResolveRubric(env, fs).None? then NoRubric
    else if !Gradeable(env, fs) then NoScoredArtifact
    else Done(Reported(env, FinalReport, fs, apply) + Reported(env, RubricEval, fs, apply))
  }

  lemma {:induction false} PerformAppend(fs: Files, a: seq<Write>, b: seq<Write>)
    requires CanPerform(fs, a) && CanPerform(PerformAll(fs, a), b)
    ensures CanPerform(fs, a + b) && PerformAll(fs, a + b) == PerformAll(PerformAll(fs, a), b)
    decreases |a|
  {
    if a == [] {
      assert a + b == b;
    } else {
      assert (a + b)[1..] == a[1..] + b;
      PerformAppend(Perform(fs, a[0]), a[1..], b);
    }
  }

  lemma ThreePrefix(fs: Files, a: Artifact, text: string, k: nat)
    requires Main(a) in fs && k <= 3
    ensures var ws := [Archive(a), WriteTemp(a, text), Replace(a)];
      CanPerform(fs, ws[..k]) &&
      (k == 0 ==> PerformAll(fs, ws[..k]) == fs) &&
      (k == 1 ==> PerformAll(fs, ws[..k]) == Perform(fs, Archive(a))) &&
      (k == 2 ==> PerformAll(fs, ws[..k]) == Perform(Perform(fs, Archive(a)), WriteTemp(a, text))) &&
      (k == 3 ==> PerformAll(fs, ws[..k]) == Completed(fs, a, text))
  {
    var ws := [Archive(a), WriteTemp(a, text), Replace(a)];
    ThreeCan(fs, a, text, []);
    assert ws + [] == ws && ws[..3] == ws;
    CanPerformPrefix(fs, ws, k);
    if k == 1 {
      assert ws[..1] == [Archive(a)] + [];
      OneCan(fs, Archive(a), []);
    } else if k == 2 {
      var f1 := Perform(fs, Archive(a));
      OneCan(f1, WriteTemp(a, text), []);
      OneCan(fs, Archive(a), [WriteTemp(a, text)]);
      assert ws[..2] == [Archive(a)] + [WriteTemp(a, text)] && [WriteTemp(a, text)] + [] == [WriteTemp(a, text)];
    }
  }

  class RunDirectory {
    var files: Files

    constructor (fs: Files)
      ensures files == fs
    {
      files := fs;
    }

    /** Copy the artifact to its sidecar unless there is one. */
    method ArchiveOnce(a: Artifact) returns (created: bool)
      requires Main(a) in files
      modifies this
      ensures files == Perform(old(files), Archive(a))
      ensures created <==> Sidecar(a) !in old(files)
    {
      if Sidecar(a) in files {
        return false;
      }
      files := files[Sidecar(a) := files[Main(a)]];
      created := true;
    }

    /** The writes to one artifact, cut off after `budget` of them. */
    method RewriteArtifact(a: Artifact, text: string, budget: nat) returns (created: bool, left: nat, stopped: bool)
      requires Main(a) in files
      modifies this
      ensures var ws := [Archive(a), WriteTemp(a, text), Replace(a)];
        CanPerform(old(files), ws[..Least(budget, 3)]) &&
        files == PerformAll(old(files), ws[..Least(budget, 3)])
      ensures stopped <==> budget < 3
      ensures !stopped ==> left == budget - 3 && (created <==> Sidecar(a) !in old(files))
    {
      ThreePrefix(files, a, text, Least(budget, 3));
      created, left, stopped := false, 0, true;
      if budget == 0 {
        return;
      }
      created := ArchiveOnce(a);
      if budget == 1 {
        return;
      }
      files := files[Temp(a) := text];
      if budget == 2 {
        return;
      }
      files := files[Main(a) := files[Temp(a)]] - {Temp(a)};
      left, stopped := budget - 3, false;
    }

    /** `backfill_run`: when `apply` is set, the process stops after `budget` writes. */
    method BackfillRun(env: Env, g: Grade, apply: bool, budget: nat) returns (outcome: Outcome)
      modifies this
      ensures files == After(env, old(files), if apply then Applied(g, budget) else Dry(g))
      ensures !apply ==> files == old(files)
      ensures outcome == if apply && budget < |Writes(env, old(files), g)| then Stopped
        else OutcomeOf(env, old(files), apply)
    {
      hide Stamped, Scored, CanPerform, PerformAll, ResolveRubric;
      ghost var fs := files;
      ghost var ws := Writes(env, fs, g);
      WritesCanPerform(env, fs, g, Least(budget, |ws|));
      ScoredIsPresent(env, FinalReport, fs);
      ScoredIsPresent(env, RubricEval, fs);
      NoWrites(fs);
      if ResolveRubric(env, files).None? {
        assert ws[..Least(budget, |ws|)] == [];
        return NoRubric;
      }
      var hasFinal, hasEval := Scored(env, FinalReport, files), Scored(env, RubricEval, files);
      if !hasFinal && !hasEval {
        assert ws[..Least(budget, |ws|)] == [];
        return NoScoredArtifact;
      }
      var finalReport, rubricEval := Load(env, files, Main(FinalReport)), Load(env, files, Main(RubricEval));
      ghost var first, second := WritesTo(env, FinalReport, fs, g), WritesTo(env, RubricEval, fs, g);
      var artifacts: seq<ArtifactOutcome> := [];
      var left := budget;
      if hasFinal {
        ScoredLoads(env, FinalReport, fs);
        if apply {
          var created, stopped;
          created, left, stopped := RewriteArtifact(FinalReport,
            env.dump(Stamped(env, FinalReport, finalReport.value, g)), left);
          if stopped {
            assert (first + second)[..budget] == first[..budget];
            return Stopped;
          }
          artifacts := artifacts + [ArtifactOutcome(FinalReport, created, true)];
        } else {
          artifacts := artifacts + [ArtifactOutcome(FinalReport, Sidecar(FinalReport) !in files, false)];
        }
      }
      assert apply ==> CanPerform(fs, first) && files == PerformAll(fs, first) && left == budget - |first| by {
        assert first[..|first|] == first;
      }
      if hasEval {
        ScoredLoads(env, RubricEval, fs);
        if apply {
          var created, stopped;
          ghost var mid := files;
          assert Main(RubricEval) in files && (Sidecar(RubricEval) in files <==> Sidecar(RubricEval) in fs) by {
            OtherArtifactKept(env, fs, g);
          }
          created, left, stopped := RewriteArtifact(RubricEval,
            env.dump(Stamped(env, RubricEval, rubricEval.value, g)), left);
          PerformAppend(fs, first, second[..Least(budget - |first|, 3)]);
          assert (first + second)[..Least(budget, |ws|)] == first + second[..Least(budget - |first|, 3)];
          if stopped {
            return Stopped;
          }
          artifacts := artifacts + [ArtifactOutcome(RubricEval, created, true)];
        } else {
          artifacts := artifacts + [ArtifactOutcome(RubricEval, Sidecar(RubricEval) !in files, false)];
        }
      } else {
        assert apply ==> (first + second)[..Least(budget, |ws|)] == first;
      }
      outcome := Done(artifacts);
    }
  }

  lemma NoWrites(fs: Files)
    ensures CanPerform(fs, []) && PerformAll(fs, []) == fs
  {
  }

  lemma ScoredLoads(env: Env, a: Artifact, fs: Files)
    requires Scored(env, a, fs)
    ensures Main(a) in fs && Load(env, fs, Main(a)).Some?
  {
  }

  /** Rewriting the final report leaves the other artifact alone. */
  lemma OtherArtifactKept(env: Env, fs: Files, g: Grade)
    requires CanPerform(fs, WritesTo(env, FinalReport, fs, g))
    ensures var fs1 := PerformAll(fs, WritesTo(env, FinalReport, fs, g));
      forall f :: f in {Main(RubricEval), Sidecar(RubricEval), Temp(RubricEval)} ==> (f in fs1 <==> f in fs)
  {
    hide Stamped, Scored;
    NoWrites(fs);
    var ws := WritesTo(env, FinalReport, fs, g);
    if ws != [] {
      ScoredIsPresent(env, FinalReport, fs);
      ThreePrefix(fs, FinalReport, ws[1].text, 3);
      assert ws[..3] == ws;
    }
  }
}
