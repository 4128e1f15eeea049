/** What a complete backfill writes, read off the files and the documents alone. */
module RegradeLaws {
  import opened Wrappers
  import opened RegradeBackfill

  // ----- The written values -----

  /** Both scores are numbers, as Python's `float` has it. */
  predicate Comparable(env: Env, overall: Json, target: Json) {
    target != Null && env.toFloat(overall).Some? && env.toFloat(target).Some?
  }

  /** `meets` says whether the overall score reaches the target, or is null when that cannot be said. */
  predicate SaysWhetherMet(env: Env, overall: Json, target: Json, meets: Json) {
    && (meets == Null <==> !Comparable(env, overall, target))
    && (Comparable(env, overall, target) ==>
         (meets == Bool(true) <==> env.toFloat(overall).value >= env.toFloat(target).value)
         && (meets == Bool(false) <==> env.toFloat(overall).value < env.toFloat(target).value))
  }

  /** The field is the result's own, or null where the result has none. */
  predicate Copied(block: Doc, result: Doc, key: string) {
    key in block && block[key] == if key in result then result[key] else Null
  }

  predicate CarriesScores(env: Env, block: Doc, result: Doc) {
    && Copied(block, result, "overall_score") && Copied(block, result, "target_score")
    && Copied(block, result, "leaf_count") && Copied(block, result, "graded")
    && Copied(block, result, "coverage_pct") && Copied(block, result, "degraded")
    && Copied(block, result, "rubric_source")
    && "compute_adjusted_score" in block && block["compute_adjusted_score"] == block["overall_score"]
    && "leaf_scores" in block
    && block["leaf_scores"] == (if "leaf_scores" in result then result["leaf_scores"] else Arr([]))
    && "meets_target" in block
    && SaysWhetherMet(env, block["overall_score"], block["target_score"], block["meets_target"])
  }

  predicate CarriesStamp(block: Doc, s: Stamp) {
    && "grader_version" in block && block["grader_version"] == Str(s.version)
    && "grader_samples" in block && block["grader_samples"] == s.samples
    && "grader_temperature" in block && block["grader_temperature"] == s.temperature
  }

  lemma ScoringNames()
    ensures "overall_score" != "rubric_source"
    ensures "target_score" != "meets_target" && "target_score" != "coverage_pct" && "meets_target" != "coverage_pct"
  {
    assert "overall_score"[0] != "rubric_source"[0];
    assert "target_score"[0] != "meets_target"[0] && "meets_target"[0] != "coverage_pct"[0];
    assert "target_score"[0] != "coverage_pct"[0];
  }

  lemma CopiesScores(env: Env, result: Doc)
    ensures var f := ScoringFields(env, result);
      Copied(f, result, "overall_score") && Copied(f, result, "target_score")
  {
    hide MeetsTarget;
    ScoringNames();
  }

  lemma CopiesCounts(env: Env, result: Doc)
    ensures var f := ScoringFields(env, result); Copied(f, result, "leaf_count") && Copied(f, result, "graded")
  {
    hide MeetsTarget;
  }

  lemma CopiesOrigin(env: Env, result: Doc)
    ensures var f := ScoringFields(env, result);
      Copied(f, result, "coverage_pct") && Copied(f, result, "degraded") && Copied(f, result, "rubric_source")
  {
    hide MeetsTarget;
    ScoringNames();
  }

  lemma ScoringDerives(env: Env, result: Doc)
    ensures var f := ScoringFields(env, result);
      && "compute_adjusted_score" in f && f["compute_adjusted_score"] == Get(result, "overall_score")
      && "leaf_scores" in f
      && f["leaf_scores"] == (if "leaf_scores" in result then result["leaf_scores"] else Arr([]))
      && "meets_target" in f
      && f["meets_target"] == MeetsTarget(env, Get(result, "overall_score"), Get(result, "target_score"))
  {
    hide MeetsTarget, Get;
    ScoringNames();
  }

  lemma ScoringCarries(env: Env, result: Doc)
    ensures CarriesScores(env, ScoringFields(env, result), result)
  {
    hide SaysWhetherMet, MeetsTarget, ScoringFields;
    CopiesScores(env, result);
    CopiesCounts(env, result);
    CopiesOrigin(env, result);
    ScoringDerives(env, result);
    MeetsIsSaid(env, Get(result, "overall_score"), Get(result, "target_score"));
  }

  lemma StampCarries(s: Stamp)
    ensures CarriesStamp(StampFields(s), s)
  {
    assert "grader_version"[7] != "grader_samples"[7];
  }

  lemma MeetsIsSaid(env: Env, overall: Json, target: Json)
    ensures SaysWhetherMet(env, overall, target, MeetsTarget(env, overall, target))
  {
  }

  predicate IsScoreField(key: string) {
    key in {"overall_score", "target_score", "meets_target", "leaf_count", "graded", "coverage_pct", "degraded",
            "rubric_source", "compute_adjusted_score", "leaf_scores"}
  }

  predicate IsStampField(key: string) {
    key in {"grader_version", "grader_samples", "grader_temperature"}
  }

  lemma FieldsDiffer(key: string)
    ensures !(IsScoreField(key) && IsStampField(key))
  {
    assert IsStampField(key) ==> |key| == 14 || |key| == 18;
    assert IsScoreField(key) ==> |key| != 14 && |key| != 18;
  }

  lemma GradeFields(env: Env, g: Grade, key: string)
    ensures key in ScoringFields(env, g.result) <==> IsScoreField(key)
    ensures key in StampFields(g.stamp) <==> IsStampField(key)
    ensures key in Fresh(env, g) <==> IsScoreField(key) || IsStampField(key)
  {
    hide MeetsTarget;
  }

  predicate Includes(block: Doc, part: Doc) {
    forall key :: key in part ==> key in block && block[key] == part[key]
  }

  lemma CarriesMore(env: Env, part: Doc, block: Doc, g: Grade)
    requires Includes(block, part)
    ensures CarriesScores(env, part, g.result) ==> CarriesScores(env, block, g.result)
    ensures CarriesStamp(part, g.stamp) ==> CarriesStamp(block, g.stamp)
  {
    hide SaysWhetherMet;
  }

  /** The block that an artifact has its grade in. */
  predicate IsBlock(a: Artifact, doc: Doc, block: Doc) {
    if a.RubricEval? then block == doc else "rubric" in doc && doc["rubric"] == Obj(block)
  }

  lemma FreshCarries(env: Env, base: Doc, g: Grade)
    ensures CarriesScores(env, base + Fresh(env, g), g.result) && CarriesStamp(base + Fresh(env, g), g.stamp)
    ensures forall key :: !IsScoreField(key) && !IsStampField(key) ==>
      (key in base + Fresh(env, g) <==> key in base)
      && (key in base ==> (base + Fresh(env, g))[key] == base[key])
  {
    hide ScoringFields, StampFields, CarriesScores, CarriesStamp, IsScoreField, IsStampField;
    var scores, stamp, block := ScoringFields(env, g.result), StampFields(g.stamp), base + Fresh(env, g);
    forall key
      ensures key in scores <==> IsScoreField(key)
      ensures key in stamp <==> IsStampField(key)
      ensures !(IsScoreField(key) && IsStampField(key))
    {
      GradeFields(env, g, key);
      FieldsDiffer(key);
    }
    ScoringCarries(env, g.result);
    StampCarries(g.stamp);
    CarriesMore(env, scores, block, g);
    CarriesMore(env, stamp, block, g);
  }

  // ----- A complete visit -----

  /** The artifact is there and carries a score. */
  predicate HasScore(env: Env, a: Artifact, fs: Files) {
    Main(a) in fs && env.parse(fs[Main(a)]).Some? &&
    var doc := env.parse(fs[Main(a)]).value;
    if a.FinalReport? then doc != map[] && env.hasScore(doc)
    else "overall_score" in doc && doc["overall_score"] != Null
  }

  /** The first rubric file that is there can be read. */
  predicate HasRubric(env: Env, fs: Files) {
    if RubricTree in fs then env.parse(fs[RubricTree]).Some?
    else GeneratedRubric in fs && env.parse(fs[GeneratedRubric]).Some?
  }

  lemma ScoredIff(env: Env, a: Artifact, fs: Files)
    ensures Scored(env, a, fs) <==> HasScore(env, a, fs)
    ensures Gradeable(env, fs)
      <==> HasRubric(env, fs) && (HasScore(env, FinalReport, fs) || HasScore(env, RubricEval, fs))
  {
  }

  /** The block as it was; a report without one gets one. */
  function OldBlock(a: Artifact, doc: Doc): Doc {
    if a.RubricEval? then doc
    else if "rubric" in doc && doc["rubric"].Obj? then doc["rubric"].fields
    else map[]
  }

  predicate SameField(x: Doc, y: Doc, key: string) {
    (key in x <==> key in y) && (key in x && key in y ==> x[key] == y[key])
  }

  /** All fields but those of the grade are as in `before`, in the block and around it. */
  ghost predicate KeepsOthers(a: Artifact, before: Doc, doc: Doc, block: Doc) {
    && (a.FinalReport? ==> forall key :: key != "rubric" ==> SameField(doc, before, key))
    && forall key :: !IsScoreField(key) && !IsStampField(key) ==> SameField(block, OldBlock(a, before), key)
  }

  lemma StampedBlock(env: Env, a: Artifact, doc: Doc, g: Grade) returns (block: Doc)
    ensures IsBlock(a, Stamped(env, a, doc, g), block)
    ensures CarriesScores(env, block, g.result) && CarriesStamp(block, g.stamp)
    ensures KeepsOthers(a, doc, Stamped(env, a, doc, g), block)
  {
    hide Fresh, CarriesScores, CarriesStamp, IsScoreField, IsStampField;
    var base := OldBlock(a, doc);
    block := base + Fresh(env, g);
    FreshCarries(env, base, g);
  }

  /** What a complete applied visit does to an artifact. In a directory with a rubric and a score each
      scored artifact is replaced by a document with the same fields but those of the grade, which are the
      grade's; the text it had is in the sidecar, unless there was one. Nothing else changes. */
  lemma VisitWrites(env: Env, fs: Files, g: Grade, stop: nat, a: Artifact) returns (doc: Doc, block: Doc)
    requires stop >= |Writes(env, fs, g)|
    ensures var fs' := After(env, fs, Applied(g, stop));
      if HasRubric(env, fs) && HasScore(env, a, fs) then
        && Lookup(fs', Main(a)) == Some(env.dump(doc)) && Temp(a) !in fs'
        && Lookup(fs', Sidecar(a)) == Some(fs[if Sidecar(a) in fs then Sidecar(a) else Main(a)])
        && IsBlock(a, doc, block) && CarriesScores(env, block, g.result) && CarriesStamp(block, g.stamp)
        && KeepsOthers(a, env.parse(fs[Main(a)]).value, doc, block)
        && (RoundTrips(env) && ReadBack(env, Fresh(env, g)) ==> env.parse(fs'[Main(a)]) == Some(doc))
      else
        forall f :: f in {Main(a), Sidecar(a), Temp(a)} ==> Lookup(fs', f) == Lookup(fs, f)
  {
    hide After, Writes, Regraded, Scored, Gradeable, HasRubric, CarriesScores, CarriesStamp, Fresh, IsBlock,
      KeepsOthers;
    CompleteVisit(env, fs, g, stop);
    ScoredIff(env, a, fs);
    doc, block := map[], map[];
    if Gradeable(env, fs) {
      RegradedFiles(env, fs, g, Main(a));
      RegradedFiles(env, fs, g, Sidecar(a));
      RegradedFiles(env, fs, g, Temp(a));
      if Scored(env, a, fs) {
        ScoredLoads(env, a, fs);
        var before := Load(env, fs, Main(a)).value;
        doc := Stamped(env, a, before, g);
        block := StampedBlock(env, a, before, g);
      }
    } else {
      NotRegraded(env, fs, g);
    }
  }

  lemma NotRegraded(env: Env, fs: Files, g: Grade)
    requires !Gradeable(env, fs)
    ensures Regraded(env, fs, g) == fs
  {
  }

  /** Only scored artifacts are reported, the final report first. */
  predicate ReportedInOrder(env: Env, fs: Files, apply: bool, os: seq<ArtifactOutcome>) {
    && (forall i :: 0 <= i < |os| ==>
          HasScore(env, os[i].a, fs) && os[i] == ArtifactOutcome(os[i].a, Sidecar(os[i].a) !in fs, apply))
    && forall i, j :: 0 <= i < j < |os| ==> os[i].a == FinalReport && os[j].a == RubricEval
  }

  /** When a directory is skipped, and why, and what is reported of each artifact otherwise. */
  lemma SkippedIff(env: Env, fs: Files, apply: bool, a: Artifact)
    ensures var outcome := OutcomeOf(env, fs, apply);
      && (outcome == NoRubric <==> !HasRubric(env, fs))
      && (outcome == NoScoredArtifact <==>
            HasRubric(env, fs) && !HasScore(env, FinalReport, fs) && !HasScore(env, RubricEval, fs))
      && (outcome.Done? ==>
            (HasScore(env, a, fs) <==> ArtifactOutcome(a, Sidecar(a) !in fs, apply) in outcome.artifacts))
      && (outcome.Done? ==> ReportedInOrder(env, fs, apply, outcome.artifacts))
  {
    hide Scored, HasScore;
    ScoredIff(env, FinalReport, fs);
    ScoredIff(env, RubricEval, fs);
    assert a == FinalReport || a == RubricEval;
  }
}
