/**
 * One `ANN` annotation: its `|`-separated fields, its consequence category, and the step
 * that decides whether it alone marks the record deleterious, threading the table cache.
 */
module Annotation {
  import opened Options
  import opened Text
  import opened Config
  import opened Notation
  import opened Scoring
  import opened Cache

  /** High-impact consequences decide at once; missense ones go to the score tables. */
  datatype Category = HighImpact | Missense | Other

  /** Consequence terms that make an annotation deleterious without any score lookup. */
  const HighImpactTerms: seq<string> :=
    ["disruptive", "frameshift_variant", "start_lost", "stop_gained", "stop_lost"]

  const MissenseTerm: string := "missense_variant"

  /** Classifies the consequence field by substring, high-impact terms first. */
  function Categorize(kind: string): (c: Category)
    ensures c == HighImpact <==> exists n :: 0 <= n < |HighImpactTerms| && Contains(kind, HighImpactTerms[n])
    ensures c == Missense <==> c != HighImpact && Contains(kind, MissenseTerm)
  {
    assert HighImpactTerms == ["disruptive", "frameshift_variant", "start_lost", "stop_gained", "stop_lost"];
    assert HighImpactTerms[0] == "disruptive" && HighImpactTerms[1] == "frameshift_variant";
    assert HighImpactTerms[2] == "start_lost" && HighImpactTerms[3] == "stop_gained";
    assert HighImpactTerms[4] == "stop_lost";
    if Contains(kind, "disruptive") then HighImpact
    else if Contains(kind, "frameshift_variant") then HighImpact
    else if Contains(kind, "start_lost") then HighImpact
    else if Contains(kind, "stop_gained") then HighImpact
    else if Contains(kind, "stop_lost") then HighImpact
    else if Contains(kind, MissenseTerm) then Missense
    else Other
  }

  /** The run's fixed context: scoring method, table loader, and three-to-one-letter code conversion. */
  datatype Env = Env(scoring: Method, load: string -> Option<Table>, letter: string -> char)

  function Fields(ann: string): seq<string> {
    Split(ann, '|')
  }

  /** Field 1 exists, and fields 3 and 10 (gene, protein change) exist for a missense annotation. */
  predicate Indexable(ann: string) {
    var f := Fields(ann);
    |f| >= 2 && (Categorize(f[1]) == Missense ==> |f| >= 11)
  }

  predicate IsHighImpact(ann: string) {
    var f := Fields(ann);
    |f| >= 2 && Categorize(f[1]) == HighImpact
  }

  /**
   * The cache-free meaning of one annotation: high-impact, or missense with a table for
   * the gene, a parsable notation and a decisive substitution in it.
   */
  predicate Verdict(ann: string, env: Env) {
    var f := Fields(ann);
    if !Indexable(ann) then false
    else
      match Categorize(f[1])
      case HighImpact => true
      case Other => false
      case Missense =>
        var table := env.load(f[3]);
        var parsed := Parse(f[10], env.letter);
        && table.Some?
        && parsed.Some?
        && exists n :: 0 <= n < |parsed.value| && Decisive(parsed.value[n], table.value, env.scoring)
  }

  /**
   * What examining one annotation did: the new cache slot, whether it is deleterious,
   * whether it ends the record's scan, whether a table load was attempted, and the
   * substitutions whose rows were looked up.
   */
  datatype Step = Step(slot: Slot, deleterious: bool, stop: bool, loaded: bool, lookups: seq<Triple>)

  /**
   * One pass of the annotation loop body. A missense annotation fetches the gene's table
   * before the notation is checked for an underscore, so a skipped notation can still
   * replace the cached table.
   */
  function Examine(ann: string, slot: Slot, env: Env): (s: Step)
    requires Indexable(ann)
    ensures s.stop <==> IsHighImpact(ann)
    ensures s.stop ==> s.deleterious && s.slot == slot && !s.loaded && s.lookups == []
    ensures Categorize(Fields(ann)[1]) == Other ==> !s.deleterious && s.slot == slot && !s.loaded && s.lookups == []
    ensures forall n :: 0 <= n < |s.lookups| ==> !Synonymous(s.lookups[n])
    ensures Coherent(slot, env.load) ==> Coherent(s.slot, env.load) && (s.deleterious <==> Verdict(ann, env))
  {
    var f := Fields(ann);
    match Categorize(f[1])
    case HighImpact => Step(slot, true, true, false, [])
    case Other => Step(slot, false, false, false, [])
    case Missense =>
      var fetched := Fetch(slot, f[3], env.load);
      FetchTransparent(slot, f[3], env.load);
      if fetched.table.None? then Step(fetched.slot, false, false, fetched.loaded, [])
      else
        match Parse(f[10], env.letter)
        case None => Step(fetched.slot, false, false, fetched.loaded, [])
        case Some(ts) =>
          var e := Evaluate(ts, fetched.table.value, env.scoring);
          EvaluateDecides(ts, fetched.table.value, env.scoring);
          Step(fetched.slot, e.deleterious, false, fetched.loaded, e.lookups)
  }

  /**
   * A missense notation with an underscore looks nothing up and is not deleterious, yet
   * the gene's table has already been fetched into the slot.
   */
  lemma UnderscoreSkips(ann: string, slot: Slot, env: Env)
    requires Indexable(ann)
    requires Categorize(Fields(ann)[1]) == Missense && '_' in Fields(ann)[10]
    ensures var s := Examine(ann, slot, env);
      var fetched := Fetch(slot, Fields(ann)[3], env.load);
      && !s.deleterious
      && s.lookups == []
      && s.slot == fetched.slot
      && s.loaded == !Hit(slot, Fields(ann)[3])
  {
  }

  /** A missense annotation whose gene has no table file is skipped and leaves the slot alone. */
  lemma MissingTableSkips(ann: string, slot: Slot, env: Env)
    requires Indexable(ann)
    requires Categorize(Fields(ann)[1]) == Missense
    requires !Hit(slot, Fields(ann)[3]) && env.load(Fields(ann)[3]).None?
    ensures var s := Examine(ann, slot, env);
      !s.deleterious && s.slot == slot && s.loaded && s.lookups == []
  {
  }

  /** Any consequence naming `stop_gained` is high-impact, whatever else it names. */
  lemma StopGainedIsHighImpact(kind: string)
    requires Contains(kind, "stop_gained")
    ensures Categorize(kind) == HighImpact
  {
  }

  /**
   * The end-to-end case for `p.Leu55Arg` under SIFT: a confident row with score 0.01 makes
   * the annotation deleterious, one with score 0.5 does not.
   */
  lemma MissenseLeu55Arg(ann: string, env: Env, ic: real, score: real)
    requires Indexable(ann)
    requires Categorize(Fields(ann)[1]) == Missense && Fields(ann)[10] == "p.Leu55Arg"
    requires env.scoring == Sift && env.letter("Leu") != env.letter("Arg") && ic < ConfidenceLimit
    requires env.load(Fields(ann)[3]) == Some([SiftRow(55, env.letter("Leu"), env.letter("Arg"), ic, score)])
    ensures Verdict(ann, env) <==> score <= ScoreLimit
  {
    var f := Fields(ann);
    var t := Triple(env.letter("Leu"), 55, env.letter("Arg"));
    var table := [SiftRow(55, env.letter("Leu"), env.letter("Arg"), ic, score)];
    ParseSingleExample(env.letter);
    assert Parse(f[10], env.letter) == Some([t]);
    assert FirstMatch(table, Sift, t) == Some(0);
    assert Decisive(t, table, Sift) <==> score <= ScoreLimit;
    assert [t][0] == t;
    assert Verdict(ann, env) <==> exists n :: 0 <= n < 1 && Decisive([t][n], table, env.scoring);
  }
}
