/**
 * Per-gene score tables and the threshold test. A table is a sequence of rows so that
 * "the first matching row decides" is explicit; scores are `real`s compared against the
 * method's fixed limits.
 */
module Scoring {
  import opened Options
  import opened Config
  import opened Notation

  /**
   * A SIFT row (`pos`, `ref`, `alt`, `median_ic`, `score`) or a sequence-UNET row
   * (`position`, `wt`, `mut`, `pred`).
   */
  datatype Row =
    | SiftRow(pos: int, ref: char, alt: char, medianIc: real, score: real)
    | UnetRow(position: int, wt: char, mut: char, pred: real)

  type Table = seq<Row>

  /** SIFT rows are only trusted below this median information content. */
  const ConfidenceLimit: real := 3.25
  /** A SIFT score at or below this is deleterious. */
  const ScoreLimit: real := 0.05
  /** A UNET prediction at or above this is deleterious. */
  const PredLimit: real := 0.5

  /** The position and the two residues a row is keyed on, whichever method produced it. */
  function Key(row: Row): (int, char, char) {
    match row
    case SiftRow(pos, ref, alt, _, _) => (pos, ref, alt)
    case UnetRow(position, wt, mut, _) => (position, wt, mut)
  }

  /**
   * The row filter of the table query: same position and residues, and for SIFT the
   * confidence gate. A selected row is keyed on the substitution and has the run's shape;
   * a SIFT row at or above the confidence limit is never selected.
   */
  predicate Selects(scoring: Method, row: Row, t: Triple): (b: bool)
    ensures b ==> Key(row) == (t.pos, t.wt, t.mut)
    ensures b ==> (row.SiftRow? <==> scoring == Sift)
    ensures row.SiftRow? && row.medianIc >= ConfidenceLimit ==> !b
  {
    match row
    case SiftRow(pos, ref, alt, ic, _) =>
      scoring == Sift && pos == t.pos && ref == t.wt && alt == t.mut && ic < ConfidenceLimit
    case UnetRow(position, wt, mut, _) =>
      scoring == Unet && position == t.pos && wt == t.wt && mut == t.mut
  }

  /** The method's threshold on the decisive row. */
  predicate Passes(row: Row) {
    match row
    case SiftRow(_, _, _, _, score) => score <= ScoreLimit
    case UnetRow(_, _, _, pred) => pred >= PredLimit
  }

  /** The index of the first selected row (`.iloc[0]`), or `None` where the query raises `IndexError`. */
  function FirstMatch(table: Table, scoring: Method, t: Triple): (r: Option<nat>)
    ensures r.Some? ==> r.value < |table| && Selects(scoring, table[r.value], t)
    ensures r.Some? ==> forall n :: 0 <= n < r.value ==> !Selects(scoring, table[n], t)
    ensures r.None? <==> forall n :: 0 <= n < |table| ==> !Selects(scoring, table[n], t)
    decreases |table|
  {
    if |table| == 0 then None
    else if Selects(scoring, table[0], t) then Some(0)
    else
      match FirstMatch(table[1..], scoring, t)
      case None => None
      case Some(n) => Some(n + 1)
  }

  /** A substitution that settles the annotation: non-synonymous, with a first row that passes. */
  predicate Decisive(t: Triple, table: Table, scoring: Method) {
    && !Synonymous(t)
    && var f := FirstMatch(table, scoring, t);
       f.Some? && Passes(table[f.value])
  }

  /** The non-synonymous triples, in order: those the evaluator looks up. */
  function NonSynonymous(ts: seq<Triple>): (us: seq<Triple>)
    ensures forall n :: 0 <= n < |us| ==> !Synonymous(us[n])
    ensures forall u :: u in us <==> u in ts && !Synonymous(u)
    decreases |ts|
  {
    if |ts| == 0 then []
    else if Synonymous(ts[0]) then NonSynonymous(ts[1..])
    else [ts[0]] + NonSynonymous(ts[1..])
  }

  /** The verdict for one annotation's triples and the triples whose rows were looked up. */
  datatype Evaluation = Evaluation(deleterious: bool, lookups: seq<Triple>)

  /**
   * The substitution loop: synonymous triples are skipped, a triple with no selected row
   * is passed over, and the first passing triple ends the loop. Only non-synonymous
   * triples are ever looked up.
   */
  function Evaluate(ts: seq<Triple>, table: Table, scoring: Method): (e: Evaluation)
    ensures forall n :: 0 <= n < |e.lookups| ==> !Synonymous(e.lookups[n])
    decreases |ts|
  {
    if |ts| == 0 then Evaluation(false, [])
    else
      var t := ts[0];
      var rest := Evaluate(ts[1..], table, scoring);
      if Synonymous(t) then rest
      else
        match FirstMatch(table, scoring, t)
        case None => Evaluation(rest.deleterious, [t] + rest.lookups)
        case Some(i) =>
          if Passes(table[i]) then Evaluation(true, [t])
          else Evaluation(rest.deleterious, [t] + rest.lookups)
  }

  /** The loop finds a deleterious substitution iff some triple is decisive. */
  lemma {:induction false} EvaluateDecides(ts: seq<Triple>, table: Table, scoring: Method)
    ensures Evaluate(ts, table, scoring).deleterious <==> exists n :: 0 <= n < |ts| && Decisive(ts[n], table, scoring)
    decreases |ts|
  {
    if |ts| > 0 {
      var rest := ts[1..];
      EvaluateDecides(rest, table, scoring);
      if Decisive(ts[0], table, scoring) {
        assert Evaluate(ts, table, scoring).deleterious;
      } else {
        assert Evaluate(ts, table, scoring).deleterious == Evaluate(rest, table, scoring).deleterious;
        if exists n :: 0 <= n < |ts| && Decisive(ts[n], table, scoring) {
          var n :| 0 <= n < |ts| && Decisive(ts[n], table, scoring);
          assert rest[n - 1] == ts[n];
        }
        if exists n :: 0 <= n < |rest| && Decisive(rest[n], table, scoring) {
          var n :| 0 <= n < |rest| && Decisive(rest[n], table, scoring);
          assert ts[n + 1] == rest[n];
        }
      }
    }
  }

  /** Without a deleterious substitution, every non-synonymous triple is looked up, in order. */
  lemma {:induction false} EvaluateLooksUpAll(ts: seq<Triple>, table: Table, scoring: Method)
    ensures !Evaluate(ts, table, scoring).deleterious ==> Evaluate(ts, table, scoring).lookups == NonSynonymous(ts)
    decreases |ts|
  {
    if |ts| > 0 {
      EvaluateLooksUpAll(ts[1..], table, scoring);
    }
  }

  /** The triples looked up are a prefix of the non-synonymous ones: none is skipped or reordered. */
  lemma {:induction false} EvaluateLooksUpPrefix(ts: seq<Triple>, table: Table, scoring: Method)
    ensures Evaluate(ts, table, scoring).lookups <= NonSynonymous(ts)
    decreases |ts|
  {
    if |ts| > 0 {
      EvaluateLooksUpPrefix(ts[1..], table, scoring);
    }
  }

  /** When the verdict is deleterious the last triple looked up is decisive, and no earlier one is. */
  lemma {:induction false} EvaluateLastDecisive(ts: seq<Triple>, table: Table, scoring: Method)
    ensures Evaluate(ts, table, scoring).deleterious ==>
      |Evaluate(ts, table, scoring).lookups| > 0 &&
      Decisive(Evaluate(ts, table, scoring).lookups[|Evaluate(ts, table, scoring).lookups| - 1], table, scoring)
    ensures forall n :: 0 <= n < |Evaluate(ts, table, scoring).lookups| - 1 ==>
      !Decisive(Evaluate(ts, table, scoring).lookups[n], table, scoring)
    decreases |ts|
  {
    if |ts| > 0 {
      var t := ts[0];
      var rest := Evaluate(ts[1..], table, scoring);
      EvaluateLastDecisive(ts[1..], table, scoring);
      var e := Evaluate(ts, table, scoring);
      if Synonymous(t) {
        assert e == rest;
      } else if Decisive(t, table, scoring) {
        assert e == Evaluation(true, [t]);
      } else {
        assert e == Evaluation(rest.deleterious, [t] + rest.lookups);
        assert forall n :: 0 < n < |e.lookups| ==> e.lookups[n] == rest.lookups[n - 1];
      }
    }
  }

  /**
   * The loop stops at the first decisive triple of `ts`: the triples looked up are a prefix
   * of the non-synonymous ones, the last of them is decisive when the verdict is
   * deleterious, and no earlier one is.
   */
  lemma EvaluateStopsAtFirst(ts: seq<Triple>, table: Table, scoring: Method)
    ensures Evaluate(ts, table, scoring).lookups <= NonSynonymous(ts)
    ensures Evaluate(ts, table, scoring).deleterious ==>
      |Evaluate(ts, table, scoring).lookups| > 0 &&
      Decisive(Evaluate(ts, table, scoring).lookups[|Evaluate(ts, table, scoring).lookups| - 1], table, scoring)
    ensures forall n :: 0 <= n < |Evaluate(ts, table, scoring).lookups| - 1 ==>
      !Decisive(Evaluate(ts, table, scoring).lookups[n], table, scoring)
  {
    EvaluateLooksUpPrefix(ts, table, scoring);
    EvaluateLastDecisive(ts, table, scoring);
  }

  /**
   * The threshold cases: the SIFT confidence gate is strict (3.25 itself is not trusted),
   * the SIFT score limit is inclusive, and UNET at exactly one half passes.
   */
  lemma ThresholdExamples(t: Triple)
    requires !Synonymous(t)
    ensures Decisive(t, [SiftRow(t.pos, t.wt, t.mut, 3.0, 0.05)], Sift)
    ensures !Decisive(t, [SiftRow(t.pos, t.wt, t.mut, 3.0, 0.06)], Sift)
    ensures !Decisive(t, [SiftRow(t.pos, t.wt, t.mut, 3.3, 0.01)], Sift)
    ensures !Decisive(t, [SiftRow(t.pos, t.wt, t.mut, 3.25, 0.01)], Sift)
    ensures Decisive(t, [UnetRow(t.pos, t.wt, t.mut, 0.5)], Unet)
    ensures !Decisive(t, [UnetRow(t.pos, t.wt, t.mut, 0.499999)], Unet)
  {
  }

  /** A SIFT row that passes still passes with a lower score; a UNET row with a higher prediction. */
  lemma PassesMonotone(row: Row, other: Row)
    requires Passes(row)
    requires row.SiftRow? ==> other.SiftRow? && other.score <= row.score
    requires row.UnetRow? ==> other.UnetRow? && other.pred >= row.pred
    ensures Passes(other)
  {
  }

  /**
   * Only the first selected row counts: a later passing row for the same substitution is
   * never consulted.
   */
  lemma {:induction false} FirstRowDecides(table: Table, row: Row, t: Triple, scoring: Method)
    requires Selects(scoring, row, t)
    ensures Decisive(t, [row] + table, scoring) <==> !Synonymous(t) && Passes(row)
  {
  }
}
