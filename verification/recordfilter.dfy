/**
 * The run: for each record with an `ANN` field, fold over its annotations threading the
 * keep flag and the cache slot; write the record when the flag ends up set. The cache
 * slot lives for the whole run, across records.
 */
module RecordFilter {
  import opened Options
  import opened Config
  import opened Scoring
  import opened Cache
  import opened Annotation

  /** A variant record: its text as written out, and its `ANN` values when the field is present. */
  datatype Record = Record(text: string, ann: Option<seq<string>>)

  /** Every annotation the scan reaches can be indexed: all of them up to the first high-impact one. */
  predicate ScanSafe(anns: seq<string>)
    decreases |anns|
  {
    |anns| == 0 || (Indexable(anns[0]) && (IsHighImpact(anns[0]) || ScanSafe(anns[1..])))
  }

  /** The fold's state after a record: slot, keep flag, and how many annotations were examined. */
  datatype Scan = Scan(slot: Slot, keep: bool, visited: nat)

  /**
   * The annotation loop. A high-impact annotation sets the flag and ends the loop; every
   * other annotation is examined, even after the flag is already set.
   */
  function ScanAnnotations(anns: seq<string>, slot: Slot, keep: bool, env: Env): (r: Scan)
    requires ScanSafe(anns)
    ensures keep ==> r.keep
    ensures r.visited <= |anns|
    ensures forall n :: 0 <= n < r.visited - 1 ==> !IsHighImpact(anns[n])
    ensures r.visited < |anns| ==> r.visited > 0 && IsHighImpact(anns[r.visited - 1])
    ensures r.visited > 0 && IsHighImpact(anns[r.visited - 1]) ==> r.keep
    decreases |anns|
  {
    if |anns| == 0 then Scan(slot, keep, 0)
    else
      var s := Examine(anns[0], slot, env);
      if s.stop then Scan(s.slot, true, 1)
      else
        var rest := ScanAnnotations(anns[1..], s.slot, keep || s.deleterious, env);
        assert forall n :: 0 < n < |anns| ==> anns[n] == anns[1..][n - 1];
        Scan(rest.slot, rest.keep, rest.visited + 1)
  }

  /**
   * With a coherent cache the scan keeps the record exactly when some annotation is
   * deleterious on its own: the cache and the early exit change nothing but the work done.
   */
  lemma {:induction false} ScanMeaning(anns: seq<string>, slot: Slot, keep: bool, env: Env)
    requires ScanSafe(anns)
    ensures var r := ScanAnnotations(anns, slot, keep, env);
      Coherent(slot, env.load) ==>
      && Coherent(r.slot, env.load)
      && (r.keep <==> keep || exists n :: 0 <= n < |anns| && Verdict(anns[n], env))
    decreases |anns|
  {
    if |anns| > 0 && Coherent(slot, env.load) {
      var s := Examine(anns[0], slot, env);
      if !s.stop {
        ScanMeaning(anns[1..], s.slot, keep || s.deleterious, env);
        var r := ScanAnnotations(anns[1..], s.slot, keep || s.deleterious, env);
        if r.keep && !keep && !s.deleterious {
          var n :| 0 <= n < |anns[1..]| && Verdict(anns[1..][n], env);
          assert Verdict(anns[n + 1], env);
        }
        if exists n :: 0 <= n < |anns| && Verdict(anns[n], env) {
          var n :| 0 <= n < |anns| && Verdict(anns[n], env);
          if n > 0 {
            assert anns[1..][n - 1] == anns[n];
          }
        }
      } else {
        assert Verdict(anns[0], env);
      }
    }
  }

  /** The cache-free meaning of a record: it has an `ANN` field and some annotation in it is deleterious. */
  predicate Wanted(rec: Record, env: Env) {
    && rec.ann.Some?
    && exists n :: 0 <= n < |rec.ann.value| && Verdict(rec.ann.value[n], env)
  }

  /** The records that should be written, in input order. */
  function Select(records: seq<Record>, env: Env): (out: seq<Record>)
    ensures forall n :: 0 <= n < |out| ==> out[n] in records && Wanted(out[n], env)
    ensures forall n :: 0 <= n < |records| && Wanted(records[n], env) ==> records[n] in out
    decreases |records|
  {
    if |records| == 0 then []
    else if Wanted(records[0], env) then [records[0]] + Select(records[1..], env)
    else Select(records[1..], env)
  }

  predicate Readable(rec: Record) {
    rec.ann.Some? ==> ScanSafe(rec.ann.value)
  }

  /** The records written so far and the cache slot carried to the next record. */
  datatype Run = Run(kept: seq<Record>, slot: Slot)

  /**
   * The record loop: a record without `ANN` is passed over, any other is written iff its
   * scan sets the keep flag. With a coherent cache the output is exactly `Select`.
   */
  function FilterRecords(records: seq<Record>, slot: Slot, env: Env): (r: Run)
    requires forall n :: 0 <= n < |records| ==> Readable(records[n])
    ensures forall n :: 0 <= n < |r.kept| ==> r.kept[n] in records && r.kept[n].ann.Some?
    ensures Coherent(slot, env.load) ==> r.kept == Select(records, env) && Coherent(r.slot, env.load)
    decreases |records|
  {
    if |records| == 0 then Run([], slot)
    else
      var rec := records[0];
      assert Readable(rec);
      assert forall n :: 0 < n < |records| ==> records[n] == records[1..][n - 1];
      match rec.ann
      case None => FilterRecords(records[1..], slot, env)
      case Some(anns) =>
        var scan := ScanAnnotations(anns, slot, false, env);
        ScanMeaning(anns, slot, false, env);
        var rest := FilterRecords(records[1..], scan.slot, env);
        Run(if scan.keep then [rec] + rest.kept else rest.kept, rest.slot)
  }

  /** The loader for the chosen method: the table stored for (method, directory, gene). */
  function Loader(storage: (Method, string, string) -> Option<Table>, setting: Setting): string -> Option<Table> {
    gene => storage(setting.scoring, setting.dir, gene)
  }

  /**
   * The whole script: a usage error when not exactly one directory is given, before any
   * record is read; otherwise the records selected under the chosen method, starting
   * from an empty cache.
   */
  function FilterVcf(sift: Option<string>, unet: Option<string>, records: seq<Record>,
                     storage: (Method, string, string) -> Option<Table>, letter: string -> char): (r: Result<seq<Record>, UsageError>)
    requires SelectMethod(sift, unet).Ok? ==> forall n :: 0 <= n < |records| ==> Readable(records[n])
    ensures r.Err? <==> sift.Some? == unet.Some?
    ensures r.Err? ==> r == Err(SelectMethod(sift, unet).error)
    ensures r.Ok? ==> var setting := SelectMethod(sift, unet).value;
      r.value == Select(records, Env(setting.scoring, Loader(storage, setting), letter))
  {
    match SelectMethod(sift, unet)
    case Err(e) => Err(e)
    case Ok(setting) =>
      var env := Env(setting.scoring, Loader(storage, setting), letter);
      Ok(FilterRecords(records, Empty, env).kept)
  }

  /** A record with no `ANN` field is never written, whatever the cache holds. */
  lemma UnannotatedDropped(rec: Record, records: seq<Record>, slot: Slot, env: Env)
    requires rec.ann.None?
    requires forall n :: 0 <= n < |records| ==> Readable(records[n])
    ensures rec !in FilterRecords(records, slot, env).kept
  {
  }

  /** A record whose first annotation is high-impact is kept after examining only that annotation. */
  lemma HighImpactStopsScan(anns: seq<string>, slot: Slot, env: Env)
    requires |anns| > 0 && Indexable(anns[0]) && IsHighImpact(anns[0])
    ensures ScanSafe(anns)
    ensures var r := ScanAnnotations(anns, slot, false, env);
      r.keep && r.visited == 1 && r.slot == slot
  {
  }
}
