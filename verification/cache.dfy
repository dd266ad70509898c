/**
 * The single-slot table cache. The method is fixed for the run, so the slot is keyed by
 * gene alone; `load` stands for reading the gene's table file, `None` for a missing file.
 */
module Cache {
  import opened Options
  import opened Scoring

  /** Nothing loaded yet, or one gene with its table. */
  datatype Slot = Empty | Holding(gene: string, table: Table)

  /** A fetch's outcome: the new slot, the table to use (`None`: skip), and whether a load was attempted. */
  datatype Fetched = Fetched(slot: Slot, table: Option<Table>, loaded: bool)

  /** The slot holds the table for `gene`. */
  predicate Hit(slot: Slot, gene: string) {
    slot.Holding? && slot.gene == gene
  }

  /**
   * Use the held table when the slot holds `gene`; otherwise load it, replacing the slot
   * on success and leaving the slot as it was when the file is missing.
   */
  function Fetch(slot: Slot, gene: string, load: string -> Option<Table>): (f: Fetched)
    ensures f.loaded <==> !Hit(slot, gene)
    ensures Hit(slot, gene) ==> f.slot == slot && f.table == Some(slot.table)
    ensures !Hit(slot, gene) && load(gene).Some? ==> f.slot == Holding(gene, load(gene).value) && f.table == load(gene)
    ensures !Hit(slot, gene) && load(gene).None? ==> f.slot == slot && f.table == None
  {
    if Hit(slot, gene) then Fetched(slot, Some(slot.table), false)
    else
      match load(gene)
      case Some(m) => Fetched(Holding(gene, m), Some(m), true)
      case None => Fetched(slot, None, true)
  }

  /** Whatever the slot holds is what loading that gene yields: the cache is never stale. */
  predicate Coherent(slot: Slot, load: string -> Option<Table>) {
    slot.Holding? ==> load(slot.gene) == Some(slot.table)
  }

  /** A coherent slot gives the same table as loading afresh, and stays coherent. */
  lemma FetchTransparent(slot: Slot, gene: string, load: string -> Option<Table>)
    ensures Coherent(slot, load) ==> Fetch(slot, gene, load).table == load(gene)
    ensures Coherent(slot, load) ==> Coherent(Fetch(slot, gene, load).slot, load)
  {
  }

  /**
   * Two fetches of the same gene load once when the file exists; when it is missing, the
   * second fetch tries to load again.
   */
  lemma FetchTwice(slot: Slot, gene: string, load: string -> Option<Table>)
    ensures var f := Fetch(slot, gene, load);
      var g := Fetch(f.slot, gene, load);
      && (load(gene).Some? ==> !g.loaded && g.table == f.table)
      && (load(gene).None? && !Hit(slot, gene) ==> f.loaded && g.loaded && g.table == None)
  {
  }

  /** Fetching a different gene evicts the held table when the new file exists. */
  lemma FetchEvicts(slot: Slot, gene: string, load: string -> Option<Table>)
    requires slot.Holding? && slot.gene != gene
    ensures Fetch(slot, gene, load).loaded
    ensures load(gene).Some? ==> Fetch(slot, gene, load).slot == Holding(gene, load(gene).value)
    ensures load(gene).None? ==> Fetch(slot, gene, load).slot == slot
  {
  }
}
