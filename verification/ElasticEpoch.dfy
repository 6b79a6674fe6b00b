/** A whole insert-only epoch of an Elastic table, and the occupancy its batches leave. */
module ElasticEpoch {
  import opened Arith
  import opened Wrappers
  import opened Store
  import opened ElasticPlan
  import opened ElasticBatches
  import opened ElasticGeometry
  import opened ElasticState
  import opened ElasticTable

  /** Inserts entries into an empty table. If every one lands as a new key through its active target,
      `landed`, the table's occupancies form a run of the batch plan, the last of them in the shape of a
      batch, and the table stands for the entries. */
  method InsertEpoch<K(==), V>(env: Env<K>, d: nat, g: Geometry, entries: seq<(K, V)>, hashes: nat)
      returns (table: Table<K, V>, ghost landed: bool, ghost run: seq<Occupancy>)
    requires SoundEnv(env) && 1 <= d < U32_LIMIT && IsGeometry(g, d) && g.slots >= 2
    ensures table.Valid() && fresh(table.Repr()) && QuotasDefined(None, g.caps, d)
    ensures landed ==> table.geometry == g && table.d == d && table.M() == Bound(entries)
    ensures landed ==> |run| == |entries| + 1 && InsertRun(EpochPlan(g.caps, d, g.maxInsertions), run)
    ensures landed ==> run[|entries|] == table.Occ() && table.InSomeBatch()
  {
    hide IsGeometry, Table.Valid, Table.Sound, Table.M, Lands, InBatch, QuotasDefined, SoundEnv, Table.LandedAt,
         Table.StuckActive, Table.TightFilter, Table.Recording, Table.Carried, Table.StoredTwice, Put, Findable,
         Table.Inserts;
    table := new Table.FromGeometry(env, d, g);
    table.PlanValid();
    landed, run := true, [Occupancy(seq(|g.caps|, _ => 0), 0)];
    ghost var plan := EpochPlan(g.caps, d, g.maxInsertions);
    for n := 0 to |entries|
      invariant table.Valid() && fresh(table) && fresh(table.Repr()) && QuotasDefined(None, g.caps, d)
      invariant landed ==> table.geometry == g && table.d == d && table.M() == Bound(entries[..n])
      invariant landed ==> |run| == n + 1 && InsertRun(plan, run) && run[n] == table.Occ()
    {
      assert entries[..n + 1][..n] == entries[..n];
      var r;
      ghost var level, grown, mid, seat;
      r, level, grown, mid, seat := table.Insert(entries[n].0, entries[n].1, hashes);
      landed := landed && level.Some?;
      run := run + [table.Occ()];
    }
    assert entries[..|entries|] == entries;
    if landed {
      table.PlanValid();
      var batch := RunKeepsBatches(plan, run);
    }
  }
}
