/** Properties of one `shard` call (the ShardStep relation that `Sharder.Shard` is
    proved to satisfy): stability of existing assignments, a single append on a miss,
    idempotence, and uniqueness of (kind, name). */
module Assignment {
  import opened Wrappers
  import opened Table
  import opened Seeding
  import opened Sharding

  /** With at most one row per (kind, name), an existing row decides the answer whatever
      the hubs' configuration: its bucket is returned and the table is unchanged. */
  lemma ShardReturnsExisting(rows: seq<Row>, kind: string, hubs: seq<Hub>, name: string,
                             r: Result<string, Error>, rows': seq<Row>, i: nat)
    requires Unique(rows) && i < |rows| && Keyed(rows[i], kind, name)
    requires ShardStep(rows, kind, hubs, name, r, rows')
    ensures r == Ok(rows[i].bucket) && rows' == rows
  {
  }

  /** A call only ever appends, and it appends exactly the row (kind, b, name) when the
      name was unassigned and bucket b (not empty) was returned. */
  lemma ShardAppendsAtMostOne(rows: seq<Row>, kind: string, hubs: seq<Hub>, name: string,
                              r: Result<string, Error>, rows': seq<Row>)
    requires ShardStep(rows, kind, hubs, name, r, rows')
    ensures rows' == rows ||
            (Find(rows, kind, name).None? && r.Ok? && r.value != "" && rows' == rows + [Row(kind, r.value, name)])
    ensures rows' != rows <==> Find(rows, kind, name).None? && r.Ok? && r.value != ""
  {
  }

  /** On a miss that succeeds, the chosen bucket is least loaded and its effective count
      goes up by exactly one; every other bucket's stays. */
  lemma ShardMissLoads(rows: seq<Row>, kind: string, hubs: seq<Hub>, name: string,
                       r: Result<string, Error>, rows': seq<Row>)
    requires ShardStep(rows, kind, hubs, name, r, rows')
    requires Find(rows, kind, name).None? && r.Ok? && r.value != ""
    ensures EffectiveCounts(rows, kind, hubs).Ok?
    ensures var loads := EffectiveCounts(rows, kind, hubs).value;
            LeastLoaded(loads, rows, kind, r.value) &&
            EffectiveCounts(rows', kind, hubs) == Ok(loads[r.value := loads[r.value] + 1])
  {
    EffectiveAppend(rows, kind, hubs, r.value, name);
  }

  /** Calling `shard(name)` a second time returns the same bucket and changes nothing:
      when the first call found a row (its bucket may even be empty), after any
      successful first call with a non-empty bucket (the hubs may have been reconfigured
      in between), and after a failed one when the hubs are the same. */
  lemma ShardIdempotent(rows: seq<Row>, kind: string, hubs: seq<Hub>, hubs': seq<Hub>, name: string,
                        r1: Result<string, Error>, rows1: seq<Row>,
                        r2: Result<string, Error>, rows2: seq<Row>)
    requires ShardStep(rows, kind, hubs, name, r1, rows1)
    requires ShardStep(rows1, kind, hubs', name, r2, rows2)
    requires Find(rows, kind, name).Some? || (r1.Ok? && r1.value != "") || (r1.Err? && hubs' == hubs)
    ensures r2 == r1 && rows2 == rows1
  {
    FindAppend(rows, Row(kind, if r1.Ok? then r1.value else "", name), kind, name);
  }

  /** `shard` keeps the table free of two rows with the same (kind, name): the lookup
      before the insert guarantees it without help from any database constraint. */
  lemma ShardPreservesUnique(rows: seq<Row>, kind: string, hubs: seq<Hub>, name: string,
                             r: Result<string, Error>, rows': seq<Row>)
    requires Unique(rows)
    requires ShardStep(rows, kind, hubs, name, r, rows')
    ensures Unique(rows')
  {
    if rows' != rows {
      forall i, j | 0 <= i < j < |rows'| ensures !Keyed(rows'[j], rows'[i].kind, rows'[i].name) {
        if j == |rows| {
          assert !Keyed(rows[i], kind, name);
        }
      }
    }
  }

  /** Because the placeholder check ignores the kind, a sharder of another kind opened
      on a table seeded for `kind` finds every placeholder present and adds none; it
      then sees no bucket at all, and its first `shard` fails with ValueError. */
  lemma OtherKindStarves(kind: string, other: string, hubs: seq<Hub>, name: string,
                         r: Result<string, Error>, rows': seq<Row>)
    requires kind != other && DistinctNames(hubs)
    requires ShardStep(Seed([], kind, hubs).rows, other, hubs, name, r, rows')
    ensures var rows := Seed([], kind, hubs).rows;
            Seed(rows, other, hubs) == Seeded(rows, false) && r == Err(NoBuckets) && rows' == rows
  {
    SeedEmpty(kind, hubs);
    SeedIdempotent([], kind, other, hubs);
    var rows := Placeholders(kind, hubs);
    assert Buckets(rows, other) == {};
    assert Find(rows, other, name).None? by {
      forall j | 0 <= j < |rows| ensures !Keyed(rows[j], other, name) {
        assert rows[j].kind == kind;
      }
    }
  }
}
