/** The scenarios of the repository's test suite, as consequences of the general lemmas:
    the hubs are ten with distinct, non-empty names and no extra shards, the entries are
    fresh, pairwise different names, and every `shard` call is one ShardStep. The tests
    count the buckets a second pass returns; SecondPassTally makes that tally the
    assignment count, as the `Tallied` lemmas spell out. */
module SharderTests {
  import opened Wrappers
  import opened Table
  import opened Seeding
  import opened Sharding
  import opened Loads
  import opened Balance
  import opened Recount

  /** test_single_shard: with the one hub `hub-1`, `shard("user")` on a fresh table
      answers `hub-1` and records that assignment. */
  lemma SingleShard(kind: string, r: Result<string, Error>, rows': seq<Row>)
    requires ShardStep(Seed([], kind, [Hub("hub-1", None)]).rows, kind, [Hub("hub-1", None)], "user", r, rows')
    ensures r == Ok("hub-1")
    ensures rows' == [Placeholder(kind, "hub-1"), Row(kind, "hub-1", "user")]
  {
    var hubs := [Hub("hub-1", None)];
    SeedEmpty(kind, hubs);
    var rows := Placeholders(kind, hubs);
    assert rows == [Placeholder(kind, "hub-1")];
    assert Find(rows, kind, "user").None? by {
      assert DummyName("hub-1") != "user";
    }
    PlaceholderLoads(kind, hubs);
    var loads := EffectiveCounts(rows, kind, hubs).value;
    assert loads.Keys == {"hub-1"} by {
      assert (set i | 0 <= i < |hubs| :: hubs[i].name) == {"hub-1"};
    }
  }

  /** Ten hubs that the test suite builds: distinct, non-empty names, no extra shards. */
  ghost predicate TenHubs(hubs: seq<Hub>) {
    && |hubs| == 10 && DistinctNames(hubs)
    && forall i :: 0 <= i < |hubs| ==> hubs[i].name != "" && ExtraOf(hubs[i]) == 0
  }

  /** The tests' first pass: `n` fresh entries sharded over ten hubs from the freshly
      seeded table. */
  ghost predicate FirstRun(kind: string, hubs: seq<Hub>, names: seq<string>, states: seq<seq<Row>>,
                           results: seq<Result<string, Error>>, n: nat) {
    && TenHubs(hubs) && |names| == n
    && Trace(kind, hubs, names, states, results) && states[0] == Seed([], kind, hubs).rows
    && Fresh(states[0], kind, names)
  }

  /** test_multiple_equal_shards: 100 entries over ten hubs give every hub 10. */
  lemma EqualShards(kind: string, hubs: seq<Hub>, names: seq<string>, states: seq<seq<Row>>,
                    results: seq<Result<string, Error>>)
    requires TenHubs(hubs) && |names| == 100
    requires Trace(kind, hubs, names, states, results) && states[0] == Seed([], kind, hubs).rows
    requires Fresh(states[0], kind, names)
    ensures var size := Assignments(states[100], kind, Names(hubs));
            forall b :: b in size ==> size[b] == 10
  {
    UniformSplit(kind, hubs, names, states, results);
    var keys := Names(hubs);
    var size := Assignments(states[100], kind, keys);
    NumAtNone(keys, size, 11);
  }

  /** test_multiple_unequal_shards: 99 entries over ten hubs give nine hubs 10 and one 9. */
  lemma UnequalShards(kind: string, hubs: seq<Hub>, names: seq<string>, states: seq<seq<Row>>,
                      results: seq<Result<string, Error>>)
    requires TenHubs(hubs) && |names| == 99
    requires Trace(kind, hubs, names, states, results) && states[0] == Seed([], kind, hubs).rows
    requires Fresh(states[0], kind, names)
    ensures var size := Assignments(states[99], kind, Names(hubs));
            && (forall b :: b in size ==> size[b] == 9 || size[b] == 10)
            && NumAt(Names(hubs), size, 10) == 9
  {
    UniformSplit(kind, hubs, names, states, results);
  }

  /** The test's dict after its count: one key per hub, summing to `n`, holding `first`
      for hub 0 and `other` for every other hub. */
  ghost predicate TallyIs(picks: seq<string>, hubs: seq<Hub>, n: int, first: int, other: int) {
    var tally := TallyMap(picks);
    && (forall b :: b in tally <==> b in Names(hubs))
    && |tally| == |hubs| && Total(Names(hubs), tally) == n
    && forall i :: 0 <= i < |hubs| ==> hubs[i].name in tally && tally[hubs[i].name] == if i == 0 then first else other
  }

  lemma TenNames(hubs: seq<Hub>)
    requires TenHubs(hubs)
    ensures Distinct(Names(hubs)) && |Names(hubs)| == 10
    ensures forall i :: 0 <= i < |hubs| ==> hubs[i].name in Names(hubs)
  {
    forall i | 0 <= i < |hubs| ensures hubs[i].name in Names(hubs) {
      assert Names(hubs)[i] == hubs[i].name;
    }
  }

  /** test_multiple_equal_shards as the test counts: the second pass over the 100 entries
      returns ten buckets, the hubs, 100 times in all and each hub 10 times. */
  lemma EqualShardsTallied(kind: string, hubs: seq<Hub>, names: seq<string>, states: seq<seq<Row>>,
                           results: seq<Result<string, Error>>, states2: seq<seq<Row>>,
                           results2: seq<Result<string, Error>>)
    requires TenHubs(hubs) && |names| == 100
    requires Trace(kind, hubs, names, states, results) && states[0] == Seed([], kind, hubs).rows
    requires Fresh(states[0], kind, names)
    requires Trace(kind, hubs, names, states2, results2) && states2[0] == states[100]
    ensures TallyIs(PickSeq(results2), hubs, 100, 10, 10)
  {
    EqualShards(kind, hubs, names, states, results);
    SecondPassTally(kind, hubs, names, states, results, hubs, states2, results2);
    TenNames(hubs);
    TallyOver(PickSeq(results2), Names(hubs));
  }

  /** test_multiple_unequal_shards as the test counts: the second pass over the 99
      entries returns ten buckets, the hubs, 99 times in all, each hub 9 or 10 times and
      nine hubs 10 times. */
  lemma UnequalShardsTallied(kind: string, hubs: seq<Hub>, names: seq<string>, states: seq<seq<Row>>,
                             results: seq<Result<string, Error>>, states2: seq<seq<Row>>,
                             results2: seq<Result<string, Error>>)
    requires TenHubs(hubs) && |names| == 99
    requires Trace(kind, hubs, names, states, results) && states[0] == Seed([], kind, hubs).rows
    requires Fresh(states[0], kind, names)
    requires Trace(kind, hubs, names, states2, results2) && states2[0] == states[99]
    ensures var tally := TallyMap(PickSeq(results2));
            && (forall b :: b in tally <==> b in Names(hubs))
            && |tally| == 10 && Total(Names(hubs), tally) == 99
            && (forall b :: b in tally ==> tally[b] == 9 || tally[b] == 10)
            && NumAt(Names(hubs), tally, 10) == 9
  {
    UnequalShards(kind, hubs, names, states, results);
    SecondPassTally(kind, hubs, names, states, results, hubs, states2, results2);
    TenNames(hubs);
    TallyOver(PickSeq(results2), Names(hubs));
    var tally, size := TallyMap(PickSeq(results2)), Assignments(states[99], kind, Names(hubs));
    TotalAgree(Names(hubs), tally, size);
  }

  /** test_shard_with_offset: after 100 entries, hub 0 gets two extra shards; the next 18
      entries leave it at 10 and bring every other hub to 12, and 10 more make that 11
      and 13. */
  lemma ShardsWithOffset(kind: string, hubs: seq<Hub>, names: seq<string>, states: seq<seq<Row>>,
                         results: seq<Result<string, Error>>, hubs': seq<Hub>, names': seq<string>,
                         states': seq<seq<Row>>, results': seq<Result<string, Error>>)
    requires TenHubs(hubs) && |names| == 100
    requires Trace(kind, hubs, names, states, results) && states[0] == Seed([], kind, hubs).rows
    requires Fresh(states[0], kind, names)
    requires hubs' == hubs[0 := Hub(hubs[0].name, Some(2))]
    requires Trace(kind, hubs', names', states', results') && states'[0] == states[100]
    requires Fresh(states'[0], kind, names') && |names'| == 28
    ensures OffsetShares(states'[18], kind, hubs, 0, 10, 2)
    ensures OffsetShares(states'[28], kind, hubs, 0, 11, 2)
  {
    ShardWithOffset(kind, hubs, names, states, results, 0, 2, hubs', names', states', results', 18);
  }
  /** The test's count after the offset runs: the tally of the second pass joined with
      that of a fresh run is the assignment count the run leaves. */
  lemma OffsetTallyAt(kind: string, hubs: seq<Hub>, mid: seq<Row>, end: seq<Row>,
                      p: seq<string>, q: seq<string>, a: int, d: int)
    requires TenHubs(hubs) && a > 0 && d >= 0
    requires forall i :: 0 <= i < |p| ==> p[i] in Names(hubs)
    requires forall i :: 0 <= i < |q| ==> q[i] in Names(hubs)
    requires forall b :: b in Names(hubs) ==> Tally(p, b) == Assignments(mid, kind, Names(hubs))[b]
    requires forall b :: Count(end, kind, b) == Count(mid, kind, b) + Tally(q, b)
    requires OffsetShares(end, kind, hubs, 0, a, d)
    ensures TallyIs(p + q, hubs, |p| + |q|, a, a + d)
  {
    TenNames(hubs);
    var keys, size := Names(hubs), Assignments(end, kind, Names(hubs));
    forall b | b in keys ensures Tally(p + q, b) == size[b] {
      TallyConcat(p, q, b);
    }
    forall b | b in keys ensures Tally(p + q, b) > 0 {
      var i :| 0 <= i < |keys| && keys[i] == b;
      assert hubs[i].name == b;
    }
    forall i | 0 <= i < |p + q| ensures (p + q)[i] in keys {
      if i >= |p| {
        assert (p + q)[i] == q[i - |p|];
      }
    }
    TallyOver(p + q, keys);
  }

  /** test_shard_with_offset as the test counts: a second pass over the first 100
      entries, then hub 0 given two extra shards; with the next 18 entries the tally has
      the ten hubs, 118 in all, 10 for hub 0 and 12 for the others, and with 10 more,
      128 in all, 11 and 13. */
  lemma ShardsWithOffsetTallied(kind: string, hubs: seq<Hub>, names: seq<string>, states: seq<seq<Row>>,
                                results: seq<Result<string, Error>>, states2: seq<seq<Row>>,
                                results2: seq<Result<string, Error>>, hubs': seq<Hub>, names': seq<string>,
                                states': seq<seq<Row>>, results': seq<Result<string, Error>>)
    requires FirstRun(kind, hubs, names, states, results, 100)
    requires Trace(kind, hubs, names, states2, results2) && states2[0] == states[100]
    requires hubs' == hubs[0 := Hub(hubs[0].name, Some(2))]
    requires Trace(kind, hubs', names', states', results') && states'[0] == states2[100]
    requires Fresh(states'[0], kind, names') && |names'| == 28
    ensures TallyIs(PickSeq(results2) + PickSeq(results')[..18], hubs, 118, 10, 12)
    ensures TallyIs(PickSeq(results2) + PickSeq(results'), hubs, 128, 11, 13)
  {
    TenSecondPass(kind, hubs, names, states, results, states2, results2, 100);
    var p, q := PickSeq(results2), PickSeq(results');
    OffsetRun(kind, hubs, names, states, results, p, hubs', names', states', results', 18, 10);
    OffsetRun(kind, hubs, names, states, results, p, hubs', names', states', results', 28, 11);
    PrefixAll(q, 28);
  }

  /** A prefix as long as the sequence is the sequence. */
  lemma PrefixAll(q: seq<string>, k: nat)
    requires k == |q|
    ensures q[..k] == q
  {
  }

  /** The tests' second pass, under the same hubs, after a first pass of `n` entries. */
  lemma TenSecondPass(kind: string, hubs: seq<Hub>, names: seq<string>, states: seq<seq<Row>>,
                      results: seq<Result<string, Error>>, states2: seq<seq<Row>>,
                      results2: seq<Result<string, Error>>, n: nat)
    requires FirstRun(kind, hubs, names, states, results, n)
    requires Trace(kind, hubs, names, states2, results2) && states2[0] == states[n]
    ensures states2[n] == states[n] && |PickSeq(results2)| == n
    ensures forall i :: 0 <= i < n ==> PickSeq(results2)[i] in Names(hubs)
    ensures forall b :: b in Names(hubs) ==> Tally(PickSeq(results2), b) == Assignments(states[n], kind, Names(hubs))[b]
  {
    SecondPassTally(kind, hubs, names, states, results, hubs, states2, results2);
  }

  /** The offset test's state after its second pass returned `p`, the assignment counts
      per hub: hub 0 is given two extra shards and 28 fresh entries follow. */
  ghost predicate OffsetSetup(kind: string, hubs: seq<Hub>, names: seq<string>, states: seq<seq<Row>>,
                              results: seq<Result<string, Error>>, p: seq<string>, hubs': seq<Hub>,
                              names': seq<string>, states': seq<seq<Row>>, results': seq<Result<string, Error>>) {
    && FirstRun(kind, hubs, names, states, results, 100)
    && |p| == 100 && (forall i :: 0 <= i < |p| ==> p[i] in Names(hubs))
    && (forall b :: b in Names(hubs) ==> Tally(p, b) == Assignments(states[100], kind, Names(hubs))[b])
    && hubs' == hubs[0 := Hub(hubs[0].name, Some(2))]
    && Trace(kind, hubs', names', states', results') && states'[0] == states[100]
    && Fresh(states'[0], kind, names') && |names'| == 28
  }

  /** From there, `k` more entries leave hub 0 at `a` and the others at `a + 2`. */
  lemma OffsetRun(kind: string, hubs: seq<Hub>, names: seq<string>, states: seq<seq<Row>>,
                  results: seq<Result<string, Error>>, p: seq<string>, hubs': seq<Hub>, names': seq<string>,
                  states': seq<seq<Row>>, results': seq<Result<string, Error>>, k: nat, a: int)
    requires OffsetSetup(kind, hubs, names, states, results, p, hubs', names', states', results')
    requires (k == 18 && a == 10) || (k == 28 && a == 11)
    ensures TallyIs(p + PickSeq(results')[..k], hubs, 100 + k, a, a + 2)
  {
    ShardsWithOffset(kind, hubs, names, states, results, hubs', names', states', results');
    var start := OffsetStart(kind, hubs, names, states, results, hubs');
    OffsetStage(kind, hubs, states[100], p, hubs', names', states', results', start, k, a);
  }

  /** The loads the offset runs start from: the even loads of the first run, with hub 0
      two higher. */
  lemma OffsetStart(kind: string, hubs: seq<Hub>, names: seq<string>, states: seq<seq<Row>>,
                    results: seq<Result<string, Error>>, hubs': seq<Hub>) returns (start: map<string, int>)
    requires TenHubs(hubs) && |names| == 100
    requires Trace(kind, hubs, names, states, results) && states[0] == Seed([], kind, hubs).rows
    requires Fresh(states[0], kind, names)
    requires hubs' == hubs[0 := Hub(hubs[0].name, Some(2))]
    ensures Names(hubs') == Names(hubs)
    ensures EffectiveCounts(states[100], kind, hubs') == Ok(start) && Lists(Names(hubs'), start)
    ensures start != map[] && "" !in start
  {
    var loads := EvenLoads(kind, hubs, names, states, results);
    start := Reconfigured(states[100], kind, hubs, 0, 2, hubs', loads, 11);
    assert Names(hubs')[0] in start;
  }

  /** The first `k` offset entries, counted after the second pass, give the assignment
      counts `a` and `a + 2` that they leave. */
  lemma OffsetStage(kind: string, hubs: seq<Hub>, mid: seq<Row>, p: seq<string>, hubs': seq<Hub>,
                    names': seq<string>, states': seq<seq<Row>>, results': seq<Result<string, Error>>,
                    start: map<string, int>, k: nat, a: int)
    requires TenHubs(hubs) && Names(hubs') == Names(hubs) && a > 0
    requires Trace(kind, hubs', names', states', results') && Fresh(states'[0], kind, names') && states'[0] == mid
    requires EffectiveCounts(mid, kind, hubs') == Ok(start) && Lists(Names(hubs'), start)
    requires start != map[] && "" !in start && k <= |names'|
    requires forall i :: 0 <= i < |p| ==> p[i] in Names(hubs)
    requires forall b :: b in Names(hubs) ==> Tally(p, b) == Assignments(mid, kind, Names(hubs))[b]
    requires OffsetShares(states'[k], kind, hubs, 0, a, 2)
    ensures TallyIs(p + PickSeq(results')[..k], hubs, |p| + k, a, a + 2)
  {
    OffsetCounts(kind, hubs, hubs', names', states', results', start, k);
    OffsetTallyAt(kind, hubs, mid, states'[k], p, PickSeq(results')[..k], a, 2);
  }

  /** The first `k` offset entries go to hubs and raise their counts by their tally. */
  lemma OffsetCounts(kind: string, hubs: seq<Hub>, hubs': seq<Hub>, names': seq<string>, states': seq<seq<Row>>,
                     results': seq<Result<string, Error>>, start: map<string, int>, k: nat)
    requires Names(hubs') == Names(hubs)
    requires Trace(kind, hubs', names', states', results') && Fresh(states'[0], kind, names')
    requires EffectiveCounts(states'[0], kind, hubs') == Ok(start) && Lists(Names(hubs'), start)
    requires start != map[] && "" !in start && k <= |names'|
    ensures var q := PickSeq(results')[..k];
            && (forall i :: 0 <= i < |q| ==> q[i] in Names(hubs))
            && forall b :: Count(states'[k], kind, b) == Count(states'[0], kind, b) + Tally(q, b)
  {
    RunTally(kind, hubs', names', states', results', start, k);
  }
}
