/** How `shard` spreads a run of new names over the hubs. A run is a trace of ShardStep
    calls; on names that are not assigned yet, each call is a greedy pick in the sense of
    the Loads module, so the balance facts proved there carry over. The lemmas at the end
    restate the source's balancing tests in general and for their concrete sizes. */
module Balance {
  import opened Wrappers
  import opened Table
  import opened Seeding
  import opened Sharding
  import opened Loads

  /** Call number `i` of a trace: sharding `names[i]` takes `states[i]` to `states[i + 1]`
      and returns `results[i]`. */
  ghost predicate StepAt(kind: string, hubs: seq<Hub>, names: seq<string>,
                         states: seq<seq<Row>>, results: seq<Result<string, Error>>, i: nat)
    requires i < |names| && |states| == |names| + 1 && |results| == |names|
  {
    ShardStep(states[i], kind, hubs, names[i], results[i], states[i + 1])
  }

  /** `names` are sharded one after another, taking `states[i]` to `states[i + 1]`. */
  ghost predicate Trace(kind: string, hubs: seq<Hub>, names: seq<string>,
                        states: seq<seq<Row>>, results: seq<Result<string, Error>>) {
    && |states| == |names| + 1 && |results| == |names|
    && forall i: nat :: i < |names| ==> StepAt(kind, hubs, names, states, results, i)
  }

  /** The names are pairwise different and none of them is assigned yet. */
  ghost predicate Fresh(rows: seq<Row>, kind: string, names: seq<string>) {
    && Distinct(names)
    && forall j :: 0 <= j < |names| ==> Find(rows, kind, names[j]).None?
  }

  /** Call i of a trace is on a name that is not assigned yet. */
  ghost predicate FreshAt(kind: string, names: seq<string>, states: seq<seq<Row>>, i: nat)
    requires i < |names| && i < |states|
  {
    Find(states[i], kind, names[i]).None?
  }

  /** The effective counts after each call of a trace (empty where a query would fail). */
  ghost function LoadSeq(kind: string, hubs: seq<Hub>, states: seq<seq<Row>>): seq<map<string, int>> {
    seq(|states|, i requires 0 <= i < |states| =>
      match EffectiveCounts(states[i], kind, hubs) case Ok(loads) => loads case Err(_) => map[])
  }

  /** The bucket each call of a trace returned (empty where it failed). */
  function PickSeq(results: seq<Result<string, Error>>): seq<string> {
    seq(|results|, i requires 0 <= i < |results| => match results[i] case Ok(b) => b case Err(_) => "")
  }

  /** Assignments per hub: the rows of `kind` in each bucket, less its placeholder. */
  ghost function Assignments(rows: seq<Row>, kind: string, keys: seq<string>): (m: map<string, int>)
    ensures forall b :: b in m <==> b in keys
    ensures forall b :: b in m ==> m[b] == Count(rows, kind, b) - 1
  {
    map b | b in keys :: Count(rows, kind, b) - 1
  }

  /** One call on an unassigned name while every load is known: the name goes to a
      least-loaded bucket and one row records it. */
  lemma FreshStep(rows: seq<Row>, kind: string, hubs: seq<Hub>, name: string,
                  r: Result<string, Error>, rows': seq<Row>, loads: map<string, int>)
    requires ShardStep(rows, kind, hubs, name, r, rows')
    requires Find(rows, kind, name).None? && EffectiveCounts(rows, kind, hubs) == Ok(loads)
    requires loads != map[] && "" !in loads
    ensures r.Ok? && r.value in loads && forall c :: c in loads ==> loads[r.value] <= loads[c]
    ensures rows' == rows + [Row(kind, r.value, name)]
  {
    assert r.Ok? && LeastLoaded(loads, rows, kind, r.value) by {
      assert loads != map[];
    }
  }

  /** A call on one name leaves every other unassigned name unassigned. */
  lemma StepKeepsOthers(kind: string, hubs: seq<Hub>, names: seq<string>, states: seq<seq<Row>>,
                        results: seq<Result<string, Error>>, i: nat, other: string)
    requires Trace(kind, hubs, names, states, results) && i < |names|
    requires other != names[i] && Find(states[i], kind, other).None?
    ensures Find(states[i + 1], kind, other).None?
  {
    assert StepAt(kind, hubs, names, states, results, i);
    var row := Row(kind, if results[i].Ok? then results[i].value else "", names[i]);
    FindAppend(states[i], row, kind, other);
  }

  /** Along a trace of pairwise different names that start out unassigned, each name is
      still unassigned when its turn comes. */
  lemma {:induction false} TraceFresh(kind: string, hubs: seq<Hub>, names: seq<string>, states: seq<seq<Row>>,
                                      results: seq<Result<string, Error>>, k: nat)
    requires Trace(kind, hubs, names, states, results) && Fresh(states[0], kind, names) && k <= |names|
    ensures forall j :: k <= j < |names| ==> Find(states[k], kind, names[j]).None?
  {
    if k > 0 {
      TraceFresh(kind, hubs, names, states, results, k - 1);
      forall j | k <= j < |names| ensures Find(states[k], kind, names[j]).None? {
        StepKeepsOthers(kind, hubs, names, states, results, k - 1, names[j]);
      }
    }
  }

  lemma TraceAllFresh(kind: string, hubs: seq<Hub>, names: seq<string>, states: seq<seq<Row>>,
                      results: seq<Result<string, Error>>)
    requires Trace(kind, hubs, names, states, results) && Fresh(states[0], kind, names)
    ensures forall i: nat :: i < |names| ==> FreshAt(kind, names, states, i)
  {
    forall i: nat | i < |names| ensures FreshAt(kind, names, states, i) {
      TraceFresh(kind, hubs, names, states, results, i);
    }
  }

  /** Call i of a trace, on an unassigned name with known loads, is a greedy pick. */
  lemma TraceStep(kind: string, hubs: seq<Hub>, names: seq<string>, states: seq<seq<Row>>,
                  results: seq<Result<string, Error>>, i: nat, loads: map<string, int>)
    returns (b: string, next: map<string, int>)
    requires Trace(kind, hubs, names, states, results) && i < |names|
    requires FreshAt(kind, names, states, i) && EffectiveCounts(states[i], kind, hubs) == Ok(loads)
    requires loads != map[] && "" !in loads
    ensures results[i] == Ok(b) && Pick(loads, b, next)
    ensures next != map[] && "" !in next
    ensures EffectiveCounts(states[i + 1], kind, hubs) == Ok(next)
  {
    assert StepAt(kind, hubs, names, states, results, i);
    FreshStep(states[i], kind, hubs, names[i], results[i], states[i + 1], loads);
    b := results[i].value;
    next := loads[b := loads[b] + 1];
    EffectiveAppend(states[i], kind, hubs, b, names[i]);
  }

  /** Along a trace of unassigned names from known loads with at least one bucket and no
      empty bucket name, every query succeeds. */
  lemma {:induction false} KeysAlong(kind: string, hubs: seq<Hub>, names: seq<string>, states: seq<seq<Row>>,
                                     results: seq<Result<string, Error>>, start: map<string, int>, k: nat)
    returns (loads: map<string, int>)
    requires Trace(kind, hubs, names, states, results)
    requires forall i: nat :: i < |names| ==> FreshAt(kind, names, states, i)
    requires EffectiveCounts(states[0], kind, hubs) == Ok(start) && start != map[] && "" !in start
    requires k <= |names|
    ensures EffectiveCounts(states[k], kind, hubs) == Ok(loads)
    ensures loads != map[] && "" !in loads
  {
    if k == 0 {
      loads := start;
    } else {
      var before := KeysAlong(kind, hubs, names, states, results, start, k - 1);
      var b;
      b, loads := TraceStep(kind, hubs, names, states, results, k - 1, before);
    }
  }

  /** Each call of such a trace is a greedy pick on the load sequence. */
  lemma PickAtTrace(kind: string, hubs: seq<Hub>, names: seq<string>, states: seq<seq<Row>>,
                    results: seq<Result<string, Error>>, start: map<string, int>, i: nat)
    requires Trace(kind, hubs, names, states, results)
    requires forall i: nat :: i < |names| ==> FreshAt(kind, names, states, i)
    requires EffectiveCounts(states[0], kind, hubs) == Ok(start) && start != map[] && "" !in start
    requires i < |names|
    ensures PickAt(LoadSeq(kind, hubs, states), PickSeq(results), i)
  {
    var loads := KeysAlong(kind, hubs, names, states, results, start, i);
    var b, next := TraceStep(kind, hubs, names, states, results, i, loads);
    LoadSeqAt(kind, hubs, states, i, loads);
    LoadSeqAt(kind, hubs, states, i + 1, next);
  }

  lemma LoadSeqAt(kind: string, hubs: seq<Hub>, states: seq<seq<Row>>, i: nat, loads: map<string, int>)
    requires i < |states| && EffectiveCounts(states[i], kind, hubs) == Ok(loads)
    ensures LoadSeq(kind, hubs, states)[i] == loads
  {
  }

  /** A trace of unassigned names from known loads with at least one bucket and no empty
      bucket name is a greedy run: every call sends its name to a least-loaded bucket. */
  lemma TraceGreedy(kind: string, hubs: seq<Hub>, names: seq<string>, states: seq<seq<Row>>,
                    results: seq<Result<string, Error>>, start: map<string, int>)
    requires Trace(kind, hubs, names, states, results) && Fresh(states[0], kind, names)
    requires EffectiveCounts(states[0], kind, hubs) == Ok(start) && start != map[] && "" !in start
    ensures Greedy(LoadSeq(kind, hubs, states), PickSeq(results))
    ensures LoadSeq(kind, hubs, states)[0] == start
    ensures EffectiveCounts(states[|names|], kind, hubs) == Ok(LoadSeq(kind, hubs, states)[|names|])
  {
    TraceAllFresh(kind, hubs, names, states, results);
    forall i: nat | i < |names| ensures PickAt(LoadSeq(kind, hubs, states), PickSeq(results), i) {
      PickAtTrace(kind, hubs, names, states, results, start, i);
    }
    var loads := KeysAlong(kind, hubs, names, states, results, start, |names|);
    LoadSeqAt(kind, hubs, states, 0, start);
    LoadSeqAt(kind, hubs, states, |names|, loads);
  }

  /** A map keyed by the names of hubs with distinct names is listed by `Names`. */
  lemma NamesList(hubs: seq<Hub>, m: map<string, int>)
    requires DistinctNames(hubs) && m.Keys == set i | 0 <= i < |hubs| :: hubs[i].name
    ensures Lists(Names(hubs), m)
  {
    var keys := Names(hubs);
    forall b ensures b in m <==> b in keys {
      if b in keys {
        var i :| 0 <= i < |keys| && keys[i] == b;
        assert hubs[i].name == b;
      }
      if b in m {
        var i :| 0 <= i < |hubs| && hubs[i].name == b;
        assert keys[i] == b;
      }
    }
  }

  /** The freshly seeded table of hubs with distinct, non-empty names: its loads are listed
      by the hub names and are all one placeholder plus that hub's extra shards. */
  lemma SeededLoads(kind: string, hubs: seq<Hub>) returns (start: map<string, int>)
    requires DistinctNames(hubs) && |hubs| > 0
    requires forall i :: 0 <= i < |hubs| ==> hubs[i].name != ""
    ensures EffectiveCounts(Seed([], kind, hubs).rows, kind, hubs) == Ok(start)
    ensures Lists(Names(hubs), start) && start != map[] && "" !in start
    ensures forall i :: 0 <= i < |hubs| ==> hubs[i].name in start && start[hubs[i].name] == 1 + ExtraOf(hubs[i])
  {
    SeedEmpty(kind, hubs);
    PlaceholderLoads(kind, hubs);
    start := EffectiveCounts(Seed([], kind, hubs).rows, kind, hubs).value;
    NamesList(hubs, start);
    assert hubs[0].name in start;
  }

  /** When every hub has the same extra shards, the seeded loads are all equal. */
  lemma SeededUniform(kind: string, hubs: seq<Hub>) returns (start: map<string, int>)
    requires DistinctNames(hubs) && |hubs| > 0
    requires forall i :: 0 <= i < |hubs| ==> hubs[i].name != "" && ExtraOf(hubs[i]) == ExtraOf(hubs[0])
    ensures EffectiveCounts(Seed([], kind, hubs).rows, kind, hubs) == Ok(start)
    ensures Lists(Names(hubs), start) && start != map[] && "" !in start
    ensures forall b :: b in start ==> start[b] == 1 + ExtraOf(hubs[0])
  {
    start := SeededLoads(kind, hubs);
    var keys := Names(hubs);
    forall b | b in start ensures start[b] == 1 + ExtraOf(hubs[0]) {
      var i :| 0 <= i < |keys| && keys[i] == b;
      assert hubs[i].name == b;
    }
  }

  /** With distinct hub names sharing `e` extra shards, the effective count of each hub is
      its assignments plus its placeholder plus `e`. */
  lemma LoadsAsAssignments(rows: seq<Row>, kind: string, hubs: seq<Hub>, loads: map<string, int>, e: int)
    requires DistinctNames(hubs)
    requires forall i :: 0 <= i < |hubs| ==> ExtraOf(hubs[i]) == e
    requires EffectiveCounts(rows, kind, hubs) == Ok(loads) && Lists(Names(hubs), loads)
    ensures var size := Assignments(rows, kind, Names(hubs));
            forall b :: b in Names(hubs) ==> b in loads && b in size && loads[b] == size[b] + 1 + e
  {
    var keys := Names(hubs);
    ExtraTableDistinct(hubs);
    forall b | b in keys ensures b in loads && loads[b] == Count(rows, kind, b) + e {
      var i :| 0 <= i < |keys| && keys[i] == b;
      assert hubs[i].name == b;
    }
  }

  /** After a greedy run from loads listed by the hub names, the final loads lie `1 + e`
      above the assignments of the table they are read from. */
  lemma FinalAssignments(ls: seq<map<string, int>>, picks: seq<string>, rows: seq<Row>, kind: string,
                         hubs: seq<Hub>, e: int)
    requires DistinctNames(hubs) && forall i :: 0 <= i < |hubs| ==> ExtraOf(hubs[i]) == e
    requires Greedy(ls, picks) && Lists(Names(hubs), ls[0])
    requires EffectiveCounts(rows, kind, hubs) == Ok(ls[|picks|])
    ensures var size := Assignments(rows, kind, Names(hubs));
            forall b :: b in Names(hubs) ==> b in ls[|picks|] && b in size && ls[|picks|][b] == size[b] + 1 + e
  {
    GreedyKeys(ls, picks, |picks|);
    LoadsAsAssignments(rows, kind, hubs, ls[|picks|], e);
  }

  /** test_multiple_equal_shards and test_multiple_unequal_shards, in general: on a freshly
      seeded table whose hubs have distinct, non-empty names and the same extra shards,
      N fresh names over B hubs give every hub N / B or N / B + 1 of them, exactly N % B
      hubs getting the larger share. */
  lemma UniformSplit(kind: string, hubs: seq<Hub>, names: seq<string>, states: seq<seq<Row>>,
                     results: seq<Result<string, Error>>)
    requires DistinctNames(hubs) && |hubs| > 0
    requires forall i :: 0 <= i < |hubs| ==> hubs[i].name != "" && ExtraOf(hubs[i]) == ExtraOf(hubs[0])
    requires Trace(kind, hubs, names, states, results) && states[0] == Seed([], kind, hubs).rows
    requires Fresh(states[0], kind, names)
    ensures var q, size := |names| / |hubs|, Assignments(states[|names|], kind, Names(hubs));
            && (forall b :: b in size ==> size[b] == q || size[b] == q + 1)
            && NumAt(Names(hubs), size, q + 1) == |names| % |hubs|
  {
    var start := SeededUniform(kind, hubs);
    UniformFrom(kind, hubs, names, states, results, start, ExtraOf(hubs[0]));
  }

  /** The even split from any known, equal starting loads `1 + e`. */
  lemma UniformFrom(kind: string, hubs: seq<Hub>, names: seq<string>, states: seq<seq<Row>>,
                    results: seq<Result<string, Error>>, start: map<string, int>, e: int)
    requires DistinctNames(hubs) && |hubs| > 0
    requires forall i :: 0 <= i < |hubs| ==> ExtraOf(hubs[i]) == e
    requires Trace(kind, hubs, names, states, results) && Fresh(states[0], kind, names)
    requires EffectiveCounts(states[0], kind, hubs) == Ok(start)
    requires Lists(Names(hubs), start) && start != map[] && "" !in start
    requires forall b :: b in start ==> start[b] == 1 + e
    ensures var q, size := |names| / |hubs|, Assignments(states[|names|], kind, Names(hubs));
            && (forall b :: b in size ==> size[b] == q || size[b] == q + 1)
            && NumAt(Names(hubs), size, q + 1) == |names| % |hubs|
  {
    var n, keys := |names|, Names(hubs);
    TraceGreedy(kind, hubs, names, states, results, start);
    var ls, picks := LoadSeq(kind, hubs, states), PickSeq(results);
    FinalAssignments(ls, picks, states[n], kind, hubs, e);
    assert |keys| == |hubs| && |picks| == n;
    EvenSplitBelow(ls, picks, keys, Assignments(states[n], kind, keys), 1 + e, n / |hubs|, n % |hubs|);
  }

  /** A run on a table whose loads are known: the loads after its call `k` are known too,
      and are the ones `LoadSeq` records. */
  lemma TraceLoadsAt(kind: string, hubs: seq<Hub>, names: seq<string>, states: seq<seq<Row>>,
                     results: seq<Result<string, Error>>, start: map<string, int>, k: nat)
    requires Trace(kind, hubs, names, states, results) && Fresh(states[0], kind, names)
    requires EffectiveCounts(states[0], kind, hubs) == Ok(start) && start != map[] && "" !in start
    requires k <= |names|
    ensures EffectiveCounts(states[k], kind, hubs) == Ok(LoadSeq(kind, hubs, states)[k])
  {
    TraceAllFresh(kind, hubs, names, states, results);
    var loads := KeysAlong(kind, hubs, names, states, results, start, k);
    LoadSeqAt(kind, hubs, states, k, loads);
  }

  /** With distinct hub names, each hub's effective count is its assignments plus its
      placeholder plus its own extra shards. */
  lemma LoadsAsAssignmentsAt(rows: seq<Row>, kind: string, hubs: seq<Hub>, loads: map<string, int>)
    requires DistinctNames(hubs)
    requires EffectiveCounts(rows, kind, hubs) == Ok(loads) && Lists(Names(hubs), loads)
    ensures var size := Assignments(rows, kind, Names(hubs));
            forall i :: 0 <= i < |hubs| ==>
              hubs[i].name in loads && hubs[i].name in size && loads[hubs[i].name] == size[hubs[i].name] + 1 + ExtraOf(hubs[i])
  {
    var keys := Names(hubs);
    ExtraTableDistinct(hubs);
    forall i | 0 <= i < |hubs| ensures hubs[i].name in keys && hubs[i].name in loads {
      assert keys[i] == hubs[i].name;
    }
  }

  /** When the hub count divides the number of fresh names sharded on a freshly seeded
      table whose hubs share `e` extra shards, every hub ends with the same load. */
  lemma EvenLoads(kind: string, hubs: seq<Hub>, names: seq<string>, states: seq<seq<Row>>,
                  results: seq<Result<string, Error>>) returns (loads: map<string, int>)
    requires DistinctNames(hubs) && |hubs| > 0
    requires forall i :: 0 <= i < |hubs| ==> hubs[i].name != "" && ExtraOf(hubs[i]) == ExtraOf(hubs[0])
    requires Trace(kind, hubs, names, states, results) && states[0] == Seed([], kind, hubs).rows
    requires Fresh(states[0], kind, names) && |names| % |hubs| == 0
    ensures EffectiveCounts(states[|names|], kind, hubs) == Ok(loads) && Lists(Names(hubs), loads)
    ensures forall b :: b in loads ==> loads[b] == 1 + ExtraOf(hubs[0]) + |names| / |hubs|
  {
    var start := SeededUniform(kind, hubs);
    loads := EvenLoadsFrom(kind, hubs, names, states, results, start, 1 + ExtraOf(hubs[0]));
  }

  lemma EvenLoadsFrom(kind: string, hubs: seq<Hub>, names: seq<string>, states: seq<seq<Row>>,
                      results: seq<Result<string, Error>>, start: map<string, int>, base: int)
    returns (loads: map<string, int>)
    requires |hubs| > 0 && |names| % |hubs| == 0
    requires Trace(kind, hubs, names, states, results) && Fresh(states[0], kind, names)
    requires EffectiveCounts(states[0], kind, hubs) == Ok(start)
    requires Lists(Names(hubs), start) && start != map[] && "" !in start
    requires forall b :: b in start ==> start[b] == base
    ensures EffectiveCounts(states[|names|], kind, hubs) == Ok(loads) && Lists(Names(hubs), loads)
    ensures forall b :: b in loads ==> loads[b] == base + |names| / |hubs|
  {
    var n, keys := |names|, Names(hubs);
    TraceGreedy(kind, hubs, names, states, results, start);
    var ls, picks := LoadSeq(kind, hubs, states), PickSeq(results);
    assert |keys| == |hubs| && |picks| == n;
    EvenLevels(ls, picks, keys, base, n / |hubs|);
    loads := ls[n];
  }

  /** From loads that are equal but for one bucket `heavy`, `d` ahead, over B hubs:
      after the next d * (B - 1) fresh names every load is level with `heavy`, and after
      B more every load is one higher still. */
  lemma CatchUpRun(kind: string, hubs: seq<Hub>, names: seq<string>, states: seq<seq<Row>>,
                   results: seq<Result<string, Error>>, start: map<string, int>,
                   heavy: string, base: int, d: nat, k: nat)
    returns (level: map<string, int>, after: map<string, int>)
    requires Trace(kind, hubs, names, states, results) && Fresh(states[0], kind, names)
    requires EffectiveCounts(states[0], kind, hubs) == Ok(start)
    requires Lists(Names(hubs), start) && "" !in start
    requires heavy in start && start[heavy] == base + d
    requires forall b :: b in start && b != heavy ==> start[b] == base
    requires k == d * (|hubs| - 1) && |names| == k + |hubs|
    ensures EffectiveCounts(states[k], kind, hubs) == Ok(level) && Lists(Names(hubs), level)
    ensures forall b :: b in level ==> level[b] == base + d
    ensures EffectiveCounts(states[|names|], kind, hubs) == Ok(after) && Lists(Names(hubs), after)
    ensures forall b :: b in after ==> after[b] == base + d + 1
  {
    var keys := Names(hubs);
    assert |keys| == |hubs|;
    TraceGreedy(kind, hubs, names, states, results, start);
    var ls, picks := LoadSeq(kind, hubs, states), PickSeq(results);
    CatchUpLevels(ls, picks, keys, base, heavy, d, k);
    TraceLoadsAt(kind, hubs, names, states, results, start, k);
    level, after := ls[k], ls[|names|];
  }

  /** test_shard_with_offset, in general: B hubs with distinct, non-empty names and no
      extra shards share a multiple `q * B` of fresh names evenly; then hub `h` is given
      `d` extra shards, and of the next fresh names the first k = d * (B - 1) all go to
      the other hubs, `d` each, and the B after them one to every hub. */
  lemma ShardWithOffset(kind: string, hubs: seq<Hub>, names: seq<string>, states: seq<seq<Row>>,
                        results: seq<Result<string, Error>>, h: nat, d: nat, hubs': seq<Hub>,
                        names': seq<string>, states': seq<seq<Row>>, results': seq<Result<string, Error>>, k: nat)
    requires DistinctNames(hubs) && h < |hubs|
    requires forall i :: 0 <= i < |hubs| ==> hubs[i].name != "" && ExtraOf(hubs[i]) == 0
    requires Trace(kind, hubs, names, states, results) && states[0] == Seed([], kind, hubs).rows
    requires Fresh(states[0], kind, names) && |names| % |hubs| == 0
    requires hubs' == hubs[h := Hub(hubs[h].name, Some(d))]
    requires Trace(kind, hubs', names', states', results') && states'[0] == states[|names|]
    requires Fresh(states'[0], kind, names')
    requires k == d * (|hubs| - 1) && |names'| == k + |hubs|
    ensures OffsetShares(states'[k], kind, hubs, h, |names| / |hubs|, d)
    ensures OffsetShares(states'[|names'|], kind, hubs, h, |names| / |hubs| + 1, d)
  {
    var q, heavy := |names| / |hubs|, hubs[h].name;
    var loads := EvenLoads(kind, hubs, names, states, results);
    var start := Reconfigured(states[|names|], kind, hubs, h, d, hubs', loads, 1 + q);
    var level, after := CatchUpRun(kind, hubs', names', states', results', start, heavy, 1 + q, d, k);
    OffsetSharesFrom(states'[k], kind, hubs, h, d, hubs', level, q);
    OffsetSharesFrom(states'[|names'|], kind, hubs, h, d, hubs', after, q + 1);
  }

  /** Hub `h` holds `a` assignments and every other hub `a + d`. */
  ghost predicate OffsetShares(rows: seq<Row>, kind: string, hubs: seq<Hub>, h: nat, a: int, d: int) {
    var size := Assignments(rows, kind, Names(hubs));
    forall i :: 0 <= i < |hubs| ==> hubs[i].name in size && size[hubs[i].name] == if i == h then a else a + d
  }

  /** Level loads `a + d + 1` where hub `h` alone has `d` extra shards are its `a`
      assignments and `a + d` on every other hub. */
  lemma OffsetSharesFrom(rows: seq<Row>, kind: string, hubs: seq<Hub>, h: nat, d: nat, hubs': seq<Hub>,
                         loads: map<string, int>, a: int)
    requires h < |hubs| && hubs' == hubs[h := Hub(hubs[h].name, Some(d))]
    requires Names(hubs') == Names(hubs) && DistinctNames(hubs')
    requires forall i :: 0 <= i < |hubs'| ==> ExtraOf(hubs'[i]) == if i == h then d else 0
    requires EffectiveCounts(rows, kind, hubs') == Ok(loads) && Lists(Names(hubs'), loads)
    requires forall b :: b in loads ==> loads[b] == a + d + 1
    ensures OffsetShares(rows, kind, hubs, h, a, d)
  {
    LoadsAsAssignmentsAt(rows, kind, hubs', loads);
    forall i | 0 <= i < |hubs| ensures hubs'[i].name == hubs[i].name { }
  }

  /** Giving hub `h` `d` extra shards on a table whose loads are all `base` over hubs with
      no extra shards lifts that hub's load alone, by `d`; the hub names are unchanged. */
  lemma Reconfigured(rows: seq<Row>, kind: string, hubs: seq<Hub>, h: nat, d: nat, hubs': seq<Hub>,
                     loads: map<string, int>, base: int) returns (start: map<string, int>)
    requires DistinctNames(hubs) && h < |hubs|
    requires forall i :: 0 <= i < |hubs| ==> hubs[i].name != "" && ExtraOf(hubs[i]) == 0
    requires hubs' == hubs[h := Hub(hubs[h].name, Some(d))]
    requires EffectiveCounts(rows, kind, hubs) == Ok(loads) && Lists(Names(hubs), loads)
    requires forall b :: b in loads ==> loads[b] == base
    ensures Names(hubs') == Names(hubs) && DistinctNames(hubs')
    ensures forall i :: 0 <= i < |hubs'| ==> ExtraOf(hubs'[i]) == if i == h then d else 0
    ensures EffectiveCounts(rows, kind, hubs') == Ok(start) && Lists(Names(hubs'), start) && "" !in start
    ensures hubs[h].name in start && start[hubs[h].name] == base + d
    ensures forall b :: b in start && b != hubs[h].name ==> start[b] == base
  {
    var heavy, keys := hubs[h].name, Names(hubs);
    Reconfigure(rows, kind, hubs, h, Some(d));
    assert heavy in loads by {
      assert keys[h] == heavy;
    }
    start := loads[heavy := loads[heavy] + d];
    assert Names(hubs') == keys;
    assert DistinctNames(hubs') by {
      forall i | 0 <= i < |hubs| ensures hubs'[i].name == hubs[i].name { }
    }
    forall b | b in keys ensures b != "" {
      var i :| 0 <= i < |keys| && keys[i] == b;
      assert hubs[i].name == b;
    }
  }
}
