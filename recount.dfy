/** The test suite does not read the table: after sharding its entries once, it calls
    `shard` on each entry a second time and tallies the buckets returned. This module
    shows that the second pass changes nothing and returns what the first pass recorded,
    so its tally is the per-hub assignment count the balance lemmas speak of. */
module Recount {
  import opened Wrappers
  import opened Table
  import opened Seeding
  import opened Sharding
  import opened Loads
  import opened Balance

  /** How many of `picks` are `b`: the tests' counter for one bucket. */
  function Tally(picks: seq<string>, b: string): nat
    decreases |picks|
  {
    if picks == [] then 0
    else Tally(picks[..|picks| - 1], b) + (if picks[|picks| - 1] == b then 1 else 0)
  }

  /** The tests' `shards` dict: one key per bucket returned, holding how often. */
  function TallyMap(picks: seq<string>): map<string, int> {
    map b | b in picks :: Tally(picks, b)
  }

  /** A bucket is counted at all exactly when it was returned. */
  lemma {:induction false} TallyPositive(picks: seq<string>, b: string)
    ensures Tally(picks, b) > 0 <==> b in picks
    decreases |picks|
  {
    if picks != [] {
      var init := picks[..|picks| - 1];
      TallyPositive(init, b);
      assert picks == init + [picks[|picks| - 1]];
    }
  }

  /** Counting two runs of picks one after the other adds their counts. */
  lemma {:induction false} TallyConcat(p: seq<string>, q: seq<string>, b: string)
    ensures Tally(p + q, b) == Tally(p, b) + Tally(q, b)
    decreases |q|
  {
    if q == [] {
      assert p + q == p;
    } else {
      var init := q[..|q| - 1];
      TallyConcat(p, init, b);
      assert (p + q)[..|p + q| - 1] == p + init;
    }
  }

  lemma {:induction false} TotalZero(keys: seq<string>, m: map<string, int>)
    requires forall b :: b in keys ==> b in m && m[b] == 0
    ensures Total(keys, m) == 0
  {
    if keys != [] {
      TotalZero(keys[1..], m);
    }
  }

  /** The tally read on a fixed list of keys, zero for a key never returned. */
  function TallyOn(picks: seq<string>, keys: seq<string>): map<string, int> {
    map b | b in keys :: Tally(picks, b)
  }

  /** Over keys listed once that include every pick, the counts add up to the number of
      picks. */
  lemma {:induction false} TallySum(picks: seq<string>, keys: seq<string>)
    requires Distinct(keys) && forall i :: 0 <= i < |picks| ==> picks[i] in keys
    ensures Total(keys, TallyOn(picks, keys)) == |picks|
    decreases |picks|
  {
    var m := TallyOn(picks, keys);
    if picks == [] {
      forall b | b in keys ensures m[b] == 0 {
        assert Tally(picks, b) == 0;
      }
      TotalZero(keys, m);
    } else {
      var init, x := picks[..|picks| - 1], picks[|picks| - 1];
      TallySum(init, keys);
      var m0 := TallyOn(init, keys);
      assert m == m0[x := m0[x] + 1];
      TotalAdd(keys, m0, x, 1);
    }
  }

  lemma {:induction false} DistinctCard(keys: seq<string>)
    requires Distinct(keys)
    ensures |set b | b in keys| == |keys|
  {
    if keys != [] {
      assert Distinct(keys[1..]) by {
        forall i, j | 0 <= i < j < |keys[1..]| ensures keys[1..][i] != keys[1..][j] {
          assert keys[1..][i] == keys[i + 1] && keys[1..][j] == keys[j + 1];
        }
      }
      DistinctCard(keys[1..]);
      assert keys[0] !in keys[1..] by {
        forall j | 0 <= j < |keys[1..]| ensures keys[1..][j] != keys[0] {
          assert keys[1..][j] == keys[j + 1];
        }
      }
      assert (set b | b in keys) == {keys[0]} + (set b | b in keys[1..]);
    }
  }

  /** When every pick is one of the keys and every key was picked, the tally's keys are
      exactly those keys. */
  lemma TallyKeys(picks: seq<string>, keys: seq<string>)
    requires forall i :: 0 <= i < |picks| ==> picks[i] in keys
    requires forall b :: b in keys ==> Tally(picks, b) > 0
    ensures TallyMap(picks).Keys == set b | b in keys
  {
    forall b | b in keys ensures b in picks {
      TallyPositive(picks, b);
    }
  }

  /** Then the tally also has as many entries as keys, and its values add up to the
      number of picks. */
  lemma TallyOver(picks: seq<string>, keys: seq<string>)
    requires Distinct(keys) && forall i :: 0 <= i < |picks| ==> picks[i] in keys
    requires forall b :: b in keys ==> Tally(picks, b) > 0
    ensures forall b :: b in TallyMap(picks) <==> b in keys
    ensures |TallyMap(picks)| == |keys|
    ensures Total(keys, TallyMap(picks)) == |picks|
  {
    var t := TallyMap(picks);
    TallyKeys(picks, keys);
    DistinctCard(keys);
    assert |t| == |t.Keys|;
    TallySum(picks, keys);
    TotalAgree(keys, t, TallyOn(picks, keys));
  }

  /** Call `i` appended the row recording `names[i]` under `picks[i]`. */
  ghost predicate Appends(kind: string, names: seq<string>, picks: seq<string>, states: seq<seq<Row>>) {
    && |states| == |names| + 1 && |picks| == |names|
    && forall i :: 0 <= i < |names| ==> states[i + 1] == states[i] + [Row(kind, picks[i], names[i])]
  }

  /** After `k` appending calls the table is the start followed by the `k` recorded rows,
      and each bucket's count has grown by the number of picks of that bucket. */
  lemma {:induction false} AppendedRows(kind: string, names: seq<string>, picks: seq<string>,
                                        states: seq<seq<Row>>, k: nat)
    requires Appends(kind, names, picks, states) && k <= |names|
    ensures |states[k]| == |states[0]| + k
    ensures forall q :: 0 <= q < |states[0]| ==> states[k][q] == states[0][q]
    ensures forall j :: 0 <= j < k ==> states[k][|states[0]| + j] == Row(kind, picks[j], names[j])
    ensures forall b :: Count(states[k], kind, b) == Count(states[0], kind, b) + Tally(picks[..k], b)
  {
    if k > 0 {
      AppendedRows(kind, names, picks, states, k - 1);
      var row := Row(kind, picks[k - 1], names[k - 1]);
      assert states[k] == states[k - 1] + [row];
      assert picks[..k][..k - 1] == picks[..k - 1];
      forall b ensures Count(states[k], kind, b) == Count(states[0], kind, b) + Tally(picks[..k], b) {
        CountAppend(states[k - 1], row, kind, b);
      }
    }
  }

  /** A first pass over fresh names from known loads appends one row per call, and every
      call succeeds. */
  lemma FirstPassAppends(kind: string, hubs: seq<Hub>, names: seq<string>, states: seq<seq<Row>>,
                         results: seq<Result<string, Error>>, start: map<string, int>)
    requires Trace(kind, hubs, names, states, results) && Fresh(states[0], kind, names)
    requires EffectiveCounts(states[0], kind, hubs) == Ok(start) && start != map[] && "" !in start
    ensures Appends(kind, names, PickSeq(results), states)
    ensures forall i :: 0 <= i < |names| ==> results[i] == Ok(PickSeq(results)[i])
  {
    TraceAllFresh(kind, hubs, names, states, results);
    forall i | 0 <= i < |names|
      ensures results[i] == Ok(PickSeq(results)[i])
      ensures states[i + 1] == states[i] + [Row(kind, PickSeq(results)[i], names[i])]
    {
      var loads := KeysAlong(kind, hubs, names, states, results, start, i);
      assert FreshAt(kind, names, states, i);
      assert StepAt(kind, hubs, names, states, results, i);
      FreshStep(states[i], kind, hubs, names[i], results[i], states[i + 1], loads);
    }
  }

  /** In the table a first pass leaves, the first row keyed by `names[j]` is the one that
      pass appended for it. */
  lemma RecordedFound(kind: string, names: seq<string>, picks: seq<string>, states: seq<seq<Row>>, j: nat)
    requires Appends(kind, names, picks, states) && Fresh(states[0], kind, names) && j < |names|
    ensures Find(states[|names|], kind, names[j]) == Some(|states[0]| + j)
  {
    AppendedRows(kind, names, picks, states, |names|);
    var s0, rows, p := states[0], states[|names|], |states[0]| + j;
    assert Keyed(rows[p], kind, names[j]);
    forall q | 0 <= q < p ensures !Keyed(rows[q], kind, names[j]) {
      if q < |s0| {
        assert rows[q] == s0[q];
      } else {
        assert rows[q] == Row(kind, picks[q - |s0|], names[q - |s0|]);
        assert names[q - |s0|] != names[j];
      }
    }
  }

  /** A pass over names that all have a row changes nothing and returns, for each name,
      the bucket of its first row, whatever the hubs are. */
  lemma {:induction false} SecondPass(kind: string, hubs: seq<Hub>, names: seq<string>, states: seq<seq<Row>>,
                                      results: seq<Result<string, Error>>, k: nat)
    requires Trace(kind, hubs, names, states, results) && k <= |names|
    requires forall j :: 0 <= j < |names| ==> Find(states[0], kind, names[j]).Some?
    ensures states[k] == states[0]
    ensures forall j :: 0 <= j < k ==> results[j] == Ok(states[0][Find(states[0], kind, names[j]).value].bucket)
  {
    if k > 0 {
      SecondPass(kind, hubs, names, states, results, k - 1);
      assert StepAt(kind, hubs, names, states, results, k - 1);
    }
  }

  /** What a first pass over fresh names from known loads leaves behind: every call
      succeeded, each name's first row carries the bucket it was given, and each bucket's
      count grew by the number of names given to it. */
  lemma FirstPassRecords(kind: string, hubs: seq<Hub>, names: seq<string>, states: seq<seq<Row>>,
                         results: seq<Result<string, Error>>, start: map<string, int>)
    requires Trace(kind, hubs, names, states, results) && Fresh(states[0], kind, names)
    requires EffectiveCounts(states[0], kind, hubs) == Ok(start) && start != map[] && "" !in start
    ensures forall j :: 0 <= j < |names| ==> results[j] == Ok(PickSeq(results)[j])
    ensures forall j :: 0 <= j < |names| ==>
              && Find(states[|names|], kind, names[j]).Some?
              && states[|names|][Find(states[|names|], kind, names[j]).value].bucket == PickSeq(results)[j]
    ensures forall b :: Count(states[|names|], kind, b) == Count(states[0], kind, b) + Tally(PickSeq(results), b)
  {
    var picks := PickSeq(results);
    FirstPassAppends(kind, hubs, names, states, results, start);
    AppendedRows(kind, names, picks, states, |names|);
    forall j | 0 <= j < |names| ensures Find(states[|names|], kind, names[j]) == Some(|states[0]| + j) {
      RecordedFound(kind, names, picks, states, j);
    }
    assert picks[..|names|] == picks;
  }

  /** A first pass over fresh names from loads listed by the hub names returns hub names
      only, and after `k` of its calls each bucket's count has grown by the number of
      those calls that returned it. */
  lemma RunTally(kind: string, hubs: seq<Hub>, names: seq<string>, states: seq<seq<Row>>,
                 results: seq<Result<string, Error>>, start: map<string, int>, k: nat)
    requires Trace(kind, hubs, names, states, results) && Fresh(states[0], kind, names)
    requires EffectiveCounts(states[0], kind, hubs) == Ok(start) && Lists(Names(hubs), start)
    requires start != map[] && "" !in start && k <= |names|
    ensures forall i :: 0 <= i < |names| ==> PickSeq(results)[i] in Names(hubs)
    ensures forall b :: Count(states[k], kind, b) == Count(states[0], kind, b) + Tally(PickSeq(results)[..k], b)
  {
    var picks := PickSeq(results);
    FirstPassAppends(kind, hubs, names, states, results, start);
    AppendedRows(kind, names, picks, states, k);
    TraceGreedy(kind, hubs, names, states, results, start);
    var ls := LoadSeq(kind, hubs, states);
    forall i | 0 <= i < |names| ensures picks[i] in Names(hubs) {
      GreedyKeys(ls, picks, i);
      assert PickAt(ls, picks, i);
    }
  }

  /** The tests' tally: after a first pass over fresh names from the seeded table, a
      second pass over the same names (under any hubs) leaves the table as it is, returns
      for each name what the first pass returned, returns hub names only, and counts,
      per hub, exactly the names assigned to it. */
  lemma SecondPassTally(kind: string, hubs: seq<Hub>, names: seq<string>, states: seq<seq<Row>>,
                        results: seq<Result<string, Error>>, hubs2: seq<Hub>, states2: seq<seq<Row>>,
                        results2: seq<Result<string, Error>>)
    requires DistinctNames(hubs) && |hubs| > 0
    requires forall i :: 0 <= i < |hubs| ==> hubs[i].name != ""
    requires Trace(kind, hubs, names, states, results) && states[0] == Seed([], kind, hubs).rows
    requires Fresh(states[0], kind, names)
    requires Trace(kind, hubs2, names, states2, results2) && states2[0] == states[|names|]
    ensures states2[|names|] == states[|names|]
    ensures forall j :: 0 <= j < |names| ==> results2[j] == results[j] && results2[j].Ok?
    ensures forall i :: 0 <= i < |names| ==> PickSeq(results2)[i] in Names(hubs)
    ensures forall b :: b in Names(hubs) ==>
              Tally(PickSeq(results2), b) == Assignments(states[|names|], kind, Names(hubs))[b]
  {
    var start := SeededLoads(kind, hubs);
    FirstPassRecords(kind, hubs, names, states, results, start);
    SecondPass(kind, hubs2, names, states2, results2, |names|);
    assert PickSeq(results2) == PickSeq(results);
    SeededCounts(kind, hubs);
    RunTally(kind, hubs, names, states, results, start, |names|);
  }

  /** Each hub's bucket holds one row of this kind in the freshly seeded table. */
  lemma SeededCounts(kind: string, hubs: seq<Hub>)
    requires DistinctNames(hubs)
    ensures forall b :: b in Names(hubs) ==> Count(Seed([], kind, hubs).rows, kind, b) == 1
  {
    SeedEmpty(kind, hubs);
    forall b | b in Names(hubs) ensures Count(Placeholders(kind, hubs), kind, b) == 1 {
      var i :| 0 <= i < |hubs| && Names(hubs)[i] == b;
      PlaceholdersCount(kind, hubs, i);
    }
  }
}
