/** The `shard` table and the queries the sharder runs against it. The table is a
    sequence of rows; a row's position plays the part of its autoincrement `id`, so
    "the first row" of a query without ORDER BY is the one with the lowest position. */
module Table {
  import opened Wrappers

  /** One assignment: category (`kind`), target bucket, identifier (`name`). */
  datatype Row = Row(kind: string, bucket: string, name: string)

  /** A configured hub: its bucket name and the optional `extra_shards` bias. */
  datatype Hub = Hub(name: string, extraShards: Option<int>)

  /** The ways a sharder operation can end in an exception. */
  datatype Error =
    | MultipleResults   // `.scalar()` saw more than one placeholder row for a hub
    | UnknownBucket     // KeyError: a bucket with rows of this kind is not a configured hub
    | NoBuckets         // ValueError: `min` over an empty table of counts

  /** The session's view of the table. */
  class Store {
    var rows: seq<Row>

    constructor (rows: seq<Row>)
      ensures this.rows == rows
    {
      this.rows := rows;
    }

    /** `session.add` followed by `session.commit`. */
    method Add(row: Row)
      modifies this
      ensures rows == old(rows) + [row]
    {
      rows := rows + [row];
    }
  }

  function Max(a: int, b: int): int { if a < b then b else a }

  /** Counter-style lookup: a missing key reads as 0. */
  function Get(m: map<string, int>, k: string): int { if k in m then m[k] else 0 }

  /** `hub.get("extra_shards", 0)` */
  function ExtraOf(h: Hub): int { match h.extraShards case Some(e) => e case None => 0 }

  /** The identifier of the placeholder row of a bucket. */
  function DummyName(bucket: string): string { "dummy-" + bucket }

  function Placeholder(kind: string, bucket: string): Row { Row(kind, bucket, DummyName(bucket)) }

  predicate Keyed(row: Row, kind: string, name: string) { row.kind == kind && row.name == name }

  /** At most one row per (kind, name). */
  ghost predicate Unique(rows: seq<Row>) {
    forall i, j :: 0 <= i < j < |rows| ==> !Keyed(rows[j], rows[i].kind, rows[i].name)
  }

  /** `query(Shard).filter(kind == kind, name == name).first()`: the position of the
      first row with this kind and name. */
  function Find(rows: seq<Row>, kind: string, name: string): (r: Option<nat>)
    ensures r.Some? ==> r.value < |rows| && Keyed(rows[r.value], kind, name)
    ensures r.Some? ==> forall j :: 0 <= j < r.value ==> !Keyed(rows[j], kind, name)
    ensures r.None? ==> forall j :: 0 <= j < |rows| ==> !Keyed(rows[j], kind, name)
  {
    if rows == [] then None
    else if Keyed(rows[0], kind, name) then Some(0)
    else match Find(rows[1..], kind, name)
      case None => None
      case Some(j) => Some(j + 1)
  }

  /** Appending a row leaves an earlier match in place and otherwise finds the new row
      exactly when it has the key. */
  lemma {:induction false} FindAppend(rows: seq<Row>, row: Row, kind: string, name: string)
    ensures Find(rows + [row], kind, name) ==
      match Find(rows, kind, name)
      case Some(i) => Some(i)
      case None => if Keyed(row, kind, name) then Some(|rows|) else None
    decreases |rows|
  {
    var s := rows + [row];
    if rows == [] {
      assert s[1..] == [];
    } else if !Keyed(rows[0], kind, name) {
      assert s[1..] == rows[1..] + [row];
      FindAppend(rows[1..], row, kind, name);
    }
  }

  /** Number of rows of category `kind` in bucket `bucket`. */
  ghost function Count(rows: seq<Row>, kind: string, bucket: string): nat {
    |set i | 0 <= i < |rows| && rows[i].kind == kind && rows[i].bucket == bucket|
  }

  /** Number of rows of category `kind`. */
  ghost function OfKind(rows: seq<Row>, kind: string): nat {
    |set i | 0 <= i < |rows| && rows[i].kind == kind|
  }

  /** The buckets holding at least one row of category `kind`. */
  ghost function Buckets(rows: seq<Row>, kind: string): set<string> {
    set i | 0 <= i < |rows| && rows[i].kind == kind :: rows[i].bucket
  }

  /** Number of rows, of any kind, that look like the placeholder of `bucket`
      (the seeding query filters on bucket and name only). */
  function PlaceholderCount(rows: seq<Row>, bucket: string): nat {
    |set i | 0 <= i < |rows| && rows[i].bucket == bucket && rows[i].name == DummyName(bucket)|
  }

  /** What the grouped COUNT query returns, as a map: bucket to its row count. */
  ghost function RawCounts(rows: seq<Row>, kind: string): map<string, int> {
    map b | b in Buckets(rows, kind) :: Count(rows, kind, b)
  }

  lemma CountAppend(rows: seq<Row>, row: Row, kind: string, bucket: string)
    ensures Count(rows + [row], kind, bucket) ==
            Count(rows, kind, bucket) + (if row.kind == kind && row.bucket == bucket then 1 else 0)
  {
    var s := rows + [row];
    var a := set i | 0 <= i < |rows| && rows[i].kind == kind && rows[i].bucket == bucket;
    var b := set i | 0 <= i < |s| && s[i].kind == kind && s[i].bucket == bucket;
    if row.kind == kind && row.bucket == bucket {
      assert b == a + {|rows|};
    } else {
      assert b == a;
    }
  }

  lemma OfKindAppend(rows: seq<Row>, row: Row, kind: string)
    ensures OfKind(rows + [row], kind) == OfKind(rows, kind) + (if row.kind == kind then 1 else 0)
  {
    var s := rows + [row];
    var a := set i | 0 <= i < |rows| && rows[i].kind == kind;
    var b := set i | 0 <= i < |s| && s[i].kind == kind;
    if row.kind == kind {
      assert b == a + {|rows|};
    } else {
      assert b == a;
    }
  }

  lemma PlaceholderCountAppend(rows: seq<Row>, row: Row, bucket: string)
    ensures PlaceholderCount(rows + [row], bucket) ==
            PlaceholderCount(rows, bucket) + (if row.bucket == bucket && row.name == DummyName(bucket) then 1 else 0)
  {
    var s := rows + [row];
    var a := set i | 0 <= i < |rows| && rows[i].bucket == bucket && rows[i].name == DummyName(bucket);
    var b := set i | 0 <= i < |s| && s[i].bucket == bucket && s[i].name == DummyName(bucket);
    if row.bucket == bucket && row.name == DummyName(bucket) {
      assert b == a + {|rows|};
    } else {
      assert b == a;
    }
  }

  lemma BucketsAppend(rows: seq<Row>, row: Row, kind: string)
    ensures Buckets(rows + [row], kind) == Buckets(rows, kind) + (if row.kind == kind then {row.bucket} else {})
  {
    var s := rows + [row];
    forall b | b in Buckets(rows, kind) ensures b in Buckets(s, kind) {
      var i :| 0 <= i < |rows| && rows[i].kind == kind && rows[i].bucket == b;
      assert s[i] == rows[i];
    }
    if row.kind == kind {
      assert s[|rows|] == row;
    }
  }

  /** A bucket holds a row of this kind exactly when its count is positive. */
  lemma CountPositive(rows: seq<Row>, kind: string, bucket: string)
    ensures Count(rows, kind, bucket) > 0 <==> bucket in Buckets(rows, kind)
  {
    var a := set i | 0 <= i < |rows| && rows[i].kind == kind && rows[i].bucket == bucket;
    if bucket in Buckets(rows, kind) {
      var i :| 0 <= i < |rows| && rows[i].kind == kind && rows[i].bucket == bucket;
      assert i in a;
    } else {
      assert a == {};
    }
  }

  /** The grouped counts after one more row: that row's bucket goes up by one
      (appearing with count 1 if it was absent); nothing else changes. */
  lemma RawCountsAppend(rows: seq<Row>, row: Row, kind: string)
    ensures RawCounts(rows + [row], kind) ==
      if row.kind == kind
      then RawCounts(rows, kind)[row.bucket := Get(RawCounts(rows, kind), row.bucket) + 1]
      else RawCounts(rows, kind)
  {
    var s := rows + [row];
    BucketsAppend(rows, row, kind);
    forall b | b in Buckets(s, kind)
      ensures Count(s, kind, b) ==
        Count(rows, kind, b) + (if row.kind == kind && row.bucket == b then 1 else 0)
    {
      CountAppend(rows, row, kind, b);
    }
    if row.kind == kind && row.bucket !in Buckets(rows, kind) {
      CountPositive(rows, kind, row.bucket);
    }
  }

  /** Sum of the values of a map. */
  ghost function SumValues(m: map<string, int>): int
    decreases |m|
  {
    if m == map[] then 0
    else
      var k :| k in m;
      m[k] + SumValues(m - {k})
  }

  lemma {:induction false} SumValuesRemove(m: map<string, int>, k: string)
    requires k in m
    ensures SumValues(m) == m[k] + SumValues(m - {k})
    decreases |m|
  {
    var k' :| k' in m && SumValues(m) == m[k'] + SumValues(m - {k'});
    if k' != k {
      assert |m - {k'}| < |m|;
      SumValuesRemove(m - {k'}, k);
      assert (m - {k'}) - {k} == (m - {k}) - {k'};
      SumValuesRemove(m - {k}, k');
    }
  }

  /** Adding one to a key (a missing key counting as 0) adds one to the sum. */
  lemma SumValuesIncrement(m: map<string, int>, k: string)
    ensures SumValues(m[k := Get(m, k) + 1]) == SumValues(m) + 1
  {
    var m' := m[k := Get(m, k) + 1];
    SumValuesRemove(m', k);
    if k in m {
      SumValuesRemove(m, k);
      assert m' - {k} == m - {k};
    } else {
      assert m' - {k} == m;
    }
  }

  lemma EmptyCounts(rows: seq<Row>, kind: string)
    requires rows == []
    ensures SumValues(RawCounts(rows, kind)) == 0 && OfKind(rows, kind) == 0
  {
    assert RawCounts(rows, kind) == map[];
  }

  /** The raw per-bucket counts add up to the number of rows of this kind. */
  lemma {:induction false} RawCountsSum(rows: seq<Row>, kind: string)
    ensures SumValues(RawCounts(rows, kind)) == OfKind(rows, kind)
    decreases |rows|
  {
    if rows == [] {
      EmptyCounts(rows, kind);
    } else {
      var init, row := rows[..|rows| - 1], rows[|rows| - 1];
      assert rows == init + [row];
      RawCountsSum(init, kind);
      RawCountsAppend(init, row, kind);
      OfKindAppend(init, row, kind);
      if row.kind == kind {
        SumValuesIncrement(RawCounts(init, kind), row.bucket);
      }
    }
  }

  /** The `extra_shards` dict built from the hub list; a later hub of the same name
      overwrites an earlier one. */
  ghost function ExtraTable(hubs: seq<Hub>): map<string, int>
    decreases |hubs|
  {
    if hubs == [] then map[]
    else ExtraTable(hubs[..|hubs| - 1])[hubs[|hubs| - 1].name := ExtraOf(hubs[|hubs| - 1])]
  }

  function Names(hubs: seq<Hub>): seq<string> {
    seq(|hubs|, i requires 0 <= i < |hubs| => hubs[i].name)
  }

  ghost predicate DistinctNames(hubs: seq<Hub>) {
    forall i, j :: 0 <= i < j < |hubs| ==> hubs[i].name != hubs[j].name
  }

  /** The extra table has one key per configured hub name, and for a hub whose name does
      not occur again later in the list, its value is that hub's `extra_shards`. */
  lemma {:induction false} ExtraTableAt(hubs: seq<Hub>)
    ensures ExtraTable(hubs).Keys == set i | 0 <= i < |hubs| :: hubs[i].name
    ensures forall i :: 0 <= i < |hubs| && (forall j :: i < j < |hubs| ==> hubs[j].name != hubs[i].name) ==>
              ExtraTable(hubs)[hubs[i].name] == ExtraOf(hubs[i])
    decreases |hubs|
  {
    if hubs != [] {
      var init := hubs[..|hubs| - 1];
      ExtraTableAt(init);
      forall i | 0 <= i < |hubs| - 1 ensures init[i] == hubs[i] { }
    }
  }

  /** `_bucket_count(extras=True)` as a map: raw count plus the hub's bias, for every
      bucket with rows of this kind; a KeyError when such a bucket is not a hub. */
  ghost function EffectiveCounts(rows: seq<Row>, kind: string, hubs: seq<Hub>): Result<map<string, int>, Error> {
    var extra := ExtraTable(hubs);
    if Buckets(rows, kind) <= extra.Keys
    then Ok(map b | b in Buckets(rows, kind) :: Count(rows, kind, b) + extra[b])
    else Err(UnknownBucket)
  }

  /** One more row of this kind in a bucket that already has one raises that bucket's
      effective count by one and leaves the rest alone. */
  lemma EffectiveAppend(rows: seq<Row>, kind: string, hubs: seq<Hub>, bucket: string, name: string)
    requires EffectiveCounts(rows, kind, hubs).Ok?
    requires bucket in EffectiveCounts(rows, kind, hubs).value
    ensures var loads := EffectiveCounts(rows, kind, hubs).value;
            EffectiveCounts(rows + [Row(kind, bucket, name)], kind, hubs) == Ok(loads[bucket := loads[bucket] + 1])
  {
    var row := Row(kind, bucket, name);
    var s := rows + [row];
    var extra := ExtraTable(hubs);
    var loads := EffectiveCounts(rows, kind, hubs).value;
    BucketsAppend(rows, row, kind);
    assert Buckets(s, kind) == Buckets(rows, kind);
    var loads' := map b | b in Buckets(s, kind) :: Count(s, kind, b) + extra[b];
    forall b | b in Buckets(rows, kind)
      ensures loads'[b] == loads[bucket := loads[bucket] + 1][b]
    {
      CountAppend(rows, row, kind, b);
    }
    assert loads' == loads[bucket := loads[bucket] + 1];
  }

  /** With distinct hub names, every hub's entry is its own `extra_shards`. */
  lemma ExtraTableDistinct(hubs: seq<Hub>)
    requires DistinctNames(hubs)
    ensures ExtraTable(hubs).Keys == set i | 0 <= i < |hubs| :: hubs[i].name
    ensures forall i :: 0 <= i < |hubs| ==> ExtraTable(hubs)[hubs[i].name] == ExtraOf(hubs[i])
  {
    ExtraTableAt(hubs);
  }

  lemma {:induction false} ExtraTableUpdate(hubs: seq<Hub>, i: nat, extra: Option<int>)
    requires i < |hubs| && DistinctNames(hubs)
    ensures ExtraTable(hubs[i := Hub(hubs[i].name, extra)]) ==
            ExtraTable(hubs)[hubs[i].name := ExtraOf(Hub(hubs[i].name, extra))]
    decreases |hubs|
  {
    var n, h := |hubs|, hubs[i].name;
    var hubs' := hubs[i := Hub(h, extra)];
    var init, last := hubs[..n - 1], hubs[n - 1];
    if i == n - 1 {
      assert hubs'[..n - 1] == init;
    } else {
      assert hubs'[..n - 1] == init[i := Hub(h, extra)];
      assert hubs'[n - 1] == last;
      assert h != last.name;
      ExtraTableUpdate(init, i, extra);
    }
  }

  /** Changing the bias of one hub (hub names distinct) changes only that bucket's
      effective count, by the difference of the biases; stored rows are untouched. */
  lemma Reconfigure(rows: seq<Row>, kind: string, hubs: seq<Hub>, i: nat, extra: Option<int>)
    requires i < |hubs| && DistinctNames(hubs)
    requires EffectiveCounts(rows, kind, hubs).Ok?
    ensures var loads := EffectiveCounts(rows, kind, hubs).value;
            var h := hubs[i].name;
            EffectiveCounts(rows, kind, hubs[i := Hub(h, extra)]) ==
              Ok(if h in loads then loads[h := loads[h] - ExtraOf(hubs[i]) + ExtraOf(Hub(h, extra))] else loads)
  {
    var h := hubs[i].name;
    var hubs' := hubs[i := Hub(h, extra)];
    var x, x' := ExtraTable(hubs), ExtraTable(hubs');
    assert x[h] == ExtraOf(hubs[i]) by { ExtraTableDistinct(hubs); }
    ExtraTableUpdate(hubs, i, extra);
    var loads := EffectiveCounts(rows, kind, hubs).value;
    var loads' := map b | b in Buckets(rows, kind) :: Count(rows, kind, b) + x'[b];
    var want := if h in loads then loads[h := loads[h] - x[h] + ExtraOf(Hub(h, extra))] else loads;
    assert loads'.Keys == want.Keys;
    forall b | b in loads' ensures loads'[b] == want[b] { }
    assert loads' == want;
  }
}
