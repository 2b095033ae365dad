/** The `Sharder` class: least-loaded assignment of names to buckets, persisted in the
    `shard` table so that a name keeps its bucket once assigned. */
module Sharding {
  import opened Wrappers
  import opened Table
  import opened Seeding
  import opened Decimal

  /** One item of the dict `_bucket_count` returns. The dict is kept as a sequence
      because its order (that of the grouped query) decides ties in `shard`. */
  datatype Entry = Entry(bucket: string, total: int)

  /** One item of the dict `__str__` serialises. */
  datatype Line = Line(bucket: string, text: string)

  ghost predicate DistinctBuckets(es: seq<Entry>) {
    forall i, j :: 0 <= i < j < |es| ==> es[i].bucket != es[j].bucket
  }

  function BucketsOf(es: seq<Entry>): set<string> {
    set i | 0 <= i < |es| :: es[i].bucket
  }

  /** `es` is a `_bucket_count` result: one entry per bucket holding rows of this kind,
      listed in ascending order of raw row count (the query's ORDER BY total; the order
      of equal totals is up to the database), each total being the raw count plus the
      bucket's offset (a bucket missing from `offsets` adds 0). */
  ghost predicate LoadTable(es: seq<Entry>, rows: seq<Row>, kind: string, offsets: map<string, int>) {
    && DistinctBuckets(es)
    && BucketsOf(es) == Buckets(rows, kind)
    && (forall i :: 0 <= i < |es| ==> es[i].total == Count(rows, kind, es[i].bucket) + Get(offsets, es[i].bucket))
    && (forall i, j :: 0 <= i < j < |es| ==> Count(rows, kind, es[i].bucket) <= Count(rows, kind, es[j].bucket))
  }

  /** `b` has the least effective count, and among buckets with that effective count
      it has the least raw count (it comes first in the query's order). */
  ghost predicate LeastLoaded(loads: map<string, int>, rows: seq<Row>, kind: string, b: string) {
    && b in loads
    && (forall c :: c in loads ==> loads[b] <= loads[c])
    && (forall c :: c in loads && loads[c] == loads[b] ==> Count(rows, kind, b) <= Count(rows, kind, c))
  }

  /** What one call `shard(name)` may do, taking table `rows` to `rows'` and returning `r`:
      an existing row for (kind, name) gives its bucket and no change; otherwise the
      effective counts are computed (KeyError for a bucket that is not a hub; ValueError
      when there are none), a least-loaded bucket is returned, and one row recording the
      choice is appended unless the bucket name is empty. */
  ghost predicate ShardStep(rows: seq<Row>, kind: string, hubs: seq<Hub>, name: string,
                            r: Result<string, Error>, rows': seq<Row>)
  {
    match Find(rows, kind, name)
    case Some(i) => r == Ok(rows[i].bucket) && rows' == rows
    case None =>
      match EffectiveCounts(rows, kind, hubs)
      case Err(e) => r == Err(e) && rows' == rows
      case Ok(loads) =>
        if loads == map[] then r == Err(NoBuckets) && rows' == rows
        else
          && r.Ok?
          && LeastLoaded(loads, rows, kind, r.value)
          && rows' == rows + (if r.value == "" then [] else [Row(kind, r.value, name)])
  }

  lemma {:induction false} MinExists(m: map<string, int>, keys: set<string>)
    requires keys != {} && keys <= m.Keys
    ensures exists b :: b in keys && forall c :: c in keys ==> m[b] <= m[c]
    decreases keys
  {
    var x :| x in keys;
    if keys != {x} {
      MinExists(m, keys - {x});
      var b :| b in keys - {x} && forall c :: c in keys - {x} ==> m[b] <= m[c];
      if m[x] < m[b] {
        assert forall c :: c in keys ==> m[x] <= m[c];
      } else {
        assert forall c :: c in keys ==> m[b] <= m[c];
      }
    }
  }

  /** `min(buckets, key=buckets.get)`: the position of the first entry with the least
      total; None (ValueError) for an empty dict. */
  method FirstMinimum(es: seq<Entry>) returns (r: Option<nat>)
    ensures r.None? <==> es == []
    ensures r.Some? ==> r.value < |es|
    ensures r.Some? ==> forall j :: 0 <= j < |es| ==> es[r.value].total <= es[j].total
    ensures r.Some? ==> forall j :: 0 <= j < r.value ==> es[r.value].total < es[j].total
  {
    if es == [] {
      return None;
    }
    var k := 0;
    for i := 1 to |es|
      invariant k < i
      invariant forall j :: 0 <= j < i ==> es[k].total <= es[j].total
      invariant forall j :: 0 <= j < k ==> es[k].total < es[j].total
    {
      if es[i].total < es[k].total {
        k := i;
      }
    }
    return Some(k);
  }

  /** The GROUP BY of the grouped query, as a scan of the table: per bucket, the number
      of rows of this kind. */
  method CountRows(rows: seq<Row>, kind: string) returns (counts: map<string, int>)
    ensures counts == RawCounts(rows, kind)
  {
    counts := map[];
    assert rows[..0] == [];
    assert RawCounts(rows[..0], kind) == map[];
    for i := 0 to |rows|
      invariant counts == RawCounts(rows[..i], kind)
    {
      assert rows[..i + 1] == rows[..i] + [rows[i]];
      RawCountsAppend(rows[..i], rows[i], kind);
      if rows[i].kind == kind {
        counts := counts[rows[i].bucket := Get(counts, rows[i].bucket) + 1];
      }
    }
    assert rows[..|rows|] == rows;
  }

  /** The ORDER BY total of the grouped query: the entries of `counts` in ascending
      order of value, the order among equal values left open. */
  method OrderByTotal(counts: map<string, int>) returns (es: seq<Entry>)
    ensures DistinctBuckets(es) && BucketsOf(es) == counts.Keys
    ensures forall i :: 0 <= i < |es| ==> es[i].bucket in counts && es[i].total == counts[es[i].bucket]
    ensures forall i, j :: 0 <= i < j < |es| ==> es[i].total <= es[j].total
  {
    es := [];
    var todo := counts.Keys;
    while todo != {}
      invariant todo <= counts.Keys
      invariant DistinctBuckets(es)
      invariant BucketsOf(es) !! todo && BucketsOf(es) + todo == counts.Keys
      invariant forall i :: 0 <= i < |es| ==> es[i].bucket in counts && es[i].total == counts[es[i].bucket]
      invariant forall i, j :: 0 <= i < j < |es| ==> es[i].total <= es[j].total
      invariant forall i, c :: 0 <= i < |es| && c in todo ==> es[i].total <= counts[c]
      decreases todo
    {
      MinExists(counts, todo);
      var b :| b in todo && forall c :: c in todo ==> counts[b] <= counts[c];
      BucketsOfAppend(es, Entry(b, counts[b]));
      es := es + [Entry(b, counts[b])];
      todo := todo - {b};
    }
  }

  /** The effective counts seen through a `_bucket_count(extras=True)` result. */
  lemma LoadTableLoads(es: seq<Entry>, rows: seq<Row>, kind: string, hubs: seq<Hub>)
    requires LoadTable(es, rows, kind, ExtraTable(hubs))
    requires Buckets(rows, kind) <= ExtraTable(hubs).Keys
    ensures EffectiveCounts(rows, kind, hubs).Ok?
    ensures EffectiveCounts(rows, kind, hubs).value.Keys == BucketsOf(es)
    ensures forall i :: 0 <= i < |es| ==> EffectiveCounts(rows, kind, hubs).value[es[i].bucket] == es[i].total
  {
  }

  /** The first entry of least total in a `_bucket_count(extras=True)` result is a
      least-loaded bucket, with the raw-count tie-break. */
  lemma ChoiceIsLeastLoaded(es: seq<Entry>, rows: seq<Row>, kind: string, hubs: seq<Hub>, k: nat)
    requires LoadTable(es, rows, kind, ExtraTable(hubs))
    requires Buckets(rows, kind) <= ExtraTable(hubs).Keys
    requires k < |es|
    requires forall j :: 0 <= j < |es| ==> es[k].total <= es[j].total
    requires forall j :: 0 <= j < k ==> es[k].total < es[j].total
    ensures EffectiveCounts(rows, kind, hubs).Ok?
    ensures LeastLoaded(EffectiveCounts(rows, kind, hubs).value, rows, kind, es[k].bucket)
  {
    LoadTableLoads(es, rows, kind, hubs);
    var loads := EffectiveCounts(rows, kind, hubs).value;
    var b := es[k].bucket;
    assert b in BucketsOf(es);
    forall c | c in loads ensures loads[b] <= loads[c]
      && (loads[c] == loads[b] ==> Count(rows, kind, b) <= Count(rows, kind, c))
    {
      var j :| 0 <= j < |es| && es[j].bucket == c;
      if j < k {
        assert loads[b] < loads[c];
      }
    }
  }

  /** `Counter(dict)`: the dict as a map (buckets are distinct). */
  function AsMap(es: seq<Entry>): (m: map<string, int>)
    requires DistinctBuckets(es)
    ensures m.Keys == BucketsOf(es)
    ensures forall i :: 0 <= i < |es| ==> m[es[i].bucket] == es[i].total
  {
    map i | 0 <= i < |es| :: es[i].bucket := es[i].total
  }

  /** `Counter.__sub__`: keep the positive differences, and negate the negative counts
      of keys found only on the right. */
  function Subtract(p: map<string, int>, q: map<string, int>): map<string, int> {
    (map k | k in p && p[k] - Get(q, k) > 0 :: p[k] - Get(q, k)) +
    (map k | k in q && k !in p && q[k] < 0 :: 0 - q[k])
  }

  /** Over the same keys, Counter subtraction reads as the difference where positive
      and 0 elsewhere. */
  lemma SubtractSameKeys(p: map<string, int>, q: map<string, int>, k: string)
    requires p.Keys == q.Keys && k in p
    ensures Get(Subtract(p, q), k) == Max(0, p[k] - q[k])
  {
  }

  lemma BucketsOfAppend(es: seq<Entry>, e: Entry)
    ensures BucketsOf(es + [e]) == BucketsOf(es) + {e.bucket}
  {
    var s := es + [e];
    assert s[|es|] == e;
    forall b | b in BucketsOf(es) ensures b in BucketsOf(s) {
      var i :| 0 <= i < |es| && es[i].bucket == b;
      assert s[i] == es[i];
    }
  }

  /** What `__str__` reads for one bucket from the two `_bucket_count` results. */
  lemma ReportEntry(raw: seq<Entry>, eff: seq<Entry>, rows: seq<Row>, kind: string, hubs: seq<Hub>, b: string)
    requires LoadTable(raw, rows, kind, map[]) && LoadTable(eff, rows, kind, ExtraTable(hubs))
    requires b in BucketsOf(raw)
    ensures b in AsMap(raw) && AsMap(raw)[b] == Count(rows, kind, b)
    ensures b in AsMap(eff) && AsMap(eff)[b] == Count(rows, kind, b) + Get(ExtraTable(hubs), b)
    ensures Get(Subtract(AsMap(eff), AsMap(raw)), b) == Max(0, Get(ExtraTable(hubs), b))
  {
    var i :| 0 <= i < |raw| && raw[i].bucket == b;
    var j :| 0 <= j < |eff| && eff[j].bucket == b;
    SubtractSameKeys(AsMap(eff), AsMap(raw), b);
  }

  /** A line built from the raw count, the positive part of the bias and the effective
      count of `b` is the expected line of `b`. */
  lemma LineOf(raw: int, extra: int, effective: int, rows: seq<Row>, kind: string, hubs: seq<Hub>, b: string)
    requires raw == Count(rows, kind, b) && extra == Max(0, Get(ExtraTable(hubs), b))
    requires effective == Count(rows, kind, b) + Get(ExtraTable(hubs), b)
    ensures Line(b, Summary(raw, extra, effective)) == ExpectedLine(rows, kind, hubs, b)
  {
  }

  /** The `__str__` line of bucket `b`: `raw+e=effective`, `e` being the bias when
      positive and 0 otherwise. */
  ghost function ExpectedLine(rows: seq<Row>, kind: string, hubs: seq<Hub>, b: string): Line {
    var raw := Count(rows, kind, b);
    var extra := Get(ExtraTable(hubs), b);
    Line(b, Summary(raw, Max(0, extra), raw + extra))
  }

  /** `lines` is the `__str__` report: the expected line of every bucket with rows of
      this kind, once each, in the query's order. */
  ghost predicate Reports(lines: seq<Line>, rows: seq<Row>, kind: string, hubs: seq<Hub>) {
    && (forall i, j :: 0 <= i < j < |lines| ==> lines[i].bucket != lines[j].bucket)
    && (set i | 0 <= i < |lines| :: lines[i].bucket) == Buckets(rows, kind)
    && (forall i :: 0 <= i < |lines| ==> lines[i] == ExpectedLine(rows, kind, hubs, lines[i].bucket))
    && (forall i, j :: 0 <= i < j < |lines| ==>
          Count(rows, kind, lines[i].bucket) <= Count(rows, kind, lines[j].bucket))
  }

  lemma ReportsFromTable(lines: seq<Line>, raw: seq<Entry>, rows: seq<Row>, kind: string, hubs: seq<Hub>)
    requires LoadTable(raw, rows, kind, map[])
    requires |lines| == |raw|
    requires forall j :: 0 <= j < |raw| ==> lines[j] == ExpectedLine(rows, kind, hubs, raw[j].bucket)
    ensures Reports(lines, rows, kind, hubs)
  {
    assert (set i | 0 <= i < |lines| :: lines[i].bucket) == BucketsOf(raw);
  }

  class Sharder {
    const store: Store
    const kind: string
    var hubs: seq<Hub>

    /** Binds the fields; `Open` also seeds the placeholders, as `__init__` does. */
    constructor (store: Store, kind: string, hubs: seq<Hub>)
      ensures this.store == store && this.kind == kind && this.hubs == hubs
    {
      this.store := store;
      this.kind := kind;
      this.hubs := hubs;
    }

    /** `Sharder(engine, kind, hubs, log)`: seeds one placeholder row per hub that has
        none, committing each, then yields the sharder; MultipleResultsFound when a hub
        has more than one placeholder-looking row. */
    static method Open(store: Store, kind: string, hubs: seq<Hub>) returns (r: Result<Sharder, Error>)
      modifies store
      ensures Seeded(store.rows, r.Err?) == Seed(old(store.rows), kind, hubs)
      ensures r.Err? ==> r.error == MultipleResults
      ensures r.Ok? ==> fresh(r.value) && r.value.store == store && r.value.kind == kind && r.value.hubs == hubs
    {
      var i := 0;
      while i < |hubs|
        invariant 0 <= i <= |hubs|
        invariant Seed(store.rows, kind, hubs[i..]) == Seed(old(store.rows), kind, hubs)
      {
        var h := hubs[i].name;
        var n := PlaceholderCount(store.rows, h);
        assert hubs[i..][1..] == hubs[i + 1..];
        if n > 1 {
          return Err(MultipleResults);
        }
        if n == 0 {
          store.Add(Placeholder(kind, h));
        }
        i := i + 1;
      }
      var s := new Sharder(store, kind, hubs);
      r := Ok(s);
    }

    /** The grouped query of `_bucket_count` (GROUP BY bucket, ORDER BY total): per
        bucket, the number of rows of this kind, in ascending order of that number. */
    method GroupedTotals() returns (es: seq<Entry>)
      ensures LoadTable(es, store.rows, kind, map[])
    {
      var counts := CountRows(store.rows, kind);
      es := OrderByTotal(counts);
    }

    /** `_bucket_count(extras)`: the grouped counts, and with `extras` each raised by its
        hub's `extra_shards`, keeping the query's order; KeyError when a bucket with rows
        of this kind is not a configured hub. */
    method BucketCount(extras: bool) returns (r: Result<seq<Entry>, Error>)
      ensures !extras ==> r.Ok? && LoadTable(r.value, store.rows, kind, map[])
      ensures extras ==> (r.Ok? <==> Buckets(store.rows, kind) <= ExtraTable(hubs).Keys)
      ensures extras && r.Ok? ==> LoadTable(r.value, store.rows, kind, ExtraTable(hubs))
      ensures r.Err? ==> r.error == UnknownBucket
    {
      var buckets := GroupedTotals();
      if !extras {
        return Ok(buckets);
      }
      var extra: map<string, int> := map[];
      for i := 0 to |hubs|
        invariant extra == ExtraTable(hubs[..i])
      {
        assert hubs[..i + 1][..i] == hubs[..i];
        extra := extra[hubs[i].name := ExtraOf(hubs[i])];
      }
      assert hubs[..|hubs|] == hubs;
      var raw := buckets;
      for i := 0 to |buckets|
        invariant |buckets| == |raw|
        invariant forall j :: 0 <= j < |raw| ==> buckets[j].bucket == raw[j].bucket
        invariant forall j :: 0 <= j < i ==> raw[j].bucket in extra && buckets[j].total == raw[j].total + extra[raw[j].bucket]
        invariant forall j :: i <= j < |raw| ==> buckets[j] == raw[j]
      {
        var b := buckets[i].bucket;
        if b !in extra {
          assert raw[i].bucket in BucketsOf(raw);
          return Err(UnknownBucket);
        }
        buckets := buckets[i := Entry(b, buckets[i].total + extra[b])];
      }
      assert forall b :: b in BucketsOf(raw) ==> b in extra;
      r := Ok(buckets);
    }

    /** `__str__` without the JSON step: per bucket, `raw+e=effective`. */
    method Describe() returns (r: Result<seq<Line>, Error>)
      ensures EffectiveCounts(store.rows, kind, hubs).Err? ==> r == Err(UnknownBucket)
      ensures EffectiveCounts(store.rows, kind, hubs).Ok? ==> r.Ok? && Reports(r.value, store.rows, kind, hubs)
    {
      var raw := BucketCount(false);
      var eff := BucketCount(true);
      if eff.Err? {
        return Err(eff.error);
      }
      var rawCounter := AsMap(raw.value);
      var effCounter := AsMap(eff.value);
      var extras := Subtract(effCounter, rawCounter);
      ghost var rows := store.rows;
      var lines: seq<Line> := [];
      for i := 0 to |raw.value|
        invariant |lines| == i
        invariant forall j :: 0 <= j < i ==> lines[j] == ExpectedLine(rows, kind, hubs, raw.value[j].bucket)
      {
        var b := raw.value[i].bucket;
        assert b in BucketsOf(raw.value);
        ReportEntry(raw.value, eff.value, rows, kind, hubs, b);
        LineOf(rawCounter[b], Get(extras, b), effCounter[b], rows, kind, hubs, b);
        lines := lines + [Line(b, Summary(rawCounter[b], Get(extras, b), effCounter[b]))];
      }
      ReportsFromTable(lines, raw.value, rows, kind, hubs);
      r := Ok(lines);
    }

    /** `shard(name)`: the bucket of `name`, assigning it to a least-loaded bucket and
        recording that when it has none. */
    method Shard(name: string) returns (r: Result<string, Error>)
      modifies store
      ensures ShardStep(old(store.rows), kind, hubs, name, r, store.rows)
    {
      var q := Find(store.rows, kind, name);
      if q.Some? {
        return Ok(store.rows[q.value].bucket);
      }
      var buckets := BucketCount(true);
      if buckets.Err? {
        return Err(buckets.error);
      }
      LoadTableLoads(buckets.value, store.rows, kind, hubs);
      var k := FirstMinimum(buckets.value);
      if k.None? {
        return Err(NoBuckets);
      }
      var b := buckets.value[k.value].bucket;
      ChoiceIsLeastLoaded(buckets.value, store.rows, kind, hubs, k.value);
      if b != "" {
        store.Add(Row(kind, b, name));
      }
      r := Ok(b);
    }
  }
}
