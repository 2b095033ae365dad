/** What the placeholder rows guarantee across calls. The seeding check looks at bucket
    and name only, while `shard` looks at kind and name; this module relates the two:
    when seeding still keeps (kind, name) unique, a counterexample where it does not,
    and an invariant kept by both operations under which seeding never fails. */
module Consistency {
  import opened Wrappers
  import opened Table
  import opened Seeding
  import opened Sharding

  /** Distinct buckets have distinct placeholder names. */
  lemma DummyInjective(a: string, b: string)
    ensures DummyName(a) == DummyName(b) <==> a == b
  {
    if DummyName(a) == DummyName(b) {
      assert a == DummyName(a)[6..];
      assert b == DummyName(b)[6..];
    }
  }

  /** Seeding keeps (kind, name) unique when every hub it will seed has no row of this
      kind already named like its placeholder. */
  lemma {:induction false} SeedPreservesUnique(rows: seq<Row>, kind: string, hubs: seq<Hub>)
    requires Unique(rows)
    requires forall i :: 0 <= i < |hubs| && PlaceholderCount(rows, hubs[i].name) == 0 ==>
               Find(rows, kind, DummyName(hubs[i].name)).None?
    ensures Unique(Seed(rows, kind, hubs).rows)
    decreases |hubs|
  {
    if hubs != [] {
      var h := hubs[0].name;
      var n := PlaceholderCount(rows, h);
      var rest := hubs[1..];
      if n == 1 {
        forall i | 0 <= i < |rest| && PlaceholderCount(rows, rest[i].name) == 0
          ensures Find(rows, kind, DummyName(rest[i].name)).None?
        {
          assert rest[i] == hubs[i + 1];
        }
        SeedPreservesUnique(rows, kind, rest);
      } else if n == 0 {
        var row := Placeholder(kind, h);
        var rows' := rows + [row];
        assert Find(rows, kind, DummyName(h)).None?;
        forall i, j | 0 <= i < j < |rows'| ensures !Keyed(rows'[j], rows'[i].kind, rows'[i].name) {
          if j == |rows| {
            assert !Keyed(rows[i], kind, DummyName(h));
          }
        }
        forall i | 0 <= i < |rest| && PlaceholderCount(rows', rest[i].name) == 0
          ensures Find(rows', kind, DummyName(rest[i].name)).None?
        {
          var g := rest[i].name;
          assert rest[i] == hubs[i + 1];
          PlaceholderCountAppend(rows, row, g);
          DummyInjective(g, h);
          FindAppend(rows, row, kind, DummyName(g));
        }
        SeedPreservesUnique(rows', kind, rest);
      }
    }
  }

  /** Without that condition seeding can break uniqueness: seed hub `h2`, shard the name
      `dummy-h1` (it goes to `h2`), then open again with hubs `h1`, `h2`. Hub `h1` has no
      placeholder-looking row (the one named `dummy-h1` is in bucket `h2`), so seeding
      adds `(kind, h1, dummy-h1)`, a second row with key (kind, `dummy-h1`). */
  lemma SeedAfterShardBreaksUnique(kind: string, r: Result<string, Error>, rows': seq<Row>)
    requires ShardStep(Seed([], kind, [Hub("h2", None)]).rows, kind, [Hub("h2", None)], "dummy-h1", r, rows')
    ensures r == Ok("h2") && rows' == [Placeholder(kind, "h2"), Row(kind, "h2", "dummy-h1")]
    ensures var s := Seed(rows', kind, [Hub("h1", None), Hub("h2", None)]);
            !s.failed && s.rows == rows' + [Placeholder(kind, "h1")] && !Unique(s.rows)
  {
    ShardDummyName(kind, r, rows');
    SeedSecondHub(kind);
    var s := rows' + [Placeholder(kind, "h1")];
    assert DummyName("h1") == "dummy-h1";
    assert Keyed(s[2], s[1].kind, s[1].name);
  }

  /** First half of the counterexample: the name `dummy-h1` goes to the only hub, `h2`. */
  lemma ShardDummyName(kind: string, r: Result<string, Error>, rows': seq<Row>)
    requires ShardStep(Seed([], kind, [Hub("h2", None)]).rows, kind, [Hub("h2", None)], "dummy-h1", r, rows')
    ensures r == Ok("h2") && rows' == [Placeholder(kind, "h2"), Row(kind, "h2", "dummy-h1")]
  {
    var one := [Hub("h2", None)];
    SeedEmpty(kind, one);
    var rows := Placeholders(kind, one);
    assert rows == [Placeholder(kind, "h2")];
    assert DummyName("h2") != "dummy-h1" by {
      assert DummyName("h2")[7] == '2';
    }
    assert Find(rows, kind, "dummy-h1").None?;
    PlaceholderLoads(kind, one);
    assert EffectiveCounts(rows, kind, one).value.Keys == {"h2"} by {
      assert (set i | 0 <= i < |one| :: one[i].name) == {"h2"};
    }
  }

  /** Second half: opening with hubs `h1`, `h2` on that table seeds `h1` only. */
  lemma SeedSecondHub(kind: string)
    ensures var rows := [Placeholder(kind, "h2"), Row(kind, "h2", "dummy-h1")];
            Seed(rows, kind, [Hub("h1", None), Hub("h2", None)]) == Seeded(rows + [Placeholder(kind, "h1")], false)
  {
    var p2, p1 := Placeholder(kind, "h2"), Placeholder(kind, "h1");
    var row := Row(kind, "h2", "dummy-h1");
    var rows := [p2, row];
    assert DummyName("h2") != "dummy-h1" by {
      assert DummyName("h2")[7] == '2';
    }
    EmptyHasNoPlaceholders("h1");
    EmptyHasNoPlaceholders("h2");
    assert [] + [p2] == [p2] && [p2] + [row] == rows;
    PlaceholderCountAppend([], p2, "h1");
    PlaceholderCountAppend([], p2, "h2");
    PlaceholderCountAppend([p2], row, "h1");
    PlaceholderCountAppend([p2], row, "h2");
    PlaceholderCountAppend(rows, p1, "h2");
    var two := [Hub("h1", None), Hub("h2", None)];
    assert two[1..] == [Hub("h2", None)];
    assert two[1..][1..] == [];
  }

  /** The tables this class produces by itself: no bucket has two placeholder-looking
      rows, and every row's bucket holds the placeholder of the row's kind. */
  ghost predicate Consistent(rows: seq<Row>) {
    && (forall b :: PlaceholderCount(rows, b) <= 1)
    && (forall j :: 0 <= j < |rows| ==> Placeholder(rows[j].kind, rows[j].bucket) in rows)
  }

  /** The empty table is consistent. */
  lemma EmptyConsistent()
    ensures Consistent([])
  {
    forall b ensures PlaceholderCount([], b) <= 1 {
      EmptyHasNoPlaceholders(b);
    }
  }

  /** A `shard` call, of any kind and under any hubs, keeps the table consistent: a bucket
      is a candidate only if it holds a row of this kind, hence this kind's placeholder,
      so a name like that placeholder is found and never inserted a second time. */
  lemma ShardKeepsConsistent(rows: seq<Row>, kind: string, hubs: seq<Hub>, name: string,
                             r: Result<string, Error>, rows': seq<Row>)
    requires Consistent(rows) && ShardStep(rows, kind, hubs, name, r, rows')
    ensures Consistent(rows')
  {
    if rows' != rows {
      var b := r.value;
      var row := Row(kind, b, name);
      assert Find(rows, kind, name).None? && rows' == rows + [row];
      assert b in Buckets(rows, kind);
      var j :| 0 <= j < |rows| && rows[j].kind == kind && rows[j].bucket == b;
      assert Placeholder(kind, b) in rows;
      assert !Keyed(Placeholder(kind, b), kind, name);
      forall c ensures PlaceholderCount(rows', c) <= 1 {
        PlaceholderCountAppend(rows, row, c);
      }
      forall k | 0 <= k < |rows'| ensures Placeholder(rows'[k].kind, rows'[k].bucket) in rows' {
        if k < |rows| {
          assert rows'[k] == rows[k];
        }
      }
    }
  }

  /** Seeding a consistent table, for any kind and hubs, never raises
      MultipleResultsFound and leaves the table consistent. */
  lemma {:induction false} SeedKeepsConsistent(rows: seq<Row>, kind: string, hubs: seq<Hub>)
    requires Consistent(rows)
    ensures !Seed(rows, kind, hubs).failed && Consistent(Seed(rows, kind, hubs).rows)
    decreases |hubs|
  {
    if hubs != [] {
      var h := hubs[0].name;
      assert PlaceholderCount(rows, h) <= 1;
      if PlaceholderCount(rows, h) == 0 {
        var row := Placeholder(kind, h);
        var rows' := rows + [row];
        forall c ensures PlaceholderCount(rows', c) <= 1 {
          PlaceholderCountAppend(rows, row, c);
        }
        forall k | 0 <= k < |rows'| ensures Placeholder(rows'[k].kind, rows'[k].bucket) in rows' {
          if k < |rows| {
            assert rows'[k] == rows[k];
          } else {
            assert rows'[k] == row;
          }
        }
        SeedKeepsConsistent(rows', kind, hubs[1..]);
      } else {
        SeedKeepsConsistent(rows, kind, hubs[1..]);
      }
    }
  }
}
