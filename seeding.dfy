/** Placeholder seeding, the loop in `Sharder.__init__`: for every configured hub, one
    row `dummy-<hub>` so that an empty bucket still shows up in the grouped count. */
module Seeding {
  import opened Table

  /** The table after seeding, and whether seeding stopped with MultipleResultsFound.
      Rows committed before the failure stay in the table. */
  datatype Seeded = Seeded(rows: seq<Row>, failed: bool)

  /** Seeding `rows` for the hubs in order. The existence check looks at bucket and name
      only, so a placeholder written under another kind counts; `.scalar()` raises when
      more than one row matches. The row it adds carries this sharder's kind. */
  ghost function Seed(rows: seq<Row>, kind: string, hubs: seq<Hub>): Seeded
    decreases |hubs|
  {
    if hubs == [] then Seeded(rows, false)
    else
      var n := PlaceholderCount(rows, hubs[0].name);
      if n > 1 then Seeded(rows, true)
      else if n == 1 then Seed(rows, kind, hubs[1..])
      else Seed(rows + [Placeholder(kind, hubs[0].name)], kind, hubs[1..])
  }

  /** Seeding only appends, and every row it appends is the placeholder, of this kind,
      of a hub that had no placeholder row before. */
  lemma {:induction false} SeedAppendsPlaceholders(rows: seq<Row>, kind: string, hubs: seq<Hub>)
    ensures var s := Seed(rows, kind, hubs).rows;
      |rows| <= |s| && s[..|rows|] == rows &&
      forall j :: |rows| <= j < |s| ==>
        exists i :: 0 <= i < |hubs| && s[j] == Placeholder(kind, hubs[i].name) && PlaceholderCount(rows, hubs[i].name) == 0
    decreases |hubs|
  {
    if hubs != [] {
      var h := hubs[0].name;
      var n := PlaceholderCount(rows, h);
      var s := Seed(rows, kind, hubs).rows;
      if n == 1 {
        SeedAppendsPlaceholders(rows, kind, hubs[1..]);
        forall j | |rows| <= j < |s|
          ensures exists i :: 0 <= i < |hubs| && s[j] == Placeholder(kind, hubs[i].name) && PlaceholderCount(rows, hubs[i].name) == 0
        {
          var i :| 0 <= i < |hubs[1..]| && s[j] == Placeholder(kind, hubs[1..][i].name) && PlaceholderCount(rows, hubs[1..][i].name) == 0;
          assert hubs[1..][i] == hubs[i + 1];
        }
      } else if n == 0 {
        var rows1 := rows + [Placeholder(kind, h)];
        SeedAppendsPlaceholders(rows1, kind, hubs[1..]);
        assert s[..|rows1|] == rows1;
        assert s[..|rows|] == rows1[..|rows|];
        forall j | |rows| <= j < |s|
          ensures exists i :: 0 <= i < |hubs| && s[j] == Placeholder(kind, hubs[i].name) && PlaceholderCount(rows, hubs[i].name) == 0
        {
          if j == |rows| {
            assert s[j] == rows1[j];
          } else {
            var i :| 0 <= i < |hubs[1..]| && s[j] == Placeholder(kind, hubs[1..][i].name) && PlaceholderCount(rows1, hubs[1..][i].name) == 0;
            assert hubs[1..][i] == hubs[i + 1];
            PlaceholderCountAppend(rows, Placeholder(kind, h), hubs[i + 1].name);
          }
        }
      }
    }
  }

  /** A bucket that already had a placeholder row keeps exactly as many. */
  lemma {:induction false} SeedKeepsExisting(rows: seq<Row>, kind: string, hubs: seq<Hub>, b: string)
    requires PlaceholderCount(rows, b) > 0
    ensures PlaceholderCount(Seed(rows, kind, hubs).rows, b) == PlaceholderCount(rows, b)
    decreases |hubs|
  {
    if hubs != [] {
      var h := hubs[0].name;
      var n := PlaceholderCount(rows, h);
      if n == 1 {
        SeedKeepsExisting(rows, kind, hubs[1..], b);
      } else if n == 0 {
        PlaceholderCountAppend(rows, Placeholder(kind, h), b);
        SeedKeepsExisting(rows + [Placeholder(kind, h)], kind, hubs[1..], b);
      }
    }
  }

  /** Seeding fails exactly when some hub already had more than one placeholder row. */
  lemma {:induction false} SeedFails(rows: seq<Row>, kind: string, hubs: seq<Hub>)
    ensures Seed(rows, kind, hubs).failed <==> exists i :: 0 <= i < |hubs| && PlaceholderCount(rows, hubs[i].name) > 1
    decreases |hubs|
  {
    if hubs != [] {
      var h := hubs[0].name;
      var n := PlaceholderCount(rows, h);
      if n <= 1 {
        var rows1 := if n == 0 then rows + [Placeholder(kind, h)] else rows;
        SeedFails(rows1, kind, hubs[1..]);
        forall i | 0 < i < |hubs|
          ensures PlaceholderCount(rows1, hubs[i].name) > 1 <==> PlaceholderCount(rows, hubs[i].name) > 1
        {
          PlaceholderCountAppend(rows, Placeholder(kind, h), hubs[i].name);
        }
        if exists i :: 0 <= i < |hubs| && PlaceholderCount(rows, hubs[i].name) > 1 {
          var i :| 0 <= i < |hubs| && PlaceholderCount(rows, hubs[i].name) > 1;
          assert hubs[1..][i - 1] == hubs[i];
        }
        if Seed(rows1, kind, hubs[1..]).failed {
          var i :| 0 <= i < |hubs[1..]| && PlaceholderCount(rows1, hubs[1..][i].name) > 1;
          assert hubs[1..][i] == hubs[i + 1];
        }
      }
    }
  }

  /** After a seeding that did not fail, every hub has exactly one placeholder row. */
  lemma {:induction false} SeedCovers(rows: seq<Row>, kind: string, hubs: seq<Hub>)
    ensures !Seed(rows, kind, hubs).failed ==>
      forall i :: 0 <= i < |hubs| ==> PlaceholderCount(Seed(rows, kind, hubs).rows, hubs[i].name) == 1
    decreases |hubs|
  {
    if hubs != [] && !Seed(rows, kind, hubs).failed {
      var h := hubs[0].name;
      var n := PlaceholderCount(rows, h);
      var rows1 := if n == 0 then rows + [Placeholder(kind, h)] else rows;
      PlaceholderCountAppend(rows, Placeholder(kind, h), h);
      SeedCovers(rows1, kind, hubs[1..]);
      SeedKeepsExisting(rows1, kind, hubs[1..], h);
      forall i | 0 < i < |hubs| ensures PlaceholderCount(Seed(rows, kind, hubs).rows, hubs[i].name) == 1 {
        assert hubs[1..][i - 1] == hubs[i];
      }
    }
  }

  /** Seeding a table in which every hub already has exactly one placeholder does nothing. */
  lemma {:induction false} SeedNothingToDo(rows: seq<Row>, kind: string, hubs: seq<Hub>)
    requires forall i :: 0 <= i < |hubs| ==> PlaceholderCount(rows, hubs[i].name) == 1
    ensures Seed(rows, kind, hubs) == Seeded(rows, false)
    decreases |hubs|
  {
    if hubs != [] {
      forall i | 0 <= i < |hubs[1..]| ensures PlaceholderCount(rows, hubs[1..][i].name) == 1 {
        assert hubs[1..][i] == hubs[i + 1];
      }
      SeedNothingToDo(rows, kind, hubs[1..]);
    }
  }

  /** Constructing a second sharder over the same table and hubs, for this kind or any
      other, adds no rows and does not fail. */
  lemma SeedIdempotent(rows: seq<Row>, kind: string, other: string, hubs: seq<Hub>)
    requires !Seed(rows, kind, hubs).failed
    ensures Seed(Seed(rows, kind, hubs).rows, other, hubs) == Seeded(Seed(rows, kind, hubs).rows, false)
  {
    SeedCovers(rows, kind, hubs);
    SeedNothingToDo(Seed(rows, kind, hubs).rows, other, hubs);
  }

  /** One placeholder per hub, in hub order. */
  function Placeholders(kind: string, hubs: seq<Hub>): seq<Row> {
    seq(|hubs|, i requires 0 <= i < |hubs| => Placeholder(kind, hubs[i].name))
  }

  /** When no hub has a placeholder yet and hub names are distinct, seeding appends one
      placeholder per hub in order. */
  lemma {:induction false} SeedFresh(rows: seq<Row>, kind: string, hubs: seq<Hub>)
    requires DistinctNames(hubs)
    requires forall i :: 0 <= i < |hubs| ==> PlaceholderCount(rows, hubs[i].name) == 0
    ensures Seed(rows, kind, hubs) == Seeded(rows + Placeholders(kind, hubs), false)
    decreases |hubs|
  {
    if hubs == [] {
      assert rows + Placeholders(kind, hubs) == rows;
    } else {
      var h := hubs[0].name;
      var rows1 := rows + [Placeholder(kind, h)];
      forall i | 0 <= i < |hubs[1..]| ensures PlaceholderCount(rows1, hubs[1..][i].name) == 0 {
        assert hubs[1..][i] == hubs[i + 1];
        PlaceholderCountAppend(rows, Placeholder(kind, h), hubs[i + 1].name);
      }
      SeedFresh(rows1, kind, hubs[1..]);
      assert rows1 + Placeholders(kind, hubs[1..]) == rows + Placeholders(kind, hubs);
    }
  }

  lemma EmptyHasNoPlaceholders(b: string)
    ensures PlaceholderCount([], b) == 0
  {
    var rows: seq<Row> := [];
    assert (set i | 0 <= i < |rows| && rows[i].bucket == b && rows[i].name == DummyName(b)) == {};
  }

  /** Seeding an empty table with distinct hub names appends one placeholder per hub. */
  lemma SeedEmpty(kind: string, hubs: seq<Hub>)
    requires DistinctNames(hubs)
    ensures Seed([], kind, hubs) == Seeded(Placeholders(kind, hubs), false)
  {
    forall i | 0 <= i < |hubs| ensures PlaceholderCount([], hubs[i].name) == 0 {
      EmptyHasNoPlaceholders(hubs[i].name);
    }
    SeedFresh([], kind, hubs);
    assert [] + Placeholders(kind, hubs) == Placeholders(kind, hubs);
  }

  lemma PlaceholdersCount(kind: string, hubs: seq<Hub>, i: nat)
    requires DistinctNames(hubs) && i < |hubs|
    ensures Count(Placeholders(kind, hubs), kind, hubs[i].name) == 1
  {
    var p := Placeholders(kind, hubs);
    assert (set j | 0 <= j < |p| && p[j].kind == kind && p[j].bucket == hubs[i].name) == {i};
  }

  /** In a table holding just the placeholders, every hub's effective count is 1 plus
      its bias, and no other bucket appears. */
  lemma PlaceholderLoads(kind: string, hubs: seq<Hub>)
    requires DistinctNames(hubs)
    ensures var loads := EffectiveCounts(Placeholders(kind, hubs), kind, hubs);
      loads.Ok? && loads.value.Keys == (set i | 0 <= i < |hubs| :: hubs[i].name) &&
      forall i :: 0 <= i < |hubs| ==> loads.value[hubs[i].name] == 1 + ExtraOf(hubs[i])
  {
    var p := Placeholders(kind, hubs);
    ExtraTableDistinct(hubs);
    assert Buckets(p, kind) == set i | 0 <= i < |hubs| :: hubs[i].name by {
      forall i | 0 <= i < |hubs| ensures hubs[i].name in Buckets(p, kind) {
        assert p[i].kind == kind && p[i].bucket == hubs[i].name;
      }
    }
    forall i | 0 <= i < |hubs| ensures Count(p, kind, hubs[i].name) == 1 {
      PlaceholdersCount(kind, hubs, i);
    }
  }
}
