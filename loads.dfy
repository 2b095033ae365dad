/** The balancing argument behind `shard`, stated on load maps alone: a greedy run
    gives each pick to a bucket of least load. The main fact (Fill) is that such a run
    tops the loads up toward a common level without overshooting it; an even split with
    remainder and the catch-up after an offset follow from it. */
module Loads {
  import opened Table

  ghost predicate Distinct(s: seq<string>) {
    forall i, j :: 0 <= i < j < |s| ==> s[i] != s[j]
  }

  /** `keys` lists the keys of `m`, each once. */
  ghost predicate Lists(keys: seq<string>, m: map<string, int>) {
    && Distinct(keys)
    && forall b :: b in m <==> b in keys
  }

  function Total(keys: seq<string>, m: map<string, int>): int
    requires forall b :: b in keys ==> b in m
  {
    if keys == [] then 0 else m[keys[0]] + Total(keys[1..], m)
  }

  /** How many of `keys` map to `v`. */
  function NumAt(keys: seq<string>, m: map<string, int>, v: int): nat
    requires forall b :: b in keys ==> b in m
  {
    if keys == [] then 0 else (if m[keys[0]] == v then 1 else 0) + NumAt(keys[1..], m, v)
  }

  /** Every load raised to at least `level`. */
  function Raise(m: map<string, int>, level: int): map<string, int> {
    map b | b in m :: Max(m[b], level)
  }

  /** Each load lies between its start value and the target level (or its start value
      when that is already above the level). */
  ghost predicate Between(loads: map<string, int>, start: map<string, int>, level: int) {
    && loads.Keys == start.Keys
    && forall b :: b in start ==> start[b] <= loads[b] <= Max(start[b], level)
  }

  /** One greedy pick: `b` has a least load in `before`, and `after` is `before` with
      the load of `b` one higher. */
  ghost predicate Pick(before: map<string, int>, b: string, after: map<string, int>) {
    && b in before
    && (forall c :: c in before ==> before[b] <= before[c])
    && after == before[b := before[b] + 1]
  }

  ghost predicate PickAt(ls: seq<map<string, int>>, picks: seq<string>, i: nat)
    requires i < |picks| && |ls| == |picks| + 1
  {
    Pick(ls[i], picks[i], ls[i + 1])
  }

  /** `ls[i + 1]` is `ls[i]` after the greedy pick `picks[i]`. */
  ghost predicate Greedy(ls: seq<map<string, int>>, picks: seq<string>) {
    && |ls| == |picks| + 1
    && forall i: nat :: i < |picks| ==> PickAt(ls, picks, i)
  }

  /** Picks never add or remove buckets. */
  lemma {:induction false} GreedyKeys(ls: seq<map<string, int>>, picks: seq<string>, i: nat)
    requires Greedy(ls, picks) && i <= |picks|
    ensures ls[i].Keys == ls[0].Keys
  {
    if i > 0 {
      GreedyKeys(ls, picks, i - 1);
      assert PickAt(ls, picks, i - 1);
    }
  }

  lemma {:induction false} TotalAgree(keys: seq<string>, m: map<string, int>, m': map<string, int>)
    requires forall b :: b in keys ==> b in m && b in m' && m[b] == m'[b]
    ensures Total(keys, m) == Total(keys, m')
    ensures forall v :: NumAt(keys, m, v) == NumAt(keys, m', v)
  {
    if keys != [] {
      TotalAgree(keys[1..], m, m');
    }
  }

  lemma {:induction false} TotalAdd(keys: seq<string>, m: map<string, int>, b: string, x: int)
    requires Distinct(keys) && b in keys
    requires forall c :: c in keys ==> c in m
    ensures Total(keys, m[b := m[b] + x]) == Total(keys, m) + x
  {
    var m' := m[b := m[b] + x];
    if keys[0] == b {
      assert b !in keys[1..] by {
        forall j | 0 <= j < |keys[1..]| ensures keys[1..][j] != b {
          assert keys[1..][j] == keys[j + 1];
        }
      }
      TotalAgree(keys[1..], m', m);
    } else {
      assert Distinct(keys[1..]) by {
        forall i, j | 0 <= i < j < |keys[1..]| ensures keys[1..][i] != keys[1..][j] {
          assert keys[1..][i] == keys[i + 1] && keys[1..][j] == keys[j + 1];
        }
      }
      TotalAdd(keys[1..], m, b, x);
    }
  }

  /** Pointwise smaller loads have a smaller total, strictly so exactly when some load
      is strictly smaller. */
  lemma {:induction false} TotalMono(keys: seq<string>, m: map<string, int>, M: map<string, int>)
    requires forall b :: b in keys ==> b in m && b in M && m[b] <= M[b]
    ensures Total(keys, m) <= Total(keys, M)
    ensures Total(keys, m) < Total(keys, M) <==> exists b :: b in keys && m[b] < M[b]
  {
    if keys != [] {
      TotalMono(keys[1..], m, M);
      if m[keys[0]] == M[keys[0]] {
        forall b | b in keys && m[b] < M[b] ensures b in keys[1..] {
        }
      }
    }
  }

  lemma {:induction false} TotalConst(keys: seq<string>, m: map<string, int>, c: int)
    requires forall b :: b in keys ==> b in m && m[b] == c
    ensures Total(keys, m) == |keys| * c
  {
    if keys != [] {
      TotalConst(keys[1..], m, c);
      assert |keys| * c == c + |keys[1..]| * c;
    }
  }

  /** Loads on two adjacent levels: the total counts how many sit on the upper one. */
  lemma {:induction false} TotalTwoLevels(keys: seq<string>, m: map<string, int>, lo: int)
    requires forall b :: b in keys ==> b in m && (m[b] == lo || m[b] == lo + 1)
    ensures Total(keys, m) == |keys| * lo + NumAt(keys, m, lo + 1)
  {
    if keys != [] {
      TotalTwoLevels(keys[1..], m, lo);
      assert |keys| * lo == lo + |keys[1..]| * lo;
    }
  }

  lemma {:induction false} NumAtNone(keys: seq<string>, m: map<string, int>, v: int)
    requires forall b :: b in keys ==> b in m
    ensures NumAt(keys, m, v) == 0 <==> forall b :: b in keys ==> m[b] != v
  {
    if keys != [] {
      NumAtNone(keys[1..], m, v);
    }
  }

  lemma {:induction false} NumAtShift(keys: seq<string>, m: map<string, int>, m': map<string, int>, d: int, v: int)
    requires forall b :: b in keys ==> b in m && b in m' && m'[b] == m[b] + d
    ensures NumAt(keys, m', v + d) == NumAt(keys, m, v)
  {
    if keys != [] {
      NumAtShift(keys[1..], m, m', d, v);
    }
  }

  lemma LevelGap(w: int, base: int, q: int)
    ensures w * (base + q) - w * base == w * q
  {
    calc {
      w * (base + q);
      w * base + w * q;
    }
  }

  lemma Quotient(n: nat, w: nat)
    requires w > 0
    ensures 0 <= n / w && 0 <= n % w < w && 0 <= w * (n / w) <= n && n == w * (n / w) + n % w
  {
  }

  lemma OffsetGap(w: int, base: int, d: int)
    ensures w * (base + d) - (w * base + d) == d * (w - 1)
  {
    calc {
      w * (base + d);
      w * base + w * d;
    }
    calc {
      d * (w - 1);
      d * w - d;
    }
  }

  /** The central balance fact. The k greedy picks after step s, where k is at most what
      it takes to raise every load of `ls[s]` to `level`, only go where they are needed:
      each load ends between its value at step s and the level, and the total grows by
      exactly k. */
  lemma {:induction false} Fill(ls: seq<map<string, int>>, picks: seq<string>, keys: seq<string>,
                                level: int, s: nat, k: nat)
    requires Greedy(ls, picks) && s + k <= |picks| && Lists(keys, ls[s])
    requires k <= Total(keys, Raise(ls[s], level)) - Total(keys, ls[s])
    ensures Between(ls[s + k], ls[s], level) && Total(keys, ls[s + k]) == Total(keys, ls[s]) + k
  {
    if k == 0 {
      return;
    }
    Fill(ls, picks, keys, level, s, k - 1);
    assert PickAt(ls, picks, s + k - 1);
    FillStep(keys, ls[s], ls[s + k - 1], picks[s + k - 1], level, ls[s + k], k);
  }

  /** Pick number k of a run that needs at least k: the picked bucket is below the level,
      so the loads stay between start and level and the total grows by one. */
  lemma FillStep(keys: seq<string>, start: map<string, int>, loads: map<string, int>, b: string,
                 level: int, next: map<string, int>, k: nat)
    requires Lists(keys, start) && Between(loads, start, level)
    requires 0 < k <= Total(keys, Raise(start, level)) - Total(keys, start)
    requires Total(keys, loads) == Total(keys, start) + k - 1
    requires Pick(loads, b, next)
    ensures Between(next, start, level) && Total(keys, next) == Total(keys, start) + k
  {
    PickBelow(keys, start, loads, b, level);
    TotalAdd(keys, loads, b, 1);
  }

  /** While some load is below its target, a least load is below the level. */
  lemma PickBelow(keys: seq<string>, start: map<string, int>, loads: map<string, int>, b: string, level: int)
    requires Lists(keys, start) && Between(loads, start, level)
    requires Total(keys, loads) < Total(keys, Raise(start, level))
    requires b in loads && forall c :: c in loads ==> loads[b] <= loads[c]
    ensures loads[b] < level
  {
    var target := Raise(start, level);
    TotalMono(keys, loads, target);
    var c :| c in keys && loads[c] < target[c];
    assert loads[b] <= loads[c];
  }

  /** Exactly as many greedy picks as it takes bring every load to the level. */
  lemma FillComplete(ls: seq<map<string, int>>, picks: seq<string>, keys: seq<string>, level: int, s: nat, k: nat)
    requires Greedy(ls, picks) && s + k <= |picks| && Lists(keys, ls[s])
    requires k == Total(keys, Raise(ls[s], level)) - Total(keys, ls[s])
    ensures Lists(keys, ls[s + k])
    ensures forall b :: b in ls[s] ==> ls[s + k][b] == Max(ls[s][b], level)
  {
    Fill(ls, picks, keys, level, s, k);
    TotalMono(keys, ls[s + k], Raise(ls[s], level));
  }

  /** From equal loads, N greedy picks over B buckets give every bucket N / B or N / B + 1
      of them, exactly N % B buckets getting the larger share. */
  lemma EvenSplit(ls: seq<map<string, int>>, picks: seq<string>, keys: seq<string>, base: int, q: int, r: int)
    requires Greedy(ls, picks) && Lists(keys, ls[0]) && |keys| > 0
    requires forall b :: b in ls[0] ==> ls[0][b] == base
    requires q == |picks| / |keys| && r == |picks| % |keys|
    ensures ls[|picks|].Keys == ls[0].Keys
    ensures forall b :: b in ls[|picks|] ==> ls[|picks|][b] == base + q || ls[|picks|][b] == base + q + 1
    ensures NumAt(keys, ls[|picks|], base + q + 1) == r
  {
    var n, w := |picks|, |keys|;
    Quotient(n, w);
    var m := w * q;
    TotalConst(keys, ls[0], base);
    TotalConst(keys, Raise(ls[0], base + q), base + q);
    LevelGap(w, base, q);
    FillComplete(ls, picks, keys, base + q, 0, m);
    TotalConst(keys, ls[m], base + q);
    TotalConst(keys, Raise(ls[m], base + q + 1), base + q + 1);
    LevelGap(w, base + q, 1);
    Fill(ls, picks, keys, base + q + 1, m, r);
    assert m + r == n;
    TotalTwoLevels(keys, ls[n], base + q);
  }

  /** The same split seen on counts that lie a constant `base` below the loads. */
  lemma EvenSplitBelow(ls: seq<map<string, int>>, picks: seq<string>, keys: seq<string>,
                       size: map<string, int>, base: int, q: int, r: int)
    requires Greedy(ls, picks) && Lists(keys, ls[0]) && |keys| > 0
    requires forall b :: b in ls[0] ==> ls[0][b] == base
    requires q == |picks| / |keys| && r == |picks| % |keys|
    requires forall b :: b in size <==> b in keys
    requires forall b :: b in keys ==> b in ls[|picks|] && b in size && ls[|picks|][b] == size[b] + base
    ensures forall b :: b in size ==> size[b] == q || size[b] == q + 1
    ensures NumAt(keys, size, q + 1) == r
  {
    EvenSplit(ls, picks, keys, base, q, r);
    NumAtShift(keys, size, ls[|picks|], base, q + 1);
    assert base + q + 1 == q + 1 + base;
  }

  /** From equal loads but one bucket `heavy` d ahead, the next d * (B - 1) greedy picks
      go to the other buckets, d to each, and the B picks after that one to each bucket. */
  lemma CatchUp(ls: seq<map<string, int>>, picks: seq<string>, keys: seq<string>,
                base: int, heavy: string, d: nat, k: nat)
    requires Greedy(ls, picks) && Lists(keys, ls[0])
    requires heavy in ls[0] && ls[0][heavy] == base + d
    requires forall b :: b in ls[0] && b != heavy ==> ls[0][b] == base
    requires k == d * (|keys| - 1) && |picks| == k + |keys|
    ensures ls[k].Keys == ls[0].Keys
    ensures forall b :: b in ls[0] ==> ls[k][b] == ls[0][b] + (if b == heavy then 0 else d)
    ensures ls[k + |keys|].Keys == ls[0].Keys
    ensures forall b :: b in ls[0] ==> ls[k + |keys|][b] == ls[0][b] + (if b == heavy then 1 else d + 1)
  {
    var w := |keys|;
    assert heavy in keys;
    TotalOneAhead(keys, ls[0], base, heavy, d);
    TotalConst(keys, Raise(ls[0], base + d), base + d);
    OffsetGap(w, base, d);
    FillComplete(ls, picks, keys, base + d, 0, k);
    TotalConst(keys, ls[k], base + d);
    TotalConst(keys, Raise(ls[k], base + d + 1), base + d + 1);
    LevelGap(w, base + d, 1);
    FillComplete(ls, picks, keys, base + d + 1, k, w);
  }

  /** CatchUp read as levels: after the first k picks every load is level with `heavy`,
      and after the next B one higher. */
  lemma CatchUpLevels(ls: seq<map<string, int>>, picks: seq<string>, keys: seq<string>,
                      base: int, heavy: string, d: nat, k: nat)
    requires Greedy(ls, picks) && Lists(keys, ls[0])
    requires heavy in ls[0] && ls[0][heavy] == base + d
    requires forall b :: b in ls[0] && b != heavy ==> ls[0][b] == base
    requires k == d * (|keys| - 1) && |picks| == k + |keys|
    ensures Lists(keys, ls[k]) && forall b :: b in ls[k] ==> ls[k][b] == base + d
    ensures Lists(keys, ls[|picks|]) && forall b :: b in ls[|picks|] ==> ls[|picks|][b] == base + d + 1
  {
    CatchUp(ls, picks, keys, base, heavy, d, k);
  }

  /** EvenSplit when B divides N: every load ends at the same level. */
  lemma EvenLevels(ls: seq<map<string, int>>, picks: seq<string>, keys: seq<string>, base: int, q: int)
    requires Greedy(ls, picks) && Lists(keys, ls[0]) && |keys| > 0
    requires forall b :: b in ls[0] ==> ls[0][b] == base
    requires q == |picks| / |keys| && |picks| % |keys| == 0
    ensures Lists(keys, ls[|picks|]) && forall b :: b in ls[|picks|] ==> ls[|picks|][b] == base + q
  {
    EvenSplit(ls, picks, keys, base, q, 0);
    NumAtNone(keys, ls[|picks|], base + q + 1);
    forall b | b in ls[|picks|] ensures ls[|picks|][b] == base + q {
      assert b in keys;
    }
  }

  /** Equal loads but one, d higher: the total is B times the common load plus d. */
  lemma {:induction false} TotalOneAhead(keys: seq<string>, m: map<string, int>, base: int, heavy: string, d: int)
    requires Distinct(keys) && heavy in keys
    requires forall b :: b in keys ==> b in m && m[b] == (if b == heavy then base + d else base)
    ensures Total(keys, m) == |keys| * base + d
  {
    if keys[0] == heavy {
      assert heavy !in keys[1..] by {
        forall j | 0 <= j < |keys[1..]| ensures keys[1..][j] != heavy {
          assert keys[1..][j] == keys[j + 1];
        }
      }
      TotalConst(keys[1..], m, base);
    } else {
      assert Distinct(keys[1..]) by {
        forall i, j | 0 <= i < j < |keys[1..]| ensures keys[1..][i] != keys[1..][j] {
          assert keys[1..][i] == keys[i + 1] && keys[1..][j] == keys[j + 1];
        }
      }
      TotalOneAhead(keys[1..], m, base, heavy, d);
    }
    assert |keys| * base == base + |keys[1..]| * base;
  }
}
