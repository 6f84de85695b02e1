/** Bags of values gathered from the series of a metric, and their folds. */
module Grouping {
  import opened Options

  // ---------------------------------------------------------------- gathering

  /** What series `k` brings to group `g`. */
  ghost function Part<K, G(!new)>(m: map<K, seq<int>>, f: K -> Option<G>, g: G, k: K): multiset<int>
    requires k in m
  {
    if f(k) == Some(g) then multiset(m[k]) else multiset{}
  }

  /** The bag of all values whose series `f` sends to group `g`. */
  ghost function Bag<K, G(!new)>(m: map<K, seq<int>>, f: K -> Option<G>, g: G): multiset<int>
    decreases |m|
  {
    if |m| == 0 then multiset{}
    else
      var k :| k in m;
      Part(m, f, g, k) + Bag(m - {k}, f, g)
  }

  /** The order in which series are visited does not matter. */
  lemma {:induction false} BagRemove<K, G(!new)>(m: map<K, seq<int>>, f: K -> Option<G>, g: G, k: K)
    requires k in m
    ensures Bag(m, f, g) == Part(m, f, g, k) + Bag(m - {k}, f, g)
    decreases |m|
  {
    var k0 := Picked(m, f, g);
    if k0 != k {
      MinusTwo(m, k, k0);
      BagRemove(m - {k0}, f, g, k);
      BagRemove(m - {k}, f, g, k0);
      Exchange(Bag(m, f, g), Part(m, f, g, k0), Bag(m - {k0}, f, g), Part(m, f, g, k), Bag(m - {k0} - {k}, f, g),
               Bag(m - {k}, f, g));
    }
  }

  lemma MinusTwo<K>(m: map<K, seq<int>>, k: K, k0: K)
    requires k in m && k0 in m && k != k0
    ensures k in m - {k0} && (m - {k0})[k] == m[k] && |m - {k0}| < |m|
    ensures k0 in m - {k} && (m - {k})[k0] == m[k0] && |m - {k}| < |m|
    ensures m - {k0} - {k} == m - {k} - {k0}
  {
    assert (m - {k0}).Keys == m.Keys - {k0} && (m - {k}).Keys == m.Keys - {k};
  }

  lemma Exchange(
      all: multiset<int>, a: multiset<int>, rest: multiset<int>, b: multiset<int>, c: multiset<int>, other: multiset<int>)
    requires all == a + rest && rest == b + c && other == a + c
    ensures all == b + other
  {
  }

  /** The series `Bag` takes first. */
  lemma Picked<K, G(!new)>(m: map<K, seq<int>>, f: K -> Option<G>, g: G) returns (k: K)
    requires |m| > 0
    ensures k in m && Bag(m, f, g) == Part(m, f, g, k) + Bag(m - {k}, f, g)
  {
    k :| k in m && Bag(m, f, g) == Part(m, f, g, k) + Bag(m - {k}, f, g);
  }

  /** Adding or replacing one series. */
  lemma BagUpdate<K, G(!new)>(m: map<K, seq<int>>, f: K -> Option<G>, g: G, k: K, v: seq<int>)
    ensures Bag(m[k := v], f, g) == (if f(k) == Some(g) then multiset(v) else multiset{}) + Bag(m - {k}, f, g)
  {
    BagRemove(m[k := v], f, g, k);
    assert m[k := v] - {k} == m - {k};
  }

  /** The bag with and without series `k`, which may be missing. */
  lemma BagWithout<K, G(!new)>(m: map<K, seq<int>>, f: K -> Option<G>, g: G, k: K)
    ensures Bag(m, f, g) == (if f(k) == Some(g) then multiset(Get(m, k)) else multiset{}) + Bag(m - {k}, f, g)
  {
    if k in m {
      BagRemove(m, f, g, k);
    } else {
      assert m - {k} == m;
    }
  }

  /** Extending the list of one series by `v` adds the bag of `v` to its group. */
  lemma BagAppend<K, G(!new)>(m: map<K, seq<int>>, f: K -> Option<G>, g: G, k: K, v: seq<int>)
    ensures Bag(m[k := Get(m, k) + v], f, g) ==
            Bag(m, f, g) + (if f(k) == Some(g) then multiset(v) else multiset{})
  {
    var xs := Get(m, k);
    BagUpdate(m, f, g, k, xs + v);
    BagWithout(m, f, g, k);
    Appended(multiset(xs), multiset(v), multiset(xs + v), Bag(m - {k}, f, g));
  }

  lemma Appended(a: multiset<int>, b: multiset<int>, ab: multiset<int>, c: multiset<int>)
    requires ab == a + b
    ensures ab + c == a + c + b
  {
  }

  /** The list of a series, empty if it is missing. */
  function Get<K(==)>(m: map<K, seq<int>>, k: K): seq<int> {
    if k in m then m[k] else []
  }

  /** A group is empty when no series goes to it. */
  lemma {:induction false} BagEmpty<K, G(!new)>(m: map<K, seq<int>>, f: K -> Option<G>, g: G)
    ensures Bag(m, f, g) == multiset{} <==> forall k :: k in m && f(k) == Some(g) ==> m[k] == []
    decreases |m|
  {
    if |m| > 0 {
      var k :| k in m;
      BagRemove(m, f, g, k);
      BagEmpty(m - {k}, f, g);
      if m[k] != [] { assert m[k][0] in multiset(m[k]); }
      assert forall k' :: k' in m ==> k' == k || k' in m - {k};
    }
  }

  /** Two ways of grouping that agree on the series of `m` gather the same. */
  lemma {:induction false} BagSame<K, G(!new)>(m: map<K, seq<int>>, f: K -> Option<G>, f': K -> Option<G>, g: G)
    requires forall k :: k in m ==> f(k) == f'(k)
    ensures Bag(m, f, g) == Bag(m, f', g)
    decreases |m|
  {
    if |m| > 0 {
      var k :| k in m;
      BagRemove(m, f, g, k);
      BagRemove(m, f', g, k);
      BagSame(m - {k}, f, f', g);
    }
  }

  // ---------------------------------------------------------------- folding

  /** The reductions that compose from level to level. */
  datatype Fold = AddUp | TakeMax

  function Combine(o: Fold, a: int, b: int): int {
    match o
    case AddUp => a + b
    case TakeMax => if a < b then b else a
  }

  lemma Inhabited(b: multiset<int>)
    ensures b == multiset{} || exists x :: x in b
  {
    if forall x :: x !in b {
      assert b == multiset{};
    }
  }

  /** The fold of a bag, starting from zero. */
  ghost function FoldBag(o: Fold, b: multiset<int>): int
    decreases |b|
  {
    if b == multiset{} then 0
    else
      Inhabited(b);
      var x :| x in b;
      Combine(o, FoldBag(o, b - multiset{x}), x)
  }

  lemma {:induction false} FoldRemove(o: Fold, b: multiset<int>, x: int)
    requires x in b
    ensures FoldBag(o, b) == Combine(o, FoldBag(o, b - multiset{x}), x)
    decreases |b|
  {
    var y := Taken(o, b);
    if x != y {
      var rest := TakeTwo(b, x, y);
      FoldRemove(o, b - multiset{y}, x);
      FoldRemove(o, b - multiset{x}, y);
    }
  }

  lemma TakeTwo(b: multiset<int>, x: int, y: int) returns (rest: multiset<int>)
    requires x in b && y in b && x != y
    ensures x in b - multiset{y} && y in b - multiset{x}
    ensures rest == b - multiset{y} - multiset{x} == b - multiset{x} - multiset{y}
  {
    rest := b - multiset{y} - multiset{x};
  }

  /** The element `FoldBag` takes first. */
  lemma Taken(o: Fold, b: multiset<int>) returns (x: int)
    requires b != multiset{}
    ensures x in b && FoldBag(o, b) == Combine(o, FoldBag(o, b - multiset{x}), x)
  {
    Inhabited(b);
    x :| x in b && FoldBag(o, b) == Combine(o, FoldBag(o, b - multiset{x}), x);
  }

  lemma FoldInsert(o: Fold, b: multiset<int>, x: int)
    ensures FoldBag(o, b + multiset{x}) == Combine(o, FoldBag(o, b), x)
  {
    FoldRemove(o, b + multiset{x}, x);
    assert b + multiset{x} - multiset{x} == b;
  }

  lemma {:induction false} MaxNotNegative(b: multiset<int>)
    ensures FoldBag(TakeMax, b) >= 0
    decreases |b|
  {
    if b != multiset{} {
      Inhabited(b);
      var x :| x in b;
      FoldRemove(TakeMax, b, x);
      MaxNotNegative(b - multiset{x});
    }
  }

  /** Folding two bags together is folding each and combining. */
  lemma {:induction false} FoldUnion(o: Fold, a: multiset<int>, b: multiset<int>)
    ensures FoldBag(o, a + b) == Combine(o, FoldBag(o, a), FoldBag(o, b))
    decreases |b|
  {
    if b == multiset{} {
      assert a + b == a;
      MaxNotNegative(a);
    } else {
      Inhabited(b);
      var x :| x in b;
      FoldUnion(o, a, b - multiset{x});
      FoldRemove(o, b, x);
      FoldInsert(o, a + (b - multiset{x}), x);
      assert a + (b - multiset{x}) + multiset{x} == a + b;
    }
  }

  /** The fold of a list in order. */
  function FoldSeq(o: Fold, xs: seq<int>): int {
    if xs == [] then 0 else Combine(o, FoldSeq(o, xs[..|xs| - 1]), xs[|xs| - 1])
  }

  lemma {:induction false} FoldSeqIsFoldBag(o: Fold, xs: seq<int>)
    ensures FoldSeq(o, xs) == FoldBag(o, multiset(xs))
  {
    if xs != [] {
      var n := |xs| - 1;
      FoldSeqIsFoldBag(o, xs[..n]);
      assert xs == xs[..n] + [xs[n]];
      FoldInsert(o, multiset(xs[..n]), xs[n]);
    }
  }

  /** Adding up is addition, and taking the maximum keeps the larger one, starting from zero. */
  lemma FoldMeans(b: multiset<int>, x: int)
    ensures FoldBag(AddUp, multiset{}) == 0 && FoldBag(TakeMax, multiset{}) == 0
    ensures FoldBag(AddUp, b + multiset{x}) == FoldBag(AddUp, b) + x
    ensures FoldBag(TakeMax, b + multiset{x}) == if FoldBag(TakeMax, b) < x then x else FoldBag(TakeMax, b)
  {
    FoldInsert(AddUp, b, x);
    FoldInsert(TakeMax, b, x);
  }

  /** The arithmetic sum of a list. */
  function Total(xs: seq<int>): int {
    if xs == [] then 0 else Total(xs[..|xs| - 1]) + xs[|xs| - 1]
  }

  /** Adding up a bag is the arithmetic sum of its values, in any order. */
  lemma {:induction false} AddUpIsTotal(xs: seq<int>)
    ensures FoldBag(AddUp, multiset(xs)) == Total(xs)
  {
    if xs == [] {
      FoldMeans(multiset{}, 0);
    } else {
      var n := |xs| - 1;
      AddUpIsTotal(xs[..n]);
      FoldMeans(multiset(xs[..n]), xs[n]);
      assert xs == xs[..n] + [xs[n]];
    }
  }

  /** Folding a one-element bag; `x` is itself a fold, so not negative where that matters. */
  lemma FoldOne(o: Fold, b: multiset<int>)
    ensures FoldBag(o, multiset{FoldBag(o, b)}) == FoldBag(o, b)
  {
    FoldInsert(o, multiset{}, FoldBag(o, b));
    assert multiset{} + multiset{FoldBag(o, b)} == multiset{FoldBag(o, b)};
    MaxNotNegative(b);
  }

  // ---------------------------------------------------------------- one level

  /** The groups that receive at least one value. */
  ghost function Groups<K, G(!new)>(m: map<K, seq<int>>, f: K -> Option<G>): set<G> {
    set k | k in m && f(k).Some? && m[k] != [] :: f(k).value
  }

  lemma GroupsAre<K, G(!new)>(m: map<K, seq<int>>, f: K -> Option<G>, g: G)
    ensures g in Groups(m, f) <==> Bag(m, f, g) != multiset{}
  {
    BagEmpty(m, f, g);
  }

  /** The metric one level of folding produces. */
  ghost function Collapse<K, G(!new)>(o: Fold, m: map<K, seq<int>>, f: K -> Option<G>): map<G, seq<int>> {
    map g | g in Groups(m, f) :: [FoldBag(o, Bag(m, f, g))]
  }

  ghost function Compose<K, H(!new), G(!new)>(f: K -> Option<H>, f': H -> Option<G>): K -> Option<G> {
    k => match f(k) case None => None case Some(h) => f'(h)
  }

  /** The groups with and without series `k`. */
  lemma GroupsSplit<K, G(!new)>(m: map<K, seq<int>>, f: K -> Option<G>, k: K)
    requires k in m
    ensures Groups(m, f) ==
            Groups(m - {k}, f) + if f(k).Some? && m[k] != [] then {f(k).value} else {}
  {
    var n := m - {k};
    forall g | g in Groups(m, f) && g !in Groups(n, f) ensures f(k) == Some(g) && m[k] != [] {
      var k' :| k' in m && f(k') == Some(g) && m[k'] != [];
      assert k' == k || k' in n;
    }
    forall g | g in Groups(n, f) ensures g in Groups(m, f) {
      var k' :| k' in n && f(k') == Some(g) && n[k'] != [];
      assert k' in m && m[k'] == n[k'];
    }
  }

  /** A series of another group changes nothing in group `g`. */
  lemma BagElsewhere<K, G(!new)>(m: map<K, seq<int>>, f: K -> Option<G>, g: G, k: K)
    requires k in m && (m[k] == [] || f(k) != Some(g))
    ensures Bag(m, f, g) == Bag(m - {k}, f, g)
  {
    BagRemove(m, f, g, k);
    assert Part(m, f, g, k) == multiset{};
  }

  /** Dropping a series without values changes nothing. */
  lemma CollapseDropEmpty<K, G(!new)>(o: Fold, m: map<K, seq<int>>, f: K -> Option<G>, k: K)
    requires k in m && (m[k] == [] || f(k).None?)
    ensures Collapse(o, m, f) == Collapse(o, m - {k}, f)
  {
    GroupsSplit(m, f, k);
    forall g ensures Bag(m, f, g) == Bag(m - {k}, f, g) {
      BagElsewhere(m, f, g, k);
    }
  }

  lemma CollapseKeys<K, G(!new)>(o: Fold, m: map<K, seq<int>>, f: K -> Option<G>, g: G)
    ensures g in Collapse(o, m, f) <==> g in Groups(m, f)
    ensures g in Collapse(o, m, f) ==> Collapse(o, m, f)[g] == [FoldBag(o, Bag(m, f, g))]
  {
  }

  /** A group that series `k` does not go to. */
  lemma CollapseElsewhere<K, G(!new)>(o: Fold, m: map<K, seq<int>>, f: K -> Option<G>, k: K, g: G)
    requires k in m && f(k) != Some(g)
    ensures g in Collapse(o, m, f) <==> g in Collapse(o, m - {k}, f)
    ensures g in Collapse(o, m, f) ==> Collapse(o, m, f)[g] == Collapse(o, m - {k}, f)[g]
  {
    GroupsSplit(m, f, k);
    CollapseKeys(o, m, f, g);
    CollapseKeys(o, m - {k}, f, g);
    BagElsewhere(m, f, g, k);
  }

  /** Adding a series with values changes one group of the level. */
  lemma CollapseAdd<K, G(!new)>(o: Fold, m: map<K, seq<int>>, f: K -> Option<G>, k: K)
    requires k in m && m[k] != [] && f(k).Some?
    ensures Collapse(o, m, f) == Collapse(o, m - {k}, f)[f(k).value := [FoldBag(o, Bag(m, f, f(k).value))]]
  {
    var h := f(k).value;
    var a, b := Collapse(o, m, f), Collapse(o, m - {k}, f)[h := [FoldBag(o, Bag(m, f, h))]];
    CollapseKeys(o, m, f, h);
    forall g ensures (g in a <==> g in b) && (g in a ==> a[g] == b[g]) {
      if g != h { CollapseElsewhere(o, m, f, k, g); }
    }
    SameMetric(a, b);
  }

  lemma SameMetric<G(!new)>(a: map<G, seq<int>>, b: map<G, seq<int>>)
    requires forall g :: (g in a <==> g in b) && (g in a ==> a[g] == b[g])
    ensures a == b
  {
  }

  /** The fold of a level in which group `h` holds the single value `x`. */
  lemma FoldLevelUpdate<H, G(!new)>(o: Fold, n: map<H, seq<int>>, f: H -> Option<G>, g: G, h: H, x: int)
    ensures FoldBag(o, Bag(n[h := [x]], f, g)) ==
            if f(h) == Some(g) then Combine(o, FoldBag(o, multiset{x}), FoldBag(o, Bag(n - {h}, f, g)))
            else FoldBag(o, Bag(n - {h}, f, g))
  {
    var rest := Bag(n - {h}, f, g);
    BagUpdate(n, f, g, h, [x]);
    assert multiset([x]) == multiset{x} && multiset{} + rest == rest;
    FoldUnion(o, multiset{x}, rest);
  }

  /** The values of group `h` without and with series `k`. */
  lemma FoldWithSeries<K, G(!new)>(o: Fold, m: map<K, seq<int>>, f: K -> Option<G>, h: G, k: K)
    requires k in m && f(k) == Some(h)
    ensures FoldBag(o, Bag(m, f, h)) ==
            Combine(o, FoldBag(o, multiset(m[k])), FoldBag(o, Bag(m - {k}, f, h)))
  {
    BagRemove(m, f, h, k);
    FoldUnion(o, multiset(m[k]), Bag(m - {k}, f, h));
  }

  /** The fold of a level seen from its group `h`, which holds the single value `x` if it is there. */
  lemma FoldLevelAt<H, G(!new)>(o: Fold, n: map<H, seq<int>>, f: H -> Option<G>, g: G, h: H, x: int)
    requires h in n ==> n[h] == [x]
    ensures FoldBag(o, Bag(n, f, g)) ==
            if h in n && f(h) == Some(g) then Combine(o, FoldBag(o, multiset{x}), FoldBag(o, Bag(n - {h}, f, g)))
            else FoldBag(o, Bag(n - {h}, f, g))
  {
    if h in n {
      assert n == n[h := [x]];
      FoldLevelUpdate(o, n, f, g, h, x);
    } else {
      assert n - {h} == n;
    }
  }

  lemma CombineLaws(o: Fold, x: int, w: int, r: int)
    requires o.TakeMax? ==> x >= 0 && r >= 0
    ensures Combine(o, Combine(o, x, w), r) == Combine(o, x, Combine(o, w, r))
    ensures Combine(o, Combine(o, x, 0), r) == Combine(o, x, r)
    ensures Combine(o, 0, r) == r
  {
  }

  /** The step of `FoldThroughLevel` for a series that brings values to some group. */
  lemma FoldThroughNewSeries<K, H(!new), G(!new)>(
      o: Fold, m: map<K, seq<int>>, f: K -> Option<H>, f': H -> Option<G>, g: G, k: K)
    requires k in m && m[k] != [] && f(k).Some?
    ensures FoldBag(o, Bag(Collapse(o, m, f), f', g)) ==
            Combine(o, FoldBag(o, if f'(f(k).value) == Some(g) then multiset(m[k]) else multiset{}),
                       FoldBag(o, Bag(Collapse(o, m - {k}, f), f', g)))
  {
    var h := f(k).value;
    var before := Collapse(o, m - {k}, f);
    var rest := Bag(before - {h}, f', g);
    var was := FoldBag(o, Bag(m - {k}, f, h));
    var x := FoldBag(o, multiset(m[k]));
    var now := Combine(o, x, was);
    assert now == FoldBag(o, Bag(m, f, h)) by { FoldWithSeries(o, m, f, h, k); }
    assert Collapse(o, m, f) == before[h := [now]] by { CollapseAdd(o, m, f, k); }
    FoldLevelUpdate(o, before, f', g, h, now);
    assert FoldBag(o, multiset{now}) == now by { FoldOne(o, Bag(m, f, h)); }
    assert FoldBag(o, multiset{was}) == was by { FoldOne(o, Bag(m - {k}, f, h)); }
    FoldLevelAt(o, before, f', g, h, was);
    assert h !in before ==> was == 0 by { GroupsAre(m - {k}, f, h); }
    MaxNotNegative(rest);
    MaxNotNegative(multiset(m[k]));
    CombineLaws(o, x, was, FoldBag(o, rest));
  }

  /** TWO LEVELS ARE ONE: folding the folded groups is folding the raw values by the composed grouping. */
  lemma {:induction false} FoldThroughLevel<K, H(!new), G(!new)>(
      o: Fold, m: map<K, seq<int>>, f: K -> Option<H>, f': H -> Option<G>, g: G)
    ensures FoldBag(o, Bag(Collapse(o, m, f), f', g)) == FoldBag(o, Bag(m, Compose(f, f'), g))
    decreases |m|
  {
    var both := Compose(f, f');
    if |m| > 0 {
      var k :| k in m;
      FoldThroughLevel(o, m - {k}, f, f', g);
      if m[k] == [] || f(k).None? {
        CollapseDropEmpty(o, m, f, k);
        BagElsewhere(m, both, g, k);
      } else {
        FoldThroughNewSeries(o, m, f, f', g, k);
        BagRemove(m, both, g, k);
        FoldUnion(o, Part(m, both, g, k), Bag(m - {k}, both, g));
      }
    }
  }

  /** A level after a level has the groups of the composed grouping. */
  lemma GroupsThroughLevel<K, H(!new), G(!new)>(o: Fold, m: map<K, seq<int>>, f: K -> Option<H>, f': H -> Option<G>)
    ensures Groups(Collapse(o, m, f), f') == Groups(m, Compose(f, f'))
  {
    var n := Collapse(o, m, f);
    forall g ensures g in Groups(n, f') <==> g in Groups(m, Compose(f, f')) {
      if g in Groups(n, f') {
        var h :| h in n && f'(h) == Some(g);
        var k :| k in m && f(k) == Some(h) && m[k] != [];
        assert Compose(f, f')(k) == Some(g);
      }
      if g in Groups(m, Compose(f, f')) {
        var k :| k in m && Compose(f, f')(k) == Some(g) && m[k] != [];
        assert f(k).value in n;
      }
    }
  }

  lemma CollapseSame<K, H, G(!new)>(
      o: Fold, m: map<K, seq<int>>, f: K -> Option<G>, n: map<H, seq<int>>, f': H -> Option<G>)
    requires Groups(m, f) == Groups(n, f')
    requires forall g :: g in Groups(m, f) ==> FoldBag(o, Bag(m, f, g)) == FoldBag(o, Bag(n, f', g))
    ensures Collapse(o, m, f) == Collapse(o, n, f')
  {
  }

  /** Collapsing twice is collapsing once by the composed grouping. */
  lemma CollapseTwice<K, H(!new), G(!new)>(o: Fold, m: map<K, seq<int>>, f: K -> Option<H>, f': H -> Option<G>)
    ensures Collapse(o, Collapse(o, m, f), f') == Collapse(o, m, Compose(f, f'))
  {
    var n := Collapse(o, m, f);
    GroupsThroughLevel(o, m, f, f');
    forall g | g in Groups(n, f')
      ensures FoldBag(o, Bag(n, f', g)) == FoldBag(o, Bag(m, Compose(f, f'), g))
    {
      FoldThroughLevel(o, m, f, f', g);
    }
    CollapseSame(o, n, f', m, Compose(f, f'));
  }
}
