/** Label vectors: 22 built-in slots followed by 100 extension slots, with masks, overriders and filters. */
module Labels {
  import opened Options

  const BUILT_INS: nat := 22
  const EXTENSIONS: nat := 100
  const SLOTS: nat := 122
  /** The slot of the built-in `level` label. */
  const LEVEL: nat := 14

  type Labels = l: seq<string> | |l| == SLOTS witness seq(SLOTS, _ => "")

  datatype Filter = Filter(
    present: Option<bool>, labelNames: seq<string>, labels: map<string, seq<string>>, clusterNames: seq<string>)

  /** A level's mask: which slots it keeps, and the label name of every slot. */
  datatype AnyMask = Mask(level: string, keep: seq<bool>, names: seq<string>, filters: seq<Filter>)

  type Mask = m: AnyMask | |m.keep| == SLOTS && |m.names| == SLOTS
    witness Mask("", seq(SLOTS, _ => false), seq(SLOTS, _ => ""), [])

  /** Changes some of the labels it is shown. */
  type Overrider = map<string, string> -> map<string, string>

  // ---------------------------------------------------------------- picking slots

  function CountTrue(keep: seq<bool>): nat {
    if keep == [] then 0 else CountTrue(keep[..|keep| - 1]) + if keep[|keep| - 1] then 1 else 0
  }

  /** The entries of the kept slots, in slot order. */
  function Pick(keep: seq<bool>, xs: seq<string>): (r: seq<string>)
    requires |keep| == |xs|
    ensures |r| == CountTrue(keep)
  {
    if keep == [] then []
    else
      var n := |keep| - 1;
      Pick(keep[..n], xs[..n]) + if keep[n] then [xs[n]] else []
  }

  /** The position of slot `i` among the kept ones. */
  function Rank(keep: seq<bool>, i: nat): nat
    requires i <= |keep|
  {
    CountTrue(keep[..i])
  }

  lemma {:induction false} PickAt(keep: seq<bool>, xs: seq<string>, i: nat)
    requires |keep| == |xs| && i < |keep| && keep[i]
    ensures Rank(keep, i) < CountTrue(keep)
    ensures Pick(keep, xs)[Rank(keep, i)] == xs[i]
  {
    var n := |keep| - 1;
    if i < n {
      PickAt(keep[..n], xs[..n], i);
      assert keep[..n][..i] == keep[..i];
    }
  }

  lemma {:induction false} SlotAt(keep: seq<bool>, j: nat) returns (i: nat)
    requires j < CountTrue(keep)
    ensures i < |keep| && keep[i] && Rank(keep, i) == j
  {
    var n := |keep| - 1;
    if j < CountTrue(keep[..n]) {
      i := SlotAt(keep[..n], j);
      assert keep[..n][..i] == keep[..i];
    } else {
      i := n;
    }
  }

  /** Names and values of a mask line up: entry `j` of both lists belongs to the same slot. */
  lemma NamesAndValuesAlign(m: Mask, l: Labels, j: nat) returns (i: nat)
    requires j < |LabelNames(m)|
    ensures i < SLOTS && m.keep[i] && Rank(m.keep, i) == j
    ensures |LabelValues(m, l)| == |LabelNames(m)|
    ensures LabelNames(m)[j] == m.names[i]
    ensures LabelValues(m, l)[j] == if i == LEVEL then m.level else l[i]
  {
    i := SlotAt(m.keep, j);
    PickAt(m.keep, m.names, i);
    PickAt(m.keep, l[LEVEL := if m.keep[LEVEL] then m.level else ""], i);
  }

  // ---------------------------------------------------------------- masks

  /** `l` with the slots the mask does not keep cleared. */
  function MaskLabels(m: Mask, l: Labels): Labels {
    seq(SLOTS, i requires 0 <= i < SLOTS => if m.keep[i] then l[i] else "")
  }

  function LabelNames(m: Mask): seq<string> {
    Pick(m.keep, m.names)
  }

  /** The label values exported for `l`; the level label is the mask's own level name. */
  function LabelValues(m: Mask, l: Labels): seq<string> {
    Pick(m.keep, l[LEVEL := if m.keep[LEVEL] then m.level else ""])
  }

  /** Every label kept by `m'` is kept by `m`. */
  ghost predicate Coarser(m': Mask, m: Mask) {
    forall i :: 0 <= i < SLOTS && m'.keep[i] ==> m.keep[i]
  }

  lemma MaskTwice(m: Mask, m': Mask, l: Labels)
    requires Coarser(m', m)
    ensures MaskLabels(m', MaskLabels(m, l)) == MaskLabels(m', l)
  {
  }

  /** Masking first with `m` is invisible to `m'`, for all labels, exactly when `m'` is coarser. */
  lemma MaskTwiceIff(m: Mask, m': Mask)
    ensures Coarser(m', m) <==> forall l :: MaskLabels(m', MaskLabels(m, l)) == MaskLabels(m', l)
  {
    if Coarser(m', m) {
      forall l ensures MaskLabels(m', MaskLabels(m, l)) == MaskLabels(m', l) {
        MaskTwice(m, m', l);
      }
    } else {
      var i :| 0 <= i < SLOTS && m'.keep[i] && !m.keep[i];
      var l: Labels := seq(SLOTS, _ => "x");
      assert MaskLabels(m', MaskLabels(m, l))[i] == "" && MaskLabels(m', l)[i] == "x";
    }
  }

  /** A mask puts two series in the same group exactly when they agree on every slot it keeps. */
  lemma SameGroupIff(m: Mask, l: Labels, l': Labels)
    ensures MaskLabels(m, l) == MaskLabels(m, l') <==> forall i :: 0 <= i < SLOTS && m.keep[i] ==> l[i] == l'[i]
  {
    if MaskLabels(m, l) == MaskLabels(m, l') {
      forall i | 0 <= i < SLOTS && m.keep[i] ensures l[i] == l'[i] {
        assert MaskLabels(m, l)[i] == MaskLabels(m, l')[i];
      }
    }
  }

  // ---------------------------------------------------------------- overriders

  /** The labels an overrider is shown: by name, later positions winning. */
  function Shown(names: seq<string>, values: seq<string>): map<string, string>
    requires |names| == |values|
  {
    if names == [] then map[]
    else
      var n := |names| - 1;
      Shown(names[..n], values[..n])[names[n] := values[n]]
  }

  /** `values` with those that `l` mentions by name replaced. */
  function Replace(l: map<string, string>, names: seq<string>, values: seq<string>): (r: seq<string>)
    requires |names| == |values|
    ensures |r| == |values|
    ensures forall j :: 0 <= j < |r| ==> r[j] == if names[j] in l then l[names[j]] else values[j]
  {
    seq(|values|, j requires 0 <= j < |values| => if names[j] in l then l[names[j]] else values[j])
  }

  /** The part of `l` that mentions one of `names`. */
  function Restrict(l: map<string, string>, names: seq<string>): map<string, string> {
    map n | n in l && n in names :: l[n]
  }

  /** Position `j` is the last one that lists name `n`. */
  ghost predicate LastListed(names: seq<string>, n: string, j: nat) {
    j < |names| && names[j] == n && forall i :: j < i < |names| ==> names[i] != n
  }

  /** An overrider is shown exactly the listed names, each with the value of its last position. */
  lemma {:induction false} ShownIs(names: seq<string>, values: seq<string>, n: string)
    requires |names| == |values|
    ensures n in Shown(names, values) <==> exists j :: 0 <= j < |names| && names[j] == n
    ensures forall j: nat :: LastListed(names, n, j) ==>
              n in Shown(names, values) && Shown(names, values)[n] == values[j]
  {
    if names != [] {
      var k := |names| - 1;
      ShownIs(names[..k], values[..k], n);
      forall j: nat | LastListed(names, n, j)
        ensures n in Shown(names, values) && Shown(names, values)[n] == values[j]
      {
        if j < k { assert LastListed(names[..k], n, j); }
      }
      assert forall j :: 0 <= j < k ==> names[..k][j] == names[j];
    }
  }

  datatype Overridden = Overridden(values: seq<string>, changes: map<string, string>)

  /** One overrider's turn. */
  function Act(o: Overrider, names: seq<string>, before: Overridden): (r: Overridden)
    requires |names| == |before.values|
    ensures |r.values| == |names|
  {
    var l := o(Shown(names, before.values));
    Overridden(Replace(l, names, before.values), before.changes + Restrict(l, names))
  }

  /** The values and the recorded changes after all the overriders have had their turn. */
  function OverrideAll(os: seq<Overrider>, names: seq<string>, values: seq<string>): (r: Overridden)
    requires |names| == |values|
    ensures |r.values| == |names|
  {
    if os == [] then Overridden(values, map[])
    else
      var n := |os| - 1;
      Act(os[n], names, OverrideAll(os[..n], names, values))
  }

  /** One overrider replaces the values of the names it mentions, and these are the changes recorded. */
  lemma OneOverrider(o: Overrider, names: seq<string>, values: seq<string>)
    requires |names| == |values|
    ensures var l, r := o(Shown(names, values)), OverrideAll([o], names, values);
            && (forall j :: 0 <= j < |names| ==> r.values[j] == if names[j] in l then l[names[j]] else values[j])
            && (forall n :: n in r.changes <==> n in l && n in names)
            && (forall n :: n in r.changes ==> r.changes[n] == l[n])
  {
    assert [o][..0] == [];
    assert OverrideAll([o][..0], names, values) == Overridden(values, map[]);
  }

  lemma LastOverrider(os: seq<Overrider>, names: seq<string>, values: seq<string>, before: seq<Overrider>, o: Overrider)
    requires |names| == |values| && os != [] && before == os[..|os| - 1] && o == os[|os| - 1]
    ensures OverrideAll(os, names, values) == Act(o, names, OverrideAll(before, names, values))
  {
  }

  lemma SplitLast<T>(xs: seq<T>, ys: seq<T>)
    requires ys != []
    ensures var zs := xs + ys;
            zs[..|zs| - 1] == xs + ys[..|ys| - 1] && zs[|zs| - 1] == ys[|ys| - 1]
  {
  }

  /** `second` after `first`: its values, and the changes of both, the later ones winning. */
  function After(first: Overridden, second: Overridden): Overridden {
    Overridden(second.values, first.changes + second.changes)
  }

  /** Overriders act one after the other, each on what the ones before it left; later changes win. */
  lemma {:induction false} OverridersInTurn(
      os: seq<Overrider>, more: seq<Overrider>, names: seq<string>, values: seq<string>)
    requires |names| == |values|
    ensures OverrideAll([], names, values) == Overridden(values, map[])
    ensures var first := OverrideAll(os, names, values);
            OverrideAll(os + more, names, values) == After(first, OverrideAll(more, names, first.values))
  {
    var first := OverrideAll(os, names, values);
    if more == [] {
      assert os + more == os && first.changes + map[] == first.changes;
    } else {
      var n := |more| - 1;
      var o, before := more[n], more[..n];
      OverridersInTurn(os, before, names, values);
      SplitLast(os, more);
      LastOverrider(os + more, names, values, os + before, o);
      LastOverrider(more, names, first.values, before, o);
      ActAfter(o, names, OverrideAll(before, names, first.values), first);
    }
  }

  /** Changes recorded earlier do not affect an overrider's turn. */
  lemma ActAfter(o: Overrider, names: seq<string>, before: Overridden, first: Overridden)
    requires |names| == |before.values|
    ensures Act(o, names, After(first, before)) == After(first, Act(o, names, before))
  {
    var more := Restrict(o(Shown(names, before.values)), names);
    assert first.changes + before.changes + more == first.changes + (before.changes + more);
  }

  /** Lets every overrider in turn rewrite the label values in place, and records what was replaced. */
  method OverrideValues(os: seq<Overrider>, values: array<string>, names: seq<string>)
      returns (r: map<string, string>)
    requires values.Length == |names|
    modifies values
    ensures Overridden(values[..], r) == OverrideAll(os, names, old(values[..]))
  {
    r := map[];
    for i := 0 to |os|
      invariant Overridden(values[..], r) == OverrideAll(os[..i], names, old(values[..]))
    {
      var l := ShowLabels(names, values[..]);
      l := os[i](l);
      assert os[..i + 1][..i] == os[..i];
      var changes := ReplaceInPlace(l, values, names);
      r := r + changes;
    }
    assert os[..|os|] == os;
  }

  method ShowLabels(names: seq<string>, values: seq<string>) returns (l: map<string, string>)
    requires |names| == |values|
    ensures l == Shown(names, values)
  {
    l := map[];
    for i := 0 to |names|
      invariant l == Shown(names[..i], values[..i])
    {
      assert names[..i + 1][..i] == names[..i] && values[..i + 1][..i] == values[..i];
      l := l[names[i] := values[i]];
    }
    assert names[..|names|] == names && values[..|names|] == values;
  }

  method ReplaceInPlace(l: map<string, string>, values: array<string>, names: seq<string>)
      returns (r: map<string, string>)
    requires values.Length == |names|
    modifies values
    ensures values[..] == Replace(l, names, old(values[..])) && r == Restrict(l, names)
  {
    r := map[];
    for i := 0 to |names|
      invariant forall j :: 0 <= j < i ==> values[j] == if names[j] in l then l[names[j]] else old(values[j])
      invariant forall j :: i <= j < |names| ==> values[j] == old(values[j])
      invariant r == Restrict(l, names[..i])
    {
      assert names[..i + 1] == names[..i] + [names[i]];
      if names[i] in l {
        values[i] := l[names[i]];
        r := r[names[i] := l[names[i]]];
      }
    }
    assert names[..|names|] == names;
  }

  /** After any overriders, a value is the recorded change for its name, or was never touched. */
  lemma {:induction false} OverridesAreRecorded(os: seq<Overrider>, names: seq<string>, values: seq<string>)
    requires |names| == |values|
    ensures var r := OverrideAll(os, names, values);
            && (forall n :: n in r.changes ==> n in names)
            && (forall j :: 0 <= j < |names| ==>
                  r.values[j] == if names[j] in r.changes then r.changes[names[j]] else values[j])
  {
    if os != [] {
      OverridesAreRecorded(os[..|os| - 1], names, values);
    }
  }

  /** `l` with the recorded changes written to every slot of that name. */
  function OverrideLabels(m: Mask, l: Labels, changes: map<string, string>): Labels {
    if |changes| == 0 then l
    else seq(SLOTS, i requires 0 <= i < SLOTS => if m.names[i] in changes then changes[m.names[i]] else l[i])
  }

  lemma OverriddenSlot(m: Mask, l: Labels, changes: map<string, string>, i: nat)
    requires i < SLOTS
    ensures OverrideLabels(m, l, changes)[i] == if m.names[i] in changes then changes[m.names[i]] else l[i]
  {
  }

  /** An overrider renamed the level shown at position `j`. */
  ghost predicate LevelRenamed(m: Mask, changes: map<string, string>, j: nat) {
    && m.keep[LEVEL] && j == Rank(m.keep, LEVEL)
    && m.names[LEVEL] in changes && changes[m.names[LEVEL]] != m.level
  }

  /** Writing the changes to the slots and then listing the values is listing the values and then replacing
      by name, at every position but a renamed level: that one is listed under the mask's own level name. */
  lemma ListedOverride(m: Mask, l: Labels, changes: map<string, string>, j: nat)
    requires j < |LabelNames(m)|
    ensures var names, before := LabelNames(m), LabelValues(m, l);
            var after := LabelValues(m, OverrideLabels(m, l, changes));
            && |after| == |before| == |names|
            && (after[j] == Replace(changes, names, before)[j] <==> !LevelRenamed(m, changes, j))
  {
    var r := OverrideLabels(m, l, changes);
    var i := NamesAndValuesAlign(m, l, j);
    var i' := NamesAndValuesAlign(m, r, j);
    RankInjective(m.keep, i, i');
    OverriddenSlot(m, l, changes, i);
    if m.keep[LEVEL] && j == Rank(m.keep, LEVEL) {
      RankInjective(m.keep, i, LEVEL);
    }
  }

  /** The overridden label values of a series, as the filters see them. */
  function Judged(m: Mask, os: seq<Overrider>, l: Labels): Overridden {
    OverrideAll(os, LabelNames(m), LabelValues(m, MaskLabels(m, l)))
  }

  /** The group a series is filed under. */
  function GroupKey(m: Mask, os: seq<Overrider>, l: Labels): Labels {
    OverrideLabels(m, MaskLabels(m, l), Judged(m, os, l).changes)
  }

  lemma WithoutOverriders(m: Mask, l: Labels)
    ensures GroupKey(m, [], l) == MaskLabels(m, l)
  {
  }

  /** FILTERS JUDGE WHAT IS EXPORTED: the vector the filters look at is the vector exported for the
      group, at every position except `level`; there they differ exactly when an overrider renamed it. */
  lemma {:induction false} FiltersJudgeWhatIsExported(m: Mask, os: seq<Overrider>, l: Labels, j: nat)
    requires j < |LabelNames(m)|
    ensures var judged := Judged(m, os, l);
            var exported := LabelValues(m, GroupKey(m, os, l));
            && |judged.values| == |exported| == |LabelNames(m)|
            && (judged.values[j] == exported[j] <==> !LevelRenamed(m, judged.changes, j))
  {
    var masked := MaskLabels(m, l);
    OverridesAreRecorded(os, LabelNames(m), LabelValues(m, masked));
    ListedOverride(m, masked, Judged(m, os, l).changes, j);
  }

  lemma {:induction false} RankGrows(keep: seq<bool>, i: nat, i': nat)
    requires i < i' <= |keep| && keep[i]
    ensures Rank(keep, i) < Rank(keep, i')
  {
    assert keep[..i'][..i' - 1] == keep[..i' - 1];
    if i < i' - 1 {
      RankGrows(keep, i, i' - 1);
    }
  }

  lemma RankInjective(keep: seq<bool>, i: nat, i': nat)
    requires i < |keep| && i' < |keep| && keep[i] && keep[i'] && Rank(keep, i) == Rank(keep, i')
    ensures i == i'
  {
    if i < i' { RankGrows(keep, i, i'); }
    if i' < i { RankGrows(keep, i', i); }
  }

  /** Without overriders a mask leaves what is exported as it is. */
  lemma MaskedExport(m: Mask, l: Labels)
    ensures LabelValues(m, GroupKey(m, [], l)) == LabelValues(m, l)
  {
    WithoutOverriders(m, l);
    var r := MaskLabels(m, l);
    var n := |LabelNames(m)|;
    forall j | 0 <= j < n ensures LabelValues(m, r)[j] == LabelValues(m, l)[j] {
      var i := NamesAndValuesAlign(m, l, j);
      var i' := NamesAndValuesAlign(m, r, j);
      RankInjective(m.keep, i, i');
    }
  }

  // ---------------------------------------------------------------- re-masking

  /** No slot that is cleared carries the name of a slot that is kept. */
  ghost predicate NamesSeparate(m: Mask) {
    forall i, j :: 0 <= i < SLOTS && 0 <= j < SLOTS && m.keep[i] && !m.keep[j] ==> m.names[i] != m.names[j]
  }

  ghost predicate RemaskingKeeps(m: Mask, os: seq<Overrider>, l: Labels) {
    MaskLabels(m, GroupKey(m, os, l)) == GroupKey(m, os, l)
  }

  lemma NameIsKept(m: Mask, name: string)
    requires name in LabelNames(m)
    ensures exists i :: 0 <= i < SLOTS && m.keep[i] && m.names[i] == name
  {
    var j :| 0 <= j < |LabelNames(m)| && LabelNames(m)[j] == name;
    var i := NamesAndValuesAlign(m, m.names, j);
  }

  lemma RemaskingIsHarmless(m: Mask, os: seq<Overrider>, l: Labels)
    requires NamesSeparate(m)
    ensures RemaskingKeeps(m, os, l)
  {
    var names := LabelNames(m);
    OverridesAreRecorded(os, names, LabelValues(m, MaskLabels(m, l)));
    var changes := Judged(m, os, l).changes;
    forall i | 0 <= i < SLOTS && !m.keep[i] ensures m.names[i] !in changes {
      if m.names[i] in changes {
        NameIsKept(m, m.names[i]);
      }
    }
  }

  /** An overrider that gives label `name` the value `x`. */
  function Renaming(name: string): Overrider {
    shown => map[name := "x"]
  }

  /** A name shared by a kept and a cleared slot lets an overrider write into the cleared one. */
  lemma {:induction false} CollisionLeaks(m: Mask, i: nat, j: nat, l: Labels)
    requires i < SLOTS && j < SLOTS && m.keep[i] && !m.keep[j] && m.names[i] == m.names[j]
    ensures !RemaskingKeeps(m, [Renaming(m.names[i])], l)
  {
    var name := m.names[i];
    var os := [Renaming(name)];
    var names, values := LabelNames(m), LabelValues(m, MaskLabels(m, l));
    PickAt(m.keep, m.names, i);
    assert names[Rank(m.keep, i)] == name;
    assert os[..0] == [];
    assert OverrideAll(os[..0], names, values) == Overridden(values, map[]);
    assert Judged(m, os, l).changes == map[] + Restrict(map[name := "x"], names);
    OverriddenSlot(m, MaskLabels(m, l), Judged(m, os, l).changes, j);
    assert GroupKey(m, os, l)[j] == "x" && MaskLabels(m, GroupKey(m, os, l))[j] == "";
  }

  /** Re-masking a group key never changes it, whatever the overriders, exactly for masks without such
      a shared name. */
  lemma RemaskingHarmlessIff(m: Mask)
    ensures NamesSeparate(m) <==> forall os, l :: RemaskingKeeps(m, os, l)
  {
    if NamesSeparate(m) {
      forall os, l ensures RemaskingKeeps(m, os, l) {
        RemaskingIsHarmless(m, os, l);
      }
    } else {
      var i, j :| 0 <= i < SLOTS && 0 <= j < SLOTS && m.keep[i] && !m.keep[j] && m.names[i] == m.names[j];
      CollisionLeaks(m, i, j, m.names);
    }
  }

  // ---------------------------------------------------------------- filters

  /** Label values by name, empty ones left out. */
  function Index(names: seq<string>, values: seq<string>): map<string, string>
    requires |names| == |values|
  {
    if names == [] then map[]
    else
      var n := |names| - 1;
      var index := Index(names[..n], values[..n]);
      if values[n] != "" then index[names[n] := values[n]] else index
  }

  function Lookup(index: map<string, string>, name: string): string {
    if name in index then index[name] else ""
  }

  predicate PassesFilter(f: Filter, index: map<string, string>, cluster: string) {
    && (f.present.Some? ==> forall n :: n in f.labelNames ==> (f.present.value <==> Lookup(index, n) != ""))
    && (forall n :: n in f.labels ==> Lookup(index, n) in f.labels[n])
    && (f.clusterNames == [] || cluster in f.clusterNames)
  }

  predicate Passes(m: Mask, values: seq<string>, cluster: string)
    requires |values| == |LabelNames(m)|
  {
    var index := Index(LabelNames(m), values);
    forall f :: f in m.filters ==> PassesFilter(f, index, cluster)
  }

  /** Where a level files a series: its group, or nowhere if a filter drops it. */
  function Assign(m: Mask, os: seq<Overrider>, cluster: string): Labels -> Option<Labels> {
    (l: Labels) =>
      if Passes(m, Judged(m, os, l).values, cluster) then Some(GroupKey(m, os, l)) else None
  }

  /** Position `j` holds the last value of label `n` that is not empty. */
  ghost predicate IsLast(names: seq<string>, values: seq<string>, n: string, j: nat)
    requires |names| == |values| && j < |names|
  {
    names[j] == n && values[j] != "" && forall i :: j < i < |names| && names[i] == n ==> values[i] == ""
  }

  /** `x` is the value of label `n` in the lists: the last one that is not empty, or empty if there is none. */
  ghost predicate IsValue(names: seq<string>, values: seq<string>, n: string, x: string)
    requires |names| == |values|
  {
    if x == "" then forall j :: 0 <= j < |names| && names[j] == n ==> values[j] == ""
    else exists j :: 0 <= j < |names| && IsLast(names, values, n, j) && values[j] == x
  }

  lemma {:induction false} LookupIsValue(names: seq<string>, values: seq<string>, n: string)
    requires |names| == |values|
    ensures IsValue(names, values, n, Lookup(Index(names, values), n))
  {
    if names != [] {
      var k := |names| - 1;
      var names', values' := names[..k], values[..k];
      LookupIsValue(names', values', n);
      var x := Lookup(Index(names', values'), n);
      if names[k] == n && values[k] != "" {
        assert IsLast(names, values, n, k);
      } else if x != "" {
        var j :| 0 <= j < k && IsLast(names', values', n, j) && values'[j] == x;
        assert IsLast(names, values, n, j);
      } else {
        forall j | 0 <= j < |names| && names[j] == n ensures values[j] == "" {
          assert j < k ==> names'[j] == n && values'[j] == values[j];
        }
      }
    }
  }

  lemma ValueIsUnique(names: seq<string>, values: seq<string>, n: string, x: string, y: string)
    requires |names| == |values| && IsValue(names, values, n, x) && IsValue(names, values, n, y)
    ensures x == y
  {
  }

  /** A filter accepts the lists of names and values of a series. */
  ghost predicate Accepts(f: Filter, names: seq<string>, values: seq<string>, cluster: string)
    requires |names| == |values|
  {
    && (f.present.Some? ==> forall n :: n in f.labelNames ==>
          (f.present.value <==> exists j :: 0 <= j < |names| && names[j] == n && values[j] != ""))
    && (forall n :: n in f.labels ==> exists x :: x in f.labels[n] && IsValue(names, values, n, x))
    && (f.clusterNames == [] || exists i :: 0 <= i < |f.clusterNames| && f.clusterNames[i] == cluster)
  }

  lemma FilterMeans(f: Filter, names: seq<string>, values: seq<string>, cluster: string)
    requires |names| == |values|
    ensures PassesFilter(f, Index(names, values), cluster) <==> Accepts(f, names, values, cluster)
  {
    var index := Index(names, values);
    forall n ensures Lookup(index, n) != "" <==> exists j :: 0 <= j < |names| && names[j] == n && values[j] != "" {
      LookupIsValue(names, values, n);
    }
    forall n | n in f.labels
      ensures Lookup(index, n) in f.labels[n] <==> exists x :: x in f.labels[n] && IsValue(names, values, n, x)
    {
      LookupIsValue(names, values, n);
      if x :| x in f.labels[n] && IsValue(names, values, n, x) {
        ValueIsUnique(names, values, n, x, Lookup(index, n));
      }
    }
  }

  /** A LEVEL KEEPS A SERIES exactly when every filter accepts its overridden label values, and files it under its
      group key. */
  lemma KeptIff(mask: Mask, os: seq<Overrider>, cluster: string, l: Labels)
    ensures var group := Assign(mask, os, cluster)(l);
            && (group.Some? <==> forall f :: f in mask.filters ==>
                  Accepts(f, LabelNames(mask), Judged(mask, os, l).values, cluster))
            && (group.Some? ==> group.value == GroupKey(mask, os, l))
  {
    forall f | f in mask.filters
      ensures PassesFilter(f, Index(LabelNames(mask), Judged(mask, os, l).values), cluster) <==>
              Accepts(f, LabelNames(mask), Judged(mask, os, l).values, cluster)
    {
      FilterMeans(f, LabelNames(mask), Judged(mask, os, l).values, cluster);
    }
  }
}
