/** How configured labels get their slots and masks their internal form, at start-up. */
module LabelSlots {
  import opened Labels

  const BUILT_IN_NAMES: seq<string> := [
    "exported_container", "container_image", "container_image_id", "exported_pod", "exported_namespace",
    "exported_node", "node_unschedulable", "workload_name", "workload_kind", "workload_api_group",
    "workload_api_version", "app", "priority_class", "scheduled", "level", "quota_name",
    "allocation_strategy", "exported_pvc", "exported_pv", "storage_class", "cgroup", "phase"]

  // ---------------------------------------------------------------- lists of lists

  /** All the entries of a list of lists, in order. */
  function Flatten<T>(xs: seq<seq<T>>): seq<T> {
    if xs == [] then [] else Flatten(xs[..|xs| - 1]) + xs[|xs| - 1]
  }

  /** Where list `a` starts in the flattened list. */
  function Start<T>(xs: seq<seq<T>>, a: nat): nat
    requires a <= |xs|
  {
    |Flatten(xs[..a])|
  }

  lemma {:induction false} FlattenAt<T>(xs: seq<seq<T>>, a: nat, i: nat)
    requires a < |xs| && i < |xs[a]|
    ensures Start(xs, a) + i < |Flatten(xs)| && Flatten(xs)[Start(xs, a) + i] == xs[a][i]
  {
    var n := |xs| - 1;
    if a < n {
      FlattenAt(xs[..n], a, i);
      assert xs[..n][..a] == xs[..a];
    }
  }

  /** Every position of the flattened list comes from some list. */
  lemma {:induction false} FlattenFrom<T>(xs: seq<seq<T>>, p: nat) returns (a: nat, i: nat)
    requires p < |Flatten(xs)|
    ensures a < |xs| && i < |xs[a]| && Start(xs, a) + i == p
  {
    var n := |xs| - 1;
    if p < |Flatten(xs[..n])| {
      a, i := FlattenFrom(xs[..n], p);
      assert xs[..n][..a] == xs[..a];
    } else {
      a, i := n, p - |Flatten(xs[..n])|;
    }
  }

  // ---------------------------------------------------------------- label ids

  /** `ids` has the shape of `names`, and read in order it counts up from zero. */
  ghost predicate Numbered(names: seq<seq<string>>, ids: seq<seq<nat>>) {
    && |ids| == |names|
    && (forall a :: 0 <= a < |names| ==> |ids[a]| == |names[a]|)
    && (forall p :: 0 <= p < |Flatten(ids)| ==> Flatten(ids)[p] == p)
  }

  /** Numbers the labels of every kind in one running count. */
  method AssignIds(names: seq<seq<string>>) returns (ids: seq<seq<nat>>)
    ensures Numbered(names, ids)
  {
    ids := [];
    var labelId := 0;
    for a := 0 to |names|
      invariant Numbered(names[..a], ids) && labelId == |Flatten(ids)|
    {
      var kind: seq<nat> := [];
      ghost var before := labelId;
      for i := 0 to |names[a]|
        invariant |kind| == i && labelId == before + i
        invariant forall j :: 0 <= j < i ==> kind[j] == before + j
      {
        kind := kind + [labelId];
        labelId := labelId + 1;
      }
      assert (ids + [kind])[..|ids|] == ids;
      ids := ids + [kind];
    }
    assert names[..|names|] == names;
  }

  lemma {:induction false} SameShape(names: seq<seq<string>>, ids: seq<seq<nat>>, a: nat)
    requires |ids| == |names| && a <= |ids| && forall b :: 0 <= b < |names| ==> |ids[b]| == |names[b]|
    ensures Start(ids, a) == Start(names, a)
  {
    if a > 0 {
      SameShape(names, ids, a - 1);
      assert ids[..a][..a - 1] == ids[..a - 1] && names[..a][..a - 1] == names[..a - 1];
    }
  }

  /** An id is the position of its label in the flattened configuration, so no two labels share one. */
  lemma IdIsPosition(names: seq<seq<string>>, ids: seq<seq<nat>>, a: nat, i: nat)
    requires Numbered(names, ids) && a < |names| && i < |names[a]|
    ensures ids[a][i] == Start(names, a) + i < |Flatten(names)|
    ensures names[a][i] == Flatten(names)[ids[a][i]]
  {
    FlattenAt(ids, a, i);
    FlattenAt(names, a, i);
    SameShape(names, ids, a);
  }

  /** Indexes the label names by id, visiting the kinds in `order`. */
  method IndexNames(names: seq<seq<string>>, ids: seq<seq<nat>>, order: seq<nat>)
      returns (namesById: map<nat, string>)
    requires Numbered(names, ids)
    requires forall a :: a in order ==> a < |names|
    requires forall a :: 0 <= a < |names| ==> a in order
    ensures namesById == NamesById(names)
  {
    namesById := map[];
    for v := 0 to |order|
      invariant Accurate(names, namesById)
      invariant forall a: nat :: a in order[..v] ==> a < |ids| && Entered(ids[a], |ids[a]|, namesById)
    {
      var a := order[v];
      assert a in order;
      for i := 0 to |names[a]|
        invariant Accurate(names, namesById) && Entered(ids[a], i, namesById)
        invariant forall b: nat :: b in order[..v] ==> b < |ids| && Entered(ids[b], |ids[b]|, namesById)
      {
        IdIsPosition(names, ids, a, i);
        namesById := namesById[ids[a][i] := names[a][i]];
      }
      assert order[..v + 1] == order[..v] + [a];
    }
    assert order[..|order|] == order;
    forall p: nat | p < |Flatten(names)| ensures p in namesById {
      var a, i := FlattenFrom(names, p);
      IdIsPosition(names, ids, a, i);
      assert Entered(ids[a], |ids[a]|, namesById);
    }
  }

  /** Every entry is the name of the label at that position. */
  ghost predicate Accurate(names: seq<seq<string>>, namesById: map<nat, string>) {
    forall id :: id in namesById ==> id < |Flatten(names)| && namesById[id] == Flatten(names)[id]
  }

  /** The first `n` of `ids` are entered. */
  ghost predicate Entered(ids: seq<nat>, n: nat, namesById: map<nat, string>)
    requires n <= |ids|
  {
    forall i :: 0 <= i < n ==> ids[i] in namesById
  }

  /** The label with id `p` is the `p`-th configured one. */
  function NamesById(names: seq<seq<string>>): map<nat, string> {
    var all := Flatten(names);
    map p: nat | p < |all| :: all[p]
  }

  // ---------------------------------------------------------------- masks

  /** A configured mask: one flag per built-in label, and the extension labels by name. */
  datatype AnySpec = MaskSpec(level: string, builtIn: seq<bool>, extensions: set<string>, filters: seq<Filter>)

  type MaskSpec = s: AnySpec | |s.builtIn| == BUILT_INS witness MaskSpec("", seq(BUILT_INS, _ => false), {}, [])

  /** The name of an extension slot, empty if no label has that id. */
  function SlotName(namesById: map<nat, string>, id: nat): string {
    if id in namesById then namesById[id] else ""
  }

  /** The internal form of a mask: names and flags of the built-in slots, then of the extension slots. */
  function BuildMask(spec: MaskSpec, namesById: map<nat, string>): Mask {
    var ext := seq(EXTENSIONS, id requires 0 <= id < EXTENSIONS => SlotName(namesById, id));
    Mask(spec.level,
         spec.builtIn + seq(EXTENSIONS, id requires 0 <= id < EXTENSIONS => ext[id] in spec.extensions),
         BUILT_IN_NAMES + ext,
         spec.filters)
  }

  lemma BuiltInSlot(spec: MaskSpec, namesById: map<nat, string>, i: nat)
    requires i < BUILT_INS
    ensures var m := BuildMask(spec, namesById);
            m.keep[i] == spec.builtIn[i] && m.names[i] == BUILT_IN_NAMES[i]
  {
  }

  lemma ExtensionSlot(spec: MaskSpec, namesById: map<nat, string>, slot: nat)
    requires BUILT_INS <= slot < SLOTS
    ensures var m := BuildMask(spec, namesById);
            m.names[slot] == SlotName(namesById, slot - BUILT_INS) && m.keep[slot] == (m.names[slot] in spec.extensions)
  {
  }

  /** `m` is the internal form of `spec`: its level and filters, and slot by slot the name and whether it is kept. */
  ghost predicate Builds(spec: MaskSpec, namesById: map<nat, string>, m: Mask) {
    && m.level == spec.level && m.filters == spec.filters
    && (forall i :: 0 <= i < BUILT_INS ==> m.names[i] == BUILT_IN_NAMES[i] && (m.keep[i] <==> spec.builtIn[i]))
    && (forall id: nat :: id < EXTENSIONS ==>
          m.names[BUILT_INS + id] == (if id in namesById then namesById[id] else "")
          && (m.keep[BUILT_INS + id] <==> m.names[BUILT_INS + id] in spec.extensions))
  }

  lemma BuildMaskBuilds(spec: MaskSpec, namesById: map<nat, string>)
    ensures Builds(spec, namesById, BuildMask(spec, namesById))
  {
    var m := BuildMask(spec, namesById);
    forall i | 0 <= i < BUILT_INS ensures m.names[i] == BUILT_IN_NAMES[i] && (m.keep[i] <==> spec.builtIn[i]) {
      BuiltInSlot(spec, namesById, i);
    }
    forall id: nat | id < EXTENSIONS
      ensures m.names[BUILT_INS + id] == SlotName(namesById, id)
      ensures m.keep[BUILT_INS + id] <==> m.names[BUILT_INS + id] in spec.extensions
    {
      ExtensionSlot(spec, namesById, BUILT_INS + id);
    }
  }

  /** The collector's registry of internal masks. */
  class MaskRegistry {
    const namesById: map<nat, string>
    var nextId: nat
    var maskById: map<nat, Mask>

    ghost predicate Valid()
      reads this
    {
      forall id: nat :: id in maskById <==> id < nextId
    }

    constructor (namesById: map<nat, string>)
      ensures Valid() && this.namesById == namesById && nextId == 0
    {
      this.namesById := namesById;
      nextId := 0;
      maskById := map[];
    }

    /** Gives the mask a fresh id and stores its internal form under it. */
    method InitMask(spec: MaskSpec) returns (id: nat)
      requires Valid()
      modifies this
      ensures Valid() && id == old(nextId) && nextId == id + 1 && id !in old(maskById)
      ensures maskById == old(maskById)[id := BuildMask(spec, namesById)] && Builds(spec, namesById, maskById[id])
    {
      BuildMaskBuilds(spec, namesById);
      id := nextId;
      nextId := nextId + 1;
      maskById := maskById[id := BuildMask(spec, namesById)];
    }

    /** Every mask of every level and sample source: distinct ids, each resolving to its own mask. */
    method InitMasks(specs: seq<MaskSpec>) returns (ids: seq<nat>)
      requires Valid()
      modifies this
      ensures Valid() && |ids| == |specs|
      ensures forall i, j :: 0 <= i < j < |ids| ==> ids[i] != ids[j]
      ensures forall i :: 0 <= i < |ids| ==> ids[i] in maskById && Builds(specs[i], namesById, maskById[ids[i]])
      ensures forall id :: id in old(maskById) ==> id in maskById && maskById[id] == old(maskById)[id]
    {
      ids := [];
      for i := 0 to |specs|
        invariant Valid() && |ids| == i && nextId == old(nextId) + i
        invariant forall j :: 0 <= j < i ==> ids[j] == old(nextId) + j
        invariant forall j :: 0 <= j < i ==> ids[j] in maskById && Builds(specs[j], namesById, maskById[ids[j]])
        invariant forall id :: id in old(maskById) ==> id in maskById && maskById[id] == old(maskById)[id]
      {
        var id := InitMask(specs[i]);
        ids := ids + [id];
      }
    }
  }

  // ---------------------------------------------------------------- what the slots mean

  /** With at most 100 extension labels every configured label owns a slot of its own name, and a mask
      keeps that slot exactly when it selects the name. */
  lemma EveryLabelHasItsSlot(names: seq<seq<string>>, ids: seq<seq<nat>>, spec: MaskSpec, a: nat, i: nat)
    requires Numbered(names, ids) && |Flatten(names)| <= EXTENSIONS
    requires a < |names| && i < |names[a]|
    ensures var m := BuildMask(spec, NamesById(names));
            var slot := BUILT_INS + ids[a][i];
            slot < SLOTS && m.names[slot] == names[a][i] && (m.keep[slot] <==> names[a][i] in spec.extensions)
  {
    IdIsPosition(names, ids, a, i);
    assert ids[a][i] in NamesById(names);
    ExtensionSlot(spec, NamesById(names), BUILT_INS + ids[a][i]);
  }

  /** A mask that does not select the empty name keeps only slots that belong to a configured label. */
  lemma KeptSlotsAreConfigured(names: seq<seq<string>>, spec: MaskSpec, slot: nat)
    requires "" !in spec.extensions && BUILT_INS <= slot < SLOTS
    requires BuildMask(spec, NamesById(names)).keep[slot]
    ensures slot - BUILT_INS < |Flatten(names)|
  {
    ExtensionSlot(spec, NamesById(names), slot);
  }

  /** If the two slots share a name they are kept or cleared together. */
  ghost predicate Together(m: Mask, slot: nat, i: nat)
    requires slot < SLOTS && i < SLOTS
  {
    m.names[slot] == m.names[i] ==> (m.keep[slot] <==> m.keep[i])
  }

  /** With distinct built-in names, and extension slots selected by name, only an extension slot and a built-in
      slot of one name can be in conflict. */
  lemma SeparateIff(m: Mask, selected: set<string>)
    requires forall i, j :: 0 <= i < j < BUILT_INS ==> m.names[i] != m.names[j]
    requires forall slot :: BUILT_INS <= slot < SLOTS ==> m.keep[slot] == (m.names[slot] in selected)
    ensures NamesSeparate(m) <==>
            forall slot: nat, i: nat :: BUILT_INS <= slot < SLOTS && i < BUILT_INS ==> Together(m, slot, i)
  {
    if !NamesSeparate(m) {
      var i, j :| 0 <= i < SLOTS && 0 <= j < SLOTS && m.keep[i] && !m.keep[j] && m.names[i] == m.names[j];
      if i < BUILT_INS { assert !Together(m, j, i); } else { assert !Together(m, i, j); }
    }
  }

  /** If extension label `id` carries the name of built-in label `i`, it is selected exactly when that one is kept. */
  ghost predicate Agree(spec: MaskSpec, namesById: map<nat, string>, id: nat, i: nat)
    requires i < BUILT_INS
  {
    var name := SlotName(namesById, id);
    name == BUILT_IN_NAMES[i] ==> (name in spec.extensions <==> spec.builtIn[i])
  }

  lemma BuiltTogetherIff(spec: MaskSpec, namesById: map<nat, string>, slot: nat, i: nat)
    requires BUILT_INS <= slot < SLOTS && i < BUILT_INS
    ensures Together(BuildMask(spec, namesById), slot, i) <==> Agree(spec, namesById, slot - BUILT_INS, i)
  {
    ExtensionSlot(spec, namesById, slot);
    BuiltInSlot(spec, namesById, i);
  }

  /** The masks built at start-up can be re-applied to a group key without changing it, whatever the overriders,
      exactly when the configuration selects extension labels together with their built-in namesakes. */
  lemma {:induction false} BuiltMasksSeparateIff(spec: MaskSpec, namesById: map<nat, string>)
    ensures NamesSeparate(BuildMask(spec, namesById)) <==>
            forall id: nat, i: nat :: id < EXTENSIONS && i < BUILT_INS ==> Agree(spec, namesById, id, i)
  {
    var m := BuildMask(spec, namesById);
    BuiltMaskShape(spec, namesById);
    SeparateIff(m, spec.extensions);
    forall id: nat, i: nat | id < EXTENSIONS && i < BUILT_INS
      ensures Together(m, BUILT_INS + id, i) <==> Agree(spec, namesById, id, i)
    {
      BuiltTogetherIff(spec, namesById, BUILT_INS + id, i);
    }
    forall slot: nat, i: nat | BUILT_INS <= slot < SLOTS && i < BUILT_INS
      ensures Together(m, slot, i) <==> Agree(spec, namesById, slot - BUILT_INS, i)
    {
      BuiltTogetherIff(spec, namesById, slot, i);
    }
  }

  lemma BuiltMaskShape(spec: MaskSpec, namesById: map<nat, string>)
    ensures var m := BuildMask(spec, namesById);
            && (forall i, j :: 0 <= i < j < BUILT_INS ==> m.names[i] != m.names[j])
            && (forall slot :: BUILT_INS <= slot < SLOTS ==> m.keep[slot] == (m.names[slot] in spec.extensions))
  {
    BuiltInNamesDistinct();
    var m := BuildMask(spec, namesById);
    forall i, j | 0 <= i < j < BUILT_INS ensures m.names[i] != m.names[j] {
      BuiltInSlot(spec, namesById, i);
      BuiltInSlot(spec, namesById, j);
    }
    forall slot | BUILT_INS <= slot < SLOTS ensures m.keep[slot] == (m.names[slot] in spec.extensions) {
      ExtensionSlot(spec, namesById, slot);
    }
  }

  /** In particular, when no extension label has a built-in name, re-masking never changes a key. */
  lemma DistinctNamesRemask(spec: MaskSpec, namesById: map<nat, string>, os: seq<Overrider>, l: Labels)
    requires forall id :: id in namesById ==> namesById[id] !in BUILT_IN_NAMES
    ensures RemaskingKeeps(BuildMask(spec, namesById), os, l)
  {
    BuiltInNamesDistinct();
    BuiltMasksSeparateIff(spec, namesById);
    RemaskingIsHarmless(BuildMask(spec, namesById), os, l);
  }

  /** The slot of the built-in `app` label. */
  const APP: nat := 11

  /** Otherwise re-masking can change a key: a mask that keeps the built-in `app` label and does not select the
      extension label of the same name. */
  lemma CollidingMask(l: Labels)
    ensures var spec := MaskSpec("", seq(BUILT_INS, i => i == APP), {}, []);
            !RemaskingKeeps(BuildMask(spec, map[0 := "app"]), [Renaming("app")], l)
  {
    var spec := MaskSpec("", seq(BUILT_INS, i => i == APP), {}, []);
    BuiltInSlot(spec, map[0 := "app"], APP);
    ExtensionSlot(spec, map[0 := "app"], BUILT_INS);
    CollisionLeaks(BuildMask(spec, map[0 := "app"]), APP, BUILT_INS, l);
  }

  lemma BuiltInNamesDistinct()
    ensures forall i, j :: 0 <= i < j < BUILT_INS ==> BUILT_IN_NAMES[i] != BUILT_IN_NAMES[j]
    ensures "" !in BUILT_IN_NAMES && BUILT_IN_NAMES[LEVEL] == "level"
  {
  }
}
