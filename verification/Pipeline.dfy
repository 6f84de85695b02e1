/** The aggregation pipeline: group, reduce with several operations, and chain through levels. */
module Pipeline {
  import opened Options
  import opened Grouping
  import opened Operations
  import opened Labels

  /** The series of one metric. */
  type Metric = map<Labels, seq<int>>

  // ---------------------------------------------------------------- grouping

  /** Every series counts, whatever its labels. */
  ghost function Everything(): Labels -> Option<()> {
    (l: Labels) => Some(())
  }

  /** A series counts when the level files it somewhere. */
  ghost function Filed(f: Labels -> Option<Labels>): Labels -> Option<()> {
    (l: Labels) => if f(l).Some? then Some(()) else None
  }

  /** The group of one series, computed as the code does: mask, list the values, let the overriders
      rewrite them in place, then judge them by the filters. */
  method FileSeries(mask: Mask, os: seq<Overrider>, cluster: string, l: Labels) returns (r: Option<Labels>)
    ensures r == Assign(mask, os, cluster)(l)
  {
    var names := LabelNames(mask);
    var labels := MaskLabels(mask, l);
    var start := LabelValues(mask, labels);
    var values := new string[|start|](i requires 0 <= i < |start| => start[i]);
    assert values[..] == start;
    var changes := OverrideValues(os, values, names);
    var key := OverrideLabels(mask, labels, changes);
    r := if Passes(mask, values[..], cluster) then Some(key) else None;
  }

  /** The group of one series, as level `f` files it. */
  method KeyFor(mask: Mask, os: seq<Overrider>, cluster: string, l: Labels, ghost f: Labels -> Option<Labels>)
      returns (key: Option<Labels>)
    requires f == Assign(mask, os, cluster)
    ensures key == f(l)
  {
    key := FileSeries(mask, os, cluster, l);
  }

  /** Appends the values of one series to its group. */
  method AddSeries(indexed: Metric, todo: Metric, l: Labels, key: Option<Labels>, ghost f: Labels -> Option<Labels>)
      returns (after: Metric)
    requires l in todo && key == f(l)
    ensures OneStep(indexed, after, todo, f, l)
  {
    after := if key.Some? then indexed[key.value := Get(indexed, key.value) + todo[l]] else indexed;
  }

  /** One turn of the grouping loop. */
  method FileOne(
      indexed: Metric, todo: Metric, l: Labels, mask: Mask, os: seq<Overrider>, cluster: string,
      ghost m: Metric, ghost f: Labels -> Option<Labels>)
      returns (after: Metric)
    requires f == Assign(mask, os, cluster) && l in todo && Partitioned(indexed, todo, m, f)
    ensures Partitioned(after, todo - {l}, m, f) && |todo - {l}| < |todo|
  {
    var key := KeyFor(mask, os, cluster, l, f);
    after := AddSeries(indexed, todo, l, key, f);
    StepKeepsPartition(indexed, after, todo, m, f, l);
    Shrinks(todo, l);
  }

  /** Files the values of every series under its group. */
  method GroupSeriesBy(
      m: Metric, mask: Mask, os: seq<Overrider>, cluster: string, ghost f: Labels -> Option<Labels>)
      returns (indexed: Metric)
    requires f == Assign(mask, os, cluster)
    ensures Partitioned(indexed, map[], m, f)
  {
    indexed := map[];
    var todo := m;
    StartsPartitioned(m, f);
    while |todo| > 0
      invariant Partitioned(indexed, todo, m, f)
      decreases |todo|
    {
      var l :| l in todo;
      indexed := FileOne(indexed, todo, l, mask, os, cluster, m, f);
      todo := todo - {l};
    }
    NothingLeft(todo);
  }

  lemma NothingLeft(todo: Metric)
    requires |todo| == 0
    ensures todo == map[]
  {
  }

  /** The groups partition the values that pass the filters: each group holds the bag of the series filed
      under it, and together they hold every passing value once. */
  method GroupSeries(m: Metric, mask: Mask, os: seq<Overrider>, cluster: string) returns (indexed: Metric)
    ensures forall g: Labels :: multiset(Get(indexed, g)) == Bag(m, Assign(mask, os, cluster), g)
    ensures Bag(indexed, Everything(), ()) == Bag(m, Filed(Assign(mask, os, cluster)), ())
  {
    ghost var f := Assign(mask, os, cluster);
    indexed := GroupSeriesBy(m, mask, os, cluster, f);
    EndsPartitioned(indexed, map[], m, f);
  }

  /** The groups so far and the series still to do make up the metric. */
  ghost predicate Partitioned(indexed: Metric, todo: Metric, m: Metric, f: Labels -> Option<Labels>) {
    && (forall g: Labels :: multiset(Get(indexed, g)) + Bag(todo, f, g) == Bag(m, f, g))
    && Bag(indexed, Everything(), ()) + Bag(todo, Filed(f), ()) == Bag(m, Filed(f), ())
  }

  lemma StartsPartitioned(m: Metric, f: Labels -> Option<Labels>)
    ensures Partitioned(map[], m, m, f)
  {
  }

  lemma EndsPartitioned(indexed: Metric, todo: Metric, m: Metric, f: Labels -> Option<Labels>)
    requires Partitioned(indexed, todo, m, f) && |todo| == 0
    ensures forall g: Labels :: multiset(Get(indexed, g)) == Bag(m, f, g)
    ensures Bag(indexed, Everything(), ()) == Bag(m, Filed(f), ())
  {
    forall g: Labels ensures multiset(Get(indexed, g)) == Bag(m, f, g) {
      assert Bag(todo, f, g) == multiset{};
    }
    assert Bag(todo, Filed(f), ()) == multiset{};
  }

  lemma StepKeepsPartition(
      before: Metric, after: Metric, todo: Metric, m: Metric, f: Labels -> Option<Labels>, l: Labels)
    requires l in todo && OneStep(before, after, todo, f, l) && Partitioned(before, todo, m, f)
    ensures Partitioned(after, todo - {l}, m, f)
  {
    StepKeepsTotal(before, after, todo, f, l);
    forall g: Labels ensures multiset(Get(after, g)) + Bag(todo - {l}, f, g) == Bag(m, f, g) {
      StepKeepsGroup(before, after, todo, f, l, g);
    }
  }

  /** What one turn of the loop does to the groups. */
  ghost predicate OneStep(before: Metric, after: Metric, todo: Metric, f: Labels -> Option<Labels>, l: Labels)
    requires l in todo
  {
    after == match f(l)
             case None => before
             case Some(g) => before[g := Get(before, g) + todo[l]]
  }

  lemma StepKeepsGroup(
      before: Metric, after: Metric, todo: Metric, f: Labels -> Option<Labels>, l: Labels, g: Labels)
    requires l in todo && OneStep(before, after, todo, f, l)
    ensures multiset(Get(after, g)) + Bag(todo - {l}, f, g) == multiset(Get(before, g)) + Bag(todo, f, g)
  {
    BagRemove(todo, f, g, l);
  }

  lemma StepKeepsTotal(before: Metric, after: Metric, todo: Metric, f: Labels -> Option<Labels>, l: Labels)
    requires l in todo && OneStep(before, after, todo, f, l)
    ensures Bag(after, Everything(), ()) + Bag(todo - {l}, Filed(f), ()) ==
            Bag(before, Everything(), ()) + Bag(todo, Filed(f), ())
  {
    var done, rest := Bag(before, Everything(), ()), Bag(todo - {l}, Filed(f), ());
    BagRemove(todo, Filed(f), (), l);
    if f(l).Some? {
      assert Bag(todo, Filed(f), ()) == multiset(todo[l]) + rest;
      BagAppend(before, Everything(), (), f(l).value, todo[l]);
      Regroup(done, multiset(todo[l]), rest);
    }
  }

  lemma Shrinks(m: Metric, l: Labels)
    requires l in m
    ensures |m - {l}| < |m|
  {
    assert (m - {l}).Keys == m.Keys - {l};
  }

  lemma Regroup(a: multiset<int>, b: multiset<int>, c: multiset<int>)
    ensures (a + b) + c == a + (b + c)
  {
  }

  // ---------------------------------------------------------------- several operations at once

  /** Whether some operation asks for sorted values. */
  predicate AnyNeedsSort(ops: seq<Op>) {
    exists op :: op in ops && NeedsSort(op)
  }

  /** Sorts every group once, if any operation needs it. */
  method SortGroups(indexed: Metric, ops: seq<Op>) returns (groups: Metric, sorted: bool)
    ensures sorted == AnyNeedsSort(ops)
    ensures groups == if sorted then map g | g in indexed :: Sorted(indexed[g]) else indexed
  {
    groups, sorted := indexed, false;
    for i := 0 to |ops|
      invariant !sorted && groups == indexed && forall j :: 0 <= j < i ==> !NeedsSort(ops[j])
    {
      if NeedsSort(ops[i]) {
        groups := map g | g in indexed :: Sorted(indexed[g]);
        sorted := true;
        break;
      }
    }
  }

  /** One operation applied to every non-empty group. */
  ghost predicate Reduced(op: Op, groups: Metric, sorted: bool, out: Metric) {
    && (forall g: Labels :: g in out <==> Get(groups, g) != [])
    && (forall g: Labels :: g in out ==> out[g] != [] && IsResult(op, multiset(groups[g]), sorted, out[g]))
  }

  /** Progress of one worker: the groups still to do, and the results so far. */
  datatype Worker = Worker(op: Op, todo: set<Labels>, out: Metric)

  ghost predicate WorkerOk(w: Worker, groups: Metric, sorted: bool) {
    && w.todo <= groups.Keys
    && (forall g: Labels :: g in w.out <==> g in groups && g !in w.todo && groups[g] != [])
    && (forall g: Labels :: g in w.out ==> w.out[g] != [] && IsResult(w.op, multiset(groups[g]), sorted, w.out[g]))
  }

  /** One worker reduces one group. The shared list comes back unchanged: the sort inside `Aggregate`
      cannot be reached from here. */
  method WorkerStep(w: Worker, g: Labels, groups: Metric, sorted: bool)
      returns (w': Worker, groups': Metric)
    requires g in w.todo && WorkerOk(w, groups, sorted)
    requires sorted ==> forall g: Labels :: g in groups ==> IsSorted(groups[g])
    requires NeedsSort(w.op) ==> sorted
    ensures groups' == groups
    ensures w'.op == w.op && w'.todo == w.todo - {g} && WorkerOk(w', groups, sorted)
  {
    groups' := groups;
    w' := w.(todo := w.todo - {g});
    if groups[g] != [] {
      var result, after := Aggregate(w.op, groups[g], sorted);
      groups' := groups'[g := after];
      w' := w'.(out := w.out[g := result]);
    }
  }

  ghost predicate AllOk(ws: seq<Worker>, ops: seq<Op>, groups: Metric, sorted: bool) {
    && |ws| == |ops|
    && forall i :: 0 <= i < |ops| ==> ws[i].op == ops[i] && WorkerOk(ws[i], groups, sorted)
  }

  lemma FreshWorkerOk(op: Op, groups: Metric, sorted: bool)
    ensures WorkerOk(Worker(op, groups.Keys, map[]), groups, sorted)
  {
  }

  lemma ReplaceWorker(ws: seq<Worker>, ops: seq<Op>, groups: Metric, sorted: bool, i: nat, w: Worker)
    requires AllOk(ws, ops, groups, sorted) && i < |ops| && w.op == ops[i] && WorkerOk(w, groups, sorted)
    ensures AllOk(ws[i := w], ops, groups, sorted)
  {
  }

  /** One worker per operation, none of them begun. */
  method StartWorkers(groups: Metric, ops: seq<Op>, sorted: bool) returns (workers: seq<Worker>)
    ensures AllOk(workers, ops, groups, sorted)
  {
    workers := seq(|ops|, i requires 0 <= i < |ops| => Worker(ops[i], groups.Keys, map[]));
    forall i | 0 <= i < |ops| ensures WorkerOk(workers[i], groups, sorted) {
      FreshWorkerOk(ops[i], groups, sorted);
    }
  }

  /** Worker `i` reduces group `g`. */
  method RunStep(workers: seq<Worker>, ops: seq<Op>, groups: Metric, sorted: bool, i: nat, g: Labels)
      returns (next: seq<Worker>, shared: Metric)
    requires AllOk(workers, ops, groups, sorted) && i < |workers| && g in workers[i].todo
    requires sorted ==> forall h: Labels :: h in groups ==> IsSorted(groups[h])
    requires sorted == AnyNeedsSort(ops)
    ensures shared == groups && AllOk(next, ops, groups, sorted)
    ensures Remaining(next) < Remaining(workers)
  {
    var w;
    assert ops[i] in ops;
    w, shared := WorkerStep(workers[i], g, groups, sorted);
    RemainingDrops(workers, i, w);
    ReplaceWorker(workers, ops, groups, sorted, i, w);
    next := workers[i := w];
  }

  /** The parallel phase: one worker per operation, their steps interleaved in any order. */
  method RunWorkers(groups: Metric, ops: seq<Op>, sorted: bool) returns (workers: seq<Worker>)
    requires sorted ==> forall g: Labels :: g in groups ==> IsSorted(groups[g])
    requires sorted == AnyNeedsSort(ops)
    ensures AllOk(workers, ops, groups, sorted)
    ensures forall i :: 0 <= i < |workers| ==> workers[i].todo == {}
  {
    var shared := groups;
    workers := StartWorkers(groups, ops, sorted);
    while exists i :: 0 <= i < |workers| && workers[i].todo != {}
      invariant shared == groups && AllOk(workers, ops, groups, sorted)
      decreases Remaining(workers)
    {
      var i :| 0 <= i < |workers| && workers[i].todo != {};
      var g :| g in workers[i].todo;
      workers, shared := RunStep(workers, ops, shared, sorted, i, g);
    }
  }

  /** The results of all operations, by operation. */
  method ReduceInParallel(groups: Metric, ops: seq<Op>, sorted: bool) returns (results: map<Op, Metric>)
    requires sorted ==> forall g: Labels :: g in groups ==> IsSorted(groups[g])
    requires sorted == AnyNeedsSort(ops)
    ensures forall op :: op in results <==> op in ops
    ensures forall op :: op in results ==> Reduced(op, groups, sorted, results[op])
  {
    var workers := RunWorkers(groups, ops, sorted);
    results := map[];
    for i := 0 to |ops|
      invariant forall op :: op in results <==> op in ops[..i]
      invariant forall op :: op in results ==> Reduced(op, groups, sorted, results[op])
    {
      assert WorkerOk(workers[i], groups, sorted) && workers[i].todo == {};
      WorkerDone(workers[i], groups, sorted);
      assert ops[..i + 1] == ops[..i] + [ops[i]];
      results := results[ops[i] := workers[i].out];
    }
    assert ops[..|ops|] == ops;
  }

  lemma WorkerDone(w: Worker, groups: Metric, sorted: bool)
    requires WorkerOk(w, groups, sorted) && w.todo == {}
    ensures Reduced(w.op, groups, sorted, w.out)
  {
  }

  ghost function Remaining(ws: seq<Worker>): nat {
    if ws == [] then 0 else Remaining(ws[..|ws| - 1]) + |ws[|ws| - 1].todo|
  }

  lemma {:induction false} RemainingDrops(ws: seq<Worker>, i: nat, w: Worker)
    requires i < |ws| && |w.todo| < |ws[i].todo|
    ensures Remaining(ws[i := w]) < Remaining(ws)
  {
    var n := |ws| - 1;
    if i < n {
      RemainingDrops(ws[..n], i, w);
      assert ws[i := w][..n] == ws[..n][i := w];
    } else {
      assert ws[i := w][..n] == ws[..n];
    }
  }

  /** All operations of one level. */
  method AggregateMetric(ops: seq<Op>, m: Metric, mask: Mask, os: seq<Overrider>, cluster: string)
      returns (results: map<Op, Metric>)
    ensures forall op :: op in results <==> op in ops
    ensures forall op :: op in results ==>
      IsLevel(op, m, Assign(mask, os, cluster), AnyNeedsSort(ops), results[op])
  {
    var indexed := GroupSeries(m, mask, os, cluster);
    var groups, sorted := SortGroups(indexed, ops);
    results := ReduceInParallel(groups, ops, sorted);
    forall op | op in results
      ensures IsLevel(op, m, Assign(mask, os, cluster), AnyNeedsSort(ops), results[op])
    {
      SameBags(m, Assign(mask, os, cluster), indexed, groups, op, sorted, results[op]);
    }
  }

  /** `out` holds the outcome of `op` for exactly the groups that received a value. */
  ghost predicate IsLevel(op: Op, m: Metric, f: Labels -> Option<Labels>, sorted: bool, out: Metric) {
    forall g: Labels :: ResultFor(op, Bag(m, f, g), sorted, g, out)
  }

  /** Sorting a group does not change its bag. */
  lemma SameBag(indexed: Metric, groups: Metric, sorted: bool, g: Labels, b: multiset<int>)
    requires multiset(Get(indexed, g)) == b
    requires groups == if sorted then map h | h in indexed :: Sorted(indexed[h]) else indexed
    ensures multiset(Get(groups, g)) == b && (Get(groups, g) == [] <==> b == multiset{})
  {
    var xs := Get(groups, g);
    if xs != [] { assert xs[0] in multiset(xs); }
  }

  /** The result for one group, in terms of its bag. */
  ghost predicate ResultFor(op: Op, b: multiset<int>, sorted: bool, g: Labels, out: Metric) {
    && (g in out <==> b != multiset{})
    && (g in out ==> out[g] != [] && IsResult(op, b, sorted, out[g]))
  }

  lemma ReducedGroup(op: Op, groups: Metric, sorted: bool, out: Metric, g: Labels, b: multiset<int>)
    requires Reduced(op, groups, sorted, out)
    requires multiset(Get(groups, g)) == b && (Get(groups, g) == [] <==> b == multiset{})
    ensures ResultFor(op, b, sorted, g, out)
  {
  }

  lemma SameBags(
      m: Metric, f: Labels -> Option<Labels>, indexed: Metric, groups: Metric, op: Op, sorted: bool, out: Metric)
    requires forall g: Labels :: multiset(Get(indexed, g)) == Bag(m, f, g)
    requires groups == if sorted then map g | g in indexed :: Sorted(indexed[g]) else indexed
    requires Reduced(op, groups, sorted, out)
    ensures IsLevel(op, m, f, sorted, out)
  {
    forall g: Labels ensures ResultFor(op, Bag(m, f, g), sorted, g, out) {
      SameBag(indexed, groups, sorted, g, Bag(m, f, g));
      ReducedGroup(op, groups, sorted, out, g, Bag(m, f, g));
    }
  }

  // ---------------------------------------------------------------- the shared sort

  /** How one group fares under `op` with and without the shared sort. */
  ghost predicate SameOutcome(op: Op, b: multiset<int>, sorted: bool, sorted': bool, out: seq<int>, out': seq<int>) {
    match op
    case Hist => multiset(out) == multiset(out')
    case Max => out == out' <==> (sorted != sorted' ==> exists x :: x in b && x >= 0)
    case _ => out == out'
  }

  lemma SharingInGroup(op: Op, b: multiset<int>, sorted: bool, out: seq<int>, sorted': bool, out': seq<int>)
    requires b != multiset{} && IsResult(op, b, sorted, out) && IsResult(op, b, sorted', out')
    ensures SameOutcome(op, b, sorted, sorted', out, out')
  {
    if !op.Max? {
      SharingTheSort(op, b, sorted, out, sorted', out');
    } else if sorted && !sorted' {
      SharingTheSortMax(b, out, out');
    } else if sorted' && !sorted {
      SharingTheSortMax(b, out', out);
    }
  }

  /** SHARING THE SORT IS INVISIBLE on a whole level: computed alone, or beside operations that have every group
      sorted, an operation gives the same groups with the same values, histograms up to order; the maximum of
      a group exactly when the group has a value that is not negative. */
  lemma {:induction false} SharingTheSortOnLevel(
      op: Op, m: Metric, f: Labels -> Option<Labels>, sorted: bool, out: Metric, sorted': bool, out': Metric)
    requires IsLevel(op, m, f, sorted, out) && IsLevel(op, m, f, sorted', out')
    ensures out.Keys == out'.Keys
    ensures forall g: Labels :: g in out ==> SameOutcome(op, Bag(m, f, g), sorted, sorted', out[g], out'[g])
  {
    forall g: Labels
      ensures g in out <==> g in out'
      ensures g in out ==> SameOutcome(op, Bag(m, f, g), sorted, sorted', out[g], out'[g])
    {
      assert ResultFor(op, Bag(m, f, g), sorted, g, out) && ResultFor(op, Bag(m, f, g), sorted', g, out');
      if g in out {
        SharingInGroup(op, Bag(m, f, g), sorted, out[g], sorted', out'[g]);
      }
    }
  }
}
