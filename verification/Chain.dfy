/** Aggregation through a chain of levels. */
module Chain {
  import opened Options
  import opened Grouping
  import opened Operations
  import opened Labels
  import opened Pipeline

  datatype Level = Level(mask: Mask, operation: Option<Op>, operations: seq<Op>, noExport: bool)

  /** One exported metric: its level, its operation and its series. */
  datatype Export = Export(level: nat, op: Op, metric: Metric)

  // ---------------------------------------------------------------- the code

  /** Exports the results of one level in some order; the last one feeds the next level. */
  method ExportResults(i: nat, noExport: bool, results: map<Op, Metric>, before: Metric)
      returns (metric: Metric, exports: seq<Export>)
    ensures results.Keys == {} ==> metric == before && exports == []
    ensures results.Keys != {} ==> exists op :: op in results && metric == results[op]
    ensures noExport ==> exports == []
    ensures !noExport ==> forall op :: op in results <==> exists e :: e in exports && e.op == op
    ensures forall e :: e in exports ==> e.op in results && e == Export(i, e.op, results[e.op])
    ensures !noExport ==> |exports| == |results|
  {
    metric, exports := before, [];
    var todo := results.Keys;
    while todo != {}
      invariant todo <= results.Keys
      invariant todo == results.Keys ==> metric == before && exports == []
      invariant todo != results.Keys ==> exists op :: op in results && metric == results[op]
      invariant noExport ==> exports == []
      invariant !noExport ==> forall op :: op in results && op !in todo ==> exists e :: e in exports && e.op == op
      invariant forall e :: e in exports ==> e.op in results && e == Export(i, e.op, results[e.op])
      invariant !noExport ==> |exports| + |todo| == |results|
      decreases |todo|
    {
      var op :| op in todo;
      metric := results[op];
      todo := todo - {op};
      if !noExport {
        var e := Export(i, op, metric);
        exports := exports + [e];
        assert e in exports;
      }
    }
  }

  /** The operations of a level: the list, then the single one. */
  function OpsOf(l: Level): seq<Op> {
    l.operations + if l.operation.Some? then [l.operation.value] else []
  }

  /** Several operations are accepted on the last level only. */
  predicate Skipped(l: Level, last: bool) {
    l.operations != [] && !last
  }

  /** `added` exports, once each and under its own operation, what level `i` makes of `metric`; `next` is
      one of these results. */
  ghost predicate Outcome(
      i: nat, last: bool, l: Level, f: Labels -> Option<Labels>, metric: Metric, next: Metric, added: seq<Export>)
  {
    var ops := OpsOf(l);
    if Skipped(l, last) || ops == [] then next == metric && added == []
    else
      && (exists op :: op in ops && IsLevel(op, metric, f, AnyNeedsSort(ops), next))
      && (l.noExport ==> added == [])
      && (!l.noExport ==> forall op :: op in ops ==> exists e :: e in added && e.op == op)
      && (!l.noExport ==> |added| == |set op | op in ops|)
      && (forall e :: e in added ==>
            e.level == i && e.op in ops && IsLevel(e.op, metric, f, AnyNeedsSort(ops), e.metric))
  }

  method CollectLevel(
      i: nat, last: bool, l: Level, metric: Metric, os: seq<Overrider>, cluster: string,
      ghost f: Labels -> Option<Labels>)
      returns (next: Metric, added: seq<Export>)
    requires f == Assign(l.mask, os, cluster)
    ensures Outcome(i, last, l, f, metric, next, added)
  {
    if Skipped(l, last) {
      return metric, [];
    }
    var ops := OpsOf(l);
    var results := AggregateMetric(ops, metric, l.mask, os, cluster);
    assert results.Keys == set op | op in ops;
    if ops != [] { assert ops[0] in results; }
    next, added := ExportResults(i, l.noExport, results, metric);
  }

  /** All exports of a list of levels. */
  function Joined(parts: seq<seq<Export>>): seq<Export> {
    if parts == [] then [] else Joined(parts[..|parts| - 1]) + parts[|parts| - 1]
  }

  /** How each level files its series. */
  ghost function Filings(levels: seq<Level>, os: seq<Overrider>, cluster: string): (fs: seq<Labels -> Option<Labels>>)
    ensures |fs| == |levels|
    ensures forall i :: 0 <= i < |fs| ==> fs[i] == Assign(levels[i].mask, os, cluster)
  {
    seq<Labels -> Option<Labels>>(|levels|, i requires 0 <= i < |levels| => Assign(levels[i].mask, os, cluster))
  }

  /** `inputs[i]` goes into level `i`, which exports `parts[i]` and hands over `inputs[i + 1]`. */
  ghost predicate Trace(
      levels: seq<Level>, fs: seq<Labels -> Option<Labels>>, raw: Metric, inputs: seq<Metric>, parts: seq<seq<Export>>)
    requires |fs| == |levels|
    decreases |parts|
  {
    && |inputs| == |parts| + 1 && |parts| <= |levels|
    && if parts == [] then inputs == [raw]
       else
         var i := |parts| - 1;
         && Trace(levels, fs, raw, inputs[..i + 1], parts[..i])
         && Outcome(i, i == |levels| - 1, levels[i], fs[i], inputs[i], inputs[i + 1], parts[i])
  }

  /** Level `i` of the chain. */
  method NextLevel(
      levels: seq<Level>, i: nat, raw: Metric, metric: Metric, os: seq<Overrider>, cluster: string,
      ghost fs: seq<Labels -> Option<Labels>>, ghost inputs: seq<Metric>, ghost parts: seq<seq<Export>>)
      returns (next: Metric, added: seq<Export>)
    requires fs == Filings(levels, os, cluster)
    requires i == |parts| < |levels| && |inputs| == i + 1 && inputs[i..] == [metric]
    requires Trace(levels, fs, raw, inputs, parts)
    ensures Trace(levels, fs, raw, inputs + [next], parts + [added])
    ensures Joined(parts + [added]) == Joined(parts) + added
  {
    next, added := CollectLevel(i, i == |levels| - 1, levels[i], metric, os, cluster, fs[i]);
    assert inputs[i] == inputs[i..][0];
    TraceGrows(levels, fs, raw, inputs, parts, next, added);
  }

  /** `exports` is what the chain of levels exports: each level works on what the one before handed on. */
  ghost predicate IsChain(
      levels: seq<Level>, fs: seq<Labels -> Option<Labels>>, raw: Metric, exports: seq<Export>)
    requires |fs| == |levels|
  {
    exists inputs, parts :: |parts| == |levels| && Trace(levels, fs, raw, inputs, parts) && exports == Joined(parts)
  }

  /** Aggregates a metric level by level, exporting as it goes. */
  method AggregateAndCollect(levels: seq<Level>, raw: Metric, os: seq<Overrider>, cluster: string)
      returns (exports: seq<Export>)
    ensures IsChain(levels, Filings(levels, os, cluster), raw, exports)
    ensures exists inputs :: Exported(levels, Filings(levels, os, cluster), raw, inputs, exports)
  {
    exports := [];
    var metric := raw;
    ghost var inputs: seq<Metric>, parts: seq<seq<Export>> := [raw], [];
    ghost var fs := Filings(levels, os, cluster);
    for i := 0 to |levels|
      invariant |parts| == i && |inputs| == i + 1 && Trace(levels, fs, raw, inputs, parts)
      invariant exports == Joined(parts) && inputs[i..] == [metric]
    {
      var next, added := NextLevel(levels, i, raw, metric, os, cluster, fs, inputs, parts);
      assert (inputs + [next])[i + 1..] == [next];
      inputs, parts := inputs + [next], parts + [added];
      metric, exports := next, exports + added;
    }
    ghost var all := ChainExports(levels, fs, raw, exports);
  }

  lemma TraceGrows(
      levels: seq<Level>, fs: seq<Labels -> Option<Labels>>, raw: Metric,
      inputs: seq<Metric>, parts: seq<seq<Export>>, next: Metric, added: seq<Export>)
    requires |fs| == |levels| && |parts| < |levels| && Trace(levels, fs, raw, inputs, parts)
    requires var i := |parts|;
             Outcome(i, i == |levels| - 1, levels[i], fs[i], inputs[i], next, added)
    ensures Trace(levels, fs, raw, inputs + [next], parts + [added])
    ensures Joined(parts + [added]) == Joined(parts) + added
  {
    assert (parts + [added])[..|parts|] == parts && (inputs + [next])[..|inputs|] == inputs;
  }

  // ---------------------------------------------------------------- what a level exports

  /** The operations a level asks for: those of its list, and the single one. */
  ghost predicate Asked(l: Level, op: Op) {
    op in l.operations || l.operation == Some(op)
  }

  /** Whether the level has its groups sorted. */
  ghost predicate AsksForOrder(l: Level) {
    Asked(l, P95) || Asked(l, Median)
  }

  /** A list of operations where only the last level may have one. */
  ghost predicate Refused(levels: seq<Level>, i: nat)
    requires i < |levels|
  {
    levels[i].operations != [] && i + 1 < |levels|
  }

  /** How many exports of level `i` under `op` there are. */
  ghost function Exports(exports: seq<Export>, i: nat, op: Op): nat {
    if exports == [] then 0
    else
      var e := exports[|exports| - 1];
      Exports(exports[..|exports| - 1], i, op) + if e.level == i && e.op == op then 1 else 0
  }

  lemma {:induction false} ExportsOfBoth(a: seq<Export>, b: seq<Export>, i: nat, op: Op)
    ensures Exports(a + b, i, op) == Exports(a, i, op) + Exports(b, i, op)
  {
    if b == [] {
      assert a + b == a;
    } else {
      assert (a + b)[..|a + b| - 1] == a + b[..|b| - 1];
      ExportsOfBoth(a, b[..|b| - 1], i, op);
    }
  }

  lemma {:induction false} NoExports(exports: seq<Export>, i: nat, op: Op)
    requires forall e :: e in exports ==> e.level != i || e.op != op
    ensures Exports(exports, i, op) == 0
  {
    if exports != [] {
      assert exports[|exports| - 1] in exports;
      NoExports(exports[..|exports| - 1], i, op);
    }
  }

  lemma {:induction false} SomeExports(exports: seq<Export>, e: Export)
    requires e in exports
    ensures Exports(exports, e.level, e.op) >= 1
  {
    var n := |exports| - 1;
    if exports[n] != e {
      assert exports == exports[..n] + [exports[n]];
      SomeExports(exports[..n], e);
    }
  }

  /** The operations of these exports. */
  ghost function OpsIn(exports: seq<Export>): set<Op> {
    set e | e in exports :: e.op
  }

  lemma OpsGrow(exports: seq<Export>, e: Export)
    ensures OpsIn(exports + [e]) == OpsIn(exports) + {e.op}
  {
    var more := exports + [e];
    forall op | op in OpsIn(exports) + {e.op} ensures op in OpsIn(more) {
      if op == e.op {
        assert more[|exports|] == e && e in more;
      } else {
        var e' :| e' in exports && e'.op == op;
        assert e' in more;
      }
    }
  }

  lemma {:induction false} FewOps(exports: seq<Export>)
    ensures |OpsIn(exports)| <= |exports|
  {
    if exports != [] {
      var n := |exports| - 1;
      FewOps(exports[..n]);
      OpsGrow(exports[..n], exports[n]);
      assert exports == exports[..n] + [exports[n]];
    } else {
      assert OpsIn(exports) == {};
    }
  }

  /** As many exports as operations: one export each. */
  lemma {:induction false} OnePerOp(exports: seq<Export>, i: nat, op: Op)
    requires |OpsIn(exports)| == |exports| && op in OpsIn(exports)
    requires forall e :: e in exports ==> e.level == i
    ensures Exports(exports, i, op) == 1
  {
    var n := |exports| - 1;
    var before, e := exports[..n], exports[n];
    assert exports == before + [e] && e in exports;
    OpsGrow(before, e);
    FewOps(before);
    if e.op == op {
      assert op !in OpsIn(before);
      NoExports(before, i, op);
    } else {
      OnePerOp(before, i, op);
    }
  }

  /** What a level adds, from the fields of the level alone. */
  ghost predicate Adds(
      levels: seq<Level>, i: nat, f: Labels -> Option<Labels>, metric: Metric, next: Metric, added: seq<Export>)
    requires i < |levels|
  {
    var l := levels[i];
    if Refused(levels, i) then added == [] && next == metric
    else
      && (forall op :: Exports(added, i, op) == if Asked(l, op) && !l.noExport then 1 else 0)
      && (forall e :: e in added ==> e.level == i && IsLevel(e.op, metric, f, AsksForOrder(l), e.metric))
      && (if exists op :: Asked(l, op) then exists op :: Asked(l, op) && IsLevel(op, metric, f, AsksForOrder(l), next)
          else next == metric)
  }

  lemma OpsAreAsked(l: Level)
    ensures forall op :: op in OpsOf(l) <==> Asked(l, op)
    ensures AnyNeedsSort(OpsOf(l)) == AsksForOrder(l)
  {
  }

  lemma OutcomeAdds(
      levels: seq<Level>, i: nat, f: Labels -> Option<Labels>, metric: Metric, next: Metric, added: seq<Export>)
    requires i < |levels| && Outcome(i, i == |levels| - 1, levels[i], f, metric, next, added)
    ensures Adds(levels, i, f, metric, next, added)
  {
    var l := levels[i];
    OpsAreAsked(l);
    if !Refused(levels, i) {
      forall op ensures Exports(added, i, op) == if Asked(l, op) && !l.noExport then 1 else 0 {
        if Asked(l, op) && !l.noExport {
          AllExported(i, l, f, metric, added);
          OnePerOp(added, i, op);
        } else {
          NoExports(added, i, op);
        }
      }
      assert OpsOf(l) == [] || OpsOf(l)[0] in OpsOf(l);
    }
  }

  lemma AllExported(i: nat, l: Level, f: Labels -> Option<Labels>, metric: Metric, added: seq<Export>)
    requires forall op :: op in OpsOf(l) ==> exists e :: e in added && e.op == op
    requires |added| == |set op | op in OpsOf(l)|
    requires forall e :: e in added ==> e.op in OpsOf(l)
    ensures |OpsIn(added)| == |added| && forall op :: op in OpsOf(l) ==> op in OpsIn(added)
  {
    assert OpsIn(added) == set op | op in OpsOf(l);
  }

  /** Level `i` takes `metric`, hands on `next` and adds `added` to the exports. */
  lemma {:induction false} TraceAdds(
      levels: seq<Level>, fs: seq<Labels -> Option<Labels>>, raw: Metric,
      inputs: seq<Metric>, parts: seq<seq<Export>>, i: nat)
    requires |fs| == |levels| && Trace(levels, fs, raw, inputs, parts) && i < |parts|
    ensures inputs[0] == raw && Adds(levels, i, fs[i], inputs[i], inputs[i + 1], parts[i])
    decreases |parts|
  {
    var n := |parts| - 1;
    if i < n {
      TraceAdds(levels, fs, raw, inputs[..n + 1], parts[..n], i);
    } else {
      OutcomeAdds(levels, n, fs[n], inputs[n], inputs[n + 1], parts[n]);
      TraceStart(levels, fs, raw, inputs, parts);
    }
  }

  lemma {:induction false} TraceStart(
      levels: seq<Level>, fs: seq<Labels -> Option<Labels>>, raw: Metric,
      inputs: seq<Metric>, parts: seq<seq<Export>>)
    requires |fs| == |levels| && Trace(levels, fs, raw, inputs, parts)
    ensures inputs[0] == raw
    decreases |parts|
  {
    if parts != [] {
      TraceStart(levels, fs, raw, inputs[..|parts|], parts[..|parts| - 1]);
    }
  }

  /** Every export belongs to the part of its level. */
  lemma {:induction false} JoinedExports(parts: seq<seq<Export>>, i: nat, op: Op)
    requires forall j :: 0 <= j < |parts| ==> forall e :: e in parts[j] ==> e.level == j
    ensures Exports(Joined(parts), i, op) == if i < |parts| then Exports(parts[i], i, op) else 0
  {
    if parts != [] {
      var n := |parts| - 1;
      JoinedExports(parts[..n], i, op);
      ExportsOfBoth(Joined(parts[..n]), parts[n], i, op);
      if i != n {
        NoExports(parts[n], i, op);
      }
    }
  }

  lemma {:induction false} JoinedFrom(parts: seq<seq<Export>>, e: Export) returns (i: nat)
    requires e in Joined(parts)
    ensures i < |parts| && e in parts[i]
  {
    var n := |parts| - 1;
    if e in parts[n] {
      i := n;
    } else {
      i := JoinedFrom(parts[..n], e);
    }
  }

  /** `inputs[i]` goes into level `i` and `inputs[i + 1]` comes out; `exports` holds exactly one export for every
      operation a level asks for, and that is the level's outcome on its input. A list of operations is refused
      unless the level is the last one: it then exports nothing and hands on its input. */
  ghost predicate Exported(
      levels: seq<Level>, fs: seq<Labels -> Option<Labels>>, raw: Metric, inputs: seq<Metric>, exports: seq<Export>)
    requires |fs| == |levels|
  {
    && |inputs| == |levels| + 1 && inputs[0] == raw
    && (forall i: nat, op :: Exports(exports, i, op) ==
          if i < |levels| && !Refused(levels, i) && Asked(levels[i], op) && !levels[i].noExport then 1 else 0)
    && (forall e :: e in exports ==> ExportOf(levels, fs, inputs, e))
    && (forall i: nat :: i < |levels| ==> HandsOn(levels, i, fs[i], inputs[i], inputs[i + 1]))
  }

  /** Export `e` is the outcome of its operation on the input of its level. */
  ghost predicate ExportOf(levels: seq<Level>, fs: seq<Labels -> Option<Labels>>, inputs: seq<Metric>, e: Export)
    requires |fs| == |levels| && |inputs| == |levels| + 1
  {
    e.level < |levels| && IsLevel(e.op, inputs[e.level], fs[e.level], AsksForOrder(levels[e.level]), e.metric)
  }

  lemma PartExport(
      levels: seq<Level>, i: nat, fs: seq<Labels -> Option<Labels>>, inputs: seq<Metric>, part: seq<Export>, e: Export)
    requires |fs| == |levels| && |inputs| == |levels| + 1 && i < |levels| && e in part
    requires Adds(levels, i, fs[i], inputs[i], inputs[i + 1], part)
    ensures ExportOf(levels, fs, inputs, e) && e.level == i
  {
  }

  /** What level `i` hands on: the outcome of one of its operations, or its input. */
  ghost predicate HandsOn(levels: seq<Level>, i: nat, f: Labels -> Option<Labels>, metric: Metric, next: Metric)
    requires i < |levels|
  {
    var l := levels[i];
    if !Refused(levels, i) && exists op :: Asked(l, op) then
      exists op :: Asked(l, op) && IsLevel(op, metric, f, AsksForOrder(l), next)
    else next == metric
  }

  /** Every level adds its part. */
  ghost predicate AllAdd(
      levels: seq<Level>, fs: seq<Labels -> Option<Labels>>, inputs: seq<Metric>, parts: seq<seq<Export>>)
  {
    && |fs| == |parts| == |levels| && |inputs| == |levels| + 1
    && forall i: nat :: i < |levels| ==> Adds(levels, i, fs[i], inputs[i], inputs[i + 1], parts[i])
  }

  lemma PartsBelong(
      levels: seq<Level>, fs: seq<Labels -> Option<Labels>>, inputs: seq<Metric>, parts: seq<seq<Export>>)
    requires AllAdd(levels, fs, inputs, parts)
    ensures forall i :: 0 <= i < |parts| ==>
              forall e :: e in parts[i] ==> ExportOf(levels, fs, inputs, e) && e.level == i
  {
    forall i | 0 <= i < |parts| ensures forall e :: e in parts[i] ==> ExportOf(levels, fs, inputs, e) && e.level == i {
      assert Adds(levels, i, fs[i], inputs[i], inputs[i + 1], parts[i]);
      forall e | e in parts[i] ensures ExportOf(levels, fs, inputs, e) && e.level == i {
        PartExport(levels, i, fs, inputs, parts[i], e);
      }
    }
  }

  lemma PartCount(
      levels: seq<Level>, fs: seq<Labels -> Option<Labels>>, inputs: seq<Metric>, parts: seq<seq<Export>>,
      i: nat, op: Op)
    requires AllAdd(levels, fs, inputs, parts)
    ensures Exports(Joined(parts), i, op) ==
            if i < |levels| && !Refused(levels, i) && Asked(levels[i], op) && !levels[i].noExport then 1 else 0
  {
    PartsBelong(levels, fs, inputs, parts);
    JoinedExports(parts, i, op);
    if i < |levels| {
      assert Adds(levels, i, fs[i], inputs[i], inputs[i + 1], parts[i]);
    }
  }

  lemma PartsExport(
      levels: seq<Level>, fs: seq<Labels -> Option<Labels>>, inputs: seq<Metric>, parts: seq<seq<Export>>)
    requires AllAdd(levels, fs, inputs, parts)
    ensures forall e :: e in Joined(parts) ==> ExportOf(levels, fs, inputs, e)
    ensures forall i: nat :: i < |levels| ==> HandsOn(levels, i, fs[i], inputs[i], inputs[i + 1])
  {
    PartsBelong(levels, fs, inputs, parts);
    forall e | e in Joined(parts) ensures ExportOf(levels, fs, inputs, e) {
      var i := JoinedFrom(parts, e);
    }
    forall i: nat | i < |levels| ensures HandsOn(levels, i, fs[i], inputs[i], inputs[i + 1]) {
      assert Adds(levels, i, fs[i], inputs[i], inputs[i + 1], parts[i]);
    }
  }

  lemma PartsAdd(
      levels: seq<Level>, fs: seq<Labels -> Option<Labels>>, raw: Metric, inputs: seq<Metric>, parts: seq<seq<Export>>)
    requires |fs| == |levels| == |parts| && Trace(levels, fs, raw, inputs, parts)
    ensures AllAdd(levels, fs, inputs, parts) && inputs[0] == raw
  {
    TraceStart(levels, fs, raw, inputs, parts);
    forall i: nat | i < |levels| ensures Adds(levels, i, fs[i], inputs[i], inputs[i + 1], parts[i]) {
      TraceAdds(levels, fs, raw, inputs, parts, i);
    }
  }

  lemma PartsAreExported(
      levels: seq<Level>, fs: seq<Labels -> Option<Labels>>, raw: Metric, inputs: seq<Metric>, parts: seq<seq<Export>>)
    requires AllAdd(levels, fs, inputs, parts) && inputs[0] == raw
    ensures Exported(levels, fs, raw, inputs, Joined(parts))
  {
    PartsExport(levels, fs, inputs, parts);
    forall i: nat, op
      ensures Exports(Joined(parts), i, op) ==
              if i < |levels| && !Refused(levels, i) && Asked(levels[i], op) && !levels[i].noExport then 1 else 0
    {
      PartCount(levels, fs, inputs, parts, i, op);
    }
  }

  /** EVERY OPERATION IS EXPORTED ONCE, and nothing else, whatever the levels. */
  lemma ChainExports(levels: seq<Level>, fs: seq<Labels -> Option<Labels>>, raw: Metric, exports: seq<Export>)
      returns (inputs: seq<Metric>)
    requires |fs| == |levels| && IsChain(levels, fs, raw, exports)
    ensures Exported(levels, fs, raw, inputs, exports)
  {
    var parts;
    inputs, parts :| |parts| == |levels| && Trace(levels, fs, raw, inputs, parts) && exports == Joined(parts);
    PartsAdd(levels, fs, raw, inputs, parts);
    PartsAreExported(levels, fs, raw, inputs, parts);
  }

  // ---------------------------------------------------------------- chains of one fold

  /** The operation that folds a group. */
  function FoldOp(o: Fold): Op {
    match o case AddUp => Sum case TakeMax => Max
  }

  /** Every level applies the single operation of `o`. */
  ghost predicate AllFold(levels: seq<Level>, o: Fold) {
    forall i :: 0 <= i < |levels| ==> levels[i].operation == Some(FoldOp(o)) && levels[i].operations == []
  }

  /** How the first `n` levels together file a series of the raw metric. */
  ghost function Through(fs: seq<Labels -> Option<Labels>>, n: nat): Labels -> Option<Labels>
    requires 1 <= n <= |fs|
  {
    if n == 1 then fs[0] else Compose(Through(fs, n - 1), fs[n - 1])
  }

  /** The metric after the first `n` levels, when level `i` is computed from the raw metric by grouping `gs[i]`. */
  ghost function Reached(gs: seq<Labels -> Option<Labels>>, n: nat, o: Fold, raw: Metric): Metric
    requires n <= |gs|
  {
    if n == 0 then raw else Collapse(o, raw, gs[n - 1])
  }

  /** The exports of the first `n` levels when every level is computed directly from the raw metric. */
  ghost function Direct(
      levels: seq<Level>, gs: seq<Labels -> Option<Labels>>, n: nat, o: Fold, raw: Metric): seq<Export>
    requires n <= |levels| == |gs|
  {
    if n == 0 then []
    else
      Direct(levels, gs, n - 1, o, raw) +
      if levels[n - 1].noExport then [] else [Export(n - 1, FoldOp(o), Reached(gs, n, o, raw))]
  }

  /** The composed groupings, level by level. */
  ghost function Composed(fs: seq<Labels -> Option<Labels>>): (gs: seq<Labels -> Option<Labels>>)
    ensures |gs| == |fs|
    ensures forall i :: 0 <= i < |fs| ==> gs[i] == Through(fs, i + 1)
  {
    seq<Labels -> Option<Labels>>(|fs|, i requires 0 <= i < |fs| => Through(fs, i + 1))
  }

  lemma CollapseBy<G(!new)>(o: Fold, m: Metric, f: Labels -> Option<G>, f': Labels -> Option<G>)
    requires forall l: Labels :: f(l) == f'(l)
    ensures Collapse(o, m, f) == Collapse(o, m, f')
  {
    forall g ensures Bag(m, f, g) == Bag(m, f', g) {
      BagSame(m, f, f', g);
    }
    assert Groups(m, f) == Groups(m, f');
  }

  lemma FoldedGroup(o: Fold, b: multiset<int>, sorted: bool, g: Labels, out: Metric)
    requires ResultFor(FoldOp(o), b, sorted, g, out) && (o.TakeMax? ==> !sorted)
    ensures g in out <==> b != multiset{}
    ensures g in out ==> out[g] == [FoldBag(o, b)]
  {
  }

  /** The result of a single folding operation is the collapse of the metric. */
  lemma LevelIsCollapse(o: Fold, m: Metric, f: Labels -> Option<Labels>, sorted: bool, out: Metric)
    requires IsLevel(FoldOp(o), m, f, sorted, out) && (o.TakeMax? ==> !sorted)
    ensures out == Collapse(o, m, f)
  {
    var c := Collapse(o, m, f);
    forall g: Labels ensures (g in out <==> g in c) && (g in out ==> out[g] == c[g]) {
      GroupsAre(m, f, g);
      FoldedGroup(o, Bag(m, f, g), sorted, g, out);
    }
  }

  /** A level with the single operation of `o` hands over and exports the collapse of its input. */
  lemma SingleOperation(
      o: Fold, i: nat, last: bool, l: Level, f: Labels -> Option<Labels>,
      metric: Metric, next: Metric, added: seq<Export>)
    requires l.operation == Some(FoldOp(o)) && l.operations == []
    requires Outcome(i, last, l, f, metric, next, added)
    ensures next == Collapse(o, metric, f)
    ensures added == if l.noExport then [] else [Export(i, FoldOp(o), next)]
  {
    var op := FoldOp(o);
    assert OpsOf(l) == [op];
    assert !AnyNeedsSort([op]);
    LevelIsCollapse(o, metric, f, false, next);
    if !l.noExport {
      assert (set p | p in [op]) == {op};
      var e := added[0];
      assert e in added;
      LevelIsCollapse(o, metric, f, false, e.metric);
      assert added == [e];
    }
  }

  /** One more level on top of the composed ones. */
  lemma ReachedStep(fs: seq<Labels -> Option<Labels>>, i: nat, o: Fold, raw: Metric)
    requires i < |fs|
    ensures Collapse(o, Reached(Composed(fs), i, o, raw), fs[i]) == Reached(Composed(fs), i + 1, o, raw)
  {
    if i > 0 {
      assert Composed(fs)[i - 1] == Through(fs, i - 1 + 1);
      CollapseTwice(o, raw, Through(fs, i), fs[i]);
    }
  }

  lemma {:induction false} TraceIsComposed(
      levels: seq<Level>, fs: seq<Labels -> Option<Labels>>, o: Fold, raw: Metric,
      inputs: seq<Metric>, parts: seq<seq<Export>>)
    requires |fs| == |levels| && AllFold(levels, o) && Trace(levels, fs, raw, inputs, parts)
    ensures inputs[|parts|] == Reached(Composed(fs), |parts|, o, raw)
    ensures Joined(parts) == Direct(levels, Composed(fs), |parts|, o, raw)
    decreases |parts|
  {
    if parts != [] {
      var i := |parts| - 1;
      TraceIsComposed(levels, fs, o, raw, inputs[..i + 1], parts[..i]);
      SingleOperation(o, i, i == |levels| - 1, levels[i], fs[i], inputs[i], inputs[i + 1], parts[i]);
      ReachedStep(fs, i, o, raw);
    }
  }

  /** THE CHAIN LAW. When all levels sum, or all take the maximum, then whatever the masks, the filters and the
      overriders, every level exports what the raw metric gives in one step, each series being filed through all
      the levels up to that one. */
  lemma {:induction false} ChainIsComposed(
      levels: seq<Level>, fs: seq<Labels -> Option<Labels>>, o: Fold, raw: Metric, exports: seq<Export>)
    requires |fs| == |levels| && AllFold(levels, o) && IsChain(levels, fs, raw, exports)
    ensures exports == Direct(levels, Composed(fs), |levels|, o, raw)
  {
    var inputs, parts :| |parts| == |levels| && Trace(levels, fs, raw, inputs, parts) && exports == Joined(parts);
    TraceIsComposed(levels, fs, o, raw, inputs, parts);
  }

  /** Filing by `f` first makes no difference to `f'`. */
  ghost predicate Absorbs(f: Labels -> Option<Labels>, f': Labels -> Option<Labels>) {
    forall l: Labels :: Compose(f, f')(l) == f'(l)
  }

  ghost predicate AllAbsorb(fs: seq<Labels -> Option<Labels>>) {
    forall i, j :: 0 <= i && j == i + 1 < |fs| ==> Absorbs(fs[i], fs[j])
  }

  /** Then filing through all the levels is filing by the last one. */
  lemma {:induction false} ThroughIsLast(fs: seq<Labels -> Option<Labels>>, n: nat, l: Labels)
    requires AllAbsorb(fs) && 1 <= n <= |fs|
    ensures Through(fs, n)(l) == fs[n - 1](l)
  {
    if n > 1 {
      ThroughIsLast(fs, n - 1, l);
      assert Absorbs(fs[n - 2], fs[n - 1]);
      assert Compose(fs[n - 2], fs[n - 1])(l) == fs[n - 1](l);
    }
  }

  lemma {:induction false} DirectSame(
      levels: seq<Level>, gs: seq<Labels -> Option<Labels>>, gs': seq<Labels -> Option<Labels>>,
      n: nat, o: Fold, raw: Metric)
    requires n <= |levels| == |gs| == |gs'|
    requires forall i :: 0 <= i < |gs| ==> Collapse(o, raw, gs[i]) == Collapse(o, raw, gs'[i])
    ensures Direct(levels, gs, n, o, raw) == Direct(levels, gs', n, o, raw)
  {
    if n > 0 {
      DirectSame(levels, gs, gs', n - 1, o, raw);
    }
  }

  lemma AbsorbingCollapse(fs: seq<Labels -> Option<Labels>>, i: nat, o: Fold, raw: Metric)
    requires AllAbsorb(fs) && i < |fs|
    ensures Collapse(o, raw, Composed(fs)[i]) == Collapse(o, raw, fs[i])
  {
    var g := Through(fs, i + 1);
    forall l: Labels ensures g(l) == fs[i](l) {
      ThroughIsLast(fs, i + 1, l);
    }
    CollapseBy(o, raw, g, fs[i]);
  }

  lemma ChainOfAbsorbing(levels: seq<Level>, fs: seq<Labels -> Option<Labels>>, o: Fold, raw: Metric)
    requires |fs| == |levels| && AllAbsorb(fs)
    ensures Direct(levels, Composed(fs), |levels|, o, raw) == Direct(levels, fs, |levels|, o, raw)
  {
    forall i | 0 <= i < |fs| ensures Collapse(o, raw, Composed(fs)[i]) == Collapse(o, raw, fs[i]) {
      AbsorbingCollapse(fs, i, o, raw);
    }
    DirectSame(levels, Composed(fs), fs, |levels|, o, raw);
  }

  /** No filters, and each level keeps a subset of the labels of the one before. */
  ghost predicate Coarsening(levels: seq<Level>) {
    && (forall i :: 0 <= i < |levels| ==> levels[i].mask.filters == [])
    && (forall i, j :: 0 <= i && j == i + 1 < |levels| ==> Coarser(levels[j].mask, levels[i].mask))
  }

  /** `f` files every series under its labels as masked by `m`. */
  ghost predicate FilesByMask(f: Labels -> Option<Labels>, m: Mask) {
    forall l: Labels :: f(l) == Some(MaskLabels(m, l))
  }

  /** Without filters and overriders a level files by its mask. */
  lemma PlainFiling(m: Mask, cluster: string)
    requires m.filters == []
    ensures FilesByMask(Assign(m, [], cluster), m)
  {
    forall l: Labels ensures Assign(m, [], cluster)(l) == Some(MaskLabels(m, l)) {
      WithoutOverriders(m, l);
    }
  }

  /** A coarser mask absorbs a finer one. */
  lemma CoarserAbsorbs(f: Labels -> Option<Labels>, fine: Mask, f': Labels -> Option<Labels>, coarse: Mask)
    requires FilesByMask(f, fine) && FilesByMask(f', coarse) && Coarser(coarse, fine)
    ensures Absorbs(f, f')
  {
    forall l: Labels ensures Compose(f, f')(l) == f'(l) {
      MaskTwice(fine, coarse, l);
    }
  }

  /** So without filters and overriders, when each level keeps a subset of the labels of the one before, every
      level exports what it would export if it were computed from the raw metric alone. */
  lemma {:induction false} ChainIsDirect(
      levels: seq<Level>, o: Fold, raw: Metric, cluster: string, exports: seq<Export>)
    requires AllFold(levels, o) && Coarsening(levels)
    requires IsChain(levels, Filings(levels, [], cluster), raw, exports)
    ensures exports == Direct(levels, Filings(levels, [], cluster), |levels|, o, raw)
  {
    var fs := Filings(levels, [], cluster);
    forall i, j | 0 <= i && j == i + 1 < |fs| ensures Absorbs(fs[i], fs[j]) {
      PlainFiling(levels[i].mask, cluster);
      PlainFiling(levels[j].mask, cluster);
      CoarserAbsorbs(fs[i], levels[i].mask, fs[j], levels[j].mask);
    }
    ChainIsComposed(levels, fs, o, raw, exports);
    ChainOfAbsorbing(levels, fs, o, raw);
  }

  // ---------------------------------------------------------------- conservation

  /** Whatever the mask, the filters and the overriders, a sum level keeps the total of the values that
      pass the filters: however its values and the passing ones are listed, they add up to the same. */
  lemma SumKeepsTheTotal(m: Metric, f: Labels -> Option<Labels>, sorted: bool, out: Metric)
    requires IsLevel(Sum, m, f, sorted, out)
    ensures forall xs, ys :: multiset(xs) == Bag(out, Everything(), ()) && multiset(ys) == Bag(m, Filed(f), ()) ==>
              Total(xs) == Total(ys)
  {
    SumKeepsTheFold(m, f, sorted, out);
    forall xs, ys | multiset(xs) == Bag(out, Everything(), ()) && multiset(ys) == Bag(m, Filed(f), ())
      ensures Total(xs) == Total(ys)
    {
      AddUpIsTotal(xs);
      AddUpIsTotal(ys);
    }
  }

  lemma SumKeepsTheFold(m: Metric, f: Labels -> Option<Labels>, sorted: bool, out: Metric)
    requires IsLevel(Sum, m, f, sorted, out)
    ensures FoldBag(AddUp, Bag(out, Everything(), ())) == FoldBag(AddUp, Bag(m, Filed(f), ()))
  {
    assert out == Collapse(AddUp, m, f) by { LevelIsCollapse(AddUp, m, f, sorted, out); }
    FoldThroughLevel(AddUp, m, f, Everything(), ());
    PassingBag(m, f);
  }

  lemma PassingBag(m: Metric, f: Labels -> Option<Labels>)
    ensures Bag(m, Compose(f, Everything()), ()) == Bag(m, Filed(f), ())
  {
    BagSame(m, Compose(f, Everything()), Filed(f), ());
  }
}
