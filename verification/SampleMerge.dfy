/** Sample writers and the merge together: what the streams of any number of sample writers say
    once their trees are merged and their numbers translated. */
module SampleMerge {
  import opened CallingContexts
  import opened CctxTrace
  import opened Options
  import opened LocalTree
  import opened CctxMerge
  import opened SampleWriter
  import opened SampleStream

  /** What one sample writer gets to see in its lifetime. */
  datatype Measurement = Measurement(cfg: Config, start: Time, records: seq<Record>, now: Time)

  predicate Proper(x: Measurement) {
    forall r :: r in x.records ==> ValidRecord(x.cfg, r)
  }

  /** The reference stream of the writer. */
  function StreamOf(x: Measurement): seq<Event<Path>>
    requires Proper(x)
  {
    Lifetime(x.cfg, x.start, x.records, x.now).m.trace
  }

  // ---- No event for the root ----------------------------------------------------------

  lemma WriteNamesNoRoot(v: View, e: Event<Path>)
    requires !NamesNode(e)
    ensures BelowRoot(Write(v, e).m.trace) <==> BelowRoot(v.m.trace)
  {
    AppendBelowRoot(v.m.trace, [e]);
  }

  lemma UpdateNamesNoRoot(cfg: Config, v: View, pid: int, tid: int, out: bool)
    requires BelowRoot(v.m.trace)
    ensures BelowRoot(Update(cfg, v, pid, tid, out).m.trace)
    ensures !out ==> Update(cfg, v, pid, tid, out).m.stack != []
  {
    if out {
      LeaveNamesNoRoot(v.m, v.last, CCTX_LEVEL_PROCESS);
    } else {
      var v1 := if v.firstEvent && !cfg.isCpu then Write(v, ThreadBegin(v.last)).(firstEvent := false) else v;
      WriteNamesNoRoot(v, ThreadBegin(v.last));
      EnterNamesNoRoot(cfg.differs, v1.m, v.last, CCTX_LEVEL_PROCESS, [Process(pid), Thread(tid)]);
      EnterIsNotEmpty(cfg.differs, v1.m, v.last, CCTX_LEVEL_PROCESS, [Process(pid), Thread(tid)]);
    }
  }

  lemma HandleNamesNoRoot(cfg: Config, v: View, r: Record)
    requires ValidRecord(cfg, r) && BelowRoot(v.m.trace)
    ensures BelowRoot(Handle(cfg, v, r).m.trace)
  {
    var v0 := Adjusted(v, r.time);
    UpdateNamesNoRoot(cfg, v0, r.pid, r.tid, SwitchesOut(r));
    var v1 := Update(cfg, v0, r.pid, r.tid, SwitchesOut(r));
    match r
    case SampleRecord(_, _, _, ip, ips) =>
      StepNamesRootExactlyWhen(cfg.differs, v1.m, if cfg.recordCallgraph then SampleChain(v0.last, ips) else SampleIp(v0.last, ip));
    case SwitchRecord(_, _, _, cpu, out) => WriteNamesNoRoot(v1, CpuId(v0.last, if out then -1 else cpu));
  }

  lemma {:induction false} HandleAllNamesNoRoot(cfg: Config, start: Time, rs: seq<Record>)
    requires forall r :: r in rs ==> ValidRecord(cfg, r)
    ensures BelowRoot(HandleAll(cfg, Initial(start), rs).m.trace)
  {
    if rs != [] {
      var n := |rs| - 1;
      HandleAllNamesNoRoot(cfg, start, rs[..n]);
      HandleNamesNoRoot(cfg, HandleAll(cfg, Initial(start), rs[..n]), rs[n]);
    }
  }

  /** A sample writer enters a process before it samples, so it never samples the root. */
  lemma LifetimeNamesNoRoot(x: Measurement)
    requires Proper(x)
    ensures BelowRoot(StreamOf(x))
  {
    HandleAllNamesNoRoot(x.cfg, x.start, x.records);
    var v := HandleAll(x.cfg, Initial(x.start), x.records);
    var v0 := Adjusted(v, x.now);
    WriteNamesNoRoot(v0, ThreadBegin(v0.first));
    var v1 := if v0.firstEvent then Write(v0, ThreadBegin(v0.first)) else v0;
    WriteNamesNoRoot(v1, ThreadEnd(v0.last));
    var e := End(x.cfg, v, x.now);
    LeaveNamesNoRoot(e.m, e.last, CCTX_LEVEL_PROCESS);
  }

  // ---- Where a sample is in the stream ------------------------------------------------

  /** What the writer has done up to and including record i. */
  function Upto(x: Measurement, i: nat): View
    requires Proper(x) && i < |x.records|
  {
    HandleAll(x.cfg, Initial(x.start), x.records[..i + 1])
  }

  /** The contexts a sample adds below its scope, and the distance written with it. */
  function Sampled(x: Measurement, i: nat): Path
    requires i < |x.records| && x.records[i].SampleRecord?
  {
    if x.cfg.recordCallgraph then Frames(x.records[i].ips) else [SampleAddr(x.records[i].ip)]
  }

  function Distance(x: Measurement, i: nat): nat
    requires i < |x.records| && x.records[i].SampleRecord?
  {
    if x.cfg.recordCallgraph then |x.records[i].ips| else 2
  }

  lemma SampleIsLast(x: Measurement, i: nat)
    requires Proper(x) && i < |x.records| && x.records[i].SampleRecord?
    ensures var v := Upto(x, i);
            var es := v.m.trace;
            es != [] && es[|es| - 1] == CctxSample(v.last, v.m.stack + Sampled(x, i), Distance(x, i))
  {
    var rs := x.records[..i + 1];
    assert rs[..i] == x.records[..i] && rs[i] == x.records[i];
  }

  /** Record i is in the stream as a sample of the scope that was current, at the latest time
      seen by then. */
  lemma SampleInStream(x: Measurement, i: nat)
    requires Proper(x) && i < |x.records| && x.records[i].SampleRecord?
    ensures var at := |Upto(x, i).m.trace| - 1;
            && 0 <= at < |StreamOf(x)|
            && StreamOf(x)[at] == CctxSample(Latest(x.start, x.records[..i + 1]), Upto(x, i).m.stack + Sampled(x, i), Distance(x, i))
  {
    SampleIsLast(x, i);
    HandleAllExtends(x.cfg, Initial(x.start), x.records, i + 1);
    LifetimeStarts(x.cfg, x.start, x.records, x.now);
    HandleAllIsSteady(x.cfg, x.start, x.records[..i + 1]);
  }

  /** After a switch record on a thread the last event is its CPU: -1 exactly for a switch-out. */
  lemma SwitchInStream(x: Measurement, i: nat)
    requires Proper(x) && i < |x.records| && x.records[i].SwitchRecord? && !x.cfg.isCpu
    ensures var at := |Upto(x, i).m.trace| - 1;
            && 0 <= at < |StreamOf(x)|
            && StreamOf(x)[at]
               == CpuId(Latest(x.start, x.records[..i + 1]), if x.records[i].out then -1 else x.records[i].cpu)
  {
    var rs := x.records[..i + 1];
    assert rs[..i] == x.records[..i] && rs[i] == x.records[i];
    HandleAllExtends(x.cfg, Initial(x.start), x.records, i + 1);
    LifetimeStarts(x.cfg, x.start, x.records, x.now);
    HandleAllIsSteady(x.cfg, x.start, rs);
  }

  // ---- After the merge ----------------------------------------------------------------

  /** Sample i of the measurement carries the definition of its frames below `scope`. */
  ghost predicate SampleReadsIn(x: Measurement, i: nat, scope: Path, stream: seq<Event<nat>>, nodes: Refs)
    requires Proper(x) && i < |x.records| && x.records[i].SampleRecord?
  {
    var at := |Upto(x, i).m.trace| - 1;
    && 0 <= at < |stream| && scope + Sampled(x, i) in nodes
    && stream[at] == CctxSample(Latest(x.start, x.records[..i + 1]), nodes[scope + Sampled(x, i)], Distance(x, i))
  }

  /** The paths of a recorded stream are all in the tree it was merged into. */
  lemma PathsMerged(r: Recording, mapping: Option<seq<nat>>, nodes: Refs, trace: seq<Event<Path>>, i: nat)
    requires Records(r, trace) && Mapped(r, mapping, nodes) && BelowRoot(trace)
    requires i < |trace| && NamesNode(trace[i])
    ensures trace[i].node in nodes
  {
    assert trace[i].node in r.tree && trace[i].node != [];
  }

  lemma SampleReads(x: Measurement, i: nat, r: Recording, mapping: Option<seq<nat>>, nodes: Refs)
    requires Proper(x) && i < |x.records| && x.records[i].SampleRecord?
    requires Records(r, StreamOf(x)) && Mapped(r, mapping, nodes)
    ensures SampleReadsIn(x, i, Upto(x, i).m.stack, ResolveAll(nodes, StreamOf(x)), nodes)
  {
    SampleInStream(x, i);
    LifetimeNamesNoRoot(x);
    var at := |Upto(x, i).m.trace| - 1;
    PathsMerged(r, mapping, nodes, StreamOf(x), at);
    ResolvedSample(nodes, StreamOf(x), at, Latest(x.start, x.records[..i + 1]), Upto(x, i).m.stack + Sampled(x, i), Distance(x, i));
  }

  lemma ResolvedSample(nodes: Refs, es: seq<Event<Path>>, at: nat, tp: Time, p: Path, d: nat)
    requires at < |es| && es[at] == CctxSample(tp, p, d) && p in nodes
    ensures ResolveAll(nodes, es)[at] == CctxSample(tp, nodes[p], d)
  {
  }

  /** Every sample of the measurement, merged and translated, is one of the first scope since
      the last switch-out with the comparison as written, and of its own scope with a real
      disequality. */
  ghost predicate SamplesRead(x: Measurement, stream: seq<Event<nat>>, nodes: Refs)
    requires Proper(x)
  {
    forall i :: 0 <= i < |x.records| && x.records[i].SampleRecord? ==>
      && (AsWritten(x.cfg.differs) ==> SampleReadsIn(x, i, FirstSinceOut(x.records[..i + 1]), stream, nodes))
      && (RealDisequality(x.cfg.differs) ==>
            SampleReadsIn(x, i, [Process(x.records[i].pid), Thread(x.records[i].tid)], stream, nodes))
  }

  lemma AllSamplesRead(x: Measurement, r: Recording, mapping: Option<seq<nat>>, nodes: Refs)
    requires Proper(x) && Records(r, StreamOf(x)) && Mapped(r, mapping, nodes)
    ensures SamplesRead(x, ResolveAll(nodes, StreamOf(x)), nodes)
  {
    forall i | 0 <= i < |x.records| && x.records[i].SampleRecord?
      ensures AsWritten(x.cfg.differs) ==> Upto(x, i).m.stack == FirstSinceOut(x.records[..i + 1])
      ensures RealDisequality(x.cfg.differs) ==> Upto(x, i).m.stack == [Process(x.records[i].pid), Thread(x.records[i].tid)]
      ensures SampleReadsIn(x, i, Upto(x, i).m.stack, ResolveAll(nodes, StreamOf(x)), nodes)
    {
      SampleReads(x, i, r, mapping, nodes);
      if AsWritten(x.cfg.differs) { WrittenInFirstScope(x.cfg, x.start, x.records[..i + 1]); }
      if RealDisequality(x.cfg.differs) { WrittenInOwnScope(x.cfg, x.start, x.records[..i + 1]); }
    }
  }

  /** The stream is the reference stream of the writer with every path replaced by the definition
      at that path, and every sample is where it belongs. */
  ghost predicate ReadsRight(x: Measurement, stream: seq<Event<nat>>, nodes: Refs)
    requires Proper(x)
  {
    stream == ResolveAll(nodes, StreamOf(x)) && SamplesRead(x, stream, nodes)
  }

  /** Any number of sample writers, from their records to the translated streams. */
  method MergeSamples(xs: seq<Measurement>, trace: Trace) returns (streams: seq<seq<Event<nat>>>)
    requires trace.Valid() && forall k :: 0 <= k < |xs| ==> Proper(xs[k])
    modifies trace
    ensures trace.Valid() && Grows(old(trace.nodes), trace.nodes)
    ensures |streams| == |xs| && forall k :: 0 <= k < |xs| ==> ReadsRight(xs[k], streams[k], trace.nodes)
  {
    var trees := MeasureAll(xs);
    var mappings := trace.Finalize(trees);
    MeasurementsRead(xs, trees, mappings, trace.nodes);
    streams := seq(|xs|, k requires 0 <= k < |xs| => Translated(trees[k], mappings[k]));
  }

  method MeasureAll(xs: seq<Measurement>) returns (trees: seq<Recording>)
    requires forall k :: 0 <= k < |xs| ==> Proper(xs[k])
    ensures |trees| == |xs| && AllMergeable(trees)
    ensures forall k :: 0 <= k < |xs| ==> Records(trees[k], StreamOf(xs[k]))
  {
    trees := [];
    for k := 0 to |xs|
      invariant |trees| == k && AllMergeable(trees)
      invariant forall j :: 0 <= j < k ==> Records(trees[j], StreamOf(xs[j]))
    {
      var r := Measure(xs[k].cfg, xs[k].start, xs[k].records, xs[k].now);
      trees := trees + [r];
    }
  }

  lemma MeasurementReads(x: Measurement, r: Recording, mapping: Option<seq<nat>>, nodes: Refs)
    requires Proper(x) && Records(r, StreamOf(x)) && Mapped(r, mapping, nodes)
    ensures ReadsRight(x, Translated(r, mapping), nodes)
  {
    LifetimeNamesNoRoot(x);
    ReadsAsReference(r, mapping, nodes, StreamOf(x));
    AllSamplesRead(x, r, mapping, nodes);
  }

  lemma MeasurementsRead(xs: seq<Measurement>, trees: seq<Recording>, mappings: seq<Option<seq<nat>>>, nodes: Refs)
    requires |trees| == |xs| == |mappings| && forall k :: 0 <= k < |xs| ==> Proper(xs[k])
    requires forall k :: 0 <= k < |xs| ==> Records(trees[k], StreamOf(xs[k]))
    requires forall k :: 0 <= k < |xs| ==> Mapped(trees[k], mappings[k], nodes)
    ensures forall k :: 0 <= k < |xs| ==> ReadsRight(xs[k], Translated(trees[k], mappings[k]), nodes)
  {
    forall k | 0 <= k < |xs| ensures ReadsRight(xs[k], Translated(trees[k], mappings[k]), nodes) {
      MeasurementReads(xs[k], trees[k], mappings[k], nodes);
    }
  }
}
