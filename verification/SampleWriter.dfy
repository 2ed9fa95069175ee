/** The sample writer (src/perf/sample/writer.cpp): turns perf samples and context switches,
    whose timestamps cannot be trusted to be in order, into one ordered and well-nested local
    event stream on a LocalCctxTree. */
module SampleWriter {
  import opened CallingContexts
  import opened CctxTrace
  import opened Options
  import opened LocalTree

  const CCTX_LEVEL_PROCESS := 1

  /** A perf record after time conversion. A switch is the per-thread or the CPU-wide variant,
      whichever the scope of the writer calls for. */
  datatype Record =
    | SampleRecord(time: Time, pid: int, tid: int, ip: nat, ips: seq<nat>)
    | SwitchRecord(time: Time, pid: int, tid: int, cpu: int, out: bool)

  predicate SwitchesOut(r: Record) {
    r.SwitchRecord? && r.out
  }

  // ---- Order in time ------------------------------------------------------------------

  /** Nothing later than `last` was written. */
  ghost predicate UpTo<R(!new)>(es: seq<Event<R>>, last: Time) {
    forall i :: 0 <= i < |es| ==> es[i].time <= last
  }

  /** b is a with further events, all stamped tp. */
  ghost predicate Stamped(a: Machine, b: Machine, tp: Time) {
    && |a.trace| <= |b.trace| && a.trace == b.trace[..|a.trace|]
    && forall i :: |a.trace| <= i < |b.trace| ==> b.trace[i].time == tp
  }

  lemma StampedTrans(a: Machine, b: Machine, c: Machine, tp: Time)
    requires Stamped(a, b, tp) && Stamped(b, c, tp)
    ensures Stamped(a, c, tp)
  {
    assert c.trace[..|a.trace|] == c.trace[..|b.trace|][..|a.trace|];
    forall i | |a.trace| <= i < |c.trace| ensures c.trace[i].time == tp {
      if i < |b.trace| { assert c.trace[i] == c.trace[..|b.trace|][i]; }
    }
  }

  lemma StampedLeave(m: Machine, tp: Time, level: nat)
    ensures Stamped(m, Leave(m, tp, level), tp)
  {
  }

  lemma {:induction false} StampedEnter(differs: Comparison, m: Machine, tp: Time, level: nat, cs: seq<CallingContext>)
    requires 0 < level <= |m.stack| + 1
    ensures Stamped(m, Enter(differs, m, tp, level, cs), tp)
    decreases |cs|
  {
    if cs != [] {
      var m1 := EnterNode(differs, m, tp, level, cs[0]);
      StampedEnter(differs, m1, tp, level + 1, cs[1..]);
      StampedTrans(m, m1, Enter(differs, m, tp, level, cs), tp);
    }
  }

  lemma StampedKeepsOrder(a: Machine, b: Machine, tp: Time)
    requires Ordered(a.trace) && UpTo(a.trace, tp) && Stamped(a, b, tp)
    ensures Ordered(b.trace) && UpTo(b.trace, tp)
  {
    forall i | 0 <= i < |a.trace| ensures b.trace[i] == a.trace[i] { assert b.trace[..|a.trace|][i] == b.trace[i]; }
  }

  /** The latest time up to and including record k. */
  function Latest(start: Time, records: seq<Record>): (t: Time)
    ensures start <= t && forall i :: 0 <= i < |records| ==> records[i].time <= t
    ensures t == start || exists i :: 0 <= i < |records| && records[i].time == t
  {
    if records == [] then start
    else
      var n := |records| - 1;
      var t := Latest(start, records[..n]);
      assert forall i :: 0 <= i < n ==> records[..n][i] == records[i];
      if t > records[n].time then t else records[n].time
  }

  // ---- What the writer should do ------------------------------------------------------

  datatype Config = Config(differs: Comparison, isCpu: bool, recordCallgraph: bool)

  /** The call stack and event stream, and the writer's own fields. */
  datatype View = View(m: Machine, firstEvent: bool, first: Time, last: Time)

  function Write(v: View, e: Event<Path>): View {
    v.(m := v.m.(trace := v.m.trace + [e]))
  }

  function Initial(now: Time): View {
    View(START, true, now, now)
  }

  function Adjusted(v: View, time: Time): View {
    v.(last := if v.last > time then v.last else time)
  }

  /** update_calling_context at the adjusted time. */
  function Update(cfg: Config, v: View, pid: int, tid: int, out: bool): View {
    if out then v.(m := Leave(v.m, v.last, CCTX_LEVEL_PROCESS))
    else
      var v1 := if v.firstEvent && !cfg.isCpu then Write(v, ThreadBegin(v.last)).(firstEvent := false) else v;
      v1.(m := Enter(cfg.differs, v1.m, v.last, CCTX_LEVEL_PROCESS, [Process(pid), Thread(tid)]))
  }

  predicate ValidRecord(cfg: Config, r: Record) {
    r.SampleRecord? && cfg.recordCallgraph ==> r.ips != []
  }

  function Handle(cfg: Config, v: View, r: Record): View
    requires ValidRecord(cfg, r)
  {
    var v0 := Adjusted(v, r.time);
    match r
    case SampleRecord(_, pid, tid, ip, ips) =>
      var v1 := Update(cfg, v0, pid, tid, false);
      var op := if cfg.recordCallgraph then SampleChain(v0.last, ips) else SampleIp(v0.last, ip);
      v1.(m := Step(cfg.differs, v1.m, op))
    case SwitchRecord(_, pid, tid, cpu, out) =>
      var v1 := Update(cfg, v0, pid, tid, out);
      if cfg.isCpu then v1 else Write(v1, CpuId(v0.last, if out then -1 else cpu))
  }

  function HandleAll(cfg: Config, v: View, rs: seq<Record>): View
    requires forall r :: r in rs ==> ValidRecord(cfg, r)
  {
    if rs == [] then v
    else Handle(cfg, HandleAll(cfg, v, rs[..|rs| - 1]), rs[|rs| - 1])
  }

  /** end(). */
  function End(cfg: Config, v: View, now: Time): View {
    if cfg.isCpu then v
    else
      var v0 := Adjusted(v, now);
      var v1 := if v0.firstEvent then Write(v0, ThreadBegin(v0.first)) else v0;
      Write(v1, ThreadEnd(v0.last))
  }

  /** The destructor. */
  function Destroy(v: View): View {
    v.(m := Leave(v.m, v.last, CCTX_LEVEL_PROCESS))
  }

  function Lifetime(cfg: Config, start: Time, rs: seq<Record>, now: Time): View
    requires forall r :: r in rs ==> ValidRecord(cfg, r)
  {
    Destroy(End(cfg, HandleAll(cfg, Initial(start), rs), now))
  }

  // ---- What holds of it ---------------------------------------------------------------

  /** What holds between any two records. */
  ghost predicate Steady(v: View) {
    Nested(v.m) && Ordered(v.m.trace) && UpTo(v.m.trace, v.last) && v.first <= v.last
  }

  lemma OtherKeepsReplay(es: seq<Event<Path>>, e: Event<Path>)
    requires Replay([], es).Some? && !(e.CctxEnter? || e.CctxLeave?)
    ensures Replay([], es + [e]) == Replay([], es)
  {
    ReplayAppend([], es, [e]);
  }

  lemma WriteKeepsSteady(v: View, e: Event<Path>)
    requires Steady(v) && !(e.CctxEnter? || e.CctxLeave?) && e.time == v.last
    ensures Steady(Write(v, e))
  {
    OtherKeepsReplay(v.m.trace, e);
    StampedKeepsOrder(v.m, Write(v, e).m, v.last);
  }

  lemma LeaveKeepsSteady(v: View)
    requires Steady(v)
    ensures Steady(v.(m := Leave(v.m, v.last, CCTX_LEVEL_PROCESS)))
  {
    LeaveKeepsNested(v.m, v.last, CCTX_LEVEL_PROCESS);
    StampedLeave(v.m, v.last, CCTX_LEVEL_PROCESS);
    StampedKeepsOrder(v.m, Leave(v.m, v.last, CCTX_LEVEL_PROCESS), v.last);
  }

  lemma UpdateKeepsSteady(cfg: Config, v: View, pid: int, tid: int, out: bool)
    requires Steady(v)
    ensures Steady(Update(cfg, v, pid, tid, out))
  {
    if out {
      LeaveKeepsSteady(v);
    } else {
      if v.firstEvent && !cfg.isCpu { WriteKeepsSteady(v, ThreadBegin(v.last)); }
      var v1 := if v.firstEvent && !cfg.isCpu then Write(v, ThreadBegin(v.last)).(firstEvent := false) else v;
      var cs := [Process(pid), Thread(tid)];
      EnterKeepsNested(cfg.differs, v1.m, v.last, CCTX_LEVEL_PROCESS, cs);
      StampedEnter(cfg.differs, v1.m, v.last, CCTX_LEVEL_PROCESS, cs);
      StampedKeepsOrder(v1.m, Enter(cfg.differs, v1.m, v.last, CCTX_LEVEL_PROCESS, cs), v.last);
    }
  }

  lemma HandleKeepsSteady(cfg: Config, v: View, r: Record)
    requires Steady(v) && ValidRecord(cfg, r)
    ensures Steady(Handle(cfg, v, r))
  {
    var v0 := Adjusted(v, r.time);
    match r
    case SampleRecord(_, pid, tid, ip, ips) =>
      UpdateKeepsSteady(cfg, v0, pid, tid, false);
      var v1 := Update(cfg, v0, pid, tid, false);
      WriteKeepsSteady(v1, CctxSample(v0.last, v1.m.stack + [SampleAddr(ip)], 2));
      WriteKeepsSteady(v1, CctxSample(v0.last, v1.m.stack + Frames(ips), |ips|));
    case SwitchRecord(_, pid, tid, cpu, out) =>
      UpdateKeepsSteady(cfg, v0, pid, tid, out);
      WriteKeepsSteady(Update(cfg, v0, pid, tid, out), CpuId(v0.last, if out then -1 else cpu));
  }

  lemma {:induction false} HandleAllIsSteady(cfg: Config, start: Time, rs: seq<Record>)
    requires forall r :: r in rs ==> ValidRecord(cfg, r)
    ensures Steady(HandleAll(cfg, Initial(start), rs))
    ensures HandleAll(cfg, Initial(start), rs).first == start
    ensures HandleAll(cfg, Initial(start), rs).last == Latest(start, rs)
  {
    if rs == [] {
      assert Open([]) == [];
    } else {
      var n := |rs| - 1;
      HandleAllIsSteady(cfg, start, rs[..n]);
      HandleKeepsSteady(cfg, HandleAll(cfg, Initial(start), rs[..n]), rs[n]);
    }
  }

  /** On a thread, thread_begin is still missing exactly while there were only switch-outs;
      then the stream is one CPU event per record and the last of them has the latest time. */
  lemma {:induction false} FirstEventExactlyWhen(cfg: Config, start: Time, rs: seq<Record>)
    requires forall r :: r in rs ==> ValidRecord(cfg, r)
    requires !cfg.isCpu
    ensures var v := HandleAll(cfg, Initial(start), rs);
            && (v.firstEvent <==> forall i :: 0 <= i < |rs| ==> SwitchesOut(rs[i]))
            && (v.firstEvent ==> v.m.stack == [] && |v.m.trace| == |rs|)
            && (v.firstEvent && rs != [] ==> v.m.trace[|rs| - 1].time == v.last)
  {
    if rs != [] {
      var n := |rs| - 1;
      FirstEventExactlyWhen(cfg, start, rs[..n]);
      assert rs == rs[..n] + [rs[n]];
      var v := HandleAll(cfg, Initial(start), rs[..n]);
      if v.firstEvent && SwitchesOut(rs[n]) {
        assert Leave(v.m, Adjusted(v, rs[n].time).last, CCTX_LEVEL_PROCESS) == v.m;
      }
    }
  }

  /** In every run, however disordered its records, everything but a thread_begin written by
      end() is in order, and the enter and leave events are balanced at the end. */
  lemma LifetimeIsOrderedAndBalanced(cfg: Config, start: Time, rs: seq<Record>, now: Time)
    requires forall r :: r in rs ==> ValidRecord(cfg, r)
    ensures var es := Lifetime(cfg, start, rs, now).m.trace;
            && Replay([], es) == Some([])
            && forall i, j :: 0 <= i < j < |es| && !es[i].ThreadBegin? && !es[j].ThreadBegin? ==> es[i].time <= es[j].time
  {
    HandleAllIsSteady(cfg, start, rs);
    var v := HandleAll(cfg, Initial(start), rs);
    if cfg.isCpu {
      BalancedAfterLeave(v);
    } else {
      var v0 := Adjusted(v, now);
      if v0.firstEvent {
        EndAfterSwitchOuts(cfg, start, rs, now);
      } else {
        WriteKeepsSteady(v0, ThreadEnd(v0.last));
        BalancedAfterLeave(End(cfg, v, now));
      }
    }
  }

  lemma BalancedAfterLeave(v: View)
    requires Steady(v)
    ensures Steady(Destroy(v)) && Replay([], Destroy(v).m.trace) == Some([])
  {
    LeaveKeepsSteady(v);
    assert Destroy(v).m.stack == [];
    assert Open([]) == [];
  }

  /** The one case in which end() itself writes thread_begin, with the time of construction. */
  lemma EndAfterSwitchOuts(cfg: Config, start: Time, rs: seq<Record>, now: Time)
    requires forall r :: r in rs ==> ValidRecord(cfg, r)
    requires !cfg.isCpu && HandleAll(cfg, Initial(start), rs).firstEvent
    ensures var v := HandleAll(cfg, Initial(start), rs);
            var es := Lifetime(cfg, start, rs, now).m.trace;
            && es == v.m.trace + [ThreadBegin(start), ThreadEnd(Adjusted(v, now).last)]
            && Replay([], es) == Some([])
            && (forall i, j :: 0 <= i < j < |es| && !es[i].ThreadBegin? && !es[j].ThreadBegin? ==> es[i].time <= es[j].time)
            && (Ordered(es) <==> Latest(start, rs) == start)
  {
    HandleAllIsSteady(cfg, start, rs);
    FirstEventExactlyWhen(cfg, start, rs);
    var v := HandleAll(cfg, Initial(start), rs);
    var t := Adjusted(v, now).last;
    var tail: seq<Event<Path>> := [ThreadBegin(start), ThreadEnd(t)];
    assert Lifetime(cfg, start, rs, now).m.trace == v.m.trace + tail;
    OtherKeepsReplay(v.m.trace, ThreadBegin(start));
    OtherKeepsReplay(v.m.trace + [ThreadBegin(start)], ThreadEnd(t));
    assert v.m.trace + tail == v.m.trace + [ThreadBegin(start)] + [ThreadEnd(t)];
    assert Open([]) == [];
    BeginAtTheEnd(v.m.trace, start, v.last, t);
  }

  lemma BeginAtTheEnd(es: seq<Event<Path>>, start: Time, last: Time, t: Time)
    requires Ordered(es) && UpTo(es, last) && start <= last <= t
    requires if es == [] then last == start else es[|es| - 1].time == last
    ensures var all := es + [ThreadBegin(start), ThreadEnd(t)];
            && (Ordered(all) <==> last == start)
            && forall i, j :: 0 <= i < j < |all| && !all[i].ThreadBegin? && !all[j].ThreadBegin? ==> all[i].time <= all[j].time
  {
    var all := es + [ThreadBegin(start), ThreadEnd(t)];
    assert all[|es|] == ThreadBegin(start);
    if es != [] { assert all[|es| - 1].time == last; }
  }

  /** The whole stream, thread_begin and thread_end included, is in order exactly unless the
      scope is a thread that was only ever switched out and one of those records is later
      than the writer's construction. */
  lemma WholeStreamIsOrderedExactlyWhen(cfg: Config, start: Time, rs: seq<Record>, now: Time)
    requires forall r :: r in rs ==> ValidRecord(cfg, r)
    ensures Ordered(Lifetime(cfg, start, rs, now).m.trace)
       <==> cfg.isCpu || (exists i :: 0 <= i < |rs| && !SwitchesOut(rs[i]))
              || (forall i :: 0 <= i < |rs| ==> rs[i].time <= start)
  {
    HandleAllIsSteady(cfg, start, rs);
    var v := HandleAll(cfg, Initial(start), rs);
    if cfg.isCpu {
      BalancedAfterLeave(v);
    } else {
      FirstEventExactlyWhen(cfg, start, rs);
      if v.firstEvent {
        EndAfterSwitchOuts(cfg, start, rs, now);
      } else {
        var v0 := Adjusted(v, now);
        WriteKeepsSteady(v0, ThreadEnd(v0.last));
        BalancedAfterLeave(End(cfg, v, now));
      }
    }
  }

  // ---- Whose context a record is written in -------------------------------------------

  /** The first scope seen since the last switch-out. */
  function FirstSinceOut(rs: seq<Record>): Path {
    if rs == [] || SwitchesOut(rs[|rs| - 1]) then []
    else
      var before := FirstSinceOut(rs[..|rs| - 1]);
      if before == [] then LatestSinceOut(rs) else before
  }

  /** The scope of the latest record, unless that was a switch-out. */
  function LatestSinceOut(rs: seq<Record>): Path {
    if rs == [] || SwitchesOut(rs[|rs| - 1]) then []
    else [Process(rs[|rs| - 1].pid), Thread(rs[|rs| - 1].tid)]
  }

  lemma EnterScope(differs: Comparison, m: Machine, tp: Time, pid: int, tid: int)
    requires m.stack == [] || exists p, t :: m.stack == [Process(p), Thread(t)]
    ensures var cs := [Process(pid), Thread(tid)];
            var stack := Enter(differs, m, tp, CCTX_LEVEL_PROCESS, cs).stack;
            && (m.stack == [] || RealDisequality(differs) ==> stack == cs)
            && (m.stack != [] && AsWritten(differs) ==> stack == m.stack)
  {
    var cs := [Process(pid), Thread(tid)];
    var m1 := EnterNode(differs, m, tp, 1, cs[0]);
    var m2 := EnterNode(differs, m1, tp, 2, cs[1]);
    assert cs[1..] == [cs[1]] && cs[1..][1..] == [];
    assert Enter(differs, m, tp, 1, cs) == Enter(differs, m1, tp, 2, cs[1..]) == m2;
  }

  /** With the comparison as the source has it, everything recorded between two switch-outs is
      written in the context of the first record there: a process or thread that follows
      without a switch-out in between is recorded under its predecessor. */
  lemma {:induction false} WrittenInFirstScope(cfg: Config, start: Time, rs: seq<Record>)
    requires forall r :: r in rs ==> ValidRecord(cfg, r)
    requires AsWritten(cfg.differs)
    ensures HandleAll(cfg, Initial(start), rs).m.stack == FirstSinceOut(rs)
    ensures FirstSinceOut(rs) == [] || exists p, t :: FirstSinceOut(rs) == [Process(p), Thread(t)]
  {
    if rs != [] {
      var n := |rs| - 1;
      WrittenInFirstScope(cfg, start, rs[..n]);
      var v := Adjusted(HandleAll(cfg, Initial(start), rs[..n]), rs[n].time);
      if !SwitchesOut(rs[n]) {
        EnterScope(cfg.differs, v.m, v.last, rs[n].pid, rs[n].tid);
        EnterScope(cfg.differs, Write(v, ThreadBegin(v.last)).m, v.last, rs[n].pid, rs[n].tid);
        assert LatestSinceOut(rs) == [Process(rs[n].pid), Thread(rs[n].tid)];
      }
    }
  }

  /** With a comparison that means disequality every record is written in its own scope. */
  lemma {:induction false} WrittenInOwnScope(cfg: Config, start: Time, rs: seq<Record>)
    requires forall r :: r in rs ==> ValidRecord(cfg, r)
    requires RealDisequality(cfg.differs)
    ensures HandleAll(cfg, Initial(start), rs).m.stack == LatestSinceOut(rs)
  {
    if rs != [] {
      var n := |rs| - 1;
      WrittenInOwnScope(cfg, start, rs[..n]);
      var v := Adjusted(HandleAll(cfg, Initial(start), rs[..n]), rs[n].time);
      if !SwitchesOut(rs[n]) {
        EnterScope(cfg.differs, v.m, v.last, rs[n].pid, rs[n].tid);
        EnterScope(cfg.differs, Write(v, ThreadBegin(v.last)).m, v.last, rs[n].pid, rs[n].tid);
      }
    }
  }

  // ---- The writer ---------------------------------------------------------------------

  class Writer {
    const cfg: Config
    const tree: LocalCctxTree
    var firstEvent: bool
    var firstTimePoint: Time
    var lastTimePoint: Time

    ghost predicate Valid()
      reads this, tree
    {
      tree.Valid() && tree.differs == cfg.differs && Anchored(tree.tree)
    }

    ghost function Now(): View
      reads this, tree
    {
      View(tree.spec, firstEvent, firstTimePoint, lastTimePoint)
    }

    constructor (cfg: Config, now: Time)
      ensures fresh(tree) && Valid() && this.cfg == cfg && Now() == Initial(now)
    {
      this.cfg := cfg;
      tree := new LocalCctxTree(cfg.differs);
      firstEvent := true;
      firstTimePoint := now;
      lastTimePoint := now;
    }

    /** adjust_timepoints: never go back behind the last time used. */
    method AdjustTimepoints(time: Time) returns (tp: Time)
      requires Valid()
      modifies `lastTimePoint
      ensures Valid() && Now() == Adjusted(old(Now()), time) && tp == lastTimePoint
    {
      tp := time;
      if lastTimePoint > tp {
        tp := lastTimePoint;
      }
      lastTimePoint := tp;
    }

    method UpdateCallingContext(pid: int, tid: int, tp: Time, switchOut: bool)
      requires Valid() && tp == lastTimePoint
      modifies `firstEvent, tree
      ensures Valid() && Now() == Update(cfg, old(Now()), pid, tid, switchOut)
      ensures !switchOut ==> tree.spec.stack != []
    {
      if switchOut {
        var _ := tree.CctxLeave(tp, CCTX_LEVEL_PROCESS);
      } else {
        if firstEvent && !cfg.isCpu {
          tree.WriteOther(ThreadBegin(tp));
          firstEvent := false;
        }
        EnterIsNotEmpty(cfg.differs, tree.spec, tp, CCTX_LEVEL_PROCESS, [Process(pid), Thread(tid)]);
        tree.CctxEnter(tp, CCTX_LEVEL_PROCESS, [Process(pid), Thread(tid)]);
      }
    }

    method HandleSample(time: Time, pid: int, tid: int, ip: nat, ips: seq<nat>)
      requires Valid() && (cfg.recordCallgraph ==> ips != [])
      modifies this, tree
      ensures Valid() && Now() == Handle(cfg, old(Now()), SampleRecord(time, pid, tid, ip, ips))
    {
      var tp := AdjustTimepoints(time);
      UpdateCallingContext(pid, tid, tp, false);
      if !cfg.recordCallgraph {
        tree.CctxSampleIp(tp, ip);
      } else {
        tree.CctxSampleChain(tp, ips);
      }
    }

    /** Both handlers for context switches; only the per-thread one writes the CPU. */
    method HandleSwitch(time: Time, pid: int, tid: int, cpu: int, out: bool)
      requires Valid()
      modifies this, tree
      ensures Valid() && Now() == Handle(cfg, old(Now()), SwitchRecord(time, pid, tid, cpu, out))
    {
      var tp := AdjustTimepoints(time);
      UpdateCallingContext(pid, tid, tp, out);
      if !cfg.isCpu {
        tree.WriteOther(CpuId(tp, if out then -1 else cpu));
      }
    }

    method Finish(now: Time)
      requires Valid()
      modifies this, tree
      ensures Valid() && Now() == End(cfg, old(Now()), now)
    {
      if !cfg.isCpu {
        var _ := AdjustTimepoints(now);
        if firstEvent {
          tree.WriteOther(ThreadBegin(firstTimePoint));
        }
        tree.WriteOther(ThreadEnd(lastTimePoint));
      }
    }

    method Close()
      requires Valid()
      modifies tree
      ensures Valid() && Now() == Destroy(old(Now())) && tree.refCount == tree.nextRef
    {
      var _ := tree.CctxLeave(lastTimePoint, CCTX_LEVEL_PROCESS);
      tree.Finalize();
    }
  }

  lemma {:induction false} EnterIsNotEmpty(differs: Comparison, m: Machine, tp: Time, level: nat, cs: seq<CallingContext>)
    requires 0 < level <= |m.stack| + 1 && (cs != [] || m.stack != [])
    ensures Enter(differs, m, tp, level, cs).stack != []
    decreases |cs|
  {
    if cs != [] {
      EnterIsNotEmpty(differs, EnterNode(differs, m, tp, level, cs[0]), tp, level + 1, cs[1..]);
    }
  }

  /** A writer from construction to destruction: what it leaves behind is a recording of
      exactly the reference stream, ready to be merged. */
  method Measure(cfg: Config, start: Time, records: seq<Record>, now: Time) returns (r: Recording)
    requires forall q :: q in records ==> ValidRecord(cfg, q)
    ensures Records(r, Lifetime(cfg, start, records, now).m.trace) && Anchored(r.tree)
  {
    var w := new Writer(cfg, start);
    for i := 0 to |records|
      invariant fresh(w) && fresh(w.tree) && w.Valid() && w.cfg == cfg
      invariant w.Now() == HandleAll(cfg, Initial(start), records[..i])
    {
      assert records[..i + 1][..i] == records[..i] && records[i] in records;
      match records[i]
      case SampleRecord(time, pid, tid, ip, ips) => w.HandleSample(time, pid, tid, ip, ips);
      case SwitchRecord(time, pid, tid, cpu, out) => w.HandleSwitch(time, pid, tid, cpu, out);
    }
    assert records[..|records|] == records;
    w.Finish(now);
    w.Close();
    r := Recording(w.tree.tree, w.tree.refCount, w.tree.events);
  }
}
