/** What exactly a sample writer writes besides the enter and leave events of its scopes: the
    begin and end of a thread, the CPU of every switch, and one sample for every sample record
    (src/perf/sample/writer.cpp). */
module SampleStream {
  import opened CallingContexts
  import opened CctxTrace
  import opened Options
  import opened SampleWriter

  // ---- Some of the events of a stream -------------------------------------------------

  function Only(es: seq<Event<Path>>, p: Event<Path> -> bool): seq<Event<Path>> {
    if es == [] then []
    else Only(es[..|es| - 1], p) + if p(es[|es| - 1]) then [es[|es| - 1]] else []
  }

  predicate IsSample(e: Event<Path>) { e.CctxSample? }

  predicate IsCpuId(e: Event<Path>) { e.CpuId? }

  predicate IsThreadEvent(e: Event<Path>) { e.ThreadBegin? || e.ThreadEnd? }

  predicate IsBegin(e: Event<Path>) { e.ThreadBegin? }

  lemma {:induction false} OnlyAppend(a: seq<Event<Path>>, b: seq<Event<Path>>, p: Event<Path> -> bool)
    ensures Only(a + b, p) == Only(a, p) + Only(b, p)
    decreases |b|
  {
    if b == [] {
      assert a + b == a;
    } else {
      var n := |b| - 1;
      assert (a + b)[..|a + b| - 1] == a + b[..n];
      OnlyAppend(a, b[..n], p);
    }
  }

  lemma OnlySingle(e: Event<Path>, p: Event<Path> -> bool)
    ensures Only([], p) == [] && Only([e], p) == if p(e) then [e] else []
  {
    assert [e][..0] == [];
  }

  lemma {:induction false} OnlyNone(es: seq<Event<Path>>, p: Event<Path> -> bool)
    requires forall i :: 0 <= i < |es| ==> !p(es[i])
    ensures Only(es, p) == []
  {
    if es != [] { OnlyNone(es[..|es| - 1], p); }
  }

  lemma {:induction false} OnlyOne(es: seq<Event<Path>>, p: Event<Path> -> bool, i: nat)
    requires i < |es| && p(es[i])
    ensures Only(es, p) != []
    decreases |es|
  {
    if i < |es| - 1 { OnlyOne(es[..|es| - 1], p, i); }
  }

  lemma {:induction false} OnlyTwo(es: seq<Event<Path>>, p: Event<Path> -> bool, i: nat, j: nat)
    requires i < j < |es| && p(es[i]) && p(es[j])
    ensures |Only(es, p)| >= 2
    decreases |es|
  {
    var front := es[..|es| - 1];
    if j < |es| - 1 { OnlyTwo(front, p, i, j); } else { OnlyOne(front, p, i); }
  }

  lemma {:induction false} OnlyOfOnly(es: seq<Event<Path>>, p: Event<Path> -> bool, q: Event<Path> -> bool)
    requires forall e :: q(e) ==> p(e)
    ensures Only(Only(es, p), q) == Only(es, q)
  {
    if es != [] {
      var front, e := es[..|es| - 1], es[|es| - 1];
      OnlyOfOnly(front, p, q);
      OnlyAppend(Only(front, p), if p(e) then [e] else [], q);
    }
  }

  // ---- One record ---------------------------------------------------------------------

  /** Events the filter has nothing to do with. */
  ghost predicate Skips(p: Event<Path> -> bool) {
    forall e: Event<Path> :: e.CctxEnter? || e.CctxLeave? ==> !p(e)
  }

  lemma LeaveAddsNone(m: Machine, tp: Time, level: nat, p: Event<Path> -> bool)
    requires Skips(p)
    ensures Only(Leave(m, tp, level).trace, p) == Only(m.trace, p)
  {
    if level != 0 && level <= |m.stack| {
      var es := Leaves(tp, m.stack, level - 1);
      OnlyAppend(m.trace, es, p);
      OnlyNone(es, p);
    }
  }

  lemma {:induction false} EnterAddsNone(differs: Comparison, m: Machine, tp: Time, level: nat, cs: seq<CallingContext>,
                                         p: Event<Path> -> bool)
    requires 0 < level <= |m.stack| + 1 && Skips(p)
    ensures Only(Enter(differs, m, tp, level, cs).trace, p) == Only(m.trace, p)
    decreases |cs|
  {
    if cs != [] {
      LeaveAddsNone(m, tp, level, p);
      PushAddsNone(m, tp, cs[0], p);
      PushAddsNone(Leave(m, tp, level), tp, cs[0], p);
      EnterAddsNone(differs, EnterNode(differs, m, tp, level, cs[0]), tp, level + 1, cs[1..], p);
    }
  }

  lemma PushAddsNone(m: Machine, tp: Time, c: CallingContext, p: Event<Path> -> bool)
    requires Skips(p)
    ensures Only(Push(m, tp, c).trace, p) == Only(m.trace, p)
  {
    OnlyAppend(m.trace, [CctxEnter(tp, m.stack + [c])], p);
  }

  /** The thread_begin that comes with a record. */
  function BeginOf(cfg: Config, v: View, out: bool): seq<Event<Path>> {
    if !out && v.firstEvent && !cfg.isCpu then [ThreadBegin(v.last)] else []
  }

  lemma UpdateAdds(cfg: Config, v: View, pid: int, tid: int, out: bool, p: Event<Path> -> bool)
    requires Skips(p)
    ensures Only(Update(cfg, v, pid, tid, out).m.trace, p) == Only(v.m.trace, p) + Only(BeginOf(cfg, v, out), p)
  {
    if out {
      LeaveAddsNone(v.m, v.last, CCTX_LEVEL_PROCESS, p);
    } else {
      var v1 := v.(m := v.m.(trace := v.m.trace + BeginOf(cfg, v, out)));
      OnlyAppend(v.m.trace, BeginOf(cfg, v, out), p);
      assert v.m.trace + [] == v.m.trace;
      EnterAddsNone(cfg.differs, v1.m, v.last, CCTX_LEVEL_PROCESS, [Process(pid), Thread(tid)], p);
    }
  }

  /** The event that stands for the record itself, given the writer's state afterwards. */
  function EventOf(cfg: Config, v: View, r: Record): seq<Event<Path>> {
    match r
    case SampleRecord(_, _, _, ip, ips) =>
      if cfg.recordCallgraph then [CctxSample(v.last, v.m.stack + Frames(ips), |ips|)]
      else [CctxSample(v.last, v.m.stack + [SampleAddr(ip)], 2)]
    case SwitchRecord(_, _, _, cpu, out) =>
      if cfg.isCpu then [] else [CpuId(v.last, if out then -1 else cpu)]
  }

  lemma HandleAdds(cfg: Config, v: View, r: Record, p: Event<Path> -> bool)
    requires ValidRecord(cfg, r) && Skips(p)
    ensures var v' := Handle(cfg, v, r);
            Only(v'.m.trace, p)
            == Only(v.m.trace, p) + Only(BeginOf(cfg, Adjusted(v, r.time), SwitchesOut(r)), p) + Only(EventOf(cfg, v', r), p)
  {
    var v0, v' := Adjusted(v, r.time), Handle(cfg, v, r);
    UpdateAdds(cfg, v0, r.pid, r.tid, SwitchesOut(r), p);
    var v1 := Update(cfg, v0, r.pid, r.tid, SwitchesOut(r));
    assert v'.m.trace == v1.m.trace + EventOf(cfg, v', r);
    OnlyAppend(v1.m.trace, EventOf(cfg, v', r), p);
  }

  /** The events end() writes. */
  function EndOf(cfg: Config, v: View, now: Time): seq<Event<Path>> {
    var last := if v.last > now then v.last else now;
    if cfg.isCpu then [] else if v.firstEvent then [ThreadBegin(v.first), ThreadEnd(last)] else [ThreadEnd(last)]
  }

  lemma EndAdds(cfg: Config, v: View, now: Time, p: Event<Path> -> bool)
    requires Skips(p)
    ensures Only(Destroy(End(cfg, v, now)).m.trace, p) == Only(v.m.trace, p) + Only(EndOf(cfg, v, now), p)
  {
    var e := End(cfg, v, now);
    assert e.m.trace == v.m.trace + EndOf(cfg, v, now);
    OnlyAppend(v.m.trace, EndOf(cfg, v, now), p);
    LeaveAddsNone(e.m, e.last, CCTX_LEVEL_PROCESS, p);
  }

  /** Of at most one event. */
  lemma OnlyFew(es: seq<Event<Path>>, p: Event<Path> -> bool)
    requires |es| <= 1
    ensures Only(es, p) == if es != [] && p(es[0]) then es else []
  {
    if es != [] {
      OnlySingle(es[0], p);
      assert es == [es[0]];
    }
  }

  lemma StepAdds(cfg: Config, v: View, r: Record, p: Event<Path> -> bool)
    requires ValidRecord(cfg, r) && Skips(p)
    ensures var v' := Handle(cfg, v, r);
            var begin, es := BeginOf(cfg, Adjusted(v, r.time), SwitchesOut(r)), EventOf(cfg, v', r);
            Only(v'.m.trace, p) == Only(v.m.trace, p) + (if begin != [] && p(begin[0]) then begin else [])
                                                      + (if es != [] && p(es[0]) then es else [])
  {
    HandleAdds(cfg, v, r, p);
    OnlyFew(BeginOf(cfg, Adjusted(v, r.time), SwitchesOut(r)), p);
    OnlyFew(EventOf(cfg, Handle(cfg, v, r), r), p);
  }

  lemma SampleStep(cfg: Config, v: View, r: Record)
    requires ValidRecord(cfg, r)
    ensures var v' := Handle(cfg, v, r);
            Only(v'.m.trace, IsSample) == Only(v.m.trace, IsSample) + if r.SampleRecord? then EventOf(cfg, v', r) else []
  {
    StepAdds(cfg, v, r, IsSample);
  }

  lemma SwitchStep(cfg: Config, v: View, r: Record)
    requires ValidRecord(cfg, r)
    ensures var v' := Handle(cfg, v, r);
            Only(v'.m.trace, IsCpuId) == Only(v.m.trace, IsCpuId) + if r.SwitchRecord? then EventOf(cfg, v', r) else []
  {
    StepAdds(cfg, v, r, IsCpuId);
  }

  lemma ThreadStep(cfg: Config, v: View, r: Record)
    requires ValidRecord(cfg, r)
    ensures Only(Handle(cfg, v, r).m.trace, IsThreadEvent)
         == Only(v.m.trace, IsThreadEvent) + BeginOf(cfg, Adjusted(v, r.time), SwitchesOut(r))
  {
    StepAdds(cfg, v, r, IsThreadEvent);
  }

  /** end() and the destructor add no sample and no CPU event. */
  lemma EndStep(cfg: Config, v: View, now: Time, p: Event<Path> -> bool)
    requires Skips(p) && forall e :: IsThreadEvent(e) ==> !p(e)
    ensures Only(Destroy(End(cfg, v, now)).m.trace, p) == Only(v.m.trace, p)
  {
    EndAdds(cfg, v, now, p);
    EndIsThread(cfg, v, now);
    OnlyNone(EndOf(cfg, v, now), p);
  }

  lemma EndIsThread(cfg: Config, v: View, now: Time)
    ensures forall i :: 0 <= i < |EndOf(cfg, v, now)| ==> IsThreadEvent(EndOf(cfg, v, now)[i])
  {
  }

  lemma {:induction false} OnlyAll(es: seq<Event<Path>>, p: Event<Path> -> bool)
    requires forall i :: 0 <= i < |es| ==> p(es[i])
    ensures Only(es, p) == es
  {
    if es != [] {
      OnlyAll(es[..|es| - 1], p);
      assert es == es[..|es| - 1] + [es[|es| - 1]];
    }
  }

  lemma EndThreadStep(cfg: Config, v: View, now: Time)
    ensures Only(Destroy(End(cfg, v, now)).m.trace, IsThreadEvent) == Only(v.m.trace, IsThreadEvent) + EndOf(cfg, v, now)
  {
    EndAdds(cfg, v, now, IsThreadEvent);
    EndIsThread(cfg, v, now);
    OnlyAll(EndOf(cfg, v, now), IsThreadEvent);
  }

  lemma OnlyEnd(first: Time, last: Time, p: Event<Path> -> bool)
    ensures Only([], p) == []
    ensures Only([ThreadEnd(last)], p) == if p(ThreadEnd(last)) then [ThreadEnd(last)] else []
    ensures Only([ThreadBegin(first), ThreadEnd(last)], p)
         == (if p(ThreadBegin(first)) then [ThreadBegin(first)] else []) + if p(ThreadEnd(last)) then [ThreadEnd(last)] else []
  {
    var a: Event<Path>, b: Event<Path> := ThreadBegin(first), ThreadEnd(last);
    OnlySingle(a, p);
    OnlySingle(b, p);
    OnlyAppend([a], [b], p);
    assert [a] + [b] == [a, b];
  }

  // ---- Samples and switches -----------------------------------------------------------

  /** One sample for every sample record: at the latest time by then, for its frames below the
      first scope since the last switch-out, or below its own if `own`. */
  function SamplesOf(cfg: Config, start: Time, rs: seq<Record>, own: bool): seq<Event<Path>> {
    if rs == [] then []
    else
      var r, scope := rs[|rs| - 1], if own then LatestSinceOut(rs) else FirstSinceOut(rs);
      SamplesOf(cfg, start, rs[..|rs| - 1], own) +
      if !r.SampleRecord? then []
      else if cfg.recordCallgraph then [CctxSample(Latest(start, rs), scope + Frames(r.ips), |r.ips|)]
      else [CctxSample(Latest(start, rs), scope + [SampleAddr(r.ip)], 2)]
  }

  /** On a thread, one CPU event for every switch record: -1 when the thread leaves its CPU. */
  function SwitchesOf(start: Time, rs: seq<Record>): seq<Event<Path>> {
    if rs == [] then []
    else
      var r := rs[|rs| - 1];
      SwitchesOf(start, rs[..|rs| - 1]) +
      if !r.SwitchRecord? then [] else if r.out then [CpuId(Latest(start, rs), -1)] else [CpuId(Latest(start, rs), r.cpu)]
  }

  lemma {:induction false} HandleAllSamples(cfg: Config, start: Time, rs: seq<Record>, own: bool)
    requires forall r :: r in rs ==> ValidRecord(cfg, r)
    requires if own then RealDisequality(cfg.differs) else AsWritten(cfg.differs)
    ensures Only(HandleAll(cfg, Initial(start), rs).m.trace, IsSample) == SamplesOf(cfg, start, rs, own)
  {
    if rs != [] {
      var n := |rs| - 1;
      HandleAllSamples(cfg, start, rs[..n], own);
      SampleStep(cfg, HandleAll(cfg, Initial(start), rs[..n]), rs[n]);
      HandleAllIsSteady(cfg, start, rs);
      if own { WrittenInOwnScope(cfg, start, rs); } else { WrittenInFirstScope(cfg, start, rs); }
    }
  }

  lemma {:induction false} HandleAllSwitches(cfg: Config, start: Time, rs: seq<Record>)
    requires forall r :: r in rs ==> ValidRecord(cfg, r)
    ensures Only(HandleAll(cfg, Initial(start), rs).m.trace, IsCpuId) == if cfg.isCpu then [] else SwitchesOf(start, rs)
  {
    if rs != [] {
      var n := |rs| - 1;
      HandleAllSwitches(cfg, start, rs[..n]);
      SwitchStep(cfg, HandleAll(cfg, Initial(start), rs[..n]), rs[n]);
      HandleAllIsSteady(cfg, start, rs);
    }
  }

  /** The samples of the whole stream are exactly those of the records, in order; with the
      comparison as written below the first scope since the last switch-out, with a real
      disequality below the record's own. */
  lemma SamplesAreExact(cfg: Config, start: Time, rs: seq<Record>, now: Time, own: bool)
    requires forall r :: r in rs ==> ValidRecord(cfg, r)
    requires if own then RealDisequality(cfg.differs) else AsWritten(cfg.differs)
    ensures Only(Lifetime(cfg, start, rs, now).m.trace, IsSample) == SamplesOf(cfg, start, rs, own)
  {
    HandleAllSamples(cfg, start, rs, own);
    EndStep(cfg, HandleAll(cfg, Initial(start), rs), now, IsSample);
  }

  /** The CPU events of the whole stream are exactly those of the switches, in order; a CPU
      scope has none. */
  lemma SwitchesAreExact(cfg: Config, start: Time, rs: seq<Record>, now: Time)
    requires forall r :: r in rs ==> ValidRecord(cfg, r)
    ensures Only(Lifetime(cfg, start, rs, now).m.trace, IsCpuId) == if cfg.isCpu then [] else SwitchesOf(start, rs)
  {
    HandleAllSwitches(cfg, start, rs);
    EndStep(cfg, HandleAll(cfg, Initial(start), rs), now, IsCpuId);
  }

  // ---- The begin and end of a thread --------------------------------------------------

  /** Record f is the first that is no switch-out. */
  ghost predicate IsFirstIn(rs: seq<Record>, f: nat) {
    f < |rs| && !(rs[f].SwitchRecord? && rs[f].out) && forall i :: 0 <= i < f ==> rs[i].SwitchRecord? && rs[i].out
  }

  ghost predicate OnlyOuts(rs: seq<Record>) {
    forall i :: 0 <= i < |rs| ==> rs[i].SwitchRecord? && rs[i].out
  }

  lemma FirstInSnoc(rs: seq<Record>, f: nat)
    requires rs != []
    ensures IsFirstIn(rs, f) <==>
            IsFirstIn(rs[..|rs| - 1], f) || (f == |rs| - 1 && OnlyOuts(rs[..|rs| - 1]) && !SwitchesOut(rs[f]))
  {
    var front := rs[..|rs| - 1];
    assert forall i :: 0 <= i < |front| ==> front[i] == rs[i];
  }

  lemma FirstInExists(rs: seq<Record>) returns (f: nat)
    ensures OnlyOuts(rs) || IsFirstIn(rs, f)
  {
    f := 0;
    while f < |rs| && SwitchesOut(rs[f])
      invariant f <= |rs| && forall i :: 0 <= i < f ==> SwitchesOut(rs[i])
    {
      f := f + 1;
    }
  }

  /** thread_begin as far as it was written while records came in. */
  function BeginOfAll(start: Time, rs: seq<Record>): seq<Event<Path>> {
    if rs == [] then []
    else if BeginOfAll(start, rs[..|rs| - 1]) != [] then BeginOfAll(start, rs[..|rs| - 1])
    else if SwitchesOut(rs[|rs| - 1]) then [] else [ThreadBegin(Latest(start, rs))]
  }

  lemma {:induction false} BeginOfAllExactly(start: Time, rs: seq<Record>, f: nat)
    ensures OnlyOuts(rs) <==> BeginOfAll(start, rs) == []
    ensures IsFirstIn(rs, f) ==> BeginOfAll(start, rs) == [ThreadBegin(Latest(start, rs[..f + 1]))]
  {
    if rs != [] {
      var n := |rs| - 1;
      FirstInSnoc(rs, f);
      assert forall i :: 0 <= i < n ==> rs[..n][i] == rs[i];
      BeginOfAllExactly(start, rs[..n], f);
      if IsFirstIn(rs[..n], f) { assert rs[..n][..f + 1] == rs[..f + 1]; } else { assert rs[..n + 1] == rs; }
    }
  }

  lemma {:induction false} HandleAllBegins(cfg: Config, start: Time, rs: seq<Record>)
    requires forall r :: r in rs ==> ValidRecord(cfg, r)
    ensures var v := HandleAll(cfg, Initial(start), rs);
            && Only(v.m.trace, IsThreadEvent) == (if cfg.isCpu then [] else BeginOfAll(start, rs))
            && (!cfg.isCpu ==> (v.firstEvent <==> BeginOfAll(start, rs) == []))
  {
    if rs != [] {
      var n := |rs| - 1;
      HandleAllBegins(cfg, start, rs[..n]);
      ThreadStep(cfg, HandleAll(cfg, Initial(start), rs[..n]), rs[n]);
      HandleAllIsSteady(cfg, start, rs[..n]);
    }
  }

  /** On a thread there is exactly one thread_begin and after it exactly one thread_end. The
      first has the latest time up to the first record that is no switch-out, or the time of
      construction if there is none; the second the latest time of all. A CPU has neither. */
  lemma ThreadEventsAreExact(cfg: Config, start: Time, rs: seq<Record>, now: Time)
    requires forall r :: r in rs ==> ValidRecord(cfg, r)
    ensures var found := Only(Lifetime(cfg, start, rs, now).m.trace, IsThreadEvent);
            var end := ThreadEnd(if Latest(start, rs) > now then Latest(start, rs) else now);
            && (cfg.isCpu ==> found == [])
            && (!cfg.isCpu && OnlyOuts(rs) ==> found == [ThreadBegin(start), end])
            && (!cfg.isCpu ==> forall f: nat :: IsFirstIn(rs, f) ==> found == [ThreadBegin(Latest(start, rs[..f + 1])), end])
  {
    HandleAllIsSteady(cfg, start, rs);
    HandleAllBegins(cfg, start, rs);
    EndThreadStep(cfg, HandleAll(cfg, Initial(start), rs), now);
    BeginOfAllExactly(start, rs, 0);
    forall f: nat | IsFirstIn(rs, f) ensures BeginOfAll(start, rs) == [ThreadBegin(Latest(start, rs[..f + 1]))] {
      BeginOfAllExactly(start, rs, f);
    }
  }

  // ---- thread_begin comes first -------------------------------------------------------

  lemma {:induction false} OutsWriteCpuIds(cfg: Config, start: Time, rs: seq<Record>)
    requires !cfg.isCpu && OnlyOuts(rs)
    requires forall r :: r in rs ==> ValidRecord(cfg, r)
    ensures forall i :: 0 <= i < |HandleAll(cfg, Initial(start), rs).m.trace| ==> HandleAll(cfg, Initial(start), rs).m.trace[i].CpuId?
  {
    if rs != [] {
      var n := |rs| - 1;
      assert forall i :: 0 <= i < n ==> rs[..n][i] == rs[i];
      OutsWriteCpuIds(cfg, start, rs[..n]);
      FirstEventExactlyWhen(cfg, start, rs[..n]);
      var v := HandleAll(cfg, Initial(start), rs[..n]);
      assert Leave(v.m, Adjusted(v, rs[n].time).last, CCTX_LEVEL_PROCESS) == v.m;
    }
  }

  /** On a thread thread_begin stands before every enter event. */
  lemma BeginComesFirst(cfg: Config, start: Time, rs: seq<Record>, now: Time, b: nat, i: nat)
    requires !cfg.isCpu && forall r :: r in rs ==> ValidRecord(cfg, r)
    requires b < |Lifetime(cfg, start, rs, now).m.trace| && Lifetime(cfg, start, rs, now).m.trace[b].ThreadBegin?
    requires i < |Lifetime(cfg, start, rs, now).m.trace| && Lifetime(cfg, start, rs, now).m.trace[i].CctxEnter?
    ensures b < i
  {
    var es := Lifetime(cfg, start, rs, now).m.trace;
    var f := FirstInExists(rs);
    if OnlyOuts(rs) {
      OutsWriteCpuIds(cfg, start, rs);
      FirstEventExactlyWhen(cfg, start, rs);
      EndAfterSwitchOuts(cfg, start, rs, now);
      assert false;
    } else {
      var b0 := BeginAt(cfg, start, rs, now, f);
      OneBegin(cfg, start, rs, now, f, b, b0);
    }
  }

  lemma OneBegin(cfg: Config, start: Time, rs: seq<Record>, now: Time, f: nat, b: nat, b0: nat)
    requires !cfg.isCpu && (forall r :: r in rs ==> ValidRecord(cfg, r)) && IsFirstIn(rs, f)
    requires b < |Lifetime(cfg, start, rs, now).m.trace| && Lifetime(cfg, start, rs, now).m.trace[b].ThreadBegin?
    requires b0 < |Lifetime(cfg, start, rs, now).m.trace| && Lifetime(cfg, start, rs, now).m.trace[b0].ThreadBegin?
    ensures b == b0
  {
    var es := Lifetime(cfg, start, rs, now).m.trace;
    ThreadEventsAreExact(cfg, start, rs, now);
    OnlyOfOnly(es, IsThreadEvent, IsBegin);
    var two := Only(es, IsThreadEvent);
    OnlyEnd(two[0].time, two[1].time, IsBegin);
    if b < b0 { OnlyTwo(es, IsBegin, b, b0); }
    if b0 < b { OnlyTwo(es, IsBegin, b0, b); }
  }

  /** Where thread_begin is: behind what was written before the first record that is no
      switch-out, which holds no enter event. */
  lemma BeginAt(cfg: Config, start: Time, rs: seq<Record>, now: Time, f: nat) returns (b: nat)
    requires !cfg.isCpu && (forall r :: r in rs ==> ValidRecord(cfg, r)) && IsFirstIn(rs, f)
    ensures var es := Lifetime(cfg, start, rs, now).m.trace;
            b < |es| && es[b].ThreadBegin? && forall i :: 0 <= i <= b ==> !es[i].CctxEnter?
  {
    var before := rs[..f];
    assert forall i :: 0 <= i < f ==> before[i] == rs[i];
    OutsWriteCpuIds(cfg, start, before);
    FirstEventExactlyWhen(cfg, start, before);
    var v := HandleAll(cfg, Initial(start), before);
    b := |v.m.trace|;
    BeginStays(cfg, start, rs, now, f);
    PrefixWithout(v.m.trace, ThreadBegin(Adjusted(v, rs[f].time).last), Lifetime(cfg, start, rs, now).m.trace);
  }

  lemma PrefixWithout(a: seq<Event<Path>>, e: Event<Path>, es: seq<Event<Path>>)
    requires a + [e] <= es && e.ThreadBegin? && forall i :: 0 <= i < |a| ==> a[i].CpuId?
    ensures |a| < |es| && es[|a|].ThreadBegin? && forall i :: 0 <= i <= |a| ==> !es[i].CctxEnter?
  {
    assert es[|a|] == (a + [e])[|a|];
    forall i | 0 <= i < |a| ensures es[i] == a[i] { assert es[i] == (a + [e])[i]; }
  }

  lemma BeginStays(cfg: Config, start: Time, rs: seq<Record>, now: Time, f: nat)
    requires !cfg.isCpu && (forall r :: r in rs ==> ValidRecord(cfg, r)) && IsFirstIn(rs, f)
    requires HandleAll(cfg, Initial(start), rs[..f]).firstEvent
    ensures var v := HandleAll(cfg, Initial(start), rs[..f]);
            v.m.trace + [ThreadBegin(Adjusted(v, rs[f].time).last)] <= Lifetime(cfg, start, rs, now).m.trace
  {
    BeginWritten(cfg, HandleAll(cfg, Initial(start), rs[..f]), rs[f]);
    assert rs[..f + 1][..f] == rs[..f];
    HandleAllExtends(cfg, Initial(start), rs, f + 1);
    LifetimeStarts(cfg, start, rs, now);
  }

  lemma LifetimeStarts(cfg: Config, start: Time, rs: seq<Record>, now: Time)
    requires forall r :: r in rs ==> ValidRecord(cfg, r)
    ensures HandleAll(cfg, Initial(start), rs).m.trace <= Lifetime(cfg, start, rs, now).m.trace
  {
  }

  lemma BeginWritten(cfg: Config, v: View, r: Record)
    requires !cfg.isCpu && ValidRecord(cfg, r) && v.firstEvent && !SwitchesOut(r)
    ensures v.m.trace + [ThreadBegin(Adjusted(v, r.time).last)] <= Handle(cfg, v, r).m.trace
  {
    var v0 := Adjusted(v, r.time);
    var v1 := Write(v0, ThreadBegin(v0.last));
    StampedEnter(cfg.differs, v1.m, v0.last, CCTX_LEVEL_PROCESS, [Process(r.pid), Thread(r.tid)]);
  }

  // ---- What was written stays ---------------------------------------------------------

  lemma UpdateExtends(cfg: Config, v: View, pid: int, tid: int, out: bool)
    ensures v.m.trace <= Update(cfg, v, pid, tid, out).m.trace
  {
    if !out {
      var v1 := if v.firstEvent && !cfg.isCpu then Write(v, ThreadBegin(v.last)).(firstEvent := false) else v;
      StampedEnter(cfg.differs, v1.m, v.last, CCTX_LEVEL_PROCESS, [Process(pid), Thread(tid)]);
    }
  }

  lemma HandleExtends(cfg: Config, v: View, r: Record)
    requires ValidRecord(cfg, r)
    ensures v.m.trace <= Handle(cfg, v, r).m.trace
  {
    UpdateExtends(cfg, Adjusted(v, r.time), r.pid, r.tid, SwitchesOut(r));
  }

  lemma {:induction false} HandleAllExtends(cfg: Config, v: View, rs: seq<Record>, k: nat)
    requires (forall r :: r in rs ==> ValidRecord(cfg, r)) && k <= |rs|
    ensures forall r :: r in rs[..k] ==> ValidRecord(cfg, r)
    ensures HandleAll(cfg, v, rs[..k]).m.trace <= HandleAll(cfg, v, rs).m.trace
    decreases |rs|
  {
    if k == |rs| {
      assert rs[..k] == rs;
    } else {
      var n := |rs| - 1;
      HandleAllExtends(cfg, v, rs[..n], k);
      assert rs[..n][..k] == rs[..k];
      HandleExtends(cfg, HandleAll(cfg, v, rs[..n]), rs[n]);
    }
  }
}
