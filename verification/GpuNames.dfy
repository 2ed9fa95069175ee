/** What the trace says about GPU kernels in the end: the spans the GPU monitor wrote, read with
    the table of functions it hands to the resolvers (include/lo2s/monitor/gpu_monitor.hpp,
    include/lo2s/resolvers/manual_function_resolver.hpp). */
module GpuNames {
  import opened CallingContexts
  import opened CctxTrace
  import opened Options
  import opened GpuKernels

  /** One kernel in the trace; no name if its number is not in the table. */
  datatype Span = Span(name: Option<Name>, start: Time, end: Time)

  function Lookup(functions: map<nat, Name>, id: nat): Option<Name> {
    if id in functions then Some(functions[id]) else None
  }

  /** The kernels of an event stream: each leave of a kernel's node right behind its enter. */
  function ReadBack(functions: map<nat, Name>, es: seq<Event<Path>>): seq<Span> {
    if es == [] then []
    else
      var n := |es| - 1;
      if n > 0 && es[n].CctxLeave? && |es[n].node| == 2 && es[n].node[1].GpuKernel?
         && es[n - 1].CctxEnter? && es[n - 1].node == es[n].node
      then ReadBack(functions, es[..n - 1]) + [Span(Lookup(functions, es[n].node[1].kernelId), es[n - 1].time, es[n].time)]
      else ReadBack(functions, es[..n])
  }

  /** The kernels that were sent, with the name the table has for each number. */
  function Heard(functions: map<nat, Name>, ms: seq<Meaning>): seq<Span> {
    if ms == [] then []
    else
      var m := ms[|ms| - 1];
      Heard(functions, ms[..|ms| - 1]) + if m.Runs? then [Span(Lookup(functions, m.id), m.start, m.end)] else []
  }

  /** The kernels that were sent, with the name they were launched under. */
  function Told(ms: seq<Meaning>): seq<Span> {
    if ms == [] then []
    else
      var m := ms[|ms| - 1];
      Told(ms[..|ms| - 1]) + if m.Runs? then [Span(Some(m.name), m.start, m.end)] else []
  }

  /** The launches whose kernel event found room. */
  function Granted(ls: seq<Launch>): seq<Span> {
    if ls == [] then []
    else
      var l := ls[|ls| - 1];
      Granted(ls[..|ls| - 1]) + if l.kernelOk then [Span(Some(l.name), l.start, l.end)] else []
  }

  // ---- From the events to the spans ---------------------------------------------------

  ghost predicate SmallNumbers(ms: seq<Meaning>) {
    forall i :: 0 <= i < |ms| ==> ms[i].id < 0x1_0000_0000_0000_0000
  }

  lemma ReadBackSpan(functions: map<nat, Name>, es: seq<Event<Path>>, node: Path, start: Time, end: Time)
    requires |node| == 2 && node[1].GpuKernel?
    ensures ReadBack(functions, es + [CctxEnter(start, node), CctxLeave(end, node)])
         == ReadBack(functions, es) + [Span(Lookup(functions, node[1].kernelId), start, end)]
  {
    var all := es + [CctxEnter(start, node), CctxLeave(end, node)];
    assert all[..|es|] == es;
  }

  lemma ReadBackEnter(functions: map<nat, Name>, es: seq<Event<Path>>, node: Path, start: Time)
    ensures ReadBack(functions, es + [CctxEnter(start, node)]) == ReadBack(functions, es)
  {
    assert (es + [CctxEnter(start, node)])[..|es|] == es;
  }

  lemma DefinitionIsNotWatched(differs: Comparison, pid: int, m: Machine, id: u64, name: Name)
    ensures Watch(differs, pid, m, EncodeDef(id, name)) == m
  {
    DecodeDef(id, name);
  }

  lemma KernelReadsBack(differs: Comparison, pid: int, functions: map<nat, Name>, m: Machine, start: u64, end: u64, id: u64)
    requires !differs(Process(pid), Process(pid)) && (m.stack == [] || m.stack == [Process(pid)])
    ensures ReadBack(functions, Watch(differs, pid, m, EncodeKernel(start, end, id)).trace)
         == ReadBack(functions, m.trace) + [Span(Lookup(functions, id), start, end)]
  {
    KernelIsOneSpan(differs, pid, m, start, end, id);
    ReadBackEnter(functions, m.trace, [Process(pid)], start);
    var before := m.trace + if m.stack == [] then [CctxEnter(start, [Process(pid)])] else [];
    assert m.stack != [] ==> before == m.trace;
    ReadBackSpan(functions, before, [Process(pid), GpuKernel(id)], start, end);
  }

  /** Reading the monitor's stream with any table gives the kernels that were sent, in order,
      under the names of that table. */
  lemma {:induction false} StreamReadsBack(differs: Comparison, pid: int, functions: map<nat, Name>, ms: seq<Meaning>)
    requires !differs(Process(pid), Process(pid)) && SmallNumbers(ms)
    ensures var m := WatchAll(differs, pid, EncodeAll(ms));
            (m.stack == [] || m.stack == [Process(pid)]) && ReadBack(functions, m.trace) == Heard(functions, ms)
  {
    if ms != [] {
      var n := |ms| - 1;
      StreamReadsBack(differs, pid, functions, ms[..n]);
      assert EncodeAll(ms)[..n] == EncodeAll(ms[..n]);
      var m := WatchAll(differs, pid, EncodeAll(ms[..n]));
      match ms[n]
      case Defines(id, name) => DefinitionIsNotWatched(differs, pid, m, id, name);
      case Runs(start, end, id, _) =>
        KernelReadsBack(differs, pid, functions, m, start, end, id);
        KernelIsOneSpan(differs, pid, m, start, end, id);
    }
  }

  // ---- How the stream ends ------------------------------------------------------------

  /** What a monitor has written once it is finalized. */
  function Closed(differs: Comparison, pid: int, es: seq<Ev>): Machine {
    Leave(WatchAll(differs, pid, es), LastEnd(es), 1)
  }

  /** Kernels that take no negative time and do not start before an earlier one ended. */
  ghost predicate InTurn(ms: seq<Meaning>) {
    && (forall j :: 0 <= j < |ms| && ms[j].Runs? ==> ms[j].start <= ms[j].end)
    && forall i, j :: 0 <= i < j < |ms| && ms[i].Runs? && ms[j].Runs? ==> ms[i].end <= ms[j].start
  }

  /** Kernel j is the last one. */
  ghost predicate IsLastRun(ms: seq<Meaning>, j: nat) {
    j < |ms| && ms[j].Runs? && forall i :: j < i < |ms| ==> !ms[i].Runs?
  }

  ghost predicate NoRuns(ms: seq<Meaning>) {
    forall i :: 0 <= i < |ms| ==> !ms[i].Runs?
  }

  /** Events up to a kernel's own, which are stamped with its start and its end. */
  lemma OrderedSpan(a: seq<Event<Path>>, b: seq<Event<Path>>, start: Time, end: Time)
    requires |b| == |a| + 2 || (a == [] && |b| == 3)
    requires b[..|a|] == a && b[|b| - 1].time == end
    requires forall i :: |a| <= i < |b| - 1 ==> b[i].time == start
    ensures Ordered(b) <==> Ordered(a) && start <= end && (a == [] || a[|a| - 1].time <= start)
  {
    forall i | 0 <= i < |a| ensures b[i] == a[i] { assert b[..|a|][i] == b[i]; }
    assert b[|b| - 2].time == start;
    if a != [] { assert b[|a| - 1] == a[|a| - 1] && b[|a|].time == start; }
  }

  lemma InTurnSnoc(ms: seq<Meaning>, m: Meaning, j: nat)
    requires NoRuns(ms) || IsLastRun(ms, j)
    ensures InTurn(ms + [m]) <==>
            InTurn(ms) && (m.Runs? ==> m.start <= m.end && (!NoRuns(ms) ==> ms[j].end <= m.start))
  {
    var all := ms + [m];
    assert all[|ms|] == m;
    if InTurn(all) {
      forall i | 0 <= i < |ms| && ms[i].Runs? ensures ms[i].start <= ms[i].end { assert all[i] == ms[i]; }
      forall i, k | 0 <= i < k < |ms| && ms[i].Runs? && ms[k].Runs? ensures ms[i].end <= ms[k].start {
        assert all[i] == ms[i] && all[k] == ms[k];
      }
      if !NoRuns(ms) && m.Runs? { assert all[j] == ms[j]; }
    }
    if InTurn(ms) && m.Runs? && m.start <= m.end && (!NoRuns(ms) ==> ms[j].end <= m.start) {
      forall i | 0 <= i < |ms| && ms[i].Runs? ensures ms[i].end <= m.start {
        assert !NoRuns(ms);
        assert i <= j;
        if i < j { assert ms[i].end <= ms[j].start <= ms[j].end; }
      }
    }
  }

  /** What the monitor has written after these events: nothing before the first kernel; after
      kernel j, the last so far, the process is open and the last event is the end of j. */
  ghost predicate OpenAfter(pid: int, ms: seq<Meaning>, m: Machine, last: nat, j: nat) {
    && Nested(m)
    && if NoRuns(ms) then m == START && last == 0
       else IsLastRun(ms, j) && m.stack == [Process(pid)] && m.trace != [] && last == ms[j].end == m.trace[|m.trace| - 1].time
  }

  ghost predicate OpenInTurn(pid: int, ms: seq<Meaning>, m: Machine, last: nat, j: nat) {
    OpenAfter(pid, ms, m, last, j) && (Ordered(m.trace) <==> InTurn(ms))
  }

  lemma OpenInTurnNext(differs: Comparison, pid: int, ms: seq<Meaning>, n: nat, m: Machine, last: nat, j: nat)
    returns (j': nat)
    requires !differs(Process(pid), Process(pid)) && |ms| == n + 1 && ms[n].id < 0x1_0000_0000_0000_0000
    requires OpenInTurn(pid, ms[..n], m, last, j)
    ensures OpenInTurn(pid, ms, Watch(differs, pid, m, Encode(ms[n])), NextEnd(last, Encode(ms[n])), j')
  {
    InTurnSnoc(ms[..n], ms[n], j);
    j' := OpenNext(differs, pid, ms[..n], ms[n], m, last, j);
    assert ms[..n] + [ms[n]] == ms;
  }

  lemma NothingOpen(pid: int)
    ensures OpenInTurn(pid, [], START, 0, 0)
  {
    assert Open([]) == [];
  }

  lemma {:induction false} StreamIsOpen(differs: Comparison, pid: int, ms: seq<Meaning>) returns (j: nat)
    requires !differs(Process(pid), Process(pid)) && SmallNumbers(ms)
    ensures OpenInTurn(pid, ms, WatchAll(differs, pid, EncodeAll(ms)), LastEnd(EncodeAll(ms)), j)
  {
    if ms == [] {
      NothingOpen(pid);
      j := 0;
    } else {
      var n := |ms| - 1;
      var es := EncodeAll(ms[..n]);
      j := StreamIsOpen(differs, pid, ms[..n]);
      j := OpenInTurnNext(differs, pid, ms, n, WatchAll(differs, pid, es), LastEnd(es), j);
      WatchLast(differs, pid, ms);
    }
  }

  lemma WatchLast(differs: Comparison, pid: int, ms: seq<Meaning>)
    requires ms != []
    ensures var n := |ms| - 1;
            var es := EncodeAll(ms[..n]);
            && WatchAll(differs, pid, EncodeAll(ms)) == Watch(differs, pid, WatchAll(differs, pid, es), Encode(ms[n]))
            && LastEnd(EncodeAll(ms)) == NextEnd(LastEnd(es), Encode(ms[n]))
  {
    var n := |ms| - 1;
    assert EncodeAll(ms)[..n] == EncodeAll(ms[..n]);
  }

  /** The latest kernel end once an event is handled. */
  function NextEnd(last: nat, e: Ev): nat {
    if Field(e, 8) == KERNEL then Field(e, 24) else last
  }

  lemma DefinitionKeepsOpen(pid: int, ms: seq<Meaning>, e: Meaning, m: Machine, last: nat, j: nat)
    requires e.Defines? && OpenAfter(pid, ms, m, last, j)
    ensures OpenAfter(pid, ms + [e], m, last, j)
  {
    var all := ms + [e];
    if NoRuns(ms) {
      assert NoRuns(all);
    } else {
      assert all[j] == ms[j] && all[j].Runs?;
      assert IsLastRun(all, j);
    }
  }

  lemma KernelKeepsOpen(differs: Comparison, pid: int, ms: seq<Meaning>, e: Meaning, m: Machine, last: nat, j: nat)
    requires !differs(Process(pid), Process(pid)) && e.id < 0x1_0000_0000_0000_0000 && OpenAfter(pid, ms, m, last, j)
    requires e.Runs?
    ensures var m' := Watch(differs, pid, m, Encode(e));
            && OpenAfter(pid, ms + [e], m', e.end, |ms|)
            && (Ordered(m'.trace) <==>
                  Ordered(m.trace) && e.start <= e.end && (m.trace == [] || m.trace[|m.trace| - 1].time <= e.start))
  {
    assert (ms + [e])[|ms|] == e;
    KernelIsOneSpan(differs, pid, m, e.start, e.end, e.id);
    WatchKeepsNested(differs, pid, m, Encode(e));
    OrderedSpan(m.trace, Watch(differs, pid, m, Encode(e)).trace, e.start, e.end);
  }

  lemma OpenNext(differs: Comparison, pid: int, ms: seq<Meaning>, e: Meaning, m: Machine, last: nat, j: nat) returns (j': nat)
    requires !differs(Process(pid), Process(pid)) && e.id < 0x1_0000_0000_0000_0000 && OpenAfter(pid, ms, m, last, j)
    ensures var m' := Watch(differs, pid, m, Encode(e));
            && OpenAfter(pid, ms + [e], m', NextEnd(last, Encode(e)), j')
            && (Ordered(m'.trace) <==>
                  Ordered(m.trace) && (e.Runs? ==> e.start <= e.end && (!NoRuns(ms) ==> ms[j].end <= e.start)))
  {
    match e
    case Defines(id, name) =>
      DecodeDef(id, name);
      j' := j;
      DefinitionKeepsOpen(pid, ms, e, m, last, j);
    case Runs(start, end, id, _) =>
      DecodeKernel(start, end, id);
      j' := |ms|;
      KernelKeepsOpen(differs, pid, ms, e, m, last, j);
  }

  lemma WatchKeepsNested(differs: Comparison, pid: int, m: Machine, e: Ev)
    requires Nested(m)
    ensures Nested(Watch(differs, pid, m, e))
  {
    if Field(e, 8) == KERNEL {
      var cs := [Process(pid), GpuKernel(Field(e, 32))];
      EnterKeepsNested(differs, m, Field(e, 16), 1, cs);
      LeaveKeepsNested(Enter(differs, m, Field(e, 16), 1, cs), Field(e, 24), 2);
    }
  }

  /** The stream is balanced; if there was a kernel, it closes with the process, at the end of
      the last kernel; and it is in order exactly if the kernels came in turn. */
  ghost predicate ClosesRight(pid: int, ms: seq<Meaning>, es: seq<Event<Path>>) {
    && Replay([], es) == Some([])
    && (NoRuns(ms) ==> es == [])
    && (forall j: nat :: IsLastRun(ms, j) ==> es != [] && es[|es| - 1] == CctxLeave(ms[j].end, [Process(pid)]))
    && (Ordered(es) <==> InTurn(ms))
  }

  lemma LastRunIsUnique(ms: seq<Meaning>, j: nat, k: nat)
    requires IsLastRun(ms, j) && IsLastRun(ms, k)
    ensures j == k
  {
  }

  lemma CloseOpen(pid: int, ms: seq<Meaning>, m: Machine, last: nat, k: nat)
    requires OpenInTurn(pid, ms, m, last, k)
    ensures ClosesRight(pid, ms, Leave(m, last, 1).trace)
  {
    LeaveKeepsNested(m, last, 1);
    assert Open([]) == [];
    if !NoRuns(ms) {
      forall j: nat | IsLastRun(ms, j) ensures j == k { LastRunIsUnique(ms, j, k); }
      assert m.stack[..1] == m.stack && m.stack[..0] == [];
      assert Leaves(last, m.stack, 0) == [CctxLeave(last, [Process(pid)])];
      OrderedLast(m.trace, CctxLeave(last, [Process(pid)]));
    }
  }

  lemma ClosedExactly(differs: Comparison, pid: int, ms: seq<Meaning>)
    requires !differs(Process(pid), Process(pid)) && SmallNumbers(ms)
    ensures ClosesRight(pid, ms, Closed(differs, pid, EncodeAll(ms)).trace)
  {
    var k := StreamIsOpen(differs, pid, ms);
    CloseOpen(pid, ms, WatchAll(differs, pid, EncodeAll(ms)), LastEnd(EncodeAll(ms)), k);
  }

  lemma OrderedLast(es: seq<Event<Path>>, e: Event<Path>)
    requires es != [] && e.time == es[|es| - 1].time
    ensures Ordered(es + [e]) <==> Ordered(es)
  {
    var all := es + [e];
    if Ordered(all) {
      forall i, j | 0 <= i < j < |es| ensures es[i].time <= es[j].time { assert all[i] == es[i] && all[j] == es[j]; }
    }
  }

  /** A monitor from its construction to finalize_thread(). */
  method MonitorEvents(process: int, differs: Comparison, es: seq<Ev>) returns (monitor: GPUMonitor)
    requires !differs(Process(process), Process(process))
    ensures fresh(monitor) && monitor.tree.Valid() && monitor.tree.spec == Closed(differs, process, es)
  {
    monitor := new GPUMonitor(process, differs);
    monitor.Drain(es);
    assert monitor.seen == es;
    monitor.FinalizeThread();
  }

  method MonitorAll(process: int, differs: Comparison, ms: seq<Meaning>) returns (monitor: GPUMonitor)
    requires !differs(Process(process), Process(process)) && SmallNumbers(ms)
    ensures fresh(monitor) && monitor.tree.Valid() && ClosesRight(process, ms, monitor.tree.spec.trace)
  {
    ClosedExactly(differs, process, ms);
    monitor := MonitorEvents(process, differs, EncodeAll(ms));
  }

  // ---- From the spans to the launches -------------------------------------------------

  /** Every kernel has its own name in the table. */
  ghost predicate AllRight(functions: map<nat, Name>, ms: seq<Meaning>) {
    forall j :: 0 <= j < |ms| && ms[j].Runs? ==> Lookup(functions, ms[j].id) == Some(ms[j].name)
  }

  lemma SnocEqual(a: seq<Span>, b: seq<Span>, x: Span, y: Span)
    requires |a| == |b|
    ensures a + [x] == b + [y] <==> a == b && x == y
  {
    if a + [x] == b + [y] {
      assert (a + [x])[..|a|] == a && (b + [y])[..|b|] == b;
      assert (a + [x])[|a|] == x && (b + [y])[|b|] == y;
    }
  }

  lemma AllRightSnoc(functions: map<nat, Name>, ms: seq<Meaning>, m: Meaning)
    ensures AllRight(functions, ms + [m]) <==>
            AllRight(functions, ms) && (m.Runs? ==> Lookup(functions, m.id) == Some(m.name))
  {
    assert (ms + [m])[|ms|] == m;
    if AllRight(functions, ms + [m]) {
      forall j | 0 <= j < |ms| && ms[j].Runs? ensures Lookup(functions, ms[j].id) == Some(ms[j].name) {
        assert (ms + [m])[j] == ms[j];
      }
    }
  }

  lemma {:induction false} HeardAsTold(functions: map<nat, Name>, ms: seq<Meaning>)
    ensures |Heard(functions, ms)| == |Told(ms)|
    ensures Heard(functions, ms) == Told(ms) <==> AllRight(functions, ms)
  {
    if ms != [] {
      var n := |ms| - 1;
      var m := ms[n];
      HeardAsTold(functions, ms[..n]);
      assert ms == ms[..n] + [m];
      AllRightSnoc(functions, ms[..n], m);
      if m.Runs? {
        SnocEqual(Heard(functions, ms[..n]), Told(ms[..n]),
                  Span(Lookup(functions, m.id), m.start, m.end), Span(Some(m.name), m.start, m.end));
      } else {
        assert Heard(functions, ms) == Heard(functions, ms[..n]) && Told(ms) == Told(ms[..n]);
      }
    }
  }

  lemma {:induction false} ToldAppend(a: seq<Meaning>, b: seq<Meaning>)
    ensures Told(a + b) == Told(a) + Told(b)
    decreases |b|
  {
    if b == [] {
      assert a + b == a;
    } else {
      assert (a + b)[..|a + b| - 1] == a + b[..|b| - 1];
      ToldAppend(a, b[..|b| - 1]);
    }
  }

  lemma ToldOfLaunch(p: Producer, l: Launch)
    ensures Told(Meant(p, l)) == if l.kernelOk then [Span(Some(l.name), l.start, l.end)] else []
  {
    var runs: seq<Meaning> := if l.kernelOk then [Runs(l.start, l.end, Define(p, l.name, l.defOk).1, l.name)] else [];
    ToldAppend(Definition(p, l), runs);
    assert Told(Definition(p, l)) == [];
  }

  lemma {:induction false} ToldIsGranted(ls: seq<Launch>)
    ensures Told(MeantAll(ls)) == Granted(ls)
  {
    if ls != [] {
      var n := |ls| - 1;
      ToldIsGranted(ls[..n]);
      ToldOfLaunch(SubmitAll(ls[..n]), ls[n]);
      ToldAppend(MeantAll(ls[..n]), Meant(SubmitAll(ls[..n]), ls[n]));
    }
  }

  lemma {:induction false} ToldPrefix(ms: seq<Meaning>, k: nat)
    requires k <= |ms|
    ensures Told(ms[..k]) <= Told(ms)
    decreases |ms|
  {
    if k == |ms| {
      assert ms[..k] == ms;
    } else {
      var n := |ms| - 1;
      assert ms[..n][..k] == ms[..k];
      ToldPrefix(ms[..n], k);
    }
  }

  // ---- Which kernels are named right in the end ---------------------------------------

  /** The number of a name, and no other. */
  predicate Has(p: Producer, name: Name, id: nat) {
    name in p.cctxs && p.cctxs[name] == id
  }

  /** The kernel was written without a definition, under the number 0, which is not the number
      its name has in the end. */
  predicate MisnamedForGood(ls: seq<Launch>, i: nat)
    requires i < |ls|
  {
    Misnamed(SubmitAll(ls[..i]), ls[i]) && !Has(SubmitAll(ls), ls[i].name, 0)
  }

  ghost predicate SomeMisnamedForGood(ls: seq<Launch>) {
    exists i :: 0 <= i < |ls| && MisnamedForGood(ls, i)
  }

  lemma {:induction false} NumbersStay(ls: seq<Launch>, i: nat, name: Name)
    requires i <= |ls| && name in SubmitAll(ls[..i]).cctxs
    ensures Has(SubmitAll(ls), name, SubmitAll(ls[..i]).cctxs[name])
    decreases |ls|
  {
    if i == |ls| {
      assert ls[..i] == ls;
    } else {
      var n := |ls| - 1;
      assert ls[..n][..i] == ls[..i];
      NumbersStay(ls[..n], i, name);
    }
  }

  /** The kernel of a launch carries the number its name has in the end, unless it was misnamed. */
  lemma LaunchNumbered(ls: seq<Launch>, i: nat)
    requires i < |ls| && ls[i].kernelOk
    ensures var p := SubmitAll(ls[..i]);
            var id := Define(p, ls[i].name, ls[i].defOk).1;
            Has(SubmitAll(ls), ls[i].name, id) <==> !MisnamedForGood(ls, i)
  {
    var p := SubmitAll(ls[..i]);
    if !Misnamed(p, ls[i]) {
      assert ls[..i + 1][..i] == ls[..i];
      assert SubmitAll(ls[..i + 1]) == Submit(p, ls[i]);
      NumbersStay(ls, i + 1, ls[i].name);
    }
  }

  ghost predicate AllHave(p: Producer, ms: seq<Meaning>) {
    forall j :: 0 <= j < |ms| && ms[j].Runs? ==> Has(p, ms[j].name, ms[j].id)
  }

  lemma AllHaveAppend(p: Producer, a: seq<Meaning>, b: seq<Meaning>)
    ensures AllHave(p, a + b) <==> AllHave(p, a) && AllHave(p, b)
  {
    if AllHave(p, a + b) {
      forall j | 0 <= j < |a| && a[j].Runs? ensures Has(p, a[j].name, a[j].id) { assert (a + b)[j] == a[j]; }
      forall j | 0 <= j < |b| && b[j].Runs? ensures Has(p, b[j].name, b[j].id) { assert (a + b)[|a| + j] == b[j]; }
    }
  }

  lemma AllHaveOfLaunch(q: Producer, p: Producer, l: Launch)
    ensures AllHave(q, Meant(p, l)) <==> (l.kernelOk ==> Has(q, l.name, Define(p, l.name, l.defOk).1))
  {
    if l.kernelOk {
      assert Meant(p, l)[|Definition(p, l)|] == Runs(l.start, l.end, Define(p, l.name, l.defOk).1, l.name);
    }
  }

  lemma MeantUpTo(ls: seq<Launch>, i: nat)
    requires i < |ls|
    ensures MeantAll(ls[..i + 1]) == MeantAll(ls[..i]) + Meant(SubmitAll(ls[..i]), ls[i])
  {
    assert ls[..i + 1][..i] == ls[..i] && ls[..i + 1][i] == ls[i];
  }

  lemma NextNumbered(ls: seq<Launch>, i: nat)
    requires i < |ls|
    ensures AllHave(SubmitAll(ls), MeantAll(ls[..i + 1])) <==>
            AllHave(SubmitAll(ls), MeantAll(ls[..i])) && !MisnamedForGood(ls, i)
  {
    MeantUpTo(ls, i);
    AllHaveAppend(SubmitAll(ls), MeantAll(ls[..i]), Meant(SubmitAll(ls[..i]), ls[i]));
    AllHaveOfLaunch(SubmitAll(ls), SubmitAll(ls[..i]), ls[i]);
    if ls[i].kernelOk { LaunchNumbered(ls, i); }
  }

  lemma {:induction false} NoneForGood(ls: seq<Launch>, n: nat)
    requires n <= |ls| && !SomeMisnamedForGood(ls)
    ensures AllHave(SubmitAll(ls), MeantAll(ls[..n]))
  {
    if n > 0 {
      NoneForGood(ls, n - 1);
      NextNumbered(ls, n - 1);
    }
  }

  lemma OneForGood(ls: seq<Launch>, i: nat)
    requires i < |ls| && MisnamedForGood(ls, i)
    ensures !AllHave(SubmitAll(ls), MeantAll(ls))
  {
    NextNumbered(ls, i);
    MeantPrefix(ls, i + 1);
    AllHavePrefix(SubmitAll(ls), MeantAll(ls[..i + 1]), MeantAll(ls));
  }

  lemma AllHavePrefix(p: Producer, a: seq<Meaning>, b: seq<Meaning>)
    requires a <= b
    ensures AllHave(p, b) ==> AllHave(p, a)
  {
  }

  /** A table that holds exactly the definitions names right what has its number. */
  lemma KnownIsRight(functions: map<nat, Name>, p: Producer, ms: seq<Meaning>)
    requires Numbering(p, ms) && Knows(functions, ms)
    ensures AllRight(functions, ms) <==> AllHave(p, ms)
  {
    forall id, name ensures Lookup(functions, id) == Some(name) <==> Has(p, name, id) {
      KnownIsNumbered(functions, p, ms, id, name);
    }
  }

  lemma KnownIsNumbered(functions: map<nat, Name>, p: Producer, ms: seq<Meaning>, id: nat, name: Name)
    requires Numbering(p, ms) && Knows(functions, ms)
    ensures Lookup(functions, id) == Some(name) <==> Has(p, name, id)
  {
    assert id in functions && functions[id] == name <==> Defines(id, name) in ms;
  }

  /** What the trace shows once the monitor has handled these events, read with its table. */
  function Shown(differs: Comparison, pid: int, es: seq<Ev>): seq<Span> {
    ReadBack(LearnAll(es), WatchAll(differs, pid, es).trace)
  }

  lemma ShownAsHeard(differs: Comparison, pid: int, es: seq<Ev>, ms: seq<Meaning>)
    requires !differs(Process(pid), Process(pid)) && SmallNumbers(ms) && es == EncodeAll(ms)
    ensures Shown(differs, pid, es) == Told(ms) <==> AllRight(LearnAll(es), ms)
  {
    StreamReadsBack(differs, pid, LearnAll(es), ms);
    HeardAsTold(LearnAll(es), ms);
  }

  /** The trace, read with the table the monitor has in the end, shows exactly the launches
      whose kernel event found room, in order and under their own names - if and only if none
      was misnamed for good. */
  lemma NamedInTheEndExactlyWhen(differs: Comparison, pid: int, ls: seq<Launch>)
    requires !differs(Process(pid), Process(pid)) && ProperNames(ls)
    ensures Shown(differs, pid, SubmitAll(ls).out) == Granted(ls) <==> !SomeMisnamedForGood(ls)
  {
    var ms, es := MeantAll(ls), SubmitAll(ls).out;
    EveryRunNumbers(ls);
    LearnsAll(ls);
    ShownAsHeard(differs, pid, es, ms);
    ToldIsGranted(ls);
    KnownIsRight(LearnAll(es), SubmitAll(ls), ms);
    NumberedExactlyWhen(ls);
  }

  lemma NamedWhenDrained(differs: Comparison, pid: int, ls: seq<Launch>, popped: seq<Ev>)
    requires !differs(Process(pid), Process(pid)) && ProperNames(ls) && popped <= SubmitAll(ls).out
    ensures |popped| == |SubmitAll(ls).out| ==> (Shown(differs, pid, popped) == Granted(ls) <==> !SomeMisnamedForGood(ls))
  {
    if |popped| == |SubmitAll(ls).out| {
      assert popped == SubmitAll(ls).out;
      NamedInTheEndExactlyWhen(differs, pid, ls);
    }
  }

  lemma LearnsAll(ls: seq<Launch>)
    requires ProperNames(ls)
    ensures Knows(LearnAll(SubmitAll(ls).out), MeantAll(ls))
  {
    EveryRunNumbers(ls);
    var ms, es := MeantAll(ls), SubmitAll(ls).out;
    assert ms[..|ms|] == ms && es[..|ms|] == es;
    LearnsDefinitions(SubmitAll(ls), ms, |ms|);
  }

  lemma NumberedExactlyWhen(ls: seq<Launch>)
    ensures AllHave(SubmitAll(ls), MeantAll(ls)) <==> !SomeMisnamedForGood(ls)
  {
    assert ls[..|ls|] == ls;
    if SomeMisnamedForGood(ls) {
      var i :| 0 <= i < |ls| && MisnamedForGood(ls, i);
      OneForGood(ls, i);
    } else {
      NoneForGood(ls, |ls|);
    }
  }

  /** At any time before, with none misnamed at all, the events seen so far show the launches
      so far. */
  lemma NamedOnTheWay(differs: Comparison, pid: int, ls: seq<Launch>, popped: seq<Ev>)
    requires !differs(Process(pid), Process(pid)) && ProperNames(ls) && popped <= SubmitAll(ls).out
    ensures !SomeMisnamed(ls) ==> Shown(differs, pid, popped) <= Granted(ls)
  {
    if !SomeMisnamed(ls) {
      var ms, k := MeantAll(ls), |popped|;
      EveryRunNumbers(ls);
      EveryRunDefinesBefore(ls);
      LearnsDefinitions(SubmitAll(ls), ms, k);
      assert popped == EncodeAll(ms)[..k] == EncodeAll(ms[..k]);
      AllRightOnTheWay(LearnAll(popped), ms, k);
      ShownAsHeard(differs, pid, popped, ms[..k]);
      ToldPrefix(ms, k);
      ToldIsGranted(ls);
    }
  }

  lemma AllRightOnTheWay(functions: map<nat, Name>, ms: seq<Meaning>, k: nat)
    requires k <= |ms| && DefinedBefore(ms) && Knows(functions, ms[..k])
    ensures AllRight(functions, ms[..k])
  {
    forall j | 0 <= j < k && ms[j].Runs? ensures Lookup(functions, ms[j].id) == Some(ms[j].name) {
      assert ms[..j] <= ms[..k];
      assert Defines(ms[j].id, ms[j].name) in ms[..k];
    }
  }
}
