/** The GPU writer and the GPU monitor joined by the ring buffer: kernel_def() and kernel()
    (include/lo2s/gpu/ringbuf.hpp) as programs over the steps of the ring buffer, which answers
    their reservations, with the steps of the reader in between at will. */
module GpuRing {
  import opened Bytes
  import opened CallingContexts
  import opened CctxTrace
  import opened Options
  import opened GpuKernels
  import opened GpuNames
  import Rb = ShmRingbuf

  // ---- Filling an event ---------------------------------------------------------------

  /** One byte to be stored in a reserved event. */
  datatype Write = Write(at: nat, b: byte)

  /** The single stores a memcpy into a reserved event consists of. */
  function Writes(at: nat, bs: seq<byte>): (ws: seq<Write>)
    ensures |ws| == |bs|
  {
    seq(|bs|, i requires 0 <= i < |bs| => Write(at + i, bs[i]))
  }

  /** The event once the stores were made. */
  function Filled(e: Ev, ws: seq<Write>): (r: Ev)
    ensures |r| == |e|
  {
    if ws == [] then e
    else
      var r := Filled(e, ws[..|ws| - 1]);
      var w := ws[|ws| - 1];
      if w.at < |r| then r[w.at := w.b] else r
  }

  lemma {:induction false} FilledAppend(e: Ev, a: seq<Write>, b: seq<Write>)
    ensures Filled(e, a + b) == Filled(Filled(e, a), b)
    decreases |b|
  {
    if b == [] {
      assert a + b == a;
    } else {
      assert (a + b)[..|a + b| - 1] == a + b[..|b| - 1];
      FilledAppend(e, a, b[..|b| - 1]);
    }
  }

  /** Storing bytes one by one copies them. */
  lemma {:induction false} CopyIsStores(e: Ev, at: nat, bs: seq<byte>)
    requires at + |bs| <= |e|
    ensures Filled(e, Writes(at, bs)) == Copy(e, at, bs)
    decreases |bs|
  {
    if bs == [] {
      assert Copy(e, at, bs) == e;
    } else {
      var n := |bs| - 1;
      assert Writes(at, bs)[..n] == Writes(at, bs[..n]);
      CopyIsStores(e, at, bs[..n]);
      assert Copy(e, at, bs[..n])[at + n := bs[n]] == Copy(e, at, bs);
    }
  }

  /** The stores of kernel_def(). */
  function DefWrites(name: Name, id: nat): seq<Write> {
    Writes(24, name) + Writes(8, ToBytes(KERNEL_DEF, 8)) + Writes(16, ToBytes(id, 8))
  }

  /** The stores of kernel(). */
  function KernelWrites(start: u64, end: u64, id: nat): seq<Write> {
    Writes(8, ToBytes(KERNEL, 8)) + Writes(16, ToBytes(start, 8)) + Writes(24, ToBytes(end, 8)) + Writes(32, ToBytes(id, 8))
  }

  lemma DefWritten(name: Name, id: nat)
    ensures Filled(Rb.Blank(25 + |name|, 8), DefWrites(name, id)) == EncodeDef(id, name)
  {
    var e := Rb.Blank(25 + |name|, 8);
    var a, b, c := Writes(24, name), Writes(8, ToBytes(KERNEL_DEF, 8)), Writes(16, ToBytes(id, 8));
    FilledAppend(e, a + b, c);
    FilledAppend(e, a, b);
    CopyIsStores(e, 24, name);
    CopyIsStores(Filled(e, a), 8, ToBytes(KERNEL_DEF, 8));
    CopyIsStores(Filled(e, a + b), 16, ToBytes(id, 8));
    DefFilled(id, name);
  }

  lemma KernelWritten(start: u64, end: u64, id: nat)
    ensures Filled(Rb.Blank(40, 8), KernelWrites(start, end, id)) == EncodeKernel(start, end, id)
  {
    var e := Rb.Blank(40, 8);
    var a, b := Writes(8, ToBytes(KERNEL, 8)), Writes(16, ToBytes(start, 8));
    var c, d := Writes(24, ToBytes(end, 8)), Writes(32, ToBytes(id, 8));
    FilledAppend(e, a + b + c, d);
    FilledAppend(e, a + b, c);
    FilledAppend(e, a, b);
    CopyIsStores(e, 8, ToBytes(KERNEL, 8));
    CopyIsStores(Filled(e, a), 16, ToBytes(start, 8));
    CopyIsStores(Filled(e, a + b), 24, ToBytes(end, 8));
    CopyIsStores(Filled(e, a + b + c), 32, ToBytes(id, 8));
    KernelFilled(start, end, id);
  }

  // ---- The program --------------------------------------------------------------------

  /** A kernel as the CUDA activity buffer reports it. */
  datatype Call = Call(name: Name, start: u64, end: u64)

  /** Where the GPU writer is: outside of any call, in kernel_def() or in kernel(), there with
      the number to be written. k stores were made to the event in the works. */
  datatype Stage =
    | Outside
    | Defining(c: Call, k: nat)
    | Running(c: Call, k: nat, id: nat, defOk: bool)

  /** The ring buffer with its two processes, the fields of the GPU writer, and the history:
      the launches so far, with what the ring buffer answered to each reservation. */
  datatype System = System(s: Rb.State, cctxs: map<Name, nat>, next: nat, stage: Stage, launches: seq<Launch>)

  datatype Step = Report(c: Call) | Ring(a: Rb.Action)

  /** sizeof the event plus payload. */
  function Size(stage: Stage): (n: nat) {
    if stage.Defining? then 25 + |stage.c.name| else 40
  }

  function Program(x: System): seq<Write> {
    match x.stage
    case Outside => []
    case Defining(c, _) => DefWrites(c.name, x.next)
    case Running(c, _, id, _) => KernelWrites(c.start, c.end, id)
  }

  /** Whether the step is the reader's, or what the program of the writer does next. */
  predicate Prescribed(x: System, a: Rb.Action) {
    match a
    case LoadHead(n) => !x.stage.Outside? && n == Size(x.stage)
    case LoadTail => !x.stage.Outside?
    case Decide => !x.stage.Outside?
    case Clear => !x.stage.Outside?
    case WriteSize => !x.stage.Outside?
    case Store(i, b) => !x.stage.Outside? && x.stage.k < |Program(x)| && Program(x)[x.stage.k] == Write(i, b)
    case CommitLoad => !x.stage.Outside? && x.stage.k == |Program(x)|
    case CommitStore => !x.stage.Outside?
    case _ => true
  }

  predicate CanStep(x: System, st: Step)
    requires Rb.Shaped(x.s.g)
  {
    match st
    case Report(c) => x.stage.Outside? && Rb.Wanted(25 + |c.name|)
    case Ring(a) => Rb.Enabled(x.s, a) && !Rb.FillsExactly(x.s, a) && Prescribed(x, a)
  }

  function Finish(x: System, c: Call, defOk: bool, kernelOk: bool): System {
    x.(stage := Outside, launches := x.launches + [Launch(c.name, c.start, c.end, defOk, kernelOk)])
  }

  /** reserve() returned a null pointer. */
  function Refused(x: System): System {
    match x.stage
    case Outside => x
    case Defining(c, _) => x.(stage := Running(c, 0, 0, false))
    case Running(c, _, _, defOk) => Finish(x, c, defOk, false)
  }

  /** commit() is done. */
  function Committed(x: System): System {
    match x.stage
    case Outside => x
    case Defining(c, _) => x.(cctxs := x.cctxs[c.name := x.next], next := x.next + 1, stage := Running(c, 0, x.next, true))
    case Running(c, _, _, defOk) => Finish(x, c, defOk, true)
  }

  function Stored(x: System): System {
    match x.stage
    case Outside => x
    case Defining(c, k) => x.(stage := Defining(c, k + 1))
    case Running(c, k, id, defOk) => x.(stage := Running(c, k + 1, id, defOk))
  }

  function Next(x: System, st: Step): (x': System)
    requires Rb.Shaped(x.s.g) && CanStep(x, st)
    ensures Rb.Shaped(x'.s.g)
  {
    match st
    case Report(c) =>
      x.(stage := if c.name in x.cctxs then Running(c, 0, x.cctxs[c.name], true) else Defining(c, 0))
    case Ring(a) =>
      var x1 := x.(s := Rb.Apply(x.s, a));
      match a
      case Decide => if x1.s.w.WIdle? then Refused(x1) else x1
      case Store(_, _) => Stored(x1)
      case CommitStore => Committed(x1)
      case _ => x1
  }

  predicate CanRun(x: System, steps: seq<Step>)
    requires Rb.Shaped(x.s.g)
    decreases |steps|
  {
    steps == [] || (CanStep(x, steps[0]) && CanRun(Next(x, steps[0]), steps[1..]))
  }

  function Run(x: System, steps: seq<Step>): (x': System)
    requires Rb.Shaped(x.s.g) && CanRun(x, steps)
    ensures Rb.Shaped(x'.s.g)
    decreases |steps|
  {
    if steps == [] then x else Run(Next(x, steps[0]), steps[1..])
  }

  predicate Init(x: System) {
    Rb.Init(x.s) && x.cctxs == map[] && x.next == 0 && x.stage == Outside && x.launches == []
  }

  // ---- What every run keeps -----------------------------------------------------------

  /** The producer of the reference: the fields of the writer and what is in the ring. */
  function View(x: System): Producer {
    Producer(x.cctxs, x.next, x.s.g.committed)
  }

  /** The event in the works holds the stores made so far. */
  ghost predicate Midway(x: System)
    requires !x.stage.Outside?
  {
    Partly(x.s.w, Size(x.stage), x.stage.k, Program(x))
  }

  /** k of the stores were made to an event of n bytes. */
  ghost predicate Partly(w: Rb.Writer, n: nat, k: nat, ws: seq<Write>) {
    && 8 <= n && k <= |ws|
    && (w.WIdle? || w.n == n)
    && if w.WFilling? then w.ev == Filled(Rb.Blank(n, 8), ws[..k])
       else if w.WCommitting? then w.ev == Filled(Rb.Blank(n, 8), ws)
       else k == 0
  }

  lemma PartlyStored(w: Rb.Writer, n: nat, k: nat, ws: seq<Write>)
    requires Partly(w, n, k, ws) && w.WFilling? && k < |ws| && ws[k].at < n
    ensures Partly(Rb.WFilling(n, w.h, w.seen, w.ev[ws[k].at := ws[k].b]), n, k + 1, ws)
  {
    FilledNext(Rb.Blank(n, 8), ws, k);
  }

  lemma PartlyDone(w: Rb.Writer, n: nat, ws: seq<Write>, h: nat)
    requires Partly(w, n, |ws|, ws) && w.WFilling?
    ensures Partly(Rb.WCommitting(n, h, w.seen, w.ev), n, |ws|, ws)
  {
    assert ws[..|ws|] == ws;
  }

  /** The ring buffer and the writer agree with the reference producer, run on the launches
      with the answers the ring buffer gave. */
  ghost predicate Tracks(x: System) {
    var p := SubmitAll(x.launches);
    match x.stage
    case Outside => View(x) == p && x.s.w.WIdle?
    case Defining(c, _) => View(x) == p && c.name !in x.cctxs && Rb.Wanted(25 + |c.name|) && Midway(x)
    case Running(c, _, id, defOk) => (View(x), id) == Define(p, c.name, defOk) && Midway(x)
  }

  lemma SubmitOneMore(ls: seq<Launch>, l: Launch)
    ensures SubmitAll(ls + [l]) == Submit(SubmitAll(ls), l)
  {
    assert (ls + [l])[..|ls|] == ls;
  }

  lemma ReportTracks(x: System, c: Call)
    requires Rb.Shaped(x.s.g) && Tracks(x) && CanStep(x, Report(c))
    ensures Tracks(Next(x, Report(c)))
  {
  }

  lemma DecideTracks(x: System)
    requires Rb.Shaped(x.s.g) && Tracks(x) && CanStep(x, Ring(Rb.Decide))
    ensures Tracks(Next(x, Ring(Rb.Decide)))
  {
    if x.stage.Running? {
      SubmitOneMore(x.launches, Launch(x.stage.c.name, x.stage.c.start, x.stage.c.end, x.stage.defOk, false));
    }
  }

  /** The writer with its event committed, by what the ring then holds. */
  ghost predicate HoldsCommitted(x: System, s: Rb.State) {
    x.s.w.WCommitting? && s.w.WIdle? && s.g.committed == x.s.g.committed + [x.s.w.ev]
  }

  lemma DefinitionCommitted(x: System, s: Rb.State)
    requires Tracks(x) && x.stage.Defining? && HoldsCommitted(x, s)
    ensures Tracks(Committed(x.(s := s)))
  {
    DefWritten(x.stage.c.name, x.next);
    DefinitionHeld(x, s);
  }

  lemma DefinitionHeld(x: System, s: Rb.State)
    requires Tracks(x) && x.stage.Defining? && s.w.WIdle?
    requires s.g.committed == x.s.g.committed + [EncodeDef(x.next, x.stage.c.name)]
    ensures Tracks(Committed(x.(s := s)))
  {
    var p := SubmitAll(x.launches);
    DefinitionMoves(x, s, p);
    RunningTracks(Committed(x.(s := s)), p);
  }

  lemma DefinitionMoves(x: System, s: Rb.State, p: Producer)
    requires x.stage.Defining? && View(x) == p && x.stage.c.name !in p.cctxs
    requires s.g.committed == p.out + [EncodeDef(p.next, x.stage.c.name)]
    ensures var y := Committed(x.(s := s));
            && y.stage.Running? && y.stage.k == 0 && y.stage.c == x.stage.c && y.stage.defOk
            && y.launches == x.launches && y.s == s
            && (View(y), y.stage.id) == Define(p, x.stage.c.name, true)
  {
    DefineNew(p, x.stage.c.name);
  }

  lemma DefineNew(p: Producer, name: Name)
    requires name !in p.cctxs
    ensures Define(p, name, true)
         == (Producer(p.cctxs[name := p.next], p.next + 1, p.out + [EncodeDef(p.next, name)]), p.next)
  {
  }

  lemma RunningTracks(x: System, p: Producer)
    requires x.stage.Running? && x.stage.k == 0 && x.s.w.WIdle? && p == SubmitAll(x.launches)
    requires (View(x), x.stage.id) == Define(p, x.stage.c.name, x.stage.defOk)
    ensures Tracks(x)
  {
    IdleIsMidway(x);
  }

  lemma IdleIsMidway(x: System)
    requires !x.stage.Outside? && x.stage.k == 0 && x.s.w.WIdle?
    ensures Midway(x)
  {
  }

  lemma KernelCommitted(x: System, s: Rb.State)
    requires Tracks(x) && x.stage.Running? && HoldsCommitted(x, s)
    ensures Tracks(Committed(x.(s := s)))
  {
    var Running(c, _, id, defOk) := x.stage;
    KernelWritten(c.start, c.end, id);
    SubmitOneMore(x.launches, Launch(c.name, c.start, c.end, defOk, true));
  }

  lemma CommitTracks(x: System)
    requires Rb.Shaped(x.s.g) && Tracks(x) && CanStep(x, Ring(Rb.CommitStore))
    ensures Tracks(Next(x, Ring(Rb.CommitStore)))
  {
    var s := Rb.Apply(x.s, Rb.CommitStore);
    if x.stage.Defining? { DefinitionCommitted(x, s); } else { KernelCommitted(x, s); }
  }

  lemma FilledNext(e: Ev, ws: seq<Write>, k: nat)
    requires k < |ws| && ws[k].at < |e|
    ensures Filled(e, ws[..k + 1]) == Filled(e, ws[..k])[ws[k].at := ws[k].b]
  {
    assert ws[..k + 1][..k] == ws[..k];
  }

  lemma StoreTracks(x: System, i: nat, b: byte)
    requires Rb.Shaped(x.s.g) && Tracks(x) && CanStep(x, Ring(Rb.Store(i, b)))
    ensures Tracks(Next(x, Ring(Rb.Store(i, b))))
  {
    PartlyStored(x.s.w, Size(x.stage), x.stage.k, Program(x));
    SameProgram(x, Rb.Store(i, b));
  }

  /** A store changes how far the program is, and not what it is. */
  lemma SameProgram(x: System, a: Rb.Action)
    requires Rb.Shaped(x.s.g) && CanStep(x, Ring(a)) && (a.Store? || a.CommitLoad?) && !x.stage.Outside?
    ensures var x' := Next(x, Ring(a));
            && x' == x.(s := Rb.Apply(x.s, a), stage := x.stage.(k := if a.Store? then x.stage.k + 1 else x.stage.k))
            && Program(x') == Program(x) && Size(x'.stage) == Size(x.stage)
  {
  }

  lemma CommitLoadTracks(x: System)
    requires Rb.Shaped(x.s.g) && Tracks(x) && CanStep(x, Ring(Rb.CommitLoad))
    ensures Tracks(Next(x, Ring(Rb.CommitLoad)))
  {
    PartlyDone(x.s.w, Size(x.stage), Program(x), x.s.g.head);
    SameProgram(x, Rb.CommitLoad);
  }

  lemma WriteSizeTracks(x: System)
    requires Rb.Shaped(x.s.g) && Tracks(x) && CanStep(x, Ring(Rb.WriteSize))
    ensures Tracks(Next(x, Ring(Rb.WriteSize)))
  {
    assert Program(x)[..0] == [];
  }

  lemma ReserveTracks(x: System, a: Rb.Action)
    requires Rb.Shaped(x.s.g) && Tracks(x) && CanStep(x, Ring(a)) && (a.LoadHead? || a.LoadTail? || a.Clear?)
    ensures Tracks(Next(x, Ring(a)))
  {
  }

  predicate Reads(a: Rb.Action) {
    !(a.LoadHead? || a.LoadTail? || a.Decide? || a.Clear? || a.WriteSize? || a.Store? || a.CommitLoad? || a.CommitStore?)
  }

  /** Whatever the reader does, it changes nothing the writer goes by. */
  lemma ReaderChangesNothing(s: Rb.State, a: Rb.Action)
    requires Rb.Shaped(s.g) && Rb.Enabled(s, a) && Reads(a)
    ensures Rb.Apply(s, a).w == s.w && Rb.Apply(s, a).g.committed == s.g.committed
  {
  }

  lemma ReadTracks(x: System, a: Rb.Action)
    requires Rb.Shaped(x.s.g) && Tracks(x) && CanStep(x, Ring(a)) && Reads(a)
    ensures Tracks(Next(x, Ring(a)))
  {
    ReaderChangesNothing(x.s, a);
    assert Next(x, Ring(a)) == x.(s := Rb.Apply(x.s, a));
  }

  lemma ProgramTracks(x: System, a: Rb.Action)
    requires Rb.Shaped(x.s.g) && Tracks(x) && CanStep(x, Ring(a)) && !Reads(a)
    ensures Tracks(Next(x, Ring(a)))
  {
    match a
    case Decide => DecideTracks(x);
    case WriteSize => WriteSizeTracks(x);
    case Store(i, b) => StoreTracks(x, i, b);
    case CommitLoad => CommitLoadTracks(x);
    case CommitStore => CommitTracks(x);
    case _ => ReserveTracks(x, a);
  }

  /** Every step keeps the ring buffer's invariant and the agreement with the reference. */
  lemma StepTracks(x: System, st: Step)
    requires Rb.Inv(x.s) && Tracks(x) && CanStep(x, st)
    ensures Rb.Inv(Next(x, st).s) && Tracks(Next(x, st))
  {
    match st
    case Report(c) => ReportTracks(x, c);
    case Ring(a) =>
      if Reads(a) { ReadTracks(x, a); } else { ProgramTracks(x, a); }
      Rb.StepKeepsInv(x.s, a);
      SameRing(x, a);
  }

  lemma SameRing(x: System, a: Rb.Action)
    requires Rb.Shaped(x.s.g) && CanStep(x, Ring(a))
    ensures Next(x, Ring(a)).s == Rb.Apply(x.s, a)
  {
  }

  lemma {:induction false} RunTracks(x: System, steps: seq<Step>)
    requires Rb.Inv(x.s) && Tracks(x) && CanRun(x, steps)
    ensures Rb.Inv(Run(x, steps).s) && Tracks(Run(x, steps))
    decreases |steps|
  {
    if steps != [] {
      StepTracks(x, steps[0]);
      RunTracks(Next(x, steps[0]), steps[1..]);
    }
  }

  lemma InitTracks(x: System)
    requires Init(x)
    ensures Rb.Inv(x.s) && Tracks(x)
  {
  }

  // ---- End to end ---------------------------------------------------------------------

  /** The launches so far, with the one whose kernel is still to be written. */
  function LaunchesOf(x: System): seq<Launch> {
    x.launches +
    match x.stage
    case Running(c, _, _, defOk) => [Launch(c.name, c.start, c.end, defOk, false)]
    case _ => []
  }

  /** In every run what is in the ring is what the reference producer puts out, given the
      answers the ring buffer gave; and what was read is the beginning of it. */
  lemma CommittedIsSubmitted(x: System, steps: seq<Step>)
    requires Init(x) && CanRun(x, steps)
    ensures var y := Run(x, steps);
            Rb.Inv(y.s) && y.s.g.popped <= y.s.g.committed == SubmitAll(LaunchesOf(y)).out
  {
    InitTracks(x);
    RunTracks(x, steps);
    var y := Run(x, steps);
    match y.stage
    case Running(c, _, _, defOk) => SubmitOneMore(y.launches, Launch(c.name, c.start, c.end, defOk, false));
    case _ => assert LaunchesOf(y) == y.launches;
  }

  /** From the launch to the trace, in every interleaving. Whenever the reader finds the ring
      empty, the trace shows exactly the kernels that found room, in order and under their own
      names - if and only if none was misnamed for good. Before that it shows the first of
      them, as long as none was misnamed. */
  lemma NamesAcrossTheRing(differs: Comparison, pid: int, x: System, steps: seq<Step>)
    requires Init(x) && CanRun(x, steps) && !differs(Process(pid), Process(pid))
    requires ProperNames(LaunchesOf(Run(x, steps)))
    ensures var y := Run(x, steps);
            var g, ls := y.s.g, LaunchesOf(y);
            && (!SomeMisnamed(ls) ==> Shown(differs, pid, g.popped) <= Granted(ls))
            && (!Rb.Loadable(g.head, g.tail, g.size, Rb.HEADER_SIZE) ==>
                  (Shown(differs, pid, g.popped) == Granted(ls) <==> !SomeMisnamedForGood(ls)))
  {
    CommittedIsSubmitted(x, steps);
    var y := Run(x, steps);
    Rb.SeesEmptyExactlyWhenDrained(y.s.g);
    NamedOnTheWay(differs, pid, LaunchesOf(y), y.s.g.popped);
    NamedWhenDrained(differs, pid, LaunchesOf(y), y.s.g.popped);
  }

  lemma PoppedGrows(x: System, st: Step)
    requires Rb.Shaped(x.s.g) && CanStep(x, st)
    ensures x.s.g.popped <= Next(x, st).s.g.popped
  {
    if st.Ring? { SameRing(x, st.a); }
  }

  /** The whole system at work: all steps are taken and the monitor drains what was popped. */
  method Proceed(differs: Comparison, pid: int, x: System, steps: seq<Step>) returns (y: System, monitor: GPUMonitor)
    requires Rb.Shaped(x.s.g) && x.s.g.popped == [] && CanRun(x, steps) && !differs(Process(pid), Process(pid))
    ensures y == Run(x, steps)
    ensures fresh(monitor) && monitor.Valid() && monitor.seen == y.s.g.popped
    ensures monitor.process == pid && monitor.tree.differs == differs
  {
    y := x;
    monitor := new GPUMonitor(pid, differs);
    for i := 0 to |steps|
      invariant Rb.Shaped(y.s.g) && CanRun(y, steps[i..]) && Run(y, steps[i..]) == Run(x, steps)
      invariant fresh(monitor) && fresh(monitor.tree) && monitor.Valid() && monitor.seen == y.s.g.popped
      invariant monitor.process == pid && monitor.tree.differs == differs
    {
      assert steps[i..][1..] == steps[i + 1..];
      PoppedGrows(y, steps[i]);
      var y' := Next(y, steps[i]);
      monitor.Drain(y'.s.g.popped[|y.s.g.popped|..]);
      y := y';
    }
  }

  /** And what the monitor's table and stream then show of the launches. */
  method Operate(differs: Comparison, pid: int, x: System, steps: seq<Step>) returns (y: System, monitor: GPUMonitor)
    requires Init(x) && CanRun(x, steps) && !differs(Process(pid), Process(pid))
    ensures y == Run(x, steps)
    ensures fresh(monitor) && monitor.Valid() && monitor.seen == y.s.g.popped
    ensures var g, ls := y.s.g, LaunchesOf(y);
            ProperNames(ls) && !Rb.Loadable(g.head, g.tail, g.size, Rb.HEADER_SIZE) ==>
              (ReadBack(monitor.functions, monitor.tree.spec.trace) == Granted(ls) <==> !SomeMisnamedForGood(ls))
  {
    y, monitor := Proceed(differs, pid, x, steps);
    if ProperNames(LaunchesOf(y)) {
      NamesAcrossTheRing(differs, pid, x, steps);
    }
  }

  // ---- A run that misnames a kernel ---------------------------------------------------

  ghost predicate Reaches(x: System, y: System)
    requires Rb.Shaped(x.s.g)
  {
    exists steps :: CanRun(x, steps) && Run(x, steps) == y
  }

  lemma {:induction false} RunAppend(x: System, a: seq<Step>, b: seq<Step>)
    requires Rb.Shaped(x.s.g) && CanRun(x, a) && CanRun(Run(x, a), b)
    ensures CanRun(x, a + b) && Run(x, a + b) == Run(Run(x, a), b)
    decreases |a|
  {
    if a == [] {
      assert a + b == b;
    } else {
      assert (a + b)[0] == a[0] && (a + b)[1..] == a[1..] + b;
      RunAppend(Next(x, a[0]), a[1..], b);
    }
  }

  lemma ReachesTrans(x: System, y: System, z: System)
    requires Rb.Shaped(x.s.g) && Rb.Shaped(y.s.g) && Reaches(x, y) && Reaches(y, z)
    ensures Reaches(x, z)
  {
    var a :| CanRun(x, a) && Run(x, a) == y;
    var b :| CanRun(y, b) && Run(y, b) == z;
    RunAppend(x, a, b);
  }

  lemma ReachesSelf(x: System)
    requires Rb.Shaped(x.s.g)
    ensures Reaches(x, x)
  {
    assert CanRun(x, []) && Run(x, []) == x;
  }

  lemma RunOne(y: System, st: Step)
    requires Rb.Shaped(y.s.g) && CanStep(y, st)
    ensures CanRun(y, [st]) && Run(y, [st]) == Next(y, st)
  {
    var z := Next(y, st);
    assert CanRun(z, []) && Run(z, []) == z;
    assert [st][0] == st && [st][1..] == [];
    assert Run(y, [st]) == Run(z, [st][1..]);
  }

  lemma ReachesNext(x: System, y: System, st: Step)
    requires Rb.Shaped(x.s.g) && Rb.Shaped(y.s.g) && Reaches(x, y) && CanStep(y, st)
    ensures Reaches(x, Next(y, st))
  {
    RunOne(y, st);
    ReachesTrans(x, y, Next(y, st));
  }

  lemma ReachesTracks(x: System, y: System)
    requires Rb.Inv(x.s) && Tracks(x) && Reaches(x, y)
    ensures Rb.Inv(y.s) && Tracks(y)
  {
    var steps :| CanRun(x, steps) && Run(x, steps) == y;
    RunTracks(x, steps);
  }

  /** Steps of the ring buffer that the program of the writer takes no notice of. */
  ghost predicate Unnoticed(acts: seq<Rb.Action>) {
    forall i :: 0 <= i < |acts| ==> acts[i].Clear? || acts[i].WriteSize?
  }

  lemma {:induction false} Lift(x: System, acts: seq<Rb.Action>)
    requires Rb.Shaped(x.s.g) && !x.stage.Outside? && Rb.ValidRun(x.s, acts) && Unnoticed(acts)
    ensures Reaches(x, x.(s := Rb.Run(x.s, acts)))
    decreases |acts|
  {
    ReachesSelf(x);
    if acts != [] {
      var x1 := Next(x, Ring(acts[0]));
      ReachesNext(x, x, Ring(acts[0]));
      Lift(x1, acts[1..]);
      ReachesTrans(x, x1, x.(s := Rb.Run(x.s, acts)));
    }
  }

  lemma {:induction false} UnnoticedRepeat(a: Rb.Action, k: nat)
    requires a.Clear? || a.WriteSize?
    ensures Unnoticed(Rb.Repeat(a, k))
  {
    if k > 0 { UnnoticedRepeat(a, k - 1); }
  }

  /** The stores of a program all go behind the size field of the event. */
  ghost predicate Inside(ws: seq<Write>, n: nat) {
    forall i :: 0 <= i < |ws| ==> 8 <= ws[i].at < n
  }

  lemma ProgramInside(x: System)
    ensures Inside(Program(x), Size(x.stage))
  {
  }

  lemma {:induction false} FillAlone(x: System) returns (y: System)
    requires Rb.Shaped(x.s.g) && !x.stage.Outside? && x.s.w.WFilling? && x.s.w.n == Size(x.stage) == |x.s.w.ev|
    requires x.stage.k <= |Program(x)|
    ensures Rb.Shaped(y.s.g) && Reaches(x, y) && Rb.OnlyBytes(x.s, y.s) && y.s.w.WFilling?
    ensures y.s.w.n == x.s.w.n && !y.stage.Outside? && y.stage.k == |Program(x)|
    ensures y == x.(s := y.s, stage := y.stage) && y.stage == x.stage.(k := y.stage.k)
    decreases |Program(x)| - x.stage.k
  {
    ReachesSelf(x);
    if x.stage.k == |Program(x)| {
      y := x;
    } else {
      ProgramInside(x);
      var w := Program(x)[x.stage.k];
      var st := Ring(Rb.Store(w.at, w.b));
      ReachesNext(x, x, st);
      y := FillAlone(Next(x, st));
      ReachesTrans(x, Next(x, st), y);
    }
  }

  lemma AskAlone(x: System) returns (y: System)
    requires Rb.Shaped(x.s.g) && !x.stage.Outside? && x.s.w.WIdle? && Rb.Wanted(Size(x.stage))
    ensures Rb.Shaped(y.s.g) && Reaches(x, y)
    ensures var g, n := x.s.g, Size(x.stage);
            y == if Rb.Fits(g.head, g.tail, g.size, n)
                 then x.(s := x.s.(w := Rb.WClearing(n, g.head, Rb.Total(g.popped), 0)))
                 else Refused(x)
  {
    ReachesSelf(x);
    var x1 := Next(x, Ring(Rb.LoadHead(Size(x.stage))));
    ReachesNext(x, x, Ring(Rb.LoadHead(Size(x.stage))));
    var x2 := Next(x1, Ring(Rb.LoadTail));
    ReachesNext(x, x1, Ring(Rb.LoadTail));
    y := Next(x2, Ring(Rb.Decide));
    ReachesNext(x, x2, Ring(Rb.Decide));
  }

  lemma PrepareAlone(x: System) returns (y: System)
    requires Rb.Shaped(x.s.g) && !x.stage.Outside? && x.s.w.WClearing? && x.s.w.k == 0
    requires 8 <= x.s.w.n <= x.s.g.size && x.s.w.h < x.s.g.size
    ensures Rb.Shaped(y.s.g) && Reaches(x, y) && Rb.OnlyBytes(x.s, y.s) && y == x.(s := y.s)
    ensures y.s.w == Rb.WFilling(x.s.w.n, x.s.w.h, x.s.w.seen, Rb.Blank(x.s.w.n, 8))
  {
    var acts := Rb.Prepare(x.s.w.n);
    Rb.PrepareAlone(x.s);
    UnnoticedRepeat(Rb.Clear, x.s.w.n);
    UnnoticedRepeat(Rb.WriteSize, 9);
    Lift(x, acts);
    y := x.(s := Rb.Run(x.s, acts));
  }

  lemma CommitAlone(x: System) returns (y: System)
    requires Rb.Shaped(x.s.g) && !x.stage.Outside? && x.s.w.WFilling? && x.stage.k == |Program(x)|
    requires x.s.g.tail == 0 && 0 < x.s.w.n && x.s.g.head + Rb.Round8(x.s.w.n) < x.s.g.size
    ensures Rb.Shaped(y.s.g) && Reaches(x, y) && y == Committed(x).(s := y.s) && y.s.w.WIdle?
    ensures y.s.g.head == x.s.g.head + Rb.Round8(x.s.w.n) && y.s.g.tail == 0 && y.s.g.size == x.s.g.size
  {
    Rb.AdvIsRemainder(x.s.g.head, Rb.Round8(x.s.w.n), x.s.g.size);
    ReachesSelf(x);
    var x1 := Next(x, Ring(Rb.CommitLoad));
    ReachesNext(x, x, Ring(Rb.CommitLoad));
    y := Next(x1, Ring(Rb.CommitStore));
    ReachesNext(x, x1, Ring(Rb.CommitStore));
  }

  /** With nothing read meanwhile, a reservation is refused if it does not fit behind the head,
      and otherwise its event is written and committed. */
  lemma ReservationAlone(x: System) returns (y: System)
    requires Rb.Shaped(x.s.g) && !x.stage.Outside? && x.stage.k == 0 && x.s.w.WIdle? && Rb.Wanted(Size(x.stage))
    requires x.s.g.tail == 0 && x.s.g.head + Rb.Round8(Size(x.stage)) != x.s.g.size
    ensures Rb.Shaped(y.s.g) && Reaches(x, y) && y.s.w.WIdle? && y.s.g.tail == 0 && y.s.g.size == x.s.g.size
    ensures var end := x.s.g.head + Rb.Round8(Size(x.stage));
            if end > x.s.g.size then y == Refused(x) else y == Committed(x).(s := y.s) && y.s.g.head == end
  {
    var x1 := AskAlone(x);
    if x.s.g.head + Rb.Round8(Size(x.stage)) > x.s.g.size {
      y := x1;
    } else {
      var x2 := PrepareAlone(x1);
      ReachesTrans(x, x1, x2);
      var x3 := FillAlone(x2);
      ReachesTrans(x, x2, x3);
      y := CommitAlone(x3);
      ReachesTrans(x, x3, y);
    }
  }

  /** Between two launches: nothing was read, and one name is known. */
  ghost predicate Filling(x: System, first: Name) {
    && Rb.Shaped(x.s.g) && x.stage.Outside? && x.s.w.WIdle? && x.s.g.tail == 0
    && x.cctxs == map[first := 0]
  }

  lemma KnownAlone(x: System, c: Call) returns (y: System)
    requires Filling(x, c.name) && |c.name| < 8 && x.s.g.head + 40 < x.s.g.size
    ensures Filling(y, c.name) && Reaches(x, y) && y.s.g.head == x.s.g.head + 40 && y.s.g.size == x.s.g.size
  {
    ReachesSelf(x);
    ReachesNext(x, x, Report(c));
    y := ReservationAlone(Next(x, Report(c)));
    ReachesTrans(x, Next(x, Report(c)), y);
  }

  lemma DefineAlone(x: System, c: Call) returns (y: System)
    requires Init(x) && |c.name| < 8 && 32 < x.s.g.size
    ensures Rb.Shaped(y.s.g) && Reaches(x, y) && y.s.w.WIdle? && y.stage == Running(c, 0, 0, true)
    ensures y.cctxs == map[c.name := 0] && y.s.g.head == 32 && y.s.g.tail == 0 && y.s.g.size == x.s.g.size
  {
    ReachesSelf(x);
    ReachesNext(x, x, Report(c));
    y := ReservationAlone(Next(x, Report(c)));
    ReachesTrans(x, Next(x, Report(c)), y);
  }

  lemma FirstAlone(x: System, c: Call) returns (y: System)
    requires Init(x) && |c.name| < 8 && 72 < x.s.g.size
    ensures Filling(y, c.name) && Reaches(x, y) && y.s.g.head == 72 && y.s.g.size == x.s.g.size
  {
    var x1 := DefineAlone(x, c);
    y := ReservationAlone(x1);
    ReachesTrans(x, x1, y);
  }

  /** Kernels of that name can follow until no more than 80 bytes are left. */
  lemma {:induction false} FillUp(x: System, c: Call) returns (y: System)
    requires Filling(x, c.name) && |c.name| < 8 && x.s.g.head + 40 < x.s.g.size
    ensures Filling(y, c.name) && Reaches(x, y) && y.s.g.size == x.s.g.size
    ensures y.s.g.head + 40 < y.s.g.size <= y.s.g.head + 80
    decreases x.s.g.size - x.s.g.head
  {
    if x.s.g.size <= x.s.g.head + 80 {
      ReachesSelf(x);
      y := x;
    } else {
      var x1 := KnownAlone(x, c);
      y := FillUp(x1, c);
      ReachesTrans(x, x1, y);
    }
  }

  /** Then a definition with a longer name is refused and its kernel granted. */
  lemma RefusedThenGranted(x: System, first: Name, c: Call) returns (y: System)
    requires Filling(x, first) && x.s.g.head + 40 < x.s.g.size <= x.s.g.head + 80
    requires 56 <= |c.name| && Rb.Wanted(25 + |c.name|) && |first| < 8
    ensures Filling(y, first) && Reaches(x, y)
    ensures y.launches == x.launches + [Launch(c.name, c.start, c.end, false, true)]
  {
    ReachesSelf(x);
    var x1 := Next(x, Report(c));
    ReachesNext(x, x, Report(c));
    var x2 := ReservationAlone(x1);
    ReachesTrans(x, x1, x2);
    y := ReservationAlone(x2);
    ReachesTrans(x, x2, y);
  }

  lemma LastIsMisnamedForGood(x: System, y: System, first: Name, c: Call)
    requires Tracks(x) && Tracks(y) && Filling(x, first) && Filling(y, first) && c.name != first
    requires y.launches == x.launches + [Launch(c.name, c.start, c.end, false, true)]
    ensures MisnamedForGood(y.launches, |x.launches|)
  {
    assert y.launches[..|x.launches|] == x.launches;
  }

  /** It does happen: in every buffer of more than 112 bytes there is a run in which a short
      name is known as 0 and a kernel of a longer name is then written under that number. */
  lemma MisnamingIsReachable(x: System, first: Call, c: Call)
    requires Init(x) && 112 < x.s.g.size && |first.name| < 8 && 56 <= |c.name| && Rb.Wanted(25 + |c.name|)
    ensures exists steps :: CanRun(x, steps) && EndsMisnamed(Run(x, steps), first, c)
  {
    var x1 := FirstAlone(x, first);
    var x2 := FillUp(x1, first);
    ReachesTrans(x, x1, x2);
    var y := RefusedThenGranted(x2, first.name, c);
    ReachesTrans(x, x2, y);
    InitTracks(x);
    ReachesTracks(x, x2);
    ReachesTracks(x, y);
    LastIsMisnamedForGood(x2, y, first.name, c);
    var steps :| CanRun(x, steps) && Run(x, steps) == y;
    assert EndsMisnamed(Run(x, steps), first, c);
  }

  /** The last launch was written under the number of another kernel. */
  ghost predicate EndsMisnamed(y: System, first: Call, c: Call) {
    && y.stage.Outside? && y.launches != [] && y.launches[|y.launches| - 1] == Launch(c.name, c.start, c.end, false, true)
    && MisnamedForGood(y.launches, |y.launches| - 1) && Has(SubmitAll(y.launches), first.name, 0)
  }
}
