/** The reference meaning of a local calling-context tree: a bare call stack and the event
    stream it should produce, with every event naming its node by the full path from the
    root. There are no reference numbers and there is no tree here. */
module CctxTrace {
  import opened CallingContexts
  import opened Options

  type Time = int

  /** An event of a local OTF2 writer; R is how it names a calling-context node. */
  datatype Event<R> =
    | CctxEnter(time: Time, node: R)
    | CctxLeave(time: Time, node: R)
    | CctxSample(time: Time, node: R, distance: nat)
    | CpuId(time: Time, cpu: int)
    | ThreadBegin(time: Time)
    | ThreadEnd(time: Time)

  predicate NamesNode<R>(e: Event<R>) {
    e.CctxEnter? || e.CctxLeave? || e.CctxSample?
  }

  ghost predicate Ordered<R(!new)>(es: seq<Event<R>>) {
    forall i, j :: 0 <= i < j < |es| ==> es[i].time <= es[j].time
  }

  /** The call stack without its root, and everything written so far. */
  datatype Machine = Machine(stack: Path, trace: seq<Event<Path>>)

  const START := Machine([], [])

  // ---- The operations -----------------------------------------------------------------

  /** The leave events for every node above depth `keep`, innermost first. */
  function Leaves(tp: Time, stack: Path, keep: nat): (es: seq<Event<Path>>)
    requires keep <= |stack|
  {
    seq(|stack| - keep, i requires 0 <= i < |stack| - keep => CctxLeave(tp, stack[..|stack| - i]))
  }

  /** The enter events that take a stack from depth `from` to its full depth. */
  function Enters(tp: Time, stack: Path, from: nat): (es: seq<Event<Path>>)
    requires from <= |stack|
  {
    seq(|stack| - from, i requires 0 <= i < |stack| - from => CctxEnter(tp, stack[..from + i + 1]))
  }

  function Leave(m: Machine, tp: Time, level: nat): (m': Machine) {
    if level == 0 || |m.stack| < level then m
    else Machine(m.stack[..level - 1], m.trace + Leaves(tp, m.stack, level - 1))
  }

  function Push(m: Machine, tp: Time, c: CallingContext): (m': Machine) {
    Machine(m.stack + [c], m.trace + [CctxEnter(tp, m.stack + [c])])
  }

  function EnterNode(differs: Comparison, m: Machine, tp: Time, level: nat, c: CallingContext): (m': Machine)
    requires 0 < level <= |m.stack| + 1
    ensures level <= |m'.stack|
  {
    if level == |m.stack| + 1 then Push(m, tp, c)
    else if differs(m.stack[level - 1], c) then Push(Leave(m, tp, level), tp, c)
    else m
  }

  function Enter(differs: Comparison, m: Machine, tp: Time, level: nat, cs: seq<CallingContext>): (m': Machine)
    requires 0 < level <= |m.stack| + 1
    decreases |cs|
  {
    if cs == [] then m
    else Enter(differs, EnterNode(differs, m, tp, level, cs[0]), tp, level + 1, cs[1..])
  }

  const PERF_CONTEXT_KERNEL := 0x1_0000_0000_0000_0000 - 128
  const PERF_CONTEXT_USER := 0x1_0000_0000_0000_0000 - 512

  predicate IsMarker(ip: nat) {
    ip == PERF_CONTEXT_KERNEL || ip == PERF_CONTEXT_USER
  }

  /** The contexts a perf call chain adds below the stack: outermost frame (last entry)
      first, markers skipped, entry 0 left out. */
  function Frames(ips: seq<nat>): (cs: Path) {
    if |ips| <= 1 then []
    else
      var last := ips[|ips| - 1];
      (if IsMarker(last) then [] else [SampleAddr(last)]) + Frames(ips[..|ips| - 1])
  }

  datatype Op =
    | EnterAt(tp: Time, level: nat, cs: seq<CallingContext>)
    | EnterBelow(tp: Time, cs: seq<CallingContext>)
    | LeaveAt(tp: Time, level: nat)
    | LeaveTop(tp: Time)
    | SampleIp(tp: Time, ip: nat)
    | SampleChain(tp: Time, ips: seq<nat>)

  /** What the source asserts of its callers: level 0 is the root's, a level must be reached
      without a gap, and a call chain has an entry. */
  predicate ValidOp(m: Machine, op: Op) {
    match op
    case EnterAt(_, level, cs) => 0 < level <= |m.stack| + 1 && cs != []
    case EnterBelow(_, cs) => cs != []
    case SampleChain(_, ips) => ips != []
    case _ => true
  }

  function Step(differs: Comparison, m: Machine, op: Op): (m': Machine)
    requires ValidOp(m, op)
  {
    match op
    case EnterAt(tp, level, cs) => Enter(differs, m, tp, level, cs)
    case EnterBelow(tp, cs) => Enter(differs, m, tp, |m.stack| + 1, cs)
    case LeaveAt(tp, level) => Leave(m, tp, level)
    case LeaveTop(tp) => Leave(m, tp, |m.stack|)
    case SampleIp(tp, ip) => m.(trace := m.trace + [CctxSample(tp, m.stack + [SampleAddr(ip)], 2)])
    case SampleChain(tp, ips) => m.(trace := m.trace + [CctxSample(tp, m.stack + Frames(ips), |ips|)])
  }

  predicate ValidRun(differs: Comparison, m: Machine, ops: seq<Op>)
    decreases |ops|
  {
    ops == [] || (ValidOp(m, ops[0]) && ValidRun(differs, Step(differs, m, ops[0]), ops[1..]))
  }

  function Run(differs: Comparison, m: Machine, ops: seq<Op>): (m': Machine)
    requires ValidRun(differs, m, ops)
    decreases |ops|
  {
    if ops == [] then m else Run(differs, Step(differs, m, ops[0]), ops[1..])
  }

  // ---- Nesting ------------------------------------------------------------------------

  /** What a trace reader does with enter and leave events: push, and pop what must be on
      top. None means that the stream is not well nested. */
  function Replay<R(==)>(open: seq<R>, es: seq<Event<R>>): (r: Option<seq<R>>)
    decreases |es|
  {
    if es == [] then Some(open)
    else
      match es[0]
      case CctxEnter(_, n) => Replay(open + [n], es[1..])
      case CctxLeave(_, n) =>
        if open != [] && open[|open| - 1] == n then Replay(open[..|open| - 1], es[1..]) else None
      case _ => Replay(open, es[1..])
  }

  /** The nodes of a call stack, outermost first: all non-empty prefixes of its path. */
  function Open(stack: Path): (ps: seq<Path>) {
    seq(|stack|, i requires 0 <= i < |stack| => stack[..i + 1])
  }

  lemma {:induction false} ReplayAppend<R>(open: seq<R>, a: seq<Event<R>>, b: seq<Event<R>>)
    requires Replay(open, a).Some?
    ensures Replay(open, a + b) == Replay(Replay(open, a).value, b)
    decreases |a|
  {
    if a == [] {
      assert a + b == b;
    } else {
      assert (a + b)[1..] == a[1..] + b;
      match a[0]
      case CctxEnter(_, n) => ReplayAppend(open + [n], a[1..], b);
      case CctxLeave(_, n) => ReplayAppend(open[..|open| - 1], a[1..], b);
      case _ => ReplayAppend(open, a[1..], b);
    }
  }

  lemma {:induction false} ReplayLeaves(tp: Time, stack: Path, keep: nat)
    requires keep <= |stack|
    ensures Replay(Open(stack), Leaves(tp, stack, keep)) == Some(Open(stack[..keep]))
    decreases |stack|
  {
    if keep == |stack| {
      assert stack[..keep] == stack;
    } else {
      var below := stack[..|stack| - 1];
      var es := Leaves(tp, stack, keep);
      assert es[1..] == Leaves(tp, below, keep) by {
        forall i | 0 <= i < |es| - 1 ensures es[1..][i] == Leaves(tp, below, keep)[i] {
          assert stack[..|stack| - (i + 1)] == below[..|below| - i];
        }
      }
      assert Open(stack)[..|stack| - 1] == Open(below) by {
        forall i | 0 <= i < |below| ensures Open(stack)[i] == Open(below)[i] {
          assert stack[..i + 1] == below[..i + 1];
        }
      }
      assert stack[..|stack|] == stack;
      ReplayLeaves(tp, below, keep);
      assert below[..keep] == stack[..keep];
    }
  }

  /** The invariant of every run: the stream written so far replays to the current stack. */
  ghost predicate Nested(m: Machine) {
    Replay([], m.trace) == Some(Open(m.stack))
  }

  lemma LeaveKeepsNested(m: Machine, tp: Time, level: nat)
    requires Nested(m)
    ensures Nested(Leave(m, tp, level))
  {
    if level != 0 && level <= |m.stack| {
      ReplayAppend([], m.trace, Leaves(tp, m.stack, level - 1));
      ReplayLeaves(tp, m.stack, level - 1);
    }
  }

  lemma PushKeepsNested(m: Machine, tp: Time, c: CallingContext)
    requires Nested(m)
    ensures Nested(Push(m, tp, c))
  {
    var path := m.stack + [c];
    ReplayAppend([], m.trace, [CctxEnter(tp, path)]);
    assert Open(path) == Open(m.stack) + [path] by {
      forall i | 0 <= i < |path| ensures Open(path)[i] == (Open(m.stack) + [path])[i] {
        if i < |m.stack| { assert path[..i + 1] == m.stack[..i + 1]; } else { assert path[..i + 1] == path; }
      }
    }
  }

  lemma {:induction false} EnterKeepsNested(differs: Comparison, m: Machine, tp: Time, level: nat, cs: seq<CallingContext>)
    requires Nested(m) && 0 < level <= |m.stack| + 1
    ensures Nested(Enter(differs, m, tp, level, cs))
    decreases |cs|
  {
    if cs != [] {
      var m1 := EnterNode(differs, m, tp, level, cs[0]);
      LeaveKeepsNested(m, tp, level);
      PushKeepsNested(m, tp, cs[0]);
      PushKeepsNested(Leave(m, tp, level), tp, cs[0]);
      EnterKeepsNested(differs, m1, tp, level + 1, cs[1..]);
    }
  }

  lemma StepKeepsNested(differs: Comparison, m: Machine, op: Op)
    requires Nested(m) && ValidOp(m, op)
    ensures Nested(Step(differs, m, op))
  {
    match op
    case EnterAt(tp, level, cs) => EnterKeepsNested(differs, m, tp, level, cs);
    case EnterBelow(tp, cs) => EnterKeepsNested(differs, m, tp, |m.stack| + 1, cs);
    case LeaveAt(tp, level) => LeaveKeepsNested(m, tp, level);
    case LeaveTop(tp) => LeaveKeepsNested(m, tp, |m.stack|);
    case SampleIp(tp, ip) => ReplayAppend([], m.trace, [CctxSample(tp, m.stack + [SampleAddr(ip)], 2)]);
    case SampleChain(tp, ips) => ReplayAppend([], m.trace, [CctxSample(tp, m.stack + Frames(ips), |ips|)]);
  }

  /** For any comparison of nodes and any run of valid calls, the stream is well nested and
      replays to the current call stack; the root is never left, and leaving level 1 closes
      everything that was ever entered. */
  lemma {:induction false} EveryRunIsNested(differs: Comparison, m: Machine, ops: seq<Op>)
    requires Nested(m) && ValidRun(differs, m, ops)
    ensures Nested(Run(differs, m, ops))
    ensures forall tp: Time :: Replay([], Leave(Run(differs, m, ops), tp, 1).trace) == Some([])
    decreases |ops|
  {
    if ops == [] {
      forall tp: Time ensures Replay([], Leave(m, tp, 1).trace) == Some([]) {
        LeaveKeepsNested(m, tp, 1);
        assert Open(Leave(m, tp, 1).stack) == [];
      }
    } else {
      StepKeepsNested(differs, m, ops[0]);
      EveryRunIsNested(differs, Step(differs, m, ops[0]), ops[1..]);
    }
  }

  // ---- What entering does -------------------------------------------------------------

  /** How many of the contexts are already on the stack from `level` upwards. */
  function Matching(stack: Path, level: nat, cs: seq<CallingContext>): (k: nat)
    requires 0 < level <= |stack| + 1
    ensures k <= |cs| && level - 1 + k <= |stack|
    ensures stack[level - 1..level - 1 + k] == cs[..k]
    ensures k < |cs| && level - 1 + k < |stack| ==> stack[level - 1 + k] != cs[k]
    decreases |cs|
  {
    if cs == [] || level == |stack| + 1 || stack[level - 1] != cs[0] then 0
    else
      var k := Matching(stack, level + 1, cs[1..]);
      assert stack[level - 1..level + k] == [stack[level - 1]] + stack[level..level + k];
      1 + k
  }

  /** Once a context had to be pushed, all later ones are pushed too. */
  lemma {:induction false} EnterAboveTop(differs: Comparison, m: Machine, tp: Time, cs: seq<CallingContext>)
    ensures Enter(differs, m, tp, |m.stack| + 1, cs)
         == Machine(m.stack + cs, m.trace + Enters(tp, m.stack + cs, |m.stack|))
    decreases |cs|
  {
    if cs == [] {
      assert m.stack + cs == m.stack;
      assert m.trace + Enters(tp, m.stack + cs, |m.stack|) == m.trace;
    } else {
      var m1 := Push(m, tp, cs[0]);
      EnterAboveTop(differs, m1, tp, cs[1..]);
      var full := m.stack + cs;
      assert m1.stack + cs[1..] == full;
      assert full[..|m.stack| + 1] == m1.stack;
      assert Enters(tp, full, |m.stack|) == [CctxEnter(tp, m1.stack)] + Enters(tp, full, |m1.stack|);
      assert m1.trace + Enters(tp, full, |m1.stack|) == m.trace + Enters(tp, full, |m.stack|);
    }
  }

  /** A first context that is not on the stack at its level is entered above the levels below. */
  lemma EnterOnMismatch(differs: Comparison, m: Machine, tp: Time, level: nat, cs: seq<CallingContext>)
    requires 0 < level <= |m.stack| + 1 && cs != []
    requires level <= |m.stack| ==> differs(m.stack[level - 1], cs[0])
    ensures var low := Machine(m.stack[..level - 1], m.trace + Leaves(tp, m.stack, level - 1));
            Enter(differs, m, tp, level, cs) == Enter(differs, low, tp, level, cs)
  {
    var low := Machine(m.stack[..level - 1], m.trace + Leaves(tp, m.stack, level - 1));
    if level == |m.stack| + 1 {
      assert low == m;
    } else {
      assert EnterNode(differs, m, tp, level, cs[0]) == Push(low, tp, cs[0]);
    }
  }

  /** With a comparison that means disequality, entering cs at `level` changes nothing if they
      are already there, and otherwise leaves exactly the nodes from the first mismatch upward,
      enters exactly the remaining contexts, and ends with cs on top of the untouched levels. */
  lemma {:induction false} EnterIsExact(differs: Comparison, m: Machine, tp: Time, level: nat, cs: seq<CallingContext>)
    requires RealDisequality(differs) && 0 < level <= |m.stack| + 1
    ensures var k := Matching(m.stack, level, cs);
            Enter(differs, m, tp, level, cs) ==
            if k == |cs| then m
            else Machine(m.stack[..level - 1] + cs,
                         m.trace + Leaves(tp, m.stack, level - 1 + k)
                                 + Enters(tp, m.stack[..level - 1] + cs, level - 1 + k))
    decreases |cs|
  {
    if cs == [] {
    } else if level <= |m.stack| && m.stack[level - 1] == cs[0] {
      EnterIsExact(differs, m, tp, level + 1, cs[1..]);
      assert m.stack[..level] + cs[1..] == m.stack[..level - 1] + cs;
    } else {
      var low := Machine(m.stack[..level - 1], m.trace + Leaves(tp, m.stack, level - 1));
      EnterOnMismatch(differs, m, tp, level, cs);
      EnterAboveTop(differs, low, tp, cs);
    }
  }

  /** For an arbitrary comparison: the node asked for is on the stack at its level afterwards
      exactly when the level was free, already held it, or held something the comparison
      tells apart from it. */
  lemma EnterNodePlacesContext(differs: Comparison, m: Machine, tp: Time, level: nat, c: CallingContext)
    requires 0 < level <= |m.stack| + 1
    ensures EnterNode(differs, m, tp, level, c).stack[level - 1] == c
      <==> level == |m.stack| + 1 || m.stack[level - 1] == c || differs(m.stack[level - 1], c)
  {
  }

  /** The operator the source uses fails that for any two contexts of one kind: a switch from
      one process to another without a leave in between keeps the old process on the stack,
      and writes nothing. */
  lemma SameKindIsNeverReplaced(differs: Comparison, tp: Time, p: int, q: int)
    requires AsWritten(differs) && p != q
    ensures var m := Step(differs, START, EnterAt(tp, 1, [Process(p)]));
            Step(differs, m, EnterAt(tp, 1, [Process(q)])) == m && m.stack == [Process(p)]
  {
    var m := Push(START, tp, Process(p));
    assert EnterNode(differs, START, tp, 1, Process(p)) == m;
    assert [Process(p)][1..] == [];
    assert Enter(differs, START, tp, 1, [Process(p)]) == m;
    assert !differs(Process(p), Process(q));
    assert EnterNode(differs, m, tp, 1, Process(q)) == m;
    assert [Process(q)][1..] == [];
    assert Enter(differs, m, tp, 1, [Process(q)]) == m;
  }

  // ---- What the other calls do --------------------------------------------------------

  /** The entries of a call chain that become frames, in the order of the frames. */
  function FrameEntries(ips: seq<nat>): seq<nat> {
    if |ips| <= 1 then []
    else
      var n := |ips| - 1;
      (if IsMarker(ips[n]) then [] else [n]) + FrameEntries(ips[..n])
  }

  lemma {:induction false} FrameEntriesBelow(ips: seq<nat>)
    ensures forall k :: 0 <= k < |FrameEntries(ips)| ==> 0 < FrameEntries(ips)[k] < |ips|
    ensures forall k, l :: 0 <= k < l < |FrameEntries(ips)| ==> FrameEntries(ips)[k] > FrameEntries(ips)[l]
  {
    if |ips| > 1 { FrameEntriesBelow(ips[..|ips| - 1]); }
  }

  lemma {:induction false} FrameOfEntry(ips: seq<nat>, k: nat)
    requires k < |FrameEntries(ips)|
    ensures |Frames(ips)| == |FrameEntries(ips)|
    ensures 0 < FrameEntries(ips)[k] < |ips| && Frames(ips)[k] == SampleAddr(ips[FrameEntries(ips)[k]])
  {
    FrameEntriesBelow(ips);
    FrameCount(ips);
    var n := |ips| - 1;
    if !IsMarker(ips[n]) {
      if k > 0 { FrameOfEntry(ips[..n], k - 1); }
    } else {
      FrameOfEntry(ips[..n], k);
    }
  }

  lemma {:induction false} FrameCount(ips: seq<nat>)
    ensures |Frames(ips)| == |FrameEntries(ips)|
  {
    if |ips| > 1 { FrameCount(ips[..|ips| - 1]); }
  }

  lemma {:induction false} FrameEntryExactlyWhen(ips: seq<nat>, j: nat)
    requires 0 < j < |ips|
    ensures j in FrameEntries(ips) <==> !IsMarker(ips[j])
    decreases |ips|
  {
    var n := |ips| - 1;
    FrameEntriesBelow(ips[..n]);
    if j < n { FrameEntryExactlyWhen(ips[..n], j); }
  }

  /** The markers that separate kernel and user frames in a perf call chain. */
  lemma MarkersAre(ip: nat)
    ensures IsMarker(ip) <==> ip == 0xffff_ffff_ffff_ff80 || ip == 0xffff_ffff_ffff_fe00
  {
  }

  /** The frames of a call chain are the addresses of its entries from 1 on, the last entry
      first, leaving out exactly the two markers. */
  lemma FramesAreExact(ips: seq<nat>) returns (js: seq<nat>)
    ensures |js| == |Frames(ips)|
    ensures forall k :: 0 <= k < |js| ==> 0 < js[k] < |ips| && Frames(ips)[k] == SampleAddr(ips[js[k]])
    ensures forall k, l :: 0 <= k < l < |js| ==> js[k] > js[l]
    ensures forall j :: 0 < j < |ips| ==>
              (j in js <==> ips[j] != 0xffff_ffff_ffff_ff80 && ips[j] != 0xffff_ffff_ffff_fe00)
  {
    js := FrameEntries(ips);
    FrameCount(ips);
    FrameEntriesBelow(ips);
    forall k | 0 <= k < |js| ensures Frames(ips)[k] == SampleAddr(ips[js[k]]) { FrameOfEntry(ips, k); }
    forall j | 0 < j < |ips|
      ensures j in js <==> ips[j] != 0xffff_ffff_ffff_ff80 && ips[j] != 0xffff_ffff_ffff_fe00
    {
      FrameEntryExactlyWhen(ips, j);
      MarkersAre(ips[j]);
    }
  }

  /** An address is among the frames exactly if an entry from 1 on holds it and it is no marker. */
  lemma FramesHold(ips: seq<nat>, ip: nat)
    ensures SampleAddr(ip) in Frames(ips) <==>
            exists j :: 0 < j < |ips| && ips[j] == ip && ip != 0xffff_ffff_ffff_ff80 && ip != 0xffff_ffff_ffff_fe00
  {
    var js := FramesAreExact(ips);
    if SampleAddr(ip) in Frames(ips) {
      var k :| 0 <= k < |Frames(ips)| && Frames(ips)[k] == SampleAddr(ip);
      assert js[k] in js && ips[js[k]] == ip;
    }
    if j :| 0 < j < |ips| && ips[j] == ip && ip != 0xffff_ffff_ffff_ff80 && ip != 0xffff_ffff_ffff_fe00 {
      assert j in js;
      var k :| 0 <= k < |js| && js[k] == j;
      assert Frames(ips)[k] == SampleAddr(ip);
    }
  }

  /** The events b has after a are exactly n, and event i of them is the one given. */
  ghost predicate Adds(a: Machine, b: Machine, n: nat, event: int -> Event<Path>) {
    && |b.trace| == |a.trace| + n && b.trace[..|a.trace|] == a.trace
    && forall i :: 0 <= i < n ==> b.trace[|a.trace| + i] == event(i)
  }

  /** Leaving a level closes what is there and above, innermost first. */
  lemma LeaveIsExact(differs: Comparison, m: Machine, tp: Time, level: nat)
    ensures var m' := Step(differs, m, LeaveAt(tp, level));
            var depth := |m.stack|;
            var keep := if 0 < level <= depth then level - 1 else depth;
            m'.stack == m.stack[..keep] && Adds(m, m', depth - keep, i => CctxLeave(tp, m.stack[..Within(depth - i, depth)]))
  {
  }

  /** Leaving the top-most node closes just that one. */
  lemma LeaveTopIsExact(differs: Comparison, m: Machine, tp: Time)
    ensures var m' := Step(differs, m, LeaveTop(tp));
            if m.stack == [] then m' == m
            else m' == Machine(m.stack[..|m.stack| - 1], m.trace + [CctxLeave(tp, m.stack)])
  {
    assert m.stack[..|m.stack|] == m.stack;
  }

  /** A position cut to 0..n. */
  function Within(i: int, n: nat): (k: nat)
    ensures k <= n && (0 <= i <= n ==> k == i)
  {
    if i < 0 then 0 else if i > n then n else i
  }

  /** Entering below the stack puts all contexts on top of it, each with its own enter event. */
  lemma EnterBelowIsExact(differs: Comparison, m: Machine, tp: Time, cs: seq<CallingContext>)
    requires cs != []
    ensures var m' := Step(differs, m, EnterBelow(tp, cs));
            && m'.stack == m.stack + cs
            && Adds(m, m', |cs|, i => CctxEnter(tp, m.stack + cs[..Within(i + 1, |cs|)]))
  {
    EnterAboveTop(differs, m, tp, cs);
    var full, depth := m.stack + cs, |m.stack|;
    forall i | 0 <= i < |cs|
      ensures Enters(tp, full, depth)[i] == CctxEnter(tp, m.stack + cs[..Within(i + 1, |cs|)])
    {
      assert full[..depth + i + 1] == m.stack + cs[..i + 1];
    }
  }

  /** A sample is one event, for the stack followed by what was sampled, and leaves the stack. */
  lemma SampleIsExact(differs: Comparison, m: Machine, tp: Time, ip: nat, ips: seq<nat>)
    requires ips != []
    ensures Step(differs, m, SampleIp(tp, ip))
         == Machine(m.stack, m.trace + [CctxSample(tp, m.stack + [SampleAddr(ip)], 2)])
    ensures Step(differs, m, SampleChain(tp, ips))
         == Machine(m.stack, m.trace + [CctxSample(tp, m.stack + Frames(ips), |ips|)])
  {
  }
}
