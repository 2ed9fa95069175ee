/** LocalCctxTree: the call stack kept as pointers into a growing tree of numbered nodes
    (include/lo2s/local_cctx_tree.hpp, src/local_cctx_tree.cpp), proved to write exactly the
    reference trace of CctxTrace with every path replaced by its node's number.

    Nodes of a std::map never move, so a pointer to one is modelled by the path of its keys. */
module LocalTree {
  import opened CallingContexts
  import opened CctxTrace
  import opened Options

  type Refs = map<Path, nat>

  function RefOf(tree: Refs, p: Path): nat {
    if p in tree then tree[p] else 0
  }

  /** Replaces the path in an event by the number the tree gives it. */
  function Resolve(tree: Refs, e: Event<Path>): Event<nat> {
    match e
    case CctxEnter(t, p) => CctxEnter(t, RefOf(tree, p))
    case CctxLeave(t, p) => CctxLeave(t, RefOf(tree, p))
    case CctxSample(t, p, d) => CctxSample(t, RefOf(tree, p), d)
    case CpuId(t, c) => CpuId(t, c)
    case ThreadBegin(t) => ThreadBegin(t)
    case ThreadEnd(t) => ThreadEnd(t)
  }

  function ResolveAll(tree: Refs, es: seq<Event<Path>>): (r: seq<Event<nat>>)
    ensures |r| == |es|
  {
    seq(|es|, i requires 0 <= i < |es| => Resolve(tree, es[i]))
  }

  /** Every node an event speaks of is a node of the tree. */
  ghost predicate Covers(tree: Refs, es: seq<Event<Path>>) {
    forall i :: 0 <= i < |es| && NamesNode(es[i]) ==> es[i].node in tree
  }

  ghost predicate Grows(a: Refs, b: Refs) {
    forall p :: p in a ==> p in b && b[p] == a[p]
  }

  /** A tree: closed under parents, its non-root nodes numbered 0, 1, ... without gap or
      repetition, `names` being the inverse numbering. The root carries the number 0 too. */
  ghost predicate Numbered(tree: Refs, names: seq<Path>) {
    && [] in tree && tree[[]] == 0
    && (forall p, c :: p + [c] in tree ==> p in tree)
    && (forall p :: p in tree && p != [] ==> tree[p] < |names| && names[tree[p]] == p)
    && (forall r :: 0 <= r < |names| ==> names[r] in tree && names[r] != [] && tree[names[r]] == r)
  }

  /** Contexts whose definition the trace registry shares between all nodes that carry them;
      the other kinds get a definition of their own below their parent's. */
  predicate Keyed(c: CallingContext) {
    c.Process? || c.Thread? || c.Syscall?
  }

  /** Nothing but shared contexts directly below the root, which has no definition. */
  ghost predicate Anchored(tree: Refs) {
    forall p :: p in tree && p != [] ==> Keyed(p[0])
  }

  /** What every user of a tree keeps to: a shared context first, sampled addresses only inside
      one. A call chain of markers alone adds no address. */
  predicate AnchoredOp(m: Machine, op: Op) {
    match op
    case EnterAt(_, level, cs) => level > 1 || (cs != [] && Keyed(cs[0]))
    case EnterBelow(_, cs) => m.stack != [] || (cs != [] && Keyed(cs[0]))
    case SampleIp(_, _) => m.stack != []
    case SampleChain(_, ips) => m.stack != [] || Frames(ips) == []
    case _ => true
  }

  predicate AnchoredRun(differs: Comparison, m: Machine, ops: seq<Op>)
    requires ValidRun(differs, m, ops)
    decreases |ops|
  {
    ops == [] || (AnchoredOp(m, ops[0]) && AnchoredRun(differs, Step(differs, m, ops[0]), ops[1..]))
  }

  lemma ResolveGrown(a: Refs, b: Refs, es: seq<Event<Path>>)
    requires Grows(a, b) && Covers(a, es)
    ensures ResolveAll(a, es) == ResolveAll(b, es) && Covers(b, es)
  {
    forall i | 0 <= i < |es| ensures ResolveAll(a, es)[i] == ResolveAll(b, es)[i] {
      if NamesNode(es[i]) { assert es[i].node in a; }
    }
  }

  /** A tree holds every prefix of each of its paths. */
  lemma {:induction false} PrefixInTree(tree: Refs, names: seq<Path>, p: Path, k: nat)
    requires Numbered(tree, names) && p in tree && k <= |p|
    ensures p[..k] in tree
    decreases |p|
  {
    if k == |p| {
      assert p[..k] == p;
    } else {
      var q := p[..|p| - 1];
      assert p == q + [p[|p| - 1]];
      PrefixInTree(tree, names, q, k);
      assert q[..k] == p[..k];
    }
  }

  lemma AddNode(tree: Refs, names: seq<Path>, node: Path, c: CallingContext)
    requires Numbered(tree, names) && node in tree && node + [c] !in tree
    ensures Numbered(tree[node + [c] := |names|], names + [node + [c]])
  {
    forall q, d | q + [d] == node + [c] ensures q == node { assert q == (q + [d])[..|q|] == node; }
  }

  /** The nodes on a call stack, root first. */
  function Nodes(stack: Path): (ps: seq<Path>)
    ensures |ps| == |stack| + 1 && ps[|stack|] == stack
  {
    assert stack[..|stack|] == stack;
    seq(|stack| + 1, i requires 0 <= i <= |stack| => stack[..i])
  }

  lemma NodesPush(stack: Path, c: CallingContext)
    ensures Nodes(stack + [c]) == Nodes(stack) + [stack + [c]]
  {
    forall i | 0 <= i <= |stack| ensures Nodes(stack + [c])[i] == Nodes(stack)[i] {
      assert (stack + [c])[..i] == stack[..i];
    }
  }

  lemma NodesPop(stack: Path)
    requires stack != []
    ensures Nodes(stack)[..|stack|] == Nodes(stack[..|stack| - 1])
  {
    NodesPush(stack[..|stack| - 1], stack[|stack| - 1]);
    assert stack[..|stack| - 1] + [stack[|stack| - 1]] == stack;
  }

  lemma ResolveSnoc(tree: Refs, es: seq<Event<Path>>, e: Event<Path>)
    ensures ResolveAll(tree, es + [e]) == ResolveAll(tree, es) + [Resolve(tree, e)]
  {
  }

  lemma LeavesSnoc(tp: Time, stack: Path, keep: nat)
    requires keep < |stack|
    ensures Leaves(tp, stack, keep) == Leaves(tp, stack, keep + 1) + [CctxTrace.CctxLeave(tp, stack[..keep + 1])]
  {
  }

  lemma FramesFromEnd(ips: seq<nat>, i: nat, node: Path)
    requires 0 < i < |ips|
    ensures node + Frames(ips[..i + 1])
         == (if IsMarker(ips[i]) then node else node + [SampleAddr(ips[i])]) + Frames(ips[..i])
  {
    assert ips[..i + 1][..i] == ips[..i];
  }

  /** What is left of a tree when its owner is done with it: the nodes, the number finalize
      published (0 before that), and the local event stream. */
  datatype Recording = Recording(tree: Refs, count: nat, events: seq<Event<nat>>)

  /** A finalized recording of a reference trace. */
  ghost predicate Records(r: Recording, trace: seq<Event<Path>>) {
    (exists names :: |names| == r.count && Numbered(r.tree, names)) && Covers(r.tree, trace) && r.events == ResolveAll(r.tree, trace)
  }

  class LocalCctxTree {
    const differs: Comparison
    var tree: Refs
    var cur: seq<Path>
    var nextRef: nat
    ghost var names: seq<Path>
    var refCount: nat
    var events: seq<Event<nat>>
    ghost var spec: Machine

    ghost predicate Valid()
      reads this
    {
      && Numbered(tree, names) && nextRef == |names|
      && cur == Nodes(spec.stack)
      && spec.stack in tree
      && Covers(tree, spec.trace)
      && events == ResolveAll(tree, spec.trace)
    }

    constructor (differs: Comparison)
      ensures Valid() && spec == START && this.differs == differs
      ensures tree == map[[] := 0] && refCount == 0
    {
      this.differs := differs;
      tree := map[[] := 0];
      cur := [[]];
      nextRef := 0;
      names := [];
      refCount := 0;
      events := [];
      spec := START;
    }

    method CurLevel() returns (level: nat)
      requires Valid()
      ensures level == |spec.stack|
    {
      level := |cur| - 1;
    }

    /** create_cctx_node: finds or adds the child and returns it. */
    method CreateCctxNode(c: CallingContext, node: Path) returns (child: Path)
      requires Valid() && node in tree
      modifies `tree, `nextRef, `names
      ensures Valid() && Grows(old(tree), tree)
      ensures child == node + [c] && child in tree
      ensures tree.Keys == old(tree).Keys + {child}
      ensures nextRef == old(nextRef) + if child in old(tree) then 0 else 1
    {
      child := node + [c];
      if child !in tree {
        AddNode(tree, names, node, c);
        ResolveGrown(tree, tree[child := nextRef], spec.trace);
        tree := tree[child := nextRef];
        names := names + [child];
        nextRef := nextRef + 1;
      }
    }

    /** Closes and pops the top node of the stack. */
    method PopNode(tp: Time)
      requires Valid() && spec.stack != []
      modifies `cur, `events, `spec
      ensures Valid()
      ensures spec.stack == old(spec).stack[..|old(spec).stack| - 1]
      ensures spec.trace == old(spec).trace + [CctxTrace.CctxLeave(tp, old(spec).stack)]
    {
      ghost var top := spec.stack;
      events := events + [CctxTrace.CctxLeave(tp, tree[cur[|cur| - 1]])];
      cur := cur[..|cur| - 1];
      NodesPop(top);
      PrefixInTree(tree, names, top, |top| - 1);
      ResolveSnoc(tree, spec.trace, CctxTrace.CctxLeave(tp, top));
      spec := Machine(top[..|top| - 1], spec.trace + [CctxTrace.CctxLeave(tp, top)]);
    }

    /** cctx_leave: pops and closes every node at `level` or above, never the root. */
    method CctxLeave(tp: Time, level: nat) returns (top: nat)
      requires Valid()
      modifies `cur, `events, `spec
      ensures Valid()
      ensures spec == Leave(old(spec), tp, level) && top == |spec.stack|
    {
      ghost var before := spec;
      assert before.stack[..|before.stack|] == before.stack;
      while level > 0 && |cur| - 1 >= level
        invariant Valid()
        invariant |spec.stack| <= |before.stack| && spec.stack == before.stack[..|spec.stack|]
        invariant if level == 0 || |before.stack| < level then spec == before else level - 1 <= |spec.stack|
        invariant spec.trace == before.trace + Leaves(tp, before.stack, |spec.stack|)
        decreases |cur|
      {
        LeavesSnoc(tp, before.stack, |spec.stack| - 1);
        PopNode(tp);
      }
      top := CurLevel();
    }

    /** cctx_leave without a level: leaves the top-most node. */
    method CctxLeaveTop(tp: Time) returns (top: nat)
      requires Valid()
      modifies `cur, `events, `spec
      ensures Valid()
      ensures spec == Leave(old(spec), tp, |old(spec).stack|) && top == |spec.stack|
    {
      var level := CurLevel();
      top := CctxLeave(tp, level);
    }

    method PushNode(tp: Time, c: CallingContext)
      requires Valid()
      modifies `tree, `nextRef, `names, `cur, `events, `spec
      ensures Valid() && Grows(old(tree), tree)
      ensures spec == Push(old(spec), tp, c)
      ensures old(Anchored(tree)) && (old(spec).stack != [] || Keyed(c)) ==> Anchored(tree)
    {
      var child := CreateCctxNode(c, cur[|cur| - 1]);
      cur := cur + [child];
      events := events + [CctxTrace.CctxEnter(tp, tree[cur[|cur| - 1]])];
      NodesPush(spec.stack, c);
      ResolveSnoc(tree, spec.trace, CctxTrace.CctxEnter(tp, child));
      spec := Push(spec, tp, c);
    }

    /** handle_enter_cctx_node. */
    method HandleEnterCctxNode(tp: Time, level: nat, c: CallingContext)
      requires Valid() && 0 < level <= |spec.stack| + 1
      modifies `tree, `nextRef, `names, `cur, `events, `spec
      ensures Valid() && Grows(old(tree), tree)
      ensures spec == EnterNode(differs, old(spec), tp, level, c)
      ensures old(Anchored(tree)) && (level > 1 || Keyed(c)) ==> Anchored(tree)
    {
      var top := CurLevel();
      if level == top + 1 {
        PushNode(tp, c);
      } else {
        var held := cur[level];
        assert held[|held| - 1] == spec.stack[level - 1];
        if differs(held[|held| - 1], c) {
          var _ := CctxLeave(tp, level);
          PushNode(tp, c);
        }
      }
    }

    /** cctx_enter at a level: the contexts one after the other, each a level deeper. */
    method CctxEnter(tp: Time, level: nat, cs: seq<CallingContext>)
      requires Valid() && 0 < level <= |spec.stack| + 1 && cs != []
      modifies `tree, `nextRef, `names, `cur, `events, `spec
      ensures Valid() && Grows(old(tree), tree)
      ensures spec == Enter(differs, old(spec), tp, level, cs)
      ensures old(Anchored(tree)) && (level > 1 || Keyed(cs[0])) ==> Anchored(tree)
      decreases |cs|
    {
      HandleEnterCctxNode(tp, level, cs[0]);
      if |cs| > 1 {
        CctxEnter(tp, level + 1, cs[1..]);
      }
    }

    /** cctx_enter below the current stack; returns the level of the first entered node. */
    method CctxEnterBelow(tp: Time, cs: seq<CallingContext>) returns (level: nat)
      requires Valid() && cs != []
      modifies `tree, `nextRef, `names, `cur, `events, `spec
      ensures Valid() && Grows(old(tree), tree)
      ensures level == |old(spec).stack| + 1
      ensures spec == Enter(differs, old(spec), tp, level, cs)
      ensures old(Anchored(tree)) && (old(spec).stack != [] || Keyed(cs[0])) ==> Anchored(tree)
    {
      level := CurLevel();
      level := level + 1;
      CctxEnter(tp, level, cs);
    }

    /** write_calling_context_sample for a node of the tree. */
    method WriteSample(tp: Time, node: Path, distance: nat)
      requires Valid() && node in tree
      modifies `events, `spec
      ensures Valid()
      ensures spec == old(spec).(trace := old(spec).trace + [CctxSample(tp, node, distance)])
    {
      events := events + [CctxSample(tp, tree[node], distance)];
      ResolveSnoc(tree, spec.trace, CctxSample(tp, node, distance));
      spec := spec.(trace := spec.trace + [CctxSample(tp, node, distance)]);
    }

    /** cctx_sample for one instruction pointer. */
    method CctxSampleIp(tp: Time, ip: nat)
      requires Valid()
      modifies `tree, `nextRef, `names, `events, `spec
      ensures Valid() && Grows(old(tree), tree)
      ensures spec == Step(differs, old(spec), SampleIp(tp, ip))
      ensures old(Anchored(tree)) && (old(spec).stack != []) ==> Anchored(tree)
    {
      var node := CreateCctxNode(SampleAddr(ip), cur[|cur| - 1]);
      WriteSample(tp, node, 2);
    }

    /** The loop of cctx_sample: walks a call chain from its last entry down to entry 1. */
    method WalkChain(start: Path, ips: seq<nat>) returns (node: Path)
      requires Valid() && start in tree && ips != []
      modifies `tree, `nextRef, `names
      ensures Valid() && Grows(old(tree), tree)
      ensures node == start + Frames(ips) && node in tree
      ensures old(Anchored(tree)) && (start != [] || Frames(ips) == []) ==> Anchored(tree)
    {
      node := start;
      var i := |ips| - 1;
      assert ips[..i + 1] == ips;
      while i != 0
        invariant 0 <= i < |ips|
        invariant Valid() && Grows(old(tree), tree) && node in tree
        invariant node + Frames(ips[..i + 1]) == start + Frames(ips)
        invariant start != [] ==> node != []
        invariant old(Anchored(tree)) && (start != [] || Frames(ips) == []) ==> Anchored(tree)
      {
        FramesFromEnd(ips, i, node);
        if IsMarker(ips[i]) {
          if i <= 1 {
            i := 0;
            break;
          }
          i := i - 1;
          continue;
        }
        node := CreateCctxNode(SampleAddr(ips[i]), node);
        i := i - 1;
      }
    }

    /** cctx_sample for a call chain. */
    method CctxSampleChain(tp: Time, ips: seq<nat>)
      requires Valid() && ips != []
      modifies `tree, `nextRef, `names, `events, `spec
      ensures Valid() && Grows(old(tree), tree)
      ensures spec == Step(differs, old(spec), SampleChain(tp, ips))
      ensures old(Anchored(tree)) && (old(spec).stack != [] || Frames(ips) == []) ==> Anchored(tree)
    {
      var node := WalkChain(cur[|cur| - 1], ips);
      WriteSample(tp, node, |ips|);
    }

    /** Anything else the owner of the tree writes to the same local writer. */
    method WriteOther(e: Event<Path>)
      requires Valid() && !NamesNode(e)
      modifies `events, `spec
      ensures Valid()
      ensures spec == old(spec).(trace := old(spec).trace + [e])
    {
      events := events + [Resolve(map[], e)];
      ResolveSnoc(tree, spec.trace, e);
      spec := spec.(trace := spec.trace + [e]);
    }

    /** Runs one call. */
    method Perform(op: Op)
      requires Valid() && ValidOp(spec, op)
      modifies `tree, `nextRef, `names, `cur, `events, `spec
      ensures Valid() && Grows(old(tree), tree)
      ensures spec == Step(differs, old(spec), op)
      ensures old(Anchored(tree)) && (AnchoredOp(old(spec), op)) ==> Anchored(tree)
    {
      match op
      case EnterAt(tp, level, cs) => CctxEnter(tp, level, cs);
      case EnterBelow(tp, cs) => var _ := CctxEnterBelow(tp, cs);
      case LeaveAt(tp, level) => var _ := CctxLeave(tp, level);
      case LeaveTop(tp) => var _ := CctxLeaveTop(tp);
      case SampleIp(tp, ip) => CctxSampleIp(tp, ip);
      case SampleChain(tp, ips) => CctxSampleChain(tp, ips);
    }

    /** finalize: publishes the number of nodes. */
    method Finalize()
      requires Valid()
      modifies `refCount
      ensures Valid() && refCount == nextRef
    {
      refCount := nextRef;
    }
  }

  /** A whole recording: any valid run of calls on a new tree, then finalize. The stream is the
      reference trace with paths replaced by numbers, and every number handed out on the way
      still names the same node at the end. */
  method Record(differs: Comparison, ops: seq<Op>) returns (r: Recording)
    requires ValidRun(differs, START, ops)
    ensures Records(r, Run(differs, START, ops).trace)
    ensures AnchoredRun(differs, START, ops) ==> Anchored(r.tree)
  {
    var t := new LocalCctxTree(differs);
    PerformAll(t, ops);
    t.Finalize();
    r := Recording(t.tree, t.refCount, t.events);
  }

  method PerformAll(t: LocalCctxTree, ops: seq<Op>)
    requires t.Valid() && ValidRun(t.differs, t.spec, ops)
    modifies t
    ensures t.Valid() && t.spec == Run(t.differs, old(t.spec), ops) && Grows(old(t.tree), t.tree)
    ensures old(Anchored(t.tree)) && AnchoredRun(t.differs, old(t.spec), ops) ==> Anchored(t.tree)
    decreases |ops|
  {
    if ops != [] {
      t.Perform(ops[0]);
      PerformAll(t, ops[1..]);
    }
  }

  /** Replaying numbers is replaying paths: a well-nested reference trace stays well nested. */
  lemma {:induction false} ReplayResolved(tree: Refs, open: seq<Path>, es: seq<Event<Path>>)
    requires Replay(open, es).Some?
    ensures Replay(RefsOf(tree, open), ResolveAll(tree, es)) == Some(RefsOf(tree, Replay(open, es).value))
    decreases |es|
  {
    if es != [] {
      var rs := ResolveAll(tree, es);
      assert rs[1..] == ResolveAll(tree, es[1..]);
      match es[0]
      case CctxEnter(_, p) =>
        assert RefsOf(tree, open + [p]) == RefsOf(tree, open) + [RefOf(tree, p)];
        ReplayResolved(tree, open + [p], es[1..]);
      case CctxLeave(_, p) =>
        assert RefsOf(tree, open[..|open| - 1]) == RefsOf(tree, open)[..|open| - 1];
        ReplayResolved(tree, open[..|open| - 1], es[1..]);
      case _ => ReplayResolved(tree, open, es[1..]);
    }
  }

  function RefsOf(tree: Refs, ps: seq<Path>): (r: seq<nat>)
    ensures |r| == |ps|
  {
    seq(|ps|, i requires 0 <= i < |ps| => RefOf(tree, ps[i]))
  }

  /** The numbers in the written stream replay to the numbers of the current call stack,
      after every run and for every comparison. */
  lemma EveryRunReplaysToStack(differs: Comparison, ops: seq<Op>, tree: Refs)
    requires ValidRun(differs, START, ops)
    ensures var m := Run(differs, START, ops);
            Replay([], ResolveAll(tree, m.trace)) == Some(RefsOf(tree, Open(m.stack)))
  {
    var m := Run(differs, START, ops);
    assert Open([]) == [];
    EveryRunIsNested(differs, START, ops);
    ReplayResolved(tree, [], m.trace);
    assert RefsOf(tree, []) == [];
  }
}
