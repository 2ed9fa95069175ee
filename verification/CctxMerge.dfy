/** Folding local calling-context trees into the global one: merge_nodes,
    merge_calling_contexts and the tree loop of finalize (src/trace/trace.cpp). */
module CctxMerge {
  import opened CallingContexts
  import opened CctxTrace
  import opened Options
  import opened LocalTree

  function Last(p: Path): CallingContext
    requires p != []
  {
    p[|p| - 1]
  }

  /** The definitions made for a context need the process it was seen in. */
  predicate UsesProcess(c: CallingContext) {
    c.SampleAddr? || c.GpuKernel? || c.OpenMp? || c.Thread?
  }

  /** A calling-context definition: one shared by all nodes with that context, or one of a
      node's own, whose parent is another definition. The path says what it was made for. */
  datatype Definition = Shared(context: CallingContext) | Own(path: Path, parent: nat)

  /** The consistency of the global tree and the registry of definitions: a node with a shared
      context has the registered definition of that context, every other node a definition
      made for it alone, and that definition's parent is the definition of the node above. */
  ghost predicate Consistent(nodes: Refs, registry: map<CallingContext, nat>, defs: seq<Definition>) {
    && [] !in nodes
    && (forall p, c :: p + [c] in nodes ==>
          && nodes[p + [c]] < |defs|
          && (p != [] ==> p in nodes)
          && if Keyed(c) then c in registry && nodes[p + [c]] == registry[c]
             else p in nodes && defs[nodes[p + [c]]] == Own(p + [c], nodes[p]))
    && (forall c :: c in registry ==> Keyed(c) && registry[c] < |defs| && defs[registry[c]] == Shared(c))
  }

  /** Two global nodes share a definition exactly when they are the same node or carry the
      same shared context. */
  lemma SameDefinitionExactlyWhen(nodes: Refs, registry: map<CallingContext, nat>, defs: seq<Definition>,
                                  p: Path, q: Path)
    requires Consistent(nodes, registry, defs) && p in nodes && q in nodes
    ensures nodes[p] == nodes[q] <==>
            p == q || (Last(p) == Last(q) && (Last(p).Process? || Last(p).Thread? || Last(p).Syscall?))
  {
    assert p == p[..|p| - 1] + [Last(p)];
    assert q == q[..|q| - 1] + [Last(q)];
  }

  /** What the definition of a global node is: the shared one of its process, thread or syscall,
      and otherwise one made for this node, below that of its parent. */
  lemma DefinitionIsExact(nodes: Refs, registry: map<CallingContext, nat>, defs: seq<Definition>, p: Path)
    requires Consistent(nodes, registry, defs) && p in nodes
    ensures p != [] && nodes[p] < |defs|
    ensures Last(p).Process? || Last(p).Thread? || Last(p).Syscall? ==> defs[nodes[p]] == Shared(Last(p))
    ensures Last(p).SampleAddr? || Last(p).GpuKernel? || Last(p).OpenMp? ==>
              p[..|p| - 1] in nodes && defs[nodes[p]] == Own(p, nodes[p[..|p| - 1]])
  {
    assert p == p[..|p| - 1] + [Last(p)];
  }

  lemma SnocInjective(p: Path, c: CallingContext, q: Path, d: CallingContext)
    requires p + [c] == q + [d]
    ensures p == q && c == d
  {
    assert p == (p + [c])[..|p|] && q == (q + [d])[..|q|];
    assert c == (p + [c])[|p|] && d == (q + [d])[|q|];
  }

  lemma AddShared(nodes: Refs, registry: map<CallingContext, nat>, defs: seq<Definition>, node: Path, c: CallingContext)
    requires Consistent(nodes, registry, defs) && node + [c] !in nodes && c in registry
    requires node != [] ==> node in nodes
    ensures Consistent(nodes[node + [c] := registry[c]], registry, defs)
  {
    forall q: Path, d | q + [d] == node + [c] ensures q == node && d == c { SnocInjective(q, d, node, c); }
  }

  lemma Register(nodes: Refs, registry: map<CallingContext, nat>, defs: seq<Definition>, c: CallingContext)
    requires Consistent(nodes, registry, defs) && Keyed(c) && c !in registry
    ensures Consistent(nodes, registry[c := |defs|], defs + [Shared(c)])
  {
  }

  lemma AddOwn(nodes: Refs, registry: map<CallingContext, nat>, defs: seq<Definition>, node: Path, c: CallingContext)
    requires Consistent(nodes, registry, defs) && node + [c] !in nodes && !Keyed(c) && node in nodes
    ensures Consistent(nodes[node + [c] := |defs|], registry, defs + [Own(node + [c], nodes[node])])
  {
    forall q: Path, d | q + [d] == node + [c] ensures q == node && d == c { SnocInjective(q, d, node, c); }
  }

  /** PROCESS nodes directly below the root and nowhere else. */
  ghost predicate ProcessesOnTop(local: Refs) {
    forall p: Path, i :: p in local && 0 < i < |p| ==> !p[i].Process?
  }

  /** Every sampled address, GPU kernel, OpenMP region and thread under a process was resolved in
      that process. */
  ghost predicate ResolvedInOwnProcess(nodes: Refs, resolvedIn: map<Path, int>) {
    forall p: Path ::
      (p in nodes && p != [] && p[0].Process?
       && (Last(p).SampleAddr? || Last(p).GpuKernel? || Last(p).OpenMp? || Last(p).Thread?)) ==>
      p in resolvedIn && resolvedIn[p] == p[0].pid
  }

  /** The nodes of `local` strictly below `path` whose branch is no longer to be visited. */
  ghost predicate Visited(local: Refs, path: Path, todo: set<Path>, q: Path) {
    q in local && path < q && q[..|path| + 1] !in todo
  }

  /** What a partly done merge below `path` has changed: exactly the visited nodes are in the
      global tree and the mapping table, and nothing else moved. */
  ghost predicate MergedBelow(local: Refs, path: Path, todo: set<Path>,
                              nodes0: Refs, mapping0: seq<Option<nat>>, nodes: Refs, mapping: seq<Option<nat>>)
  {
    && Grows(nodes0, nodes)
    && (forall q :: q in nodes <==> q in nodes0 || Visited(local, path, todo, q))
    && |mapping| == |mapping0|
    && (forall q :: q in local && q != [] && local[q] < |mapping| ==>
          mapping[local[q]] == if Visited(local, path, todo, q) then Some(RefOf(nodes, q)) else mapping0[local[q]])
  }

  class MergeContext {
    var p: int
    var mapping: seq<Option<nat>>

    /** A process nobody has, and a table of `n` unset entries. */
    constructor (n: nat)
      ensures p == -1 && |mapping| == n && forall i :: 0 <= i < n ==> mapping[i] == None
    {
      p := -1;
      mapping := seq(n, _ => None);
    }
  }

  class Trace {
    var nodes: Refs
    var registry: map<CallingContext, nat>
    var defs: seq<Definition>
    var resolvedIn: map<Path, int>

    ghost predicate Valid()
      reads this
    {
      && Consistent(nodes, registry, defs)
      && resolvedIn.Keys <= nodes.Keys
    }

    /** An empty calling-context tree; the registry may already hold shared definitions. */
    constructor (registry: map<CallingContext, nat>, defs: seq<Definition>)
      requires forall c :: c in registry ==> Keyed(c) && registry[c] < |defs| && defs[registry[c]] == Shared(c)
      ensures Valid() && nodes == map[] && this.registry == registry && this.defs == defs
      ensures ResolvedInOwnProcess(nodes, resolvedIn)
    {
      nodes := map[];
      this.registry := registry;
      this.defs := defs;
      resolvedIn := map[];
    }

    /** The cctx_for_ family: a definition for a node that is not in the tree yet. */
    method AddNode(node: Path, c: CallingContext, p: int)
      requires Valid() && node + [c] !in nodes
      requires node != [] ==> node in nodes
      requires node == [] ==> Keyed(c)
      modifies this
      ensures Valid() && node + [c] in nodes
      ensures nodes == old(nodes)[node + [c] := nodes[node + [c]]]
      ensures resolvedIn == if c.Process? || c.Syscall? then old(resolvedIn) else old(resolvedIn)[node + [c] := p]
      ensures c.SampleAddr? || c.GpuKernel? || c.OpenMp? ==>
                registry == old(registry) && defs == old(defs) + [Own(node + [c], old(nodes)[node])]
      ensures c.Process? || c.Thread? || c.Syscall? ==>
                && registry == old(registry)[c := nodes[node + [c]]]
                && defs == old(defs) + if c in old(registry) then [] else [Shared(c)]
    {
      if Keyed(c) {
        AddSharedNode(node, c);
      } else {
        AddOwnNode(node, c);
      }
      if UsesProcess(c) {
        resolvedIn := resolvedIn[node + [c] := p];
      }
    }

    /** cctx_for_process, cctx_for_thread and cctx_for_syscall: one definition per context. */
    method AddSharedNode(node: Path, c: CallingContext)
      requires Valid() && node + [c] !in nodes && Keyed(c)
      requires node != [] ==> node in nodes
      modifies `nodes, `registry, `defs
      ensures Valid() && c in registry && nodes == old(nodes)[node + [c] := registry[c]]
      ensures registry == old(registry)[c := registry[c]]
      ensures defs == old(defs) + if c in old(registry) then [] else [Shared(c)]
    {
      if c !in registry {
        Register(nodes, registry, defs, c);
        registry := registry[c := |defs|];
        defs := defs + [Shared(c)];
      }
      AddShared(nodes, registry, defs, node, c);
      nodes := nodes[node + [c] := registry[c]];
    }

    /** cctx_for_address, cctx_for_gpu_kernel and cctx_for_openmp: a definition of its own. */
    method AddOwnNode(node: Path, c: CallingContext)
      requires Valid() && node + [c] !in nodes && !Keyed(c) && node in nodes
      modifies `nodes, `defs
      ensures Valid() && nodes == old(nodes)[node + [c] := |old(defs)|]
      ensures defs == old(defs) + [Own(node + [c], old(nodes)[node])]
    {
      AddOwn(nodes, registry, defs, node, c);
      defs := defs + [Own(node + [c], nodes[node])];
      nodes := nodes[node + [c] := |defs| - 1];
    }

    /** merge_nodes: a depth-first walk of the local tree below `path`. The children may come
        in any order; the source visits them in the order of their keys. */
    method MergeNodes(local: Refs, path: Path, ctx: MergeContext, ghost names: seq<Path>, ghost depth: nat)
      requires Valid() && Numbered(local, names) && |names| == |ctx.mapping| && Anchored(local)
      requires path in local && (path != [] ==> path in nodes)
      requires forall q :: q in local ==> |q| <= depth
      requires forall q :: q in local && path < q ==> ctx.mapping[local[q]] == None
      requires ProcessesOnTop(local) && path != [] && path[0].Process? ==> ctx.p == path[0].pid
      modifies this, ctx
      ensures Valid()
      ensures MergedBelow(local, path, {}, old(nodes), old(ctx.mapping), nodes, ctx.mapping)
      ensures ProcessesOnTop(local) && path != [] && path[0].Process? ==> ctx.p == path[0].pid
      ensures ProcessesOnTop(local) && ResolvedInOwnProcess(old(nodes), old(resolvedIn)) ==>
                ResolvedInOwnProcess(nodes, resolvedIn)
      decreases depth - |path|, 1
    {
      var todo := set q | q in local && |q| == |path| + 1 && path < q;
      NothingVisited(local, names, path, todo, nodes, ctx.mapping);
      while todo != {}
        invariant Valid() && |ctx.mapping| == |old(ctx.mapping)|
        invariant forall q :: q in todo ==> q in local && |q| == |path| + 1 && path < q
        invariant MergedBelow(local, path, todo, old(nodes), old(ctx.mapping), nodes, ctx.mapping)
        invariant ProcessesOnTop(local) && path != [] && path[0].Process? ==> ctx.p == path[0].pid
        invariant ProcessesOnTop(local) && ResolvedInOwnProcess(old(nodes), old(resolvedIn)) ==>
                    ResolvedInOwnProcess(nodes, resolvedIn)
        decreases |todo|
      {
        var child :| child in todo;
        MergeBranch(local, path, child, ctx, names, depth, todo, old(nodes), old(ctx.mapping));
        todo := todo - {child};
      }
    }

    /** One round of the walk: a child and everything below it. */
    method MergeBranch(local: Refs, path: Path, child: Path, ctx: MergeContext, ghost names: seq<Path>, ghost depth: nat,
                       ghost todo: set<Path>, ghost nodes0: Refs, ghost mapping0: seq<Option<nat>>)
      requires Valid() && Numbered(local, names) && |names| == |ctx.mapping| && Anchored(local)
      requires child in todo && child in local && |child| == |path| + 1 && path < child && (path != [] ==> path in nodes)
      requires forall q :: q in local ==> |q| <= depth
      requires |mapping0| == |ctx.mapping| && forall q :: q in local && path < q ==> mapping0[local[q]] == None
      requires MergedBelow(local, path, todo, nodes0, mapping0, nodes, ctx.mapping)
      requires ProcessesOnTop(local) && path != [] && path[0].Process? ==> ctx.p == path[0].pid
      modifies this, ctx
      ensures Valid()
      ensures MergedBelow(local, path, todo - {child}, nodes0, mapping0, nodes, ctx.mapping)
      ensures ProcessesOnTop(local) && path != [] && path[0].Process? ==> ctx.p == path[0].pid
      ensures ProcessesOnTop(local) && ResolvedInOwnProcess(old(nodes), old(resolvedIn)) ==>
                ResolvedInOwnProcess(nodes, resolvedIn)
      decreases depth - |path|, 0
    {
      Unvisited(local, names, path, todo, child, nodes0, mapping0, nodes, ctx.mapping);
      MergeChild(local, path, child, ctx, names);
      ghost var nodes2, mapping2 := nodes, ctx.mapping;
      MergeNodes(local, child, ctx, names, depth);
      MergeStep(local, names, path, todo, child, nodes0, mapping0, old(nodes), old(ctx.mapping), nodes2, mapping2,
                nodes, ctx.mapping);
    }

    /** merge_calling_contexts: merges one finalized tree and returns its mapping table. */
    method MergeCallingContexts(r: Recording) returns (mapping: seq<nat>)
      requires Valid() && r.count > 0 && Mergeable(r)
      modifies this
      ensures Valid() && Grows(old(nodes), nodes)
      ensures nodes.Keys == old(nodes).Keys + (r.tree.Keys - {[]})
      ensures |mapping| == r.count && MapsTo(r.tree, mapping, nodes)
      ensures ProcessesOnTop(r.tree) && ResolvedInOwnProcess(old(nodes), old(resolvedIn)) ==>
                ResolvedInOwnProcess(nodes, resolvedIn)
    {
      var ctx := new MergeContext(r.count);
      ghost var depth := Deepest(r.tree.Keys);
      ghost var unset := ctx.mapping;
      ghost var names :| |names| == r.count && Numbered(r.tree, names);
      MergeNodes(r.tree, [], ctx, names, depth);
      AllMapped(r.tree, names, old(nodes), unset, nodes, ctx.mapping);
      var table := ctx.mapping;
      mapping := seq(|table|, i requires 0 <= i < |table| && table[i].Some? => table[i].value);
    }

    /** One round of the tree loop of finalize. */
    method FinalizeTree(r: Recording) returns (mapping: Option<seq<nat>>)
      requires Valid() && Mergeable(r)
      modifies this
      ensures Valid() && Grows(old(nodes), nodes)
      ensures nodes.Keys == old(nodes).Keys + Published(r)
      ensures Mapped(r, mapping, nodes)
      ensures ProcessesOnTop(r.tree) && ResolvedInOwnProcess(old(nodes), old(resolvedIn)) ==>
                ResolvedInOwnProcess(nodes, resolvedIn)
    {
      mapping := None;
      if r.count > 0 {
        var table := MergeCallingContexts(r);
        mapping := Some(table);
      }
    }

    /** The tree loop of finalize. */
    method Finalize(trees: seq<Recording>) returns (mappings: seq<Option<seq<nat>>>)
      requires Valid() && AllMergeable(trees)
      modifies this
      ensures Valid() && Finalized(trees, old(nodes), nodes, mappings)
      ensures AllProcessesOnTop(trees) && ResolvedInOwnProcess(old(nodes), old(resolvedIn)) ==>
                ResolvedInOwnProcess(nodes, resolvedIn)
    {
      mappings := [];
      for i := 0 to |trees|
        invariant Valid() && Finalized(trees[..i], old(nodes), nodes, mappings)
        invariant AllProcessesOnTop(trees) && ResolvedInOwnProcess(old(nodes), old(resolvedIn)) ==>
                    ResolvedInOwnProcess(nodes, resolvedIn)
      {
        ghost var before := nodes;
        var mapping := FinalizeTree(trees[i]);
        FinalizeOneMore(trees, i, old(nodes), before, nodes, mappings, mapping);
        mappings := mappings + [mapping];
      }
      assert trees[..|trees|] == trees;
    }

    /** The body of the walk for one child, before the descent. */
    method MergeChild(local: Refs, path: Path, child: Path, ctx: MergeContext, ghost names: seq<Path>)
      requires Valid() && Numbered(local, names) && |names| == |ctx.mapping| && Anchored(local)
      requires child in local && path < child && |child| == |path| + 1 && (path != [] ==> path in nodes)
      requires ctx.mapping[local[child]] == None
      requires ProcessesOnTop(local) && path != [] && path[0].Process? ==> ctx.p == path[0].pid
      modifies this, ctx
      ensures Valid() && Grows(old(nodes), nodes) && nodes.Keys == old(nodes).Keys + {child}
      ensures ctx.mapping == old(ctx.mapping)[local[child] := Some(nodes[child])]
      ensures ProcessesOnTop(local) && child[0].Process? ==> ctx.p == child[0].pid
      ensures ProcessesOnTop(local) && ResolvedInOwnProcess(old(nodes), old(resolvedIn)) ==>
                ResolvedInOwnProcess(nodes, resolvedIn)
    {
      var c := child[|path|];
      assert child == path + [c];
      assert path != [] ==> child[0] == path[0];
      if child !in nodes {
        AddNode(path, c, ctx.p);
      }
      ctx.mapping := ctx.mapping[local[child] := Some(nodes[child])];
      if c.Process? {
        ctx.p := c.pid;
      }
    }
  }

  /** The mapping table sends every local number to the definition of the same path. */
  ghost predicate MapsTo(local: Refs, mapping: seq<nat>, nodes: Refs) {
    forall q :: q in local && q != [] ==>
      local[q] < |mapping| && q in nodes && mapping[local[q]] == nodes[q]
  }

  /** Nothing is merged before finalize; afterwards the tree has to be one that can be. */
  ghost predicate Mergeable(r: Recording) {
    r.count > 0 ==> Anchored(r.tree) && exists names :: |names| == r.count && Numbered(r.tree, names)
  }

  /** The paths a finalized tree contributes. */
  function Published(r: Recording): set<Path> {
    if r.count > 0 then r.tree.Keys - {[]} else {}
  }

  /** What all trees contribute together. */
  function AllPublished(trees: seq<Recording>): set<Path> {
    if trees == [] then {}
    else AllPublished(trees[..|trees| - 1]) + Published(trees[|trees| - 1])
  }

  lemma {:induction false} PublishedBySome(trees: seq<Recording>, p: Path)
    ensures p in AllPublished(trees) <==> exists r :: r in trees && p in Published(r)
  {
    if trees != [] {
      var n := |trees| - 1;
      PublishedBySome(trees[..n], p);
      assert trees == trees[..n] + [trees[n]];
    }
  }

  /** The paths of the global tree do not depend on the order the local trees are merged in. */
  lemma MergeOrderIsIrrelevant(a: seq<Recording>, b: seq<Recording>)
    requires multiset(a) == multiset(b)
    ensures AllPublished(a) == AllPublished(b)
  {
    forall r ensures r in a <==> r in b { assert r in multiset(a) <==> r in multiset(b); }
    forall p ensures p in AllPublished(a) <==> p in AllPublished(b) {
      PublishedBySome(a, p);
      PublishedBySome(b, p);
    }
  }

  /** A tree with nodes gets a complete mapping table into the global tree, any other none. */
  ghost predicate Mapped(r: Recording, mapping: Option<seq<nat>>, nodes: Refs) {
    if r.count == 0 then mapping == None
    else mapping.Some? && |mapping.value| == r.count && MapsTo(r.tree, mapping.value, nodes)
  }

  /** What merging a list of trees one after the other has done: existing nodes stay as they
      are, the paths are the union, and every table is right for the tree as it is now. */
  ghost predicate Finalized(trees: seq<Recording>, nodes0: Refs, nodes: Refs, mappings: seq<Option<seq<nat>>>) {
    && Grows(nodes0, nodes)
    && nodes.Keys == nodes0.Keys + AllPublished(trees)
    && |mappings| == |trees|
    && forall i :: 0 <= i < |trees| ==> Mapped(trees[i], mappings[i], nodes)
  }

  lemma PublishOne(trees: seq<Recording>, i: nat)
    requires i < |trees|
    ensures AllPublished(trees[..i + 1]) == AllPublished(trees[..i]) + Published(trees[i])
  {
    assert trees[..i + 1][..i] == trees[..i];
  }

  lemma FinalizeOneMore(trees: seq<Recording>, i: nat, nodes0: Refs, nodes1: Refs, nodes2: Refs,
                        mappings: seq<Option<seq<nat>>>, mapping: Option<seq<nat>>)
    requires i < |trees| && Finalized(trees[..i], nodes0, nodes1, mappings)
    requires Grows(nodes1, nodes2) && nodes2.Keys == nodes1.Keys + Published(trees[i]) && Mapped(trees[i], mapping, nodes2)
    ensures Finalized(trees[..i + 1], nodes0, nodes2, mappings + [mapping])
  {
    PublishOne(trees, i);
    forall j | 0 <= j < i ensures Mapped(trees[j], mappings[j], nodes2) {
      assert Mapped(trees[..i][j], mappings[j], nodes1);
    }
  }

  ghost predicate AllMergeable(trees: seq<Recording>) {
    forall i :: 0 <= i < |trees| ==> Mergeable(trees[i])
  }

  ghost predicate AllProcessesOnTop(trees: seq<Recording>) {
    forall i :: 0 <= i < |trees| ==> ProcessesOnTop(trees[i].tree)
  }

  lemma Deepest(s: set<Path>) returns (depth: nat)
    ensures forall q :: q in s ==> |q| <= depth
  {
    if s == {} {
      depth := 0;
    } else {
      var q :| q in s;
      depth := Deepest(s - {q});
      depth := if depth < |q| then |q| else depth;
    }
  }

  /** Every number in the mapping table is set once the whole tree is merged. */
  lemma AllMapped(local: Refs, names: seq<Path>, nodes0: Refs, mapping0: seq<Option<nat>>, nodes: Refs, mapping: seq<Option<nat>>)
    requires Numbered(local, names) && |names| == |mapping0|
    requires MergedBelow(local, [], {}, nodes0, mapping0, nodes, mapping)
    ensures forall r :: 0 <= r < |mapping| ==> mapping[r].Some?
    ensures forall q :: q in local && q != [] ==> q in nodes && mapping[local[q]] == Some(nodes[q])
    ensures nodes.Keys == nodes0.Keys + (local.Keys - {[]})
  {
    forall q | q in local && q != [] ensures Visited(local, [], {}, q) { assert [] < q; }
    forall r | 0 <= r < |mapping| ensures mapping[r].Some? { assert names[r] in local; }
  }

  /** A branch still to be visited is untouched in the mapping table. */
  lemma Unvisited(local: Refs, names: seq<Path>, path: Path, todo: set<Path>, child: Path,
                  nodes0: Refs, mapping0: seq<Option<nat>>, nodes: Refs, mapping: seq<Option<nat>>)
    requires MergedBelow(local, path, todo, nodes0, mapping0, nodes, mapping)
    requires Numbered(local, names) && |names| == |mapping| && child in todo && |child| == |path| + 1 && path < child
    requires forall q :: q in local && path < q ==> mapping0[local[q]] == None
    ensures forall q :: q in local && child <= q ==> mapping[local[q]] == None
  {
    forall q | q in local && child <= q ensures mapping[local[q]] == None {
      assert q[..|path| + 1] == child;
      assert path < q;
      assert !Visited(local, path, todo, q);
    }
  }

  lemma MergeStep(local: Refs, names: seq<Path>, path: Path, todo: set<Path>, child: Path,
                  nodes0: Refs, mapping0: seq<Option<nat>>, nodes1: Refs, mapping1: seq<Option<nat>>,
                  nodes2: Refs, mapping2: seq<Option<nat>>, nodes3: Refs, mapping3: seq<Option<nat>>)
    requires Numbered(local, names) && |names| == |mapping0| && child in local && child in todo && |child| == |path| + 1 && path < child
    requires MergedBelow(local, path, todo, nodes0, mapping0, nodes1, mapping1)
    requires Grows(nodes1, nodes2) && nodes2.Keys == nodes1.Keys + {child}
    requires mapping2 == mapping1[local[child] := Some(nodes2[child])]
    requires MergedBelow(local, child, {}, nodes2, mapping2, nodes3, mapping3)
    ensures MergedBelow(local, path, todo - {child}, nodes0, mapping0, nodes3, mapping3)
  {
    forall q ensures Visited(local, path, todo - {child}, q)
        <==> Visited(local, path, todo, q) || q == child || Visited(local, child, {}, q) {
      if q in local && path < q { assert q[..|path| + 1] == child <==> child <= q; }
      if child < q { assert path < q; }
    }
    forall q | q in local && q != [] && local[q] < |mapping3|
      ensures mapping3[local[q]] ==
        if Visited(local, path, todo - {child}, q) then Some(RefOf(nodes3, q)) else mapping0[local[q]]
    {
      if q != child { assert local[q] != local[child]; }
      if Visited(local, path, todo, q) { assert q in nodes1; }
    }
  }

  lemma NothingVisited(local: Refs, names: seq<Path>, path: Path, todo: set<Path>, nodes: Refs, mapping: seq<Option<nat>>)
    requires Numbered(local, names) && |names| == |mapping|
    requires todo == set q | q in local && |q| == |path| + 1 && path < q
    ensures MergedBelow(local, path, todo, nodes, mapping, nodes, mapping)
  {
    forall q ensures !Visited(local, path, todo, q) {
      if q in local && path < q {
        PrefixInTree(local, names, q, |path| + 1);
        assert path < q[..|path| + 1];
      }
    }
  }

  // ---- End to end ---------------------------------------------------------------------

  /** Reading a local stream through its mapping table, as a consumer of the trace does. */
  function Translate(mapping: seq<nat>, e: Event<nat>): Event<nat> {
    if NamesNode(e) && e.node < |mapping| then e.(node := mapping[e.node]) else e
  }

  function TranslateAll(mapping: seq<nat>, es: seq<Event<nat>>): (r: seq<Event<nat>>)
    ensures |r| == |es|
  {
    seq(|es|, i requires 0 <= i < |es| => Translate(mapping, es[i]))
  }

  ghost predicate BelowRoot(es: seq<Event<Path>>) {
    forall i :: 0 <= i < |es| && NamesNode(es[i]) ==> es[i].node != []
  }

  /** Every event but those for the root itself carries the definition the global tree holds at
      exactly the path it was written for. */
  ghost predicate ReadsAs(stream: seq<Event<nat>>, nodes: Refs, trace: seq<Event<Path>>) {
    && |stream| == |trace|
    && forall i :: 0 <= i < |trace| && !(NamesNode(trace[i]) && trace[i].node == []) ==>
         stream[i] == Resolve(nodes, trace[i])
  }

  /** The translated stream is the reference trace with every path replaced by the definition
      the global tree holds at exactly that path, for every event below the root. */
  lemma TranslationIsFaithful(local: Refs, mapping: seq<nat>, nodes: Refs, trace: seq<Event<Path>>)
    requires Covers(local, trace) && MapsTo(local, mapping, nodes)
    ensures ReadsAs(TranslateAll(mapping, ResolveAll(local, trace)), nodes, trace)
    ensures BelowRoot(trace) ==> TranslateAll(mapping, ResolveAll(local, trace)) == ResolveAll(nodes, trace)
  {
    forall i | 0 <= i < |trace| && !(NamesNode(trace[i]) && trace[i].node == [])
      ensures Translate(mapping, Resolve(local, trace[i])) == Resolve(nodes, trace[i])
    {
      if NamesNode(trace[i]) {
        assert trace[i].node in local && trace[i].node != [];
      }
    }
  }

  /** The root has the number of the first node, so an event for the root itself would be
      read as one for that node. */
  lemma RootIsReadAsFirstNode(local: Refs, names: seq<Path>, mapping: seq<nat>, nodes: Refs, tp: Time, d: nat)
    requires Numbered(local, names) && names != [] && MapsTo(local, mapping, nodes)
    ensures names[0] in nodes
    ensures Translate(mapping, Resolve(local, CctxSample(tp, [], d))) == CctxSample(tp, nodes[names[0]], d)
  {
    assert names[0] in local;
  }

  lemma {:induction false} EnterNamesNoRoot(differs: Comparison, m: Machine, tp: Time, level: nat, cs: seq<CallingContext>)
    requires 0 < level <= |m.stack| + 1
    ensures BelowRoot(Enter(differs, m, tp, level, cs).trace) <==> BelowRoot(m.trace)
    decreases |cs|
  {
    if cs != [] {
      var m1 := EnterNode(differs, m, tp, level, cs[0]);
      LeaveNamesNoRoot(m, tp, level);
      AppendBelowRoot(m.trace, [CctxEnter(tp, m.stack + [cs[0]])]);
      var low := Leave(m, tp, level);
      AppendBelowRoot(low.trace, [CctxEnter(tp, low.stack + [cs[0]])]);
      EnterNamesNoRoot(differs, m1, tp, level + 1, cs[1..]);
    }
  }

  lemma AppendBelowRoot(a: seq<Event<Path>>, b: seq<Event<Path>>)
    ensures BelowRoot(a + b) <==> BelowRoot(a) && BelowRoot(b)
  {
    if BelowRoot(a + b) {
      forall i | 0 <= i < |a| && NamesNode(a[i]) ensures a[i].node != [] { assert (a + b)[i] == a[i]; }
      forall i | 0 <= i < |b| && NamesNode(b[i]) ensures b[i].node != [] { assert (a + b)[|a| + i] == b[i]; }
    }
  }

  lemma LeaveNamesNoRoot(m: Machine, tp: Time, level: nat)
    ensures BelowRoot(Leave(m, tp, level).trace) <==> BelowRoot(m.trace)
  {
    if level != 0 && level <= |m.stack| { AppendBelowRoot(m.trace, Leaves(tp, m.stack, level - 1)); }
  }

  /** A call chain without an address, sampled while nothing is entered. */
  predicate SamplesRoot(m: Machine, op: Op) {
    op.SampleChain? && m.stack == [] && Frames(op.ips) == []
  }

  predicate SomeSamplesRoot(differs: Comparison, m: Machine, ops: seq<Op>)
    requires ValidRun(differs, m, ops)
    decreases |ops|
  {
    ops != [] && (SamplesRoot(m, ops[0]) || SomeSamplesRoot(differs, Step(differs, m, ops[0]), ops[1..]))
  }

  lemma StepNamesRootExactlyWhen(differs: Comparison, m: Machine, op: Op)
    requires ValidOp(m, op)
    ensures BelowRoot(Step(differs, m, op).trace) <==> BelowRoot(m.trace) && !SamplesRoot(m, op)
  {
    match op
    case EnterAt(tp, level, cs) => EnterNamesNoRoot(differs, m, tp, level, cs);
    case EnterBelow(tp, cs) => EnterNamesNoRoot(differs, m, tp, |m.stack| + 1, cs);
    case LeaveAt(tp, level) => LeaveNamesNoRoot(m, tp, level);
    case LeaveTop(tp) => LeaveNamesNoRoot(m, tp, |m.stack|);
    case SampleIp(tp, ip) => AppendBelowRoot(m.trace, [CctxSample(tp, m.stack + [SampleAddr(ip)], 2)]);
    case SampleChain(tp, ips) =>
      var e := CctxSample(tp, m.stack + Frames(ips), |ips|);
      AppendBelowRoot(m.trace, [e]);
      assert [e][0] == e;
  }

  /** A run never writes an event for the root exactly if it samples no call chain without an
      address while nothing is entered. */
  lemma {:induction false} NamesRootExactlyWhen(differs: Comparison, m: Machine, ops: seq<Op>)
    requires ValidRun(differs, m, ops)
    ensures BelowRoot(Run(differs, m, ops).trace) <==> BelowRoot(m.trace) && !SomeSamplesRoot(differs, m, ops)
    decreases |ops|
  {
    if ops != [] {
      StepNamesRootExactlyWhen(differs, m, ops[0]);
      NamesRootExactlyWhen(differs, Step(differs, m, ops[0]), ops[1..]);
    }
  }

  const ROOT_RUN: seq<Op> := [EnterAt(0, 1, [Process(1)]), LeaveAt(1, 1), SampleChain(2, [7])]

  lemma RunOfThree(differs: Comparison, m: Machine, a: Op, b: Op, c: Op)
    requires ValidOp(m, a) && ValidOp(Step(differs, m, a), b) && ValidOp(Step(differs, Step(differs, m, a), b), c)
    ensures var ops, m1 := [a, b, c], Step(differs, m, a);
            var m2 := Step(differs, m1, b);
            && ValidRun(differs, m, ops) && Run(differs, m, ops) == Step(differs, m2, c)
            && (AnchoredRun(differs, m, ops) <==> AnchoredOp(m, a) && AnchoredOp(m1, b) && AnchoredOp(m2, c))
            && (SomeSamplesRoot(differs, m, ops) <==> SamplesRoot(m, a) || SamplesRoot(m1, b) || SamplesRoot(m2, c))
  {
    var m1 := Step(differs, m, a);
    var m2 := Step(differs, m1, b);
    assert [a, b, c][1..] == [b, c] && [b, c][1..] == [c] && [c][1..] == [];
    var m3 := Step(differs, m2, c);
    assert ValidRun(differs, m3, []) && Run(differs, m3, []) == m3;
    assert ValidRun(differs, m2, [c]) && Run(differs, m2, [c]) == m3;
    assert ValidRun(differs, m1, [b, c]) && Run(differs, m1, [b, c]) == Step(differs, m2, c);
    assert AnchoredRun(differs, m2, [c]) <==> AnchoredOp(m2, c);
    assert AnchoredRun(differs, m1, [b, c]) <==> AnchoredOp(m1, b) && AnchoredOp(m2, c);
    assert SomeSamplesRoot(differs, m2, [c]) <==> SamplesRoot(m2, c);
    assert SomeSamplesRoot(differs, m1, [b, c]) <==> SamplesRoot(m1, b) || SamplesRoot(m2, c);
  }

  /** It can happen: a process is entered and left, and a call chain of one entry sampled. */
  lemma RootRunSamplesRoot(differs: Comparison)
    ensures ValidRun(differs, START, ROOT_RUN) && AnchoredRun(differs, START, ROOT_RUN)
    ensures SomeSamplesRoot(differs, START, ROOT_RUN)
    ensures Run(differs, START, ROOT_RUN).trace
         == [CctxEnter(0, [Process(1)]), CctxLeave(1, [Process(1)]), CctxSample(2, [], 1)]
  {
    var node := [Process(1)];
    var m1 := Machine(node, [CctxEnter(0, node)]);
    assert [] + node == node && node[1..] == [] && node[..1] == node;
    assert Step(differs, START, ROOT_RUN[0]) == m1;
    var m2 := Machine([], [CctxEnter(0, node), CctxLeave(1, node)]);
    assert Leaves(1, node, 0) == [CctxLeave(1, node)];
    assert Step(differs, m1, ROOT_RUN[1]) == m2;
    assert ROOT_RUN[2] == SampleChain(2, [7]) && Frames([7]) == [] && m2.stack + Frames([7]) == [];
    assert Step(differs, m2, ROOT_RUN[2]).trace == m2.trace + [CctxSample(2, [], 1)];
    RunOfThree(differs, START, ROOT_RUN[0], ROOT_RUN[1], ROOT_RUN[2]);
  }

  /** The sample of that run is read as one in the node numbered first, in any tree it could be
      recorded in. */
  lemma RootSampleIsMisread(differs: Comparison, r: Recording, names: seq<Path>, mapping: seq<nat>, nodes: Refs)
    requires ValidRun(differs, START, ROOT_RUN) && Records(r, Run(differs, START, ROOT_RUN).trace)
    requires Numbered(r.tree, names) && MapsTo(r.tree, mapping, nodes)
    ensures names != [] && names[0] in nodes && |r.events| == 3
    ensures Translate(mapping, r.events[2]) == CctxSample(2, nodes[names[0]], 1)
  {
    RootRunSamplesRoot(differs);
    var trace := Run(differs, START, ROOT_RUN).trace;
    assert NamesNode(trace[0]) && trace[0].node == [Process(1)];
    assert [Process(1)] in r.tree;
    assert names != [];
    RootIsReadAsFirstNode(r.tree, names, mapping, nodes, 2, 1);
    assert r.events[2] == Resolve(r.tree, trace[2]);
  }

  /** A recording as a reader of the trace sees it, through the mapping table of a merge. */
  function Translated(r: Recording, mapping: Option<seq<nat>>): seq<Event<nat>> {
    TranslateAll(if mapping.Some? then mapping.value else [], r.events)
  }

  lemma ReadsAsReference(r: Recording, mapping: Option<seq<nat>>, nodes: Refs, trace: seq<Event<Path>>)
    requires Records(r, trace) && Mapped(r, mapping, nodes)
    ensures ReadsAs(Translated(r, mapping), nodes, trace)
    ensures BelowRoot(trace) ==> Translated(r, mapping) == ResolveAll(nodes, trace)
  {
    var table := if mapping.Some? then mapping.value else [];
    TranslationIsFaithful(r.tree, table, nodes, trace);
  }

  /** The run ends up as the stream: event by event below the root, and as a whole if it does not
      sample the root. */
  ghost predicate RunReadsAs(differs: Comparison, ops: seq<Op>, stream: seq<Event<nat>>, nodes: Refs)
    requires ValidRun(differs, START, ops)
  {
    var trace := Run(differs, START, ops).trace;
    && ReadsAs(stream, nodes, trace)
    && (!SomeSamplesRoot(differs, START, ops) ==> stream == ResolveAll(nodes, trace))
  }

  lemma RunReads(differs: Comparison, ops: seq<Op>, r: Recording, mapping: Option<seq<nat>>, nodes: Refs)
    requires ValidRun(differs, START, ops) && Records(r, Run(differs, START, ops).trace) && Mapped(r, mapping, nodes)
    ensures RunReadsAs(differs, ops, Translated(r, mapping), nodes)
  {
    ReadsAsReference(r, mapping, nodes, Run(differs, START, ops).trace);
    NamesRootExactlyWhen(differs, START, ops);
  }

  lemma RunsRead(differs: Comparison, runs: seq<seq<Op>>, trees: seq<Recording>, mappings: seq<Option<seq<nat>>>, nodes: Refs)
    requires |trees| == |runs| == |mappings| && forall k :: 0 <= k < |runs| ==> ValidRun(differs, START, runs[k])
    requires forall k :: 0 <= k < |runs| ==> Records(trees[k], Run(differs, START, runs[k]).trace)
    requires forall k :: 0 <= k < |runs| ==> Mapped(trees[k], mappings[k], nodes)
    ensures forall k :: 0 <= k < |runs| ==> RunReadsAs(differs, runs[k], Translated(trees[k], mappings[k]), nodes)
  {
    forall k | 0 <= k < |runs| ensures RunReadsAs(differs, runs[k], Translated(trees[k], mappings[k]), nodes) {
      RunReads(differs, runs[k], trees[k], mappings[k], nodes);
    }
  }

  /** Any number of recordings, merged into one global tree: every stream a reader sees is the
      reference trace of its run, each path replaced by the definition found at that path. */
  method TraceAll(differs: Comparison, runs: seq<seq<Op>>, trace: Trace) returns (streams: seq<seq<Event<nat>>>)
    requires trace.Valid()
    requires forall k :: 0 <= k < |runs| ==>
               ValidRun(differs, START, runs[k]) && AnchoredRun(differs, START, runs[k])
    modifies trace
    ensures trace.Valid() && Grows(old(trace.nodes), trace.nodes)
    ensures |streams| == |runs| && forall k :: 0 <= k < |runs| ==> RunReadsAs(differs, runs[k], streams[k], trace.nodes)
  {
    var trees := RecordAll(differs, runs);
    var mappings := trace.Finalize(trees);
    RunsRead(differs, runs, trees, mappings, trace.nodes);
    streams := seq(|runs|, k requires 0 <= k < |runs| => Translated(trees[k], mappings[k]));
  }

  method RecordAll(differs: Comparison, runs: seq<seq<Op>>) returns (trees: seq<Recording>)
    requires forall k :: 0 <= k < |runs| ==>
               ValidRun(differs, START, runs[k]) && AnchoredRun(differs, START, runs[k])
    ensures |trees| == |runs| && AllMergeable(trees)
    ensures forall k :: 0 <= k < |runs| ==> Records(trees[k], Run(differs, START, runs[k]).trace)
  {
    trees := [];
    for k := 0 to |runs|
      invariant |trees| == k && AllMergeable(trees)
      invariant forall j :: 0 <= j < k ==> Records(trees[j], Run(differs, START, runs[j]).trace)
    {
      var r := Record(differs, runs[k]);
      trees := trees + [r];
    }
  }
}
