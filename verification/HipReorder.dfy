/** The HIP reorder buffer (src/hip/lib.cpp): a heap of at most 100 kernels per callback that
    releases the earliest start first, and drops what starts before the last released end. */
module HipReorder {

  /** kernel_cache. */
  datatype Kernel = Kernel(id: nat, start: nat, end: nat)

  /** A buffer record; only kernel dispatches are of interest. */
  datatype Header = Header(dispatch: bool, id: nat, start: nat, end: nat)

  const U64 := 0x1_0000_0000_0000_0000
  const HEAP_SIZE := 100

  /** The clock offset is subtracted in 64 bits. */
  function Shifted(h: Header, offset: int): Kernel {
    Kernel(h.id, (h.start - offset) % U64, (h.end - offset) % U64)
  }

  /** The kernels of a callback in order of arrival. */
  function Arrivals(hs: seq<Header>, offset: int): seq<Kernel> {
    if hs == [] then []
    else
      var n := |hs| - 1;
      Arrivals(hs[..n], offset) + if hs[n].dispatch then [Shifted(hs[n], offset)] else []
  }

  /** x is y in 64 bits, and y itself where y fits. */
  predicate Wraps(x: nat, y: int) {
    x < 0x1_0000_0000_0000_0000 && (x - y) % 0x1_0000_0000_0000_0000 == 0 && (0 <= y < 0x1_0000_0000_0000_0000 ==> x == y)
  }

  lemma RemainderWraps(y: int)
    ensures Wraps(y % 0x1_0000_0000_0000_0000, y)
  {
    var m := 0x1_0000_0000_0000_0000;
    assert y % m - y == m * -(y / m);
  }

  /** The kernel is this dispatch, its times moved back by the offset. */
  predicate FromHeader(k: Kernel, h: Header, offset: int) {
    h.dispatch && k.id == h.id && Wraps(k.start, h.start - offset) && Wraps(k.end, h.end - offset)
  }

  /** The positions of the dispatches. */
  function DispatchAt(hs: seq<Header>): seq<nat> {
    if hs == [] then []
    else
      var n := |hs| - 1;
      DispatchAt(hs[..n]) + if hs[n].dispatch then [n] else []
  }

  lemma {:induction false} DispatchAscend(hs: seq<Header>)
    ensures forall k :: 0 <= k < |DispatchAt(hs)| ==> DispatchAt(hs)[k] < |hs|
    ensures forall k, l :: 0 <= k < l < |DispatchAt(hs)| ==> DispatchAt(hs)[k] < DispatchAt(hs)[l]
  {
    if hs != [] { DispatchAscend(hs[..|hs| - 1]); }
  }

  lemma {:induction false} DispatchExactlyWhen(hs: seq<Header>, j: nat)
    requires j < |hs|
    ensures j in DispatchAt(hs) <==> hs[j].dispatch
    decreases |hs|
  {
    var n := |hs| - 1;
    DispatchAscend(hs[..n]);
    if j < n { DispatchExactlyWhen(hs[..n], j); }
  }

  lemma {:induction false} ArrivalCount(hs: seq<Header>, offset: int)
    ensures |Arrivals(hs, offset)| == |DispatchAt(hs)|
  {
    if hs != [] { ArrivalCount(hs[..|hs| - 1], offset); }
  }

  lemma {:induction false} ArrivalAt(hs: seq<Header>, offset: int, k: nat)
    requires k < |DispatchAt(hs)|
    ensures |Arrivals(hs, offset)| == |DispatchAt(hs)| && DispatchAt(hs)[k] < |hs|
    ensures FromHeader(Arrivals(hs, offset)[k], hs[DispatchAt(hs)[k]], offset)
  {
    var n := |hs| - 1;
    ArrivalCount(hs, offset);
    ArrivalCount(hs[..n], offset);
    DispatchAscend(hs);
    if k < |DispatchAt(hs[..n])| {
      ArrivalAt(hs[..n], offset, k);
    } else {
      ShiftedIsFrom(hs[n], offset);
    }
  }

  lemma ShiftedIsFrom(h: Header, offset: int)
    requires h.dispatch
    ensures FromHeader(Shifted(h, offset), h, offset)
  {
    RemainderWraps(h.start - offset);
    RemainderWraps(h.end - offset);
  }

  /** Every dispatch of a callback arrives, once, in order, and nothing else does. */
  lemma ArrivalsAreDispatches(hs: seq<Header>, offset: int) returns (js: seq<nat>)
    ensures |js| == |Arrivals(hs, offset)|
    ensures forall k :: 0 <= k < |js| ==> js[k] < |hs| && FromHeader(Arrivals(hs, offset)[k], hs[js[k]], offset)
    ensures forall k, l :: 0 <= k < l < |js| ==> js[k] < js[l]
    ensures forall j :: 0 <= j < |hs| ==> (hs[j].dispatch <==> j in js)
  {
    js := DispatchAt(hs);
    DispatchAscend(hs);
    ArrivalCount(hs, offset);
    forall k | 0 <= k < |js| ensures FromHeader(Arrivals(hs, offset)[k], hs[js[k]], offset) { ArrivalAt(hs, offset, k); }
    forall j | 0 <= j < |hs| ensures hs[j].dispatch <==> j in js { DispatchExactlyWhen(hs, j); }
  }

  // ---- Releasing ----------------------------------------------------------------------

  datatype Output = Output(last: nat, emitted: seq<Kernel>, dropped: seq<Kernel>)

  function Release(o: Output, k: Kernel): Output {
    if k.start >= o.last then Output(k.end, o.emitted + [k], o.dropped)
    else o.(dropped := o.dropped + [k])
  }

  function ReleaseAll(o: Output, ks: seq<Kernel>): Output {
    if ks == [] then o else Release(ReleaseAll(o, ks[..|ks| - 1]), ks[|ks| - 1])
  }

  /** No emitted kernel starts before the one emitted just before it ended. */
  ghost predicate Disjoint(o: Output) {
    && (o.emitted != [] ==> o.last == o.emitted[|o.emitted| - 1].end)
    && forall i :: 0 < i < |o.emitted| ==> o.emitted[i - 1].end <= o.emitted[i].start
  }

  lemma {:induction false} ReleaseKeepsDisjoint(o: Output, ks: seq<Kernel>)
    requires Disjoint(o)
    ensures Disjoint(ReleaseAll(o, ks))
  {
    if ks != [] { ReleaseKeepsDisjoint(o, ks[..|ks| - 1]); }
  }

  ghost function Handled(o: Output): multiset<Kernel> {
    multiset(o.emitted) + multiset(o.dropped)
  }

  lemma HandlesOne(o: Output, k: Kernel)
    ensures Handled(Release(o, k)) == Handled(o) + multiset{k}
  {
    assert multiset(o.emitted + [k]) == multiset(o.emitted) + multiset{k};
    assert multiset(o.dropped + [k]) == multiset(o.dropped) + multiset{k};
  }

  /** Every kernel received is either emitted or dropped, once. */
  lemma {:induction false} NothingGetsLost(o: Output, ks: seq<Kernel>)
    ensures Handled(ReleaseAll(o, ks)) == Handled(o) + multiset(ks)
  {
    if ks != [] {
      var n := |ks| - 1;
      NothingGetsLost(o, ks[..n]);
      HandlesOne(ReleaseAll(o, ks[..n]), ks[n]);
      assert ks == ks[..n] + [ks[n]];
    }
  }

  ghost predicate Ascending(ks: seq<Kernel>) {
    forall i, j :: 0 <= i < j < |ks| ==> ks[i].start <= ks[j].start
  }

  /** Kernels that each take time and do not overlap. */
  ghost predicate Separate(ks: seq<Kernel>) {
    && (forall i :: 0 <= i < |ks| ==> ks[i].start < ks[i].end)
    && forall i, j :: 0 <= i < j < |ks| ==> ks[i].end <= ks[j].start || ks[j].end <= ks[i].start
  }

  /** Released in ascending order, separate kernels not before the last timestamp all get out. */
  lemma {:induction false} AscendingDropsNothing(o: Output, ks: seq<Kernel>)
    requires Ascending(ks) && Separate(ks) && forall i :: 0 <= i < |ks| ==> o.last <= ks[i].start
    ensures ReleaseAll(o, ks).emitted == o.emitted + ks && ReleaseAll(o, ks).dropped == o.dropped
    ensures ks != [] ==> ReleaseAll(o, ks).last == ks[|ks| - 1].end
  {
    if ks != [] {
      var n := |ks| - 1;
      AscendingDropsNothing(o, ks[..n]);
      assert o.emitted + ks == o.emitted + ks[..n] + [ks[n]];
      assert n > 0 ==> ks[n - 1].end <= ks[n].start;
    }
  }

  // ---- The order of release -----------------------------------------------------------

  /** Release number k happens when k + 100 kernels have arrived, or all: it takes one that was
      not taken before, and none that starts later than another such one. */
  ghost predicate ReleasedAt(ks: seq<Kernel>, order: seq<nat>, k: nat)
    requires k < |order|
  {
    && order[k] < |ks| && order[k] < k + HEAP_SIZE && order[k] !in order[..k]
    && forall i :: 0 <= i < |ks| && i < k + HEAP_SIZE && i !in order[..k] ==> ks[order[k]].start <= ks[i].start
  }

  ghost predicate ReleaseOrder(ks: seq<Kernel>, order: seq<nat>) {
    forall k :: 0 <= k < |order| ==> ReleasedAt(ks, order, k)
  }

  /** The released kernels. */
  function Pick(ks: seq<Kernel>, order: seq<nat>): seq<Kernel>
    requires forall k :: 0 <= k < |order| ==> order[k] < |ks|
  {
    seq(|order|, k requires 0 <= k < |order| => ks[order[k]])
  }

  /** The earlier arrivals that start later than arrival j. */
  ghost function Overtaken(ks: seq<Kernel>, j: nat): set<nat>
    requires j < |ks|
  {
    set i | 0 <= i < j && ks[i].start > ks[j].start
  }

  // ---- Counting -----------------------------------------------------------------------

  function Below(n: nat): (s: set<nat>)
    ensures forall i :: i in s <==> 0 <= i < n
    ensures |s| == n
  {
    if n == 0 then {} else Below(n - 1) + {n - 1}
  }

  function Elements(order: seq<nat>): (s: set<nat>)
    ensures forall x :: x in s <==> x in order
  {
    if order == [] then {} else Elements(order[..|order| - 1]) + {order[|order| - 1]}
  }

  lemma {:induction false} DistinctCount(order: seq<nat>)
    requires forall k :: 0 <= k < |order| ==> order[k] !in order[..k]
    ensures |Elements(order)| == |order|
  {
    if order != [] {
      var n := |order| - 1;
      forall k | 0 <= k < n ensures order[..n][k] !in order[..n][..k] { assert order[..n][..k] == order[..k]; }
      DistinctCount(order[..n]);
      assert order[n] !in Elements(order[..n]);
    }
  }

  lemma SubsetCount(a: set<nat>, b: set<nat>)
    requires a <= b
    ensures |a| <= |b|
  {
    assert b == a + (b - a);
    assert |b| == |a| + |b - a|;
  }

  // ---- Exactly when the order is right ------------------------------------------------

  /** A later start released first means that 100 kernels were in the heap, all starting later
      than the one that had not arrived yet. */
  lemma OutOfOrderMeansOvertaken(ks: seq<Kernel>, order: seq<nat>, a: nat, b: nat)
    requires ReleaseOrder(ks, order) && a < b < |order|
    requires order[a] < |ks| && order[b] < |ks| && ks[order[a]].start > ks[order[b]].start
    ensures |Overtaken(ks, order[b])| >= HEAP_SIZE
  {
    var r := order[b];
    assert ReleasedAt(ks, order, a) && ReleasedAt(ks, order, b);
    assert order[..a] == order[..b][..a];
    assert r !in order[..a];
    assert r >= a + HEAP_SIZE;
    HeapCount(ks, order, a);
    var heap := Below(a + HEAP_SIZE) - Elements(order[..a]);
    assert heap <= Overtaken(ks, r);
    SubsetCount(heap, Overtaken(ks, r));
  }

  lemma HeapCount(ks: seq<Kernel>, order: seq<nat>, a: nat)
    requires ReleaseOrder(ks, order) && a <= |order|
    ensures |Below(a + HEAP_SIZE) - Elements(order[..a])| == HEAP_SIZE
    ensures Elements(order[..a]) <= Below(a + HEAP_SIZE) && |Elements(order[..a])| == a
  {
    forall k | 0 <= k < a ensures order[..a][k] !in order[..a][..k] && order[..a][k] < a + HEAP_SIZE {
      assert ReleasedAt(ks, order, k);
      assert order[..a][..k] == order[..k];
    }
    DistinctCount(order[..a]);
    var all, out := Below(a + HEAP_SIZE), Elements(order[..a]);
    assert all == out + (all - out);
    assert |all| == |out| + |all - out|;
  }

  lemma EveryOneIsReleased(ks: seq<Kernel>, order: seq<nat>, j: nat)
    requires ReleaseOrder(ks, order) && |order| == |ks| && j < |ks|
    ensures j in order
  {
    forall k | 0 <= k < |order| ensures order[k] !in order[..k] && order[k] < |ks| { assert ReleasedAt(ks, order, k); }
    DistinctCount(order);
    var all, out := Below(|ks|), Elements(order);
    assert out <= all;
    assert all == out + (all - out);
    assert |all| == |out| + |all - out|;
    assert all - out == {};
    assert j in all;
  }

  lemma DisjointCount(a: set<nat>, b: set<nat>, c: set<nat>)
    requires a !! b && a + b <= c
    ensures |a| + |b| <= |c|
  {
    assert |a + b| == |a| + |b|;
    SubsetCount(a + b, c);
  }

  /** What is released before arrival j can be is no later than j, if the order is ascending. */
  lemma ReleasedBefore(ks: seq<Kernel>, order: seq<nat>, j: nat, k: nat)
    requires ReleaseOrder(ks, order) && |order| == |ks| && j < |ks| && k + HEAP_SIZE <= j
    requires forall a, b :: 0 <= a < b < |order| && order[a] < |ks| && order[b] < |ks| ==>
               ks[order[a]].start <= ks[order[b]].start
    ensures order[k] < j && ks[order[k]].start <= ks[j].start
  {
    EveryOneIsReleased(ks, order, j);
    var b :| 0 <= b < |order| && order[b] == j;
    assert ReleasedAt(ks, order, b) && ReleasedAt(ks, order, k);
  }

  lemma FewLate(late: set<nat>, out: set<nat>, j: nat, m: nat)
    requires |out| == m && j < m + HEAP_SIZE && late !! out
    requires forall x :: x in late || x in out ==> x < j
    ensures |late| < HEAP_SIZE
  {
    assert late + out <= Below(j);
    DisjointCount(late, out, Below(j));
  }

  /** In ascending order of release, at most 99 kernels that start later arrive before. */
  lemma AscendingMeansFewOvertaken(ks: seq<Kernel>, order: seq<nat>, j: nat)
    requires ReleaseOrder(ks, order) && |order| == |ks| && j < |ks|
    requires forall a, b :: 0 <= a < b < |order| && order[a] < |ks| && order[b] < |ks| ==>
               ks[order[a]].start <= ks[order[b]].start
    ensures |Overtaken(ks, j)| < HEAP_SIZE
  {
    var late := Overtaken(ks, j);
    var m := if j < HEAP_SIZE then 0 else j - (HEAP_SIZE - 1);
    HeapCount(ks, order, m);
    var out := Elements(order[..m]);
    forall x | x in out ensures x < j && x !in late {
      var k :| 0 <= k < m && order[..m][k] == x;
      ReleasedBefore(ks, order, j, k);
    }
    FewLate(late, out, j, m);
  }

  /** The kernels of a callback come out by ascending start exactly if at most 99 kernels that
      start later arrive before any one of them. */
  lemma ReleasedInOrderExactlyWhen(ks: seq<Kernel>, order: seq<nat>)
    requires ReleaseOrder(ks, order) && |order| == |ks| && forall k :: 0 <= k < |order| ==> order[k] < |ks|
    ensures Ascending(Pick(ks, order)) <==> forall j :: 0 <= j < |ks| ==> |Overtaken(ks, j)| <= 99
  {
    if Ascending(Pick(ks, order)) {
      forall j | 0 <= j < |ks| ensures |Overtaken(ks, j)| < HEAP_SIZE {
        forall a, b | 0 <= a < b < |order| ensures ks[order[a]].start <= ks[order[b]].start {
          assert Pick(ks, order)[a] == ks[order[a]] && Pick(ks, order)[b] == ks[order[b]];
        }
        AscendingMeansFewOvertaken(ks, order, j);
      }
    } else {
      var a, b :| 0 <= a < b < |order| && Pick(ks, order)[a].start > Pick(ks, order)[b].start;
      OutOfOrderMeansOvertaken(ks, order, a, b);
    }
  }

  /** In particular if nothing arrives more than 99 places behind a kernel that starts later. */
  lemma NearlySortedIsReleasedInOrder(ks: seq<Kernel>, order: seq<nat>)
    requires ReleaseOrder(ks, order) && |order| == |ks| && forall k :: 0 <= k < |order| ==> order[k] < |ks|
    requires forall i, j :: 0 <= i < j < |ks| && ks[i].start > ks[j].start ==> j - i <= 99
    ensures Ascending(Pick(ks, order))
  {
    forall j | 0 <= j < |ks| ensures |Overtaken(ks, j)| < HEAP_SIZE {
      var from := if j < HEAP_SIZE then 0 else j - (HEAP_SIZE - 1);
      var window := Below(j) - Below(from);
      assert Below(j) == Below(from) + window;
      assert |Below(j)| == |Below(from)| + |window|;
      SubsetCount(Overtaken(ks, j), window);
    }
    ReleasedInOrderExactlyWhen(ks, order);
  }

  lemma ReleasedOnce(ks: seq<Kernel>, order: seq<nat>)
    requires ReleaseOrder(ks, order)
    ensures forall a, b :: 0 <= a < b < |order| ==> order[a] != order[b]
  {
    forall a, b | 0 <= a < b < |order| ensures order[a] != order[b] {
      assert ReleasedAt(ks, order, b);
      assert order[..b][a] == order[a];
    }
  }

  /** The kernels with the given arrival numbers. */
  ghost function Contents(ks: seq<Kernel>, s: set<nat>): multiset<Kernel>
    requires forall i :: i in s ==> i < |ks|
  {
    if s == {} then multiset{} else
      var i :| i in s;
      Contents(ks, s - {i}) + multiset{ks[i]}
  }

  lemma {:induction false} ContentsWithout(ks: seq<Kernel>, s: set<nat>, i: nat)
    requires i in s && forall j :: j in s ==> j < |ks|
    ensures Contents(ks, s) == Contents(ks, s - {i}) + multiset{ks[i]}
    decreases |s|
  {
    var x :| x in s && Contents(ks, s) == Contents(ks, s - {x}) + multiset{ks[x]};
    if x != i {
      ContentsWithout(ks, s - {x}, i);
      ContentsWithout(ks, s - {i}, x);
      assert s - {x} - {i} == s - {i} - {x};
    }
  }

  lemma ContentsWith(ks: seq<Kernel>, s: set<nat>, i: nat)
    requires i !in s && i < |ks| && forall j :: j in s ==> j < |ks|
    ensures Contents(ks, s + {i}) == Contents(ks, s) + multiset{ks[i]}
  {
    assert s + {i} - {i} == s;
    ContentsWithout(ks, s + {i}, i);
  }

  /** Arrival numbers of kernels, none twice. */
  ghost predicate Distinct(ks: seq<Kernel>, order: seq<nat>) {
    forall k :: 0 <= k < |order| ==> order[k] < |ks| && order[k] !in order[..k]
  }

  lemma DistinctFront(ks: seq<Kernel>, order: seq<nat>, n: nat)
    requires Distinct(ks, order) && n <= |order|
    ensures Distinct(ks, order[..n])
  {
    forall k | 0 <= k < n ensures order[..n][k] < |ks| && order[..n][k] !in order[..n][..k] {
      assert order[..n][..k] == order[..k];
    }
  }

  lemma PickLast(ks: seq<Kernel>, order: seq<nat>)
    requires order != [] && forall k :: 0 <= k < |order| ==> order[k] < |ks|
    ensures Pick(ks, order) == Pick(ks, order[..|order| - 1]) + [ks[order[|order| - 1]]]
  {
  }

  lemma {:induction false} PickedContents(ks: seq<Kernel>, order: seq<nat>)
    requires Distinct(ks, order)
    ensures forall i :: i in Elements(order) ==> i < |ks|
    ensures multiset(Pick(ks, order)) == Contents(ks, Elements(order))
  {
    if order != [] {
      var n := |order| - 1;
      var front, x := order[..n], order[n];
      DistinctFront(ks, order, n);
      PickedContents(ks, front);
      PickLast(ks, order);
      ContentsWith(ks, Elements(front), x);
    }
  }

  lemma ArrivedSnoc(ks: seq<Kernel>, n: nat)
    requires 0 < n <= |ks|
    ensures multiset(ks[..n]) == multiset(ks[..n - 1]) + multiset{ks[n - 1]}
  {
    assert ks[..n] == ks[..n - 1] + [ks[n - 1]];
  }

  lemma {:induction false} ArrivedContents(ks: seq<Kernel>, n: nat)
    requires n <= |ks|
    ensures multiset(ks[..n]) == Contents(ks, Below(n))
    decreases n
  {
    if n > 0 {
      ArrivedContents(ks, n - 1);
      ArrivedSnoc(ks, n);
      ContentsWith(ks, Below(n - 1), n - 1);
    }
  }

  /** What is released is what arrived. */
  lemma ReleasedIsPermutation(ks: seq<Kernel>, order: seq<nat>)
    requires ReleaseOrder(ks, order) && |order| == |ks| && forall k :: 0 <= k < |order| ==> order[k] < |ks|
    ensures multiset(Pick(ks, order)) == multiset(ks)
  {
    var n := |ks|;
    forall k | 0 <= k < n ensures order[k] !in order[..k] { assert ReleasedAt(ks, order, k); }
    PickedContents(ks, order);
    ArrivedContents(ks, n);
    assert ks[..n] == ks;
    forall j | 0 <= j < n ensures j in Elements(order) { EveryOneIsReleased(ks, order, j); }
    assert Elements(order) == Below(n);
  }

  /** Kernels that take time, do not overlap, are not before the last timestamp and arrive
      within the reach of the heap are all emitted, by ascending start. */
  lemma NothingDropped(o: Output, ks: seq<Kernel>, order: seq<nat>)
    requires ReleaseOrder(ks, order) && |order| == |ks| && forall k :: 0 <= k < |order| ==> order[k] < |ks|
    requires forall j :: 0 <= j < |ks| ==> |Overtaken(ks, j)| <= 99
    requires Separate(ks) && forall i :: 0 <= i < |ks| ==> o.last <= ks[i].start
    ensures var out := ReleaseAll(o, Pick(ks, order));
            out.emitted == o.emitted + Pick(ks, order) && out.dropped == o.dropped && Ascending(Pick(ks, order))
  {
    ReleasedInOrderExactlyWhen(ks, order);
    ReleasedOnce(ks, order);
    var picked := Pick(ks, order);
    forall i, j | 0 <= i < j < |picked| ensures picked[i].end <= picked[j].start || picked[j].end <= picked[i].start {
      var a, b := order[i], order[j];
      assert a < b || b < a;
    }
    AscendingDropsNothing(o, picked);
  }

  // ---- The callback -------------------------------------------------------------------

  /** The tool's global state. */
  class Tool {
    var lastTimestamp: nat
    var emitted: seq<Kernel>
    var dropped: seq<Kernel>

    ghost function Now(): Output
      reads this
    {
      Output(lastTimestamp, emitted, dropped)
    }

    constructor ()
      ensures Now() == Output(0, [], []) && Disjoint(Now())
    {
      lastTimestamp := 0;
      emitted := [];
      dropped := [];
    }

    /** Emits or drops one kernel taken from the heap. */
    method Emit(ev: Kernel)
      modifies this
      ensures Now() == Release(old(Now()), ev)
    {
      if ev.start >= lastTimestamp {
        emitted := emitted + [ev];
        lastTimestamp := ev.end;
      } else {
        dropped := dropped + [ev];
      }
    }

    /** Takes an earliest kernel from the heap, which holds arrival numbers. */
    method Pop(ks: seq<Kernel>, heap: set<nat>) returns (i: nat, rest: set<nat>)
      requires heap != {} && forall j :: j in heap ==> j < |ks|
      modifies this
      ensures i in heap && rest == heap - {i} && forall j :: j in heap ==> ks[i].start <= ks[j].start
      ensures Now() == Release(old(Now()), ks[i])
    {
      EarliestExists(ks, heap);
      i :| i in heap && forall j :: j in heap ==> ks[i].start <= ks[j].start;
      rest := heap - {i};
      Emit(ks[i]);
    }

    /** tool_tracing_callback. The release order it follows is returned for the record. */
    method Callback(headers: seq<Header>, offset: int) returns (order: seq<nat>)
      modifies this
      ensures var ks := Arrivals(headers, offset);
              && |order| == |ks| && ReleaseOrder(ks, order) && (forall k :: 0 <= k < |order| ==> order[k] < |ks|)
              && Now() == ReleaseAll(old(Now()), Pick(ks, order))
              && Handled(Now()) == Handled(old(Now())) + multiset(ks)
      ensures old(Disjoint(Now())) ==> Disjoint(Now())
      ensures forall e :: e in emitted ==>
                e in old(emitted) || exists j :: 0 <= j < |headers| && FromHeader(e, headers[j], offset)
    {
      var ks: seq<Kernel> := [];
      var heap: set<nat> := {};
      order := [];
      for n := 0 to |headers|
        invariant ks == Arrivals(headers[..n], offset)
        invariant Heaped(ks, order, heap) && |order| == if |ks| < HEAP_SIZE then 0 else |ks| - (HEAP_SIZE - 1)
        invariant Now() == ReleaseAll(old(Now()), Pick(ks, order))
      {
        assert headers[..n + 1][..n] == headers[..n];
        var header := headers[n];
        if header.dispatch {
          ArrivalKeepsHeap(ks, order, heap, Shifted(header, offset));
          heap := heap + {|ks|};
          ks := ks + [Shifted(header, offset)];
          if |heap| >= HEAP_SIZE {
            order, heap := Step(ks, order, heap, old(Now()));
          }
        }
      }
      assert headers[..|headers|] == headers;
      while heap != {}
        invariant Heaped(ks, order, heap) && |ks| < |order| + HEAP_SIZE
        invariant Now() == ReleaseAll(old(Now()), Pick(ks, order))
        decreases |heap|
      {
        order, heap := Step(ks, order, heap, old(Now()));
      }
      ReleasedIsPermutation(ks, order);
      NothingGetsLost(old(Now()), Pick(ks, order));
      EmittedCameIn(old(Now()), Pick(ks, order));
      PickedWereDispatched(headers, offset, order);
      if old(Disjoint(Now())) { ReleaseKeepsDisjoint(old(Now()), Pick(ks, order)); }
    }

    method Step(ks: seq<Kernel>, order: seq<nat>, heap: set<nat>, ghost start: Output)
      returns (order': seq<nat>, heap': set<nat>)
      requires Heaped(ks, order, heap) && heap != {} && |ks| <= |order| + HEAP_SIZE
      requires Now() == ReleaseAll(start, Pick(ks, order))
      modifies this
      ensures Heaped(ks, order', heap') && |order'| == |order| + 1 && |heap'| == |heap| - 1
      ensures Now() == ReleaseAll(start, Pick(ks, order'))
    {
      var i;
      i, heap' := Pop(ks, heap);
      order' := order + [i];
      ReleaseKeepsHeap(ks, order, heap, i);
      assert Pick(ks, order') == Pick(ks, order) + [ks[i]];
      assert Pick(ks, order')[..|order|] == Pick(ks, order);
    }
  }

  lemma {:induction false} EmittedCameIn(o: Output, ks: seq<Kernel>)
    ensures forall e :: e in ReleaseAll(o, ks).emitted ==> e in o.emitted || e in ks
  {
    if ks != [] { EmittedCameIn(o, ks[..|ks| - 1]); }
  }

  lemma PickedWereDispatched(hs: seq<Header>, offset: int, order: seq<nat>)
    requires forall k :: 0 <= k < |order| ==> order[k] < |Arrivals(hs, offset)|
    ensures forall e :: e in Pick(Arrivals(hs, offset), order) ==>
              exists j :: 0 <= j < |hs| && FromHeader(e, hs[j], offset)
  {
    var js := ArrivalsAreDispatches(hs, offset);
    var ks := Arrivals(hs, offset);
    forall e | e in Pick(ks, order) ensures exists j :: 0 <= j < |hs| && FromHeader(e, hs[j], offset) {
      var k :| 0 <= k < |order| && Pick(ks, order)[k] == e;
      assert FromHeader(e, hs[js[order[k]]], offset);
    }
  }

  /** The heap holds exactly the arrivals not yet released. */
  ghost predicate Heaped(ks: seq<Kernel>, order: seq<nat>, heap: set<nat>) {
    && ReleaseOrder(ks, order) && (forall k :: 0 <= k < |order| ==> order[k] < |ks|)
    && (forall i :: i in heap <==> 0 <= i < |ks| && i !in order)
    && |heap| + |order| == |ks|
  }

  lemma EarliestExists(ks: seq<Kernel>, heap: set<nat>)
    requires heap != {} && forall j :: j in heap ==> j < |ks|
    ensures exists i :: i in heap && forall j :: j in heap ==> ks[i].start <= ks[j].start
  {
    var x :| x in heap;
    if heap != {x} {
      var rest := heap - {x};
      assert rest != {};
      EarliestExists(ks, rest);
      var i :| i in rest && forall j :: j in rest ==> ks[i].start <= ks[j].start;
      var best := if ks[x].start <= ks[i].start then x else i;
      assert heap == rest + {x};
      assert best in heap && forall j :: j in heap ==> ks[best].start <= ks[j].start;
    }
  }

  /** One more arrival changes nothing about releases made when the heap was full. */
  lemma ArrivalKeepsHeap(ks: seq<Kernel>, order: seq<nat>, heap: set<nat>, k: Kernel)
    requires Heaped(ks, order, heap) && (order == [] || |order| + HEAP_SIZE - 1 <= |ks|)
    ensures Heaped(ks + [k], order, heap + {|ks|}) && Pick(ks + [k], order) == Pick(ks, order)
    ensures |heap + {|ks|}| == |heap| + 1
  {
    forall j | 0 <= j < |order| ensures ReleasedAt(ks + [k], order, j) { assert ReleasedAt(ks, order, j); }
  }

  lemma ReleaseKeepsHeap(ks: seq<Kernel>, order: seq<nat>, heap: set<nat>, i: nat)
    requires Heaped(ks, order, heap) && |ks| <= |order| + HEAP_SIZE
    requires i in heap && forall j :: j in heap ==> ks[i].start <= ks[j].start
    ensures Heaped(ks, order + [i], heap - {i}) && |heap - {i}| == |heap| - 1
  {
    var order' := order + [i];
    forall k | 0 <= k < |order'| ensures ReleasedAt(ks, order', k) {
      assert order'[..k] == order[..k];
      if k < |order| { assert ReleasedAt(ks, order, k); } else { assert order[..k] == order; }
    }
  }
}
