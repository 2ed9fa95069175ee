/** EventReader (include/lo2s/perf/event_reader.hpp): reads perf records from the mmap'ed ring
    buffer the kernel writes, as laid out in perf_event_open(2). Head and tail only ever grow;
    a record that wraps around the end of the buffer is copied out. */
module EventReader {
  import opened Bytes

  type Rec = seq<byte>

  /** struct perf_event_header: type, misc, and in bytes 6 and 7 the size. */
  const HEADER_SIZE := 8
  const PERF_SAMPLE_MAX_SIZE := 0x1_0000

  function SizeField(bs: seq<byte>): nat
    requires |bs| >= HEADER_SIZE
  {
    FromBytes(bs[6..8])
  }

  /** What the kernel writes: sizes are multiples of eight and match the header. */
  predicate WellFormed(r: Rec) {
    HEADER_SIZE <= |r| < PERF_SAMPLE_MAX_SIZE && |r| % 8 == 0 && SizeField(r) == |r|
  }

  ghost predicate AllWellFormed(rs: seq<Rec>) {
    forall i :: 0 <= i < |rs| ==> WellFormed(rs[i])
  }

  function Flat(rs: seq<Rec>): seq<byte> {
    if rs == [] then [] else rs[0] + Flat(rs[1..])
  }

  lemma {:induction false} FlatAppend(rs: seq<Rec>, r: Rec)
    ensures Flat(rs + [r]) == Flat(rs) + r
  {
    if rs == [] {
      assert (rs + [r])[1..] == [];
    } else {
      assert (rs + [r])[1..] == rs[1..] + [r];
      FlatAppend(rs[1..], r);
    }
  }

  lemma OnePiece(data: seq<byte>, pos: nat, n: nat)
    requires |data| > 0 && Cell(pos, |data|) + n <= |data|
    ensures Window(data, |data|, pos, n) == data[Cell(pos, |data|)..Cell(pos, |data|) + n]
  {
    var i, w := Cell(pos, |data|), Window(data, |data|, pos, n);
    forall k | 0 <= k < n ensures w[k] == data[i..i + n][k] {
      NearCell(pos, k, |data|);
    }
  }

  lemma TwoPieces(data: seq<byte>, pos: nat, n: nat)
    requires |data| > 0 && n <= |data| < Cell(pos, |data|) + n
    ensures Window(data, |data|, pos, n) == data[Cell(pos, |data|)..] + data[..Cell(pos, |data|) + n - |data|]
  {
    var size := |data|;
    var i := Cell(pos, size);
    var w := Window(data, size, pos, n);
    var pieces := data[i..] + data[..i + n - size];
    forall k | 0 <= k < n ensures w[k] == pieces[k] {
      NearCell(pos, k, size);
    }
  }

  /** The n bytes from position pos on are the window there: in one piece, or in two if it
      reaches over the end of the buffer. */
  lemma InPieces(data: seq<byte>, pos: nat, n: nat)
    requires |data| > 0 && n <= |data|
    ensures var i := Cell(pos, |data|);
            Window(data, |data|, pos, n) ==
            if i + n > |data| then data[i..] + data[..i + n - |data|] else data[i..i + n]
  {
    if Cell(pos, |data|) + n > |data| { TwoPieces(data, pos, n); } else { OnePiece(data, pos, n); }
  }

  lemma {:induction false} CellAligned(x: nat, size: nat)
    requires size > 0 && x % 8 == 0 && size % 8 == 0
    ensures Cell(x, size) % 8 == 0
    decreases x
  {
    if size <= x { CellAligned(x - size, size); }
  }

  lemma WindowPrefix(data: seq<byte>, pos: nat, n: nat, k: nat)
    requires |data| > 0 && k <= n
    ensures Window(data, |data|, pos, n)[..k] == Window(data, |data|, pos, k)
    ensures Window(data, |data|, pos, n)[k..] == Window(data, |data|, pos + k, n - k)
  {
  }

  lemma WindowJoin(data: seq<byte>, pos: nat, a: nat, b: nat)
    requires |data| > 0
    ensures Window(data, |data|, pos, a + b) == Window(data, |data|, pos, a) + Window(data, |data|, pos + a, b)
  {
  }

  // ---- The shared buffer --------------------------------------------------------------

  /** The unread records are in the buffer between tail and head, one after the other. */
  ghost predicate Holds(data: seq<byte>, tail: nat, head: nat, unread: seq<Rec>) {
    && |data| > 0 && |data| % 8 == 0 && tail % 8 == 0
    && AllWellFormed(unread)
    && head == tail + |Flat(unread)| && head - tail <= |data|
    && Window(data, |data|, tail, head - tail) == Flat(unread)
  }

  /** The header of the next record never wraps, and the record is found as it was written. */
  lemma NextRecord(data: seq<byte>, tail: nat, head: nat, unread: seq<Rec>)
    requires Holds(data, tail, head, unread) && unread != []
    ensures var i := Cell(tail, |data|);
            && i + HEADER_SIZE <= |data| && SizeField(data[i..i + HEADER_SIZE]) == |unread[0]|
            && |unread[0]| <= head - tail
            && Window(data, |data|, tail, |unread[0]|) == unread[0]
  {
    var r := unread[0];
    WindowPrefix(data, tail, head - tail, |r|);
    assert Flat(unread)[..|r|] == r;
    HeaderInOnePiece(data, tail, r);
  }

  lemma HeaderInOnePiece(data: seq<byte>, tail: nat, r: Rec)
    requires 0 < |data| && |data| % 8 == 0 && tail % 8 == 0 && WellFormed(r) && |r| <= |data|
    requires Window(data, |data|, tail, |r|) == r
    ensures var i := Cell(tail, |data|);
            i + HEADER_SIZE <= |data| && SizeField(data[i..i + HEADER_SIZE]) == |r|
  {
    var i := Cell(tail, |data|);
    CellAligned(tail, |data|);
    RoomForHeader(i, |data|);
    WindowPrefix(data, tail, |r|, HEADER_SIZE);
    InPieces(data, tail, HEADER_SIZE);
    assert data[i..i + HEADER_SIZE] == r[..HEADER_SIZE];
    assert r[..HEADER_SIZE][6..8] == r[6..8];
  }

  lemma RoomForHeader(i: nat, size: nat)
    requires i < size && i % 8 == 0 && size % 8 == 0
    ensures i + HEADER_SIZE <= size
  {
  }

  lemma PopKeeps(data: seq<byte>, tail: nat, head: nat, unread: seq<Rec>)
    requires Holds(data, tail, head, unread) && unread != []
    ensures Holds(data, tail + |unread[0]|, head, unread[1..])
  {
    var r := unread[0];
    WindowPrefix(data, tail, head - tail, |r|);
    assert Flat(unread)[|r|..] == Flat(unread[1..]);
  }

  /** The kernel writing byte i of a record behind the unread ones. */
  lemma WriteByte(data: seq<byte>, tail: nat, head: nat, r: Rec, i: nat)
    requires |data| > 0 && i < |r| && tail <= head && head + |r| <= tail + |data|
    requires Window(data, |data|, head, i) == r[..i]
    ensures var data' := data[Cell(head + i, |data|) := r[i]];
            && Window(data', |data|, tail, head - tail) == Window(data, |data|, tail, head - tail)
            && Window(data', |data|, head, i + 1) == r[..i + 1]
  {
    var data' := data[Cell(head + i, |data|) := r[i]];
    WriteOutside(data, |data|, head + i, r[i], tail, head - tail);
    WriteOutside(data, |data|, head + i, r[i], head, i);
    assert Window(data', |data|, head, i + 1) == Window(data', |data|, head, i) + [r[i]];
  }

  lemma WriteKeeps(data: seq<byte>, data': seq<byte>, tail: nat, head: nat, unread: seq<Rec>, r: Rec)
    requires Holds(data, tail, head, unread) && WellFormed(r) && |data'| == |data| && head + |r| <= tail + |data|
    requires Window(data', |data|, tail, head - tail) == Window(data, |data|, tail, head - tail)
    requires Window(data', |data|, head, |r|) == r
    ensures Holds(data', tail, head + |r|, unread + [r])
  {
    FlatAppend(unread, r);
    WindowJoin(data', tail, head - tail, |r|);
  }

  // ---- The reader ---------------------------------------------------------------------

  /** Of all records that became available, the first n were handed on and the rest is unread. */
  ghost predicate Handed(before: seq<Rec>, passed: seq<Rec>, unread: seq<Rec>, all: seq<Rec>, n: nat) {
    n <= |all| && passed == before + all[..n] && unread == all[n..]
  }

  ghost predicate NoneStops(stops: Rec -> bool, all: seq<Rec>, n: nat) {
    forall i :: 0 <= i < n && i < |all| ==> !stops(all[i])
  }

  lemma KeepGoing(stops: Rec -> bool, all: seq<Rec>, came: seq<Rec>, n: nat)
    requires NoneStops(stops, all, n) && n <= |all|
    ensures NoneStops(stops, all + came, n)
  {
  }

  lemma HandedOne(before: seq<Rec>, passed: seq<Rec>, unread: seq<Rec>, all: seq<Rec>, n: nat)
    requires Handed(before, passed, unread, all, n) && unread != []
    ensures n < |all| && unread[0] == all[n] && Handed(before, passed + [unread[0]], unread[1..], all, n + 1)
  {
    assert all[..n + 1] == all[..n] + [all[n]];
  }

  lemma HandedMore(before: seq<Rec>, passed: seq<Rec>, unread: seq<Rec>, all: seq<Rec>, n: nat, came: seq<Rec>)
    requires Handed(before, passed, unread, all, n)
    ensures Handed(before, passed, unread + came, all + came, n)
  {
    assert (all + came)[..n] == all[..n] && (all + came)[n..] == all[n..] + came;
  }

  /** What is left of b when some of its elements are taken out. */
  ghost predicate Subsequence(a: seq<Rec>, b: seq<Rec>) {
    a == [] ||
    (b != [] && var a', b' := a[..|a| - 1], b[..|b| - 1];
       (a[|a| - 1] == b[|b| - 1] && Subsequence(a', b')) || Subsequence(a, b'))
  }

  lemma SubsequenceNext(a: seq<Rec>, b: seq<Rec>, k: nat)
    requires k < |b| && Subsequence(a, b[..k])
    ensures Subsequence(a, b[..k + 1]) && Subsequence(a + [b[k]], b[..k + 1])
  {
    assert b[..k + 1][..k] == b[..k] && (a + [b[k]])[..|a|] == a;
  }

  lemma {:induction false} SubsequenceJoin(a: seq<Rec>, b: seq<Rec>, c: seq<Rec>, d: seq<Rec>)
    requires Subsequence(a, b) && Subsequence(c, d)
    ensures Subsequence(a + c, b + d)
    decreases |d|
  {
    if d == [] {
      assert a + c == a && b + d == b;
    } else {
      var d' := d[..|d| - 1];
      assert (b + d)[..|b + d| - 1] == b + d';
      if c == [] {
        SubsequenceJoin(a, b, [], d');
        assert a + c == a && a + [] == a;
      } else {
        var c' := c[..|c| - 1];
        assert (a + c)[..|a + c| - 1] == a + c';
        if Subsequence(c, d') { SubsequenceJoin(a, b, c, d'); } else { SubsequenceJoin(a, b, c', d'); }
      }
    }
  }

  lemma SubsequenceMore(came: seq<Rec>, more: seq<Rec>, coming: seq<Rec>, k: nat, k': nat)
    requires k <= k' <= |coming| && Subsequence(came, coming[..k]) && Subsequence(more, coming[k..k'])
    ensures Subsequence(came + more, coming[..k'])
  {
    SubsequenceJoin(came, coming[..k], more, coming[k..k']);
    assert coming[..k] + coming[k..k'] == coming[..k'];
  }

  lemma {:induction false} SubsequenceOfMore(came: seq<Rec>, coming: seq<Rec>, k: nat)
    requires k <= |coming| && Subsequence(came, coming[..k])
    ensures Subsequence(came, coming)
    decreases |coming| - k
  {
    if k == |coming| {
      assert coming[..k] == coming;
    } else {
      SubsequenceNext(came, coming, k);
      SubsequenceOfMore(came, coming, k + 1);
    }
  }

  /** What was handed on, what is in the buffer, and all that ever was. */
  datatype Log = Log(passed: seq<Rec>, unread: seq<Rec>, written: seq<Rec>)

  /** Of the records from k up to k', `came` were written behind what was there. */
  ghost predicate Arrived(a: Log, b: Log, coming: seq<Rec>, k: nat, k': nat, came: seq<Rec>) {
    && b == Log(a.passed, a.unread + came, a.written + came)
    && k <= k' <= |coming| && Subsequence(came, coming[k..k']) && |came| <= k' - k
  }

  lemma ArrivesNext(a: Log, b: Log, coming: seq<Rec>, k: nat, k': nat, came: seq<Rec>)
    requires Arrived(a, b, coming, k, k', came) && k' < |coming|
    ensures Arrived(a, b, coming, k, k' + 1, came)
    ensures Arrived(a, Log(b.passed, b.unread + [coming[k']], b.written + [coming[k']]), coming, k, k' + 1, came + [coming[k']])
  {
    var rest := coming[k..];
    assert rest[..k' - k] == coming[k..k'] && rest[..k' - k + 1] == coming[k..k' + 1];
    SubsequenceNext(came, rest, k' - k);
    assert a.unread + (came + [coming[k']]) == b.unread + [coming[k']];
    assert a.written + (came + [coming[k']]) == b.written + [coming[k']];
  }

  /** What holds between two rounds of read(). */
  ghost predicate Reading(a: Log, b: Log, stops: Rec -> bool, coming: seq<Rec>, k: nat, came: seq<Rec>, n: nat) {
    && k <= |coming| && Subsequence(came, coming[..k]) && b.written == a.written + came
    && Handed(a.passed, b.passed, b.unread, a.unread + came, n) && NoneStops(stops, a.unread + came, n)
  }

  lemma ReadOne(a: Log, b: Log, stops: Rec -> bool, coming: seq<Rec>, k: nat, came: seq<Rec>, n: nat)
    requires Reading(a, b, stops, coming, k, came, n) && b.unread != []
    ensures var all, b' := a.unread + came, Log(b.passed + [b.unread[0]], b.unread[1..], b.written);
            && n < |all| && b.unread[0] == all[n] && Handed(a.passed, b'.passed, b'.unread, all, n + 1)
            && (!stops(b.unread[0]) ==> Reading(a, b', stops, coming, k, came, n + 1))
  {
    HandedOne(a.passed, b.passed, b.unread, a.unread + came, n);
  }

  lemma ReadMore(a: Log, b: Log, b': Log, stops: Rec -> bool, coming: seq<Rec>, k: nat, came: seq<Rec>, n: nat,
                 more: seq<Rec>, k': nat)
    requires Reading(a, b, stops, coming, k, came, n) && Arrived(b, b', coming, k, k', more)
    ensures Reading(a, b', stops, coming, k', came + more, n)
  {
    var all := a.unread + came;
    assert a.unread + (came + more) == all + more;
    HandedMore(a.passed, b.passed, b.unread, all, n, more);
    KeepGoing(stops, all, more, n);
    SubsequenceMore(came, more, coming, k, k');
  }

  /** `written` is everything the kernel ever put into the buffer. */
  class EventReader {
    var data: seq<byte>
    var dataHead: nat
    var dataTail: nat
    var eventCopy: seq<byte>
    var passed: seq<Rec>
    ghost var unread: seq<Rec>
    ghost var popped: seq<Rec>
    ghost var written: seq<Rec>

    ghost predicate Valid()
      reads this
    {
      && Holds(data, dataTail, dataHead, unread) && |eventCopy| == PERF_SAMPLE_MAX_SIZE
      && written == popped + unread
    }

    ghost function Snapshot(): Log
      reads this
    {
      Log(passed, unread, written)
    }

    constructor (pages: nat, pageSize: nat)
      requires pages * pageSize > 0 && pages * pageSize % 8 == 0
      ensures Valid() && written == [] && passed == [] && |data| == pages * pageSize
    {
      data := seq(pages * pageSize, _ => 0);
      dataHead, dataTail := 0, 0;
      eventCopy := seq(PERF_SAMPLE_MAX_SIZE, _ => 0);
      passed := [];
      unread, popped, written := [], [], [];
    }

    /** The kernel's side: a record is written behind the head if there is room, and thrown away
        otherwise. */
    method KernelWrite(r: Rec) returns (fits: bool)
      requires Valid() && WellFormed(r)
      modifies `data, `dataHead, `unread, `written
      ensures Valid() && |data| == |old(data)|
      ensures fits == (old(dataHead) - dataTail + |r| <= |data|)
      ensures unread == if fits then old(unread) + [r] else old(unread)
      ensures written == if fits then old(written) + [r] else old(written)
    {
      if dataHead - dataTail + |r| > |data| {
        return false;
      }
      ghost var before := data;
      var i := 0;
      while i < |r|
        invariant 0 <= i <= |r| && |data| == |before| && dataHead == old(dataHead)
        invariant unread == old(unread) && written == old(written)
        invariant Window(data, |data|, dataTail, dataHead - dataTail) == Window(before, |data|, dataTail, dataHead - dataTail)
        invariant Window(data, |data|, dataHead, i) == r[..i]
      {
        WriteByte(data, dataTail, dataHead, r, i);
        data := data[Cell(dataHead + i, |data|) := r[i]];
        i := i + 1;
      }
      assert r[..|r|] == r;
      WriteKeeps(before, data, dataTail, dataHead, unread, r);
      dataHead := dataHead + |r|;
      unread, written := unread + [r], written + [r];
      fits := true;
    }

    method Empty() returns (empty: bool)
      requires Valid()
      ensures empty <==> unread == []
    {
      empty := dataHead == dataTail;
      if unread != [] { NextRecord(data, dataTail, dataHead, unread); }
    }

    /** get(): the bytes the returned pointer points to. */
    method Get() returns (ev: Rec)
      requires Valid() && unread != []
      modifies `eventCopy
      ensures Valid() && ev == unread[0] && WellFormed(ev)
    {
      NextRecord(data, dataTail, dataHead, unread);
      InPieces(data, dataTail, |unread[0]|);
      CellIsRemainder(dataTail, |data|);
      var index := dataTail % |data|;
      var len := SizeField(data[index..index + HEADER_SIZE]);
      if index + len > |data| {
        var beforeWrap := |data| - index;
        var afterWrap := len - beforeWrap;
        eventCopy := data[index..index + beforeWrap] + eventCopy[beforeWrap..];
        eventCopy := eventCopy[..beforeWrap] + data[..afterWrap] + eventCopy[len..];
        return eventCopy[..len];
      }
      ev := data[index..index + len];
    }

    /** pop(): moves the tail behind the record. */
    method Pop()
      requires Valid() && unread != []
      modifies `dataTail, `eventCopy, `unread, `popped
      ensures Valid() && unread == old(unread)[1..] && popped == old(popped) + [old(unread)[0]]
    {
      var ev := Get();
      PopKeeps(data, dataTail, dataHead, unread);
      dataTail := dataTail + SizeField(ev);
      popped := popped + [unread[0]];
      unread := unread[1..];
    }

    /** The kernel gets a chance to write any number of the records still to come, from k up to
        k', of which `came` found room. */
    method Interrupt(coming: seq<Rec>, k: nat) returns (k': nat, ghost came: seq<Rec>)
      requires Valid() && AllWellFormed(coming) && k <= |coming|
      modifies `data, `dataHead, `unread, `written
      ensures Valid() && Arrived(old(Snapshot()), Snapshot(), coming, k, k', came)
    {
      k', came := k, [];
      ghost var start := Snapshot();
      assert unread + [] == unread && written + [] == written;
      var more: bool := *;
      while more && k' < |coming|
        invariant k <= k' <= |coming| && Valid() && Arrived(start, Snapshot(), coming, k, k', came)
      {
        ArrivesNext(start, Snapshot(), coming, k, k', came);
        var fits := KernelWrite(coming[k']);
        if fits { came := came + [coming[k']]; }
        k' := k' + 1;
        more := *;
      }
    }

    /** One round of read(): the next record is handed on and popped. */
    method HandOn(stops: Rec -> bool) returns (stop: bool)
      requires Valid() && unread != []
      modifies this
      ensures Valid() && unread == old(unread)[1..] && passed == old(passed) + [old(unread)[0]]
      ensures popped == old(popped) + [old(unread)[0]] && written == old(written)
      ensures stop == stops(old(unread)[0])
    {
      var ev := Get();
      passed := passed + [ev];
      stop := stops(ev);
      Pop();
    }

    /** read(): hands every record on, in order, until a handler asks to stop; of the records
        `coming` the kernel may write some meanwhile, and those are `came`. */
    method Read(stops: Rec -> bool, coming: seq<Rec>) returns (ghost came: seq<Rec>, ghost n: nat)
      requires Valid() && AllWellFormed(coming)
      modifies this
      ensures Valid() && written == old(written) + came && Subsequence(came, coming)
      ensures Handed(old(passed), passed, unread, old(unread) + came, n)
      ensures NoneStops(stops, old(unread) + came, if n == 0 then 0 else n - 1)
      ensures var all := old(unread) + came; n == |all| || (n > 0 && stops(all[n - 1]))
    {
      var k: nat := 0;
      came, n := [], 0;
      ghost var start := Snapshot();
      assert unread + [] == unread && written + [] == written;
      var empty := Empty();
      while !empty
        invariant Valid() && (empty <==> unread == []) && Reading(start, Snapshot(), stops, coming, k, came, n)
        decreases |coming| - k + |unread|
      {
        ReadOne(start, Snapshot(), stops, coming, k, came, n);
        var stop := HandOn(stops);
        n := n + 1;
        if stop {
          break;
        }
        ghost var before := Snapshot();
        var k', more := Interrupt(coming, k);
        ReadMore(start, before, Snapshot(), stops, coming, k, came, n, more, k');
        k, came := k', came + more;
        empty := Empty();
      }
      SubsequenceOfMore(came, coming, k);
    }
  }
}
