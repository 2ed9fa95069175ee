/** The shared-memory ring buffer (src/rb/shm_ringbuf.cpp, include/lo2s/rb/writer.hpp,
    src/rb/writer.cpp, include/lo2s/rb/reader.hpp, src/rb/reader.cpp) as a transition system:
    one writer and one reader process, every atomic load and store and every byte touched in
    the buffer a step of its own, steps interleaved at will. */
module ShmRingbuf {
  import opened Bytes

  type Ev = seq<byte>

  const HEADER_SIZE := 16

  /** Sizes are rounded up to a multiple of eight. */
  function Round8(n: nat): (r: nat)
    ensures n <= r < n + 8 && r % 8 == 0
  {
    (n + 7) / 8 * 8
  }

  /** head(): whether a reservation of n bytes is granted. */
  predicate Fits(head: nat, tail: nat, size: nat, n: nat) {
    if head >= tail then head + Round8(n) <= tail + size else head + Round8(n) < tail
  }

  /** can_be_loaded(): whether n bytes can be read. */
  predicate Loadable(head: nat, tail: nat, size: nat, n: nat) {
    if tail <= head then tail + Round8(n) <= head else tail + Round8(n) <= head + size
  }

  /** What both processes share: the header page and the (doubly mapped) buffer; and the
      history: what was committed so far, and what the reader had read of each event it popped. */
  datatype Ring = Ring(size: nat, mem: seq<byte>, head: nat, tail: nat, committed: seq<Ev>, popped: seq<Ev>)

  /** Where the writer stands. Two things are no variables of the program: `seen` counts the
      bytes that had been popped when the tail was loaded, and `ev` is what the event being
      filled holds, by the stores made to it. */
  datatype Writer =
    | WIdle
    | WSawHead(n: nat, h: nat)
    | WSawTail(n: nat, h: nat, t: nat, seen: nat)
    | WClearing(n: nat, h: nat, seen: nat, k: nat)
    | WSizing(n: nat, h: nat, seen: nat, k: nat)
    | WFilling(n: nat, h: nat, seen: nat, ev: Ev)
    | WCommitting(n: nat, h: nat, seen: nat, ev: Ev)

  /** Where the reader stands. `upto` is no variable of the program: it counts the events that
      had been committed when the head was loaded. */
  datatype Reader =
    | RIdle
    | RSawHead(h: nat, upto: nat)
    | RHeader
    | RSized(n: nat)
    | RSawHeadAgain(n: nat, h: nat, upto: nat)
    | RReading(n: nat, got: Ev)
    | RPopping(got: Ev, h: nat, upto: nat)
    | RPopHeader(got: Ev)
    | RPopSized(got: Ev, n: nat)

  datatype State = State(g: Ring, w: Writer, r: Reader)

  datatype Action =
    // reserve<T>(payload)
    | LoadHead(n: nat) | LoadTail | Decide | Clear | WriteSize
    // the caller of reserve fills the event
    | Store(i: nat, b: byte)
    // commit()
    | CommitLoad | CommitStore
    // empty() and get()
    | ReadHead | CheckHeader | ReadSize | ReadHeadAgain | CheckEvent | ReadByte | Abandon
    // pop()
    | PopReadHead | PopCheckHeader | PopReadSize | PopStore

  predicate Wanted(n: nat) {
    HEADER_SIZE <= n < 0x8000_0000_0000_0000
  }

  predicate Enabled(s: State, a: Action) {
    match a
    case LoadHead(n) => s.w.WIdle? && Wanted(n)
    case LoadTail => s.w.WSawHead?
    case Decide => s.w.WSawTail?
    case Clear => s.w.WClearing?
    case WriteSize => s.w.WSizing?
    case Store(i, _) => s.w.WFilling? && 8 <= i < s.w.n && i < |s.w.ev|
    case CommitLoad => s.w.WFilling?
    case CommitStore => s.w.WCommitting?
    case ReadHead => s.r.RIdle?
    case CheckHeader => s.r.RSawHead?
    case ReadSize => s.r.RHeader?
    case ReadHeadAgain => s.r.RSized?
    case CheckEvent => s.r.RSawHeadAgain?
    case ReadByte => s.r.RReading? && |s.r.got| < s.r.n
    case Abandon => s.r.RHeader? || s.r.RReading?
    case PopReadHead => s.r.RReading? && |s.r.got| == s.r.n
    case PopCheckHeader => s.r.RPopping?
    case PopReadSize => s.r.RPopHeader?
    case PopStore => s.r.RPopSized?
  }

  predicate Shaped(g: Ring) {
    g.size > 0 && |g.mem| == g.size
  }

  /** The buffer is mapped twice, back to back: the cell i bytes behind cell a. Nothing is
      mapped behind the second copy; the invariant below keeps every access in front of it. */
  function Adv(a: nat, i: nat, size: nat): (c: nat)
    ensures size > 0 ==> c < size
  {
    if a + i < size then a + i else if a + i < 2 * size then a + i - size else 0
  }

  /** The n bytes a process sees through the double mapping from cell a on. */
  function Seen(mem: seq<byte>, a: nat, n: nat): (bs: seq<byte>)
    requires |mem| > 0
    ensures |bs| == n
  {
    seq(n, i requires 0 <= i < n => mem[Adv(a, i, |mem|)])
  }

  function Put(g: Ring, h: nat, i: nat, b: byte): Ring
    requires Shaped(g)
  {
    g.(mem := g.mem[Adv(h, i, g.size) := b])
  }

  function SizeAtTail(g: Ring): nat
    requires Shaped(g)
  {
    FromBytes(Seen(g.mem, g.tail, 8))
  }

  function Zeros(n: nat): Ev {
    seq(n, _ => 0)
  }

  /** A cleared event with k bytes of its size field written. */
  function Blank(n: nat, k: nat): (e: Ev)
    requires k <= 8 <= n
    ensures |e| == n
  {
    ToBytes(n, 8)[..k] + Zeros(n - k)
  }

  function Commit(g: Ring, h: nat, n: nat, ev: Ev): Ring
    requires Shaped(g)
  {
    g.(head := (h + Round8(n)) % g.size, committed := g.committed + [ev])
  }

  function Pop(g: Ring, got: Ev, n: nat): Ring
    requires Shaped(g)
  {
    g.(tail := (g.tail + Round8(n)) % g.size, popped := g.popped + [got])
  }

  function Apply(s: State, a: Action): State
    requires Shaped(s.g) && Enabled(s, a)
  {
    var State(g, w, r) := s;
    match a
    case LoadHead(n) => State(g, WSawHead(n, g.head), r)
    case LoadTail => State(g, WSawTail(w.n, w.h, g.tail, Total(g.popped)), r)
    case Decide => State(g, if Fits(w.h, w.t, g.size, w.n) then WClearing(w.n, w.h, w.seen, 0) else WIdle, r)
    case Clear =>
      if w.k < w.n then State(Put(g, w.h, w.k, 0), WClearing(w.n, w.h, w.seen, w.k + 1), r)
      else State(g, WSizing(w.n, w.h, w.seen, 0), r)
    case WriteSize =>
      if w.k < 8 then State(Put(g, w.h, w.k, ToBytes(w.n, 8)[w.k]), WSizing(w.n, w.h, w.seen, w.k + 1), r)
      else State(g, WFilling(w.n, w.h, w.seen, if 8 <= w.n then Blank(w.n, 8) else []), r)
    case Store(i, b) => State(Put(g, w.h, i, b), WFilling(w.n, w.h, w.seen, w.ev[i := b]), r)
    case CommitLoad => State(g, WCommitting(w.n, g.head, w.seen, w.ev), r)
    case CommitStore => State(Commit(g, w.h, w.n, w.ev), WIdle, r)
    case ReadHead => State(g, w, RSawHead(g.head, |g.committed|))
    case CheckHeader => State(g, w, if Loadable(r.h, g.tail, g.size, HEADER_SIZE) then RHeader else RIdle)
    case ReadSize => State(g, w, RSized(SizeAtTail(g)))
    case ReadHeadAgain => State(g, w, RSawHeadAgain(r.n, g.head, |g.committed|))
    case CheckEvent => State(g, w, if Loadable(r.h, g.tail, g.size, r.n) then RReading(r.n, []) else RIdle)
    case ReadByte => State(g, w, RReading(r.n, r.got + [g.mem[Adv(g.tail, |r.got|, g.size)]]))
    case Abandon => State(g, w, RIdle)
    case PopReadHead => State(g, w, RPopping(r.got, g.head, |g.committed|))
    case PopCheckHeader => State(g, w, if Loadable(r.h, g.tail, g.size, HEADER_SIZE) then RPopHeader(r.got) else RIdle)
    case PopReadSize => State(g, w, RPopSized(r.got, SizeAtTail(g)))
    case PopStore => State(Pop(g, r.got, r.n), w, RIdle)
  }

  /** The new buffer of RingbufReader's constructor. */
  predicate Init(s: State) {
    && Shaped(s.g) && s.g.size % 8 == 0 && s.g.head == s.g.tail == 0 && s.g.committed == s.g.popped == []
    && s.w == WIdle && s.r == RIdle
  }

  // ---- Layout -------------------------------------------------------------------------

  /** The bytes a sequence of events takes up. */
  function Total(es: seq<Ev>): nat {
    if es == [] then 0 else Round8(|es[0]|) + Total(es[1..])
  }

  lemma {:induction false} TotalAppend(es: seq<Ev>, e: Ev)
    ensures Total(es + [e]) == Total(es) + Round8(|e|)
  {
    if es == [] {
      assert (es + [e])[1..] == [];
    } else {
      assert (es + [e])[1..] == es[1..] + [e];
      TotalAppend(es[1..], e);
    }
  }

  lemma {:induction false} TotalPrefix(es: seq<Ev>, k: nat)
    requires k <= |es|
    ensures Total(es[..k]) <= Total(es)
    decreases |es|
  {
    if k > 0 {
      assert es[..k][1..] == es[1..][..k - 1];
      TotalPrefix(es[1..], k - 1);
    }
  }

  /** The events lie in the buffer one behind the other, from cell a on. */
  ghost predicate Laid(mem: seq<byte>, a: nat, es: seq<Ev>)
    requires |mem| > 0
    decreases |es|
  {
    es == [] ||
    (Seen(mem, a, |es[0]|) == es[0] && Laid(mem, Adv(a, Round8(|es[0]|), |mem|), es[1..]))
  }

  lemma SeenOutside(mem: seq<byte>, a: nat, n: nat, x: nat, b: byte)
    requires n <= x < |mem| && a < |mem|
    ensures Seen(mem[Adv(a, x, |mem|) := b], a, n) == Seen(mem, a, n)
  {
  }

  /** A byte behind the last of the events, and less than a buffer from their first, is in none
      of them. */
  lemma {:induction false} LaidOutside(mem: seq<byte>, a: nat, es: seq<Ev>, x: nat, b: byte)
    requires Total(es) <= x < |mem| && a < |mem| && Laid(mem, a, es)
    ensures Laid(mem[Adv(a, x, |mem|) := b], a, es)
    decreases |es|
  {
    if es != [] {
      var r := Round8(|es[0]|);
      SeenOutside(mem, a, |es[0]|, x, b);
      LaidOutside(mem, Adv(a, r, |mem|), es[1..], x - r, b);
    }
  }

  lemma {:induction false} LaidAppend(mem: seq<byte>, a: nat, es: seq<Ev>, e: Ev)
    requires a < |mem| && Laid(mem, a, es) && Total(es) <= |mem|
    requires Seen(mem, Adv(a, Total(es), |mem|), |e|) == e
    ensures Laid(mem, a, es + [e])
    decreases |es|
  {
    if es == [] {
      assert (es + [e])[1..] == [];
    } else {
      assert (es + [e])[1..] == es[1..] + [e];
      LaidAppend(mem, Adv(a, Round8(|es[0]|), |mem|), es[1..], e);
    }
  }

  // ---- The invariant ------------------------------------------------------------------

  /** An event as reserve and its caller leave it: a header whose size field is its length. */
  predicate WellFormed(e: Ev) {
    HEADER_SIZE <= |e| && FromBytes(e[..8]) == |e|
  }

  function Unread(g: Ring): seq<Ev>
    requires |g.popped| <= |g.committed|
  {
    g.committed[|g.popped|..]
  }

  /** Head and tail, what lies between them, and the history. */
  ghost predicate Core(g: Ring) {
    && Shaped(g)
    && g.tail < g.size
    && g.popped <= g.committed
    && (forall j :: 0 <= j < |g.committed| ==> WellFormed(g.committed[j]))
    && Total(Unread(g)) < g.size
    && g.head == Adv(g.tail, Total(Unread(g)), g.size)
    && Laid(g.mem, g.tail, Unread(g))
  }

  /** How far the reader has got since the writer looked at the tail. */
  function Moved(g: Ring, seen: nat): int {
    Total(g.popped) - seen
  }

  /** The reservation at h is free, even counted against the tail seen then. */
  ghost predicate Reserved(g: Ring, n: nat, h: nat, seen: nat)
    requires |g.popped| <= |g.committed|
  {
    h == g.head && Wanted(n) && 0 <= Moved(g, seen) && Moved(g, seen) + Total(Unread(g)) + Round8(n) <= g.size
  }

  ghost predicate WriterOk(g: Ring, w: Writer)
    requires Shaped(g) && |g.popped| <= |g.committed|
  {
    match w
    case WIdle => true
    case WSawHead(n, h) => h == g.head && Wanted(n)
    case WSawTail(n, h, t, seen) =>
      && h == g.head && Wanted(n) && t < g.size
      && 0 <= Moved(g, seen) && Moved(g, seen) + Total(Unread(g)) < g.size && g.tail == Adv(t, Moved(g, seen), g.size)
    case WClearing(n, h, seen, k) => Reserved(g, n, h, seen) && k <= n && Seen(g.mem, h, k) == Zeros(k)
    case WSizing(n, h, seen, k) => Reserved(g, n, h, seen) && k <= 8 && Seen(g.mem, h, n) == Blank(n, k)
    case WFilling(n, h, seen, ev) => Reserved(g, n, h, seen) && Seen(g.mem, h, n) == ev && ev[..8] == ToBytes(n, 8)
    case WCommitting(n, h, seen, ev) => Reserved(g, n, h, seen) && Seen(g.mem, h, n) == ev && ev[..8] == ToBytes(n, 8)
  }

  /** A head the reader loaded: behind some of the events not yet popped. */
  ghost predicate HeadOk(g: Ring, h: nat, upto: nat) {
    |g.popped| <= upto <= |g.committed| && h == Adv(g.tail, Total(g.committed[|g.popped|..upto]), g.size)
  }

  ghost predicate ReaderOk(g: Ring, r: Reader) {
    var p := |g.popped|;
    match r
    case RIdle => true
    case RSawHead(h, upto) => HeadOk(g, h, upto)
    case RHeader => p < |g.committed|
    case RSized(n) => p < |g.committed| && n == |g.committed[p]|
    case RSawHeadAgain(n, h, upto) => p < upto && HeadOk(g, h, upto) && n == |g.committed[p]|
    case RReading(n, got) => p < |g.committed| && n == |g.committed[p]| && got <= g.committed[p]
    case RPopping(got, h, upto) => p < upto && HeadOk(g, h, upto) && got == g.committed[p]
    case RPopHeader(got) => p < |g.committed| && got == g.committed[p]
    case RPopSized(got, n) => p < |g.committed| && got == g.committed[p] && n == |got|
  }

  ghost predicate Inv(s: State) {
    Core(s.g) && WriterOk(s.g, s.w) && ReaderOk(s.g, s.r)
  }

  // ---- The writer's steps -------------------------------------------------------------

  /** Against the tail it loaded, the writer is granted exactly what leaves no more than `size`
      bytes in use - and less than that when its head is behind that tail. */
  lemma FitsExactlyWhen(t: nat, used: nat, size: nat, n: nat)
    requires t < size && used < size
    ensures var h := Adv(t, used, size);
            Fits(h, t, size, n) <==> used + Round8(n) <= size && (h < t ==> used + Round8(n) < size)
  {
  }

  /** A granted reservation is free, counted against the tail the writer saw. */
  lemma DecideKeepsWriter(g: Ring, w: Writer)
    requires Core(g) && WriterOk(g, w) && w.WSawTail?
    ensures Fits(w.h, w.t, g.size, w.n) ==> Reserved(g, w.n, w.h, w.seen)
  {
    FitsExactlyWhen(w.t, Moved(g, w.seen) + Total(Unread(g)), g.size, w.n);
  }

  /** A byte put into the reservation lies outside everything unread, also if the reader has
      moved on since the writer looked at the tail. */
  lemma PutKeepsCore(g: Ring, n: nat, h: nat, seen: nat, i: nat, b: byte)
    requires Core(g) && Reserved(g, n, h, seen) && i < n
    ensures Core(Put(g, h, i, b)) && Reserved(Put(g, h, i, b), n, h, seen)
  {
    LaidOutside(g.mem, g.tail, Unread(g), Total(Unread(g)) + i, b);
    assert Put(g, h, i, b).mem == g.mem[Adv(g.tail, Total(Unread(g)) + i, g.size) := b];
  }

  lemma PutKeepsReader(g: Ring, h: nat, i: nat, b: byte, r: Reader)
    requires Shaped(g) && ReaderOk(g, r)
    ensures ReaderOk(Put(g, h, i, b), r)
  {
  }

  /** A byte put into the event shows there and nowhere else in it. */
  lemma SeenInside(mem: seq<byte>, h: nat, n: nat, i: nat, b: byte)
    requires i < n <= |mem| && h < |mem|
    ensures Seen(mem[Adv(h, i, |mem|) := b], h, n) == Seen(mem, h, n)[i := b]
  {
  }

  lemma ClearKeepsInv(s: State)
    requires Inv(s) && s.w.WClearing?
    ensures Inv(Apply(s, Clear))
  {
    var n, h, k := s.w.n, s.w.h, s.w.k;
    if k < n {
      PutKeepsCore(s.g, n, h, s.w.seen, k, 0);
      PutKeepsReader(s.g, h, k, 0, s.r);
      ClearNext(s.g.mem, h, k);
    } else {
      assert Zeros(n) == Blank(n, 0);
    }
  }

  lemma ClearNext(mem: seq<byte>, h: nat, k: nat)
    requires k < |mem| && h < |mem| && Seen(mem, h, k) == Zeros(k)
    ensures Seen(mem[Adv(h, k, |mem|) := 0], h, k + 1) == Zeros(k + 1)
  {
    assert Seen(mem, h, k + 1) == Seen(mem, h, k) + [mem[Adv(h, k, |mem|)]];
    SeenInside(mem, h, k + 1, k, 0);
  }

  lemma BlankNext(n: nat, k: nat)
    requires k < 8 <= n
    ensures Blank(n, k)[k := ToBytes(n, 8)[k]] == Blank(n, k + 1)
  {
  }

  lemma WriteSizeKeepsInv(s: State)
    requires Inv(s) && s.w.WSizing?
    ensures Inv(Apply(s, WriteSize))
  {
    var n, h, k := s.w.n, s.w.h, s.w.k;
    if k < 8 {
      var b := ToBytes(n, 8)[k];
      PutKeepsCore(s.g, n, h, s.w.seen, k, b);
      PutKeepsReader(s.g, h, k, b, s.r);
      SeenInside(s.g.mem, h, n, k, b);
      BlankNext(n, k);
    } else {
      assert Blank(n, 8)[..8] == ToBytes(n, 8);
    }
  }

  lemma StoreKeepsInv(s: State, i: nat, b: byte)
    requires Inv(s) && Enabled(s, Store(i, b))
    ensures Inv(Apply(s, Store(i, b)))
  {
    PutKeepsCore(s.g, s.w.n, s.w.h, s.w.seen, i, b);
    PutKeepsReader(s.g, s.w.h, i, b, s.r);
    SeenInside(s.g.mem, s.w.h, s.w.n, i, b);
    assert s.w.ev[i := b][..8] == s.w.ev[..8];
  }

  lemma AdvIsRemainder(a: nat, i: nat, size: nat)
    requires a < size && i <= size
    ensures (a + i) % size == Adv(a, i, size)
  {
    if a + i < size { Remainder(a + i, 0, a + i, size); } else { Remainder(a + i, 1, a + i - size, size); }
  }

  lemma FinishedEvent(n: nat, ev: Ev)
    requires Wanted(n) && |ev| == n && ev[..8] == ToBytes(n, 8)
    ensures WellFormed(ev)
  {
    Power256Of8();
    RoundTrip(n, 8);
  }

  /** A commit puts the event behind the unread ones, and makes the head meet the tail exactly
      if that fills the buffer to the last byte. */
  lemma CommitAppends(g: Ring, n: nat, seen: nat, ev: Ev)
    requires Core(g) && Reserved(g, n, g.head, seen) && |ev| == n
    ensures var g' := Commit(g, g.head, n, ev);
            && Unread(g') == Unread(g) + [ev]
            && Total(Unread(g')) == Total(Unread(g)) + Round8(n)
            && g'.head == Adv(g.tail, Total(Unread(g')), g.size)
            && (g'.head == g.tail <==> Total(Unread(g')) == g.size)
  {
    var g' := Commit(g, g.head, n, ev);
    assert Unread(g') == Unread(g) + [ev];
    TotalAppend(Unread(g), ev);
    AdvIsRemainder(g.head, Round8(n), g.size);
  }

  lemma CommitKeepsCore(g: Ring, n: nat, seen: nat, ev: Ev)
    requires Core(g) && Reserved(g, n, g.head, seen) && Seen(g.mem, g.head, n) == ev && ev[..8] == ToBytes(n, 8)
    requires Commit(g, g.head, n, ev).head != g.tail
    ensures Core(Commit(g, g.head, n, ev))
  {
    CommitAppends(g, n, seen, ev);
    FinishedEvent(n, ev);
    LaidAppend(g.mem, g.tail, Unread(g), ev);
  }

  lemma CommitKeepsReader(g: Ring, h: nat, n: nat, ev: Ev, r: Reader)
    requires Shaped(g) && ReaderOk(g, r)
    ensures ReaderOk(Commit(g, h, n, ev), r)
  {
    if r.RSawHead? || r.RSawHeadAgain? || r.RPopping? {
      assert Commit(g, h, n, ev).committed[|g.popped|..r.upto] == g.committed[|g.popped|..r.upto];
    }
  }

  lemma CommitKeepsInv(s: State)
    requires Inv(s) && s.w.WCommitting? && Apply(s, CommitStore).g.head != s.g.tail
    ensures Inv(Apply(s, CommitStore))
  {
    CommitKeepsCore(s.g, s.w.n, s.w.seen, s.w.ev);
    CommitKeepsReader(s.g, s.w.h, s.w.n, s.w.ev, s.r);
  }

  lemma WriterLooksKeepInv(s: State, a: Action)
    requires Inv(s) && Enabled(s, a) && (a.LoadHead? || a.LoadTail? || a.Decide? || a.CommitLoad?)
    ensures Inv(Apply(s, a))
  {
    if a.Decide? { DecideKeepsWriter(s.g, s.w); }
  }

  // ---- The reader's steps -------------------------------------------------------------

  /** What lies between tail and a loaded head can be loaded, and nothing more. */
  lemma LoadableExactlyWhen(tail: nat, ahead: nat, size: nat, n: nat)
    requires tail < size && ahead < size
    ensures Loadable(Adv(tail, ahead, size), tail, size, n) <==> Round8(n) <= ahead
  {
  }

  /** A loaded head is the end of a whole number of events, so a header can be loaded only if
      its entire event can. */
  lemma HeadBounds(g: Ring, h: nat, upto: nat)
    requires Core(g) && HeadOk(g, h, upto)
    ensures Loadable(h, g.tail, g.size, HEADER_SIZE) <==> |g.popped| < upto
    ensures |g.popped| < upto ==> Loadable(h, g.tail, g.size, |g.committed[|g.popped|]|)
  {
    var es := g.committed[|g.popped|..upto];
    assert es == Unread(g)[..upto - |g.popped|];
    TotalPrefix(Unread(g), upto - |g.popped|);
    LoadableExactlyWhen(g.tail, Total(es), g.size, HEADER_SIZE);
    if es != [] { LoadableExactlyWhen(g.tail, Total(es), g.size, |es[0]|); }
  }

  lemma FrontIsStored(g: Ring)
    requires Core(g) && |g.popped| < |g.committed|
    ensures SizeAtTail(g) == |g.committed[|g.popped|]|
    ensures Seen(g.mem, g.tail, |g.committed[|g.popped|]|) == g.committed[|g.popped|]
  {
    var e := Unread(g)[0];
    assert e == g.committed[|g.popped|] && WellFormed(e);
    assert Seen(g.mem, g.tail, 8) == Seen(g.mem, g.tail, |e|)[..8];
  }

  lemma ReaderLoadsHead(g: Ring)
    requires Core(g)
    ensures HeadOk(g, g.head, |g.committed|)
  {
    assert g.committed[|g.popped|..|g.committed|] == Unread(g);
  }

  lemma ReaderChecksKeepInv(s: State, a: Action)
    requires Inv(s) && Enabled(s, a) && (a.CheckHeader? || a.CheckEvent? || a.PopCheckHeader?)
    ensures Inv(Apply(s, a))
  {
    HeadBounds(s.g, s.r.h, s.r.upto);
  }

  lemma ReaderReadsKeepInv(s: State, a: Action)
    requires Inv(s) && Enabled(s, a) && (a.ReadSize? || a.ReadByte? || a.PopReadSize?)
    ensures Inv(Apply(s, a))
  {
    FrontIsStored(s.g);
  }

  lemma ReaderLoadsKeepInv(s: State, a: Action)
    requires Inv(s) && Enabled(s, a) && (a.ReadHead? || a.ReadHeadAgain? || a.PopReadHead? || a.Abandon?)
    ensures Inv(Apply(s, a))
  {
    ReaderLoadsHead(s.g);
  }

  lemma PopKeepsCore(g: Ring, got: Ev)
    requires Core(g) && |g.popped| < |g.committed| && got == g.committed[|g.popped|]
    ensures var g' := Pop(g, got, |got|);
            Core(g') && Total(Unread(g)) == Round8(|got|) + Total(Unread(g')) && g'.tail == Adv(g.tail, Round8(|got|), g.size)
  {
    var g' := Pop(g, got, |got|);
    assert Unread(g') == Unread(g)[1..];
    assert g'.popped == g.committed[..|g.popped| + 1];
    AdvIsRemainder(g.tail, Round8(|got|), g.size);
  }

  lemma PopKeepsWriter(g: Ring, got: Ev, w: Writer)
    requires Core(g) && |g.popped| < |g.committed| && got == g.committed[|g.popped|] && WriterOk(g, w)
    ensures |g.popped| < |g.committed| && WriterOk(Pop(g, got, |got|), w)
  {
    PopKeepsCore(g, got);
    TotalAppend(g.popped, got);
  }

  lemma PopKeepsInv(s: State)
    requires Inv(s) && s.r.RPopSized?
    ensures Inv(Apply(s, PopStore))
  {
    PopKeepsCore(s.g, s.r.got);
    PopKeepsWriter(s.g, s.r.got, s.w);
  }

  // ---- All runs -----------------------------------------------------------------------

  /** The one thing a run must not do: commit an event that makes head and tail meet. */
  predicate FillsExactly(s: State, a: Action)
    requires Shaped(s.g) && Enabled(s, a)
  {
    a.CommitStore? && Apply(s, a).g.head == s.g.tail
  }

  lemma StepKeepsInv(s: State, a: Action)
    requires Inv(s) && Enabled(s, a) && !FillsExactly(s, a)
    ensures Inv(Apply(s, a))
  {
    match a
    case LoadHead(n) => WriterLooksKeepInv(s, a);
    case LoadTail => WriterLooksKeepInv(s, a);
    case Decide => WriterLooksKeepInv(s, a);
    case CommitLoad => WriterLooksKeepInv(s, a);
    case Clear => ClearKeepsInv(s);
    case WriteSize => WriteSizeKeepsInv(s);
    case Store(i, b) => StoreKeepsInv(s, i, b);
    case CommitStore => CommitKeepsInv(s);
    case PopStore => PopKeepsInv(s);
    case ReadSize => ReaderReadsKeepInv(s, a);
    case ReadByte => ReaderReadsKeepInv(s, a);
    case PopReadSize => ReaderReadsKeepInv(s, a);
    case CheckHeader => ReaderChecksKeepInv(s, a);
    case CheckEvent => ReaderChecksKeepInv(s, a);
    case PopCheckHeader => ReaderChecksKeepInv(s, a);
    case _ => ReaderLoadsKeepInv(s, a);
  }

  /** A run: actions, each enabled where it happens, none filling the buffer exactly. */
  predicate ValidRun(s: State, acts: seq<Action>)
    requires Shaped(s.g)
    decreases |acts|
  {
    acts == [] ||
    (Enabled(s, acts[0]) && !FillsExactly(s, acts[0]) && ValidRun(Apply(s, acts[0]), acts[1..]))
  }

  function Run(s: State, acts: seq<Action>): (s': State)
    requires Shaped(s.g) && ValidRun(s, acts)
    ensures Shaped(s'.g)
    decreases |acts|
  {
    if acts == [] then s else Run(Apply(s, acts[0]), acts[1..])
  }

  lemma {:induction false} RunKeepsInv(s: State, acts: seq<Action>)
    requires Inv(s) && ValidRun(s, acts)
    ensures Inv(Run(s, acts))
    decreases |acts|
  {
    if acts != [] {
      StepKeepsInv(s, acts[0]);
      RunKeepsInv(Apply(s, acts[0]), acts[1..]);
    }
  }

  /** In every interleaving, what the reader got is what the writer committed: the same events
      in the same order, byte for byte, up to those still in the buffer. The reader finds the
      buffer empty exactly when it has read everything. */
  lemma PoppedIsPrefixOfCommitted(s: State, acts: seq<Action>)
    requires Init(s) && ValidRun(s, acts)
    ensures var g := Run(s, acts).g;
            && g.popped <= g.committed
            && (Loadable(g.head, g.tail, g.size, HEADER_SIZE) <==> |g.popped| < |g.committed|)
  {
    RunKeepsInv(s, acts);
    SeesEmptyExactlyWhenDrained(Run(s, acts).g);
  }

  lemma SeesEmptyExactlyWhenDrained(g: Ring)
    requires Core(g)
    ensures Loadable(g.head, g.tail, g.size, HEADER_SIZE) <==> |g.popped| < |g.committed|
  {
    ReaderLoadsHead(g);
    HeadBounds(g, g.head, |g.committed|);
  }

  /** No step of the writer changes a byte of an unread event, however old the tail it goes by. */
  lemma UnreadBytesAreUntouched(s: State, a: Action, x: nat)
    requires Inv(s) && Enabled(s, a) && x < Total(Unread(s.g))
    ensures Apply(s, a).g.mem[Adv(s.g.tail, x, s.g.size)] == s.g.mem[Adv(s.g.tail, x, s.g.size)]
  {
  }

  /** Once empty() has answered no, get() does not fail: its second check always passes. */
  lemma GetAfterNonEmptySucceeds(s: State)
    requires Inv(s) && s.r.RSawHeadAgain?
    ensures Apply(s, CheckEvent).r.RReading?
  {
    HeadBounds(s.g, s.r.h, s.r.upto);
  }

  /** The side condition is exact. In any reachable state, a commit leaves the reader with a
      true picture - empty if and only if everything was read - exactly when it does not make
      head and tail meet; if it does, every unread event has become invisible. */
  lemma ExactFillHidesEverything(s: State)
    requires Inv(s) && s.w.WCommitting?
    ensures var g := Apply(s, CommitStore).g;
            (Loadable(g.head, g.tail, g.size, HEADER_SIZE) <==> |g.popped| < |g.committed|)
              <==> !FillsExactly(s, CommitStore)
  {
    if !FillsExactly(s, CommitStore) {
      CommitKeepsCore(s.g, s.w.n, s.w.seen, s.w.ev);
      SeesEmptyExactlyWhenDrained(Apply(s, CommitStore).g);
    }
  }

  // ---- The writer on its own ----------------------------------------------------------

  lemma {:induction false} RunAppend(s: State, a: seq<Action>, b: seq<Action>)
    requires Shaped(s.g) && ValidRun(s, a) && ValidRun(Run(s, a), b)
    ensures ValidRun(s, a + b) && Run(s, a + b) == Run(Run(s, a), b)
    decreases |a|
  {
    if a == [] {
      assert a + b == b;
    } else {
      assert (a + b)[0] == a[0] && (a + b)[1..] == a[1..] + b;
      RunAppend(Apply(s, a[0]), a[1..], b);
    }
  }

  function Repeat(a: Action, k: nat): seq<Action> {
    if k == 0 then [] else [a] + Repeat(a, k - 1)
  }

  /** The rest of a reservation once it was granted. */
  function Prepare(n: nat): seq<Action> {
    Repeat(Clear, n) + ([Clear] + Repeat(WriteSize, 9))
  }

  /** All of reserve(), for a reservation that is granted. */
  function Reserve(n: nat): seq<Action> {
    [LoadHead(n), LoadTail, Decide] + Prepare(n)
  }

  /** Nothing but the bytes of the buffer and the place of the writer is different. */
  ghost predicate OnlyBytes(s: State, s': State) {
    s'.r == s.r && s'.g == s.g.(mem := s'.g.mem) && |s'.g.mem| == |s.g.mem|
  }

  lemma {:induction false} ClearsAlone(s: State, j: nat)
    requires Shaped(s.g) && s.w.WClearing? && s.w.k + j <= s.w.n <= s.g.size && s.w.h < s.g.size
    requires Seen(s.g.mem, s.w.h, s.w.k) == Zeros(s.w.k)
    ensures ValidRun(s, Repeat(Clear, j))
    ensures var s' := Run(s, Repeat(Clear, j));
            && OnlyBytes(s, s') && s'.w == WClearing(s.w.n, s.w.h, s.w.seen, s.w.k + j)
            && Seen(s'.g.mem, s.w.h, s.w.k + j) == Zeros(s.w.k + j)
    decreases j
  {
    if j != 0 {
      ClearNext(s.g.mem, s.w.h, s.w.k);
      ClearsAlone(Apply(s, Clear), j - 1);
      assert Repeat(Clear, j)[1..] == Repeat(Clear, j - 1);
    }
  }

  lemma {:induction false} SizesAlone(s: State)
    requires Shaped(s.g) && s.w.WSizing? && s.w.k <= 8 <= s.w.n
    ensures ValidRun(s, Repeat(WriteSize, 9 - s.w.k))
    ensures var s' := Run(s, Repeat(WriteSize, 9 - s.w.k));
            OnlyBytes(s, s') && s'.w == WFilling(s.w.n, s.w.h, s.w.seen, Blank(s.w.n, 8))
    decreases 8 - s.w.k
  {
    var s1 := Apply(s, WriteSize);
    assert Repeat(WriteSize, 9 - s.w.k)[1..] == Repeat(WriteSize, 8 - s.w.k);
    if s.w.k < 8 { SizesAlone(s1); } else { assert Repeat(WriteSize, 0) == []; }
  }

  lemma PrepareAlone(s: State)
    requires Shaped(s.g) && s.w.WClearing? && s.w.k == 0 && 8 <= s.w.n <= s.g.size && s.w.h < s.g.size
    ensures ValidRun(s, Prepare(s.w.n))
    ensures var s' := Run(s, Prepare(s.w.n));
            OnlyBytes(s, s') && s'.w == WFilling(s.w.n, s.w.h, s.w.seen, Blank(s.w.n, 8))
  {
    var n := s.w.n;
    assert Seen(s.g.mem, s.w.h, 0) == Zeros(0);
    ClearsAlone(s, n);
    var s1 := Run(s, Repeat(Clear, n));
    SizesAlone(Apply(s1, Clear));
    assert ([Clear] + Repeat(WriteSize, 9))[1..] == Repeat(WriteSize, 9);
    assert ValidRun(s1, [Clear] + Repeat(WriteSize, 9));
    RunAppend(s, Repeat(Clear, n), [Clear] + Repeat(WriteSize, 9));
  }

  /** The three steps of head(), by themselves. */
  lemma AskAlone(s: State, n: nat)
    requires Shaped(s.g) && s.w.WIdle? && 16 <= n < 0x8000_0000_0000_0000
    ensures ValidRun(s, [LoadHead(n), LoadTail, Decide])
    ensures Run(s, [LoadHead(n), LoadTail, Decide])
         == s.(w := if Fits(s.g.head, s.g.tail, s.g.size, n) then WClearing(n, s.g.head, Total(s.g.popped), 0) else WIdle)
  {
    var acts := [LoadHead(n), LoadTail, Decide];
    var s1 := Apply(s, LoadHead(n));
    var s2 := Apply(s1, LoadTail);
    assert acts[1..] == [LoadTail, Decide] && acts[1..][1..] == [Decide] && acts[1..][1..][1..] == [];
    assert ValidRun(s2, [Decide]) && Run(s2, [Decide]) == Apply(s2, Decide);
    assert ValidRun(s1, acts[1..]) && Run(s1, acts[1..]) == Apply(s2, Decide);
  }

  lemma ReserveAlone(s: State, n: nat)
    requires Shaped(s.g) && s.w.WIdle? && Wanted(n) && s.g.head < s.g.size && s.g.tail < s.g.size
    requires Fits(s.g.head, s.g.tail, s.g.size, n)
    ensures ValidRun(s, Reserve(n))
    ensures var s' := Run(s, Reserve(n));
            OnlyBytes(s, s') && s'.w == WFilling(n, s.g.head, Total(s.g.popped), Blank(n, 8))
  {
    AskAlone(s, n);
    var s1 := Run(s, [LoadHead(n), LoadTail, Decide]);
    PrepareAlone(s1);
    RunAppend(s, [LoadHead(n), LoadTail, Decide], Prepare(n));
  }

  // ---- The reader on its own ----------------------------------------------------------

  /** empty() says so exactly if all events committed when it loaded the head were popped. */
  lemma EmptyExactlyWhen(s: State)
    requires Inv(s) && s.r.RSawHead?
    ensures Apply(s, CheckHeader).r == if s.r.upto == |s.g.popped| then RIdle else RHeader
  {
    HeadBounds(s.g, s.r.h, s.r.upto);
  }

  ghost predicate Leads(s: State, t: State)
    requires Shaped(s.g)
  {
    exists acts :: ValidRun(s, acts) && Run(s, acts) == t
  }

  lemma LeadsNext(s: State, t: State, a: Action)
    requires Shaped(s.g) && Shaped(t.g) && Leads(s, t) && Enabled(t, a) && !FillsExactly(t, a)
    ensures Leads(s, Apply(t, a))
  {
    var acts :| ValidRun(s, acts) && Run(s, acts) == t;
    OneMore(s, acts, a);
  }

  lemma LeadsSelf(s: State)
    requires Shaped(s.g)
    ensures Leads(s, s)
  {
    assert ValidRun(s, []) && Run(s, []) == s;
  }

  lemma ByteAlone(g: Ring, w: Writer, n: nat, got: Ev)
    requires Core(g) && |g.popped| < |g.committed| && n == |g.committed[|g.popped|]|
    requires |got| < n && got == g.committed[|g.popped|][..|got|]
    ensures Apply(State(g, w, RReading(n, got)), ReadByte) == State(g, w, RReading(n, g.committed[|g.popped|][..|got| + 1]))
  {
    FrontIsStored(g);
    var e := g.committed[|g.popped|];
    assert Seen(g.mem, g.tail, n)[|got|] == e[|got|];
    assert e[..|got| + 1] == e[..|got|] + [e[|got|]];
  }

  lemma {:induction false} BytesAlone(s: State, g: Ring, w: Writer, k: nat)
    requires Shaped(s.g) && Core(g) && |g.popped| < |g.committed| && k <= |g.committed[|g.popped|]|
    requires Leads(s, State(g, w, RReading(|g.committed[|g.popped|]|, [])))
    ensures Leads(s, State(g, w, RReading(|g.committed[|g.popped|]|, g.committed[|g.popped|][..k])))
  {
    var e := g.committed[|g.popped|];
    if k == 0 {
      assert e[..0] == [];
    } else {
      BytesAlone(s, g, w, k - 1);
      ByteAlone(g, w, |e|, e[..k - 1]);
      LeadsNext(s, State(g, w, RReading(|e|, e[..k - 1])), ReadByte);
    }
  }

  /** The steps of the reader up to the first byte of an event. */
  lemma LookAlone(g: Ring, w: Writer)
    requires Core(g) && |g.popped| < |g.committed|
    ensures Leads(State(g, w, RIdle), State(g, w, RReading(|g.committed[|g.popped|]|, [])))
  {
    var n, upto := |g.committed[|g.popped|]|, |g.committed|;
    var s, s1 := State(g, w, RIdle), State(g, w, RSawHead(g.head, upto));
    var s2, s3 := State(g, w, RHeader), State(g, w, RSized(n));
    var s4 := State(g, w, RSawHeadAgain(n, g.head, upto));
    ReaderLoadsHead(g);
    HeadBounds(g, g.head, upto);
    FrontIsStored(g);
    LeadsSelf(s);
    LeadsNext(s, s, ReadHead);
    LeadsNext(s, s1, CheckHeader);
    LeadsNext(s, s2, ReadSize);
    LeadsNext(s, s3, ReadHeadAgain);
    LeadsNext(s, s4, CheckEvent);
  }

  lemma PopAlone(s: State, g: Ring, w: Writer)
    requires Shaped(s.g) && Core(g) && |g.popped| < |g.committed|
    requires Leads(s, State(g, w, RReading(|g.committed[|g.popped|]|, g.committed[|g.popped|])))
    ensures var got := g.committed[|g.popped|];
            Leads(s, State(Pop(g, got, |got|), w, RIdle))
  {
    var got, upto := g.committed[|g.popped|], |g.committed|;
    ReaderLoadsHead(g);
    HeadBounds(g, g.head, upto);
    FrontIsStored(g);
    LeadsNext(s, State(g, w, RReading(|got|, got)), PopReadHead);
    LeadsNext(s, State(g, w, RPopping(got, g.head, upto)), PopCheckHeader);
    LeadsNext(s, State(g, w, RPopHeader(got)), PopReadSize);
    LeadsNext(s, State(g, w, RPopSized(got, |got|)), PopStore);
  }

  /** Nothing gets stuck: whatever the writer is at, the reader by itself can take the next
      unread event out of the buffer. */
  lemma NextEventCanBeRead(s: State)
    requires Inv(s) && s.r.RIdle? && |s.g.popped| < |s.g.committed|
    ensures exists s' :: Leads(s, s')
              && s'.r.RIdle? && s'.w == s.w && s'.g.committed == s.g.committed
              && s'.g.popped == s.g.popped + [s.g.committed[|s.g.popped|]]
  {
    var e := s.g.committed[|s.g.popped|];
    LookAlone(s.g, s.w);
    BytesAlone(s, s.g, s.w, |e|);
    assert e[..|e|] == e;
    PopAlone(s, s.g, s.w);
    var s' := State(Pop(s.g, e, |e|), s.w, RIdle);
    assert s'.g.popped == s.g.popped + [e];
  }

  // ---- What an exact fill does --------------------------------------------------------

  /** It can happen: from a new buffer, reserving all of its bytes leads to a commit that brings
      the head back to where the tail is. */
  lemma WholeBufferIsGranted(s: State)
    requires Init(s) && Wanted(s.g.size)
    ensures var acts := Reserve(s.g.size) + [CommitLoad];
            ValidRun(s, acts) && Inv(Run(s, acts)) && Run(s, acts).w.WCommitting? && FillsExactly(Run(s, acts), CommitStore)
  {
    var n := s.g.size;
    assert Round8(n) == n;
    ReserveAlone(s, n);
    OneMore(s, Reserve(n), CommitLoad);
    RunKeepsInv(s, Reserve(n) + [CommitLoad]);
    WholeCommitMeets(Run(s, Reserve(n) + [CommitLoad]));
  }

  lemma WholeCommitMeets(s: State)
    requires Shaped(s.g) && s.w.WCommitting? && s.w.n == s.g.size && s.w.n % 8 == 0 && s.w.h == s.g.tail == 0
    ensures FillsExactly(s, CommitStore)
  {
    assert Round8(s.w.n) == s.w.n;
    AdvIsRemainder(0, s.w.n, s.g.size);
  }

  lemma JustOne(s: State, a: Action)
    requires Shaped(s.g) && Enabled(s, a) && !FillsExactly(s, a)
    ensures ValidRun(s, [a]) && Run(s, [a]) == Apply(s, a)
  {
    var s1 := Apply(s, a);
    assert ValidRun(s1, []) && Run(s1, []) == s1;
    assert [a][0] == a && [a][1..] == [];
    assert Run(s, [a]) == Run(s1, [a][1..]);
  }

  lemma OneMore(s: State, acts: seq<Action>, a: Action)
    requires Shaped(s.g) && ValidRun(s, acts) && Enabled(Run(s, acts), a) && !FillsExactly(Run(s, acts), a)
    ensures ValidRun(s, acts + [a]) && Run(s, acts + [a]) == Apply(Run(s, acts), a)
  {
    JustOne(Run(s, acts), a);
    RunAppend(s, acts, [a]);
  }

  /** When head and tail meet, the writer is granted anything that fits into the whole buffer,
      and starts by clearing what the tail points at. */
  lemma ClearedWhenMet(s: State, n: nat)
    requires Shaped(s.g) && s.w.WIdle? && s.g.head == s.g.tail < s.g.size && Wanted(n)
    ensures Fits(s.g.head, s.g.tail, s.g.size, n) <==> Round8(n) <= s.g.size
    ensures var acts := [LoadHead(n), LoadTail, Decide] + Repeat(Clear, 8);
            Round8(n) <= s.g.size ==> ValidRun(s, acts) && OnlyBytes(s, Run(s, acts)) && SizeAtTail(Run(s, acts).g) == 0
  {
    if Round8(n) <= s.g.size {
      AskAlone(s, n);
      var s1 := Run(s, [LoadHead(n), LoadTail, Decide]);
      assert Seen(s1.g.mem, s1.w.h, 0) == Zeros(0);
      ClearsAlone(s1, 8);
      RunAppend(s, [LoadHead(n), LoadTail, Decide], Repeat(Clear, 8));
      SizeOfZeros();
    }
  }

  lemma SeenSize(mem: seq<byte>, a: nat, e: Ev)
    requires |mem| > 0 && WellFormed(e) && Seen(mem, a, |e|) == e
    ensures FromBytes(Seen(mem, a, 8)) == |e|
  {
    assert Seen(mem, a, 8) == Seen(mem, a, |e|)[..8];
  }

  /** The oldest unread event behind a commit, the new one included. */
  lemma FrontAfterCommit(g: Ring, n: nat, seen: nat, ev: Ev)
    requires Core(g) && Reserved(g, n, g.head, seen) && Seen(g.mem, g.head, n) == ev && WellFormed(ev)
    ensures var g' := Commit(g, g.head, n, ev);
            |g'.popped| < |g'.committed| && HEADER_SIZE <= |Unread(g')[0]| == SizeAtTail(g')
  {
    if Unread(g) == [] {
      SeenSize(g.mem, g.tail, ev);
    } else {
      FrontIsStored(g);
    }
  }

  lemma FullAfterExactFill(s: State)
    requires Inv(s) && s.w.WCommitting? && FillsExactly(s, CommitStore)
    ensures var g := Apply(s, CommitStore).g;
            && |g.popped| < |g.committed| && g.head == g.tail < g.size
            && HEADER_SIZE <= |Unread(g)[0]| == SizeAtTail(g)
  {
    FinishedEvent(s.w.n, s.w.ev);
    FrontAfterCommit(s.g, s.w.n, s.w.seen, s.w.ev);
  }

  /** And it does not stop at hiding: the next reservation, of any size up to the whole buffer, is
      granted, and clearing it wipes out the size of the oldest unread event. */
  lemma ExactFillIsOverwritten(s: State, n: nat)
    requires Inv(s) && s.w.WCommitting? && FillsExactly(s, CommitStore) && Wanted(n)
    ensures var s1 := Apply(s, CommitStore);
            && |s1.g.popped| < |s1.g.committed| && HEADER_SIZE <= |Unread(s1.g)[0]| == SizeAtTail(s1.g)
            && (Fits(s1.g.head, s1.g.tail, s1.g.size, n) <==> Round8(n) <= s1.g.size)
    ensures var s1 := Apply(s, CommitStore);
            var acts := [LoadHead(n), LoadTail, Decide] + Repeat(Clear, 8);
            Round8(n) <= s1.g.size ==>
              ValidRun(s1, acts) && OnlyBytes(s1, Run(s1, acts)) && SizeAtTail(Run(s1, acts).g) == 0
  {
    FullAfterExactFill(s);
    ClearedWhenMet(Apply(s, CommitStore), n);
  }

  lemma SizeOfZeros()
    ensures FromBytes(Zeros(8)) == 0
  {
    Power256Of8();
    RoundTrip(0, 8);
    assert ToBytes(0, 8) == Zeros(8);
  }

  /** Every offset stays a multiple of eight, so head() and tail() never find one misaligned. */
  lemma {:induction false} RunKeepsAlignment(s: State, acts: seq<Action>)
    requires Inv(s) && ValidRun(s, acts)
    requires s.g.size % 8 == 0 && s.g.head % 8 == 0 && s.g.tail % 8 == 0
    ensures Run(s, acts).g.head % 8 == 0 && Run(s, acts).g.tail % 8 == 0
    decreases |acts|
  {
    if acts != [] {
      StepKeepsInv(s, acts[0]);
      StepKeepsAlignment(s, acts[0]);
      RunKeepsAlignment(Apply(s, acts[0]), acts[1..]);
    }
  }

  lemma AlignedAdvance(a: nat, i: nat, size: nat)
    requires a < size && i <= size && a % 8 == 0 && i % 8 == 0 && size % 8 == 0
    ensures (a + i) % size % 8 == 0
  {
    AdvIsRemainder(a, i, size);
  }

  lemma CommitKeepsAlignment(g: Ring, n: nat, seen: nat, ev: Ev)
    requires Core(g) && Reserved(g, n, g.head, seen) && g.size % 8 == 0 && g.head % 8 == 0
    ensures Commit(g, g.head, n, ev).head % 8 == 0
  {
    AlignedAdvance(g.head, Round8(n), g.size);
  }

  lemma PopKeepsAlignment(g: Ring, got: Ev)
    requires Core(g) && |g.popped| < |g.committed| && got == g.committed[|g.popped|] && g.size % 8 == 0 && g.tail % 8 == 0
    ensures Pop(g, got, |got|).tail % 8 == 0
  {
    FrontFits(g);
    AlignedAdvance(g.tail, Round8(|got|), g.size);
  }

  lemma StepKeepsAlignment(s: State, a: Action)
    requires Inv(s) && Enabled(s, a) && s.g.size % 8 == 0 && s.g.head % 8 == 0 && s.g.tail % 8 == 0
    ensures var g := Apply(s, a).g; g.size == s.g.size && g.head % 8 == 0 && g.tail % 8 == 0
  {
    if a.CommitStore? {
      CommitKeepsAlignment(s.g, s.w.n, s.w.seen, s.w.ev);
    } else if a.PopStore? {
      PopKeepsAlignment(s.g, s.r.got);
    }
  }

  lemma FrontFits(g: Ring)
    requires Core(g) && |g.popped| < |g.committed|
    ensures Round8(|g.committed[|g.popped|]|) <= g.size
  {
    assert Unread(g)[0] == g.committed[|g.popped|];
  }
}
