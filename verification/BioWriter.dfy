/** The block I/O writer (src/perf/bio/writer.cpp): queue, issue and completion tracepoints of
    a block device become begin, issued and complete events of an I/O operation, with the
    bytes in flight per device and start sector kept in a cache. */
module BioWriter {

  datatype Tracepoint = BioQueue | RqIssue | RqComplete | OtherTracepoint

  /** The fields of the tracepoint record the writer looks at; rw is the first letter of rwbs. */
  datatype Record = Record(dev: nat, sector: nat, nrSector: nat, rw: char)

  datatype Mode = Read | Write

  datatype IoEvent =
    | Begin(time: nat, dev: nat, mode: Mode, size: nat, sector: nat)
    | Issued(time: nat, dev: nat, sector: nat)
    | Complete(time: nat, dev: nat, size: nat, sector: nat)

  const SECTOR_SIZE := 512
  const U32 := 0x1_0000_0000
  const U64 := 0x1_0000_0000_0000_0000

  type Cache = map<nat, map<nat, nat>>

  datatype Output = Output(cache: Cache, out: seq<IoEvent>)

  const EMPTY := Output(map[], [])

  /** Reading sector_cache_[dev][sector]: what is not there counts as 0. */
  function InFlight(cache: Cache, dev: nat, sector: nat): nat {
    if dev in cache && sector in cache[dev] then cache[dev][sector] else 0
  }

  /** Writing it, creating whatever is not there. */
  function Set(cache: Cache, dev: nat, sector: nat, bytes: nat): Cache {
    cache[dev := (if dev in cache then cache[dev] else map[])[sector := bytes]]
  }

  /** The product is formed in 32 bits. */
  function Size(r: Record): nat {
    r.nrSector * SECTOR_SIZE % U32
  }

  /** More bytes are in flight, and a begin event says so; the counter has 64 bits. */
  function Started(o: Output, e: IoEvent): Output
    requires e.Begin?
  {
    Output(Set(o.cache, e.dev, e.sector, (InFlight(o.cache, e.dev, e.sector) + e.size) % U64), o.out + [e])
  }

  function OnQueue(o: Output, time: nat, r: Record): Output {
    if r.rw != 'R' && r.rw != 'W' then o
    else Started(o, Begin(time, r.dev, if r.rw == 'R' then Read else Write, Size(r), r.sector))
  }

  function OnIssue(o: Output, time: nat, r: Record): Output {
    if r.dev !in o.cache || r.sector !in o.cache[r.dev] then o
    else o.(out := o.out + [Issued(time, r.dev, r.sector)])
  }

  /** The guard asks for an unknown device and an unknown sector; by asking for the sector it
      makes the device known. */
  function OnComplete(o: Output, time: nat, r: Record): Output {
    if r.dev !in o.cache then o.(cache := o.cache[r.dev := map[]])
    else
      Output(Set(o.cache, r.dev, r.sector, 0),
             o.out + [Complete(time, r.dev, InFlight(o.cache, r.dev, r.sector), r.sector)])
  }

  function WriteOne(o: Output, tp: Tracepoint, time: nat, r: Record): Output {
    match tp
    case BioQueue => OnQueue(o, time, r)
    case RqIssue => OnIssue(o, time, r)
    case RqComplete => OnComplete(o, time, r)
    case OtherTracepoint => o
  }

  datatype Input = Input(tp: Tracepoint, time: nat, r: Record)

  function WriteAll(ins: seq<Input>): Output {
    if ins == [] then EMPTY
    else
      var i := ins[|ins| - 1];
      WriteOne(WriteAll(ins[..|ins| - 1]), i.tp, i.time, i.r)
  }

  // ---- Conservation -------------------------------------------------------------------

  /** Bytes in the begin events of one device and start sector. */
  function Begun(es: seq<IoEvent>, dev: nat, sector: nat): nat {
    if es == [] then 0
    else
      var e := es[|es| - 1];
      Begun(es[..|es| - 1], dev, sector) + if e.Begin? && e.dev == dev && e.sector == sector then e.size else 0
  }

  function Completed(es: seq<IoEvent>, dev: nat, sector: nat): nat {
    if es == [] then 0
    else
      var e := es[|es| - 1];
      Completed(es[..|es| - 1], dev, sector) + if e.Complete? && e.dev == dev && e.sector == sector then e.size else 0
  }

  /** What was begun is complete or still in flight: modulo the width of the counters, and
      exactly as long as fewer than 2^64 bytes were begun there. */
  predicate Balanced(begun: nat, completed: nat, flight: nat) {
    (completed + flight) % U64 == begun % U64 && (begun < U64 ==> completed + flight == begun)
  }

  ghost predicate Conserved(o: Output, dev: nat, sector: nat) {
    Balanced(Begun(o.out, dev, sector), Completed(o.out, dev, sector), InFlight(o.cache, dev, sector))
  }

  lemma AddBalanced(begun: nat, completed: nat, flight: nat, size: nat)
    requires Balanced(begun, completed, flight)
    ensures Balanced(begun + size, completed, (flight + size) % U64)
  {
    var q := (flight + size) / U64;
    assert (flight + size) % U64 == flight + size - U64 * q;
    var a, b := completed + flight, begun;
    assert a - b == U64 * (a / U64 - b / U64);
  }

  lemma EventCounts(es: seq<IoEvent>, e: IoEvent, dev: nat, sector: nat)
    ensures Begun(es + [e], dev, sector)
         == Begun(es, dev, sector) + if e.Begin? && e.dev == dev && e.sector == sector then e.size else 0
    ensures Completed(es + [e], dev, sector)
         == Completed(es, dev, sector) + if e.Complete? && e.dev == dev && e.sector == sector then e.size else 0
  {
    assert (es + [e])[..|es|] == es;
  }

  lemma SetReads(cache: Cache, dev: nat, sector: nat, bytes: nat, d: nat, s: nat)
    ensures InFlight(Set(cache, dev, sector, bytes), d, s) == if d == dev && s == sector then bytes else InFlight(cache, d, s)
  {
  }

  lemma BeginConserves(o: Output, e: IoEvent, dev: nat, sector: nat)
    requires Conserved(o, dev, sector) && e.Begin?
    ensures Conserved(Started(o, e), dev, sector)
  {
    var bytes := (InFlight(o.cache, e.dev, e.sector) + e.size) % U64;
    EventCounts(o.out, e, dev, sector);
    SetReads(o.cache, e.dev, e.sector, bytes, dev, sector);
    AddBalanced(Begun(o.out, dev, sector), Completed(o.out, dev, sector), InFlight(o.cache, dev, sector), e.size);
  }

  lemma CompleteConserves(o: Output, e: IoEvent, dev: nat, sector: nat)
    requires Conserved(o, dev, sector) && e.Complete? && e.size == InFlight(o.cache, e.dev, e.sector)
    ensures Conserved(Output(Set(o.cache, e.dev, e.sector, 0), o.out + [e]), dev, sector)
  {
    EventCounts(o.out, e, dev, sector);
    SetReads(o.cache, e.dev, e.sector, 0, dev, sector);
  }

  lemma QueueConserves(o: Output, time: nat, r: Record, dev: nat, sector: nat)
    requires Conserved(o, dev, sector)
    ensures Conserved(OnQueue(o, time, r), dev, sector)
  {
    if r.rw == 'R' || r.rw == 'W' {
      BeginConserves(o, Begin(time, r.dev, if r.rw == 'R' then Read else Write, Size(r), r.sector), dev, sector);
    }
  }

  lemma DoneConserves(o: Output, time: nat, r: Record, dev: nat, sector: nat)
    requires Conserved(o, dev, sector)
    ensures Conserved(OnComplete(o, time, r), dev, sector)
  {
    if r.dev in o.cache {
      CompleteConserves(o, Complete(time, r.dev, InFlight(o.cache, r.dev, r.sector), r.sector), dev, sector);
    }
  }

  lemma StepConserves(o: Output, i: Input, dev: nat, sector: nat)
    requires Conserved(o, dev, sector)
    ensures Conserved(WriteOne(o, i.tp, i.time, i.r), dev, sector)
  {
    match i.tp
    case BioQueue => QueueConserves(o, i.time, i.r, dev, sector);
    case RqIssue => EventCounts(o.out, Issued(i.time, i.r.dev, i.r.sector), dev, sector);
    case RqComplete => DoneConserves(o, i.time, i.r, dev, sector);
    case OtherTracepoint =>
  }

  /** In every run, for every device and sector, whatever the order and however often a sector
      is queued or completed. */
  lemma {:induction false} EveryRunConserves(ins: seq<Input>, dev: nat, sector: nat)
    ensures Conserved(WriteAll(ins), dev, sector)
  {
    if ins != [] {
      EveryRunConserves(ins[..|ins| - 1], dev, sector);
      StepConserves(WriteAll(ins[..|ins| - 1]), ins[|ins| - 1], dev, sector);
    }
  }

  // ---- Which completions are written --------------------------------------------------

  predicate Touches(i: Input, dev: nat) {
    i.r.dev == dev && (i.tp.RqComplete? || (i.tp.BioQueue? && (i.r.rw == 'R' || i.r.rw == 'W')))
  }

  lemma {:induction false} DeviceKnownExactlyWhen(ins: seq<Input>, dev: nat)
    ensures dev in WriteAll(ins).cache <==> exists k :: 0 <= k < |ins| && Touches(ins[k], dev)
  {
    if ins != [] {
      var n := |ins| - 1;
      DeviceKnownExactlyWhen(ins[..n], dev);
      assert forall k :: 0 <= k < n ==> ins[..n][k] == ins[k];
    }
  }

  /** A completion is written, whether or not its sector was ever queued, exactly if anything
      was queued or completed on its device before; for a sector with nothing in flight it is
      written with 0 bytes. */
  lemma CompletionWrittenExactlyWhen(ins: seq<Input>, time: nat, r: Record)
    ensures var o := WriteAll(ins);
            var o' := WriteAll(ins + [Input(RqComplete, time, r)]);
            if exists k :: 0 <= k < |ins| && Touches(ins[k], r.dev)
            then
              && o'.out == o.out + [Complete(time, r.dev, InFlight(o.cache, r.dev, r.sector), r.sector)]
              && InFlight(o'.cache, r.dev, r.sector) == 0
            else o'.out == o.out
  {
    var all := ins + [Input(RqComplete, time, r)];
    assert all[..|all| - 1] == ins;
    DeviceKnownExactlyWhen(ins, r.dev);
  }

  // ---- Which queue and issue records are written --------------------------------------

  lemma WriteOneMore(ins: seq<Input>, i: Input)
    ensures WriteAll(ins + [i]) == WriteOne(WriteAll(ins), i.tp, i.time, i.r)
  {
    assert (ins + [i])[..|ins|] == ins;
  }

  /** What a queue record adds. */
  ghost predicate QueueAdds(o: Output, o': Output, time: nat, r: Record) {
    var bytes := r.nrSector * 512 % 0x1_0000_0000;
    && (r.rw == 'R' ==> o'.out == o.out + [Begin(time, r.dev, Read, bytes, r.sector)])
    && (r.rw == 'W' ==> o'.out == o.out + [Begin(time, r.dev, Write, bytes, r.sector)])
    && (r.rw == 'R' || r.rw == 'W' ==>
          InFlight(o'.cache, r.dev, r.sector)
          == (InFlight(o.cache, r.dev, r.sector) + bytes) % 0x1_0000_0000_0000_0000)
    && (r.rw != 'R' && r.rw != 'W' ==> o' == o)
  }

  lemma QueueStep(o: Output, time: nat, r: Record)
    ensures QueueAdds(o, OnQueue(o, time, r), time, r)
  {
    var bytes := r.nrSector * 512 % 0x1_0000_0000;
    assert Size(r) == bytes;
    SetReads(o.cache, r.dev, r.sector, (InFlight(o.cache, r.dev, r.sector) + bytes) % U64, r.dev, r.sector);
  }

  /** A queued read or write begins an operation of 512 bytes a sector, counted in 32 bits, and
      has that many more bytes in flight for its sector; any other is passed over. */
  lemma QueueWrittenExactlyWhen(ins: seq<Input>, time: nat, r: Record)
    ensures QueueAdds(WriteAll(ins), WriteAll(ins + [Input(BioQueue, time, r)]), time, r)
    ensures r.nrSector * 512 < 0x1_0000_0000 ==> r.nrSector * 512 % 0x1_0000_0000 == r.nrSector * 512
  {
    WriteOneMore(ins, Input(BioQueue, time, r));
    QueueStep(WriteAll(ins), time, r);
    FitsInWord(r.nrSector * 512);
  }

  lemma FitsInWord(n: nat)
    ensures n < 0x1_0000_0000 ==> n % 0x1_0000_0000 == n
  {
  }

  predicate Queues(i: Input, dev: nat, sector: nat) {
    i.tp.BioQueue? && (i.r.rw == 'R' || i.r.rw == 'W') && i.r.dev == dev && i.r.sector == sector
  }

  predicate Completes(i: Input, dev: nat, sector: nat) {
    i.tp.RqComplete? && i.r.dev == dev && i.r.sector == sector
  }

  /** The sector was queued, or completed on a device that was known by then. */
  ghost predicate SectorSeen(ins: seq<Input>, dev: nat, sector: nat) {
    exists k :: 0 <= k < |ins| &&
      (Queues(ins[k], dev, sector) || (Completes(ins[k], dev, sector) && DeviceSeen(ins[..k], dev)))
  }

  ghost predicate DeviceSeen(ins: seq<Input>, dev: nat) {
    exists k :: 0 <= k < |ins| && Touches(ins[k], dev)
  }

  predicate Known(cache: Cache, dev: nat, sector: nat) {
    dev in cache && sector in cache[dev]
  }

  lemma StepKnows(o: Output, i: Input, dev: nat, sector: nat)
    ensures Known(WriteOne(o, i.tp, i.time, i.r).cache, dev, sector) <==>
            Known(o.cache, dev, sector) || Queues(i, dev, sector) || (Completes(i, dev, sector) && dev in o.cache)
  {
  }

  lemma SectorSeenNext(ins: seq<Input>, i: Input, dev: nat, sector: nat)
    ensures SectorSeen(ins + [i], dev, sector) <==>
            SectorSeen(ins, dev, sector) || Queues(i, dev, sector) || (Completes(i, dev, sector) && DeviceSeen(ins, dev))
  {
    var all := ins + [i];
    forall k | 0 <= k <= |ins| ensures all[..k] == ins[..k] { }
    assert all[..|ins|] == ins && all[|ins|] == i;
    if SectorSeen(ins, dev, sector) {
      var k :| 0 <= k < |ins| &&
        (Queues(ins[k], dev, sector) || (Completes(ins[k], dev, sector) && DeviceSeen(ins[..k], dev)));
      assert all[k] == ins[k];
    }
  }

  lemma {:induction false} SectorKnownExactlyWhen(ins: seq<Input>, dev: nat, sector: nat)
    ensures Known(WriteAll(ins).cache, dev, sector) <==> SectorSeen(ins, dev, sector)
  {
    if ins != [] {
      var before, i := ins[..|ins| - 1], ins[|ins| - 1];
      SectorKnownExactlyWhen(before, dev, sector);
      DeviceKnownExactlyWhen(before, dev);
      StepKnows(WriteAll(before), i, dev, sector);
      assert ins == before + [i];
      SectorSeenNext(before, i, dev, sector);
    }
  }

  /** An issue is written exactly if its sector was queued before, or completed on a device known
      by then; it changes nothing else. */
  lemma IssueWrittenExactlyWhen(ins: seq<Input>, time: nat, r: Record)
    ensures var o := WriteAll(ins);
            var o' := WriteAll(ins + [Input(RqIssue, time, r)]);
            && o'.cache == o.cache
            && o'.out == o.out + if SectorSeen(ins, r.dev, r.sector) then [Issued(time, r.dev, r.sector)] else []
  {
    WriteOneMore(ins, Input(RqIssue, time, r));
    SectorKnownExactlyWhen(ins, r.dev, r.sector);
  }

  // ---- The writer ---------------------------------------------------------------------

  class Writer {
    var cache: Cache
    var out: seq<IoEvent>

    ghost function Now(): Output
      reads this
    {
      Output(cache, out)
    }

    constructor ()
      ensures Now() == EMPTY
    {
      cache := map[];
      out := [];
    }

    method AddTo(dev: nat, sector: nat, bytes: nat)
      modifies `cache
      ensures cache == Set(old(cache), dev, sector, bytes)
    {
      if dev !in cache {
        cache := cache[dev := map[]];
      }
      var sectors: map<nat, nat> := cache[dev];
      cache := cache[dev := sectors[sector := bytes]];
    }

    /** write(); false stands for the exception on a tracepoint that is not one of the three. */
    method WriteEvent(tp: Tracepoint, time: nat, r: Record) returns (ok: bool)
      modifies this
      ensures ok == !tp.OtherTracepoint?
      ensures Now() == WriteOne(old(Now()), tp, time, r)
    {
      match tp {
        case BioQueue =>
          var mode;
          if r.rw == 'R' {
            mode := Read;
          } else if r.rw == 'W' {
            mode := Write;
          } else {
            return true;
          }
          var size := r.nrSector * SECTOR_SIZE % U32;
          var before := InFlight(cache, r.dev, r.sector);
          AddTo(r.dev, r.sector, (before + size) % U64);
          out := out + [Begin(time, r.dev, mode, size, r.sector)];
        case RqIssue =>
          if r.dev !in cache || r.sector !in cache[r.dev] {
            return true;
          }
          out := out + [Issued(time, r.dev, r.sector)];
        case RqComplete =>
          if r.dev !in cache {
            cache := cache[r.dev := map[]];
            return true;
          }
          out := out + [Complete(time, r.dev, InFlight(cache, r.dev, r.sector), r.sector)];
          AddTo(r.dev, r.sector, 0);
        case OtherTracepoint =>
          return false;
      }
      ok := true;
    }
  }
}
