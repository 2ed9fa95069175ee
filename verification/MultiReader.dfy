/** MultiReader (include/lo2s/perf/multi_reader.hpp): merges the per-CPU tracepoint buffers into
    one stream for the block I/O writer. A priority queue holds the front time of every other
    reader; an event older than one already written is dropped. */
module MultiReader {
  import opened BioWriter

  /** A tracepoint sample in a perf buffer. */
  datatype Sample = Sample(time: nat, r: Record)

  /** What became of an event taken from a reader. */
  datatype Entry = Entry(id: nat, ev: Sample, kept: bool)

  /** ReaderState; a reader's identity is its position in the order of the reader map. */
  datatype ReaderState = ReaderState(time: nat, id: nat)

  /** !(b > a): a comes out of the queue no later than b. */
  predicate Before(a: ReaderState, b: ReaderState) {
    a.time < b.time || (a.time == b.time && a.id <= b.id)
  }

  // ---- The log ------------------------------------------------------------------------

  /** highest_written_ after a log. */
  function Highest(log: seq<Entry>): nat {
    if log == [] then 0
    else if log[|log| - 1].kept then log[|log| - 1].ev.time
    else Highest(log[..|log| - 1])
  }

  /** Kept is exactly what is not older than the last thing written before. */
  predicate Lawful(log: seq<Entry>) {
    log == [] ||
    (var n := |log| - 1; Lawful(log[..n]) && (log[n].kept <==> Highest(log[..n]) <= log[n].ev.time))
  }

  /** The events taken from one reader, in order. */
  function Taken(log: seq<Entry>, id: nat): seq<Sample> {
    if log == [] then []
    else
      var n := |log| - 1;
      Taken(log[..n], id) + if log[n].id == id then [log[n].ev] else []
  }

  /** What the writer is given. */
  function Written(tracepoints: seq<Tracepoint>, log: seq<Entry>): seq<Input> {
    if log == [] then []
    else
      var n := |log| - 1;
      var e := log[n];
      Written(tracepoints, log[..n]) +
      if e.kept && e.id < |tracepoints| then [Input(tracepoints[e.id], e.ev.time, e.ev.r)] else []
  }

  /** The positions of the kept events. */
  function KeptAt(log: seq<Entry>): seq<nat> {
    if log == [] then []
    else
      var n := |log| - 1;
      KeptAt(log[..n]) + if log[n].kept then [n] else []
  }

  lemma {:induction false} KeptAscend(log: seq<Entry>)
    ensures forall k :: 0 <= k < |KeptAt(log)| ==> KeptAt(log)[k] < |log|
    ensures forall k, l :: 0 <= k < l < |KeptAt(log)| ==> KeptAt(log)[k] < KeptAt(log)[l]
  {
    if log != [] { KeptAscend(log[..|log| - 1]); }
  }

  lemma {:induction false} KeptExactlyWhen(log: seq<Entry>, j: nat)
    requires j < |log|
    ensures j in KeptAt(log) <==> log[j].kept
    decreases |log|
  {
    var n := |log| - 1;
    KeptAscend(log[..n]);
    if j < n { KeptExactlyWhen(log[..n], j); }
  }

  lemma {:induction false} WrittenCount(tps: seq<Tracepoint>, log: seq<Entry>)
    requires forall k :: 0 <= k < |log| ==> log[k].id < |tps|
    ensures |Written(tps, log)| == |KeptAt(log)|
  {
    if log != [] { WrittenCount(tps, log[..|log| - 1]); }
  }

  lemma {:induction false} WrittenAt(tps: seq<Tracepoint>, log: seq<Entry>, k: nat)
    requires (forall i :: 0 <= i < |log| ==> log[i].id < |tps|) && k < |KeptAt(log)|
    ensures |Written(tps, log)| == |KeptAt(log)| && KeptAt(log)[k] < |log|
    ensures var e := log[KeptAt(log)[k]]; Written(tps, log)[k] == Input(tps[e.id], e.ev.time, e.ev.r)
  {
    var n := |log| - 1;
    WrittenCount(tps, log);
    WrittenCount(tps, log[..n]);
    KeptAscend(log);
    if k < |KeptAt(log[..n])| {
      WrittenAt(tps, log[..n], k);
    } else {
      assert KeptAt(log)[k] == n;
    }
  }

  /** The writer is given the kept events, each once, in order, with the tracepoint of its reader. */
  lemma WrittenAreKept(tps: seq<Tracepoint>, log: seq<Entry>) returns (js: seq<nat>)
    requires forall k :: 0 <= k < |log| ==> log[k].id < |tps|
    ensures |js| == |Written(tps, log)|
    ensures forall k :: 0 <= k < |js| ==> js[k] < |log|
    ensures forall k :: 0 <= k < |js| ==>
              var e := log[js[k]]; Written(tps, log)[k] == Input(tps[e.id], e.ev.time, e.ev.r)
    ensures forall k, l :: 0 <= k < l < |js| ==> js[k] < js[l]
    ensures forall j :: 0 <= j < |log| ==> (log[j].kept <==> j in js)
  {
    js := KeptAt(log);
    KeptAscend(log);
    WrittenCount(tps, log);
    forall k | 0 <= k < |js|
      ensures var e := log[js[k]]; Written(tps, log)[k] == Input(tps[e.id], e.ev.time, e.ev.r)
    {
      WrittenAt(tps, log, k);
    }
    forall j | 0 <= j < |log| ensures log[j].kept <==> j in js { KeptExactlyWhen(log, j); }
  }

  lemma {:induction false} HighestBounds(log: seq<Entry>, k: nat)
    requires Lawful(log) && k < |log| && log[k].kept
    ensures log[k].ev.time <= Highest(log)
    decreases |log|
  {
    var n := |log| - 1;
    if k < n { HighestBounds(log[..n], k); }
  }

  /** Timestamps written never decrease, in any number of reads of any buffers. */
  lemma {:induction false} WrittenInOrder(log: seq<Entry>, i: nat, j: nat)
    requires Lawful(log) && i < j < |log| && log[i].kept && log[j].kept
    ensures log[i].ev.time <= log[j].ev.time
    decreases |log|
  {
    var n := |log| - 1;
    if j < n { WrittenInOrder(log[..n], i, j); } else { HighestBounds(log[..n], i); }
  }

  lemma {:induction false} HighestWasWritten(log: seq<Entry>)
    requires Highest(log) > 0
    ensures exists i :: 0 <= i < |log| && log[i].kept && log[i].ev.time == Highest(log)
    decreases |log|
  {
    var n := |log| - 1;
    if !log[n].kept {
      HighestWasWritten(log[..n]);
      var i :| 0 <= i < n && log[..n][i].kept && log[..n][i].ev.time == Highest(log[..n]);
      assert log[i] == log[..n][i];
    }
  }

  /** Whatever was dropped was older than something already written. */
  lemma {:induction false} DroppedWasLate(log: seq<Entry>, j: nat)
    requires Lawful(log) && j < |log| && !log[j].kept
    ensures exists i :: 0 <= i < j && log[i].kept && log[i].ev.time > log[j].ev.time
    decreases |log|
  {
    var n := |log| - 1;
    if j < n {
      DroppedWasLate(log[..n], j);
      var i :| 0 <= i < j && log[..n][i].kept && log[..n][i].ev.time > log[..n][j].ev.time;
      assert log[i] == log[..n][i];
    } else {
      HighestWasWritten(log[..n]);
      var i :| 0 <= i < n && log[..n][i].kept && log[..n][i].ev.time == Highest(log[..n]);
      assert log[i] == log[..n][i];
    }
  }

  // ---- The queue ----------------------------------------------------------------------

  ghost predicate IsTop(queue: set<ReaderState>, t: ReaderState) {
    t in queue && forall u :: u in queue ==> Before(t, u)
  }

  lemma TopExists(queue: set<ReaderState>)
    requires queue != {}
    ensures exists t :: IsTop(queue, t)
  {
    var u :| u in queue;
    if queue == {u} {
      assert IsTop(queue, u);
    } else {
      var rest := queue - {u};
      assert rest != {};
      TopExists(rest);
      var t :| IsTop(rest, t);
      assert queue == rest + {u};
      if Before(u, t) { assert IsTop(queue, u); } else { assert IsTop(queue, t); }
    }
  }

  /** Every non-empty reader but `out` is queued, once, with the time of its front event. */
  ghost predicate Queued(queue: set<ReaderState>, buffers: seq<seq<Sample>>, out: int) {
    && (forall s :: s in queue ==> s.id != out && s.id < |buffers| && buffers[s.id] != [] && buffers[s.id][0].time == s.time)
    && (forall i :: 0 <= i < |buffers| && i != out && buffers[i] != [] ==> ReaderState(buffers[i][0].time, i) in queue)
  }

  // ---- Whose turn it is ---------------------------------------------------------------

  /** No other reader has an earlier front event. */
  ghost predicate NoneAhead(buffers: seq<seq<Sample>>, id: int) {
    && 0 <= id < |buffers| && buffers[id] != []
    && forall i :: 0 <= i < |buffers| && buffers[i] != [] ==> buffers[id][0].time <= buffers[i][0].time
  }

  /** The reader to take the next event from: the last one, as long as none is ahead of it; then
      the earliest front event, and of several the one of the smallest identity. */
  ghost predicate Turn(buffers: seq<seq<Sample>>, last: int, id: nat) {
    && id < |buffers| && buffers[id] != []
    && if NoneAhead(buffers, last) then id == last
       else forall i :: 0 <= i < |buffers| && buffers[i] != [] ==>
              buffers[id][0].time < buffers[i][0].time || (buffers[id][0].time == buffers[i][0].time && id <= i)
  }

  /** What is left in the buffers after some events were taken. */
  function Rest(buffers: seq<seq<Sample>>, taken: seq<Entry>): seq<seq<Sample>> {
    if taken == [] then buffers
    else
      var b, id := Rest(buffers, taken[..|taken| - 1]), taken[|taken| - 1].id;
      if id < |b| && b[id] != [] then b[id := b[id][1..]] else b
  }

  function LastReader(taken: seq<Entry>): int {
    if taken == [] then -1 else taken[|taken| - 1].id
  }

  /** Each event was at the front of the reader whose turn it was. */
  ghost predicate InTurns(buffers: seq<seq<Sample>>, taken: seq<Entry>) {
    taken == [] ||
    (var before, e := taken[..|taken| - 1], taken[|taken| - 1];
     && InTurns(buffers, before)
     && Turn(Rest(buffers, before), LastReader(before), e.id)
     && e.ev == Rest(buffers, before)[e.id][0])
  }

  /** A read that began with these buffers and a log of n entries, so far. */
  ghost predicate Going(start: seq<seq<Sample>>, n: nat, log: seq<Entry>, buffers: seq<seq<Sample>>, last: int) {
    n <= |log| && InTurns(start, log[n..]) && buffers == Rest(start, log[n..]) && last == LastReader(log[n..])
  }

  lemma GoesOn(start: seq<seq<Sample>>, n: nat, log: seq<Entry>, buffers: seq<seq<Sample>>, last: int, id: nat, kept: bool)
    requires Going(start, n, log, buffers, last) && Turn(buffers, last, id)
    ensures Going(start, n, log + [Entry(id, buffers[id][0], kept)], buffers[id := buffers[id][1..]], id)
  {
    var e := Entry(id, buffers[id][0], kept);
    assert (log + [e])[n..] == log[n..] + [e];
    assert (log[n..] + [e])[..|log[n..]|] == log[n..];
  }

  /** The top of the queue is the reader whose turn it is. */
  lemma TopIsNext(queue: set<ReaderState>, buffers: seq<seq<Sample>>, last: int, t: ReaderState)
    requires Queued(queue, buffers, -1) && IsTop(queue, t) && !NoneAhead(buffers, last)
    ensures Turn(buffers, last, t.id)
  {
    forall i | 0 <= i < |buffers| && buffers[i] != []
      ensures buffers[t.id][0].time < buffers[i][0].time || (buffers[t.id][0].time == buffers[i][0].time && t.id <= i)
    {
      assert ReaderState(buffers[i][0].time, i) in queue;
    }
  }

  // ---- Ordered buffers ----------------------------------------------------------------

  ghost predicate InOrder(b: seq<Sample>) {
    forall i, j :: 0 <= i < j < |b| ==> b[i].time <= b[j].time
  }

  /** Time-sorted buffers with nothing older than what was written. */
  ghost predicate Fresh(buffers: seq<seq<Sample>>, highest: nat) {
    forall i :: 0 <= i < |buffers| ==>
      InOrder(buffers[i]) && forall k :: 0 <= k < |buffers[i]| ==> highest <= buffers[i][k].time
  }

  /** Taking the earliest front event of sorted buffers leaves nothing older behind. */
  lemma TakeEarliest(buffers: seq<seq<Sample>>, highest: nat, id: nat)
    requires Fresh(buffers, highest) && id < |buffers| && buffers[id] != []
    requires forall i :: 0 <= i < |buffers| && buffers[i] != [] ==> buffers[id][0].time <= buffers[i][0].time
    ensures Fresh(buffers[id := buffers[id][1..]], buffers[id][0].time)
  {
    var t := buffers[id][0].time;
    var b' := buffers[id := buffers[id][1..]];
    forall i | 0 <= i < |b'|
      ensures InOrder(b'[i]) && forall k :: 0 <= k < |b'[i]| ==> t <= b'[i][k].time
    {
      forall k | 0 <= k < |b'[i]| ensures t <= b'[i][k].time {
        if i == id { assert b'[i][k] == buffers[id][k + 1]; } else { assert buffers[i][0].time <= buffers[i][k].time; }
      }
    }
  }

  /** How many events are left. */
  function Left(buffers: seq<seq<Sample>>): nat {
    if buffers == [] then 0 else |buffers[0]| + Left(buffers[1..])
  }

  lemma {:induction false} LeftShrinks(a: seq<seq<Sample>>, b: seq<seq<Sample>>, id: nat)
    requires |a| == |b| && id < |a| && |b[id]| < |a[id]|
    requires forall i :: 0 <= i < |a| && i != id ==> a[i] == b[i]
    ensures Left(b) < Left(a)
    decreases |a|
  {
    if id == 0 {
      assert a[1..] == b[1..];
    } else {
      LeftShrinks(a[1..], b[1..], id - 1);
    }
  }

  // ---- The reader ---------------------------------------------------------------------

  /** Nothing gets lost on the way: taken and still buffered make up what arrived. */
  ghost predicate Accounted(log: seq<Entry>, buffers: seq<seq<Sample>>, arrived: seq<seq<Sample>>) {
    |buffers| == |arrived| && forall i :: 0 <= i < |buffers| ==> Taken(log, i) + buffers[i] == arrived[i]
  }

  ghost predicate KeptFrom(log: seq<Entry>, n: nat) {
    forall k :: n <= k < |log| ==> log[k].kept
  }

  lemma KeptOneMore(log: seq<Entry>, log': seq<Entry>, n: nat)
    requires KeptFrom(log, n) && n <= |log| && |log'| == |log| + 1 && log'[..|log|] == log && log'[|log|].kept
    ensures KeptFrom(log', n)
  {
    forall k | n <= k < |log| ensures log'[k].kept { assert log'[k] == log'[..|log|][k]; }
  }

  /** During a read that started with sorted buffers, they stay sorted and nothing is dropped. */
  ghost predicate Merging(sorted: bool, start: nat, log: seq<Entry>, buffers: seq<seq<Sample>>, highest: nat) {
    start <= |log| && (sorted ==> Fresh(buffers, highest) && KeptFrom(log, start))
  }

  /** Events were taken from one reader, and from no other. */
  ghost predicate Shorter(a: seq<seq<Sample>>, b: seq<seq<Sample>>, id: nat) {
    |a| == |b| && id < |a| && |b[id]| < |a[id]| && forall i :: 0 <= i < |a| && i != id ==> a[i] == b[i]
  }

  /** The state of a reader after a log. */
  ghost predicate Sound(tps: seq<Tracepoint>, log: seq<Entry>, buffers: seq<seq<Sample>>, arrived: seq<seq<Sample>>,
                        highest: nat, output: Output)
  {
    && Lawful(log) && highest == Highest(log)
    && Accounted(log, buffers, arrived)
    && output == WriteAll(Written(tps, log))
  }

  lemma TakeOne(tps: seq<Tracepoint>, log: seq<Entry>, buffers: seq<seq<Sample>>, arrived: seq<seq<Sample>>,
                highest: nat, output: Output, id: nat)
    requires Sound(tps, log, buffers, arrived, highest, output)
    requires id < |buffers| && id < |tps| && buffers[id] != []
    ensures var ev := buffers[id][0];
            var log' := log + [Entry(id, ev, highest <= ev.time)];
            var buffers' := buffers[id := buffers[id][1..]];
            if highest <= ev.time
            then Sound(tps, log', buffers', arrived, ev.time, WriteOne(output, tps[id], ev.time, ev.r))
            else Sound(tps, log', buffers', arrived, highest, output)
  {
    var ev := buffers[id][0];
    var e := Entry(id, ev, highest <= ev.time);
    assert (log + [e])[..|log|] == log;
    forall i | 0 <= i < |buffers|
      ensures Taken(log + [e], i) + buffers[id := buffers[id][1..]][i] == arrived[i]
    {
      if i == id { assert buffers[i] == [e.ev] + buffers[i][1..]; }
    }
    if e.kept {
      WriteOneMore(Written(tps, log), Input(tps[id], ev.time, ev.r));
    } else {
      assert Written(tps, log + [e]) == Written(tps, log);
    }
  }

  class Reader {
    const tracepoints: seq<Tracepoint>
    const writer: Writer
    var buffers: seq<seq<Sample>>
    var highestWritten: nat
    ghost var log: seq<Entry>
    ghost var arrived: seq<seq<Sample>>

    ghost predicate Valid()
      reads this, writer
    {
      && |tracepoints| == |buffers| && (forall i :: 0 <= i < |tracepoints| ==> !tracepoints[i].OtherTracepoint?)
      && Sound(tracepoints, log, buffers, arrived, highestWritten, writer.Now())
    }

    constructor (tracepoints: seq<Tracepoint>)
      requires forall i :: 0 <= i < |tracepoints| ==> !tracepoints[i].OtherTracepoint?
      ensures fresh(writer) && Valid() && log == [] && this.tracepoints == tracepoints
      ensures buffers == arrived == seq(|tracepoints|, _ => [])
    {
      this.tracepoints := tracepoints;
      writer := new Writer();
      buffers := seq(|tracepoints|, _ => []);
      arrived := seq(|tracepoints|, _ => []);
      highestWritten := 0;
      log := [];
    }

    /** The kernel puts events into a buffer. */
    method Arrive(id: nat, evs: seq<Sample>)
      requires Valid() && id < |buffers|
      modifies this
      ensures Valid() && log == old(log)
      ensures arrived == old(arrived)[id := old(arrived)[id] + evs]
      ensures buffers == old(buffers)[id := old(buffers)[id] + evs]
    {
      assert Taken(log, id) + (buffers[id] + evs) == arrived[id] + evs;
      buffers := buffers[id := buffers[id] + evs];
      arrived := arrived[id := arrived[id] + evs];
    }

    /** Takes the front event of a reader: dropped if late, otherwise written. */
    method TakeFront(id: nat)
      requires Valid() && id < |buffers| && buffers[id] != []
      modifies this, writer
      ensures Valid() && arrived == old(arrived)
      ensures buffers == old(buffers)[id := old(buffers)[id][1..]]
      ensures log == old(log) + [Entry(id, old(buffers)[id][0], old(highestWritten) <= old(buffers)[id][0].time)]
    {
      var event := buffers[id][0];
      TakeOne(tracepoints, log, buffers, arrived, highestWritten, writer.Now(), id);
      log := log + [Entry(id, event, highestWritten <= event.time)];
      if event.time < highestWritten {
        buffers := buffers[id := buffers[id][1..]];
      } else {
        var _ := writer.WriteEvent(tracepoints[id], event.time, event.r);
        highestWritten := event.time;
        buffers := buffers[id := buffers[id][1..]];
      }
    }

    method Top(queue: set<ReaderState>) returns (t: ReaderState)
      requires queue != {}
      ensures IsTop(queue, t)
    {
      TopExists(queue);
      t :| t in queue && forall u :: u in queue ==> Before(t, u);
    }

    /** The inner loop: stays with one reader until another has an earlier event. */
    method Follow(id: nat, queue: set<ReaderState>, ghost sorted: bool, ghost start: nat,
                  ghost given: seq<seq<Sample>>, ghost last: int)
      returns (queue': set<ReaderState>)
      requires Valid() && id < |buffers| && buffers[id] != [] && Queued(queue, buffers, id)
      requires forall u :: u in queue ==> buffers[id][0].time <= u.time
      requires Merging(sorted, start, log, buffers, highestWritten)
      requires Going(given, start, log, buffers, last) && Turn(buffers, last, id)
      modifies this, writer
      ensures Valid() && arrived == old(arrived) && old(log) <= log && Queued(queue', buffers, -1)
      ensures Shorter(old(buffers), buffers, id)
      ensures Merging(sorted, start, log, buffers, highestWritten)
      ensures Going(given, start, log, buffers, id) && !NoneAhead(buffers, id)
    {
      queue' := queue;
      ghost var prev := last;
      while buffers[id] != []
        invariant Valid() && arrived == old(arrived) && old(log) <= log && Queued(queue, buffers, id)
        invariant (buffers == old(buffers) && prev == last) || (Shorter(old(buffers), buffers, id) && prev == id)
        invariant Merging(sorted, start, log, buffers, highestWritten)
        invariant Going(given, start, log, buffers, prev)
        decreases |buffers[id]|
      {
        var event := buffers[id][0];
        if queue != {} {
          var top := Top(queue);
          if event.time > top.time {
            Requeued(queue, buffers, id, top);
            queue' := queue + {ReaderState(event.time, id)};
            return;
          }
        }
        StaysWith(queue, buffers, last, prev, id);
        ghost var before := buffers;
        FollowOne(queue, id, sorted, start, given, prev);
        ShorterStill(old(buffers), before, buffers, id);
        prev := id;
      }
      NotQueued(queue, buffers, id);
    }

    /** One event of the reader being followed, which no other reader precedes. */
    method FollowOne(ghost queue: set<ReaderState>, id: nat, ghost sorted: bool, ghost start: nat,
                     ghost given: seq<seq<Sample>>, ghost last: int)
      requires Valid() && id < |buffers| && buffers[id] != [] && Queued(queue, buffers, id)
      requires forall u :: u in queue ==> buffers[id][0].time <= u.time
      requires Merging(sorted, start, log, buffers, highestWritten)
      requires Going(given, start, log, buffers, last) && Turn(buffers, last, id)
      modifies this, writer
      ensures Valid() && arrived == old(arrived) && old(log) <= log && Queued(queue, buffers, id)
      ensures Shorter(old(buffers), buffers, id)
      ensures Merging(sorted, start, log, buffers, highestWritten)
      ensures Going(given, start, log, buffers, id)
    {
      GoesOn(given, start, log, buffers, last, id, highestWritten <= buffers[id][0].time);
      if sorted {
        NoneEarlier(queue, buffers, id);
        TakeEarliest(buffers, highestWritten, id);
      }
      TakeFront(id);
      if sorted { KeptOneMore(old(log), log, start); }
    }

    /** Every reader with an event is queued with the time of its front event. */
    method QueueAll() returns (queue: set<ReaderState>)
      requires Valid()
      ensures Queued(queue, buffers, -1)
    {
      queue := {};
      for i := 0 to |buffers|
        invariant forall s :: s in queue ==> s.id < i && buffers[s.id] != [] && buffers[s.id][0].time == s.time
        invariant forall j :: 0 <= j < i && buffers[j] != [] ==> ReaderState(buffers[j][0].time, j) in queue
      {
        if buffers[i] != [] {
          queue := queue + {ReaderState(buffers[i][0].time, i)};
        }
      }
    }

    /** One round of the outer loop: the top of the queue is followed. */
    method ServeTop(queue: set<ReaderState>, ghost sorted: bool, ghost start: nat,
                    ghost given: seq<seq<Sample>>, ghost last: int)
      returns (queue': set<ReaderState>, ghost next: int)
      requires Valid() && queue != {} && Queued(queue, buffers, -1)
      requires Merging(sorted, start, log, buffers, highestWritten)
      requires Going(given, start, log, buffers, last) && !NoneAhead(buffers, last)
      modifies this, writer
      ensures Valid() && arrived == old(arrived) && old(log) <= log && Queued(queue', buffers, -1)
      ensures Merging(sorted, start, log, buffers, highestWritten)
      ensures Going(given, start, log, buffers, next) && !NoneAhead(buffers, next)
      ensures Left(buffers) < old(Left(buffers))
    {
      var state := Top(queue);
      TopIsNext(queue, buffers, last, state);
      Unqueued(queue, buffers, state);
      queue' := Follow(state.id, queue - {state}, sorted, start, given, last);
      next := state.id;
      LeftShrinks(old(buffers), buffers, state.id);
    }

    /** read(). */
    method Read()
      requires Valid()
      modifies this, writer
      ensures Valid() && arrived == old(arrived) && old(log) <= log
      ensures forall i :: 0 <= i < |buffers| ==> buffers[i] == [] && Taken(log, i) == arrived[i]
      ensures old(Fresh(buffers, highestWritten)) ==> KeptFrom(log, |old(log)|) && Chronological(log, |old(log)|)
      ensures InTurns(old(buffers), log[|old(log)|..])
    {
      var queue := QueueAll();
      ghost var sorted := Fresh(buffers, highestWritten);
      ghost var last: int := -1;
      assert log[|log|..] == [];
      while queue != {}
        invariant Valid() && arrived == old(arrived) && old(log) <= log && Queued(queue, buffers, -1)
        invariant Merging(sorted, |old(log)|, log, buffers, highestWritten)
        invariant Going(old(buffers), |old(log)|, log, buffers, last) && !NoneAhead(buffers, last)
        decreases Left(buffers)
      {
        queue, last := ServeTop(queue, sorted, |old(log)|, old(buffers), last);
      }
      AllTaken(log, buffers, arrived);
      if sorted { KeptIsChronological(log, |old(log)|); }
    }

    /** finalize(): the readers stop, and the rest is read. */
    method Finalize()
      requires Valid()
      modifies this, writer
      ensures Valid() && arrived == old(arrived) && old(log) <= log
      ensures forall i :: 0 <= i < |buffers| ==> buffers[i] == [] && Taken(log, i) == arrived[i]
      ensures old(Fresh(buffers, highestWritten)) ==> KeptFrom(log, |old(log)|) && Chronological(log, |old(log)|)
      ensures InTurns(old(buffers), log[|old(log)|..])
    {
      Read();
    }
  }

  lemma Requeued(queue: set<ReaderState>, buffers: seq<seq<Sample>>, id: nat, top: ReaderState)
    requires id < |buffers| && buffers[id] != [] && Queued(queue, buffers, id) && top in queue
    requires buffers[id][0].time > top.time
    ensures Queued(queue + {ReaderState(buffers[id][0].time, id)}, buffers, -1) && !NoneAhead(buffers, id)
  {
    assert buffers[top.id][0].time == top.time;
  }

  /** Taking the top out of the queue leaves the others, none of them earlier. */
  lemma Unqueued(queue: set<ReaderState>, buffers: seq<seq<Sample>>, t: ReaderState)
    requires Queued(queue, buffers, -1) && IsTop(queue, t)
    ensures Queued(queue - {t}, buffers, t.id)
    ensures forall u :: u in queue - {t} ==> buffers[t.id][0].time <= u.time
  {
  }

  lemma NotQueued(queue: set<ReaderState>, buffers: seq<seq<Sample>>, id: nat)
    requires id < |buffers| && buffers[id] == [] && Queued(queue, buffers, id)
    ensures Queued(queue, buffers, -1) && !NoneAhead(buffers, id)
  {
  }

  lemma ShorterStill(a: seq<seq<Sample>>, b: seq<seq<Sample>>, c: seq<seq<Sample>>, id: nat)
    requires (a == b || Shorter(a, b, id)) && Shorter(b, c, id)
    ensures Shorter(a, c, id)
  {
  }

  lemma StaysWith(queue: set<ReaderState>, buffers: seq<seq<Sample>>, last: int, prev: int, id: nat)
    requires id < |buffers| && buffers[id] != [] && Queued(queue, buffers, id)
    requires forall u :: u in queue ==> buffers[id][0].time <= u.time
    requires prev == id || (prev == last && Turn(buffers, last, id))
    ensures Turn(buffers, prev, id)
  {
    NoneEarlier(queue, buffers, id);
  }

  lemma AllTaken(log: seq<Entry>, buffers: seq<seq<Sample>>, arrived: seq<seq<Sample>>)
    requires Accounted(log, buffers, arrived) && forall i :: 0 <= i < |buffers| ==> buffers[i] == []
    ensures forall i :: 0 <= i < |buffers| ==> Taken(log, i) == arrived[i]
  {
    forall i | 0 <= i < |buffers| ensures Taken(log, i) == arrived[i] {
      assert Taken(log, i) + buffers[i] == Taken(log, i);
    }
  }

  /** What is taken from position n on comes in order of time, over all readers. */
  ghost predicate Chronological(log: seq<Entry>, n: nat) {
    forall i, j :: n <= i < j < |log| ==> log[i].ev.time <= log[j].ev.time
  }

  lemma KeptIsChronological(log: seq<Entry>, n: nat)
    requires Lawful(log) && KeptFrom(log, n)
    ensures Chronological(log, n)
  {
    forall i, j | n <= i < j < |log| ensures log[i].ev.time <= log[j].ev.time { WrittenInOrder(log, i, j); }
  }

  lemma NoneEarlier(queue: set<ReaderState>, buffers: seq<seq<Sample>>, id: nat)
    requires id < |buffers| && buffers[id] != [] && Queued(queue, buffers, id)
    requires forall u :: u in queue ==> buffers[id][0].time <= u.time
    ensures forall i :: 0 <= i < |buffers| && buffers[i] != [] ==> buffers[id][0].time <= buffers[i][0].time
  {
    forall i | 0 <= i < |buffers| && buffers[i] != [] ensures buffers[id][0].time <= buffers[i][0].time {
      if i != id { assert ReaderState(buffers[i][0].time, i) in queue; }
    }
  }
}
