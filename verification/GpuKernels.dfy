/** GPU kernels from the process that runs them to the trace: the ring-buffer writer that
    numbers kernel names (include/lo2s/gpu/ringbuf.hpp, used by src/cuda/lib.cpp) and the
    monitor that reads the events back (src/monitor/gpu_monitor.cpp). */
module GpuKernels {
  import opened Bytes
  import opened CallingContexts
  import opened CctxTrace
  import opened LocalTree
  import Rb = ShmRingbuf

  type Ev = Rb.Ev
  type Name = seq<byte>
  type u64 = x: int | 0 <= x < 0x1_0000_0000_0000_0000

  const KERNEL: u64 := 0
  const KERNEL_DEF: u64 := 1

  // ---- The event formats --------------------------------------------------------------

  /** Consecutive 64-bit fields of a packed struct. */
  function Words(ws: seq<nat>): (bs: seq<byte>)
    ensures |bs| == 8 * |ws|
  {
    if ws == [] then [] else ToBytes(ws[0], 8) + Words(ws[1..])
  }

  /** struct kernel_def: header, id, and a name with room for its terminating zero. */
  function EncodeDef(id: nat, name: Name): (e: Ev)
    ensures |e| == 25 + |name|
  {
    Words([25 + |name|, KERNEL_DEF, id]) + (name + [0])
  }

  /** struct kernel: header, both times, id. */
  function EncodeKernel(start: u64, end: u64, id: nat): (e: Ev)
    ensures |e| == 40
  {
    Words([40, KERNEL, start, end, id])
  }

  /** A C string: everything in front of the first zero. */
  function CStr(bs: seq<byte>): (s: seq<byte>) {
    if bs == [] || bs[0] == 0 then [] else [bs[0]] + CStr(bs[1..])
  }

  function Field(e: Ev, at: nat): nat {
    if at + 8 <= |e| then FromBytes(e[at..at + 8]) else 0
  }

  /** The name arrives as it was sent exactly if it holds no zero byte. */
  lemma {:induction false} NameArrivesExactlyWhen(name: Name)
    ensures CStr(name + [0]) == name <==> 0 !in name
  {
    if name == [] {
    } else {
      assert (name + [0])[1..] == name[1..] + [0];
      assert name == [name[0]] + name[1..];
      NameArrivesExactlyWhen(name[1..]);
    }
  }

  lemma {:induction false} FieldOfWords(ws: seq<nat>, rest: seq<byte>, i: nat)
    requires i < |ws| && ws[i] < 0x1_0000_0000_0000_0000
    ensures Field(Words(ws) + rest, 8 * i) == ws[i]
    decreases |ws|
  {
    var e := Words(ws) + rest;
    var tail := Words(ws[1..]) + rest;
    assert e == ToBytes(ws[0], 8) + tail;
    if i == 0 {
      assert e[0..8] == ToBytes(ws[0], 8);
      Power256Of8();
      RoundTrip(ws[0], 8);
    } else {
      FieldOfWords(ws[1..], rest, i - 1);
      assert e[8 * i..8 * i + 8] == tail[8 * (i - 1)..8 * (i - 1) + 8];
    }
  }

  lemma DecodeDef(id: u64, name: Name)
    ensures var e := EncodeDef(id, name);
            Field(e, 8) == 1 && Field(e, 16) == id && e[24..] == name + [0]
  {
    var ws: seq<nat> := [25 + |name|, KERNEL_DEF, id];
    FieldOfWords(ws, name + [0], 1);
    FieldOfWords(ws, name + [0], 2);
  }

  lemma DecodeKernel(start: u64, end: u64, id: u64)
    ensures var e := EncodeKernel(start, end, id);
            Field(e, 0) == 40 && Field(e, 8) == 0 && Field(e, 16) == start && Field(e, 24) == end && Field(e, 32) == id
  {
    var ws: seq<nat> := [40, KERNEL, start, end, id];
    assert Words(ws) + [] == EncodeKernel(start, end, id);
    FieldOfWords(ws, [], 0);
    FieldOfWords(ws, [], 1);
    FieldOfWords(ws, [], 2);
    FieldOfWords(ws, [], 3);
    FieldOfWords(ws, [], 4);
  }

  // ---- The producer -------------------------------------------------------------------

  /** One kernel launch as src/cuda/lib.cpp reports it, and whether the ring buffer had room
      for the definition and for the kernel itself. */
  datatype Launch = Launch(name: Name, start: u64, end: u64, defOk: bool, kernelOk: bool)

  /** The numbers given to names, and the events committed so far. */
  datatype Producer = Producer(cctxs: map<Name, nat>, next: nat, out: seq<Ev>)

  const NOTHING := Producer(map[], 0, [])

  /** kernel_def(func). */
  function Define(p: Producer, name: Name, ok: bool): (Producer, nat) {
    if name in p.cctxs then (p, p.cctxs[name])
    else if !ok then (p, 0)
    else (Producer(p.cctxs[name := p.next], p.next + 1, p.out + [EncodeDef(p.next, name)]), p.next)
  }

  /** kernel_def and then kernel with the number it returned. */
  function Submit(p: Producer, l: Launch): Producer {
    var (p1, id) := Define(p, l.name, l.defOk);
    if l.kernelOk then p1.(out := p1.out + [EncodeKernel(l.start, l.end, id)]) else p1
  }

  function SubmitAll(ls: seq<Launch>): Producer {
    if ls == [] then NOTHING else Submit(SubmitAll(ls[..|ls| - 1]), ls[|ls| - 1])
  }

  /** What each committed event was meant to say. */
  datatype Meaning = Defines(id: nat, name: Name) | Runs(start: u64, end: u64, id: nat, name: Name)

  function Encode(m: Meaning): Ev {
    match m
    case Defines(id, name) => EncodeDef(id, name)
    case Runs(start, end, id, _) => EncodeKernel(start, end, id)
  }

  function EncodeAll(ms: seq<Meaning>): (es: seq<Ev>)
    ensures |es| == |ms|
  {
    seq(|ms|, i requires 0 <= i < |ms| => Encode(ms[i]))
  }

  function Definition(p: Producer, l: Launch): seq<Meaning> {
    if l.name in p.cctxs || !l.defOk then [] else [Defines(p.next, l.name)]
  }

  function Meant(p: Producer, l: Launch): seq<Meaning> {
    Definition(p, l) + if l.kernelOk then [Runs(l.start, l.end, Define(p, l.name, l.defOk).1, l.name)] else []
  }

  function MeantAll(ls: seq<Launch>): seq<Meaning> {
    if ls == [] then []
    else MeantAll(ls[..|ls| - 1]) + Meant(SubmitAll(ls[..|ls| - 1]), ls[|ls| - 1])
  }

  /** A launch whose name could not be defined although the kernel itself got through; the
      number used for it is then 0. */
  predicate Misnamed(p: Producer, l: Launch) {
    l.name !in p.cctxs && !l.defOk && l.kernelOk
  }

  ghost predicate SomeMisnamed(ls: seq<Launch>) {
    exists i :: 0 <= i < |ls| && Misnamed(SubmitAll(ls[..i]), ls[i])
  }

  /** Numbers and names determine each other, and each has one definition in the stream. */
  ghost predicate Numbering(p: Producer, ms: seq<Meaning>) {
    && p.out == EncodeAll(ms)
    && (forall a :: a in p.cctxs ==> p.cctxs[a] < p.next)
    && (forall a, b :: a in p.cctxs && b in p.cctxs && p.cctxs[a] == p.cctxs[b] ==> a == b)
    && (forall i :: 0 <= i < |ms| && ms[i].Defines? ==> ms[i].name in p.cctxs && p.cctxs[ms[i].name] == ms[i].id)
    && (forall a :: a in p.cctxs ==> Defines(p.cctxs[a], a) in ms)
  }

  /** Every kernel in the stream comes behind the definition of its number under its name. */
  ghost predicate DefinedBefore(ms: seq<Meaning>) {
    forall j :: 0 <= j < |ms| && ms[j].Runs? ==> Defines(ms[j].id, ms[j].name) in ms[..j]
  }

  lemma EncodeSnoc(ms: seq<Meaning>, m: Meaning)
    ensures EncodeAll(ms + [m]) == EncodeAll(ms) + [Encode(m)]
  {
  }

  lemma DefineKeepsNumbering(p: Producer, ms: seq<Meaning>, name: Name)
    requires Numbering(p, ms) && name !in p.cctxs
    ensures Numbering(Define(p, name, true).0, ms + [Defines(p.next, name)])
  {
    EncodeSnoc(ms, Defines(p.next, name));
    assert (ms + [Defines(p.next, name)])[|ms|] == Defines(p.next, name);
  }

  lemma RunKeepsNumbering(p: Producer, ms: seq<Meaning>, m: Meaning)
    requires Numbering(p, ms) && m.Runs?
    ensures Numbering(p.(out := p.out + [Encode(m)]), ms + [m])
  {
    EncodeSnoc(ms, m);
  }

  lemma DefinitionKeepsNumbering(p: Producer, ms: seq<Meaning>, l: Launch)
    requires Numbering(p, ms)
    ensures Numbering(Define(p, l.name, l.defOk).0, ms + Definition(p, l))
  {
    if l.name !in p.cctxs && l.defOk { DefineKeepsNumbering(p, ms, l.name); } else { assert ms + [] == ms; }
  }

  lemma SubmitKeepsNumbering(p: Producer, ms: seq<Meaning>, l: Launch)
    requires Numbering(p, ms)
    ensures Numbering(Submit(p, l), ms + Meant(p, l))
  {
    var (p1, id) := Define(p, l.name, l.defOk);
    var ms1 := ms + Definition(p, l);
    DefinitionKeepsNumbering(p, ms, l);
    if l.kernelOk {
      var run := Runs(l.start, l.end, id, l.name);
      RunKeepsNumbering(p1, ms1, run);
      assert ms + Meant(p, l) == ms1 + [run];
    } else {
      assert Meant(p, l) == Definition(p, l);
    }
  }

  lemma MeantOfLaunch(p: Producer, ms: seq<Meaning>, l: Launch)
    requires Numbering(p, ms)
    ensures Submit(p, l).next <= p.next + 1
    ensures forall i :: 0 <= i < |Meant(p, l)| ==> Meant(p, l)[i].id <= p.next && Meant(p, l)[i].name == l.name
  {
  }

  lemma {:induction false} EveryRunNumbers(ls: seq<Launch>)
    ensures Numbering(SubmitAll(ls), MeantAll(ls)) && SubmitAll(ls).next <= |ls|
    ensures forall i :: 0 <= i < |MeantAll(ls)| ==> MeantAll(ls)[i].id <= |ls|
    ensures (forall i :: 0 <= i < |ls| ==> 0 !in ls[i].name) ==>
              forall i :: 0 <= i < |MeantAll(ls)| ==> 0 !in MeantAll(ls)[i].name
  {
    if ls != [] {
      var before, l := ls[..|ls| - 1], ls[|ls| - 1];
      EveryRunNumbers(before);
      SubmitKeepsNumbering(SubmitAll(before), MeantAll(before), l);
      MeantOfLaunch(SubmitAll(before), MeantAll(before), l);
      assert SubmitAll(ls) == Submit(SubmitAll(before), l);
      assert MeantAll(ls) == MeantAll(before) + Meant(SubmitAll(before), l);
    }
  }

  lemma SubmitDefinesBefore(p: Producer, ms: seq<Meaning>, l: Launch)
    requires Numbering(p, ms) && DefinedBefore(ms) && !Misnamed(p, l)
    ensures DefinedBefore(ms + Meant(p, l))
  {
    var added := Meant(p, l);
    var all := ms + added;
    forall j | 0 <= j < |all| && all[j].Runs? ensures Defines(all[j].id, all[j].name) in all[..j] {
      if j < |ms| {
        assert all[..j] == ms[..j];
      } else if l.name in p.cctxs {
        assert all[..j] == ms;
      } else {
        assert all[|ms|] == Defines(all[j].id, l.name);
        assert all[..j][|ms|] == all[|ms|];
      }
    }
  }

  lemma {:induction false} EveryRunDefinesBefore(ls: seq<Launch>)
    requires !SomeMisnamed(ls)
    ensures DefinedBefore(MeantAll(ls))
  {
    if ls != [] {
      var n := |ls| - 1;
      forall i | 0 <= i < n ensures !Misnamed(SubmitAll(ls[..n][..i]), ls[..n][i]) {
        assert ls[..n][..i] == ls[..i];
      }
      EveryRunDefinesBefore(ls[..n]);
      EveryRunNumbers(ls[..n]);
      assert !Misnamed(SubmitAll(ls[..n]), ls[n]);
      SubmitDefinesBefore(SubmitAll(ls[..n]), MeantAll(ls[..n]), ls[n]);
    }
  }

  // ---- The monitor --------------------------------------------------------------------

  /** The function table: the first definition of a number stands. */
  function Learn(functions: map<nat, Name>, e: Ev): map<nat, Name> {
    if Field(e, 8) == KERNEL_DEF && 24 <= |e| && Field(e, 16) !in functions
    then functions[Field(e, 16) := CStr(e[24..])]
    else functions
  }

  function LearnAll(es: seq<Ev>): map<nat, Name> {
    if es == [] then map[] else Learn(LearnAll(es[..|es| - 1]), es[|es| - 1])
  }

  /** A definition event of that number. */
  predicate DefinesNumber(e: Ev, id: nat) {
    Field(e, 8) == 1 && 24 <= |e| && Field(e, 16) == id
  }

  /** Whatever the events: a number is known exactly if an event defines it, and under the name in
      the first one that does. */
  lemma {:induction false} FirstDefinitionStands(es: seq<Ev>, id: nat)
    ensures id in LearnAll(es) <==> exists i :: 0 <= i < |es| && DefinesNumber(es[i], id)
    ensures forall i :: 0 <= i < |es| && DefinesNumber(es[i], id) && (forall j :: 0 <= j < i ==> !DefinesNumber(es[j], id)) ==>
              id in LearnAll(es) && LearnAll(es)[id] == CStr(es[i][24..])
  {
    if es != [] {
      var n := |es| - 1;
      FirstDefinitionStands(es[..n], id);
      assert forall i :: 0 <= i < n ==> es[..n][i] == es[i];
    }
  }

  /** The table holds exactly the definitions among the events. */
  ghost predicate Knows(functions: map<nat, Name>, ms: seq<Meaning>) {
    forall id, name :: id in functions && functions[id] == name <==> Defines(id, name) in ms
  }

  lemma {:induction false} LearnsDefinitions(p: Producer, ms: seq<Meaning>, k: nat)
    requires Numbering(p, ms) && k <= |ms|
    requires forall i :: 0 <= i < |ms| ==> 0 !in ms[i].name && ms[i].id < 0x1_0000_0000_0000_0000
    ensures Knows(LearnAll(EncodeAll(ms)[..k]), ms[..k])
  {
    if k != 0 {
      var es := EncodeAll(ms);
      LearnsDefinitions(p, ms, k - 1);
      assert es[..k][..k - 1] == es[..k - 1];
      LearnsOne(p, ms, k - 1, LearnAll(es[..k - 1]));
    }
  }

  lemma LearnsOne(p: Producer, ms: seq<Meaning>, k: nat, functions: map<nat, Name>)
    requires Numbering(p, ms) && k < |ms| && Knows(functions, ms[..k])
    requires 0 !in ms[k].name && ms[k].id < 0x1_0000_0000_0000_0000
    ensures Knows(Learn(functions, Encode(ms[k])), ms[..k + 1])
  {
    assert ms[..k + 1] == ms[..k] + [ms[k]];
    match ms[k]
    case Runs(start, end, id, _) => DecodeKernel(start, end, id);
    case Defines(id, name) =>
      DecodeDef(id, name);
      NameArrivesExactlyWhen(name);
      if id in functions {
        assert Defines(id, functions[id]) in ms[..k];
        assert Defines(id, functions[id]) in ms;
      }
  }

  /** The kernel events among the first k are all known to the monitor under the name their
      producer gave. */
  ghost predicate NamedRight(ms: seq<Meaning>, k: nat)
    requires k <= |ms|
  {
    forall j :: 0 <= j < k && ms[j].Runs? ==>
      var functions := LearnAll(EncodeAll(ms)[..j]);
      ms[j].id in functions && functions[ms[j].id] == ms[j].name
  }

  lemma {:induction false} MeantPrefix(ls: seq<Launch>, i: nat)
    requires i <= |ls|
    ensures MeantAll(ls[..i]) <= MeantAll(ls)
    decreases |ls|
  {
    if i < |ls| {
      MeantPrefix(ls[..|ls| - 1], i);
      assert ls[..|ls| - 1][..i] == ls[..i];
    } else {
      assert ls[..i] == ls;
    }
  }

  ghost predicate ProperNames(ls: seq<Launch>) {
    |ls| < 0xffff_ffff_ffff_ffff && forall i :: 0 <= i < |ls| ==> 0 !in ls[i].name
  }

  lemma NamedRightWithoutMisnaming(ls: seq<Launch>, j: nat)
    requires ProperNames(ls) && !SomeMisnamed(ls) && j < |MeantAll(ls)| && MeantAll(ls)[j].Runs?
    ensures var ms := MeantAll(ls);
            var functions := LearnAll(EncodeAll(ms)[..j]);
            ms[j].id in functions && functions[ms[j].id] == ms[j].name
  {
    EveryRunNumbers(ls);
    EveryRunDefinesBefore(ls);
    LearnsDefinitions(SubmitAll(ls), MeantAll(ls), j);
  }

  lemma MeantMisnamed(p: Producer, l: Launch)
    requires Misnamed(p, l)
    ensures Meant(p, l) == [Runs(l.start, l.end, 0, l.name)]
  {
  }

  /** A launch that could not be defined is written under the number 0. */
  lemma MisnamedIsZero(ls: seq<Launch>, i: nat)
    requires i < |ls| && Misnamed(SubmitAll(ls[..i]), ls[i])
    ensures MeantAll(ls[..i]) + [Runs(ls[i].start, ls[i].end, 0, ls[i].name)] <= MeantAll(ls)
  {
    var last := Runs(ls[i].start, ls[i].end, 0, ls[i].name);
    assert ls[..i + 1][..i] == ls[..i] && ls[..i + 1][i] == ls[i];
    MeantMisnamed(SubmitAll(ls[..i]), ls[i]);
    MeantPrefix(ls, i + 1);
    assert MeantAll(ls[..i + 1]) == MeantAll(ls[..i]) + [last];
  }

  /** No definition of a name stands in the stream before the name has a number. */
  lemma UndefinedIsUnknown(p: Producer, ms: seq<Meaning>, id: nat, name: Name)
    requires Numbering(p, ms) && name !in p.cctxs
    ensures Defines(id, name) !in ms
  {
  }

  /** A kernel whose definition is not in front of it is not named right. */
  lemma UndefinedIsWrong(ms: seq<Meaning>, j: nat)
    requires j < |ms| && ms[j].Runs? && Defines(ms[j].id, ms[j].name) !in ms[..j]
    requires Knows(LearnAll(EncodeAll(ms)[..j]), ms[..j])
    ensures !NamedRight(ms, |ms|)
  {
  }

  /** At that point the monitor does not know 0 by that launch's name. */
  lemma MisnamedIsWrong(ls: seq<Launch>, i: nat)
    requires ProperNames(ls) && i < |ls| && Misnamed(SubmitAll(ls[..i]), ls[i])
    ensures !NamedRight(MeantAll(ls), |MeantAll(ls)|)
  {
    var ms, before := MeantAll(ls), MeantAll(ls[..i]);
    var j := |before|;
    MisnamedIsZero(ls, i);
    assert ms[..j] == before && ms[j] == Runs(ls[i].start, ls[i].end, 0, ls[i].name);
    NoneDefinedYet(ls, i);
    KnowsPrefix(ls, j);
    UndefinedIsWrong(ms, j);
  }

  lemma NoneDefinedYet(ls: seq<Launch>, i: nat)
    requires i < |ls| && ls[i].name !in SubmitAll(ls[..i]).cctxs
    ensures Defines(0, ls[i].name) !in MeantAll(ls[..i])
  {
    EveryRunNumbers(ls[..i]);
    UndefinedIsUnknown(SubmitAll(ls[..i]), MeantAll(ls[..i]), 0, ls[i].name);
  }

  /** After any number of events the monitor knows the definitions among them. */
  lemma KnowsPrefix(ls: seq<Launch>, k: nat)
    requires ProperNames(ls) && k <= |MeantAll(ls)|
    ensures Knows(LearnAll(EncodeAll(MeantAll(ls))[..k]), MeantAll(ls)[..k])
  {
    EveryRunNumbers(ls);
    LearnsDefinitions(SubmitAll(ls), MeantAll(ls), k);
  }

  /** Every kernel event finds its producer's name in the monitor's table, defined before it,
      exactly if no launch was written whose definition had been refused. */
  lemma NamedRightExactlyWhen(ls: seq<Launch>)
    requires ProperNames(ls)
    ensures NamedRight(MeantAll(ls), |MeantAll(ls)|) <==> !SomeMisnamed(ls)
  {
    if SomeMisnamed(ls) {
      var i :| 0 <= i < |ls| && Misnamed(SubmitAll(ls[..i]), ls[i]);
      MisnamedIsWrong(ls, i);
    } else {
      forall j | 0 <= j < |MeantAll(ls)| && MeantAll(ls)[j].Runs?
        ensures var functions := LearnAll(EncodeAll(MeantAll(ls))[..j]);
                MeantAll(ls)[j].id in functions && functions[MeantAll(ls)[j].id] == MeantAll(ls)[j].name
      {
        NamedRightWithoutMisnaming(ls, j);
      }
    }
  }

  // ---- The two ends as objects --------------------------------------------------------

  /** memcpy into an event. */
  function Copy(e: Ev, at: nat, bs: seq<byte>): (r: Ev)
    requires at + |bs| <= |e|
    ensures |r| == |e|
  {
    e[..at] + bs + e[at + |bs|..]
  }

  lemma {:induction false} WordsSnoc(ws: seq<nat>, w: nat)
    ensures Words(ws + [w]) == Words(ws) + ToBytes(w, 8)
  {
    if ws == [] {
      assert (ws + [w])[1..] == [];
    } else {
      assert (ws + [w])[1..] == ws[1..] + [w];
      WordsSnoc(ws[1..], w);
    }
  }

  /** Filling in the next field of a packed struct. */
  lemma FillWord(ws: seq<nat>, w: nat, rest: seq<byte>)
    requires 8 <= |rest|
    ensures Copy(Words(ws) + rest, 8 * |ws|, ToBytes(w, 8)) == Words(ws + [w]) + rest[8..]
  {
    WordsSnoc(ws, w);
  }

  lemma DefFilled(id: nat, name: Name)
    ensures Copy(Copy(Copy(Rb.Blank(25 + |name|, 8), 24, name), 8, ToBytes(KERNEL_DEF, 8)), 16, ToBytes(id, 8))
         == EncodeDef(id, name)
  {
    var n := 25 + |name|;
    var rest := Rb.Zeros(16) + (name + [0]);
    WordsSnoc([], n);
    assert Copy(Rb.Blank(n, 8), 24, name) == Words([n]) + rest;
    FillWord([n], KERNEL_DEF, rest);
    FillWord([n, KERNEL_DEF], id, rest[8..]);
    assert [n] + [KERNEL_DEF] == [n, KERNEL_DEF] && [n, KERNEL_DEF] + [id] == [n, KERNEL_DEF, id];
    assert rest[8..][8..] == name + [0];
  }

  lemma KernelFilled(start: u64, end: u64, id: nat)
    ensures Copy(Copy(Copy(Copy(Rb.Blank(40, 8), 8, ToBytes(KERNEL, 8)), 16, ToBytes(start, 8)), 24, ToBytes(end, 8)),
                 32, ToBytes(id, 8))
         == EncodeKernel(start, end, id)
  {
    var z := Rb.Zeros(32);
    WordsSnoc([], 40);
    assert Rb.Blank(40, 8) == Words([40]) + z;
    FillWord([40], KERNEL, z);
    FillWord([40, KERNEL], start, z[8..]);
    FillWord([40, KERNEL, start], end, z[8..][8..]);
    FillWord([40, KERNEL, start, end], id, z[8..][8..][8..]);
    assert [40] + [KERNEL] == [40, KERNEL] && [40, KERNEL] + [start] == [40, KERNEL, start];
    assert [40, KERNEL, start] + [end] == [40, KERNEL, start, end];
    assert [40, KERNEL, start, end] + [id] == [40, KERNEL, start, end, id];
    assert z[8..][8..][8..][8..] == [];
  }

  /** gpu::RingbufWriter. Whether reserve finds room is a parameter of the calls here; the system of
      writer, ring buffer and monitor has the ring buffer answer. */
  class RingbufWriter {
    var cctxs: map<Name, nat>
    var nextRef: nat
    var out: seq<Ev>

    ghost function View(): Producer
      reads this
    {
      Producer(cctxs, nextRef, out)
    }

    constructor ()
      ensures View() == NOTHING
    {
      cctxs := map[];
      nextRef := 0;
      out := [];
    }

    method KernelDef(func: Name, room: bool) returns (id: nat)
      modifies this
      ensures (View(), id) == Define(old(View()), func, room)
    {
      if func in cctxs {
        return cctxs[func];
      }
      if !room {
        return 0;
      }
      var ev := Rb.Blank(25 + |func|, 8);
      cctxs := cctxs[func := nextRef];
      id := nextRef;
      ev := Copy(ev, 24, func);
      ev := Copy(ev, 8, ToBytes(KERNEL_DEF, 8));
      ev := Copy(ev, 16, ToBytes(id, 8));
      DefFilled(id, func);
      nextRef := nextRef + 1;
      out := out + [ev];
    }

    method Kernel(start: u64, end: u64, id: nat, room: bool) returns (written: bool)
      modifies `out
      ensures written == room
      ensures out == old(out) + if room then [EncodeKernel(start, end, id)] else []
    {
      if !room {
        return false;
      }
      var ev := Rb.Blank(40, 8);
      ev := Copy(ev, 8, ToBytes(KERNEL, 8));
      ev := Copy(ev, 16, ToBytes(start, 8));
      ev := Copy(ev, 24, ToBytes(end, 8));
      ev := Copy(ev, 32, ToBytes(id, 8));
      KernelFilled(start, end, id);
      out := out + [ev];
      written := true;
    }

    /** One kernel record of the CUDA activity buffer. */
    method Report(l: Launch)
      modifies this
      ensures View() == Submit(old(View()), l)
    {
      var id := KernelDef(l.name, l.defOk);
      var _ := Kernel(l.start, l.end, id, l.kernelOk);
    }
  }

  /** What a kernel event does to the call stack and stream of the monitor. */
  function Watch(differs: Comparison, pid: int, m: Machine, e: Ev): Machine {
    if Field(e, 8) == KERNEL
    then Leave(Enter(differs, m, Field(e, 16), 1, [Process(pid), GpuKernel(Field(e, 32))]), Field(e, 24), 2)
    else m
  }

  function WatchAll(differs: Comparison, pid: int, es: seq<Ev>): Machine {
    if es == [] then START else Watch(differs, pid, WatchAll(differs, pid, es[..|es| - 1]), es[|es| - 1])
  }

  /** One enter at its start and one leave at its end, on the node of its process and number;
      the very first kernel also enters the process. */
  lemma KernelIsOneSpan(differs: Comparison, pid: int, m: Machine, start: u64, end: u64, id: u64)
    requires !differs(Process(pid), Process(pid)) && (m.stack == [] || m.stack == [Process(pid)])
    ensures var m' := Watch(differs, pid, m, EncodeKernel(start, end, id));
            var node := [Process(pid), GpuKernel(id)];
            && m'.stack == [Process(pid)]
            && m'.trace == m.trace + (if m.stack == [] then [CctxEnter(start, [Process(pid)])] else [])
                           + [CctxEnter(start, node), CctxLeave(end, node)]
  {
    DecodeKernel(start, end, id);
    EnterKernel(differs, pid, m, start, id);
    LeaveKernel(pid, m.trace + KernelEnters(pid, m, start, id), end, id);
  }

  lemma LeaveKernel(pid: int, trace: seq<Event<Path>>, end: Time, id: nat)
    ensures Leave(Machine([Process(pid), GpuKernel(id)], trace), end, 2)
         == Machine([Process(pid)], trace + [CctxLeave(end, [Process(pid), GpuKernel(id)])])
  {
    var node := [Process(pid), GpuKernel(id)];
    assert node[..2] == node && node[..1] == [Process(pid)];
    assert Leaves(end, node, 1) == [CctxLeave(end, node)];
  }

  /** The enter events of a kernel. */
  function KernelEnters(pid: int, m: Machine, start: Time, id: nat): seq<Event<Path>> {
    (if m.stack == [] then [CctxEnter(start, [Process(pid)])] else []) + [CctxEnter(start, [Process(pid), GpuKernel(id)])]
  }

  lemma EnterKernel(differs: Comparison, pid: int, m: Machine, start: Time, id: nat)
    requires !differs(Process(pid), Process(pid)) && (m.stack == [] || m.stack == [Process(pid)])
    ensures Enter(differs, m, start, 1, [Process(pid), GpuKernel(id)])
         == Machine([Process(pid), GpuKernel(id)], m.trace + KernelEnters(pid, m, start, id))
  {
    var cs := [Process(pid), GpuKernel(id)];
    var m1 := EnterNode(differs, m, start, 1, cs[0]);
    assert m1.stack == [Process(pid)];
    assert m1.trace == m.trace + if m.stack == [] then [CctxEnter(start, [Process(pid)])] else [];
    assert cs[1..] == [cs[1]] && cs[1..][1..] == [];
    var m2 := Push(m1, start, cs[1]);
    assert Enter(differs, m, start, 1, cs) == Enter(differs, m1, start, 2, cs[1..]) == m2;
    assert m2.stack == cs;
    assert m2.trace == m.trace + KernelEnters(pid, m, start, id);
  }

  /** The end of the latest kernel among the events. */
  function LastEnd(es: seq<Ev>): nat {
    if es == [] then 0
    else if Field(es[|es| - 1], 8) == KERNEL then Field(es[|es| - 1], 24)
    else LastEnd(es[..|es| - 1])
  }

  /** GPUMonitor: the table of functions and the local tree, after everything seen so far. */
  class GPUMonitor {
    const process: int
    const tree: LocalCctxTree
    var functions: map<nat, Name>
    var lastTp: Time
    ghost var seen: seq<Ev>

    ghost predicate Valid()
      reads this, tree
    {
      && tree.Valid() && !tree.differs(Process(process), Process(process))
      && functions == LearnAll(seen) && lastTp == LastEnd(seen)
      && tree.spec == WatchAll(tree.differs, process, seen)
      && (tree.spec.stack == [] || tree.spec.stack == [Process(process)])
    }

    constructor (process: int, differs: Comparison)
      requires !differs(Process(process), Process(process))
      ensures fresh(tree) && Valid() && seen == [] && this.process == process && tree.differs == differs
    {
      this.process := process;
      tree := new LocalCctxTree(differs);
      functions := map[];
      lastTp := 0;
      seen := [];
    }

    method HandleKernel(e: Ev)
      requires Valid() && Field(e, 8) == KERNEL
      modifies this, tree
      ensures Valid() && seen == old(seen) + [e]
    {
      var start, end, id := Field(e, 16), Field(e, 24), Field(e, 32);
      StackAfterKernel(tree.differs, process, tree.spec, start, end, id);
      tree.CctxEnter(start, 1, [Process(process), GpuKernel(id)]);
      var _ := tree.CctxLeave(end, 2);
      lastTp := end;
      SeenOneMore(tree.differs, process, seen, e);
      seen := seen + [e];
    }

    method HandleOther(e: Ev)
      requires Valid() && Field(e, 8) != KERNEL
      modifies this
      ensures Valid() && seen == old(seen) + [e]
    {
      SeenOneMore(tree.differs, process, seen, e);
      if Field(e, 8) == KERNEL_DEF {
        var id := Field(e, 16);
        if id !in functions && 24 <= |e| {
          functions := functions[id := CStr(e[24..])];
        }
      }
      seen := seen + [e];
    }

    /** The body of the loop in monitor() for the event that is popped. */
    method Handle(e: Ev)
      requires Valid()
      modifies this, tree
      ensures Valid() && seen == old(seen) + [e]
    {
      var eventType := Field(e, 8);
      if eventType == KERNEL {
        HandleKernel(e);
      } else {
        HandleOther(e);
      }
    }

    /** monitor(): drains what can be popped. */
    method Drain(popped: seq<Ev>)
      requires Valid()
      modifies this, tree
      ensures Valid() && seen == old(seen) + popped
    {
      for i := 0 to |popped|
        invariant Valid() && seen == old(seen) + popped[..i]
      {
        PrefixSnoc(popped, i);
        Handle(popped[i]);
      }
      assert popped[..|popped|] == popped;
    }

    /** finalize_thread(). */
    method FinalizeThread()
      requires Valid()
      modifies tree
      ensures tree.Valid() && tree.refCount == tree.nextRef
      ensures tree.spec == Leave(WatchAll(tree.differs, process, seen), LastEnd(seen), 1)
    {
      var _ := tree.CctxLeave(lastTp, 1);
      tree.Finalize();
    }
  }

  lemma PrefixSnoc(es: seq<Ev>, i: nat)
    requires i < |es|
    ensures es[..i + 1] == es[..i] + [es[i]]
  {
  }

  lemma SeenOneMore(differs: Comparison, pid: int, es: seq<Ev>, e: Ev)
    ensures LearnAll(es + [e]) == Learn(LearnAll(es), e)
    ensures LastEnd(es + [e]) == if Field(e, 8) == KERNEL then Field(e, 24) else LastEnd(es)
    ensures WatchAll(differs, pid, es + [e]) == Watch(differs, pid, WatchAll(differs, pid, es), e)
  {
    assert (es + [e])[..|es|] == es;
  }

  lemma StackAfterKernel(differs: Comparison, pid: int, m: Machine, start: Time, end: Time, id: nat)
    requires !differs(Process(pid), Process(pid)) && (m.stack == [] || m.stack == [Process(pid)])
    ensures Leave(Enter(differs, m, start, 1, [Process(pid), GpuKernel(id)]), end, 2).stack == [Process(pid)]
  {
    EnterKernel(differs, pid, m, start, id);
    LeaveKernel(pid, m.trace + KernelEnters(pid, m, start, id), end, id);
  }
}
