/** The tagged value that labels every node of a calling-context tree, with the three
    comparison operators of include/lo2s/calling_context.hpp as they are written there.

    The tag ROOT labels only the root node itself and is never compared, so it is not a
    constructor here: a node is named by the sequence of contexts on the way from the root,
    and the root is the empty sequence. */
module CallingContexts {

  datatype OmpType = Parallel | Master | Sync | Loop | Workshare | Other

  datatype CallingContext =
    | Process(pid: int)
    | Thread(tid: int)
    | SampleAddr(addr: nat)
    | GpuKernel(kernelId: nat)
    | Syscall(number: nat)
    | OpenMp(omp: OmpType, ompAddr: nat, numThreads: nat)

  type Path = seq<CallingContext>

  /** Position of the tag in the source's enumeration. */
  function Tag(c: CallingContext): int {
    match c
    case Process(_) => 1
    case Thread(_) => 2
    case SampleAddr(_) => 3
    case GpuKernel(_) => 4
    case Syscall(_) => 5
    case OpenMp(_, _, _) => 6
  }

  function OmpTag(t: OmpType): int {
    match t
    case Parallel => 0
    case Master => 1
    case Sync => 2
    case Loop => 3
    case Workshare => 4
    case Other => 5
  }

  /** operator<, the order of the children maps. */
  predicate Less(a: CallingContext, b: CallingContext) {
    if Tag(a) != Tag(b) then Tag(a) < Tag(b)
    else
      match a
      case Process(p) => p < b.pid
      case Thread(t) => t < b.tid
      case SampleAddr(x) => x < b.addr
      case GpuKernel(k) => k < b.kernelId
      case Syscall(s) => s < b.number
      case OpenMp(t, x, n) =>
        if t == b.omp then
          if n == b.numThreads then x < b.ompAddr else n < b.numThreads
        else OmpTag(t) < OmpTag(b.omp)
  }

  /** The children maps look keys up by operator<. It is a strict total order whose
      incomparable pairs are exactly the equal ones, so such a map is a finite function of
      the context. */
  lemma LessIsStrictTotalOrder(a: CallingContext, b: CallingContext, c: CallingContext)
    ensures !Less(a, a)
    ensures Less(a, b) && Less(b, c) ==> Less(a, c)
    ensures !Less(a, b) && !Less(b, a) <==> a == b
  {
    OmpTagInjective();
  }

  lemma OmpTagInjective()
    ensures forall s, t :: OmpTag(s) == OmpTag(t) ==> s == t
  {
  }

  /** A context as numbers: its kind, then what tells it from others of its kind. */
  function Key(c: CallingContext): (k: seq<int>)
    ensures |k| == 4
  {
    match c
    case Process(p) => [1, p, 0, 0]
    case Thread(t) => [2, t, 0, 0]
    case SampleAddr(x) => [3, x, 0, 0]
    case GpuKernel(k) => [4, k, 0, 0]
    case Syscall(s) => [5, s, 0, 0]
    case OpenMp(t, x, n) => [6, OmpTag(t), n, x]
  }

  /** The first difference decides. */
  predicate Lexicographic(a: seq<int>, b: seq<int>)
    requires |a| == |b|
    decreases |a|
  {
    a != [] && (a[0] < b[0] || (a[0] == b[0] && Lexicographic(a[1..], b[1..])))
  }

  lemma LexicographicOf4(a: seq<int>, b: seq<int>)
    requires |a| == |b| == 4
    ensures Lexicographic(a, b) <==>
            || a[0] < b[0]
            || (a[0] == b[0] && a[1] < b[1])
            || (a[0] == b[0] && a[1] == b[1] && a[2] < b[2])
            || (a[0] == b[0] && a[1] == b[1] && a[2] == b[2] && a[3] < b[3])
  {
    var a1, b1 := a[1..], b[1..];
    var a2, b2 := a1[1..], b1[1..];
    var a3, b3 := a2[1..], b2[1..];
    assert !Lexicographic(a3[1..], b3[1..]);
    assert Lexicographic(a3, b3) <==> a[3] < b[3];
    assert Lexicographic(a2, b2) <==> a[2] < b[2] || (a[2] == b[2] && a[3] < b[3]);
  }

  /** The order of the children maps: by kind, then by number; OpenMP regions by their type, then
      the number of threads, then the address. */
  lemma LessIsLexicographic(a: CallingContext, b: CallingContext)
    ensures Less(a, b) <==> Lexicographic(Key(a), Key(b))
  {
    LexicographicOf4(Key(a), Key(b));
    OmpTagInjective();
  }

  /** The first eight payload bytes, which is what a comparison reads after the tag was
      ignored; the payload of every context but OpenMp is exactly one such word. */
  function Word(c: CallingContext): nat {
    match c
    case Process(p) => p % 0x1_0000_0000_0000_0000
    case Thread(t) => t % 0x1_0000_0000_0000_0000
    case SampleAddr(x) => x
    case GpuKernel(k) => k
    case Syscall(s) => s
    case OpenMp(t, _, _) => OmpTag(t)
  }

  type Comparison = (CallingContext, CallingContext) -> bool

  /** operator!= is what the call stack compares nodes with. As written it answers false for
      any two contexts of one tag, and compares raw payload words for different tags. What an
      OpenMp left operand reads behind the first word of another payload is indeterminate, so
      this is a property of the comparison and not one function. */
  ghost predicate AsWritten(differs: Comparison) {
    forall a, b ::
      && (Tag(a) == Tag(b) ==> !differs(a, b))
      && (Tag(a) != Tag(b) && !a.OpenMp? ==> differs(a, b) == (Word(a) != Word(b)))
      && (Tag(a) != Tag(b) && a.OpenMp? && Word(a) != Word(b) ==> differs(a, b))
  }

  /** What the name of the operator promises. */
  ghost predicate RealDisequality(differs: Comparison) {
    forall a, b :: differs(a, b) <==> a != b
  }

  /** operator!= as written is not disequality: it confuses different contexts of one tag
      and equal numbers under different tags, and is right everywhere else. (An OpenMp left
      operand against an equal number of another tag is the indeterminate case.) */
  lemma AsWrittenIsRightExactlyWhen(differs: Comparison, a: CallingContext, b: CallingContext)
    requires AsWritten(differs) && (a.OpenMp? && !b.OpenMp? ==> Word(a) != Word(b))
    ensures (differs(a, b) <==> a != b) <==> (a == b || (Tag(a) != Tag(b) && Word(a) != Word(b)))
  {
    assert differs(a, b) == (Tag(a) != Tag(b) && Word(a) != Word(b));
    if Tag(a) == Tag(b) { LessIsStrictTotalOrder(a, b, a); }
  }
}
