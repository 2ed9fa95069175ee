/** Bytes and their little-endian reading, and windows into a buffer that wraps around. */
module Bytes {
  type byte = x: int | 0 <= x < 256

  function Power256(k: nat): (r: nat)
    ensures r > 0
  {
    if k == 0 then 1 else 256 * Power256(k - 1)
  }

  /** The k low bytes of n, lowest first. */
  function ToBytes(n: nat, k: nat): (bs: seq<byte>)
    ensures |bs| == k
  {
    if k == 0 then [] else [n % 256] + ToBytes(n / 256, k - 1)
  }

  function FromBytes(bs: seq<byte>): nat {
    if bs == [] then 0 else bs[0] + 256 * FromBytes(bs[1..])
  }

  lemma {:induction false} RoundTrip(n: nat, k: nat)
    requires n < Power256(k)
    ensures FromBytes(ToBytes(n, k)) == n
  {
    if k != 0 {
      RoundTrip(n / 256, k - 1);
      assert ToBytes(n, k)[1..] == ToBytes(n / 256, k - 1);
    }
  }

  lemma Power256Of8()
    ensures Power256(8) == 0x1_0000_0000_0000_0000
  {
    assert Power256(4) == 0x1_0000_0000;
    assert Power256(6) == 0x1_0000_0000_0000;
  }

  /** The cell of a buffer that an ever-growing position falls into. */
  function Cell(x: nat, size: nat): (c: nat)
    requires size > 0
    ensures c < size
    decreases x
  {
    if x < size then x else Cell(x - size, size)
  }

  /** The n bytes from position pos of a buffer of the given size, around its end. */
  function Window(mem: seq<byte>, size: nat, pos: nat, n: nat): (bs: seq<byte>)
    requires |mem| == size && size > 0
    ensures |bs| == n
  {
    seq(n, i requires 0 <= i < n => mem[Cell(pos + i, size)])
  }

  lemma QuotientIsUnique(q: nat, r: nat, q': nat, r': nat, size: nat)
    requires r < size && r' < size && size * q + r == size * q' + r'
    ensures q == q' && r == r'
  {
    if q < q' { Multiples(q, q', size); }
    if q' < q { Multiples(q', q, size); }
  }

  lemma Multiples(q: nat, q': nat, size: nat)
    requires q < q'
    ensures size * q + size <= size * q'
  {
    var d := q' - q - 1;
    assert size * q' == size * q + size + size * d;
  }

  lemma Remainder(x: nat, q: nat, r: nat, size: nat)
    requires r < size && x == size * q + r
    ensures x % size == r && x / size == q
  {
    QuotientIsUnique(x / size, x % size, q, r, size);
  }

  /** The cell is what the remainder operator computes. */
  lemma {:induction false} CellIsRemainder(x: nat, size: nat)
    requires size > 0
    ensures Cell(x, size) == x % size
    decreases x
  {
    if x < size {
      Remainder(x, 0, x, size);
    } else {
      CellIsRemainder(x - size, size);
      var q, r := (x - size) / size, (x - size) % size;
      assert x == size * (q + 1) + r;
      Remainder(x, q + 1, r, size);
    }
  }

  /** Positions less than a buffer apart are different cells. */
  lemma {:induction false} DistinctCells(x: nat, y: nat, size: nat)
    requires x < y < x + size
    ensures Cell(x, size) != Cell(y, size)
    decreases x
  {
    if size <= x { DistinctCells(x - size, y - size, size); }
  }

  /** Near a cell: i positions further, at most once around. */
  lemma NearCell(x: nat, i: nat, size: nat)
    requires size > 0 && i <= size
    ensures Cell(x + i, size) == var c := Cell(x, size); if c + i < size then c + i else c + i - size
  {
    SameCell(x, i, size);
  }

  lemma {:induction false} SameCell(x: nat, i: nat, size: nat)
    requires size > 0
    ensures Cell(Cell(x, size) + i, size) == Cell(x + i, size)
    decreases x
  {
    if size <= x { SameCell(x - size, i, size); }
  }

  /** A write into one cell is not seen through a window it does not lie in. */
  lemma WriteOutside(mem: seq<byte>, size: nat, x: nat, b: byte, pos: nat, n: nat)
    requires |mem| == size && size > 0 && pos + n <= x < pos + size
    ensures Window(mem[Cell(x, size) := b], size, pos, n) == Window(mem, size, pos, n)
  {
    forall i | 0 <= i < n
      ensures Window(mem[Cell(x, size) := b], size, pos, n)[i] == Window(mem, size, pos, n)[i]
    {
      DistinctCells(pos + i, x, size);
    }
  }
}
