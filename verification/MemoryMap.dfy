/** MemoryMap (include/lo2s/memory_map.hpp, include/lo2s/address.hpp): ranges of addresses
    mapped to values, kept in a std::map that is ordered and searched by Range::operator<. */
module MemoryMap {
  import opened Options

  const MAX_ADDRESS := 0xffff_ffff_ffff_ffff

  /** A Mapping and what it maps to; of the object it points to only the identity matters. */
  datatype Entry = Entry(start: nat, end: nat, pgoff: nat, value: nat)

  /** Range::operator<: all of the range lies in front of a key. */
  predicate Before(e: Entry, start: nat) {
    e.end <= start
  }

  predicate Has(e: Entry, a: nat) {
    e.start <= a < e.end
  }

  /** Range::in. */
  predicate Within(e: Entry, start: nat, end: nat) {
    start <= e.start && e.end <= end
  }

  predicate Proper(e: Entry) {
    e.start <= e.end <= MAX_ADDRESS
  }

  /** The map in iteration order. Empty ranges may be among the entries. */
  ghost predicate Sorted(m: seq<Entry>) {
    && (forall i :: 0 <= i < |m| ==> Proper(m[i]))
    && forall i, j :: 0 <= i < j < |m| ==> m[i].end <= m[j].start
  }

  // ---- The container ------------------------------------------------------------------

  /** lower_bound: the first entry not in front of a key that starts at `start`. */
  function LowerBound(m: seq<Entry>, start: nat): (i: nat)
    ensures i <= |m| && (i < |m| ==> m[i].end > start)
    ensures forall j :: 0 <= j < i ==> m[j].end <= start
  {
    if m == [] || !Before(m[0], start) then 0
    else
      var i := LowerBound(m[1..], start);
      assert forall j :: 0 < j < 1 + i ==> m[j] == m[1..][j - 1];
      1 + i
  }

  /** The first entry a key that ends at `end` is in front of. */
  function UpperBound(m: seq<Entry>, end: nat): (i: nat)
    ensures i <= |m| && (i < |m| ==> end <= m[i].start)
    ensures forall j :: 0 <= j < i ==> m[j].start < end
  {
    if m == [] || end <= m[0].start then 0
    else
      var i := UpperBound(m[1..], end);
      assert forall j :: 0 < j < 1 + i ==> m[j] == m[1..][j - 1];
      1 + i
  }

  /** The key of an address: [a, a + 1), or [a, a) for the highest address. */
  function PointEnd(a: nat): nat {
    if a == MAX_ADDRESS then a else a + 1
  }

  /** std::map::find with the key of an address. */
  function Find(m: seq<Entry>, a: nat): (r: Option<nat>)
    ensures r.Some? ==> r.value < |m|
  {
    var i := LowerBound(m, a);
    if i < |m| && !(PointEnd(a) <= m[i].start) then Some(i) else None
  }

  function Insert(m: seq<Entry>, i: nat, e: Entry): seq<Entry>
    requires i <= |m|
  {
    m[..i] + [e] + m[i..]
  }

  function Remove(m: seq<Entry>, i: nat): seq<Entry>
    requires i < |m|
  {
    m[..i] + m[i + 1..]
  }

  /** std::map::emplace: goes to the place behind every entry the key is not in front of, and
      inserts there if the entry just before is in front of the key. */
  function Emplace(m: seq<Entry>, e: Entry): (seq<Entry>, bool) {
    var i := UpperBound(m, e.end);
    if i == 0 || Before(m[i - 1], e.start) then (Insert(m, i, e), true) else (m, false)
  }

  /** Looking an address up finds the entry that has it, if there is one. */
  lemma FindFinds(m: seq<Entry>, a: nat, i: nat)
    requires Sorted(m) && a <= MAX_ADDRESS && i < |m| && Has(m[i], a)
    ensures Find(m, a) == Some(i)
  {
    assert LowerBound(m, a) <= i;
  }

  lemma FindIsRight(m: seq<Entry>, a: nat)
    requires Sorted(m) && a <= MAX_ADDRESS
    ensures match Find(m, a)
            case Some(i) => i < |m| && Has(m[i], a)
            case None => forall i :: 0 <= i < |m| ==> !Has(m[i], a)
  {
    forall i | 0 <= i < |m| && Has(m[i], a) ensures Find(m, a) == Some(i) { FindFinds(m, a, i); }
  }

  /** Nothing in the map shares an address with the range. */
  ghost predicate Free(m: seq<Entry>, start: nat, end: nat) {
    forall i :: 0 <= i < |m| ==> m[i].end <= start || end <= m[i].start
  }

  lemma InsertMembers(m: seq<Entry>, i: nat, e: Entry)
    requires i <= |m|
    ensures forall x :: x in Insert(m, i, e) <==> x == e || x in m
  {
    assert m == m[..i] + m[i..];
  }

  lemma InsertSorted(m: seq<Entry>, i: nat, e: Entry)
    requires Sorted(m) && Proper(e) && i <= |m|
    requires forall j :: 0 <= j < i ==> m[j].end <= e.start
    requires forall j :: i <= j < |m| ==> e.end <= m[j].start
    ensures Sorted(Insert(m, i, e))
  {
    var m' := Insert(m, i, e);
    assert forall j :: 0 <= j < i ==> m'[j] == m[j];
    assert m'[i] == e;
    assert forall j :: i < j < |m'| ==> m'[j] == m[j - 1];
  }

  lemma EmplaceWhenFree(m: seq<Entry>, e: Entry)
    requires Sorted(m) && Proper(e) && Free(m, e.start, e.end)
    ensures Emplace(m, e).1 && Sorted(Emplace(m, e).0)
    ensures forall x :: x in Emplace(m, e).0 <==> x == e || x in m
  {
    var i := UpperBound(m, e.end);
    forall j | 0 <= j < i ensures m[j].end <= e.start { assert m[j].start < e.end; }
    forall j | i <= j < |m| ensures e.end <= m[j].start { assert i < j ==> m[i].end <= m[j].start; }
    InsertMembers(m, i, e);
    InsertSorted(m, i, e);
  }

  lemma RemoveSorted(m: seq<Entry>, i: nat)
    requires Sorted(m) && i < |m|
    ensures Sorted(Remove(m, i))
  {
    var m' := Remove(m, i);
    assert forall j :: 0 <= j < i ==> m'[j] == m[j];
    assert forall j :: i <= j < |m'| ==> m'[j] == m[j + 1];
  }

  lemma RemoveMembers(m: seq<Entry>, i: nat)
    requires Sorted(m) && i < |m| && m[i].start < m[i].end
    ensures forall x :: x in Remove(m, i) <==> x in m && x != m[i]
  {
    assert m == m[..i] + [m[i]] + m[i + 1..];
    assert forall j :: 0 <= j < i ==> m[..i][j] == m[j] && m[j].end <= m[i].start;
    assert forall j :: i < j < |m| ==> m[i].end <= m[j].start;
    assert m[i] !in m[..i] && m[i] !in m[i + 1..];
  }

  // ---- What a lookup answers ----------------------------------------------------------

  function Found(m: seq<Entry>, a: nat): Option<Entry> {
    var it := Find(m, a);
    if it.Some? then Some(m[it.value]) else None
  }

  lemma FoundMember(m: seq<Entry>, a: nat, e: Entry)
    requires Sorted(m) && a <= MAX_ADDRESS && e in m && Has(e, a)
    ensures Found(m, a) == Some(e)
  {
    var i :| 0 <= i < |m| && m[i] == e;
    FindFinds(m, a, i);
  }

  lemma FoundNone(m: seq<Entry>, a: nat)
    requires Sorted(m) && a <= MAX_ADDRESS && forall x :: x in m ==> !Has(x, a)
    ensures Found(m, a) == None
  {
    FindIsRight(m, a);
  }

  lemma FoundIsMember(m: seq<Entry>, a: nat)
    requires Sorted(m) && a <= MAX_ADDRESS
    ensures match Found(m, a)
            case Some(e) => e in m && Has(e, a)
            case None => forall x :: x in m ==> !Has(x, a)
  {
    FindIsRight(m, a);
  }

  /** What a lookup answers after emplace, as the code has it: the new mapping inside its range;
      the old entry where it is untouched; the piece left or right of the new range where that
      lies inside the old entry; the piece to the right where the old entry starts inside the
      new range; and nothing where the old entry reaches into the new range from the left. */
  function After(m: seq<Entry>, n: Entry, a: nat): Option<Entry> {
    Next(Found(m, a), n, a)
  }

  function Next(found: Option<Entry>, n: Entry, a: nat): Option<Entry> {
    if Has(n, a) then Some(n)
    else
      match found
      case None => None
      case Some(e) =>
        if a < n.start then
          if e.end <= n.start then Some(e)
          else if n.end <= e.end then Some(e.(end := n.start))
          else None
        else if n.end <= e.start then Some(e)
        else Some(e.(start := n.end))
  }

  ghost predicate Answers(m': seq<Entry>, m: seq<Entry>, n: Entry) {
    forall a :: 0 <= a <= MAX_ADDRESS ==> Found(m', a) == After(m, n, a)
  }

  // ---- Step 1: what lies inside the new mapping goes ----------------------------------

  function Outside(m: seq<Entry>, n: Entry): seq<Entry> {
    if m == [] then []
    else
      var k := |m| - 1;
      Outside(m[..k], n) + if Within(m[k], n.start, n.end) then [] else [m[k]]
  }

  lemma {:induction false} OutsideMembers(m: seq<Entry>, n: Entry, x: Entry)
    ensures x in Outside(m, n) <==> x in m && !Within(x, n.start, n.end)
  {
    if m != [] {
      var k := |m| - 1;
      OutsideMembers(m[..k], n, x);
      assert m == m[..k] + [m[k]];
    }
  }

  lemma {:induction false} OutsideSorted(m: seq<Entry>, n: Entry)
    requires Sorted(m)
    ensures Sorted(Outside(m, n))
  {
    if m != [] {
      var k := |m| - 1;
      OutsideSorted(m[..k], n);
      forall x | x in Outside(m[..k], n) ensures x.end <= m[k].start {
        OutsideMembers(m[..k], n, x);
        var j :| 0 <= j < k && m[..k][j] == x;
        assert m[j].end <= m[k].start;
      }
    }
  }

  // ---- Step 2: the new mapping lies inside an old one ---------------------------------

  /** The entries after splitting `ex` around the new mapping. */
  ghost predicate SplitMembers(m': seq<Entry>, m: seq<Entry>, n: Entry, ex: Entry) {
    forall x :: x in m' <==>
      x == n || x == ex.(end := n.start) || x == ex.(start := n.end) || (x in Outside(m, n) && x != ex)
  }

  lemma SplitAnswers(m': seq<Entry>, m: seq<Entry>, n: Entry, ex: Entry, a: nat)
    requires Sorted(m) && Sorted(m') && Proper(n) && a <= MAX_ADDRESS
    requires ex in Outside(m, n) && ex.start <= n.start && n.end <= ex.end && SplitMembers(m', m, n, ex)
    ensures Found(m', a) == After(m, n, a)
  {
    OutsideMembers(m, n, ex);
    FoundIsMember(m, a);
    if Has(n, a) {
      FoundMember(m', a, n);
    } else if Has(ex, a) {
      FoundMember(m, a, ex);
      FoundMember(m', a, if a < n.start then ex.(end := n.start) else ex.(start := n.end));
    } else if Found(m, a).Some? {
      var e := Found(m, a).value;
      ApartFrom(m, e, ex);
      OutsideMembers(m, n, e);
      FoundMember(m', a, e);
    } else {
      forall x | x in m' ensures !Has(x, a) { OutsideMembers(m, n, x); }
      FoundNone(m', a);
    }
  }

  /** Different entries share no address. */
  lemma ApartFrom(m: seq<Entry>, e: Entry, f: Entry)
    requires Sorted(m) && e in m && f in m && e != f
    ensures e.end <= f.start || f.end <= e.start
  {
    var i :| 0 <= i < |m| && m[i] == e;
    var j :| 0 <= j < |m| && m[j] == f;
    assert i < j || j < i;
  }

  // ---- Steps 4.1 and 4.2: old mappings reach in from either side ----------------------

  /** The entries after both ends were dealt with; `es` has the start of the new range and `et`
      its end, if anything has. */
  ghost predicate TrimmedMembers(m': seq<Entry>, m: seq<Entry>, n: Entry, es: Option<Entry>, et: Option<Entry>) {
    forall x :: x in m' <==>
      || x == n
      || (es.Some? && x == es.value.(end := es.value.start))
      || (et.Some? && x == et.value.(start := n.end))
      || (x in Outside(m, n) && Some(x) != es && Some(x) != et)
  }

  /** Nothing kept contains the new mapping. */
  ghost predicate NoneAround(m: seq<Entry>, n: Entry) {
    forall x :: x in Outside(m, n) ==> !(x.start <= n.start && n.end <= x.end)
  }

  /** h is the entry that has address p, if there is one. */
  ghost predicate Holder(m: seq<Entry>, p: nat, h: Option<Entry>) {
    match h
    case Some(e) => e in m && Has(e, p)
    case None => forall x :: x in m ==> !Has(x, p)
  }

  lemma HolderIsUnique(m: seq<Entry>, p: nat, h: Option<Entry>, e: Entry)
    requires Sorted(m) && Holder(m, p, h) && e in m && Has(e, p)
    ensures h == Some(e)
  {
    if h.value != e { ApartFrom(m, h.value, e); }
  }

  /** An address in front of the new range. */
  lemma TrimmedLeft(m': seq<Entry>, m: seq<Entry>, n: Entry, es: Option<Entry>, et: Option<Entry>, a: nat, e: Entry)
    requires Sorted(m) && Sorted(m') && Proper(n) && a < n.start && NoneAround(m, n)
    requires Holder(Outside(m, n), n.start, es) && Holder(Outside(m, n), n.end, et) && TrimmedMembers(m', m, n, es, et)
    requires e in m && Has(e, a)
    ensures Found(m', a) == if e.end <= n.start then Some(e) else None
  {
    var m1 := Outside(m, n);
    OutsideSorted(m, n);
    OutsideMembers(m, n, e);
    if n.start < e.end {
      HolderIsUnique(m1, n.start, es, e);
      forall x | x in m' ensures !Has(x, a) {
        if x in m1 && x != e { ApartFrom(m1, x, e); }
      }
      FoundNone(m', a);
    } else {
      FoundMember(m', a, e);
    }
  }

  /** An address behind the new range. */
  lemma TrimmedRight(m': seq<Entry>, m: seq<Entry>, n: Entry, es: Option<Entry>, et: Option<Entry>, a: nat, e: Entry)
    requires Sorted(m) && Sorted(m') && Proper(n) && n.end <= a <= MAX_ADDRESS && NoneAround(m, n)
    requires Holder(Outside(m, n), n.start, es) && Holder(Outside(m, n), n.end, et) && TrimmedMembers(m', m, n, es, et)
    requires e in m && Has(e, a)
    ensures Found(m', a) == if n.end <= e.start then Some(e) else Some(e.(start := n.end))
  {
    var m1 := Outside(m, n);
    OutsideSorted(m, n);
    OutsideMembers(m, n, e);
    if e.start <= n.end {
      HolderIsUnique(m1, n.end, et, e);
      FoundMember(m', a, e.(start := n.end));
    } else {
      FoundMember(m', a, e);
    }
  }

  lemma TrimmedAnswers(m': seq<Entry>, m: seq<Entry>, n: Entry, es: Option<Entry>, et: Option<Entry>, a: nat)
    requires Sorted(m) && Sorted(m') && Proper(n) && a <= MAX_ADDRESS && NoneAround(m, n)
    requires Holder(Outside(m, n), n.start, es) && Holder(Outside(m, n), n.end, et) && TrimmedMembers(m', m, n, es, et)
    ensures Found(m', a) == After(m, n, a)
  {
    FoundIsMember(m, a);
    if Has(n, a) {
      FoundMember(m', a, n);
    } else if Found(m, a).Some? {
      var e := Found(m, a).value;
      if a < n.start {
        OutsideMembers(m, n, e);
        TrimmedLeft(m', m, n, es, et, a, e);
      } else {
        TrimmedRight(m', m, n, es, et, a, e);
      }
    } else {
      forall x | x in m' ensures !Has(x, a) { TrimmedStray(m', m, n, es, et, x, a); }
      FoundNone(m', a);
    }
  }

  /** An entry of the result covers no address that was in neither the map nor the new range. */
  lemma TrimmedStray(m': seq<Entry>, m: seq<Entry>, n: Entry, es: Option<Entry>, et: Option<Entry>, x: Entry, a: nat)
    requires Holder(Outside(m, n), n.start, es) && Holder(Outside(m, n), n.end, et) && TrimmedMembers(m', m, n, es, et)
    requires x in m' && !Has(n, a) && forall y :: y in m ==> !Has(y, a)
    ensures !Has(x, a)
  {
    OutsideMembers(m, n, x);
    if et.Some? { OutsideMembers(m, n, et.value); }
  }

  // ---- Against the pure override ------------------------------------------------------

  function Value(e: Option<Entry>): Option<nat> {
    if e.Some? then Some(e.value.value) else None
  }

  /** An old mapping that reaches into the new one from the left and ends in it. */
  predicate Straddles(e: Entry, n: Entry) {
    e.start < n.start < e.end < n.end
  }

  /** Emplace is a pointwise override - the new value inside the new range, the old answer
      everywhere else - exactly if no old mapping straddles the start of the new one. */
  lemma OverrideExactlyWhen(m: seq<Entry>, n: Entry)
    requires Sorted(m) && Proper(n)
    ensures (forall a :: 0 <= a <= MAX_ADDRESS ==>
               Value(After(m, n, a)) == if Has(n, a) then Some(n.value) else Value(Found(m, a)))
       <==> (forall e :: e in m ==> !Straddles(e, n))
  {
    forall e | e in m && Straddles(e, n) ensures Value(After(m, n, e.start)) == None && Value(Found(m, e.start)) != None {
      FoundMember(m, e.start, e);
    }
    if forall e :: e in m ==> !Straddles(e, n) {
      forall a | 0 <= a <= MAX_ADDRESS
        ensures Value(After(m, n, a)) == if Has(n, a) then Some(n.value) else Value(Found(m, a))
      {
        FoundIsMember(m, a);
      }
    }
  }

  /** Outside the new range an address is resolved by what is left of its old mapping on that
      side, with the value and page offset of the whole - or, in front of the new range, not at
      all if the old mapping ended inside it. */
  lemma PiecesAreCut(m: seq<Entry>, n: Entry, a: nat)
    requires Sorted(m) && Proper(n) && a <= MAX_ADDRESS && !Has(n, a) && Found(m, a).Some?
    ensures var e, after := Found(m, a).value, After(m, n, a);
            && Has(e, a) && (after == None <==> a < n.start < e.end < n.end)
            && (after.Some? ==>
                  && after.value.value == e.value && after.value.pgoff == e.pgoff
                  && after.value.start == (if a < n.start || n.end <= e.start then e.start else n.end)
                  && after.value.end == (if a < n.start && n.start < e.end then n.start else e.end))
  {
    FoundIsMember(m, a);
  }

  /** The file offset an address is resolved with. */
  function FileOffset(e: Entry, a: nat): int {
    a - e.start + e.pgoff
  }

  /** The piece to the right of the new range keeps the page offset of the whole, so addresses
      there are resolved with the old file offset exactly if their mapping was not cut. */
  lemma RightPieceOffsetExactlyWhen(m: seq<Entry>, n: Entry, a: nat)
    requires Sorted(m) && Proper(n) && n.end <= a <= MAX_ADDRESS && Found(m, a).Some?
    ensures After(m, n, a).Some?
    ensures FileOffset(After(m, n, a).value, a) == FileOffset(Found(m, a).value, a) <==> n.end <= Found(m, a).value.start
  {
  }

  // ---- The map ------------------------------------------------------------------------

  lemma EmplaceApart(m: seq<Entry>, e: Entry)
    requires Sorted(m) && Proper(e) && forall x :: x in m ==> x.end <= e.start || e.end <= x.start
    ensures Emplace(m, e).1 && Sorted(Emplace(m, e).0)
    ensures forall x :: x in Emplace(m, e).0 <==> x == e || x in m
  {
    EmplaceWhenFree(m, e);
  }

  lemma RemoveApart(m: seq<Entry>, j: nat)
    requires Sorted(m) && j < |m| && m[j].start < m[j].end
    ensures Sorted(Remove(m, j))
    ensures forall x :: x in Remove(m, j) <==> x in m && x != m[j]
    ensures forall x :: x in Remove(m, j) ==> x.end <= m[j].start || m[j].end <= x.start
  {
    RemoveSorted(m, j);
    RemoveMembers(m, j);
    forall x | x in Remove(m, j) ensures x.end <= m[j].start || m[j].end <= x.start { ApartFrom(m, x, m[j]); }
  }

  /** Putting back the piece in front of the new mapping, the new mapping, and the piece behind
      it, where the old entry was: each of the three emplace calls inserts. */
  lemma EmplaceThree(m: seq<Entry>, ex: Entry, n: Entry)
    requires Sorted(m) && Proper(ex) && Proper(n) && ex.start <= n.start && n.end <= ex.end
    requires forall x :: x in m ==> x.end <= ex.start || ex.end <= x.start
    ensures var (m3, a) := Emplace(m, ex.(end := n.start));
            var (m4, b) := Emplace(m3, n);
            var (m5, c) := Emplace(m4, ex.(start := n.end));
            && a && b && c && Sorted(m5)
            && forall x :: x in m5 <==> x == n || x == ex.(end := n.start) || x == ex.(start := n.end) || x in m
  {
    EmplaceApart(m, ex.(end := n.start));
    var m3 := Emplace(m, ex.(end := n.start)).0;
    EmplaceApart(m3, n);
    var m4 := Emplace(m3, n).0;
    EmplaceApart(m4, ex.(start := n.end));
  }

  /** Replacing the entry at index i by a piece of it. */
  lemma ReplaceWorks(m: seq<Entry>, i: nat, piece: Entry)
    requires Sorted(m) && i < |m| && m[i].start < m[i].end && Proper(piece)
    requires m[i].start <= piece.start && piece.end <= m[i].end
    ensures var (m', ok) := Emplace(Remove(m, i), piece);
            ok && Sorted(m') && forall x :: x in m' <==> x == piece || (x in m && x != m[i])
  {
    RemoveApart(m, i);
    EmplaceApart(Remove(m, i), piece);
  }

  /** The map after its first `seen` entries were looked at. */
  function Partly(m: seq<Entry>, n: Entry, seen: nat): seq<Entry>
    requires seen <= |m|
  {
    Outside(m[..seen], n) + m[seen..]
  }

  lemma EraseStep(m: seq<Entry>, n: Entry, seen: nat, i: nat)
    requires seen < |m| && i == |Outside(m[..seen], n)|
    ensures i < |Partly(m, n, seen)| && Partly(m, n, seen)[i] == m[seen]
    ensures Partly(m, n, seen + 1) == if Within(m[seen], n.start, n.end) then Remove(Partly(m, n, seen), i) else Partly(m, n, seen)
    ensures |Outside(m[..seen + 1], n)| == if Within(m[seen], n.start, n.end) then i else i + 1
  {
    assert m[..seen + 1][..seen] == m[..seen];
    var front := Outside(m[..seen], n);
    assert m[seen..] == [m[seen]] + m[seen + 1..];
    assert front + m[seen..] == front + [m[seen]] + m[seen + 1..];
  }

  lemma ErasedAll(m: seq<Entry>, n: Entry, seen: nat)
    requires seen <= |m| && |Partly(m, n, seen)| == |Outside(m[..seen], n)|
    ensures seen == |m| && Partly(m, n, seen) == Outside(m, n)
  {
    assert m[..|m|] == m;
  }

  class Map {
    var entries: seq<Entry>

    constructor ()
      ensures entries == []
    {
      entries := [];
    }

    /** Step 1: erases every mapping that lies inside the new one. */
    method EraseInside(n: Entry)
      requires Sorted(entries)
      modifies this
      ensures entries == Outside(old(entries), n)
    {
      var i := 0;
      ghost var seen, m := 0, entries;
      assert Partly(m, n, 0) == m;
      while i < |entries|
        invariant 0 <= seen <= |m| && i == |Outside(m[..seen], n)| <= |entries| && entries == Partly(m, n, seen)
        decreases |entries| - i
      {
        EraseStep(m, n, seen, i);
        if Within(entries[i], n.start, n.end) {
          entries := Remove(entries, i);
        } else {
          i := i + 1;
        }
        seen := seen + 1;
      }
      ErasedAll(m, n, seen);
    }

    /** Step 2: the first mapping the new one lies in, or the end. */
    method FindAround(n: Entry) returns (j: nat)
      ensures j <= |entries| && (j < |entries| ==> entries[j].start <= n.start && n.end <= entries[j].end)
      ensures j == |entries| ==> forall x :: x in entries ==> !(x.start <= n.start && n.end <= x.end)
    {
      j := 0;
      while j < |entries|
        invariant 0 <= j <= |entries|
        invariant forall k :: 0 <= k < j ==> !(entries[k].start <= n.start && n.end <= entries[k].end)
      {
        if entries[j].start <= n.start && n.end <= entries[j].end {
          return;
        }
        j := j + 1;
      }
    }

    method EmplaceEntry(e: Entry) returns (inserted: bool)
      modifies this
      ensures (entries, inserted) == Emplace(old(entries), e)
    {
      var (m, ok) := Emplace(entries, e);
      entries := m;
      inserted := ok;
    }

    /** Splits the mapping at index j around the new one. */
    method Split(n: Entry, j: nat)
      requires Sorted(entries) && Proper(n) && j < |entries|
      requires entries[j].start <= n.start && n.end <= entries[j].end && entries[j].start < entries[j].end
      modifies this
      ensures Sorted(entries)
      ensures var ex := old(entries)[j];
              forall x :: x in entries <==>
                x == n || x == ex.(end := n.start) || x == ex.(start := n.end) || (x in old(entries) && x != ex)
    {
      var ex := entries[j];
      RemoveApart(entries, j);
      EmplaceThree(Remove(entries, j), ex, n);
      entries := Remove(entries, j);
      var r := EmplaceEntry(ex.(end := n.start));
      assert r;
      r := EmplaceEntry(n);
      assert r;
      r := EmplaceEntry(ex.(start := n.end));
      assert r;
    }

    /** Steps 4.1 and 4.2 for one end: replaces the mapping that has address p by a piece. */
    method TrimAt(p: nat, n: Entry, atStart: bool) returns (ghost h: Option<Entry>)
      requires Sorted(entries) && Proper(n) && p == (if atStart then n.start else n.end)
      modifies this
      ensures Sorted(entries) && Holder(old(entries), p, h)
      ensures forall x :: x in entries <==>
                || (h.Some? && x == if atStart then h.value.(end := h.value.start) else h.value.(start := n.end))
                || (x in old(entries) && Some(x) != h)
    {
      FindIsRight(entries, p);
      var it := Find(entries, p);
      h := None;
      if it.Some? {
        var existing := entries[it.value];
        h := Some(existing);
        var piece := if atStart then existing.(end := existing.start) else existing.(start := n.end);
        ReplaceWorks(entries, it.value, piece);
        entries := Remove(entries, it.value);
        var r := EmplaceEntry(piece);
        assert r;
      }
    }

    /** emplace(). */
    method EmplaceMapping(n: Entry)
      requires Sorted(entries) && Proper(n)
      modifies this
      ensures Sorted(entries) && Answers(entries, old(entries), n)
    {
      ghost var m := entries;
      OutsideSorted(m, n);
      EraseInside(n);
      var j := FindAround(n);
      if j < |entries| {
        ghost var ex := entries[j];
        OutsideMembers(m, n, ex);
        Split(n, j);
        forall a | 0 <= a <= MAX_ADDRESS ensures Found(entries, a) == After(m, n, a) { SplitAnswers(entries, m, n, ex, a); }
        return;
      }
      ghost var es := TrimAt(n.start, n, true);
      ghost var m2 := entries;
      ghost var et := TrimAt(n.end, n, false);
      TrimmedIsFree(m, n, es, et, m2, entries);
      EmplaceApart(entries, n);
      var r := EmplaceEntry(n);
      forall a | 0 <= a <= MAX_ADDRESS ensures Found(entries, a) == After(m, n, a) { TrimmedAnswers(entries, m, n, es, et, a); }
    }

    /** find() and has(). */
    method Lookup(a: nat) returns (e: Option<Entry>)
      requires Sorted(entries) && a <= MAX_ADDRESS
      ensures Holder(entries, a, e) && e == Found(entries, a)
    {
      FoundIsMember(entries, a);
      var it := Find(entries, a);
      e := if it.Some? then Some(entries[it.value]) else None;
    }
  }

  /** After both ends are trimmed nothing shares an address with the new range, and the second
      end was found among the untouched entries. */
  lemma TrimmedIsFree(m: seq<Entry>, n: Entry, es: Option<Entry>, et: Option<Entry>, m2: seq<Entry>, m3: seq<Entry>)
    requires Sorted(m) && Proper(n) && NoneAround(m, n)
    requires Sorted(m2) && Sorted(m3) && Holder(Outside(m, n), n.start, es) && Holder(m2, n.end, et)
    requires forall x :: x in m2 <==>
               (es.Some? && x == es.value.(end := es.value.start)) || (x in Outside(m, n) && Some(x) != es)
    requires forall x :: x in m3 <==> (et.Some? && x == et.value.(start := n.end)) || (x in m2 && Some(x) != et)
    ensures Holder(Outside(m, n), n.end, et)
    ensures forall x :: x in m3 <==>
              || (es.Some? && x == es.value.(end := es.value.start))
              || (et.Some? && x == et.value.(start := n.end))
              || (x in Outside(m, n) && Some(x) != es && Some(x) != et)
    ensures forall x :: x in m3 ==> x.end <= n.start || n.end <= x.start
  {
    var m1 := Outside(m, n);
    OutsideSorted(m, n);
    if es.Some? {
      OutsideMembers(m, n, es.value);
      assert es.value.end <= n.end;
    }
    forall x | x in m1 && Some(x) != es && Some(x) != et ensures x.end <= n.start || n.end <= x.start {
      OutsideMembers(m, n, x);
      assert x in m2;
      if Has(x, n.start) { HolderIsUnique(m1, n.start, es, x); }
      if Has(x, n.end) { HolderIsUnique(m2, n.end, et, x); }
    }
  }

  // ---- Whole histories ----------------------------------------------------------------

  /** What an address resolves to after a history of mappings. */
  function AfterAll(ns: seq<Entry>, a: nat): Option<Entry> {
    if ns == [] then None else Next(AfterAll(ns[..|ns| - 1], a), ns[|ns| - 1], a)
  }

  /** Any history of mappings: every address resolves by its own history alone. */
  method Build(ns: seq<Entry>) returns (m: seq<Entry>)
    requires forall i :: 0 <= i < |ns| ==> Proper(ns[i])
    ensures Sorted(m) && forall a :: 0 <= a <= MAX_ADDRESS ==> Found(m, a) == AfterAll(ns, a)
  {
    var mappings := new Map();
    for i := 0 to |ns|
      invariant fresh(mappings) && Sorted(mappings.entries)
      invariant forall a :: 0 <= a <= MAX_ADDRESS ==> Found(mappings.entries, a) == AfterAll(ns[..i], a)
    {
      mappings.EmplaceMapping(ns[i]);
      assert ns[..i + 1][..i] == ns[..i];
    }
    assert ns[..|ns|] == ns;
    m := mappings.entries;
  }

  /** Never a stale answer: an address resolves to the latest mapping that had it, or to
      nothing. */
  lemma {:induction false} LatestOrNothing(ns: seq<Entry>, a: nat)
    ensures AfterAll(ns, a).Some? ==>
              exists i :: 0 <= i < |ns| && Has(ns[i], a) && AfterAll(ns, a).value.value == ns[i].value
                          && forall k :: i < k < |ns| ==> !Has(ns[k], a)
  {
    if AfterAll(ns, a).Some? {
      var n := |ns| - 1;
      if Has(ns[n], a) {
      } else {
        LatestOrNothing(ns[..n], a);
        var i :| 0 <= i < n && Has(ns[..n][i], a) && AfterAll(ns[..n], a).value.value == ns[..n][i].value
                 && forall k :: i < k < n ==> !Has(ns[..n][k], a);
        assert Has(ns[i], a) && forall k :: i < k < |ns| ==> !Has(ns[k], a);
      }
    }
  }
}
