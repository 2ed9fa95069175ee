/** Event attributes (src/perf/event_attr.cpp): apply_mask deposits the low bits of a value at
    the set bits of a mask, and event_attr_update ORs such fields into a config word. */
module EventAttr {

  /** A std::uint64_t by its bits, the lowest first. */
  type Word = w: seq<bool> | |w| == 64 witness seq(64, _ => false)

  const ZERO: Word := seq(64, _ => false)

  function Or(a: Word, b: Word): (r: Word) {
    seq(64, i requires 0 <= i < 64 => a[i] || b[i])
  }

  /** How many bits of the mask are set below position k. */
  function Rank(mask: Word, k: nat): (r: nat)
    requires k <= 64
    ensures r <= k
  {
    if k == 0 then 0 else Rank(mask, k - 1) + if mask[k - 1] then 1 else 0
  }

  /** A set bit of the mask with r set bits below it gets bit r of the value; all other
      positions are zero. */
  function Deposit(value: Word, mask: Word): (r: Word) {
    seq(64, k requires 0 <= k < 64 => mask[k] && value[Rank(mask, k)])
  }

  /** apply_mask. */
  method ApplyMask(value: Word, mask: Word) returns (res: Word)
    ensures res == Deposit(value, mask)
  {
    res := ZERO;
    var maskBit, valueBit := 0, 0;
    while maskBit < 64
      invariant 0 <= maskBit <= 64 && valueBit == Rank(mask, maskBit)
      invariant forall k :: 0 <= k < maskBit ==> res[k] == Deposit(value, mask)[k]
      invariant forall k :: maskBit <= k < 64 ==> !res[k]
    {
      if mask[maskBit] {
        // the next bit of the value goes to this position
        res := res[maskBit := res[maskBit] || value[valueBit]];
        valueBit := valueBit + 1;
      }
      maskBit := maskBit + 1;
    }
  }

  ghost function SetBelow(mask: Word, k: nat): set<int>
    requires k <= 64
  {
    set i | 0 <= i < k && mask[i]
  }

  lemma {:induction false} RankCounts(mask: Word, k: nat)
    requires k <= 64
    ensures Rank(mask, k) == |SetBelow(mask, k)|
  {
    if k == 0 {
      assert SetBelow(mask, k) == {};
    } else {
      RankCounts(mask, k - 1);
      assert SetBelow(mask, k) == SetBelow(mask, k - 1) + if mask[k - 1] then {k - 1} else {};
    }
  }

  /** A position gets a bit exactly if the mask has it, and then the bit of the value whose number
      is how many bits the mask has below. */
  lemma DepositIsExact(value: Word, mask: Word, k: nat)
    requires k < 64
    ensures |SetBelow(mask, k)| <= k
    ensures Deposit(value, mask)[k] <==> mask[k] && value[|SetBelow(mask, k)|]
  {
    RankCounts(mask, k);
  }

  // ---- Getting the value back ---------------------------------------------------------

  /** The position of set bit number j of the mask. */
  function Select(mask: Word, j: nat, k: nat): (p: nat)
    requires k <= 64 && j < Rank(mask, k)
    ensures p < k && mask[p] && Rank(mask, p) == j
  {
    if mask[k - 1] && Rank(mask, k - 1) == j then k - 1 else Select(mask, j, k - 1)
  }

  /** Bit extraction: the bits of a word under the mask, packed at the low end. */
  function Extract(word: Word, mask: Word): (r: Word) {
    seq(64, j requires 0 <= j < 64 => j < Rank(mask, 64) && word[Select(mask, j, 64)])
  }

  /** The value cut to as many bits as the mask has. */
  function Low(value: Word, n: nat): (r: Word) {
    seq(64, j requires 0 <= j < 64 => j < n && value[j])
  }

  /** Extraction under the mask inverts apply_mask on the low popcount(mask) bits, and the
      deposit touches nothing outside the mask. */
  lemma ExtractInvertsDeposit(value: Word, mask: Word)
    ensures Extract(Deposit(value, mask), mask) == Low(value, Rank(mask, 64))
    ensures forall k :: 0 <= k < 64 && !mask[k] ==> !Deposit(value, mask)[k]
  {
  }

  lemma {:induction false} RankMonotone(mask: Word, i: nat, j: nat)
    requires i <= j <= 64
    ensures Rank(mask, i) <= Rank(mask, j)
    decreases j
  {
    if i < j { RankMonotone(mask, i, j - 1); }
  }

  lemma {:induction false} SelectIsInverse(mask: Word, p: nat, k: nat)
    requires p < k <= 64 && mask[p]
    ensures Rank(mask, p) < Rank(mask, k) && Select(mask, Rank(mask, p), k) == p
    decreases k
  {
    RankMonotone(mask, p + 1, k);
    if p < k - 1 {
      RankMonotone(mask, p + 1, k - 1);
      SelectIsInverse(mask, p, k - 1);
    }
  }

  /** The other way round: depositing what was extracted restores the word under the mask. */
  lemma DepositInvertsExtract(word: Word, mask: Word, k: nat)
    requires k < 64
    ensures Deposit(Extract(word, mask), mask)[k] == (mask[k] && word[k])
  {
    if mask[k] { SelectIsInverse(mask, k, 64); }
  }

  // ---- Fields of a config word --------------------------------------------------------

  datatype Term = Config | Config1 | OtherTerm

  datatype Field = Field(term: Term, value: Word, mask: Word)

  ghost predicate Apart(a: Word, b: Word) {
    forall k :: 0 <= k < 64 ==> !(a[k] && b[k])
  }

  class EventAttr {
    var config: Word
    var config1: Word

    constructor (config: Word, config1: Word)
      ensures this.config == config && this.config1 == config1
    {
      this.config := config;
      this.config1 := config1;
    }

    /** event_attr_update, with its format already parsed. */
    method Update(f: Field)
      modifies this
      ensures config == if f.term == Config then Or(old(config), Deposit(f.value, f.mask)) else old(config)
      ensures config1 == if f.term == Config1 then Or(old(config1), Deposit(f.value, f.mask)) else old(config1)
    {
      var bits := ApplyMask(f.value, f.mask);
      if f.term == Config {
        config := Or(config, bits);
      }
      if f.term == Config1 {
        config1 := Or(config1, bits);
      }
    }

    method UpdateAll(fields: seq<Field>)
      modifies this
      ensures config == Updated(old(config), fields, Config)
      ensures config1 == Updated(old(config1), fields, Config1)
    {
      for i := 0 to |fields|
        invariant config == Updated(old(config), fields[..i], Config)
        invariant config1 == Updated(old(config1), fields[..i], Config1)
      {
        assert fields[..i + 1][..i] == fields[..i];
        Update(fields[i]);
      }
      assert fields[..|fields|] == fields;
    }
  }

  /** One word after a sequence of updates. */
  function Updated(word: Word, fields: seq<Field>, term: Term): Word {
    if fields == [] then word
    else
      var f := fields[|fields| - 1];
      var before := Updated(word, fields[..|fields| - 1], term);
      if f.term == term then Or(before, Deposit(f.value, f.mask)) else before
  }

  /** The masks of one word do not overlap each other or what the word holds from the start. */
  ghost predicate Separate(word: Word, fields: seq<Field>, term: Term) {
    && (forall i :: 0 <= i < |fields| && fields[i].term == term ==> Apart(word, fields[i].mask))
    && forall i, j :: 0 <= i < j < |fields| && fields[i].term == fields[j].term == term ==>
         Apart(fields[i].mask, fields[j].mask)
  }

  /** Whether or not the masks overlap, a bit is set exactly if it was set before or some field
      sets it. */
  lemma {:induction false} BitIsSetExactlyWhen(word: Word, fields: seq<Field>, term: Term, k: nat)
    requires k < 64
    ensures Updated(word, fields, term)[k] <==>
            word[k] || exists i :: 0 <= i < |fields| && fields[i].term == term && Deposit(fields[i].value, fields[i].mask)[k]
  {
    if fields != [] {
      var n := |fields| - 1;
      BitIsSetExactlyWhen(word, fields[..n], term, k);
      assert forall i :: 0 <= i < n ==> fields[..n][i] == fields[i];
    }
  }

  /** A bit outside all masks used keeps its first value. */
  lemma {:induction false} UntouchedBit(word: Word, fields: seq<Field>, term: Term, k: nat)
    requires k < 64 && forall i :: 0 <= i < |fields| && fields[i].term == term ==> !fields[i].mask[k]
    ensures Updated(word, fields, term)[k] == word[k]
  {
    if fields != [] { UntouchedBit(word, fields[..|fields| - 1], term, k); }
  }

  /** After any number of updates with disjoint masks every field reads back as it was set. */
  lemma {:induction false} EveryFieldIsRecoverable(word: Word, fields: seq<Field>, term: Term, i: nat)
    requires Separate(word, fields, term) && i < |fields| && fields[i].term == term
    ensures Extract(Updated(word, fields, term), fields[i].mask) == Low(fields[i].value, Rank(fields[i].mask, 64))
  {
    var f := fields[i];
    forall k | 0 <= k < 64 && f.mask[k] ensures Updated(word, fields, term)[k] == Deposit(f.value, f.mask)[k] {
      FieldBit(word, fields, term, i, k);
    }
    var w := Updated(word, fields, term);
    assert Extract(w, f.mask) == Extract(Deposit(f.value, f.mask), f.mask);
    ExtractInvertsDeposit(f.value, f.mask);
  }

  lemma {:induction false} FieldBit(word: Word, fields: seq<Field>, term: Term, i: nat, k: nat)
    requires Separate(word, fields, term) && i < |fields| && fields[i].term == term && k < 64 && fields[i].mask[k]
    ensures Updated(word, fields, term)[k] == Deposit(fields[i].value, fields[i].mask)[k]
    decreases |fields|
  {
    var n := |fields| - 1;
    var f := fields[n];
    if i < n {
      FieldBit(word, fields[..n], term, i, k);
      assert f.term == term ==> Apart(fields[i].mask, f.mask);
    } else {
      assert Apart(word, f.mask);
      assert forall j :: 0 <= j < n && fields[j].term == term ==> Apart(fields[j].mask, f.mask);
      UntouchedBit(word, fields[..n], term, k);
    }
  }
}
