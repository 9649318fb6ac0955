/**
 * A Bloom filter over strings: a fixed-size bit array and `numHashes` seeded
 * hash functions. `Add` sets one bit per seed, `Contains` reports true only
 * when every bit for every seed is set.
 *
 * The seeded hash (MurmurHash3, `mmh3.hash`, in the Python implementation) is
 * a foreign primitive; here it is any deterministic function from (item, seed)
 * to a signed 32-bit value, fixed when the filter is built. Every property
 * below holds for all of them.
 */
module Bloom {

  /** A signed 32-bit integer, the range of the seeded hash. */
  type Int32 = x: int | -0x8000_0000 <= x < 0x8000_0000

  /** A deterministic seeded hash; its value may be negative. */
  type HashFunction = (string, nat) -> Int32

  /** The bit index for `item` under seed `i`, for a bit array of `size` bits.
      Dafny's `%` with a positive divisor is Euclidean, as Python's is, so a
      negative hash still lands in range. */
  function Slot(h: HashFunction, size: nat, item: string, i: nat): (r: nat)
    requires size > 0
    ensures r < size
  {
    h(item, i) % size
  }

  /** Bit `j` is the slot of `item` for one of the seeds `0 .. n-1`. */
  ghost predicate Targets(h: HashFunction, size: nat, item: string, n: nat, j: nat)
    requires size > 0 || n == 0
  {
    exists i :: 0 <= i < n && Slot(h, size, item, i) == j
  }

  /** The bit array after setting the slots of `item` for seeds `0 .. n-1`,
      in seed order (the loop of `add`). */
  function SetSlots(bits: seq<bool>, h: HashFunction, item: string, n: nat): (r: seq<bool>)
    requires |bits| > 0 || n == 0
    ensures |r| == |bits|
    decreases n
  {
    if n == 0 then bits
    else SetSlots(bits, h, item, n - 1)[Slot(h, |bits|, item, n - 1) := true]
  }

  /** Every slot of `item` for seeds `0 .. n-1` is set (the answer of `contains`). */
  predicate AllSet(bits: seq<bool>, h: HashFunction, item: string, n: nat)
    requires |bits| > 0 || n == 0
  {
    forall i :: 0 <= i < n ==> bits[Slot(h, |bits|, item, i)]
  }

  /** `b` has every 1-bit of `a` (and the same length). */
  ghost predicate Below(a: seq<bool>, b: seq<bool>)
  {
    |a| == |b| && forall j :: 0 <= j < |a| && a[j] ==> b[j]
  }

  lemma BelowTransitive(a: seq<bool>, b: seq<bool>, c: seq<bool>)
    requires Below(a, b) && Below(b, c)
    ensures Below(a, c)
  {
  }

  /** Adding sets exactly the slots of the item: a bit is 1 afterwards iff it
      was 1 before or it is one of the item's slots. */
  lemma {:induction false} SetSlotsAt(bits: seq<bool>, h: HashFunction, item: string, n: nat, j: nat)
    requires |bits| > 0 || n == 0
    requires j < |bits|
    ensures SetSlots(bits, h, item, n)[j] == (bits[j] || Targets(h, |bits|, item, n, j))
  {
    if n > 0 {
      SetSlotsAt(bits, h, item, n - 1, j);
      if Slot(h, |bits|, item, n - 1) == j {
        assert Targets(h, |bits|, item, n, j);
      } else if Targets(h, |bits|, item, n, j) {
        var i :| 0 <= i < n && Slot(h, |bits|, item, i) == j;
        assert i < n - 1;
        assert Targets(h, |bits|, item, n - 1, j);
      }
    }
  }

  /** Adding never clears a bit. */
  lemma {:induction false} SetSlotsGrows(bits: seq<bool>, h: HashFunction, item: string, n: nat)
    requires |bits| > 0 || n == 0
    ensures Below(bits, SetSlots(bits, h, item, n))
  {
    forall j | 0 <= j < |bits| && bits[j]
      ensures SetSlots(bits, h, item, n)[j]
    {
      SetSlotsAt(bits, h, item, n, j);
    }
  }

  /** No false negatives: right after adding an item, it is reported present. */
  lemma {:induction false} NoFalseNegatives(bits: seq<bool>, h: HashFunction, item: string, n: nat)
    requires |bits| > 0 || n == 0
    ensures AllSet(SetSlots(bits, h, item, n), h, item, n)
  {
    forall i | 0 <= i < n
      ensures SetSlots(bits, h, item, n)[Slot(h, |bits|, item, i)]
    {
      SetSlotsAt(bits, h, item, n, Slot(h, |bits|, item, i));
    }
  }

  /** A present item stays present once bits are only added. */
  lemma AllSetMonotone(a: seq<bool>, b: seq<bool>, h: HashFunction, item: string, n: nat)
    requires |a| > 0 || n == 0
    requires Below(a, b)
    ensures AllSet(a, h, item, n) ==> AllSet(b, h, item, n)
  {
  }

  /** Once `contains(y)` is true it stays true after adding any `x`. */
  lemma StaysPresent(bits: seq<bool>, h: HashFunction, x: string, y: string, n: nat)
    requires |bits| > 0 || n == 0
    ensures AllSet(bits, h, y, n) ==> AllSet(SetSlots(bits, h, x, n), h, y, n)
  {
    SetSlotsGrows(bits, h, x, n);
    AllSetMonotone(bits, SetSlots(bits, h, x, n), h, y, n);
  }

  /** Adding the same item twice leaves the same bits as adding it once. */
  lemma AddIdempotent(bits: seq<bool>, h: HashFunction, item: string, n: nat)
    requires |bits| > 0 || n == 0
    ensures SetSlots(SetSlots(bits, h, item, n), h, item, n) == SetSlots(bits, h, item, n)
  {
    var once := SetSlots(bits, h, item, n);
    forall j | 0 <= j < |bits|
      ensures SetSlots(once, h, item, n)[j] == once[j]
    {
      SetSlotsAt(bits, h, item, n, j);
      SetSlotsAt(once, h, item, n, j);
    }
  }

  /** The filter: `size` bits, `numHashes` seeds and the seeded hash are fixed
      at construction; only the contents of `bits` change. */
  class BloomFilter {
    const size: nat
    const numHashes: nat
    const hash: HashFunction
    const bits: array<bool>

    ghost predicate Valid()
    {
      bits.Length == size
    }

    /** `add` and `contains` reduce modulo `size`; with no seeds the
        reduction never happens, so only then may `size` be zero. */
    predicate Usable()
    {
      size > 0 || numHashes == 0
    }

    /** A filter of `size` bits, all clear. */
    constructor (size: nat, numHashes: nat, hash: HashFunction)
      ensures Valid() && fresh(bits)
      ensures this.size == size && this.numHashes == numHashes && this.hash == hash
      ensures forall j :: 0 <= j < bits.Length ==> !bits[j]
    {
      this.size := size;
      this.numHashes := numHashes;
      this.hash := hash;
      bits := new bool[size](_ => false);
    }

    /** Sets the slot of `item` for every seed `0 .. numHashes-1`. */
    method Add(item: string)
      requires Valid() && Usable()
      modifies bits
      ensures bits[..] == SetSlots(old(bits[..]), hash, item, numHashes)
    {
      var i := 0;
      while i < numHashes
        invariant 0 <= i <= numHashes
        invariant bits[..] == SetSlots(old(bits[..]), hash, item, i)
      {
        var index := Slot(hash, size, item, i);
        bits[index] := true;
        i := i + 1;
      }
    }

    /** True iff every slot of `item` is set; stops at the first clear one. */
    method Contains(item: string) returns (present: bool)
      requires Valid() && Usable()
      ensures present == AllSet(bits[..], hash, item, numHashes)
      ensures numHashes == 0 ==> present
    {
      var i := 0;
      while i < numHashes
        invariant 0 <= i <= numHashes
        invariant forall s :: 0 <= s < i ==> bits[Slot(hash, size, item, s)]
      {
        var index := Slot(hash, size, item, i);
        if !bits[index] {
          return false;
        }
        i := i + 1;
      }
      return true;
    }
  }
}
