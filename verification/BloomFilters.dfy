/** The Bloom filter of crates/swap-proxy/src/dedup.rs: an array of 64-bit words
    proved to be a set of bit positions. */
module BloomFilters {
  import opened Fingerprints

  function IndexSet(fp: Fingerprint, numBits: Pos): (s: set<nat>)
    ensures forall i :: i in s ==> i < numBits
  {
    set i | i in BloomIndices(fp, numBits)
  }

  /** What the words mean: a set of positions below `numBits`. */
  datatype Bloom = Bloom(numBits: Pos, bits: set<nat>) {

    function Insert(fp: Fingerprint): Bloom
    {
      this.(bits := bits + IndexSet(fp, numBits))
    }

    predicate MightContain(fp: Fingerprint)
    {
      IndexSet(fp, numBits) <= bits
    }
  }

  /** No false negatives: an inserted key is reported, and insertion forgets nothing. */
  lemma InsertRemembers(b: Bloom, fp: Fingerprint, k: Fingerprint)
    ensures b.Insert(fp).MightContain(fp)
    ensures b.MightContain(k) ==> b.Insert(fp).MightContain(k)
  {
  }

  // ----- Sizing -----

  ghost predicate IsPowerOfTwo(n: nat) {
    n == 1 || (n > 1 && n % 2 == 0 && IsPowerOfTwo(n / 2))
  }

  function NextPowerOfTwo(n: nat): nat {
    DoubleUntil(1, n)
  }

  function DoubleUntil(p: nat, n: nat): nat
    requires p > 0
    decreases if p < n then n - p else 0
  {
    if p >= n then p else DoubleUntil(2 * p, n)
  }

  lemma {:induction false} DoubleUntilLeast(p: nat, n: nat)
    requires p > 0 && IsPowerOfTwo(p)
    ensures var r := DoubleUntil(p, n); IsPowerOfTwo(r) && r >= n && (r == p || r < 2 * n)
    decreases if p < n then n - p else 0
  {
    if p < n {
      assert 2 * p / 2 == p;
      DoubleUntilLeast(2 * p, n);
    }
  }

  /** A power of two is odd only when it is one, so halving six times stays exact. */
  lemma PowerOfTwoHalves(n: nat) returns (m: nat)
    requires IsPowerOfTwo(n) && n > 1
    ensures n == m + m && IsPowerOfTwo(m)
  {
    m := n / 2;
  }

  lemma PowerOfTwoInWords(n: nat) returns (words: nat)
    requires IsPowerOfTwo(n) && n >= 64
    ensures n == 64 * words
  {
    hide IsPowerOfTwo;
    words := PowerOfTwoHalves(n);
    words := PowerOfTwoHalves(words);
    words := PowerOfTwoHalves(words);
    words := PowerOfTwoHalves(words);
    words := PowerOfTwoHalves(words);
    words := PowerOfTwoHalves(words);
  }

  /** Number of bits allotted to a capacity. */
  function FilterBits(capacity: nat): nat {
    var n := NextPowerOfTwo(capacity * 10);
    if n < 64 then 64 else n
  }

  lemma SixtyFour()
    ensures IsPowerOfTwo(1) && IsPowerOfTwo(64)
  {
    assert IsPowerOfTwo(2) && IsPowerOfTwo(4) && IsPowerOfTwo(8);
    assert IsPowerOfTwo(16) && IsPowerOfTwo(32);
  }

  /** The size is the least power of two that is at least ten bits per page and
      fills whole words, so every index falls inside an allocated word. */
  lemma FilterBitsFit(capacity: nat)
    ensures var n := FilterBits(capacity);
            IsPowerOfTwo(n) && n >= 10 * capacity && n >= 64 && n % 64 == 0 && (n == 64 || n < 20 * capacity)
  {
    hide IsPowerOfTwo, DoubleUntil;
    SixtyFour();
    DoubleUntilLeast(1, capacity * 10);
    var words := PowerOfTwoInWords(FilterBits(capacity));
  }

  // ----- Words -----

  /** A 64-bit word as its bits, least significant first: or-ing in `1 << b` sets
      position `b`, and masking with `1 << b` reads it. */
  type Word = w: seq<bool> | |w| == 64 witness seq(64, i => false)

  class BloomFilter {
    const numBits: Pos
    const words: array<Word>

    ghost predicate Valid() {
      numBits == 64 * words.Length
    }

    ghost predicate BitSet(i: nat)
      requires Valid() && i < numBits
      reads words
    {
      words[i / 64][i % 64]
    }

    ghost function View(): Bloom
      requires Valid()
      reads words
    {
      Bloom(numBits, set i: nat | i < numBits && BitSet(i))
    }

    /** Callers must keep the size computation inside 64 bits, as the source's
        `next_power_of_two` does. */
    constructor (capacity: nat)
      requires capacity * 10 <= TWO_64 / 2
      ensures Valid() && fresh(words)
      ensures View() == Bloom(FilterBits(capacity), {})
    {
      var n := FilterBits(capacity);
      FilterBitsFit(capacity);
      numBits := n;
      words := new Word[n / 64](_ => seq(64, b => false));
    }

    method Insert(fp: Fingerprint)
      requires Valid()
      modifies words
      ensures View() == old(View()).Insert(fp)
    {
      var indices := BloomIndices(fp, numBits);
      ghost var was := View().bits;
      var k := 0;
      while k < |indices|
        invariant 0 <= k <= |indices|
        invariant View().bits == was + set i | i in indices[..k]
      {
        var idx := indices[k];
        Raise(idx);
        assert indices[..k + 1] == indices[..k] + [idx];
        k := k + 1;
      }
      assert indices[..k] == indices;
    }

    /** `fetch_or` of one bit. */
    method Raise(idx: nat)
      requires Valid() && idx < numBits
      modifies words
      ensures View().bits == old(View().bits) + {idx}
    {
      var word, bit := idx / 64, idx % 64;
      words[word] := words[word][bit := true];
      assert forall i: nat | i < numBits :: BitSet(i) <==> i == idx || old(BitSet(i));
    }

    method MightContain(fp: Fingerprint) returns (r: bool)
      requires Valid()
      ensures r == View().MightContain(fp)
    {
      var indices := BloomIndices(fp, numBits);
      var k := 0;
      while k < |indices|
        invariant 0 <= k <= |indices|
        invariant forall j :: 0 <= j < k ==> indices[j] in View().bits
      {
        var idx := indices[k];
        if !words[idx / 64][idx % 64] {
          assert !BitSet(idx);
          assert idx in IndexSet(fp, numBits) && idx !in View().bits;
          return false;
        }
        assert BitSet(idx);
        k := k + 1;
      }
      return true;
    }
  }
}
