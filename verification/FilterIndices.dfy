/** What the filter's positions are made of: every byte of the fingerprint, and a third
    position that is the sum of the other two. */
module FilterIndices {
  import opened Fingerprints
  import opened BloomFilters

  // ----- Little-endian words -----

  /** No byte is lost: words of the same length are equal only if their bytes are. */
  lemma {:induction false} LittleEndianInjective(a: seq<Byte>, b: seq<Byte>)
    requires |a| == |b| && LittleEndian(a) == LittleEndian(b)
    ensures a == b
  {
    if a != [] {
      LittleEndianInjective(a[1..], b[1..]);
      assert a == [a[0]] + a[1..] && b == [b[0]] + b[1..];
    }
  }

  function Power256(n: nat): nat {
    if n == 0 then 1 else 256 * Power256(n - 1)
  }

  lemma {:induction false} LittleEndianBound(a: seq<Byte>)
    ensures LittleEndian(a) < Power256(|a|)
  {
    if a != [] {
      LittleEndianBound(a[1..]);
    }
  }

  lemma EightBytes()
    ensures Power256(8) == TWO_64
  {
    assert Power256(2) == 65536 && Power256(4) == 0x1_0000_0000;
    assert Power256(6) == 65536 * 0x1_0000_0000;
  }

  /** In a filter of 2^64 bits the first two positions give the whole fingerprint away. */
  lemma PositionsTellApart(f: Fingerprint, g: Fingerprint)
    requires BloomIndices(f, TWO_64)[0] == BloomIndices(g, TWO_64)[0]
    requires BloomIndices(f, TWO_64)[1] == BloomIndices(g, TWO_64)[1]
    ensures f == g
  {
    hide LittleEndian, BloomIndices;
    PositionsAreWords(f);
    PositionsAreWords(g);
    LittleEndianInjective(f[..8], g[..8]);
    LittleEndianInjective(f[8..], g[8..]);
    assert f == f[..8] + f[8..] && g == g[..8] + g[8..];
  }

  lemma PositionsAreWords(f: Fingerprint)
    ensures BloomIndices(f, TWO_64)[0] == LittleEndian(f[..8]) && BloomIndices(f, TWO_64)[1] == LittleEndian(f[8..])
  {
    hide LittleEndian, Power256;
    EightBytes();
    LittleEndianBound(f[..8]);
    LittleEndianBound(f[8..]);
  }

  // ----- Powers of two -----

  lemma {:induction false} PowerProduct(a: nat, b: nat)
    requires IsPowerOfTwo(a) && IsPowerOfTwo(b)
    ensures IsPowerOfTwo(a * b)
  {
    if a > 1 {
      PowerProduct(a / 2, b);
      assert a * b == 2 * (a / 2 * b);
      assert a * b / 2 == a / 2 * b && a * b % 2 == 0;
    }
  }

  lemma WordIsPower()
    ensures IsPowerOfTwo(TWO_64)
  {
    hide IsPowerOfTwo;
    SixtyFour();
    PowerProduct(64, 64);
    PowerProduct(64 * 64, 64 * 64);
    assert IsPowerOfTwo(4) by { Four(); }
    PowerProduct(0x100_0000, 64);
    PowerProduct(0x4000_0000, 4);
    PowerProduct(0x1_0000_0000, 0x1_0000_0000);
  }

  lemma Four()
    ensures IsPowerOfTwo(4)
  {
    assert IsPowerOfTwo(2);
  }

  lemma {:induction false} PowersDivide(n: nat, p: nat) returns (m: nat)
    requires IsPowerOfTwo(n) && IsPowerOfTwo(p) && n <= p
    ensures n * m == p
  {
    if n == 1 {
      m := p;
    } else {
      m := PowersDivide(n / 2, p / 2);
      assert n * m == 2 * (n / 2 * m);
    }
  }

  lemma {:induction false} DropMultiple(r: nat, n: Pos, k: nat)
    ensures (r + n * k) % n == r % n
  {
    if k > 0 {
      DropMultiple(r, n, k - 1);
      assert r + n * k == (r + n * (k - 1)) + n;
      AddModulus(r + n * (k - 1), n);
    }
  }

  /** Different multiples lie at least `n` apart. */
  lemma Apart(n: Pos, k: int)
    ensures k >= 1 ==> n * k >= n
    ensures k <= -1 ==> n * k + n <= 0
  {
    if k >= 1 {
      assert n * k == n * (k - 1) + n && n * (k - 1) >= 0;
    } else if k <= -1 {
      assert n * k + n == n * (k + 1) && n * (k + 1) <= 0;
    }
  }

  lemma AddModulus(x: nat, n: Pos)
    ensures (x + n) % n == x % n
  {
    var y := x + n;
    var p, q := x / n, y / n;
    assert x == n * p + x % n && y == n * q + y % n;
    assert n * (q - p - 1) == n * q - n * p - n == x % n - y % n;
    Apart(n, q - p - 1);
  }

  lemma WrapThenReduce(x: nat, n: Pos)
    requires IsPowerOfTwo(n) && n <= TWO_64
    ensures (x % TWO_64) % n == x % n
  {
    hide IsPowerOfTwo;
    WordIsPower();
    var m := PowersDivide(n, TWO_64);
    var q := x / TWO_64;
    assert x == x % TWO_64 + TWO_64 * q;
    assert TWO_64 * q == n * (m * q);
    DropMultiple(x % TWO_64, n, m * q);
  }

  lemma SumReduces(x: nat, y: nat, n: Pos)
    ensures (x % n + y % n) % n == (x + y) % n
  {
    var a, b := x / n, y / n;
    assert x + y == (x % n + y % n) + n * (a + b);
    DropMultiple(x % n + y % n, n, a + b);
  }

  /** At every size the filter can have, the wrapping sum makes the third position the sum of
      the other two. */
  lemma ThirdPosition(fp: Fingerprint, numBits: Pos)
    requires IsPowerOfTwo(numBits) && numBits <= TWO_64
    ensures var i := BloomIndices(fp, numBits); i[2] == (i[0] + i[1]) % numBits
  {
    hide IsPowerOfTwo, LittleEndian;
    var h1, h2 := LittleEndian(fp[..8]), LittleEndian(fp[8..]);
    WrapThenReduce(h1 + h2, numBits);
    SumReduces(h1, h2, numBits);
  }

  // ----- What the filter reports -----

  /** An empty filter reports nothing. */
  lemma EmptyReportsNothing(numBits: Pos, fp: Fingerprint)
    ensures !Bloom(numBits, {}).MightContain(fp)
  {
    assert BloomIndices(fp, numBits)[0] in IndexSet(fp, numBits);
  }

  function InsertAll(b: Bloom, keys: seq<Fingerprint>): Bloom {
    if keys == [] then b else InsertAll(b, keys[..|keys| - 1]).Insert(keys[|keys| - 1])
  }

  /** A position is raised exactly when some inserted key has it. */
  lemma {:induction false} RaisedBySomeKey(b: Bloom, keys: seq<Fingerprint>, i: nat)
    ensures InsertAll(b, keys).numBits == b.numBits
    ensures i in InsertAll(b, keys).bits <==> i in b.bits || exists k :: k in keys && i in IndexSet(k, b.numBits)
  {
    if keys != [] {
      var init := keys[..|keys| - 1];
      RaisedBySomeKey(b, init, i);
      assert forall k :: k in keys <==> k in init || k == keys[|keys| - 1];
    }
  }

  /** A report means exactly that each position of the key was raised by some inserted key. */
  lemma ReportMeans(numBits: Pos, keys: seq<Fingerprint>, fp: Fingerprint)
    ensures InsertAll(Bloom(numBits, {}), keys).MightContain(fp) <==>
              forall i :: i in IndexSet(fp, numBits) ==> exists k :: k in keys && i in IndexSet(k, numBits)
  {
    hide IndexSet;
    forall i: nat
      ensures InsertAll(Bloom(numBits, {}), keys).numBits == numBits
      ensures i in InsertAll(Bloom(numBits, {}), keys).bits <==> exists k :: k in keys && i in IndexSet(k, numBits)
    {
      RaisedBySomeKey(Bloom(numBits, {}), keys, i);
    }
    RaisedBySomeKey(Bloom(numBits, {}), keys, 0);
  }
}
