/** Which counter blocks the modes of src/crypto_aes.c encrypt, and for how long no block comes twice. */
module GcmCounters {
  import opened Words
  import opened IntFacts
  import opened BigEndian
  import opened ByteXor
  import opened GcmBlocks
  import opened Gcm

  /** The counter block after k increments. */
  function CounterAt(c: Block, from: nat, k: nat): Block
    requires from <= BLOCK
  {
    if k == 0 then c else Next(CounterAt(c, from, k - 1), from)
  }

  lemma {:induction false} CounterAtNext(c: Block, from: nat, k: nat)
    requires from <= BLOCK
    ensures CounterAt(Next(c, from), from, k) == CounterAt(c, from, k + 1)
    decreases k
  {
    hide Next;
    if k > 0 { CounterAtNext(c, from, k - 1); }
  }

  /** Block k of the data is combined with the encryption of counter k. */
  lemma {:induction false} CtrBlock(e: Cipher, key: seq<u8>, c: Block, from: nat, data: seq<u8>, k: nat)
    requires from <= BLOCK && BLOCK * k < |data|
    ensures var n := Chunk(data[BLOCK * k..]);
      Ctr(e, key, c, from, data)[BLOCK * k..BLOCK * k + n]
      == XorBytes(data[BLOCK * k..BLOCK * k + n], e(key, CounterAt(c, from, k))[..n])
    decreases k
  {
    hide XorBytes, Next, CounterAt, Ctr;
    CtrParts(e, key, c, from, data);
    if k == 0 {
      assert data[0..] == data;
      NoIncrement(c, from);
    } else {
      var rest, i, j := data[BLOCK..], BLOCK * (k - 1), BLOCK * k;
      CtrBlock(e, key, Next(c, from), from, rest, k - 1);
      CounterAtNext(c, from, k - 1);
      assert rest[i..] == data[j..];
      var n := Chunk(data[j..]);
      Within(data, rest, i, n);
      Within(Ctr(e, key, c, from, data), Ctr(e, key, Next(c, from), from, rest), i, n);
    }
  }

  lemma Within(s: seq<u8>, tail: seq<u8>, i: nat, n: nat)
    requires BLOCK <= |s| && s[BLOCK..] == tail && i + n <= |tail|
    ensures s[BLOCK + i..BLOCK + i + n] == tail[i..i + n]
  {
  }

  lemma NoIncrement(c: Block, from: nat)
    requires from <= BLOCK
    ensures CounterAt(c, from, 0) == c
  {
  }

  /** The bytes before the counter field stay, and the field counts modulo its size. */
  lemma {:induction false} CounterAtIs(c: Block, from: nat, k: nat)
    requires from <= BLOCK
    ensures CounterAt(c, from, k)[..from] == c[..from]
    ensures Be(CounterAt(c, from, k)[from..]) == (Be(c[from..]) + k) % Pow256(BLOCK - from)
    decreases k
  {
    hide Be, Incremented, Pow256;
    var size := Pow256(BLOCK - from);
    if k == 0 {
      IncrementedIsNext(c[from..]);
      QuotientIs(Be(c[from..]), size, 0, Be(c[from..]));
    } else {
      CounterAtIs(c, from, k - 1);
      var d := CounterAt(c, from, k - 1);
      IncrementedIsNext(d[from..]);
      assert Next(d, from)[from..] == Incremented(d[from..]) && Next(d, from)[..from] == d[..from];
      NextRest(Be(c[from..]) + k - 1, size);
    }
  }

  lemma NextRest(x: nat, m: nat)
    requires m > 0
    ensures (x + 1) % m == if x % m + 1 == m then 0 else x % m + 1
  {
    var q, r := x / m, x % m;
    assert x == q * m + r;
    Distribute(q, 1, m);
    if r + 1 == m { QuotientIs(x + 1, m, q + 1, 0); } else { QuotientIs(x + 1, m, q, r + 1); }
  }

  /** Two counter blocks are the same exactly if their distance is a multiple of the size of the field. */
  lemma SameCounter(c: Block, from: nat, i: nat, j: nat)
    requires from <= BLOCK && i <= j
    ensures CounterAt(c, from, i) == CounterAt(c, from, j) <==> (j - i) % Pow256(BLOCK - from) == 0
  {
    hide Be, CounterAt, Pow256;
    var size, start := Pow256(BLOCK - from), Be(c[from..]);
    CounterAtIs(c, from, i);
    CounterAtIs(c, from, j);
    var x, y := CounterAt(c, from, i), CounterAt(c, from, j);
    SameRests(start + i, start + j, size);
    assert x == x[..from] + x[from..] && y == y[..from] + y[from..];
    if (j - i) % size == 0 { BeInjective(x[from..], y[from..]); }
  }

  lemma SameRests(x: nat, y: nat, m: nat)
    requires m > 0 && x <= y
    ensures x % m == y % m <==> (y - x) % m == 0
  {
    if x % m == y % m {
      RestsGiveMultiple(x, y, m, x / m, y / m, x % m);
    } else if (y - x) % m == 0 {
      MultipleGivesRest(x, y, m, x / m, (y - x) / m, x % m);
    }
  }

  lemma RestsGiveMultiple(x: int, y: int, m: int, q: int, p: int, r: int)
    requires m > 0 && x == q * m + r && y == p * m + r
    ensures (y - x) % m == 0
  {
    Distribute(p - q, q, m);
    QuotientIs(y - x, m, p - q, 0);
  }

  lemma MultipleGivesRest(x: int, y: int, m: int, q: int, k: int, r: int)
    requires 0 <= r < m && x == q * m + r && y - x == k * m
    ensures y % m == r
  {
    Distribute(k, q, m);
    QuotientIs(y, m, k + q, r);
  }

  /** No two of the first n counter blocks are the same. */
  ghost predicate AllDifferent(c: Block, from: nat, n: nat)
    requires from <= BLOCK
  {
    forall i, j :: 0 <= i < j < n ==> CounterAt(c, from, i) != CounterAt(c, from, j)
  }

  /** They are all different as long as the field has a value for each. */
  lemma CountersDiffer(c: Block, from: nat, n: nat)
    requires from <= BLOCK
    ensures AllDifferent(c, from, n) <==> n <= Pow256(BLOCK - from)
  {
    hide CounterAt, Pow256;
    var size := Pow256(BLOCK - from);
    if n <= size {
      forall i, j | 0 <= i < j < n ensures CounterAt(c, from, i) != CounterAt(c, from, j) {
        SameCounter(c, from, i, j);
        QuotientIs(j - i, size, 0, j - i);
      }
    } else {
      SameCounter(c, from, 0, size);
      QuotientIs(size, size, 1, 0);
    }
  }

  /** The text block k is combined with the encryption of the nonce and the number k + 2. */
  lemma TextCounter(nonce: seq<u8>, k: nat)
    requires |nonce| == 12
    ensures var c := CounterAt(FirstCounter(nonce), 12, k);
      c[..12] == nonce && Be(c[12..]) == (k + 2) % 0x1_0000_0000
  {
    hide CounterAt, Pow256, Be, Next;
    var c := PreCounter(nonce);
    Field();
    OneIncrement(c, 12);
    CounterAtNext(c, 12, k);
    CounterAtIs(c, 12, k + 1);
    assert c[12..] == [0, 0, 0, 1] && c[..12] == nonce;
  }

  /** The number of blocks of a text. */
  function BlockCount(length: nat): nat { (length + 15) / BLOCK }

  /** Sealing encrypts the pre-counter for the tag, and counters 1 to n for n blocks of text: all different for fewer
      than 2^32 blocks. With one block less the field is never zero either, so that no counter is the zero block that
      gives the hash key, whatever the nonce. */
  lemma SealCounters(nonce: seq<u8>, length: nat)
    requires |nonce| == 12
    ensures CounterAt(PreCounter(nonce), 12, 1) == FirstCounter(nonce)
    ensures AllDifferent(PreCounter(nonce), 12, BlockCount(length) + 1) <==> BlockCount(length) <= 0xFFFF_FFFF
    ensures (forall k :: 0 <= k <= BlockCount(length) ==> CounterAt(PreCounter(nonce), 12, k)[12..] != [0, 0, 0, 0])
      <==> BlockCount(length) <= 0xFFFF_FFFE
  {
    hide CounterAt, Pow256, Next, Be;
    var c, n := PreCounter(nonce), BlockCount(length);
    Field();
    CountersDiffer(c, 12, n + 1);
    assert CounterAt(c, 12, 1) == FirstCounter(nonce) by { OneIncrement(c, 12); }
    forall k | 0 <= k <= n && n <= 0xFFFF_FFFE ensures CounterAt(c, 12, k)[12..] != [0, 0, 0, 0] {
      FieldIsZero(nonce, k);
      QuotientIs(1 + k, 0x1_0000_0000, 0, 1 + k);
    }
    if n > 0xFFFF_FFFE {
      FieldIsZero(nonce, 0xFFFF_FFFF);
    }
  }

  lemma OneIncrement(c: Block, from: nat)
    requires from <= BLOCK
    ensures CounterAt(c, from, 1) == Next(c, from)
  {
    hide Next;
    NoIncrement(c, from);
  }

  lemma Field()
    ensures Pow256(4) == 0x1_0000_0000 && Be([0, 0, 0, 0]) == 0 && Be([0, 0, 0, 1]) == 1
  {
    assert Pow256(2) == 0x1_0000;
    assert Be([0, 0]) == 0;
    assert [0, 0, 0, 0][..3][..2] == [0, 0] && [0, 0, 0, 1][..3][..2] == [0, 0];
  }

  lemma FieldIsZero(nonce: seq<u8>, k: nat)
    requires |nonce| == 12
    ensures CounterAt(PreCounter(nonce), 12, k)[12..] == [0, 0, 0, 0] <==> (1 + k) % 0x1_0000_0000 == 0
  {
    hide CounterAt, Pow256, Be;
    Field();
    var c := PreCounter(nonce);
    CounterAtIs(c, 12, k);
    assert c[12..] == [0, 0, 0, 1];
    var f := CounterAt(c, 12, k)[12..];
    if Be(f) == 0 { BeInjective(f, [0, 0, 0, 0]); }
  }
}
