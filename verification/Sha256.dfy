/** Streaming SHA-256 of src/crypto_hash.c, over an arbitrary compression function. */
module Sha256 {
  import opened Words
  import opened BigEndian

  const BLOCK: nat := 64
  const TWO64: nat := 0x1_0000_0000_0000_0000

  type State = s: seq<u32> | |s| == 8 witness seq(8, _ => 0)

  /** What a block of 64 bytes does to the state; nothing else of the rounds matters here. */
  type Compression = (State, seq<u8>) -> State

  const INITIAL: State := [0x6a09e667, 0xbb67ae85, 0x3c6ef372, 0xa54ff53a, 0x510e527f, 0x9b05688c, 0x1f83d9ab, 0x5be0cd19]

  // ---------------------------------------------------------------------------------------------
  // The digest of section 6.2 of FIPS 180-4
  // ---------------------------------------------------------------------------------------------

  /** A whole number of blocks. */
  predicate Aligned(n: nat) { n % BLOCK == 0 }

  lemma AlignedStep(n: nat)
    ensures Aligned(n + BLOCK) <==> Aligned(n)
    ensures 0 < n < BLOCK ==> !Aligned(n)
    ensures Aligned(0)
  {
  }

  function Fold(f: Compression, s: State, m: seq<u8>): State
    requires Aligned(|m|)
    decreases |m|
  {
    if m == [] then s else
      AlignedStep(|m|);
      Fold(f, f(s, m[..BLOCK]), m[BLOCK..])
  }

  /** Zeros between the bit 1 and the length. */
  function Gap(n: nat): (k: nat)
    ensures k < BLOCK && Aligned(n + 1 + k + 8)
  {
    if n % BLOCK < 56 then 55 - n % BLOCK else 119 - n % BLOCK
  }

  /** Padding, section 5.1.1: a bit 1, zeros, and the length in bits. */
  function Padded(m: seq<u8>): (p: seq<u8>)
    ensures Aligned(|p|)
  {
    m + Padding(|m|)
  }

  function Padding(n: nat): (p: seq<u8>)
    ensures Aligned(n + |p|)
  {
    [0x80] + seq(Gap(n), _ => 0) + BeBytes(Bits(n), 8)
  }

  /** The length in bits, as a 64-bit counter holds it. */
  function Bits(n: nat): nat { 8 * n % TWO64 }

  lemma BitsAdd(k: nat, n: nat)
    ensures (Bits(k) + 8 * n) % TWO64 == Bits(k + n)
  {
  }

  function Word(x: u32): seq<u8> { BeBytes(x, 4) }

  function Output(s: State): (out: seq<u8>)
    ensures |out| == 32
  {
    Word(s[0]) + Word(s[1]) + Word(s[2]) + Word(s[3]) + Word(s[4]) + Word(s[5]) + Word(s[6]) + Word(s[7])
  }

  type Digest = s: seq<u8> | |s| == 32 witness seq(32, _ => 0)

  function Sha(f: Compression, m: seq<u8>): Digest {
    Output(Fold(f, INITIAL, Padded(m)))
  }

  /** The digest is the eight words of the state in their order, each with its most significant byte first. */
  lemma OutputWords(s: State)
    ensures forall i :: 0 <= i < 8 ==> Be(Output(s)[4 * i..4 * i + 4]) == s[i]
  {
    hide BeBytes, Be;
    forall i | 0 <= i < 8 ensures Be(Output(s)[4 * i..4 * i + 4]) == s[i] {
      OutputWord(s, i);
      WordBack(s[i]);
    }
  }

  lemma OutputWord(s: State, i: nat)
    requires i < 8
    ensures Output(s)[4 * i..4 * i + 4] == Word(s[i])
  {
    hide BeBytes;
    var out, w := Output(s)[4 * i..4 * i + 4], Word(s[i]);
    assert out[0] == w[0] && out[1] == w[1] && out[2] == w[2] && out[3] == w[3];
  }

  lemma WordBack(x: u32)
    ensures Be(Word(x)) == x
  {
    hide BeBytes, Be;
    assert Pow256(4) == 0x1_0000_0000;
    BeBytesBack(x, 4);
  }

  /** Padding appends the byte 0x80, fewer zeros than a block has bytes, and the length in bits; the whole is a whole
      number of blocks. */
  lemma PaddedShape(m: seq<u8>)
    requires 8 * |m| < TWO64
    ensures var p, n := Padded(m), |m|;
      && |p| % 64 == 0 && n + 9 <= |p| < n + 9 + 64
      && p[..n] == m && p[n] == 0x80
      && (forall k :: n < k < |p| - 8 ==> p[k] == 0)
      && Be(p[|p| - 8..]) == 8 * n
  {
    hide BeBytes, Be;
    LengthField(m);
  }

  /** Where folding starts: the first 32 bits of the fractional parts of the square roots of the first eight primes. */
  lemma InitialState()
    ensures IsRootFraction(2, 1, INITIAL[0]) && IsRootFraction(3, 1, INITIAL[1])
    ensures IsRootFraction(5, 2, INITIAL[2]) && IsRootFraction(7, 2, INITIAL[3])
    ensures IsRootFraction(11, 3, INITIAL[4]) && IsRootFraction(13, 3, INITIAL[5])
    ensures IsRootFraction(17, 4, INITIAL[6]) && IsRootFraction(19, 4, INITIAL[7])
  {
  }

  /** The square root of p is k and a fraction that begins with the 32 bits of x. */
  predicate IsRootFraction(p: nat, k: nat, x: u32) {
    var r := k * 0x1_0000_0000 + x;
    r * r <= p * TWO64 < (r + 1) * (r + 1)
  }

  /** Folding takes the blocks one after another, the first one first. */
  lemma FoldBlocks(f: Compression, s: State, m: seq<u8>, b: seq<u8>)
    requires Aligned(|m|) && |b| == BLOCK
    ensures Aligned(0) && Fold(f, s, []) == s
    ensures Aligned(|m + b|) && Fold(f, s, m + b) == f(Fold(f, s, m), b)
  {
    hide Fold, Aligned;
    FoldNone(f, s);
    FoldOne(f, Fold(f, s, m), b);
    FoldConcat(f, s, m, b);
  }

  lemma FoldNone(f: Compression, s: State)
    ensures Aligned(0) && Fold(f, s, []) == s
  {
  }

  /** The length field is the length in bits, for every message shorter than 2^64 bits. */
  lemma LengthField(m: seq<u8>)
    requires 8 * |m| < TWO64
    ensures Be(Padded(m)[|Padded(m)| - 8..]) == 8 * |m|
  {
    hide Gap, BeBytes, Be, Pow256;
    var p := Padded(m);
    assert p[|p| - 8..] == BeBytes(8 * |m|, 8);
    EightBytes();
    BeBytesBack(8 * |m|, 8);
  }

  lemma {:induction false} FoldConcat(f: Compression, s: State, a: seq<u8>, b: seq<u8>)
    requires Aligned(|a|) && Aligned(|b|)
    ensures Aligned(|a + b|)
    ensures Fold(f, s, a + b) == Fold(f, Fold(f, s, a), b)
    decreases |a|
  {
    if a == [] {
      assert a + b == b;
    } else {
      AlignedStep(|a|);
      assert (a + b)[..BLOCK] == a[..BLOCK] && (a + b)[BLOCK..] == a[BLOCK..] + b;
      FoldConcat(f, f(s, a[..BLOCK]), a[BLOCK..], b);
    }
  }

  lemma FoldOne(f: Compression, s: State, b: seq<u8>)
    requires |b| == BLOCK
    ensures Aligned(|b|) && Fold(f, s, b) == f(s, b)
  {
    assert b[..BLOCK] == b && b[BLOCK..] == [];
  }

  // ---------------------------------------------------------------------------------------------
  // The context
  // ---------------------------------------------------------------------------------------------

  class Context {
    const f: Compression
    const data: array<u8>
    var datalen: nat
    var bitlen: nat
    var state: State

    /** The context has taken in the message m. */
    ghost predicate Holds(m: seq<u8>)
      reads this, data
    {
      && data.Length == BLOCK && datalen < BLOCK && datalen <= |m| && Aligned(|m| - datalen)
      && data[..datalen] == m[|m| - datalen..]
      && bitlen == Bits(|m| - datalen)
      && state == Fold(f, INITIAL, m[..|m| - datalen])
    }

    /** crypto_sha256_init. */
    constructor (compression: Compression)
      ensures Holds([]) && f == compression && fresh(data)
    {
      f := compression;
      data := new u8[BLOCK];
      datalen, bitlen, state := 0, 0, INITIAL;
    }

    /** crypto_sha256_update_ctx. */
    method Update(input: seq<u8>, ghost m: seq<u8>)
      requires Holds(m)
      modifies this, data
      ensures Holds(m + input)
    {
      hide Fold;
      assert m + input[..0] == m;
      for i := 0 to |input|
        invariant Holds(m + input[..i])
      {
        ghost var before := m + input[..i];
        ghost var after := m + input[..i + 1];
        assert after == before + [input[i]];
        TakeByte(input[i], before);
      }
      assert input[..|input|] == input;
    }

    /** One byte: store it, and compress when the block is full. */
    method TakeByte(b: u8, ghost m: seq<u8>)
      requires Holds(m)
      modifies this, data
      ensures Holds(m + [b])
    {
      hide Fold, Aligned, Bits;
      ghost var k, after := |m| - datalen, m + [b];
      data[datalen] := b;
      datalen := datalen + 1;
      assert data[..datalen] == m[k..] + [b] == after[k..];
      assert after[..k] == m[..k];
      if datalen == BLOCK {
        assert data[..] == data[..datalen];
        AlignedStep(k);
        AlignedStep(0);
        FoldConcat(f, INITIAL, m[..k], data[..]);
        FoldOne(f, state, data[..]);
        assert m[..k] + data[..] == after == after[..|after|];
        BitsAdd(k, BLOCK);
        state := f(state, data[..]);
        bitlen := (bitlen + 512) % TWO64;
        datalen := 0;
      }
    }

    method Zero(from: nat, to: nat)
      requires from <= to <= data.Length
      modifies data
      ensures data[..from] == old(data[..from]) && data[to..] == old(data[to..])
      ensures forall k :: from <= k < to ==> data[k] == 0
    {
      var i := from;
      while i < to
        invariant from <= i <= to
        invariant forall k :: from <= k < i ==> data[k] == 0
        invariant forall k :: 0 <= k < data.Length && !(from <= k < i) ==> data[k] == old(data[k])
      {
        data[i] := 0;
        i := i + 1;
      }
    }

    /** The first part of crypto_sha256_final: the one bit and the zeros, with a block of their own if the length does
        not fit behind them. */
    method Pad(ghost m: seq<u8>) returns (ghost blocks: seq<u8>)
      requires Holds(m)
      modifies this`state, data
      ensures Fronted(m[|m| - datalen..], blocks, data[..56])
      ensures var done := m[..|m| - datalen] + blocks; Aligned(|done|) && state == Fold(f, INITIAL, done)
    {
      hide Fold, Aligned, Bits;
      ghost var k, tail := |m| - datalen, m[|m| - datalen..];
      blocks := [];
      assert m[..k] + blocks == m[..k];
      if datalen < 56 {
        data[datalen] := 0x80;
        Zero(datalen + 1, 56);
        assert data[..56] == tail + ([0x80] + seq(55 - datalen, _ => 0));
      } else {
        data[datalen] := 0x80;
        Zero(datalen + 1, BLOCK);
        blocks := data[..];
        assert blocks == tail + ([0x80] + seq(63 - datalen, _ => 0));
        AppendBlock(f, m[..k], blocks);
        state := f(state, data[..]);
        Zero(0, 56);
        assert data[..56] == seq(56, _ => 0);
      }
    }

    /** crypto_sha256_final. */
    method Final(ghost m: seq<u8>) returns (out: Digest)
      requires Holds(m)
      modifies this, data
      ensures out == Sha(f, m)
      ensures forall i :: 0 <= i < 8 ==> Be(out[4 * i..4 * i + 4]) == Fold(f, INITIAL, Padded(m))[i]
    {
      hide Fold, Aligned, Bits, Gap, BeBytes, Output, Padded, Fronted, Be;
      ghost var k := |m| - datalen;
      ghost var blocks := Pad(m);
      BitsAdd(k, datalen);
      bitlen := (bitlen + datalen * 8) % TWO64;
      var b := BeBytes(bitlen, 8);
      ghost var front := data[..56];
      forall j | 0 <= j < 8 { data[56 + j] := b[j]; }
      assert data[..] == front + b;
      PaddedIs(m, datalen, blocks, data[..]);
      AppendBlock(f, m[..k] + blocks, data[..]);
      state := f(state, data[..]);
      out := Output(state);
      OutputWords(state);
    }
  }

  /** What final puts behind the last bytes: blocks of their own, and the front of the block that holds the length. */
  ghost predicate Fronted(tail: seq<u8>, blocks: seq<u8>, front: seq<u8>)
    requires |tail| < BLOCK
  {
    if |tail| < 56 then blocks == [] && front == tail + ([0x80] + seq(55 - |tail|, _ => 0))
    else blocks == tail + ([0x80] + seq(63 - |tail|, _ => 0)) && front == seq(56, _ => 0)
  }

  lemma AppendBlock(f: Compression, a: seq<u8>, b: seq<u8>)
    requires Aligned(|a|) && |b| == BLOCK
    ensures Aligned(|a + b|) && Fold(f, INITIAL, a + b) == f(Fold(f, INITIAL, a), b)
  {
    hide Fold;
    FoldOne(f, Fold(f, INITIAL, a), b);
    FoldConcat(f, INITIAL, a, b);
  }

  /** The padded message is its whole blocks, followed by the one or two blocks that final builds. */
  lemma PaddedIs(m: seq<u8>, datalen: nat, blocks: seq<u8>, last: seq<u8>)
    requires datalen < BLOCK && datalen <= |m| && Aligned(|m| - datalen)
    requires |last| == BLOCK && last[56..] == BeBytes(Bits(|m|), 8) && Fronted(m[|m| - datalen..], blocks, last[..56])
    ensures Padded(m) == m[..|m| - datalen] + blocks + last
  {
    hide Aligned, BeBytes, Bits, Gap;
    GapIs(|m|, datalen);
    var k := |m| - datalen;
    assert m == m[..k] + m[k..];
    if datalen >= 56 {
      assert seq(Gap(|m|), _ => 0) == seq(63 - datalen, _ => 0) + seq(56, _ => 0);
    }
  }

  lemma GapIs(n: nat, datalen: nat)
    requires datalen < BLOCK && datalen <= n && Aligned(n - datalen)
    ensures Gap(n) == if datalen < 56 then 55 - datalen else 119 - datalen
  {
    assert n % BLOCK == datalen;
  }
}
