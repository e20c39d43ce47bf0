/** What the key derivations of src/crypto_hash.c compute, position by position in the output: RFC 2104, RFC 5869 and RFC 8018. */
module KeyDerivationLaws {
  import opened Words
  import opened Options
  import opened BigEndian
  import opened Sha256
  import opened ByteXor
  import opened KeyDerivation

  // ---------------------------------------------------------------------------------------------
  // HMAC
  // ---------------------------------------------------------------------------------------------

  /** The key, or the digest of a key longer than a block, followed by zeros up to a block. */
  ghost predicate IsKeyBlock(f: Compression, key: seq<u8>, k: seq<u8>) {
    var short: seq<u8> := if |key| > 64 then Sha(f, key) else key;
    |k| == 64 && forall i :: 0 <= i < 64 ==> k[i] == if i < |short| then short[i] else 0
  }

  ghost predicate IsMasked(k: seq<u8>, mask: u8, block: seq<u8>) {
    |block| == |k| && forall i :: 0 <= i < |k| ==> block[i] == XorByte(k[i], mask)
  }

  /** Folding the rest of a message whose first block has been taken in. */
  function Resume(f: Compression, s: State, rest: seq<u8>): seq<u8> {
    Rest(|rest|);
    Output(Fold(f, s, rest + Padding(64 + |rest|)))
  }

  lemma Rest(n: nat)
    ensures Aligned(n + |Padding(64 + n)|)
  {
    hide Padding;
    AlignedStep(n + |Padding(64 + n)|);
    assert 64 + n + |Padding(64 + n)| == n + |Padding(64 + n)| + BLOCK;
  }

  /** HMAC is two nested foldings, each from the state its masked key leads to: the message from the key masked with
      0x36, and that digest from the key masked with 0x5C. */
  lemma HmacNested(f: Compression, key: seq<u8>, message: seq<u8>, k: seq<u8>, ipad: seq<u8>, opad: seq<u8>)
    requires IsKeyBlock(f, key, k) && IsMasked(k, 0x36, ipad) && IsMasked(k, 0x5C, opad)
    ensures Hmac(f, key, message) == Resume(f, f(INITIAL, opad), Resume(f, f(INITIAL, ipad), message))
  {
    hide Sha, XorByte, Resume;
    assert k == KeyBlock(f, key);
    assert ipad == Masked(k, 0x36) && opad == Masked(k, 0x5C);
    AfterFirstBlock(f, ipad, message);
    AfterFirstBlock(f, opad, Sha(f, ipad + message));
  }

  lemma AfterFirstBlock(f: Compression, block: seq<u8>, rest: seq<u8>)
    requires |block| == 64
    ensures Sha(f, block + rest) == Resume(f, f(INITIAL, block), rest)
  {
    hide Fold, Aligned, Padding, Output;
    var tail := rest + Padding(64 + |rest|);
    Rest(|rest|);
    FoldOne(f, INITIAL, block);
    FoldConcat(f, INITIAL, block, tail);
    assert block + rest + Padding(|block + rest|) == block + tail;
  }

  // ---------------------------------------------------------------------------------------------
  // Output made of blocks
  // ---------------------------------------------------------------------------------------------

  /** The bytes of block k in an output that may be cut. */
  function Piece(out: seq<u8>, k: nat): (s: seq<u8>)
    requires 32 * k < |out|
    ensures |s| == (if 32 * k + 32 <= |out| then 32 else |out| - 32 * k)
  {
    if 32 * k + 32 <= |out| then out[32 * k..32 * k + 32] else out[32 * k..]
  }

  lemma {:induction false} ConcatBlock(block: nat -> Digest, n: nat, k: nat)
    requires k < n
    ensures |Concat(block, n)| == 32 * n && Concat(block, n)[32 * k..32 * k + 32] == block(k)
    decreases n
  {
    if k < n - 1 {
      ConcatBlock(block, n - 1, k);
      assert Concat(block, n)[..32 * (n - 1)] == Concat(block, n - 1);
      assert Concat(block, n)[32 * k..32 * k + 32] == Concat(block, n - 1)[32 * k..32 * k + 32];
    }
  }

  lemma TruncatedBlock(block: nat -> Digest, length: nat, k: nat)
    requires 32 * k < length
    ensures var p := Piece(Truncated(block, length), k); p == block(k)[..|p|]
  {
    hide Concat, Count;
    var n := Count(length);
    ConcatBlock(block, n, k);
    var c, out := Concat(block, n), Truncated(block, length);
    var p := Piece(out, k);
    assert p == c[32 * k..32 * k + |p|] == c[32 * k..32 * k + 32][..|p|];
  }

  // ---------------------------------------------------------------------------------------------
  // HKDF
  // ---------------------------------------------------------------------------------------------

  /** Block k of the key material is the keyed hash of the block before it, the info and the number k + 1; the key is the
      keyed hash of the input key material under the salt, or under 32 zeros if there is none. */
  lemma HkdfBlock(h: Prf, ikm: seq<u8>, salt: seq<u8>, info: seq<u8>, length: nat, k: nat)
    requires Hkdf(h, ikm, salt, info, length).Some? && 32 * k < length
    ensures |Hkdf(h, ikm, salt, info, length).value| == length
    ensures var out := Hkdf(h, ikm, salt, info, length).value;
      var prk := h(if salt == [] then seq(32, _ => 0) else salt, ikm);
      var before := if k == 0 then [] else Piece(out, k - 1);
      var p := Piece(out, k);
      k + 1 < 256 && p == h(prk, before + info + [(k + 1) as int])[..|p|]
  {
    hide Truncated, ExpandBlock;
    var prk := Extract(h, ikm, salt);
    var blocks := ExpandBlocks(h, prk, info);
    TruncatedBlock(blocks, length, k);
    ExpandIs(h, prk, info, k + 1);
    if k == 0 {
      ExpandIs(h, prk, info, 0);
    } else {
      TruncatedBlock(blocks, length, k - 1);
      assert Piece(Truncated(blocks, length), k - 1) == blocks(k - 1);
    }
  }

  // ---------------------------------------------------------------------------------------------
  // PBKDF2
  // ---------------------------------------------------------------------------------------------

  /** The iterates for block k: the first is the keyed hash of the salt and the number k + 1 in four bytes, each further
      one the keyed hash of the one before. */
  ghost predicate Iterates(h: Prf, password: seq<u8>, salt: seq<u8>, k: nat, number: seq<u8>, us: seq<Digest>) {
    && |us| > 0 && |number| == 4 && Be(number) == k + 1
    && us[0] == h(password, salt + number)
    && forall j :: 0 < j < |us| ==> us[j] == h(password, us[j - 1])
  }

  /** The exclusive or of the bytes at position i. */
  function Column(us: seq<Digest>, i: nat): u8
    requires i < 32
  {
    if us == [] then 0 else XorByte(Column(us[..|us| - 1], i), us[|us| - 1][i])
  }

  /** Byte i of block k of the derived key is the exclusive or of the bytes i of the iterates. */
  lemma Pbkdf2Block(h: Prf, password: seq<u8>, salt: seq<u8>, length: nat, k: nat, number: seq<u8>, us: seq<Digest>)
    requires Iterates(h, password, salt, k, number, us)
    requires Pbkdf2(h, password, salt, |us|, length).Some? && 32 * k < length
    ensures var out := Pbkdf2(h, password, salt, |us|, length).value;
      |out| == length && forall i :: 0 <= i < |Piece(out, k)| ==> Piece(out, k)[i] == Column(us, i)
  {
    hide Truncated, Count, Mixed, Column, Be;
    TruncatedBlock(MixedBlocks(h, password, salt, |us|), length, k);
    var m := Mixed(h, password, salt, k + 1, |us|);
    forall i | 0 <= i < 32 ensures m[i] == Column(us, i) {
      MixedColumn(h, password, salt, k, number, us, |us|, i);
      assert us[..|us|] == us;
    }
  }

  lemma NumberIs(k: nat, number: seq<u8>)
    requires |number| == 4 && Be(number) == k + 1
    ensures number == BeBytes(k + 1, 4)
  {
    hide Be, BeBytes, Pow256;
    BeBelow(number);
    BeBytesBack(k + 1, 4);
    BeInjective(number, BeBytes(k + 1, 4));
  }

  lemma {:induction false} BeBelow(s: seq<u8>)
    ensures Be(s) < Pow256(|s|)
  {
    if s != [] { BeBelow(s[..|s| - 1]); }
  }

  lemma {:induction false} RoundIs(h: Prf, password: seq<u8>, salt: seq<u8>, k: nat, number: seq<u8>,
          us: seq<Digest>, j: nat)
    requires Iterates(h, password, salt, k, number, us) && j < |us|
    ensures Round(h, password, salt, k + 1, j) == us[j]
    decreases j
  {
    hide Be, BeBytes;
    NumberIs(k, number);
    if j > 0 { RoundIs(h, password, salt, k, number, us, j - 1); }
  }

  lemma {:induction false} MixedColumn(h: Prf, password: seq<u8>, salt: seq<u8>, k: nat, number: seq<u8>, us: seq<Digest>,
                                       n: nat, i: nat)
    requires Iterates(h, password, salt, k, number, us) && 0 < n <= |us| && i < 32
    ensures Mixed(h, password, salt, k + 1, n)[i] == Column(us[..n], i)
    decreases n
  {
    hide Be, BeBytes, XorByte, Round;
    RoundIs(h, password, salt, k, number, us, n - 1);
    assert us[..n][..n - 1] == us[..n - 1];
    if n > 1 {
      MixedColumn(h, password, salt, k, number, us, n - 1, i);
    } else {
      assert us[..0] == [];
      XorWithZero(us[0][i]);
    }
  }

  lemma XorWithZero(a: u8)
    ensures XorByte(0, a) == a
  {
  }

  /** In particular, one iteration: block k is the keyed hash of the salt and the number k + 1. */
  lemma Pbkdf2Once(h: Prf, password: seq<u8>, salt: seq<u8>, length: nat, k: nat, number: seq<u8>)
    requires Pbkdf2(h, password, salt, 1, length).Some? && 32 * k < length && |number| == 4 && Be(number) == k + 1
    ensures var p := Piece(Pbkdf2(h, password, salt, 1, length).value, k);
      p == h(password, salt + number)[..|p|]
  {
    hide Be, XorByte, Pbkdf2;
    var u := h(password, salt + number);
    Pbkdf2Block(h, password, salt, length, k, number, [u]);
    forall i | 0 <= i < 32 ensures Column([u], i) == u[i] { OneColumn(u, i); }
  }

  lemma OneColumn(u: Digest, i: nat)
    requires i < 32
    ensures Column([u], i) == u[i]
  {
    hide XorByte;
    assert [u][..0] == [];
    XorWithZero(u[i]);
  }
}
