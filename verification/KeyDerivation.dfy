/** HMAC, HKDF and PBKDF2 of src/crypto_hash.c, built on the streaming hash. */
module KeyDerivation {
  import opened Words
  import opened Options
  import opened BigEndian
  import opened Sha256
  import opened ByteXor

  const HASH: nat := 32
  const SIZE_MAX: nat := 0xFFFF_FFFF_FFFF_FFFF
  const UINT32_MAX: nat := 0xFFFF_FFFF
  const INT_MAX: nat := 0x7FFF_FFFF

  // ---------------------------------------------------------------------------------------------
  // HMAC (RFC 2104)
  // ---------------------------------------------------------------------------------------------

  /** The key, hashed first if it is longer than a block, filled up with zeros. */
  function KeyBlock(f: Compression, key: seq<u8>): (k: seq<u8>)
    ensures |k| == 64
  {
    var short: seq<u8> := if |key| > 64 then Sha(f, key) else key;
    short + seq(64 - |short|, _ => 0)
  }

  function Masked(k: seq<u8>, mask: u8): seq<u8> {
    XorBytes(k, seq(|k|, _ => mask))
  }

  function Hmac(f: Compression, key: seq<u8>, message: seq<u8>): Digest {
    var k := KeyBlock(f, key);
    Sha(f, Masked(k, 0x5C) + Sha(f, Masked(k, 0x36) + message))
  }

  method HashParts(f: Compression, a: seq<u8>, b: seq<u8>) returns (out: Digest)
    ensures out == Sha(f, a + b)
  {
    var ctx := new Context(f);
    ctx.Update(a, []);
    ctx.Update(b, [] + a);
    assert [] + a + b == a + b;
    out := ctx.Final(a + b);
  }

  /** crypto_hmac_sha256. */
  method ComputeHmac(f: Compression, key: seq<u8>, message: seq<u8>) returns (out: Digest)
    ensures out == Hmac(f, key, message)
  {
    hide Sha, XorByte;
    var keyBlock := new u8[64](_ => 0);
    var short: seq<u8> := key;
    if |key| > 64 {
      short := HashParts(f, key, []);
      assert key + [] == key;
    }
    forall i | 0 <= i < |short| { keyBlock[i] := short[i]; }
    assert keyBlock[..] == KeyBlock(f, key);
    var ipad, opad := new u8[64], new u8[64];
    for i := 0 to 64
      invariant keyBlock[..] == KeyBlock(f, key)
      invariant forall k :: 0 <= k < i ==> ipad[k] == XorByte(keyBlock[k], 0x36) && opad[k] == XorByte(keyBlock[k], 0x5C)
    {
      ipad[i] := XorByte(keyBlock[i], 0x36);
      opad[i] := XorByte(keyBlock[i], 0x5C);
    }
    assert ipad[..] == Masked(keyBlock[..], 0x36) && opad[..] == Masked(keyBlock[..], 0x5C);
    var inner := HashParts(f, ipad[..], message);
    out := HashParts(f, opad[..], inner);
  }

  // ---------------------------------------------------------------------------------------------
  // Output made of numbered blocks
  // ---------------------------------------------------------------------------------------------

  /** The first n blocks. */
  function Concat(block: nat -> Digest, n: nat): (r: seq<u8>)
    ensures |r| == HASH * n
  {
    if n == 0 then [] else Concat(block, n - 1) + block(n - 1)
  }

  function Count(length: nat): (n: nat)
    ensures HASH * n >= length && (n > 0 ==> HASH * (n - 1) < length)
  {
    (length + 31) / HASH
  }

  function Truncated(block: nat -> Digest, length: nat): (r: seq<u8>)
    ensures |r| == length
  {
    Concat(block, Count(length))[..length]
  }

  lemma {:induction false} ConcatPrefix(block: nat -> Digest, m: nat, n: nat)
    requires m <= n
    ensures Concat(block, m) <= Concat(block, n)
  {
    if m < n { ConcatPrefix(block, m, n - 1); }
  }

  lemma {:induction false} CountMono(a: nat, b: nat)
    requires a <= b
    ensures Count(a) <= Count(b)
  {
  }

  /** A shorter output is a prefix of a longer one. */
  lemma TruncatedPrefix(block: nat -> Digest, a: nat, b: nat)
    requires a <= b
    ensures Truncated(block, a) <= Truncated(block, b)
  {
    hide Concat, Count;
    CountMono(a, b);
    ConcatPrefix(block, Count(a), Count(b));
    var s, t := Concat(block, Count(a)), Concat(block, Count(b));
    assert t[..|s|] == s;
    assert t[..b][..a] == t[..a] == s[..a];
  }

  /** Copying the next block, cut to what is still needed. */
  method Append(out: array<u8>, offset: nat, t: Digest) returns (next: nat)
    requires offset < out.Length
    modifies out
    ensures next == offset + (if out.Length - offset > HASH then HASH else out.Length - offset)
    ensures out[..next] == old(out[..offset]) + t[..next - offset]
  {
    var take := if out.Length - offset > HASH then HASH else out.Length - offset;
    forall i | 0 <= i < take { out[offset + i] := t[i]; }
    next := offset + take;
    assert out[offset..next] == t[..take] && out[..next] == out[..offset] + out[offset..next];
  }

  /** After n blocks the output holds them, or is full. */
  ghost predicate Filled(out: array<u8>, offset: nat, block: nat -> Digest, n: nat)
    reads out
  {
    && offset <= out.Length && offset == (if HASH * n <= out.Length then HASH * n else out.Length)
    && out[..offset] == Concat(block, n)[..offset]
  }

  lemma NextBlock(block: nat -> Digest, n: nat, offset: nat, next: nat, prefix: seq<u8>)
    requires n > 0 && offset == HASH * (n - 1) <= next <= HASH * n
    requires prefix == Concat(block, n - 1)[..offset] + block(n - 1)[..next - offset]
    ensures prefix == Concat(block, n)[..next]
  {
  }

  lemma AllBlocks(length: nat, n: nat)
    requires HASH * n >= length && (n > 0 ==> HASH * (n - 1) < length)
    ensures n == Count(length)
  {
  }

  // ---------------------------------------------------------------------------------------------
  // HKDF (RFC 5869)
  // ---------------------------------------------------------------------------------------------

  /** A keyed function of messages; here always HMAC. */
  type Prf = (seq<u8>, seq<u8>) -> Digest

  function HmacOf(f: Compression): Prf {
    (key: seq<u8>, message: seq<u8>) => Hmac(f, key, message)
  }

  function Extract(h: Prf, ikm: seq<u8>, salt: seq<u8>): Digest {
    h(if salt == [] then seq(HASH, _ => 0) else salt, ikm)
  }

  /** T(n) of section 2.3. */
  function ExpandBlock(h: Prf, prk: seq<u8>, info: seq<u8>, n: nat): (t: seq<u8>)
    ensures n > 0 ==> |t| == HASH
    decreases n
  {
    if n == 0 then [] else h(prk, ExpandBlock(h, prk, info, n - 1) + info + [n % 256])
  }

  function ExpandBlocks(h: Prf, prk: seq<u8>, info: seq<u8>): nat -> Digest {
    (n: nat) => ExpandBlock(h, prk, info, n + 1)
  }

  /** The key material, or refusal. */
  function Hkdf(h: Prf, ikm: seq<u8>, salt: seq<u8>, info: seq<u8>, length: nat): Option<seq<u8>> {
    if length > 255 * HASH || (length > 0 && |info| > SIZE_MAX - 33) then None
    else Some(Truncated(ExpandBlocks(h, Extract(h, ikm, salt), info), length))
  }

  lemma HkdfPrefix(h: Prf, ikm: seq<u8>, salt: seq<u8>, info: seq<u8>, a: nat, b: nat)
    requires a <= b && Hkdf(h, ikm, salt, info, b).Some?
    ensures Hkdf(h, ikm, salt, info, a).Some?
    ensures Hkdf(h, ikm, salt, info, a).value <= Hkdf(h, ikm, salt, info, b).value
  {
    hide Truncated;
    TruncatedPrefix(ExpandBlocks(h, Extract(h, ikm, salt), info), a, b);
  }

  /** crypto_hkdf_hmac_sha256. */
  method ComputeHkdf(f: Compression, ikm: seq<u8>, salt: seq<u8>, info: seq<u8>, out: array<u8>) returns (ok: bool)
    modifies out
    ensures ok <==> Hkdf(HmacOf(f), ikm, salt, info, out.Length).Some?
    ensures ok ==> out[..] == Hkdf(HmacOf(f), ikm, salt, info, out.Length).value
    ensures !ok ==> out[..] == old(out[..])
  {
    hide Hmac, ExpandBlock, Concat;
    if out.Length == 0 { return true; }
    if out.Length > 255 * HASH { return false; }
    if |info| > SIZE_MAX - 33 { return false; }
    var prk := ComputeHmac(f, if |salt| == 0 then seq(HASH, _ => 0) else salt, ikm);
    ghost var h := HmacOf(f);
    ghost var block := ExpandBlocks(h, prk, info);
    var t: seq<u8> := [];
    var offset, counter: u8 := 0, 1;
    ghost var n := 0;
    NoBlocks(block);
    ExpandIs(h, prk, info, 0);
    while offset < out.Length
      invariant n < 256 && counter == (n + 1) % 256 && Filled(out, offset, block, n)
      invariant t == ExpandBlock(h, prk, info, n) && (n > 0 ==> HASH * (n - 1) < out.Length)
      decreases out.Length - offset
    {
      ExpandIs(h, prk, info, n + 1);
      t := ComputeHmac(f, prk, t + info + [counter]);
      ghost var before := offset;
      offset := Append(out, offset, t);
      n := n + 1;
      NextBlock(block, n, before, offset, out[..offset]);
      counter := (counter as int + 1) % 256;
    }
    AllBlocks(out.Length, n);
    assert out[..out.Length] == out[..];
    ok := true;
  }

  lemma NoBlocks(block: nat -> Digest)
    ensures Concat(block, 0) == []
  {
  }

  lemma ExpandIs(h: Prf, prk: seq<u8>, info: seq<u8>, n: nat)
    ensures ExpandBlock(h, prk, info, n) == if n == 0 then [] else h(prk, ExpandBlock(h, prk, info, n - 1) + info + [n % 256])
  {
  }

  // ---------------------------------------------------------------------------------------------
  // PBKDF2 (RFC 8018)
  // ---------------------------------------------------------------------------------------------

  /** U(j + 1) of section 5.2, for block i. */
  function Round(h: Prf, password: seq<u8>, salt: seq<u8>, i: nat, j: nat): Digest
    decreases j
  {
    if j == 0 then h(password, salt + BeBytes(i, 4)) else h(password, Round(h, password, salt, i, j - 1))
  }

  /** F: the exclusive or of the first n rounds. */
  function Mixed(h: Prf, password: seq<u8>, salt: seq<u8>, i: nat, n: nat): Digest
    requires n > 0
    decreases n
  {
    if n == 1 then Round(h, password, salt, i, 0)
    else XorBytes(Mixed(h, password, salt, i, n - 1), Round(h, password, salt, i, n - 1))
  }

  function MixedBlocks(h: Prf, password: seq<u8>, salt: seq<u8>, iterations: nat): nat -> Digest
    requires iterations > 0
  {
    (k: nat) => Mixed(h, password, salt, k + 1, iterations)
  }

  /** The derived key, or refusal. */
  function Pbkdf2(h: Prf, password: seq<u8>, salt: seq<u8>, iterations: nat, length: nat): Option<seq<u8>> {
    if iterations == 0 then None
    else if length == 0 then Some([])
    else if |salt| > SIZE_MAX - 4 || Count(length) > UINT32_MAX then None
    else Some(Truncated(MixedBlocks(h, password, salt, iterations), length))
  }

  lemma Pbkdf2Prefix(h: Prf, password: seq<u8>, salt: seq<u8>, iterations: nat, a: nat, b: nat)
    requires a <= b && Pbkdf2(h, password, salt, iterations, b).Some?
    ensures Pbkdf2(h, password, salt, iterations, a).Some?
    ensures Pbkdf2(h, password, salt, iterations, a).value <= Pbkdf2(h, password, salt, iterations, b).value
  {
    hide Truncated, Count;
    CountMono(a, b);
    if a > 0 { TruncatedPrefix(MixedBlocks(h, password, salt, iterations), a, b); }
  }

  method ComputeBlock(f: Compression, password: seq<u8>, salt: seq<u8>, iterations: nat, i: nat) returns (t: Digest)
    requires iterations > 0
    ensures t == Mixed(HmacOf(f), password, salt, i, iterations)
  {
    hide Hmac, XorBytes;
    ghost var h := HmacOf(f);
    var u := ComputeHmac(f, password, salt + BeBytes(i, 4));
    t := u;
    for iter := 1 to iterations
      invariant u == Round(h, password, salt, i, iter - 1) && t == Mixed(h, password, salt, i, iter)
    {
      u := ComputeHmac(f, password, u);
      t := XorBytes(t, u);
    }
  }

  /** The number of blocks as the code computes it, in size_t. */
  function SizedCount(length: nat): nat {
    (length + 31) % (SIZE_MAX + 1) / HASH
  }

  /** The 32-bit block index after n rounds of the loop. */
  function IndexAfter(n: nat): nat {
    (n + 1) % (UINT32_MAX + 1)
  }

  /** The loop over the blocks reaches an index beyond the last block. */
  ghost predicate Ends(count: nat) {
    exists n :: IndexAfter(n) > count
  }

  /** It does, unless the last block has the largest index there is. */
  lemma LoopEnds(count: nat)
    ensures Ends(count) <==> count < UINT32_MAX
  {
    if count < UINT32_MAX { assert IndexAfter(UINT32_MAX - 1) > count; }
  }

  /** The count is wrapped only within 31 bytes of the largest size, and is zero there. */
  lemma SizedCounts(length: nat)
    requires length <= SIZE_MAX
    ensures length <= SIZE_MAX - 31 ==> SizedCount(length) == Count(length)
    ensures length > SIZE_MAX - 31 ==> SizedCount(length) == 0 && Count(length) > UINT32_MAX
  {
  }

  /** The only caller asks for at most INT_MAX bytes: the loop ends and nothing wraps. */
  lemma CallerCap(length: nat)
    requires length <= INT_MAX
    ensures length <= SIZE_MAX - 31 && SizedCount(length) == Count(length) && Ends(SizedCount(length))
  {
    LoopEnds(SizedCount(length));
  }

  /** The arguments pass every check in front of the loop. */
  predicate Accepted(salt: seq<u8>, iterations: nat, length: nat) {
    iterations > 0 && |salt| <= SIZE_MAX - 4 && SizedCount(length) <= UINT32_MAX
  }

  /** crypto_pbkdf2_hmac_sha256, for calls that end. A length within 31 bytes of the largest size is reported as done
      with nothing written. */
  method ComputePbkdf2(f: Compression, password: seq<u8>, salt: seq<u8>, iterations: nat, out: array<u8>) returns (ok: bool)
    requires out.Length <= SIZE_MAX
    requires Accepted(salt, iterations, out.Length) ==> Ends(SizedCount(out.Length))
    modifies out
    ensures var derived := Pbkdf2(HmacOf(f), password, salt, iterations, out.Length);
      if out.Length <= SIZE_MAX - 31 then
        (ok <==> derived.Some?) && (ok ==> out[..] == derived.value) && (!ok ==> out[..] == old(out[..]))
      else
        (ok <==> Accepted(salt, iterations, out.Length)) && derived.None? && out[..] == old(out[..])
  {
    hide Hmac, Concat, Mixed, SizedCount, Count, Ends;
    SizedCounts(out.Length);
    LoopEnds(SizedCount(out.Length));
    if iterations == 0 { return false; }
    if out.Length == 0 { return true; }
    if |salt| > SIZE_MAX - 4 { return false; }
    var blockCount := SizedCount(out.Length);
    if blockCount > UINT32_MAX { return false; }
    ghost var block := MixedBlocks(HmacOf(f), password, salt, iterations);
    var offset, index := 0, 1;
    NoBlocks(block);
    while index <= blockCount
      invariant 1 <= index <= blockCount + 1 <= UINT32_MAX && Filled(out, offset, block, index - 1)
      invariant blockCount == 0 ==> out[..] == old(out[..])
      decreases blockCount - index
    {
      var t := ComputeBlock(f, password, salt, iterations, index);
      ghost var before := offset;
      offset := Append(out, offset, t);
      NextBlock(block, index, before, offset, out[..offset]);
      index := (index + 1) % (UINT32_MAX + 1);
    }
    assert out[..out.Length] == out[..];
    ok := true;
  }
}
