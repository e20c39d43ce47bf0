/** The block cipher modes of src/crypto_aes.c, over an arbitrary block cipher. */
module Gcm {
  import opened Words
  import opened Options
  import opened BigEndian
  import opened Gf2Poly
  import opened ByteXor
  import opened Gf128
  import opened GcmBlocks

  // ---------------------------------------------------------------------------------------------
  // Multiplication of blocks, in place
  // ---------------------------------------------------------------------------------------------

  method XorBlock(dst: array<u8>, src: seq<u8>)
    requires dst.Length == BLOCK == |src|
    modifies dst
    ensures dst[..] == XorBytes(old(dst[..]), src)
  {
    for i := 0 to BLOCK
      invariant forall k :: 0 <= k < i ==> dst[k] == XorByte(old(dst[k]), src[k])
      invariant forall k :: i <= k < BLOCK ==> dst[k] == old(dst[k])
    {
      dst[i] := XorByte(dst[i], src[i]);
    }
  }

  method ShiftRightOne(block: array<u8>)
    requires block.Length == BLOCK
    modifies block
    ensures block[..] == Shifted(old(block[..]), 0)
  {
    hide Shifted, ShiftedByte, CarryIn;
    ghost var b := block[..];
    var carry := 0;
    CarryIs(b, 0);
    for i := 0 to BLOCK
      invariant carry == CarryIn(b, 0, i)
      invariant forall k :: i <= k < BLOCK ==> block[k] == b[k]
      invariant forall k :: 0 <= k < i ==> block[k] == ShiftedByte(b[k], CarryIn(b, 0, k))
    {
      CarryIs(b, i + 1);
      var nextCarry := block[i] % 2;
      block[i] := ShiftedByte(block[i], if carry != 0 then 1 else 0);
      carry := nextCarry;
    }
  }

  lemma CarryIs(b: seq<u8>, k: nat)
    requires k <= |b|
    ensures CarryIn(b, 0, k) == if k == 0 then 0 else b[k - 1] % 2
  {
  }

  method MultiplyByX(v: array<u8>)
    requires v.Length == BLOCK
    modifies v
    ensures v[..] == Stepped(old(v[..]))
  {
    hide Shifted, XorByte;
    var lsb := v[15] % 2;
    ShiftRightOne(v);
    if lsb == 1 { v[0] := XorByte(v[0], 0xE1); }
  }

  /** crypto_aes_gcm_multiply: shift and add, coefficient by coefficient of x. */
  method Multiply(x: seq<u8>, y: seq<u8>) returns (z: array<u8>)
    requires |x| == BLOCK == |y|
    ensures fresh(z) && z.Length == BLOCK
    ensures Poly(z[..]) == Mult(Poly(x), Poly(y))
  {
    hide Poly, Mult, Xor, XorBytes, Stepped, Order, Down, XorByte, Pow2;
    z := new u8[BLOCK](_ => 0);
    var v := new u8[BLOCK](i requires 0 <= i < BLOCK => y[i]);
    assert v[..] == y;
    ghost var left := Poly(x);
    StartMultiply(z[..], Poly(x), Poly(y));
    for i := 0 to 128
      invariant z.Length == BLOCK == v.Length && fresh(z) && fresh(v) && z != v
      invariant left == Down(Poly(x), i)
      invariant Xor(Poly(z[..]), Mult(left, Poly(v[..]))) == Mult(Poly(x), Poly(y))
    {
      ghost var z0, v0 := z[..], v[..];
      PolyBit(x, i);
      StepMultiply(z0, v0, left);
      var bit := Down(x[i / 8], 7 - i % 8) % 2;
      if bit == 1 { XorBlock(z, v[..]); }
      MultiplyByX(v);
      DownStep(Poly(x), i);
      left := left / 2;
    }
    EndMultiply(z[..], x, v[..]);
  }

  lemma DownStep(a: nat, i: nat)
    ensures Down(a, i + 1) == Down(a, i) / 2 && Down(a, 0) == a
  {
  }

  lemma StartMultiply(z: seq<u8>, x: nat, y: nat)
    requires forall k :: 0 <= k < |z| ==> z[k] == 0
    ensures Xor(Poly(z), Mult(x, y)) == Mult(x, y) && Down(x, 0) == x
  {
    PolyZero(z);
    XorZero(Mult(x, y));
  }

  lemma {:induction false} PolyZero(z: seq<u8>)
    requires forall k :: 0 <= k < |z| ==> z[k] == 0
    ensures Poly(z) == 0
  {
    if z != [] {
      PolyZero(z[1..]);
      UpOfOne(8);
      RevZero(8);
    }
  }

  lemma {:induction false} RevZero(n: nat)
    ensures Rev(0, n) == 0
  {
    if n > 0 {
      RevZero(n - 1);
      UpOfOne(n - 1);
    }
  }

  lemma StepMultiply(z: seq<u8>, v: seq<u8>, left: nat)
    requires |z| == BLOCK == |v|
    ensures Xor(Poly(z), Mult(left, Poly(v)))
      == Xor(Poly(if left % 2 == 1 then XorBytes(z, v) else z), Mult(left / 2, Poly(Stepped(v))))
  {
    hide Poly, Mult, Xor, XorBytes, Stepped, Order, TimesX;
    SteppedIsTimesX(v);
    MultStep(left, Poly(v));
    PolyXor(z, v);
    var m := Mult(left / 2, Poly(Stepped(v)));
    XorAssoc(Poly(z), Poly(v), m);
    XorZero(m);
  }

  lemma EndMultiply(z: seq<u8>, x: seq<u8>, v: seq<u8>)
    requires |x| == BLOCK
    ensures Xor(Poly(z), Mult(Down(Poly(x), 128), Poly(v))) == Poly(z)
  {
    hide Poly, Mult, Xor, Pow2, Up, Down;
    PolyBound(x);
    DownUp(Poly(x), 0, 128);
    UpOfOne(128);
    MultZero(Poly(v));
    XorZero(Poly(z));
  }

  // ---------------------------------------------------------------------------------------------
  // GHASH
  // ---------------------------------------------------------------------------------------------

  /** Data cut into blocks, the last one padded with zeros. */
  function Blocks(data: seq<u8>): (bs: seq<nat>) {
    if |data| == 0 then []
    else if |data| < BLOCK then [Poly(data + seq(BLOCK - |data|, _ => 0))]
    else [Poly(data[..BLOCK])] + Blocks(data[BLOCK..])
  }

  /** Section 6.4 of NIST SP 800-38D, starting from y. */
  function Ghash(y: nat, h: nat, bs: seq<nat>): nat
    decreases |bs|
  {
    if bs == [] then y else Ghash(Mult(Xor(y, bs[0]), h), h, bs[1..])
  }

  function Power(h: nat, n: nat): nat {
    if n == 0 then 1 else Mult(h, Power(h, n - 1))
  }

  /** The blocks as coefficients of a polynomial in h: the last one times h, the one before times h^2, and so on. */
  function Evaluate(h: nat, bs: seq<nat>): nat {
    if bs == [] then 0 else Xor(Mult(bs[0], Power(h, |bs|)), Evaluate(h, bs[1..]))
  }

  /** GHASH evaluates the polynomial whose coefficients are the blocks. */
  lemma {:induction false} GhashEvaluates(y: nat, h: nat, bs: seq<nat>)
    requires y < Order() && forall k :: 0 <= k < |bs| ==> bs[k] < Order()
    ensures Ghash(y, h, bs) == Xor(Mult(y, Power(h, |bs|)), Evaluate(h, bs))
    decreases |bs|
  {
    hide Mult, Xor, Order;
    if bs == [] {
      MultOne(y);
      XorZero(y);
    } else {
      var n := |bs| - 1;
      var w := Mult(Xor(y, bs[0]), h);
      GhashEvaluates(w, h, bs[1..]);
      MultAssoc(Xor(y, bs[0]), h, Power(h, n));
      MultXor(y, bs[0], Power(h, n + 1));
      XorAssoc(Mult(y, Power(h, n + 1)), Mult(bs[0], Power(h, n + 1)), Evaluate(h, bs[1..]));
    }
  }

  /** crypto_aes_gcm_ghash_update. */
  method GhashUpdate(y: array<u8>, h: seq<u8>, data: seq<u8>)
    requires y.Length == BLOCK == |h|
    modifies y
    ensures Poly(y[..]) == Ghash(old(Poly(y[..])), Poly(h), Blocks(data))
  {
    hide Poly, Mult, Xor, XorBytes;
    var rest := data;
    while |rest| >= BLOCK
      invariant Ghash(Poly(y[..]), Poly(h), Blocks(rest)) == Ghash(old(Poly(y[..])), Poly(h), Blocks(data))
      decreases |rest|
    {
      PolyXor(y[..], rest[..BLOCK]);
      XorBlock(y, rest[..BLOCK]);
      var block := Multiply(y[..], h);
      Copy(y, block);
      assert Blocks(rest)[1..] == Blocks(rest[BLOCK..]);
      rest := rest[BLOCK..];
    }
    if |rest| > 0 {
      var padded := rest + seq(BLOCK - |rest|, _ => 0);
      PolyXor(y[..], padded);
      XorBlock(y, padded);
      var block := Multiply(y[..], h);
      Copy(y, block);
    }
  }

  method Copy(dst: array<u8>, src: array<u8>)
    requires dst.Length == src.Length && dst != src
    modifies dst
    ensures dst[..] == src[..]
  {
    forall i | 0 <= i < dst.Length { dst[i] := src[i]; }
  }

  lemma {:induction false} GhashConcat(y: nat, h: nat, a: seq<nat>, b: seq<nat>)
    ensures Ghash(Ghash(y, h, a), h, b) == Ghash(y, h, a + b)
    decreases |a|
  {
    if a == [] {
      assert a + b == b;
    } else {
      GhashConcat(Mult(Xor(y, a[0]), h), h, a[1..], b);
      assert (a + b)[1..] == a[1..] + b;
    }
  }

  // ---------------------------------------------------------------------------------------------
  // Counters
  // ---------------------------------------------------------------------------------------------

  /** Add one, rippling the carry; after the largest value comes zero. */
  function Incremented(c: seq<u8>): (r: seq<u8>)
    ensures |r| == |c|
  {
    if c == [] then [] else
      var n := |c| - 1;
      if c[n] == 255 then Incremented(c[..n]) + [0] else c[..n] + [c[n] + 1]
  }

  /** Incrementing is addition of one modulo 256^n. */
  lemma {:induction false} IncrementedIsNext(c: seq<u8>)
    ensures Be(c) < Pow256(|c|)
    ensures Be(Incremented(c)) == if Be(c) + 1 == Pow256(|c|) then 0 else Be(c) + 1
  {
    if c != [] {
      var n := |c| - 1;
      IncrementedIsNext(c[..n]);
      assert Incremented(c)[..n] == if c[n] == 255 then Incremented(c[..n]) else c[..n];
    }
  }

  /** crypto_aes_increment_counter (from == 0) and crypto_aes_increment_counter32 (from == 12). */
  method IncrementCounter(counter: array<u8>, from: nat)
    requires counter.Length == BLOCK && from <= BLOCK
    modifies counter
    ensures counter[..] == old(counter[..from]) + Incremented(old(counter[from..]))
  {
    hide Incremented;
    ghost var c := counter[..];
    var i := BLOCK - 1;
    while i >= from
      invariant from - 1 <= i < BLOCK
      invariant forall k :: 0 <= k <= i ==> counter[k] == c[k]
      invariant forall k :: i < k < BLOCK ==> c[k] == 255 && counter[k] == 0
    {
      counter[i] := if counter[i] == 255 then 0 else counter[i] + 1;
      if counter[i] != 0 {
        Ripples(c[from..], i - from);
        assert counter[..] == c[..from] + Incremented(c[from..]);
        return;
      }
      i := i - 1;
    }
    WrapsAround(c[from..]);
    assert counter[..] == c[..from] + Incremented(c[from..]);
  }

  /** The carry runs through the bytes at their maximum and stops at the first other one. */
  lemma {:induction false} Ripples(s: seq<u8>, i: nat)
    requires i < |s| && s[i] != 255 && forall k :: i < k < |s| ==> s[k] == 255
    ensures var r := Incremented(s);
      && (forall k :: 0 <= k < i ==> r[k] == s[k]) && r[i] == s[i] + 1 && forall k :: i < k < |s| ==> r[k] == 0
    decreases |s|
  {
    if i < |s| - 1 { Ripples(s[..|s| - 1], i); }
  }

  lemma {:induction false} WrapsAround(s: seq<u8>)
    requires forall k :: 0 <= k < |s| ==> s[k] == 255
    ensures forall k :: 0 <= k < |s| ==> Incremented(s)[k] == 0
    decreases |s|
  {
    if s != [] { WrapsAround(s[..|s| - 1]); }
  }

  // ---------------------------------------------------------------------------------------------
  // Counter mode
  // ---------------------------------------------------------------------------------------------

  type Block = s: seq<u8> | |s| == BLOCK witness seq(BLOCK, _ => 0)

  /** A keyed block function; the modes use nothing else of AES. */
  type Cipher = (seq<u8>, Block) -> Block

  /** crypto_aes_init accepts keys of 128, 192 and 256 bits. */
  predicate KeyOk(key: seq<u8>) { |key| == 16 || |key| == 24 || |key| == 32 }

  function Next(counter: Block, from: nat): Block
    requires from <= BLOCK
  {
    counter[..from] + Incremented(counter[from..])
  }

  function Chunk(data: seq<u8>): (n: nat)
    ensures n <= |data| && n <= BLOCK && (data != [] ==> n > 0)
  {
    if |data| > BLOCK then BLOCK else |data|
  }

  /** The data combined with the encryptions of the counter, its successor, and so on. */
  function Ctr(e: Cipher, key: seq<u8>, counter: Block, from: nat, data: seq<u8>): (r: seq<u8>)
    requires from <= BLOCK
    ensures |r| == |data|
    decreases |data|
  {
    if data == [] then [] else
      var n := Chunk(data);
      XorBytes(data[..n], e(key, counter)[..n]) + Ctr(e, key, Next(counter, from), from, data[n..])
  }

  lemma XorBytesTwice(s: seq<u8>, t: seq<u8>)
    requires |s| == |t|
    ensures XorBytes(XorBytes(s, t), t) == s
  {
    forall k | 0 <= k < |s| ensures XorBytes(XorBytes(s, t), t)[k] == s[k] {
      XorCancel(s[k], t[k]);
    }
  }

  /** Counter mode applied twice gives the data back, a partial last block included. */
  lemma {:induction false} CtrTwice(e: Cipher, key: seq<u8>, counter: Block, from: nat, data: seq<u8>)
    requires from <= BLOCK
    ensures Ctr(e, key, counter, from, Ctr(e, key, counter, from, data)) == data
    decreases |data|
  {
    hide XorBytes, Next;
    if data != [] {
      var n, next := Chunk(data), Next(counter, from);
      var pad := e(key, counter)[..n];
      var head, tail := XorBytes(data[..n], pad), Ctr(e, key, next, from, data[n..]);
      var c := head + tail;
      assert Ctr(e, key, counter, from, data) == c;
      assert Chunk(c) == n && c[..n] == head && c[n..] == tail;
      CtrTwice(e, key, next, from, data[n..]);
      XorBytesTwice(data[..n], pad);
      assert data[..n] + data[n..] == data;
    }
  }

  method XorChunk(input: seq<u8>, offset: nat, chunk: nat, stream: Block, out: array<u8>)
    requires chunk <= BLOCK && offset + chunk <= |input| == out.Length
    modifies out
    ensures out[..offset + chunk] == old(out[..offset]) + XorBytes(input[offset..offset + chunk], stream[..chunk])
  {
    hide XorByte, XorBytes;
    for i := 0 to chunk
      invariant out[..offset] == old(out[..offset])
      invariant forall k :: 0 <= k < i ==> out[offset + k] == XorByte(input[offset + k], stream[k])
    {
      out[offset + i] := XorByte(input[offset + i], stream[i]);
    }
    assert out[offset..offset + chunk] == XorBytes(input[offset..offset + chunk], stream[..chunk]);
    assert out[..offset + chunk] == out[..offset] + out[offset..offset + chunk];
  }

  /** The first chunk and the rest. */
  lemma CtrParts(e: Cipher, key: seq<u8>, c: Block, from: nat, data: seq<u8>)
    requires from <= BLOCK && data != []
    ensures var n := Chunk(data); var r := Ctr(e, key, c, from, data);
      r[..n] == XorBytes(data[..n], e(key, c)[..n]) && r[n..] == Ctr(e, key, Next(c, from), from, data[n..])
  {
    hide XorBytes, Next;
  }

  /** One more chunk of the output: what it is, and what is still to come. */
  lemma CtrChunk(e: Cipher, key: seq<u8>, counter: Block, from: nat, input: seq<u8>, offset: nat, goal: seq<u8>)
    requires from <= BLOCK && offset < |input| == |goal| && goal[offset..] == Ctr(e, key, counter, from, input[offset..])
    ensures var n := Chunk(input[offset..]);
      && goal[..offset + n] == goal[..offset] + XorBytes(input[offset..offset + n], e(key, counter)[..n])
      && goal[offset + n..] == Ctr(e, key, Next(counter, from), from, input[offset + n..])
  {
    hide XorBytes, Next, Ctr;
    var rest := input[offset..];
    var n := Chunk(rest);
    CtrParts(e, key, counter, from, rest);
    assert rest[..n] == input[offset..offset + n] && rest[n..] == input[offset + n..];
    assert goal[offset..][..n] == goal[offset..offset + n] && goal[offset..][n..] == goal[offset + n..];
    assert goal[..offset + n] == goal[..offset] + goal[offset..offset + n];
  }

  /** The keystream loop shared by crypto_aes_ctr, crypto_aes_gcm_seal and crypto_aes_gcm_open. */
  method Crypt(e: Cipher, key: seq<u8>, start: Block, from: nat, input: seq<u8>, out: array<u8>)
    requires from <= BLOCK && out.Length == |input|
    modifies out
    ensures out[..] == Ctr(e, key, start, from, input)
  {
    hide XorBytes, Incremented, Ctr;
    var counter := new u8[BLOCK](i requires 0 <= i < BLOCK => start[i]);
    var offset := 0;
    ghost var current: Block, goal := start, Ctr(e, key, start, from, input);
    assert counter[..] == current;
    assert input[0..] == input && goal[0..] == goal;
    while offset < |input|
      invariant 0 <= offset <= |input| && counter.Length == BLOCK && fresh(counter) && counter[..] == current
      invariant out[..offset] == goal[..offset] && goal[offset..] == Ctr(e, key, current, from, input[offset..])
    {
      CtrChunk(e, key, current, from, input, offset, goal);
      var stream := e(key, counter[..]);
      var chunk := if |input| - offset > BLOCK then BLOCK else |input| - offset;
      XorChunk(input, offset, chunk, stream, out);
      IncrementCounter(counter, from);
      current := Next(current, from);
      offset := offset + chunk;
    }
    assert out[..offset] == out[..] && goal[..offset] == goal;
  }

  /** crypto_aes_ctr: counts in all 16 bytes of the counter block. */
  method AesCtr(e: Cipher, key: seq<u8>, counter: Block, input: seq<u8>, out: array<u8>) returns (ok: bool)
    requires out.Length == |input|
    modifies out
    ensures ok <==> KeyOk(key)
    ensures out[..] == if ok then Ctr(e, key, counter, 0, input) else old(out[..])
  {
    if !KeyOk(key) { return false; }
    Crypt(e, key, counter, 0, input, out);
    ok := true;
  }

  // ---------------------------------------------------------------------------------------------
  // The tag
  // ---------------------------------------------------------------------------------------------

  const MAX_BYTES: nat := 0x1FFF_FFFF_FFFF_FFFF

  /** crypto_aes_store_u64_be. */
  function Be64(x: nat): (s: seq<u8>)
    ensures |s| == 8
  {
    BeBytes(x, 8)
  }

  method StoreU64(value: nat) returns (out: array<u8>)
    ensures fresh(out) && out.Length == 8 && out[..] == Be64(value)
  {
    hide BeBytes;
    out := new u8[8];
    var rest: nat, i := value, 8;
    ghost var goal := Be64(value);
    assert goal[..8] == goal;
    while i > 0
      invariant 0 <= i <= 8
      invariant goal[..i] == BeBytes(rest, i) && forall k :: i <= k < 8 ==> out[k] == goal[k]
    {
      BeBytesStep(rest, i);
      assert goal[i - 1] == goal[..i][i - 1] && goal[..i - 1] == goal[..i][..i - 1];
      i := i - 1;
      out[i] := rest % 256;
      rest := rest / 256;
    }
    assert out[..] == goal;
  }

  function Zero(): Block { seq(BLOCK, _ => 0) }

  /** The pre-counter block for a nonce of 96 bits. */
  function PreCounter(nonce: seq<u8>): Block
    requires |nonce| == 12
  {
    nonce + [0, 0, 0, 1]
  }

  function FirstCounter(nonce: seq<u8>): Block
    requires |nonce| == 12
  {
    Next(PreCounter(nonce), 12)
  }

  /** What is hashed: the additional data and the ciphertext, each padded, and their lengths in bits. */
  function Hashed(aad: seq<u8>, text: seq<u8>): seq<nat> {
    Blocks(aad) + Blocks(text) + [Poly(Be64(8 * |aad|) + Be64(8 * |text|))]
  }

  /** The tag of section 7.1 of NIST SP 800-38D, as a polynomial. */
  function TagPoly(e: Cipher, key: seq<u8>, nonce: seq<u8>, aad: seq<u8>, text: seq<u8>): nat
    requires |nonce| == 12
  {
    Xor(Poly(e(key, PreCounter(nonce))), Ghash(0, Poly(e(key, Zero())), Hashed(aad, text)))
  }

  // What the tag is, by position in the input

  /** The blocks of data that stand from block i of the hashed input on: 16 bytes each, zeros beyond the end. */
  ghost predicate Holds(bs: seq<seq<u8>>, i: nat, data: seq<u8>) {
    && i + (|data| + 15) / 16 <= |bs|
    && forall j, k {:trigger bs[j][k]} :: i <= j < i + (|data| + 15) / 16 && 0 <= k < |bs[j]| ==>
         bs[j][k] == if 16 * (j - i) + k < |data| then data[16 * (j - i) + k] else 0
  }

  /** What is hashed: the additional data, the text, and a block with both lengths in bits. */
  ghost predicate HashInput(bs: seq<seq<u8>>, aad: seq<u8>, text: seq<u8>) {
    var m, n := (|aad| + 15) / 16, (|text| + 15) / 16;
    && |bs| == m + n + 1 && (forall i :: 0 <= i < |bs| ==> |bs[i]| == 16)
    && Holds(bs, 0, aad) && Holds(bs, m, text)
    && Be(bs[m + n][..8]) == 8 * |aad| && Be(bs[m + n][8..]) == 8 * |text|
  }

  /** Block j times h^(|bs| - j), added up from j = i on. */
  function PowerSum(h: nat, bs: seq<seq<u8>>, i: nat): nat
    requires i <= |bs|
    decreases |bs| - i
  {
    if i == |bs| then 0 else Xor(Mult(Poly(bs[i]), Power(h, |bs| - i)), PowerSum(h, bs, i + 1))
  }

  /** The tag is the encryption of nonce and 1, plus the sum of the hashed blocks times powers of the encryption of zero. */
  ghost predicate IsTag(e: Cipher, key: seq<u8>, nonce: seq<u8>, aad: seq<u8>, text: seq<u8>, tag: Block)
    requires |nonce| == 12
  {
    exists bs :: HashInput(bs, aad, text)
      && Xor(Poly(tag), Poly(e(key, nonce + [0, 0, 0, 1]))) == PowerSum(Poly(e(key, seq(16, _ => 0))), bs, 0)
  }

  function Cut(data: seq<u8>): (bs: seq<seq<u8>>)
    ensures |bs| == (|data| + 15) / 16 && Holds(bs, 0, data) && forall i :: 0 <= i < |bs| ==> |bs[i]| == 16
  {
    seq((|data| + 15) / 16, i requires i >= 0 => CutBlock(data, i))
  }

  function CutBlock(data: seq<u8>, i: nat): (b: seq<u8>)
    ensures |b| == 16 && forall k :: 0 <= k < 16 ==> b[k] == if 16 * i + k < |data| then data[16 * i + k] else 0
  {
    seq(16, k requires 0 <= k < 16 => if 16 * i + k < |data| then data[16 * i + k] else 0)
  }

  lemma {:induction false} BlocksAreCut(data: seq<u8>)
    ensures |Blocks(data)| == |Cut(data)|
    ensures forall i :: 0 <= i < |Blocks(data)| ==> Blocks(data)[i] == Poly(Cut(data)[i])
    decreases |data|
  {
    hide Poly;
    if |data| == 0 {
    } else if |data| < BLOCK {
      assert CutBlock(data, 0) == data + seq(BLOCK - |data|, _ => 0);
    } else {
      var rest := data[BLOCK..];
      BlocksAreCut(rest);
      assert CutBlock(data, 0) == data[..BLOCK];
      assert |Cut(data)| == |Cut(rest)| + 1;
      forall i | 0 <= i < |Cut(rest)| ensures Cut(data)[i + 1] == Cut(rest)[i] {
        assert CutBlock(data, i + 1) == CutBlock(rest, i);
      }
    }
  }

  function Input(aad: seq<u8>, text: seq<u8>): seq<seq<u8>> {
    Cut(aad) + Cut(text) + [Be64(8 * |aad|) + Be64(8 * |text|)]
  }

  lemma InputIs(aad: seq<u8>, text: seq<u8>)
    requires |aad| <= MAX_BYTES && |text| <= MAX_BYTES
    ensures HashInput(Input(aad, text), aad, text)
  {
    hide Be, BeBytes, Cut;
    var bs, m, n := Input(aad, text), |Cut(aad)|, |Cut(text)|;
    LengthBack(|aad|);
    LengthBack(|text|);
    var last := bs[m + n];
    assert last[..8] == Be64(8 * |aad|) && last[8..] == Be64(8 * |text|);
    assert forall j :: 0 <= j < m ==> bs[j] == Cut(aad)[j];
    assert forall j :: m <= j < m + n ==> bs[j] == Cut(text)[j - m];
  }

  lemma LengthBack(n: nat)
    requires n <= MAX_BYTES
    ensures Be(Be64(8 * n)) == 8 * n
  {
    hide Be, BeBytes, Pow256;
    assert Pow256(8) == 0x1_0000_0000_0000_0000 by { EightBytes(); }
    BeBytesBack(8 * n, 8);
  }

  /** There is only one such input. */
  lemma InputIsUnique(bs: seq<seq<u8>>, cs: seq<seq<u8>>, aad: seq<u8>, text: seq<u8>)
    requires HashInput(bs, aad, text) && HashInput(cs, aad, text)
    ensures bs == cs
  {
    hide Be;
    var m, n := (|aad| + 15) / 16, (|text| + 15) / 16;
    forall i | 0 <= i < m + n ensures bs[i] == cs[i] {
      forall k | 0 <= k < 16 ensures bs[i][k] == cs[i][k] { }
    }
    var b, c := bs[m + n], cs[m + n];
    BeInjective(b[..8], c[..8]);
    BeInjective(b[8..], c[8..]);
    assert b == b[..8] + b[8..] && c == c[..8] + c[8..];
  }

  lemma {:induction false} PowerSumIs(h: nat, bs: seq<seq<u8>>, ps: seq<nat>, i: nat)
    requires |ps| == |bs| && i <= |bs| && forall j :: 0 <= j < |bs| ==> ps[j] == Poly(bs[j])
    ensures PowerSum(h, bs, i) == Evaluate(h, ps[i..])
    decreases |bs| - i
  {
    hide Poly, Mult, Xor, Power;
    if i < |bs| {
      PowerSumIs(h, bs, ps, i + 1);
      assert ps[i..][1..] == ps[i + 1..];
    }
  }

  lemma HashedIsInput(aad: seq<u8>, text: seq<u8>)
    ensures var bs, ps := Input(aad, text), Hashed(aad, text);
      |bs| == |ps| && forall j :: 0 <= j < |bs| ==> ps[j] == Poly(bs[j])
  {
    hide Poly, Blocks, Cut, Be64;
    BlocksAreCut(aad);
    BlocksAreCut(text);
  }

  /** The tag polynomial in closed form. */
  lemma TagIs(e: Cipher, key: seq<u8>, nonce: seq<u8>, aad: seq<u8>, text: seq<u8>, tag: Block)
    requires |nonce| == 12 && |aad| <= MAX_BYTES && |text| <= MAX_BYTES
    ensures Poly(tag) == TagPoly(e, key, nonce, aad, text) <==> IsTag(e, key, nonce, aad, text, tag)
  {
    hide Poly, Mult, Xor, Ghash, Hashed, Input, HashInput, PowerSum, Evaluate, Power, Order;
    var h, s := Poly(e(key, Zero())), Poly(e(key, PreCounter(nonce)));
    var bs, ps := Input(aad, text), Hashed(aad, text);
    InputIs(aad, text);
    HashedIsInput(aad, text);
    forall j | 0 <= j < |ps| ensures ps[j] < Order() { BlockIsSmall(bs, aad, text, j); }
    ZeroIsSmall();
    GhashEvaluates(0, h, ps);
    MultZero(Power(h, |ps|));
    XorZero(Evaluate(h, ps));
    PowerSumIs(h, bs, ps, 0);
    assert ps[0..] == ps;
    var g := Ghash(0, h, ps);
    assert PowerSum(h, bs, 0) == g;
    XorComm(s, g);
    XorCancel(g, s);
    XorCancel(Poly(tag), s);
    if IsTag(e, key, nonce, aad, text, tag) {
      var cs :| HashInput(cs, aad, text) && Xor(Poly(tag), s) == PowerSum(h, cs, 0);
      InputIsUnique(bs, cs, aad, text);
    }
  }

  lemma ZeroIsSmall()
    ensures 0 < Order()
  {
  }

  lemma BlockIsSmall(bs: seq<seq<u8>>, aad: seq<u8>, text: seq<u8>, j: nat)
    requires HashInput(bs, aad, text) && j < |bs|
    ensures Poly(bs[j]) < Order()
  {
    hide Poly, Pow2;
    PolyBound(bs[j]);
  }

  /** crypto_aes_gcm_build_tag. */
  method BuildTag(e: Cipher, key: seq<u8>, nonce: seq<u8>, aad: seq<u8>, text: seq<u8>) returns (tag: Option<Block>)
    requires |nonce| == 12
    ensures tag.Some? <==> |aad| <= MAX_BYTES && |text| <= MAX_BYTES
    ensures tag.Some? ==> Poly(tag.value) == TagPoly(e, key, nonce, aad, text) && IsTag(e, key, nonce, aad, text, tag.value)
  {
    hide Poly, Mult, Xor, Ghash, Blocks, Be64, XorBytes, Order, Pow2, IsTag;
    if |aad| > MAX_BYTES || |text| > MAX_BYTES { return None; }
    var h := e(key, Zero());
    var y := new u8[BLOCK](_ => 0);
    PolyZero(y[..]);
    GhashUpdate(y, h, aad);
    GhashUpdate(y, h, text);
    var low := StoreU64(8 * |aad|);
    var high := StoreU64(8 * |text|);
    var lengths := low[..] + high[..];
    PolyXor(y[..], lengths);
    ghost var before := Poly(y[..]);
    XorBlock(y, lengths);
    var block := Multiply(y[..], h);
    assert Poly(block[..]) == Ghash(before, Poly(h), [Poly(lengths)]) by { GhashOne(before, Poly(h), Poly(lengths)); }
    GhashConcat(0, Poly(h), Blocks(aad), Blocks(text));
    GhashConcat(0, Poly(h), Blocks(aad) + Blocks(text), [Poly(lengths)]);
    var s := e(key, PreCounter(nonce));
    PolyXor(block[..], s);
    XorComm(Poly(block[..]), Poly(s));
    XorBlock(block, s);
    tag := Some(block[..]);
    TagIs(e, key, nonce, aad, text, block[..]);
  }

  lemma GhashOne(y: nat, h: nat, b: nat)
    ensures Ghash(y, h, [b]) == Mult(Xor(y, b), h)
  {
    hide Mult, Xor;
    assert [b][1..] == [];
  }

  // ---------------------------------------------------------------------------------------------
  // Comparison
  // ---------------------------------------------------------------------------------------------

  /** Bitwise or. */
  function Or(a: nat, b: nat): nat
    decreases a + b
  {
    if a == 0 then b else if b == 0 then a else (if a % 2 + b % 2 > 0 then 1 else 0) + 2 * Or(a / 2, b / 2)
  }

  lemma {:induction false} OrZero(a: nat, b: nat)
    ensures Or(a, b) == 0 <==> a == 0 && b == 0
    decreases a + b
  {
    if a > 0 && b > 0 { OrZero(a / 2, b / 2); }
  }

  lemma XorByteZero(a: u8, b: u8)
    ensures XorByte(a, b) == 0 <==> a == b
  {
    XorSelf(a);
    XorCancel(a, b);
    XorZero(b);
  }

  /** crypto_aes_constant_time_equal: all bytes are looked at, and the answer is equality. */
  method ConstantTimeEqual(a: seq<u8>, b: seq<u8>) returns (same: bool)
    requires |a| == |b|
    ensures same <==> a == b
  {
    hide Or, XorByte;
    var diff := 0;
    for i := 0 to |a|
      invariant diff >= 0 && (diff == 0 <==> a[..i] == b[..i])
    {
      OrZero(diff, XorByte(a[i], b[i]));
      XorByteZero(a[i], b[i]);
      assert a[..i + 1] == a[..i] + [a[i]] && b[..i + 1] == b[..i] + [b[i]];
      diff := Or(diff, XorByte(a[i], b[i]));
    }
    assert a[..|a|] == a && b[..|a|] == b;
    same := diff == 0;
  }

  lemma {:induction false} RevInjective(a: nat, b: nat, n: nat)
    requires a < Pow2(n) && b < Pow2(n) && Rev(a, n) == Rev(b, n)
    ensures a == b
    decreases n
  {
    if n > 0 {
      RevBound(a / 2, n - 1);
      RevBound(b / 2, n - 1);
      UpOfOne(n - 1);
      RevInjective(a / 2, b / 2, n - 1);
    }
  }

  /** Different blocks are different polynomials. */
  lemma {:induction false} PolyInjective(s: seq<u8>, t: seq<u8>)
    requires |s| == |t| && Poly(s) == Poly(t)
    ensures s == t
  {
    hide Rev, Up, Pow2, Down, Poly;
    if s != [] {
      assert s == [s[0]] + s[1..] && t == [t[0]] + t[1..];
      PolyCons(s[0], s[1..]);
      PolyCons(t[0], t[1..]);
      RevBound(s[0], 8);
      RevBound(t[0], 8);
      DownUp(Rev(s[0], 8), Poly(s[1..]), 8);
      DownUp(Rev(t[0], 8), Poly(t[1..]), 8);
      PolyInjective(s[1..], t[1..]);
      ByteBound();
      RevInjective(s[0], t[0], 8);
    }
  }

  // ---------------------------------------------------------------------------------------------
  // Authenticated encryption
  // ---------------------------------------------------------------------------------------------

  /** crypto_aes_gcm_seal. */
  method Seal(e: Cipher, key: seq<u8>, nonce: seq<u8>, aad: seq<u8>, plaintext: seq<u8>, out: array<u8>)
    returns (tag: Option<Block>)
    requires |nonce| == 12 && out.Length == |plaintext|
    modifies out
    ensures tag.Some? <==> KeyOk(key) && |aad| <= MAX_BYTES && |plaintext| <= MAX_BYTES
    ensures tag.Some? ==> Sealed(e, key, nonce, aad, plaintext, out[..], tag.value)
    ensures tag.Some? ==> IsTag(e, key, nonce, aad, out[..], tag.value)
  {
    hide Ctr, TagPoly, IsTag;
    if !KeyOk(key) { return None; }
    Crypt(e, key, FirstCounter(nonce), 12, plaintext, out);
    tag := BuildTag(e, key, nonce, aad, out[..]);
  }

  /** The ciphertext is the plaintext in counter mode, and the tag is the tag of the ciphertext. */
  ghost predicate Sealed(e: Cipher, key: seq<u8>, nonce: seq<u8>, aad: seq<u8>, plaintext: seq<u8>, ciphertext: seq<u8>, tag: Block)
    requires |nonce| == 12
  {
    ciphertext == Ctr(e, key, FirstCounter(nonce), 12, plaintext) && Poly(tag) == TagPoly(e, key, nonce, aad, ciphertext)
  }

  /** crypto_aes_gcm_open: succeeds exactly for the tag of the data, and writes nothing otherwise. */
  method Open(e: Cipher, key: seq<u8>, nonce: seq<u8>, aad: seq<u8>, ciphertext: seq<u8>, tag: Block, out: array<u8>)
    returns (ok: bool)
    requires |nonce| == 12 && out.Length == |ciphertext|
    modifies out
    ensures ok <==> Opens(e, key, nonce, aad, ciphertext, tag)
    ensures ok <==> KeyOk(key) && |aad| <= MAX_BYTES && |ciphertext| <= MAX_BYTES && IsTag(e, key, nonce, aad, ciphertext, tag)
    ensures out[..] == if ok then Ctr(e, key, FirstCounter(nonce), 12, ciphertext) else old(out[..])
  {
    hide Ctr, TagPoly, Poly, IsTag;
    if !KeyOk(key) { return false; }
    var computed := BuildTag(e, key, nonce, aad, ciphertext);
    if computed.None? { return false; }
    TagIs(e, key, nonce, aad, ciphertext, tag);
    if Poly(computed.value) == Poly(tag) { PolyInjective(computed.value, tag); }
    ok := ConstantTimeEqual(computed.value, tag);
    if !ok { return; }
    Crypt(e, key, FirstCounter(nonce), 12, ciphertext, out);
  }

  ghost predicate Opens(e: Cipher, key: seq<u8>, nonce: seq<u8>, aad: seq<u8>, ciphertext: seq<u8>, tag: Block)
    requires |nonce| == 12
  {
    KeyOk(key) && |aad| <= MAX_BYTES && |ciphertext| <= MAX_BYTES && Poly(tag) == TagPoly(e, key, nonce, aad, ciphertext)
  }

  /** Opening what was sealed, with the same key, nonce and additional data, succeeds and gives the plaintext; with any
      other tag it fails. */
  lemma OpenSealed(e: Cipher, key: seq<u8>, nonce: seq<u8>, aad: seq<u8>, plaintext: seq<u8>, ciphertext: seq<u8>, tag: Block, other: Block)
    requires |nonce| == 12 && KeyOk(key) && |aad| <= MAX_BYTES && |plaintext| <= MAX_BYTES
    requires Sealed(e, key, nonce, aad, plaintext, ciphertext, tag)
    ensures Opens(e, key, nonce, aad, ciphertext, tag)
    ensures Ctr(e, key, FirstCounter(nonce), 12, ciphertext) == plaintext
    ensures Opens(e, key, nonce, aad, ciphertext, other) ==> other == tag
  {
    hide Ctr, TagPoly, Poly;
    CtrTwice(e, key, FirstCounter(nonce), 12, plaintext);
    if Opens(e, key, nonce, aad, ciphertext, other) { PolyInjective(other, tag); }
  }
}
