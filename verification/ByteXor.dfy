/** The exclusive or of bytes and byte strings. */
module ByteXor {
  import opened Words
  import opened Gf2Poly

  lemma ByteBound()
    ensures Pow2(8) == 256 && Pow2(7) == 128
  {
    assert Pow2(4) == 16;
  }

  function XorByte(a: u8, b: u8): (c: u8) {
    ByteBound();
    XorBound(a, b, 8);
    Xor(a, b)
  }

  lemma XorByteIs(a: u8, b: u8)
    ensures XorByte(a, b) == Xor(a, b)
  {
  }

  function XorBytes(s: seq<u8>, t: seq<u8>): (r: seq<u8>)
    requires |s| == |t|
    ensures |r| == |s| && forall k :: 0 <= k < |s| ==> r[k] == XorByte(s[k], t[k])
  {
    if s == [] then [] else [XorByte(s[0], t[0])] + XorBytes(s[1..], t[1..])
  }
}
