/** Numbers as bytes, most significant first. */
module BigEndian {
  import opened Words

  /** The number a byte string stands for. */
  function Be(c: seq<u8>): nat {
    if c == [] then 0 else 256 * Be(c[..|c| - 1]) + c[|c| - 1]
  }

  function BeBytes(x: nat, n: nat): (s: seq<u8>)
    ensures |s| == n
    decreases n
  {
    if n == 0 then [] else BeBytes(x / 256, n - 1) + [x % 256]
  }

  lemma BeBytesStep(x: nat, n: nat)
    requires n > 0
    ensures BeBytes(x, n)[n - 1] == x % 256 && BeBytes(x, n)[..n - 1] == BeBytes(x / 256, n - 1)
  {
  }

  /** The bytes stand for the number. */
  lemma {:induction false} BeBytesBack(x: nat, n: nat)
    requires x < Pow256(n)
    ensures Be(BeBytes(x, n)) == x
    decreases n
  {
    if n > 0 {
      BeBytesBack(x / 256, n - 1);
      assert BeBytes(x, n)[..n - 1] == BeBytes(x / 256, n - 1);
    }
  }

  lemma {:induction false} BeInjective(s: seq<u8>, t: seq<u8>)
    requires |s| == |t| && Be(s) == Be(t)
    ensures s == t
  {
    if s != [] {
      var n := |s| - 1;
      BeInjective(s[..n], t[..n]);
      assert s == s[..n] + [s[n]] && t == t[..n] + [t[n]];
    }
  }

  lemma EightBytes()
    ensures Pow256(8) == 0x1_0000_0000_0000_0000
  {
    assert Pow256(4) == 0x1_0000_0000;
  }
}
