/** The primitives of src/artifact.c: little-endian integers, length-prefixed strings and counted repetition, as
    byte sequences and as reads at an offset. */
module ByteCodec {
  import opened Words
  import opened Parsing

  type Reader<!T> = (seq<u8>, nat) -> Parse<T>

  const MAX_STRING_BYTES: int := 0x1000_0000

  /** d and e are the same up to j. */
  predicate Agree(d: seq<u8>, e: seq<u8>, j: nat) {
    j <= |d| && j <= |e| && d[..j] == e[..j]
  }

  lemma AgreeSlice(d: seq<u8>, e: seq<u8>, j: nat, lo: nat, hi: nat)
    requires Agree(d, e, j) && lo <= hi <= j
    ensures Agree(d, e, hi) && d[lo..hi] == e[lo..hi]
  {
    assert d[..j][lo..hi] == d[lo..hi] && e[..j][lo..hi] == e[lo..hi];
    assert d[..j][..hi] == d[..hi] && e[..j][..hi] == e[..hi];
  }

  lemma AgreeBelow(d: seq<u8>, e: seq<u8>, j: nat, k: nat)
    requires Agree(d, e, j) && k <= j
    ensures Agree(d, e, k)
  {
    AgreeSlice(d, e, j, 0, k);
  }

  /** A reader that stays inside the data and looks at nothing beyond the offset it returns. */
  ghost predicate IsLocal<T(!new)>(read: Reader<T>) {
    forall d, e, i: nat :: LocalAt(read, d, e, i)
  }

  ghost predicate LocalAt<T(!new)>(read: Reader<T>, d: seq<u8>, e: seq<u8>, i: nat) {
    LocalRead(d, e, i, read(d, i), read(e, i))
  }

  /** The locality of one read: it stays inside d, and data that agrees up to its end gives the same result. */
  ghost predicate LocalRead<T>(d: seq<u8>, e: seq<u8>, i: nat, onD: Parse<T>, onE: Parse<T>) {
    onD.Ok? ==> i <= onD.next <= |d| && (Agree(d, e, onD.next) ==> onE == onD)
  }

  // ---------------------------------------------------------------------------------------------
  // Raw bytes and integers
  // ---------------------------------------------------------------------------------------------

  function ReadRaw(d: seq<u8>, i: nat, n: nat): (r: Parse<seq<u8>>)
    ensures r.Ok? ==> i <= r.next <= |d|
  {
    if i + n <= |d| then Ok(d[i..i + n], i + n) else Fail
  }

  /** w bytes, least significant first. */
  function Le(x: nat, w: nat): (s: seq<u8>)
    ensures |s| == w
    decreases w
  {
    if w == 0 then [] else [x % 256] + Le(x / 256, w - 1)
  }

  function FromLe(s: seq<u8>): nat {
    if |s| == 0 then 0 else s[0] + 256 * FromLe(s[1..])
  }

  lemma {:induction false} LeRoundTrip(x: nat, w: nat)
    requires x < Pow256(w)
    ensures FromLe(Le(x, w)) == x
    decreases w
  {
    if w > 0 {
      assert Le(x, w)[1..] == Le(x / 256, w - 1);
      LeRoundTrip(x / 256, w - 1);
    }
  }

  lemma {:induction false} FromLeBound(s: seq<u8>)
    ensures FromLe(s) < Pow256(|s|)
  {
    if |s| > 0 { FromLeBound(s[1..]); }
  }

  function ReadInt(d: seq<u8>, i: nat, w: nat): (r: Parse<nat>)
    ensures r.Ok? ==> i <= r.next <= |d| && r.value < Pow256(w)
  {
    var (s, j) :- ReadRaw(d, i, w);
    FromLeBound(s);
    Ok(FromLe(s), j)
  }

  lemma ReadIntLocal(d: seq<u8>, e: seq<u8>, i: nat, w: nat)
    requires ReadInt(d, i, w).Ok? && Agree(d, e, ReadInt(d, i, w).next)
    ensures ReadInt(e, i, w) == ReadInt(d, i, w)
  {
    AgreeSlice(d, e, i + w, i, i + w);
  }

  lemma ReadIntAt(d: seq<u8>, i: nat, x: nat, w: nat)
    requires x < Pow256(w) && At(d, i, Le(x, w))
    ensures ReadInt(d, i, w) == Ok(x, i + w)
  {
    LeRoundTrip(x, w);
  }

  /** A run of integers of the given widths. */
  function ReadInts(d: seq<u8>, i: nat, ws: seq<nat>): (r: Parse<seq<nat>>)
    ensures r.Ok? ==> i <= r.next <= |d| && Fit(r.value, ws)
    decreases |ws|
  {
    if ws == [] then (if i <= |d| then Ok([], i) else Fail) else
      var (x, j) :- ReadInt(d, i, ws[0]);
      var (xs, k) :- ReadInts(d, j, ws[1..]);
      Ok([x] + xs, k)
  }

  function WriteInts(xs: seq<nat>, ws: seq<nat>): seq<u8>
    requires |xs| == |ws|
  {
    if ws == [] then [] else Le(xs[0], ws[0]) + WriteInts(xs[1..], ws[1..])
  }

  predicate Fit(xs: seq<nat>, ws: seq<nat>) {
    |xs| == |ws| && forall k :: 0 <= k < |xs| ==> xs[k] < Pow256(ws[k])
  }

  lemma {:induction false} ReadIntsLocal(d: seq<u8>, e: seq<u8>, i: nat, ws: seq<nat>)
    requires ReadInts(d, i, ws).Ok? && Agree(d, e, ReadInts(d, i, ws).next)
    ensures ReadInts(e, i, ws) == ReadInts(d, i, ws)
    decreases |ws|
  {
    if ws != [] {
      var r := ReadInt(d, i, ws[0]);
      AgreeSlice(d, e, ReadInts(d, i, ws).next, i, r.next);
      ReadIntLocal(d, e, i, ws[0]);
      ReadIntsLocal(d, e, r.next, ws[1..]);
    }
  }

  lemma {:induction false} ReadIntsAt(d: seq<u8>, i: nat, xs: seq<nat>, ws: seq<nat>)
    requires Fit(xs, ws) && At(d, i, WriteInts(xs, ws))
    ensures ReadInts(d, i, ws) == Ok(xs, i + |WriteInts(xs, ws)|)
    decreases |ws|
  {
    if ws != [] {
      AtConcat(d, i, Le(xs[0], ws[0]), WriteInts(xs[1..], ws[1..]));
      ReadIntAt(d, i, xs[0], ws[0]);
      ReadIntsAt(d, i + ws[0], xs[1..], ws[1..]);
      assert xs == [xs[0]] + xs[1..];
    }
  }

  // ---------------------------------------------------------------------------------------------
  // Strings
  // ---------------------------------------------------------------------------------------------

  function ReadString(d: seq<u8>, i: nat): (r: Parse<seq<u8>>)
    ensures r.Ok? ==> i <= r.next <= |d|
  {
    var (len, j) :- ReadInt(d, i, 4);
    if len > MAX_STRING_BYTES then Fail else ReadRaw(d, j, len)
  }

  function WriteString(s: seq<u8>): seq<u8> {
    Le(|s|, 4) + s
  }

  lemma ReadStringLocal(d: seq<u8>, e: seq<u8>, i: nat)
    requires ReadString(d, i).Ok? && Agree(d, e, ReadString(d, i).next)
    ensures ReadString(e, i) == ReadString(d, i)
  {
    var r, n := ReadInt(d, i, 4), ReadString(d, i).next;
    AgreeSlice(d, e, n, i, r.next);
    ReadIntLocal(d, e, i, 4);
    AgreeSlice(d, e, n, r.next, n);
  }

  lemma StringIsLocal()
    ensures IsLocal(ReadString)
  {
    forall d, e, i: nat
      ensures LocalAt(ReadString, d, e, i)
    {
      var r := ReadString(d, i);
      if r.Ok? && Agree(d, e, r.next) { ReadStringLocal(d, e, i); }
    }
  }

  lemma Pow256Four()
    ensures Pow256(4) == 0x1_0000_0000 && Pow256(1) == 0x100 && Pow256(8) == 0x1_0000_0000_0000_0000
  {
    assert Pow256(2) == 0x1_0000;
    assert Pow256(6) == 0x1_0000_0000_0000;
  }

  lemma ReadStringAt(d: seq<u8>, i: nat, s: seq<u8>)
    requires |s| <= 0xFFFF_FFFF && At(d, i, WriteString(s))
    ensures ReadString(d, i) == Expect(|s| <= MAX_STRING_BYTES, s, i + |WriteString(s)|)
  {
    hide Le, ReadInt, Pow256;
    Pow256Four();
    AtConcat(d, i, Le(|s|, 4), s);
    ReadIntAt(d, i, |s|, 4);
  }

  // ---------------------------------------------------------------------------------------------
  // Repetition
  // ---------------------------------------------------------------------------------------------

  function ReadMany<T>(d: seq<u8>, i: nat, n: nat, read: Reader<T>): (r: Parse<seq<T>>)
    ensures r.Ok? ==> |r.value| == n
    decreases n
  {
    if n == 0 then Ok([], i) else
      var (x, j) :- read(d, i);
      var (xs, k) :- ReadMany(d, j, n - 1, read);
      Ok([x] + xs, k)
  }

  lemma {:induction false} ReadManyLocal<T(!new)>(d: seq<u8>, e: seq<u8>, i: nat, n: nat, read: Reader<T>)
    requires IsLocal(read) && i <= |d| && ReadMany(d, i, n, read).Ok?
    ensures i <= ReadMany(d, i, n, read).next <= |d|
    ensures Agree(d, e, ReadMany(d, i, n, read).next) ==> ReadMany(e, i, n, read) == ReadMany(d, i, n, read)
    decreases n
  {
    if n > 0 {
      assert LocalAt(read, d, e, i);
      var j, k := read(d, i).next, ReadMany(d, i, n, read).next;
      ReadManyLocal(d, e, j, n - 1, read);
      if Agree(d, e, k) { AgreeSlice(d, e, k, i, j); }
    }
  }

  function WriteMany<T>(xs: seq<T>, write: T -> seq<u8>): seq<u8> {
    if xs == [] then [] else write(xs[0]) + WriteMany(xs[1..], write)
  }

  /** Wherever s stands, reading it gives y and stops right after it when ok, and fails when not ok. */
  ghost predicate Decodes<U>(read: Reader<U>, s: seq<u8>, ok: bool, y: U) {
    forall d, i: nat :: DecodesAt(read, d, i, s, ok, y)
  }

  ghost predicate DecodesAt<U>(read: Reader<U>, d: seq<u8>, i: nat, s: seq<u8>, ok: bool, y: U) {
    At(d, i, s) ==> read(d, i) == Expect(ok, y, i + |s|)
  }

  predicate All<T>(xs: seq<T>, p: T -> bool) {
    forall k :: 0 <= k < |xs| ==> p(xs[k])
  }

  function Map<T, U>(xs: seq<T>, f: T -> U): (ys: seq<U>)
    ensures |ys| == |xs| && forall k :: 0 <= k < |xs| ==> ys[k] == f(xs[k])
  {
    if xs == [] then [] else [f(xs[0])] + Map(xs[1..], f)
  }

  /** Reading back a run of items: all of them, or failure as soon as one is over a limit. */
  lemma {:induction false} ReadManyAt<T, U>(d: seq<u8>, i: nat, xs: seq<T>, read: Reader<U>, write: T -> seq<u8>, fits: T -> bool, clean: T -> U)
    requires forall k :: 0 <= k < |xs| ==> Decodes(read, write(xs[k]), fits(xs[k]), clean(xs[k]))
    requires At(d, i, WriteMany(xs, write))
    ensures ReadMany(d, i, |xs|, read) == Expect(All(xs, fits), Map(xs, clean), i + |WriteMany(xs, write)|)
    decreases |xs|
  {
    if xs != [] {
      AtConcat(d, i, write(xs[0]), WriteMany(xs[1..], write));
      assert Decodes(read, write(xs[0]), fits(xs[0]), clean(xs[0]));
      assert DecodesAt(read, d, i, write(xs[0]), fits(xs[0]), clean(xs[0]));
      if fits(xs[0]) {
        ReadManyAt(d, i + |write(xs[0])|, xs[1..], read, write, fits, clean);
        assert All(xs, fits) <==> All(xs[1..], fits) by {
          if All(xs[1..], fits) {
            forall k | 0 <= k < |xs| ensures fits(xs[k]) { if k > 0 { assert fits(xs[1..][k - 1]); } }
          }
        }
      }
    }
  }
}
