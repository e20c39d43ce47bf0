/** Outcomes of a parser that works at an offset, and what stands at an offset. */
module Parsing {

  /** The outcome of a read: failure, or a value and the offset after it. */
  datatype Parse<T> = Fail | Ok(value: T, next: nat) {
    predicate IsFailure() { Fail? }
    function PropagateFailure<U>(): Parse<U> requires Fail? { Parse.Fail }
    function Extract(): (T, nat) requires Ok? { (value, next) }
  }

  /** Success with v, or failure. */
  function Expect<T>(ok: bool, v: T, next: nat): Parse<T> {
    if ok then Ok(v, next) else Fail
  }

  /** s stands in d at offset i. */
  predicate At<T(==)>(d: seq<T>, i: nat, s: seq<T>) {
    i + |s| <= |d| && d[i..i + |s|] == s
  }

  lemma AtConcat<T>(d: seq<T>, i: nat, s: seq<T>, t: seq<T>)
    ensures At(d, i, s + t) <==> At(d, i, s) && At(d, i + |s|, t)
  {
    if i + |s| + |t| <= |d| {
      var w := d[i..i + |s| + |t|];
      assert w[..|s|] == d[i..i + |s|] && w[|s|..] == d[i + |s|..i + |s| + |t|];
      assert (s + t)[..|s|] == s && (s + t)[|s|..] == t;
      assert w == w[..|s|] + w[|s|..];
    }
  }

  /** What a run of items gives after the first ones have been read. */
  function Prepend<T>(xs: seq<T>, p: Parse<seq<T>>): Parse<seq<T>> {
    if p.Ok? then Ok(xs + p.value, p.next) else Fail
  }

  lemma PrependTwice<T>(xs: seq<T>, ys: seq<T>, p: Parse<seq<T>>)
    ensures Prepend(xs, Prepend(ys, p)) == Prepend(xs + ys, p)
  {
    if p.Ok? { assert xs + (ys + p.value) == xs + ys + p.value; }
  }

  lemma Whole<T>(p: Parse<seq<T>>)
    ensures Prepend([], p) == p
  {
    if p.Ok? { assert [] + p.value == p.value; }
  }
}
