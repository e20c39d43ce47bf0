/** The object graph a cycle collector sees: containers, the values in their slots, and outside references. */
module RefGraph {
  import opened Sequences

  /** A slot value: a reference to a tracked container, or anything else. */
  datatype Value<N> = Plain | Container(obj: N)

  type Graph<N> = map<N, seq<Value<N>>>

  /** How many of the slots refer to t. */
  function Mult<N(==)>(slots: seq<Value<N>>, t: N): nat {
    if |slots| == 0 then 0
    else Mult(slots[..|slots| - 1], t) + if slots[|slots| - 1] == Container(t) then 1 else 0
  }

  /** How many slots of the given nodes refer to t. */
  function InEdges<N(==)>(nodes: seq<N>, g: Graph<N>, t: N): nat
    requires forall n :: n in nodes ==> n in g
  {
    if |nodes| == 0 then 0 else InEdges(nodes[..|nodes| - 1], g, t) + Mult(g[nodes[|nodes| - 1]], t)
  }

  /** The sequence without position i. */
  function Without<N>(s: seq<N>, i: nat): seq<N>
    requires i < |s|
  {
    s[..i] + s[i + 1..]
  }

  ghost function Members<N>(s: seq<N>): set<N> {
    set n | n in s
  }

  /** Every reference in the graph stays in the graph. */
  ghost predicate Closed<N>(nodes: seq<N>, g: Graph<N>) {
    && (forall n :: n in nodes ==> n in g)
    && forall n, i :: n in nodes && 0 <= i < |g[n]| && g[n][i].Container? ==> g[n][i].obj in nodes
  }

  // ---------------------------------------------------------------------------------------------
  // Reachability
  // ---------------------------------------------------------------------------------------------

  /** The nodes that k steps or fewer lead to from nodes with an outside reference. */
  ghost function LiveWithin<N>(nodes: seq<N>, g: Graph<N>, ext: map<N, nat>, k: nat): set<N>
    requires forall n :: n in nodes ==> n in g && n in ext
  {
    if k == 0 then set n | n in nodes && ext[n] > 0
    else
      var before := LiveWithin(nodes, g, ext, k - 1);
      before + set n | n in nodes && exists m :: m in nodes && m in before && Container(n) in g[m]
  }

  ghost predicate Live<N>(nodes: seq<N>, g: Graph<N>, ext: map<N, nat>, t: N)
    requires forall n :: n in nodes ==> n in g && n in ext
  {
    exists k: nat :: t in LiveWithin(nodes, g, ext, k)
  }

  lemma LiveRoot<N>(nodes: seq<N>, g: Graph<N>, ext: map<N, nat>, t: N)
    requires forall n :: n in nodes ==> n in g && n in ext
    requires t in nodes && ext[t] > 0
    ensures Live(nodes, g, ext, t)
  {
    assert t in LiveWithin(nodes, g, ext, 0);
  }

  lemma LiveStep<N>(nodes: seq<N>, g: Graph<N>, ext: map<N, nat>, m: N, t: N)
    requires forall n :: n in nodes ==> n in g && n in ext
    requires m in nodes && t in nodes && Live(nodes, g, ext, m) && Container(t) in g[m]
    ensures Live(nodes, g, ext, t)
  {
    var k: nat :| m in LiveWithin(nodes, g, ext, k);
    assert t in LiveWithin(nodes, g, ext, k + 1);
  }

  /** Each node on the path has a slot that refers to the next. */
  predicate IsPath<N(==)>(nodes: seq<N>, g: Graph<N>, p: seq<N>)
    requires forall n :: n in nodes ==> n in g
  {
    && |p| > 0 && (forall i :: 0 <= i < |p| ==> p[i] in nodes)
    && forall i :: 0 <= i < |p| - 1 ==> Container(p[i + 1]) in g[p[i]]
  }

  /** A live node is at the end of a path that starts at a node with an outside reference. */
  lemma {:induction false} LivePath<N>(nodes: seq<N>, g: Graph<N>, ext: map<N, nat>, t: N, k: nat) returns (p: seq<N>)
    requires (forall n :: n in nodes ==> n in g && n in ext) && t in LiveWithin(nodes, g, ext, k)
    ensures IsPath(nodes, g, p) && ext[p[0]] > 0 && p[|p| - 1] == t
  {
    if k == 0 {
      p := [t];
    } else if t in LiveWithin(nodes, g, ext, k - 1) {
      p := LivePath(nodes, g, ext, t, k - 1);
    } else {
      var m :| m in nodes && m in LiveWithin(nodes, g, ext, k - 1) && Container(t) in g[m];
      var q := LivePath(nodes, g, ext, m, k - 1);
      p := q + [t];
    }
  }

  /** Everything on such a path is live. */
  lemma {:induction false} PathLive<N>(nodes: seq<N>, g: Graph<N>, ext: map<N, nat>, p: seq<N>)
    requires forall n :: n in nodes ==> n in g && n in ext
    requires IsPath(nodes, g, p) && ext[p[0]] > 0
    ensures Live(nodes, g, ext, p[|p| - 1])
  {
    hide Live;
    var n := |p| - 1;
    if n == 0 {
      LiveRoot(nodes, g, ext, p[0]);
    } else {
      PathLive(nodes, g, ext, p[..n]);
      LiveStep(nodes, g, ext, p[n - 1], p[n]);
    }
  }

  /** A set that holds the roots and is closed under references holds everything live. */
  lemma {:induction false} ClosedSetHoldsLive<N>(nodes: seq<N>, g: Graph<N>, ext: map<N, nat>, s: set<N>, k: nat)
    requires forall n :: n in nodes ==> n in g && n in ext
    requires forall n :: n in nodes && ext[n] > 0 ==> n in s
    requires forall m, n :: m in nodes && n in nodes && m in s && Container(n) in g[m] ==> n in s
    ensures LiveWithin(nodes, g, ext, k) <= s
  {
    if k > 0 { ClosedSetHoldsLive(nodes, g, ext, s, k - 1); }
  }

  lemma ClosedSetHoldsAllLive<N>(nodes: seq<N>, g: Graph<N>, ext: map<N, nat>, s: set<N>)
    requires forall n :: n in nodes ==> n in g && n in ext
    requires forall n :: n in nodes && ext[n] > 0 ==> n in s
    requires forall m, n :: m in nodes && n in nodes && m in s && Container(n) in g[m] ==> n in s
    ensures forall n :: n in nodes && Live(nodes, g, ext, n) ==> n in s
  {
    hide LiveWithin;
    forall n | n in nodes && Live(nodes, g, ext, n) ensures n in s {
      var k: nat :| n in LiveWithin(nodes, g, ext, k);
      ClosedSetHoldsLive(nodes, g, ext, s, k);
    }
  }

  /** A live node has an outside reference or a live node that refers to it. */
  lemma {:induction false} LiveHasSupport<N>(nodes: seq<N>, g: Graph<N>, ext: map<N, nat>, t: N, k: nat)
    requires forall n :: n in nodes ==> n in g && n in ext
    requires t in LiveWithin(nodes, g, ext, k)
    ensures t in nodes
    ensures ext[t] > 0 || exists m :: m in nodes && Live(nodes, g, ext, m) && Container(t) in g[m]
  {
    if k > 0 {
      var before := LiveWithin(nodes, g, ext, k - 1);
      if t in before {
        LiveHasSupport(nodes, g, ext, t, k - 1);
      } else {
        var m :| m in nodes && m in before && Container(t) in g[m];
        assert Live(nodes, g, ext, m);
      }
    }
  }

  /** Keeping the live nodes and their slots keeps them live. */
  lemma {:induction false} LiveRestricts<N>(nodes: seq<N>, g: Graph<N>, kept: seq<N>, h: Graph<N>, ext: map<N, nat>, k: nat)
    requires forall n :: n in nodes ==> n in g && n in ext
    requires forall n :: n in kept <==> n in nodes && Live(nodes, g, ext, n)
    requires forall n :: n in kept ==> n in h && h[n] == g[n]
    ensures LiveWithin(nodes, g, ext, k) <= LiveWithin(kept, h, ext, k)
  {
    var s, t := LiveWithin(nodes, g, ext, k), LiveWithin(kept, h, ext, k);
    if k == 0 {
      forall n | n in s ensures n in t {
        LiveRoot(nodes, g, ext, n);
      }
    } else {
      LiveRestricts(nodes, g, kept, h, ext, k - 1);
      var before := LiveWithin(nodes, g, ext, k - 1);
      forall n | n in s ensures n in t {
        if n !in before {
          var m :| m in nodes && m in before && Container(n) in g[m];
          assert Live(nodes, g, ext, m);
          assert Live(nodes, g, ext, n);
        }
      }
    }
  }

  lemma KeptStaysLive<N>(nodes: seq<N>, g: Graph<N>, kept: seq<N>, h: Graph<N>, ext: map<N, nat>)
    requires forall n :: n in nodes ==> n in g && n in ext
    requires forall n :: n in kept <==> n in nodes && Live(nodes, g, ext, n)
    requires forall n :: n in kept ==> n in h && h[n] == g[n]
    ensures forall n :: n in kept ==> Live(kept, h, ext, n)
  {
    hide LiveWithin;
    forall n | n in kept ensures Live(kept, h, ext, n) {
      var k: nat :| n in LiveWithin(nodes, g, ext, k);
      LiveRestricts(nodes, g, kept, h, ext, k);
    }
  }

  // ---------------------------------------------------------------------------------------------
  // Counting references
  // ---------------------------------------------------------------------------------------------

  lemma {:induction false} MultPositive<N>(slots: seq<Value<N>>, t: N)
    ensures Mult(slots, t) > 0 <==> Container(t) in slots
  {
    if |slots| > 0 {
      var n := |slots| - 1;
      assert slots == slots[..n] + [slots[n]];
      MultPositive(slots[..n], t);
    }
  }

  lemma {:induction false} InEdgesPositive<N>(nodes: seq<N>, g: Graph<N>, m: N, t: N)
    requires forall n :: n in nodes ==> n in g
    requires m in nodes && Container(t) in g[m]
    ensures InEdges(nodes, g, t) > 0
  {
    var k := |nodes| - 1;
    if nodes[k] == m {
      MultPositive(g[m], t);
    } else {
      assert nodes == nodes[..k] + [nodes[k]];
      InEdgesPositive(nodes[..k], g, m, t);
    }
  }

  lemma {:induction false} InEdgesZero<N>(nodes: seq<N>, g: Graph<N>, t: N)
    requires forall n :: n in nodes ==> n in g && Container(t) !in g[n]
    ensures InEdges(nodes, g, t) == 0
  {
    if |nodes| > 0 {
      InEdgesZero(nodes[..|nodes| - 1], g, t);
      MultPositive(g[nodes[|nodes| - 1]], t);
    }
  }

  /** Only the slots of the listed nodes matter. */
  lemma {:induction false} InEdgesSame<N>(nodes: seq<N>, g: Graph<N>, h: Graph<N>, t: N)
    requires forall n :: n in nodes ==> n in g && n in h && g[n] == h[n]
    ensures InEdges(nodes, g, t) == InEdges(nodes, h, t)
  {
    if |nodes| > 0 { InEdgesSame(nodes[..|nodes| - 1], g, h, t); }
  }

  /** Rewriting one node's slots changes the count by the difference of its multiplicities. */
  lemma {:induction false} InEdgesUpdate<N>(nodes: seq<N>, g: Graph<N>, m: N, slots: seq<Value<N>>, t: N)
    requires forall n :: n in nodes ==> n in g
    requires Distinct(nodes) && m in nodes
    ensures InEdges(nodes, g[m := slots], t) == InEdges(nodes, g, t) - Mult(g[m], t) + Mult(slots, t)
  {
    var k := |nodes| - 1;
    assert nodes == nodes[..k] + [nodes[k]];
    if nodes[k] == m {
      InEdgesSame(nodes[..k], g, g[m := slots], t);
    } else {
      InEdgesUpdate(nodes[..k], g, m, slots, t);
    }
  }

  /** Leaving a node out loses exactly its own slots. */
  lemma {:induction false} InEdgesWithout<N>(nodes: seq<N>, g: Graph<N>, i: nat, t: N)
    requires forall n :: n in nodes ==> n in g
    requires i < |nodes|
    ensures InEdges(Without(nodes, i), g, t) == InEdges(nodes, g, t) - Mult(g[nodes[i]], t)
  {
    var k := |nodes| - 1;
    if i == k {
      assert Without(nodes, i) == nodes[..k];
    } else {
      assert Without(nodes, i) == Without(nodes[..k], i) + [nodes[k]];
      assert Without(nodes, i)[..k - 1] == Without(nodes[..k], i);
      InEdgesWithout(nodes[..k], g, i, t);
    }
  }

  /** Replacing slot i by a plain value loses exactly the reference it held. */
  lemma {:induction false} MultClear<N>(slots: seq<Value<N>>, i: nat, t: N)
    requires i < |slots|
    ensures Mult(slots[i := Plain], t) == Mult(slots, t) - if slots[i] == Container(t) then 1 else 0
  {
    var n := |slots| - 1;
    if i == n {
      assert slots[i := Plain][..n] == slots[..n];
    } else {
      assert slots[i := Plain][..n] == slots[..n][i := Plain];
      MultClear(slots[..n], i, t);
    }
  }

  lemma {:induction false} MultPlain<N>(slots: seq<Value<N>>, t: N)
    requires forall i :: 0 <= i < |slots| ==> slots[i] == Plain
    ensures Mult(slots, t) == 0
  {
    if |slots| > 0 { MultPlain(slots[..|slots| - 1], t); }
  }

  /** A distinct sequence drawn from another one is no longer than it. */
  lemma {:induction false} DistinctBound<N>(s: seq<N>, nodes: seq<N>)
    requires Distinct(s) && forall n :: n in s ==> n in nodes
    ensures |s| <= |nodes|
  {
    if |s| > 0 {
      var k := |s| - 1;
      var x := s[k];
      assert x in s;
      var i :| 0 <= i < |nodes| && nodes[i] == x;
      var rest := Without(nodes, i);
      assert forall n :: n in s[..k] ==> n != x;
      assert forall n :: n in nodes && n != x ==> n in rest by { Others(nodes, i); }
      DistinctBound(s[..k], rest);
    }
  }

  lemma Others<N>(nodes: seq<N>, i: nat)
    requires i < |nodes|
    ensures forall n :: n in nodes && n != nodes[i] ==> n in Without(nodes, i)
  {
    forall n | n in nodes && n != nodes[i] ensures n in Without(nodes, i) {
      var j :| 0 <= j < |nodes| && nodes[j] == n;
      if j < i {
        assert nodes[..i][j] == n;
      } else {
        assert nodes[i + 1..][j - i - 1] == n;
      }
    }
  }
}
