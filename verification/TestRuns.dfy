/** What a test run of src/cli.c is supposed to record: the attempts of each test, and the tallies. */
module TestRuns {

  datatype Status = Pass | Fail | Timeout | Crash

  /** What becomes of an attempt to run a test in a child process; the number of polls until it ends is arbitrary. */
  datatype Fate = SpawnFails | Runs(polls: nat, status: Status)

  /** The selected tests: whether discovery failed, and the fate of every attempt. */
  datatype Plan = Plan(errors: seq<bool>, fate: (nat, nat) -> Fate)

  datatype Result = Result(test: nat, status: Status)

  function Outcome(p: Plan, attempt: nat, i: nat): Status
    requires i < |p.errors|
  {
    if p.errors[i] then Fail else
      match p.fate(attempt, i)
      case SpawnFails => Fail
      case Runs(_, status) => status
  }

  /** The results of test i, in the order in which they were recorded. */
  function Of(results: seq<Result>, i: nat): seq<Status> {
    if results == [] then [] else
      var n := |results| - 1;
      Of(results[..n], i) + if results[n].test == i then [results[n].status] else []
  }

  lemma OfSnoc(results: seq<Result>, r: Result, i: nat)
    ensures Of(results + [r], i) == if r.test == i then Of(results, i) + [r.status] else Of(results, i)
  {
    assert (results + [r])[..|results|] == results;
  }

  /** The attempts of test i among the first n: it is run again until it passes. */
  function History(p: Plan, i: nat, n: nat): seq<Status>
    requires i < |p.errors|
  {
    if n == 0 then [] else
      var h := History(p, i, n - 1);
      if Pass in h then h else h + [Outcome(p, n - 1, i)]
  }

  /** Failures followed by at most one pass, one entry per attempt made. */
  lemma {:induction false} HistoryShape(p: Plan, i: nat, n: nat)
    requires i < |p.errors| && n > 0
    ensures var h := History(p, i, n);
      && 1 <= |h| <= n
      && (forall k :: 0 <= k < |h| - 1 ==> h[k] != Pass)
      && (forall k :: 0 <= k < |h| ==> h[k] == Outcome(p, k, i))
      && (|h| < n ==> h[|h| - 1] == Pass)
  {
    if n > 1 {
      HistoryShape(p, i, n - 1);
      var h := History(p, i, n - 1);
      if Pass !in h { assert |h| == n - 1; }
    }
  }

  /** The last attempt passed exactly when some attempt would have passed. */
  lemma HistoryPasses(p: Plan, i: nat, n: nat)
    requires i < |p.errors| && n > 0
    ensures var h := History(p, i, n);
      h != [] && (h[|h| - 1] == Pass <==> exists k :: 0 <= k < n && Outcome(p, k, i) == Pass)
  {
    HistoryShape(p, i, n);
    var h := History(p, i, n);
    if h[|h| - 1] == Pass { assert Outcome(p, |h| - 1, i) == Pass; }
    if h[|h| - 1] != Pass {
      forall k | 0 <= k < n ensures Outcome(p, k, i) != Pass { assert h[k] == Outcome(p, k, i); }
    }
  }

  /** Once it has passed, further attempts change nothing. */
  lemma {:induction false} HistorySettles(p: Plan, i: nat, m: nat, n: nat)
    requires i < |p.errors| && m <= n && Pass in History(p, i, m)
    ensures History(p, i, n) == History(p, i, m)
    decreases n
  {
    if m < n { HistorySettles(p, i, m, n - 1); }
  }

  // ---------------------------------------------------------------------------------------------
  // Tallies
  // ---------------------------------------------------------------------------------------------

  datatype Tally = Tally(executed: nat, passed: nat, failed: nat, timedOut: nat, crashed: nat)

  /** The number of tests below n whose last result is s. */
  function Ending(results: seq<Result>, n: nat, s: Status): nat {
    if n == 0 then 0 else
      Ending(results, n - 1, s) + if EndsIn(results, n - 1, s) then 1 else 0
  }

  predicate EndsIn(results: seq<Result>, i: nat, s: Status) {
    var h := Of(results, i);
    h != [] && h[|h| - 1] == s
  }

  /** Without the list of results: some result of the test is s, and no later one is of that test. */
  lemma {:induction false} EndsInIs(results: seq<Result>, i: nat, s: Status)
    ensures EndsIn(results, i, s) <==>
      exists k :: 0 <= k < |results| && results[k] == Result(i, s) && forall m :: k < m < |results| ==> results[m].test != i
  {
    if results != [] {
      var n := |results| - 1;
      var before := results[..n];
      assert results == before + [results[n]];
      OfSnoc(before, results[n], i);
      if results[n].test == i {
        assert EndsIn(results, i, s) <==> results[n] == Result(i, s);
      } else {
        EndsInIs(before, i, s);
        if EndsIn(before, i, s) {
          var k :| 0 <= k < n && before[k] == Result(i, s) && forall m :: k < m < n ==> before[m].test != i;
          assert results[k] == Result(i, s);
        }
      }
    }
  }

  /** A test has as many results as there are positions that hold one. */
  lemma {:induction false} OfCounts(results: seq<Result>, i: nat)
    ensures |Of(results, i)| == |set k | 0 <= k < |results| && results[k].test == i|
  {
    if results != [] {
      var n := |results| - 1;
      var before := results[..n];
      assert results == before + [results[n]];
      OfSnoc(before, results[n], i);
      OfCounts(before, i);
      var a, b := set k | 0 <= k < n && before[k].test == i, set k | 0 <= k < |results| && results[k].test == i;
      assert b == if results[n].test == i then a + {n} else a;
    }
  }

  /** The tests below n whose last result is s. */
  ghost function EndSet(results: seq<Result>, n: nat, s: Status): set<int> {
    set i | 0 <= i < n && EndsIn(results, i, s)
  }

  lemma EndSetStep(results: seq<Result>, n: nat, s: Status)
    ensures n !in EndSet(results, n, s)
    ensures EndSet(results, n + 1, s) == if EndsIn(results, n, s) then EndSet(results, n, s) + {n} else EndSet(results, n, s)
  {
    hide EndsIn;
    var a, b := EndSet(results, n, s), EndSet(results, n + 1, s);
    assert forall i :: i in b <==> i in a || (i == n && EndsIn(results, n, s));
  }

  lemma NoEndSet(results: seq<Result>, s: Status)
    ensures EndSet(results, 0, s) == {}
  {
  }

  /** The tallies are numbers of tests. */
  lemma {:induction false} EndingCounts(results: seq<Result>, n: nat, s: Status)
    ensures Ending(results, n, s) == |EndSet(results, n, s)|
  {
    hide EndsIn, EndSet;
    if n == 0 {
      NoEndSet(results, s);
    } else {
      EndingCounts(results, n - 1, s);
      EndSetStep(results, n - 1, s);
    }
  }

  function Executed(results: seq<Result>, n: nat): nat {
    if n == 0 then 0 else Executed(results, n - 1) + if Of(results, n - 1) != [] then 1 else 0
  }

  /** The index of the last result of every test, -1 if it has none. */
  ghost predicate LastOf(results: seq<Result>, last: seq<int>) {
    forall i {:trigger last[i]} :: 0 <= i < |last| ==>
      var h := Of(results, i);
      && (h == [] <==> last[i] < 0)
      && (h != [] ==> last[i] < |results| && results[last[i]] == Result(i, h[|h| - 1]))
  }

  /** The loop over the results: the last one of every test, and how many there are. */
  method Summarise(results: seq<Result>, count: nat) returns (last: seq<int>, attempts: seq<nat>)
    ensures |last| == count && LastOf(results, last)
    ensures |attempts| == count && forall i :: 0 <= i < count ==> attempts[i] == |Of(results, i)|
  {
    hide Of;
    last := seq(count, _ => -1);
    attempts := seq(count, _ => 0);
    NoResults(results[..0]);
    for k := 0 to |results|
      invariant |last| == |attempts| == count && LastOf(results[..k], last)
      invariant forall i :: 0 <= i < count ==> attempts[i] == |Of(results[..k], i)|
    {
      var i := results[k].test;
      assert results[..k + 1] == results[..k] + [results[k]];
      forall j | 0 <= j < count
        ensures Of(results[..k + 1], j) == if i == j then Of(results[..k], j) + [results[k].status] else Of(results[..k], j)
      {
        OfSnoc(results[..k], results[k], j);
      }
      if i < count {
        last := last[i := k];
        attempts := attempts[i := attempts[i] + 1];
      }
    }
    assert results[..|results|] == results;
  }

  lemma NoResults(results: seq<Result>)
    requires results == []
    ensures forall i: nat :: Of(results, i) == []
  {
  }

  /** The tallies over all tests. */
  method Count(results: seq<Result>, count: nat) returns (t: Tally, attempts: seq<nat>)
    ensures t.executed == Executed(results, count)
    ensures t.passed == Ending(results, count, Pass) && t.failed == Ending(results, count, Fail)
    ensures t.timedOut == Ending(results, count, Timeout) && t.crashed == Ending(results, count, Crash)
    ensures t.passed + t.failed + t.timedOut + t.crashed == t.executed
    ensures |attempts| == count && forall i :: 0 <= i < count ==> attempts[i] == |Of(results, i)|
  {
    hide Of;
    var last: seq<int>;
    last, attempts := Summarise(results, count);
    t := Tally(0, 0, 0, 0, 0);
    for i := 0 to count
      invariant t.executed == Executed(results, i)
      invariant t.passed == Ending(results, i, Pass) && t.failed == Ending(results, i, Fail)
      invariant t.timedOut == Ending(results, i, Timeout) && t.crashed == Ending(results, i, Crash)
      invariant t.passed + t.failed + t.timedOut + t.crashed == t.executed
    {
      var r := last[i];
      if r >= 0 {
        t := t.(executed := t.executed + 1);
        match results[r].status {
          case Pass => t := t.(passed := t.passed + 1);
          case Timeout => t := t.(timedOut := t.timedOut + 1);
          case Crash => t := t.(crashed := t.crashed + 1);
          case Fail => t := t.(failed := t.failed + 1);
        }
      }
    }
  }

  // ---------------------------------------------------------------------------------------------
  // Shards
  // ---------------------------------------------------------------------------------------------

  /** The shard, from 1 on, that a test with this hash belongs to. */
  function Bucket(hash: nat, total: nat): (b: nat)
    requires total > 0
    ensures 1 <= b <= total
  {
    hash % total + 1
  }

  predicate InShard(hash: nat, index: nat, total: nat)
    requires total > 0
  {
    total > 1 ==> Bucket(hash, total) == index
  }

  /** The matched tests that a shard selects, in order. */
  function Shard(hashes: seq<nat>, index: nat, total: nat): seq<nat>
    requires total > 0
  {
    if hashes == [] then [] else
      var n := |hashes| - 1;
      Shard(hashes[..n], index, total) + if InShard(hashes[n], index, total) then [n] else []
  }

  /** Test i is in shard k exactly if its hash leaves the remainder k - 1; without sharding every test is selected. */
  lemma {:induction false} ShardHas(hashes: seq<nat>, k: nat, total: nat, i: nat)
    requires total > 0
    ensures i in Shard(hashes, k, total) <==> i < |hashes| && (total == 1 || hashes[i] % total == k - 1)
    decreases |hashes|
  {
    if hashes != [] {
      var n := |hashes| - 1;
      ShardHas(hashes[..n], k, total, i);
    }
  }

  /** A selection keeps the order of the tests. */
  lemma {:induction false} ShardInOrder(hashes: seq<nat>, k: nat, total: nat)
    requires total > 0
    ensures var s := Shard(hashes, k, total); forall i, j :: 0 <= i < j < |s| ==> s[i] < s[j]
    decreases |hashes|
  {
    if hashes != [] {
      var n := |hashes| - 1;
      var s := Shard(hashes[..n], k, total);
      ShardInOrder(hashes[..n], k, total);
      forall i | 0 <= i < |s| ensures s[i] < n { ShardHas(hashes[..n], k, total, s[i]); }
    }
  }

  method SelectShard(hashes: seq<nat>, index: nat, total: nat) returns (selected: seq<nat>)
    requires total > 0
    ensures selected == Shard(hashes, index, total)
  {
    selected := [];
    for i := 0 to |hashes|
      invariant selected == Shard(hashes[..i], index, total)
    {
      assert hashes[..i + 1][..i] == hashes[..i];
      if total > 1 {
        var bucket := hashes[i] % total + 1;
        if bucket != index { continue; }
      }
      selected := selected + [i];
    }
    assert hashes[..|hashes|] == hashes;
  }

  /** The selections of shards 1 to k, one after another. */
  function Shards(hashes: seq<nat>, k: nat, total: nat): seq<nat>
    requires total > 0
  {
    if k == 0 then [] else Shards(hashes, k - 1, total) + Shard(hashes, k, total)
  }

  function Upto(n: nat): seq<nat> { if n == 0 then [] else Upto(n - 1) + [n - 1] }

  /** The shard a test belongs to; without sharding everything is in shard 1. */
  function Home(hash: nat, total: nat): nat
    requires total > 0
  {
    if total == 1 then 1 else Bucket(hash, total)
  }

  function Once(c: bool, n: nat): multiset<nat> { if c then multiset{n} else multiset{} }

  lemma ShardOneMore(hashes: seq<nat>, k: nat, total: nat)
    requires hashes != [] && total > 0 && k > 0 && (total == 1 ==> k == 1)
    ensures var n := |hashes| - 1;
      multiset(Shard(hashes, k, total)) == multiset(Shard(hashes[..n], k, total)) + Once(Home(hashes[n], total) == k, n)
  {
    hide Bucket;
    var n := |hashes| - 1;
    var s, t: seq<nat> := Shard(hashes[..n], k, total), if InShard(hashes[n], k, total) then [n] else [];
    assert Shard(hashes, k, total) == s + t;
    assert multiset(s + t) == multiset(s) + multiset(t);
  }

  /** How one more test adds to the shards up to k: once, if its own shard is among them. */
  lemma {:induction false} OneMore(hashes: seq<nat>, k: nat, total: nat)
    requires hashes != [] && total > 0 && (total == 1 ==> k <= 1)
    ensures var n := |hashes| - 1;
      multiset(Shards(hashes, k, total)) == multiset(Shards(hashes[..n], k, total)) + Once(Home(hashes[n], total) <= k, n)
    decreases k
  {
    hide Shard, Home, Once, Shards;
    var n := |hashes| - 1;
    var home := Home(hashes[n], total);
    OnceCases(home, k, n);
    HomeIsPositive(hashes[n], total);
    ShardsStep(hashes, k, total);
    ShardsStep(hashes[..n], k, total);
    if k > 0 {
      OneMore(hashes, k - 1, total);
      ShardOneMore(hashes, k, total);
      Joined(Shards(hashes, k - 1, total), Shard(hashes, k, total), Shards(hashes[..n], k - 1, total),
             Shard(hashes[..n], k, total), Once(home <= k - 1, n), Once(home == k, n));
    }
  }

  lemma OnceCases(home: nat, k: nat, n: nat)
    ensures Once(home <= k - 1, n) + Once(home == k, n) == Once(home <= k, n)
    ensures home > k ==> Once(home <= k, n) == multiset{}
  {
  }

  lemma ShardsStep(hashes: seq<nat>, k: nat, total: nat)
    requires total > 0
    ensures Shards(hashes, k, total) == if k == 0 then [] else Shards(hashes, k - 1, total) + Shard(hashes, k, total)
  {
  }

  lemma Joined(a: seq<nat>, b: seq<nat>, c: seq<nat>, d: seq<nat>, e: multiset<nat>, f: multiset<nat>)
    requires multiset(a) == multiset(c) + e && multiset(b) == multiset(d) + f
    ensures multiset(a + b) == multiset(c + d) + (e + f)
  {
  }

  lemma HomeIsPositive(hash: nat, total: nat)
    requires total > 0
    ensures 1 <= Home(hash, total) <= total
  {
  }

  /** The shards 1 to total partition the matched tests: together they are all tests, each one once. */
  lemma {:induction false} ShardsPartition(hashes: seq<nat>, total: nat)
    requires total > 0
    ensures multiset(Shards(hashes, total, total)) == multiset(Upto(|hashes|))
    decreases |hashes|
  {
    if hashes == [] {
      NoTests(total, total);
    } else {
      ShardsPartition(hashes[..|hashes| - 1], total);
      OneMore(hashes, total, total);
      HomeIsPositive(hashes[|hashes| - 1], total);
    }
  }

  lemma {:induction false} NoTests(k: nat, total: nat)
    requires total > 0
    ensures Shards([], k, total) == []
    decreases k
  {
    if k > 0 { NoTests(k - 1, total); }
  }
}
