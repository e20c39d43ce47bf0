/** The scheduler of src/cli.c: child slots, retries and fail-fast, with children that end after any number of polls. */
module TestRunner {
  import opened Sequences
  import opened TestRuns

  datatype Slot = Idle | Busy(test: nat, polls: nat, status: Status)

  datatype Config = Config(plan: Plan, jobs: nat, failFast: bool)

  /** The variables of the scheduling loop. */
  datatype State = State(
    slots: seq<Slot>,
    pending: seq<nat>,
    next: nat,
    active: nat,
    stop: bool,
    nonPass: nat,
    failed: seq<bool>,
    results: seq<Result>
  )

  /** Where a test stands within an attempt. */
  datatype Phase = Out | Waiting | Running(slot: nat) | Done | Killed

  /** The attempt, the results before it, and the phase of every test. */
  datatype Progress = Progress(attempt: nat, base: seq<Result>, phase: seq<Phase>)

  // ---------------------------------------------------------------------------------------------
  // Counting slots
  // ---------------------------------------------------------------------------------------------

  function Busies(slots: seq<Slot>): nat {
    if slots == [] then 0 else Busies(slots[1..]) + if slots[0].Busy? then 1 else 0
  }

  function Weight(s: Slot): nat { if s.Busy? then s.polls + 1 else 0 }

  /** The polls still to come. */
  function Load(slots: seq<Slot>): nat {
    if slots == [] then 0 else Load(slots[1..]) + Weight(slots[0])
  }

  lemma {:induction false} SlotUpdate(slots: seq<Slot>, k: nat, s: Slot)
    requires k < |slots|
    ensures Busies(slots[k := s]) + (if slots[k].Busy? then 1 else 0) == Busies(slots) + if s.Busy? then 1 else 0
    ensures Load(slots[k := s]) + Weight(slots[k]) == Load(slots) + Weight(s)
  {
    if k == 0 {
      assert slots[0 := s][1..] == slots[1..];
    } else {
      SlotUpdate(slots[1..], k - 1, s);
      assert slots[k := s][1..] == slots[1..][k - 1 := s];
    }
  }

  lemma {:induction false} BusiesBound(slots: seq<Slot>)
    ensures Busies(slots) <= |slots|
    ensures (forall k :: 0 <= k < |slots| ==> slots[k].Busy?) ==> Busies(slots) == |slots|
    ensures Busies(slots) == 0 <==> forall k :: 0 <= k < |slots| ==> slots[k].Idle?
  {
    if slots != [] {
      BusiesBound(slots[1..]);
      assert forall k :: 0 < k < |slots| ==> slots[k] == slots[1..][k - 1];
    }
  }

  // ---------------------------------------------------------------------------------------------
  // The invariant
  // ---------------------------------------------------------------------------------------------

  ghost predicate Shape(c: Config, s: State, g: Progress) {
    && |s.slots| == c.jobs && |s.failed| == |g.phase| == |c.plan.errors| && s.next <= |s.pending|
    && forall k :: 0 <= k < |s.results| ==> s.results[k].test < |c.plan.errors|
  }

  /** Pending tests are distinct, and those from next on are waiting. */
  ghost predicate Queue(c: Config, s: State, g: Progress)
    requires Shape(c, s, g)
  {
    && (forall k :: 0 <= k < |s.pending| ==> s.pending[k] < |g.phase|)
    && (forall j, k :: 0 <= j < k < |s.pending| ==> s.pending[j] != s.pending[k])
    && (forall k :: 0 <= k < |s.pending| ==> (g.phase[s.pending[k]].Waiting? <==> s.next <= k))
    && (forall i :: 0 <= i < |g.phase| ==> (g.phase[i].Out? <==> i !in s.pending))
  }

  /** A busy slot runs the test that is running there, and will report the outcome of this attempt. */
  ghost predicate Children(c: Config, s: State, g: Progress)
    requires Shape(c, s, g)
  {
    && (forall k :: 0 <= k < |s.slots| && s.slots[k].Busy? ==>
         s.slots[k].test < |g.phase| && g.phase[s.slots[k].test] == Running(k)
         && s.slots[k].status == Outcome(c.plan, g.attempt, s.slots[k].test))
    && (forall i :: 0 <= i < |g.phase| && g.phase[i].Running? ==>
         g.phase[i].slot < |s.slots| && s.slots[g.phase[i].slot].Busy? && s.slots[g.phase[i].slot].test == i)
  }

  /** A test that is done has one more result, all others have what they had. */
  ghost predicate Recorded(c: Config, s: State, g: Progress)
    requires Shape(c, s, g)
  {
    forall i :: 0 <= i < |g.phase| ==>
      && Of(s.results, i) == (if g.phase[i].Done? then Of(g.base, i) + [Outcome(c.plan, g.attempt, i)] else Of(g.base, i))
      && (s.failed[i] <==> g.phase[i].Done? && Outcome(c.plan, g.attempt, i) != Pass)
  }

  /** Counters and flags. */
  ghost predicate Flags(c: Config, s: State, g: Progress)
    requires Shape(c, s, g)
  {
    && s.active == Busies(s.slots)
    && (s.nonPass == 0 <==> forall i :: 0 <= i < |s.failed| ==> !s.failed[i])
    && (s.stop <==> c.failFast && s.nonPass > 0)
    && (forall i :: 0 <= i < |g.phase| && g.phase[i].Killed? ==> s.stop)
  }

  ghost predicate Inv(c: Config, s: State, g: Progress) {
    Shape(c, s, g) && Queue(c, s, g) && Children(c, s, g) && Recorded(c, s, g) && Flags(c, s, g)
  }

  // ---------------------------------------------------------------------------------------------
  // The steps
  // ---------------------------------------------------------------------------------------------

  /** A result that is not a pass. */
  function Noted(c: Config, s: State, i: nat, status: Status): State
    requires i < |s.failed|
  {
    var t := s.(results := s.results + [Result(i, status)]);
    if status == Pass then t
    else t.(nonPass := s.nonPass + 1, failed := s.failed[i := true], stop := s.stop || c.failFast)
  }

  /** Test i is done with the given status. */
  function Finished(g: Progress, i: nat): Progress
    requires i < |g.phase|
  {
    g.(phase := g.phase[i := Done])
  }

  lemma NotedKeeps(c: Config, s: State, g: Progress, i: nat)
    requires Shape(c, s, g) && Recorded(c, s, g) && i < |g.phase| && !g.phase[i].Done?
    requires s.nonPass == 0 <==> forall k :: 0 <= k < |s.failed| ==> !s.failed[k]
    ensures var t := Noted(c, s, i, Outcome(c.plan, g.attempt, i));
      Shape(c, t, Finished(g, i)) && Recorded(c, t, Finished(g, i))
      && (t.nonPass == 0 <==> forall k :: 0 <= k < |t.failed| ==> !t.failed[k])
  {
    hide Of, Outcome, Recorded;
    var status := Outcome(c.plan, g.attempt, i);
    NotedRecords(c, s, g, i);
    var t := Noted(c, s, i, status);
    if status != Pass { assert t.failed[i]; }
  }

  lemma NotedRecords(c: Config, s: State, g: Progress, i: nat)
    requires Shape(c, s, g) && Recorded(c, s, g) && i < |g.phase| && !g.phase[i].Done?
    ensures var t := Noted(c, s, i, Outcome(c.plan, g.attempt, i));
      Shape(c, t, Finished(g, i)) && Recorded(c, t, Finished(g, i))
  {
    hide Of, Outcome;
    var status := Outcome(c.plan, g.attempt, i);
    forall k | 0 <= k < |g.phase|
      ensures Of(s.results + [Result(i, status)], k) == if i == k then Of(s.results, k) + [status] else Of(s.results, k)
    {
      OfSnoc(s.results, Result(i, status), k);
    }
  }

  /** The state after a test that cannot even be started: its discovery failed, or the child was not spawned. */
  function Skipped(c: Config, s: State): State
    requires s.next < |s.pending| && s.pending[s.next] < |s.failed|
  {
    Noted(c, s.(next := s.next + 1), s.pending[s.next], Fail)
  }

  lemma SkipKeeps(c: Config, s: State, g: Progress)
    requires Inv(c, s, g) && s.next < |s.pending| && s.pending[s.next] < |g.phase|
    requires Outcome(c.plan, g.attempt, s.pending[s.next]) == Fail
    ensures Inv(c, Skipped(c, s), Finished(g, s.pending[s.next]))
  {
    hide Of, Outcome, Busies, Queue, Children;
    var i := s.pending[s.next];
    SkipQueue(c, s, g);
    NotedKeeps(c, s.(next := s.next + 1), g, i);
  }

  lemma SkipQueue(c: Config, s: State, g: Progress)
    requires Shape(c, s, g) && Queue(c, s, g) && Children(c, s, g) && s.next < |s.pending| && s.pending[s.next] < |g.phase|
    ensures var t, h := Skipped(c, s), Finished(g, s.pending[s.next]);
      Shape(c, t, h) && Queue(c, t, h) && Children(c, t, h) && !g.phase[s.pending[s.next]].Done?
  {
    hide Of, Outcome, Busies;
    var k := s.next;
    assert g.phase[s.pending[k]].Waiting?;
  }

  lemma StartKeeps(c: Config, s: State, g: Progress, k: nat, polls: nat)
    requires Inv(c, s, g) && s.next < |s.pending| && k < |s.slots| && s.slots[k].Idle? && s.pending[s.next] < |g.phase|
    ensures var i := s.pending[s.next];
      Inv(c, s.(next := s.next + 1, active := s.active + 1, slots := s.slots[k := Busy(i, polls, Outcome(c.plan, g.attempt, i))]),
          g.(phase := g.phase[i := Running(k)]))
  {
    hide Of, Outcome, Busies, Load;
    var i := s.pending[s.next];
    SlotUpdate(s.slots, k, Busy(i, polls, Outcome(c.plan, g.attempt, i)));
  }

  lemma WaitKeeps(c: Config, s: State, g: Progress, k: nat)
    requires Inv(c, s, g) && k < |s.slots| && s.slots[k].Busy? && s.slots[k].polls > 0
    ensures Inv(c, s.(slots := s.slots[k := s.slots[k].(polls := s.slots[k].polls - 1)]), g)
  {
    hide Of, Outcome, Busies, Load;
    SlotUpdate(s.slots, k, s.slots[k].(polls := s.slots[k].polls - 1));
  }

  /** The state after the child in slot k has ended. */
  function Ended(c: Config, s: State, k: nat): State
    requires k < |s.slots| && s.slots[k].Busy? && s.slots[k].test < |s.failed| && s.active > 0
  {
    Noted(c, s.(slots := s.slots[k := Idle], active := s.active - 1), s.slots[k].test, s.slots[k].status)
  }

  lemma EndKeeps(c: Config, s: State, g: Progress, k: nat)
    requires Inv(c, s, g) && k < |s.slots| && s.slots[k].Busy?
    ensures s.slots[k].test < |g.phase| == |s.failed| && s.active > 0
    ensures Inv(c, Ended(c, s, k), Finished(g, s.slots[k].test))
  {
    hide Of, Outcome, Busies, Load, Queue;
    var i := s.slots[k].test;
    SlotUpdate(s.slots, k, Idle);
    NotedKeeps(c, s.(slots := s.slots[k := Idle], active := s.active - 1), g, i);
    EndChildren(c, s, g, k);
    EndQueue(c, s, g, k);
  }

  lemma EndChildren(c: Config, s: State, g: Progress, k: nat)
    requires Shape(c, s, g) && Children(c, s, g) && k < |s.slots| && s.slots[k].Busy? && s.active > 0
    ensures Shape(c, Ended(c, s, k), Finished(g, s.slots[k].test)) && Children(c, Ended(c, s, k), Finished(g, s.slots[k].test))
  {
    hide Of, Outcome, Busies, Load;
  }

  lemma EndQueue(c: Config, s: State, g: Progress, k: nat)
    requires Shape(c, s, g) && Children(c, s, g) && Queue(c, s, g) && k < |s.slots| && s.slots[k].Busy? && s.active > 0
    requires Shape(c, Ended(c, s, k), Finished(g, s.slots[k].test))
    ensures Queue(c, Ended(c, s, k), Finished(g, s.slots[k].test))
  {
    hide Of, Outcome, Busies, Load;
  }

  /** Fail-fast ends every running child without a result. */
  function Silenced(g: Progress): (h: Progress)
    ensures |h.phase| == |g.phase|
    ensures forall i :: 0 <= i < |g.phase| ==> h.phase[i] == if g.phase[i].Running? then Killed else g.phase[i]
  {
    g.(phase := seq(|g.phase|, i requires 0 <= i < |g.phase| => if g.phase[i].Running? then Killed else g.phase[i]))
  }

  lemma KillKeeps(c: Config, s: State, g: Progress)
    requires Inv(c, s, g) && s.stop
    ensures Inv(c, s.(slots := seq(|s.slots|, _ => Idle), active := 0), Silenced(g))
  {
    hide Of, Outcome, Busies, Load;
    BusiesBound(seq(|s.slots|, _ => Idle));
  }

  /** Nothing runs and nothing is waiting: every pending test has its result. */
  lemma AttemptEnds(c: Config, s: State, g: Progress)
    requires Inv(c, s, g) && s.active == 0 && (s.next == |s.pending| || s.stop)
    ensures forall i :: 0 <= i < |g.phase| ==> !g.phase[i].Running?
    ensures !s.stop ==> forall i :: 0 <= i < |g.phase| ==> if i in s.pending then g.phase[i].Done? else g.phase[i].Out?
  {
    hide Of, Outcome, Busies;
    BusiesBound(s.slots);
    if !s.stop {
      forall i | 0 <= i < |g.phase| && i in s.pending ensures g.phase[i].Done? {
        var k :| 0 <= k < |s.pending| && s.pending[k] == i;
        assert !g.phase[s.pending[k]].Waiting?;
      }
    }
  }

  lemma AttemptStarts(c: Config, pending: seq<nat>, results: seq<Result>, attempt: nat, s: State, g: Progress)
    requires forall k :: 0 <= k < |results| ==> results[k].test < |c.plan.errors|
    requires forall k :: 0 <= k < |pending| ==> pending[k] < |c.plan.errors|
    requires forall j, k :: 0 <= j < k < |pending| ==> pending[j] != pending[k]
    requires s == Fresh(c, pending, results)
    requires g.attempt == attempt && g.base == results && |g.phase| == |c.plan.errors|
    requires forall i :: 0 <= i < |g.phase| ==> g.phase[i] == if i in pending then Waiting else Out
    ensures Inv(c, s, g)
  {
    hide Of, Outcome, Busies;
    BusiesBound(s.slots);
  }

  function Fresh(c: Config, pending: seq<nat>, results: seq<Result>): State {
    State(seq(c.jobs, _ => Idle), pending, 0, 0, false, 0, seq(|c.plan.errors|, _ => false), results)
  }

  // ---------------------------------------------------------------------------------------------
  // The scheduler
  // ---------------------------------------------------------------------------------------------

  class Runner {
    const c: Config
    var s: State
    ghost var g: Progress

    constructor (config: Config)
      ensures c == config && s == Fresh(config, [], [])
    {
      c, s := config, Fresh(config, [], []);
    }

    ghost predicate Valid()
      reads this
    {
      Inv(c, s, g)
    }

    /** At any time the counter is the number of busy slots, which never exceeds the number of jobs. */
    lemma ActiveIsBusy()
      requires Valid()
      ensures s.active == Busies(s.slots) <= c.jobs
    {
      BusiesBound(s.slots);
    }

    lemma SomeIdle()
      requires Valid() && s.active < c.jobs
      ensures exists k :: 0 <= k < |s.slots| && s.slots[k].Idle?
    {
      hide Queue, Children, Recorded, Busies;
      BusiesBound(s.slots);
    }

    method FindIdle() returns (slot: nat)
      requires Valid() && s.active < c.jobs
      ensures slot < |s.slots| && s.slots[slot].Idle?
    {
      hide Inv, Busies;
      SomeIdle();
      slot := 0;
      while s.slots[slot].Busy?
        invariant slot < |s.slots| && forall k :: 0 <= k < slot ==> s.slots[k].Busy?
        decreases |s.slots| - slot
      {
        slot := slot + 1;
      }
    }

    /** Nothing but the attempt's own state has changed. */
    twostate predicate SameAttempt()
      reads this
    {
      g.attempt == old(g.attempt) && g.base == old(g.base) && s.pending == old(s.pending) && |g.phase| == |old(g.phase)|
    }

    lemma Bounds()
      requires Valid()
      ensures s.next <= |s.pending| && s.active <= c.jobs == |s.slots| && |g.phase| == |s.failed| == |c.plan.errors|
      ensures forall k :: 0 <= k < |s.pending| ==> s.pending[k] < |g.phase|
      ensures s.active > 0 <==> exists k :: 0 <= k < |s.slots| && s.slots[k].Busy?
      ensures s.stop ==> c.failFast
    {
      BusiesBound(s.slots);
    }

    /** Start waiting tests while slots are free. */
    method Launch(attempt: nat)
      requires Valid() && g.attempt == attempt
      modifies this
      ensures Valid() && SameAttempt()
      ensures s.stop || s.next == |s.pending| || s.active == c.jobs
      ensures s.next > old(s.next) || (s.next == old(s.next) && s.slots == old(s.slots))
    {
      hide Inv;
      Bounds();
      while !s.stop && s.next < |s.pending| && s.active < c.jobs
        invariant Valid() && SameAttempt()
        invariant s.next <= |s.pending| && s.active <= c.jobs
        invariant s.next > old(s.next) || (s.next == old(s.next) && s.slots == old(s.slots))
        decreases |s.pending| - s.next
      {
        LaunchOne(attempt);
      }
    }

    method LaunchOne(attempt: nat)
      requires Valid() && g.attempt == attempt && !s.stop && s.next < |s.pending| && s.active < c.jobs
      modifies this
      ensures Valid() && SameAttempt()
      ensures s.next == old(s.next) + 1 <= |s.pending| && s.active <= c.jobs
    {
      hide Inv;
      Bounds();
      var i := s.pending[s.next];
      if c.plan.errors[i] {
        Skip(i);
      } else {
        var slot := FindIdle();
        match c.plan.fate(attempt, i) {
          case SpawnFails => Skip(i);
          case Runs(polls, status) =>
            StartKeeps(c, s, g, slot, polls);
            s := s.(next := s.next + 1, active := s.active + 1, slots := s.slots[slot := Busy(i, polls, status)]);
            g := g.(phase := g.phase[i := Running(slot)]);
        }
      }
      Bounds();
    }

    method Skip(i: nat)
      requires Valid() && s.next < |s.pending| && i == s.pending[s.next] < |g.phase| == |c.plan.errors| == |s.failed|
      requires Outcome(c.plan, g.attempt, i) == Fail
      modifies this
      ensures Valid() && SameAttempt() && s.next == old(s.next) + 1
    {
      hide Inv, Outcome;
      SkipKeeps(c, s, g);
      s := Skipped(c, s);
      g := Finished(g, i);
    }

    /** Look at every child once. */
    method Poll()
      requires Valid() && s.active > 0
      modifies this
      ensures Valid() && SameAttempt() && s.next == old(s.next) && Load(s.slots) < Load(old(s.slots))
    {
      hide Inv, Load;
      Bounds();
      ghost var before := s.slots;
      for k := 0 to c.jobs
        invariant Valid() && SameAttempt() && s.next == old(s.next) && |s.slots| == c.jobs
        invariant Load(s.slots) < Load(before) || s.slots == before
        invariant s.slots == before ==> forall j :: 0 <= j < k ==> before[j].Idle?
      {
        if s.slots[k].Busy? {
          var quit := PollOne(k);
          if quit { return; }
        }
      }
    }

    /** Look at one child; true when fail-fast has ended the others. */
    method PollOne(k: nat) returns (quit: bool)
      requires Valid() && k < |s.slots| && s.slots[k].Busy?
      modifies this
      ensures Valid() && SameAttempt() && s.next == old(s.next) && |s.slots| == old(|s.slots|)
      ensures Load(s.slots) < Load(old(s.slots))
    {
      hide Inv, Load;
      var child := s.slots[k];
      quit := false;
      if child.polls > 0 {
        WaitKeeps(c, s, g, k);
        SlotUpdate(s.slots, k, child.(polls := child.polls - 1));
        s := s.(slots := s.slots[k := child.(polls := child.polls - 1)]);
      } else {
        EndKeeps(c, s, g, k);
        SlotUpdate(s.slots, k, Idle);
        Bounds();
        s := Ended(c, s, k);
        g := Finished(g, child.test);
        if c.failFast && child.status != Pass {
          KillKeeps(c, s, g);
          NoLoad(seq(|s.slots|, _ => Idle));
          s := s.(slots := seq(|s.slots|, _ => Idle), active := 0);
          g := Silenced(g);
          quit := true;
        }
      }
    }

    /** One attempt at the pending tests. */
    method Attempt(attempt: nat)
      requires c.jobs > 0
      requires forall k :: 0 <= k < |s.results| ==> s.results[k].test < |c.plan.errors|
      requires forall k :: 0 <= k < |s.pending| ==> s.pending[k] < |c.plan.errors|
      requires Distinct(s.pending)
      modifies this
      ensures Valid() && g.attempt == attempt && g.base == old(s.results) && s.pending == old(s.pending)
      ensures s.active == 0 && (s.next == |s.pending| || s.stop)
    {
      hide Inv;
      ghost var pending := s.pending;
      g := Progress(attempt, s.results, seq(|c.plan.errors|, i => if i in pending then Waiting else Out));
      s := Fresh(c, s.pending, s.results);
      AttemptStarts(c, s.pending, s.results, attempt, s, g);
      while s.next < |s.pending| || s.active > 0
        invariant Valid() && g.attempt == attempt && g.base == old(s.results) && s.pending == old(s.pending)
        decreases |s.pending| - s.next, Load(s.slots)
      {
        Bounds();
        Launch(attempt);
        Bounds();
        if s.active == 0 { break; }
        Poll();
        Bounds();
      }
      Bounds();
    }

    /** The failed tests of this attempt, in order, become the pending ones. */
    method Retry()
      requires Valid()
      modifies this
      ensures s.pending == Retries(old(s.pending), s.failed) && s.failed == old(s.failed) && s.results == old(s.results)
    {
      hide Inv;
      var retry: seq<nat> := [];
      for k := 0 to |s.pending|
        invariant s == old(s) && retry == Retries(s.pending[..k], s.failed)
      {
        var i := s.pending[k];
        assert s.pending[..k + 1][..k] == s.pending[..k];
        if i < |s.failed| && s.failed[i] { retry := retry + [i]; }
      }
      assert s.pending[..|s.pending|] == s.pending;
      s := s.(pending := retry);
    }

    /** The whole run. Without fail-fast every test is attempted until it passes, rerun + 1 times at most; with fail-fast
        every test has at most its first attempt; all have it if all pass, and otherwise a failing one does. */
    method Run(rerun: nat)
      requires c.jobs > 0
      modifies this
      ensures Indexed(c, s.results)
      ensures !c.failFast ==> RanUntilPass(c, s.results, rerun + 1)
      ensures c.failFast ==> RanOnce(c, s.results)
    {
      hide Inv, Of, History, Outcome, Indexed, RanUntilPass, RanOnce;
      s := Fresh(c, Upto(|c.plan.errors|), []);
      var attempt := 0;
      FirstAttempt(c, s);
      while attempt <= rerun && |s.pending| > 0
        invariant attempt <= rerun + 1 && Between(c, s, attempt)
        invariant attempt > 0 ==> !c.failFast
        decreases rerun + 1 - attempt
      {
        ghost var before := s;
        BetweenIs(c, s, attempt);
        Attempt(attempt);
        if c.failFast {
          AfterFast(c, before, s, g);
          return;
        }
        AfterSlow(c, before, s, g);
        if s.nonPass == 0 {
          AllPassed(c, s, attempt + 1, rerun + 1);
          return;
        }
        if attempt >= rerun { return; }
        ghost var ended := s;
        Retry();
        AfterRetry(c, before, ended, s, attempt);
        attempt := attempt + 1;
      }
      NothingLeft(c, s, attempt, rerun + 1);
    }
  }

  // ---------------------------------------------------------------------------------------------
  // From attempt to attempt
  // ---------------------------------------------------------------------------------------------

  function Retries(pending: seq<nat>, failed: seq<bool>): seq<nat> {
    if pending == [] then [] else
      var n := |pending| - 1;
      Retries(pending[..n], failed) + if pending[n] < |failed| && failed[pending[n]] then [pending[n]] else []
  }

  lemma {:induction false} RetriesAre(pending: seq<nat>, failed: seq<bool>)
    requires Distinct(pending)
    ensures var r := Retries(pending, failed);
      Distinct(r) && forall i :: i in r <==> i in pending && i < |failed| && failed[i]
    decreases |pending|
  {
    if pending != [] {
      var n := |pending| - 1;
      RetriesAre(pending[..n], failed);
      assert pending == pending[..n] + [pending[n]];
      assert pending[n] !in pending[..n];
    }
  }

  ghost predicate Indexed(c: Config, results: seq<Result>) {
    forall k :: 0 <= k < |results| ==> results[k].test < |c.plan.errors|
  }

  /** Every test has been run until it passed, n times at most. */
  ghost predicate RanUntilPass(c: Config, results: seq<Result>, n: nat) {
    forall i :: 0 <= i < |c.plan.errors| ==> Of(results, i) == History(c.plan, i, n)
  }

  /** Every test has been run once or not at all: all of them if all pass, and otherwise one that does not. */
  ghost predicate RanOnce(c: Config, results: seq<Result>) {
    && (forall i :: 0 <= i < |c.plan.errors| ==> Of(results, i) == [] || Of(results, i) == [Outcome(c.plan, 0, i)])
    && ((forall i :: 0 <= i < |c.plan.errors| ==> Outcome(c.plan, 0, i) == Pass) ==>
         forall i :: 0 <= i < |c.plan.errors| ==> Of(results, i) == [Pass])
    && ((exists i :: 0 <= i < |c.plan.errors| && Outcome(c.plan, 0, i) != Pass) ==>
         exists i :: 0 <= i < |c.plan.errors| && Of(results, i) == [Outcome(c.plan, 0, i)] && Outcome(c.plan, 0, i) != Pass)
  }

  /** The tests of s are those that have not passed within n attempts. */
  ghost predicate StillFailing(c: Config, pending: seq<nat>, n: nat) {
    && (forall k :: 0 <= k < |pending| ==> pending[k] < |c.plan.errors|) && Distinct(pending)
    && forall i :: 0 <= i < |c.plan.errors| ==> (i in pending <==> Pass !in History(c.plan, i, n))
  }

  ghost predicate Between(c: Config, s: State, n: nat) {
    Indexed(c, s.results) && RanUntilPass(c, s.results, n) && StillFailing(c, s.pending, n)
  }

  lemma BetweenIs(c: Config, s: State, n: nat)
    requires Between(c, s, n)
    ensures forall k :: 0 <= k < |s.results| ==> s.results[k].test < |c.plan.errors|
  {
  }

  lemma {:induction false} UptoIs(n: nat)
    ensures |Upto(n)| == n && forall k :: 0 <= k < n ==> Upto(n)[k] == k
  {
    if n > 0 { UptoIs(n - 1); }
  }

  lemma FirstAttempt(c: Config, s: State)
    requires s == Fresh(c, Upto(|c.plan.errors|), [])
    ensures Between(c, s, 0)
  {
    UptoIs(|c.plan.errors|);
    forall i | 0 <= i < |c.plan.errors| ensures i in s.pending { assert s.pending[i] == i; }
  }

  /** What one attempt adds. */
  lemma AfterSlow(c: Config, before: State, s: State, g: Progress)
    requires !c.failFast && Between(c, before, g.attempt) && g.base == before.results && s.pending == before.pending
    requires Inv(c, s, g) && s.active == 0 && (s.next == |s.pending| || s.stop)
    ensures Indexed(c, s.results) && RanUntilPass(c, s.results, g.attempt + 1) && FailedAre(c, s, g.attempt + 1)
    ensures s.nonPass == 0 ==> forall i :: 0 <= i < |s.failed| ==> !s.failed[i]
  {
    hide Of, Outcome;
    AttemptEnds(c, s, g);
  }

  ghost predicate FailedAre(c: Config, s: State, n: nat) {
    |s.failed| == |c.plan.errors| && forall i :: 0 <= i < |s.failed| ==> (s.failed[i] <==> Pass !in History(c.plan, i, n))
  }

  lemma AfterFast(c: Config, before: State, s: State, g: Progress)
    requires c.failFast && g.attempt == 0 && Between(c, before, 0) && g.base == before.results && s.pending == before.pending
    requires Inv(c, s, g) && s.active == 0 && (s.next == |s.pending| || s.stop)
    ensures Indexed(c, s.results) && RanOnce(c, s.results)
  {
    hide Of, Outcome;
    AttemptEnds(c, s, g);
  }

  lemma AfterRetry(c: Config, before: State, ended: State, s: State, attempt: nat)
    requires Between(c, before, attempt) && FailedAre(c, ended, attempt + 1)
    requires Indexed(c, ended.results) && RanUntilPass(c, ended.results, attempt + 1) && s.results == ended.results
    requires |s.failed| == |c.plan.errors| && s.failed == ended.failed && s.pending == Retries(before.pending, s.failed)
    ensures Between(c, s, attempt + 1)
  {
    hide Of, Outcome;
    RetriesAre(before.pending, s.failed);
    forall k | 0 <= k < |s.pending| ensures s.pending[k] < |c.plan.errors| { assert s.pending[k] in s.pending; }
    forall i | 0 <= i < |c.plan.errors| ensures i in s.pending <==> Pass !in History(c.plan, i, attempt + 1) {
      assert s.failed[i] <==> Pass !in History(c.plan, i, attempt + 1);
      if Pass in History(c.plan, i, attempt) { HistorySettles(c.plan, i, attempt, attempt + 1); }
    }
  }

  lemma AllPassed(c: Config, s: State, m: nat, n: nat)
    requires m <= n && RanUntilPass(c, s.results, m)
    requires FailedAre(c, s, m) && forall i :: 0 <= i < |s.failed| ==> !s.failed[i]
    ensures RanUntilPass(c, s.results, n)
  {
    hide Of, History;
    forall i | 0 <= i < |c.plan.errors| ensures Of(s.results, i) == History(c.plan, i, n) {
      assert !s.failed[i];
      HistorySettles(c.plan, i, m, n);
    }
  }

  lemma NothingLeft(c: Config, s: State, m: nat, n: nat)
    requires Between(c, s, m) && m <= n && (m == n || s.pending == []) && (m == 0 ==> n > 0)
    ensures Indexed(c, s.results) && RanUntilPass(c, s.results, n)
    ensures m == 0 ==> RanOnce(c, s.results)
  {
    hide Of;
    forall i | 0 <= i < |c.plan.errors| && m < n ensures Pass in History(c.plan, i, m) && m > 0 {
      assert i !in s.pending;
    }
    forall i | 0 <= i < |c.plan.errors| ensures Of(s.results, i) == History(c.plan, i, n) {
      if m < n { HistorySettles(c.plan, i, m, n); }
    }
  }

  /** After a run without fail-fast every test counts as executed, and as passed exactly if some attempt of it passes. */
  lemma FinalStatus(c: Config, results: seq<Result>, n: nat)
    requires n > 0 && RanUntilPass(c, results, n)
    ensures Executed(results, |c.plan.errors|) == |c.plan.errors|
    ensures forall i :: 0 <= i < |c.plan.errors| ==>
      (EndsIn(results, i, Pass) <==> exists k :: 0 <= k < n && Outcome(c.plan, k, i) == Pass)
  {
    hide Of, History, Outcome;
    forall i | 0 <= i < |c.plan.errors|
      ensures Of(results, i) != []
      ensures EndsIn(results, i, Pass) <==> exists k :: 0 <= k < n && Outcome(c.plan, k, i) == Pass
    {
      HistoryPasses(c.plan, i, n);
    }
    AllExecuted(results, |c.plan.errors|);
  }

  /** After a fail-fast run the tests that count as executed count with the outcome of their only attempt, and the
      tallies of failures are all zero exactly if every test passes, executed or not. */
  lemma FastStatus(c: Config, results: seq<Result>)
    requires RanOnce(c, results)
    ensures forall i, r :: 0 <= i < |c.plan.errors| && EndsIn(results, i, r) ==> r == Outcome(c.plan, 0, i)
    ensures var n := |c.plan.errors|;
      Ending(results, n, Fail) + Ending(results, n, Timeout) + Ending(results, n, Crash) == 0
      <==> forall i :: 0 <= i < n ==> Outcome(c.plan, 0, i) == Pass
    ensures (forall i :: 0 <= i < |c.plan.errors| ==> Outcome(c.plan, 0, i) == Pass) ==>
      Executed(results, |c.plan.errors|) == |c.plan.errors|
  {
    hide Of, Outcome, Ending, Executed;
    var n := |c.plan.errors|;
    NoneEnding(results, n, Fail);
    NoneEnding(results, n, Timeout);
    NoneEnding(results, n, Crash);
    if forall i :: 0 <= i < n ==> Outcome(c.plan, 0, i) == Pass {
      AllExecuted(results, n);
    } else {
      var i :| 0 <= i < n && Of(results, i) == [Outcome(c.plan, 0, i)] && Outcome(c.plan, 0, i) != Pass;
      assert EndsIn(results, i, Outcome(c.plan, 0, i));
    }
  }

  lemma {:induction false} NoneEnding(results: seq<Result>, n: nat, r: Status)
    ensures Ending(results, n, r) == 0 <==> forall i :: 0 <= i < n ==> !EndsIn(results, i, r)
  {
    hide EndsIn;
    if n > 0 { NoneEnding(results, n - 1, r); }
  }

  lemma {:induction false} AllExecuted(results: seq<Result>, m: nat)
    requires forall i :: 0 <= i < m ==> Of(results, i) != []
    ensures Executed(results, m) == m
  {
    if m > 0 { AllExecuted(results, m - 1); }
  }

  lemma {:induction false} NoLoad(slots: seq<Slot>)
    requires forall k :: 0 <= k < |slots| ==> slots[k].Idle?
    ensures Load(slots) == 0
  {
    if slots != [] { NoLoad(slots[1..]); }
  }
}
