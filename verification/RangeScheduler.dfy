/** The parallel search (bmchat/crypto/pow/standard.py): workers that scan ranges of 2^20 nonces,
    and the scheduler that hands the ranges out. */
module RangeScheduler {
  import opened Bytes
  import opened Collections
  import opened ProofOfWork

  const STEP: nat := 0x10_0000
  const RANGES: nat := 0x1000_0000_0000

  const NONCE_CHECK_INTERVAL := 1024

  /** Number of trials done, and the nonce that met the target if there was one. */
  datatype Report = Report(nonce: Option<nat>, tried: nat) | Crashed

  /** What a worker's report says about its range. */
  ghost predicate IsHonest(sha512: Bytes -> Digest, initial: Digest, target: nat, start: nat, budget: nat, r: Report) {
    r.Report? ==>
      && r.tried <= budget
      && AllFailed(sha512, initial, target, start, r.tried)
      && (r.nonce.Some? ==>
            && r.tried < budget && r.nonce.value == Wrap64(start + r.tried)
            && Meets(sha512, initial, target, r.nonce.value))
  }

  /** The worker. `stops(t)`: the stop event is seen set before trial t; it is looked at every 1024 trials. */
  method SearchRange(sha512: Bytes -> Digest, initial: Digest, target: nat, start: nat, budget: nat, stops: nat -> bool)
    returns (r: Report)
    ensures r.Report? && IsHonest(sha512, initial, target, start, budget, r)
    ensures r.nonce.None? && r.tried < budget ==> r.tried % NONCE_CHECK_INTERVAL == 0 && stops(r.tried)
  {
    hide Meets, Wrap64;
    var tried: nat := 0;
    while tried < budget
      invariant tried <= budget
      invariant AllFailed(sha512, initial, target, start, tried)
    {
      if tried % NONCE_CHECK_INTERVAL == 0 && stops(tried) {
        return Report(None, tried);
      }
      var nonce := Wrap64(start + tried);
      if Meets(sha512, initial, target, nonce) {
        return Report(Some(nonce), tried);
      }
      assert !MeetsAt(sha512, initial, target, start, tried);
      tried := tried + 1;
    }
    return Report(None, budget);
  }

  /** The `k`-th range handed out starts here. */
  function RangeStart(origin: nat, k: nat): nat {
    Wrap64(origin + k * STEP)
  }

  predicate InRange(origin: nat, k: nat, nonce: nat) {
    Wrap64(nonce - RangeStart(origin, k)) < STEP
  }

  lemma WrapDifference(a: int, b: int)
    ensures Wrap64(a - Wrap64(b)) == Wrap64(a - b)
  {
    var q := b / MAX_U64;
    assert b == q * MAX_U64 + Wrap64(b);
    WrapMultiple(a - b, q);
  }

  lemma WrapMultiple(a: int, q: int)
    ensures Wrap64(a + q * MAX_U64) == Wrap64(a)
  {
  }

  /** The ranges tile the nonces in order: a nonce lies in range `k` exactly when its distance from the
      origin is between k and k + 1 steps, counting the first 2^44 ranges. */
  lemma RangeOfNonce(origin: nat, k: nat, nonce: nat)
    requires k < RANGES && nonce < MAX_U64
    ensures InRange(origin, k, nonce) <==> Wrap64(nonce - origin) / STEP == k
  {
    WrapDifference(nonce, origin + k * STEP);
    var d := Wrap64(nonce - origin);
    var q := (nonce - origin) / MAX_U64;
    assert nonce - origin == q * MAX_U64 + d;
    WrapMultiple(d - k * STEP, q);
    assert RANGES * STEP == MAX_U64;
    assert Wrap64(nonce - RangeStart(origin, k)) == Wrap64(d - k * STEP);
    assert -MAX_U64 < d - k * STEP < MAX_U64;
    if d >= k * STEP {
      assert Wrap64(d - k * STEP) == d - k * STEP;
    } else {
      WrapMultiple(d - k * STEP, 1);
      assert Wrap64(d - k * STEP) == d - k * STEP + MAX_U64;
      assert d - k * STEP + MAX_U64 >= MAX_U64 - k * STEP >= STEP;
    }
  }

  /** Until 2^44 ranges are out no nonce is handed out twice; the first 2^44 cover them all. */
  lemma RangesTile(origin: nat, nonce: nat)
    requires nonce < MAX_U64
    ensures forall i: nat, j: nat :: i < j < RANGES ==> !(InRange(origin, i, nonce) && InRange(origin, j, nonce))
    ensures exists k: nat :: k < RANGES && InRange(origin, k, nonce)
  {
    forall i: nat, j: nat | i < j < RANGES
      ensures !(InRange(origin, i, nonce) && InRange(origin, j, nonce))
    {
      RangeOfNonce(origin, i, nonce);
      RangeOfNonce(origin, j, nonce);
    }
    RangeOfNonce(origin, Wrap64(nonce - origin) / STEP, nonce);
  }

  lemma WrapUnique(start: nat, u: nat)
    requires u < MAX_U64
    ensures Wrap64(Wrap64(start + u) - start) == u
  {
    var q := (start + u) / MAX_U64;
    assert Wrap64(start + u) - start == u + -q * MAX_U64;
    WrapMultiple(u, -q);
  }

  /** A full report without a nonce rules the whole range out. */
  lemma EmptyReport(sha512: Bytes -> Digest, initial: Digest, target: nat, origin: nat, k: nat, nonce: nat)
    requires IsHonest(sha512, initial, target, RangeStart(origin, k), STEP, Report(None, STEP))
    requires nonce < MAX_U64 && InRange(origin, k, nonce)
    ensures !Meets(sha512, initial, target, nonce)
  {
    hide Wrap64, Meets;
    var u := WrapReaches(RangeStart(origin, k), nonce);
    WrapUnique(RangeStart(origin, k), u);
    assert !MeetsAt(sha512, initial, target, RangeStart(origin, k), u);
  }

  /** When the first `n` ranges have all reported empty, no nonce within n steps of the origin works;
      with all 2^44 of them, no nonce works at all. */
  lemma EmptyPrefix(sha512: Bytes -> Digest, initial: Digest, target: nat, origin: nat, n: nat)
    requires n <= RANGES
    requires forall k: nat :: k < n ==>
      IsHonest(sha512, initial, target, RangeStart(origin, k), STEP, Report(None, STEP))
    ensures forall nonce: nat :: nonce < MAX_U64 && Wrap64(nonce - origin) < n * STEP
                                 ==> !Meets(sha512, initial, target, nonce)
    ensures n == RANGES ==> forall nonce: nat :: nonce < MAX_U64 ==> !Meets(sha512, initial, target, nonce)
  {
    forall nonce: nat | nonce < MAX_U64 && Wrap64(nonce - origin) < n * STEP
      ensures !Meets(sha512, initial, target, nonce)
    {
      var k := Wrap64(nonce - origin) / STEP;
      RangeOfNonce(origin, k, nonce);
      EmptyReport(sha512, initial, target, origin, k, nonce);
    }
  }

  /** What the worker of future number `f` will report. */
  function ReportOf(report: nat -> Report, f: nat): Report {
    report(f)
  }

  /** The worker neither crashed nor was told to stop: it found a nonce or went through its whole range. */
  predicate IsFull(r: Report) {
    r.Report? && (r.nonce.Some? || r.tried == STEP)
  }

  /** The future yields no nonce. */
  predicate CameUpEmpty(r: Report) {
    r.Crashed? || r.nonce.None?
  }

  function TrialsOf(r: Report): nat {
    if r.Crashed? then 0 else r.tried
  }

  /** A choice of finished futures, each once. */
  ghost predicate IsChoice(done: seq<nat>, futures: set<nat>) {
    Distinct(done) && forall f :: f in done ==> f in futures
  }

  /** Every range handed out is being searched or has come up empty. */
  ghost predicate NoneLost(futures: set<nat>, submitted: nat, report: nat -> Report) {
    forall f: nat :: f < submitted ==> f in futures || CameUpEmpty(ReportOf(report, f))
  }

  lemma NoneLostNext(futures: set<nat>, submitted: nat, report: nat -> Report, future: nat)
    requires NoneLost(futures, submitted, report) && CameUpEmpty(ReportOf(report, future))
    ensures NoneLost(futures - {future} + {submitted}, submitted + 1, report)
  {
  }

  /** The futures after a round: finished ones give way to new ones, numbered from `next` on. */
  function Replaced(futures: set<nat>, done: seq<nat>, next: nat): set<nat> {
    if done == [] then futures
    else Replaced(futures, done[..|done| - 1], next) - {done[|done| - 1]} + {next + |done| - 1}
  }

  lemma {:induction false} ReplacedHas(futures: set<nat>, done: seq<nat>, next: nat)
    requires IsChoice(done, futures) && forall f :: f in futures ==> f < next
    ensures forall f :: f in Replaced(futures, done, next) <==>
        (f in futures && f !in done) || next <= f < next + |done|
  {
    hide IsChoice, Replaced;
    ReplacedLast(futures, done, next);
    if done != [] {
      var front, last := done[..|done| - 1], done[|done| - 1];
      ChoicePrefix(done, futures, |front|);
      ReplacedHas(futures, front, next);
      assert done == front + [last];
      assert forall f :: f in done <==> f in front || f == last;
      assert last < next;
    }
  }

  lemma ReplacedLast(futures: set<nat>, done: seq<nat>, next: nat)
    ensures done == [] ==> Replaced(futures, done, next) == futures
    ensures done != [] ==>
              Replaced(futures, done, next)
              == Replaced(futures, done[..|done| - 1], next) - {done[|done| - 1]} + {next + |done| - 1}
  {
  }

  lemma {:induction false} ReplacedSize(futures: set<nat>, done: seq<nat>, next: nat)
    requires IsChoice(done, futures) && forall f :: f in futures ==> f < next
    ensures |Replaced(futures, done, next)| == |futures|
  {
    if done != [] {
      var front, last := done[..|done| - 1], done[|done| - 1];
      assert done == front + [last];
      ReplacedSize(futures, front, next);
      ReplacedHas(futures, front, next);
      SwapSize(Replaced(futures, front, next), last, next + |front|);
    }
  }

  lemma SwapSize(s: set<nat>, x: nat, y: nat)
    requires x in s && y !in s
    ensures |s - {x} + {y}| == |s|
  {
    assert (s - {x} + {y}) - {y} == s - {x};
  }

  lemma {:induction false} FirstNumbers(s: set<nat>, n: nat)
    requires forall f: nat :: f in s <==> f < n
    ensures |s| == n
  {
    if n == 0 {
      assert s == {};
    } else {
      FirstNumbers(s - {n - 1}, n - 1);
    }
  }

  lemma StillPending(done: seq<nat>, futures: set<nat>, next: nat, i: nat)
    requires IsChoice(done, futures) && i < |done| && forall f :: f in futures ==> f < next
    ensures done[i] in Replaced(futures, done[..i], next)
  {
    ChoicePrefix(done, futures, i);
    ReplacedHas(futures, done[..i], next);
  }

  lemma ReplacedNext(futures: set<nat>, done: seq<nat>, next: nat, i: nat)
    requires i < |done|
    ensures Replaced(futures, done[..i + 1], next) == Replaced(futures, done[..i], next) - {done[i]} + {next + i}
  {
    assert done[..i + 1][..i] == done[..i];
  }

  lemma ChoicePrefix(done: seq<nat>, futures: set<nat>, i: nat)
    requires IsChoice(done, futures) && i < |done|
    ensures IsChoice(done[..i], futures) && done[i] in futures && done[i] !in done[..i]
  {
  }

  /** How a solve ends, or that it has not ended within the rounds looked at. */
  datatype Outcome = Solved(nonce: nat) | Stopped | NoWorkers | StillRunning

  /** One solve: the next free nonce, the trials counted so far and the ranges being searched. `report` says
      what the worker of each future will report. */
  class Solver {
    const sha512: Bytes -> Digest
    const initial: Digest
    const target: nat
    const origin: nat
    const report: nat -> Report
    var started: nat
    var tried: nat
    var futures: map<nat, nat>
    var submitted: nat

    constructor (sha512: Bytes -> Digest, initial: Digest, target: nat, startNonce: int, report: nat -> Report)
      requires forall f: nat :: IsHonest(sha512, initial, target, RangeStart(Wrap64(startNonce), f), STEP,
          ReportOf(report, f))
      ensures Valid() && futures == map[] && submitted == 0 && tried == 0
      ensures this.sha512 == sha512 && this.initial == initial && this.target == target && this.report == report
      ensures origin == Wrap64(startNonce)
    {
      this.sha512, this.initial, this.target, this.report := sha512, initial, target, report;
      origin, started := Wrap64(startNonce), Wrap64(startNonce);
      tried, submitted, futures := 0, 0, map[];
    }

    /** Ranges are handed out in order, one per submitted future; each future holds its own range. */
    ghost predicate Valid()
      reads this
    {
      && origin < MAX_U64
      && started == RangeStart(origin, submitted)
      && (forall f :: f in futures ==> f < submitted && futures[f] == RangeStart(origin, f))
      && AllHonest()
    }

    ghost predicate AllHonest() {
      forall f: nat :: IsHonest(sha512, initial, target, RangeStart(origin, f), STEP, ReportOf(report, f))
    }

    ghost predicate NothingLost()
      reads this
    {
      NoneLost(futures.Keys, submitted, report)
    }

    function Trials(done: seq<nat>): nat {
      if done == [] then 0
      else Trials(done[..|done| - 1]) + TrialsOf(ReportOf(report, done[|done| - 1]))
    }

    lemma NoTrials(done: seq<nat>)
      ensures Trials(done[..0]) == 0 && forall fs, next: nat :: Replaced(fs, done[..0], next) == fs
    {
    }

    lemma TrialsNext(done: seq<nat>, i: nat)
      requires i < |done|
      ensures Trials(done[..i + 1]) == Trials(done[..i]) + TrialsOf(ReportOf(report, done[i]))
    {
      assert done[..i + 1][..i] == done[..i];
    }

    lemma NextStart(k: nat)
      ensures Wrap64(RangeStart(origin, k) + STEP) == RangeStart(origin, k + 1)
    {
      var n := origin + k * STEP;
      var q := n / MAX_U64;
      assert n == q * MAX_U64 + Wrap64(n);
      WrapMultiple(Wrap64(n) + STEP, q);
      assert n + STEP == origin + (k + 1) * STEP;
    }

    method Submit()
      requires Valid()
      modifies this`futures, this`started, this`submitted
      ensures Valid() && submitted == old(submitted) + 1
      ensures futures == old(futures)[old(submitted) := RangeStart(origin, old(submitted))]
    {
      hide AllHonest, RangeStart;
      NextStart(submitted);
      futures := futures[submitted := started];
      started := Wrap64(started + STEP);
      submitted := submitted + 1;
    }

    method SeedFutures(workers: nat)
      requires Valid() && futures == map[] && submitted == 0
      modifies this`futures, this`started, this`submitted
      ensures Valid() && NothingLost() && submitted == workers
      ensures forall f: nat :: f in futures <==> f < workers
    {
      hide AllHonest, RangeStart;
      for i := 0 to workers
        invariant Valid() && submitted == i && forall f: nat :: f in futures <==> f < i
      {
        Submit();
      }
    }

    lemma FoundMeets(f: nat)
      requires Valid() && ReportOf(report, f).Report? && ReportOf(report, f).nonce.Some?
      ensures Meets(sha512, initial, target, ReportOf(report, f).nonce.value)
    {
      hide Meets, Wrap64, RangeStart, AllFailed;
      assert IsHonest(sha512, initial, target, RangeStart(origin, f), STEP, ReportOf(report, f));
    }

    /** Takes the result of a finished future, which is replaced by the next range unless it found a nonce. */
    method TakeResult(future: nat) returns (found: Option<nat>)
      requires Valid() && NothingLost() && future in futures
      modifies this`futures, this`started, this`submitted, this`tried
      ensures Valid() && future < old(submitted)
      ensures tried == old(tried) + match report(future) case Report(_, n) => n case Crashed => 0
      ensures found.Some? ==>
        && submitted == old(submitted) && ReportOf(report, future).Report? && ReportOf(report, future).nonce == found
        && Meets(sha512, initial, target, found.value)
      ensures found.None? ==>
        && CameUpEmpty(ReportOf(report, future)) && NothingLost() && submitted == old(submitted) + 1
        && futures.Keys == old(futures.Keys) - {future} + {old(submitted)}
    {
      hide Meets, RangeStart, AllHonest, NoneLost;
      ghost var before := futures;
      futures := futures - {future};
      assert futures.Keys == before.Keys - {future};
      var result := ReportOf(report, future);
      tried := tried + TrialsOf(result);
      if result.Report? && result.nonce.Some? {
        FoundMeets(future);
        return result.nonce;
      }
      NoneLostNext(before.Keys, submitted, report, future);
      found := None;
      Submit();
      assert futures.Keys == before.Keys - {future} + {old(submitted)};
    }

    /** One round over the finished futures. A found nonce ends the round; every other finished range is
        replaced by the next one. `n` counts the futures looked at. */
    method PollFutures(done: seq<nat>) returns (found: Option<nat>, ghost n: nat)
      requires Valid() && NothingLost() && IsChoice(done, futures.Keys)
      modifies this`futures, this`started, this`submitted, this`tried
      ensures Valid() && n <= |done| && tried == old(tried) + Trials(done[..n])
      ensures found.Some? ==>
        && Meets(sha512, initial, target, found.value)
        && n > 0 && done[n - 1] < submitted
        && ReportOf(report, done[n - 1]).Report? && ReportOf(report, done[n - 1]).nonce == found
      ensures found.None? ==>
        && n == |done| && NothingLost()
        && submitted == old(submitted) + |done|
        && futures.Keys == Replaced(old(futures.Keys), done, old(submitted))
    {
      hide Meets, RangeStart, AllHonest, NoneLost, CameUpEmpty, Trials, Replaced, IsChoice;
      ghost var before, first := futures.Keys, submitted;
      found, n := None, 0;
      NoTrials(done);
      for i := 0 to |done|
        invariant found.None? && n == i && tried == old(tried) + Trials(done[..i])
        invariant Valid() && NothingLost() && submitted == first + i
        invariant futures.Keys == Replaced(before, done[..i], first)
      {
        StillPending(done, before, first, i);
        ReplacedNext(before, done, first, i);
        TrialsNext(done, i);
        n := n + 1;
        found := TakeResult(done[i]);
        if found.Some? {
          return;
        }
      }
      assert done[..|done|] == done;
    }

    /** The whole solve, for any number of rounds: the stop event is looked at before every round, and the futures
        finished by then are polled. A nonce returned meets the target and was reported for a range handed out; the
        solve ends without one only when stopped, or for want of workers. A range that was handed out, was searched
        to its end and holds a solution is not passed over. */
    method Solve(workers: nat, stops: nat -> bool, finished: (nat, set<nat>) -> seq<nat>, rounds: nat)
      returns (outcome: Outcome)
      requires Valid() && futures == map[] && submitted == 0
      requires forall k: nat, fs: set<nat> :: IsChoice(finished(k, fs), fs)
      modifies this`futures, this`started, this`submitted, this`tried
      ensures Valid()
      ensures outcome.Solved? ==>
        && Meets(sha512, initial, target, outcome.nonce)
        && exists f: nat ::
          f < submitted && ReportOf(report, f).Report? && ReportOf(report, f).nonce == Some(outcome.nonce)
      ensures outcome.Stopped? ==> exists k: nat :: k < rounds && stops(k)
      ensures outcome.NoWorkers? ==> workers == 0
      ensures !outcome.Solved? ==> NothingLost() && |futures.Keys| == workers
      ensures forall f: nat, nonce: nat ::
        f < submitted && f < RANGES && IsFull(ReportOf(report, f)) && Solves(f, nonce) ==>
            outcome.Solved? || f in futures
    {
      hide Meets, Wrap64, RangeStart, AllHonest, ReportOf, IsFull, Solves, CameUpEmpty, NoneLost, Trials, Replaced;
      SeedFutures(workers);
      FirstNumbers(futures.Keys, workers);
      var round := 0;
      while round < rounds
        invariant round <= rounds && Valid() && NothingLost() && |futures.Keys| == workers
      {
        if futures == map[] {
          assert futures.Keys == {};
          SolutionsAreKept();
          return NoWorkers;
        }
        if stops(round) {
          SolutionsAreKept();
          return Stopped;
        }
        assert IsChoice(finished(round, futures.Keys), futures.Keys);
        ReplacedSize(futures.Keys, finished(round, futures.Keys), submitted);
        var found, n := PollFutures(finished(round, futures.Keys));
        if found.Some? {
          return Solved(found.value);
        }
        round := round + 1;
      }
      SolutionsAreKept();
      outcome := StillRunning;
    }

    /** The nonce lies in the range of future `f` and meets the target. */
    predicate Solves(f: nat, nonce: nat) {
      nonce < MAX_U64 && InRange(origin, f, nonce) && Meets(sha512, initial, target, nonce)
    }

    lemma SolutionsAreKept()
      requires Valid() && NothingLost()
      ensures forall f: nat, nonce: nat ::
        f < submitted && f < RANGES && IsFull(ReportOf(report, f)) && Solves(f, nonce) ==> f in futures
    {
      hide Meets, Wrap64, RangeStart, IsHonest, InRange;
      forall f: nat, nonce: nat | f < submitted && f < RANGES && IsFull(ReportOf(report, f)) && Solves(f, nonce)
        ensures f in futures
      {
        if f !in futures {
          assert ReportOf(report, f) == Report(None, STEP);
          EmptyReport(sha512, initial, target, origin, f, nonce);
        }
      }
    }
  }
}
