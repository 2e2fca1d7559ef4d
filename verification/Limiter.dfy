/** The login limiter under any interleaving of logins from any addresses and of a sweeper whose clock reading is stale:
    pruning never changes a decision, and the number of failures in any minute is bounded exactly. */
module Limiter {
  import opened Prelude
  import opened Dashauth

  /** `attempts` is the pruned map of the code; `history` keeps every failure; `pending` counts the handlers of an
      address that have passed the check and have neither recorded a failure nor left; `sweeps` holds the clock
      readings of sweeper rounds that have not taken the lock yet. */
  datatype State = State(
    clock: nat,
    attempts: Attempts,
    history: Attempts,
    pending: map<string, nat>,
    sweeps: multiset<nat>)

  datatype Action =
    | Tick(nanos: nat)
    | Check(ip: string)
    | Fail(ip: string)
    | Leave(ip: string)
    | SweepRead
    | SweepApply(reading: nat)

  predicate Initial(s: State) {
    s.attempts == map[] && s.history == map[] && s.pending == map[] && s.sweeps == multiset{}
  }

  function PendingOf(s: State, ip: string): nat {
    if ip in s.pending then s.pending[ip] else 0
  }

  function Step(s: State, a: Action): State {
    match a
    case Tick(nanos) => s.(clock := s.clock + nanos)
    case Check(ip) =>
      var pruned := s.(attempts := Prune(s.attempts, ip, s.clock));
      if Allowed(s.attempts, ip, s.clock) then pruned.(pending := s.pending[ip := PendingOf(s, ip) + 1]) else pruned
    case Fail(ip) =>
      if PendingOf(s, ip) == 0 then s
      else
        s.(attempts := Record(s.attempts, ip, s.clock),
           history := s.history[ip := AttemptsOf(s.history, ip) + [s.clock]],
           pending := s.pending[ip := PendingOf(s, ip) - 1])
    case Leave(ip) =>
      if PendingOf(s, ip) == 0 then s else s.(pending := s.pending[ip := PendingOf(s, ip) - 1])
    case SweepRead => s.(sweeps := s.sweeps + multiset{s.clock})
    case SweepApply(reading) =>
      if reading !in s.sweeps then s
      else s.(attempts := Sweep(s.attempts, reading), sweeps := s.sweeps - multiset{reading})
  }

  function Run(s: State, actions: seq<Action>): State {
    if actions == [] then s else Step(Run(s, actions[..|actions| - 1]), actions[|actions| - 1])
  }

  // ---------- pruning ----------

  /** Pruning with an earlier cutoff is invisible to a later one. */
  lemma {:induction false} RecentOfRecent(attempts: seq<nat>, early: int, late: int)
    requires early <= late
    ensures Recent(Recent(attempts, early), late) == Recent(attempts, late)
  {
    if attempts == [] {
    } else {
      var front, last := attempts[..|attempts| - 1], attempts[|attempts| - 1];
      RecentOfRecent(front, early, late);
      var kept := Recent(front, early);
      assert (kept + [last])[..|kept|] == kept;
    }
  }

  lemma RecentAppend(attempts: seq<nat>, x: nat, cutoff: int)
    ensures Recent(attempts + [x], cutoff) == if x > cutoff then Recent(attempts, cutoff) + [x]
             else Recent(attempts, cutoff)
  {
  }

  /** What the pruned map shows of an address, from a cutoff on, is what the full history shows. */
  predicate SameFrom(s: State, ip: string, cutoff: int) {
    Recent(AttemptsOf(s.attempts, ip), cutoff) == Recent(AttemptsOf(s.history, ip), cutoff)
  }

  ghost predicate Faithful(s: State) {
    && (forall ip, cutoff: int :: s.clock - WINDOW <= cutoff ==> SameFrom(s, ip, cutoff))
    && (forall reading :: reading in s.sweeps ==> reading <= s.clock)
  }

  lemma PruneSame(s: State, other: string, ip: string, cutoff: int)
    requires SameFrom(s, ip, cutoff) && s.clock - WINDOW <= cutoff
    ensures SameFrom(s.(attempts := Prune(s.attempts, other, s.clock)), ip, cutoff)
  {
    RecentOfRecent(AttemptsOf(s.attempts, other), s.clock - WINDOW, cutoff);
  }

  lemma RecordSame(s: State, other: string, ip: string, cutoff: int)
    requires SameFrom(s, ip, cutoff)
    ensures SameFrom(s.(attempts := Record(s.attempts, other, s.clock), history := Record(s.history, other, s.clock)),
             ip, cutoff)
  {
    RecentAppend(AttemptsOf(s.attempts, other), s.clock, cutoff);
    RecentAppend(AttemptsOf(s.history, other), s.clock, cutoff);
  }

  lemma SweepSame(s: State, reading: nat, ip: string, cutoff: int)
    requires SameFrom(s, ip, cutoff) && reading - WINDOW <= cutoff
    ensures SameFrom(s.(attempts := Sweep(s.attempts, reading)), ip, cutoff)
  {
    RecentOfRecent(AttemptsOf(s.attempts, ip), reading - WINDOW, cutoff);
  }

  lemma StepSame(s: State, a: Action, ip: string, cutoff: int)
    requires SameFrom(s, ip, cutoff) && s.clock - WINDOW <= cutoff
    requires forall reading :: reading in s.sweeps ==> reading <= s.clock
    ensures SameFrom(Step(s, a), ip, cutoff)
  {
    match a
    case Check(other) => PruneSame(s, other, ip, cutoff);
    case Fail(other) => RecordSame(s, other, ip, cutoff);
    case SweepApply(reading) =>
      if reading in s.sweeps {
        SweepSame(s, reading, ip, cutoff);
      }
    case _ =>
  }

  lemma StepFaithful(s: State, a: Action)
    requires Faithful(s)
    ensures Faithful(Step(s, a))
  {
    var s' := Step(s, a);
    forall ip, cutoff: int | s'.clock - WINDOW <= cutoff
      ensures SameFrom(s', ip, cutoff)
    {
      StepSame(s, a, ip, cutoff);
    }
  }

  lemma {:induction false} RunFaithful(s: State, actions: seq<Action>)
    requires Initial(s)
    ensures Faithful(Run(s, actions))
  {
    if actions == [] {
    } else {
      RunFaithful(s, actions[..|actions| - 1]);
      StepFaithful(Run(s, actions[..|actions| - 1]), actions[|actions| - 1]);
    }
  }

  /** In every reachable state the pruned map allows a login exactly when the full history would. */
  lemma PruningIsInvisible(s: State, actions: seq<Action>, ip: string)
    requires Initial(s)
    ensures var t := Run(s, actions); Allowed(t.attempts, ip, t.clock) <==> Allowed(t.history, ip, t.clock)
  {
    RunFaithful(s, actions);
    var t := Run(s, actions);
    assert SameFrom(t, ip, t.clock - WINDOW);
  }

  lemma {:induction false} AllOld(attempts: seq<nat>, cutoff: int)
    requires forall i :: 0 <= i < |attempts| ==> attempts[i] <= cutoff
    ensures Recent(attempts, cutoff) == []
  {
    if attempts == [] {
    } else {
      AllOld(attempts[..|attempts| - 1], cutoff);
    }
  }

  /** An address whose failures are all at least a minute old may try again, however many there were. */
  lemma AllowedAfterAMinute(s: State, actions: seq<Action>, ip: string)
    requires Initial(s)
    requires var t := Run(s, actions); var failures := AttemptsOf(t.history, ip);
             forall i :: 0 <= i < |failures| ==> failures[i] + WINDOW <= t.clock
    ensures var t := Run(s, actions); Allowed(t.attempts, ip, t.clock)
  {
    var t := Run(s, actions);
    PruningIsInvisible(s, actions, ip);
    AllOld(AttemptsOf(t.history, ip), t.clock - WINDOW);
  }

  // ---------- the bound ----------

  /** At no moment of the run have more than `k` handlers of the address passed the check and not finished. */
  predicate AtMostPending(s: State, actions: seq<Action>, ip: string, k: nat) {
    forall n :: 0 <= n <= |actions| ==> PendingOf(Run(s, actions[..n]), ip) <= k
  }

  function RecentFailures(s: State, ip: string): nat {
    |Recent(AttemptsOf(s.history, ip), s.clock - WINDOW)|
  }

  /** How many failures fall in the minute that ends at `end`: later than `end - 60 s`, not later than `end`. */
  function InMinute(failures: seq<nat>, end: int): (n: nat)
    ensures n <= |failures|
  {
    if failures == [] then 0
    else InMinute(failures[..|failures| - 1], end) + if end - WINDOW < failures[|failures| - 1] <= end then 1 else 0
  }

  lemma InMinuteAppend(failures: seq<nat>, x: nat, end: int)
    ensures InMinute(failures + [x], end) == InMinute(failures, end) + if end - WINDOW < x <= end then 1 else 0
  {
  }

  lemma {:induction false} MinuteWithinRecent(failures: seq<nat>, end: int, cutoff: int)
    requires cutoff <= end - WINDOW
    ensures InMinute(failures, end) <= |Recent(failures, cutoff)|
  {
    if failures == [] {
    } else {
      MinuteWithinRecent(failures[..|failures| - 1], end, cutoff);
    }
  }

  lemma {:induction false} RecentShrinks(attempts: seq<nat>, early: int, late: int)
    requires early <= late
    ensures |Recent(attempts, late)| <= |Recent(attempts, early)|
  {
    if attempts == [] {
    } else {
      RecentShrinks(attempts[..|attempts| - 1], early, late);
    }
  }

  ghost predicate Bounded(s: State, ip: string, k: nat) {
    && RecentFailures(s, ip) + PendingOf(s, ip) <= MAX_LOGIN_PER_MIN - 1 + k
    && forall end: int :: InMinute(AttemptsOf(s.history, ip), end) <= MAX_LOGIN_PER_MIN - 1 + k
  }

  lemma FailBounded(s: State, ip: string, k: nat)
    requires Bounded(s, ip, k) && PendingOf(s, ip) > 0
    ensures Bounded(Step(s, Fail(ip)), ip, k)
  {
    var failures := AttemptsOf(s.history, ip);
    RecentAppend(failures, s.clock, s.clock - WINDOW);
    forall end: int
      ensures InMinute(failures + [s.clock], end) <= MAX_LOGIN_PER_MIN - 1 + k
    {
      InMinuteAppend(failures, s.clock, end);
      if end - WINDOW < s.clock <= end {
        MinuteWithinRecent(failures, end, s.clock - WINDOW);
      }
    }
  }

  /** A check that passes found at most four recent failures, in the pruned map as in the history. */
  lemma CheckBounded(s: State, other: string, ip: string, k: nat)
    requires SameFrom(s, ip, s.clock - WINDOW) && Bounded(s, ip, k) && PendingOf(Step(s, Check(other)), ip) <= k
    ensures Bounded(Step(s, Check(other)), ip, k)
  {
  }

  lemma StepBounded(s: State, a: Action, ip: string, k: nat)
    requires Faithful(s) && Bounded(s, ip, k) && PendingOf(Step(s, a), ip) <= k
    ensures Bounded(Step(s, a), ip, k)
  {
    match a
    case Tick(nanos) => RecentShrinks(AttemptsOf(s.history, ip), s.clock - WINDOW, s.clock + nanos - WINDOW);
    case Check(other) => CheckBounded(s, other, ip, k);
    case Fail(other) =>
      if other == ip && PendingOf(s, ip) > 0 {
        FailBounded(s, ip, k);
      }
    case _ =>
  }

  /** With at most `k` handlers of an address between check and record, the failures of the last minute together with
      those handlers never exceed 4 + k, and no minute of the whole run holds more than 4 + k failures of that address:
      exactly 5 when handlers come one at a time. */
  lemma {:induction false} FailuresBounded(s: State, actions: seq<Action>, ip: string, k: nat)
    requires Initial(s) && AtMostPending(s, actions, ip, k)
    ensures var t := Run(s, actions);
      && RecentFailures(t, ip) + PendingOf(t, ip) <= 4 + k
      && forall end: int :: InMinute(AttemptsOf(t.history, ip), end) <= 4 + k
  {
    RunBounded(s, actions, ip, k);
  }

  lemma {:induction false} RunBounded(s: State, actions: seq<Action>, ip: string, k: nat)
    requires Initial(s) && AtMostPending(s, actions, ip, k)
    ensures Bounded(Run(s, actions), ip, k)
  {
    if actions == [] {
    } else {
      var n := |actions| - 1;
      var front := actions[..n];
      forall m | 0 <= m <= n
        ensures PendingOf(Run(s, front[..m]), ip) <= k
      {
        assert front[..m] == actions[..m];
      }
      RunBounded(s, front, ip, k);
      RunFaithful(s, front);
      assert actions[..|actions|] == actions;
      StepBounded(Run(s, front), actions[n], ip, k);
    }
  }

  // ---------- in plain counts ----------

  function Within(end: int): nat -> bool {
    (x: nat) => end - WINDOW < x <= end
  }

  lemma {:induction false} InMinuteFilters(failures: seq<nat>, end: int)
    ensures InMinute(failures, end) == |Filter(failures, Within(end))|
  {
    if failures == [] {
    } else {
      InMinuteFilters(failures[..|failures| - 1], end);
    }
  }

  lemma InMinuteCount(failures: seq<nat>, end: int)
    ensures InMinute(failures, end)
         == |set i | 0 <= i < |failures| && end - 60_000_000_000 < failures[i] <= end|
  {
    InMinuteFilters(failures, end);
    FilterSize(failures, Within(end));
    assert (set i | 0 <= i < |failures| && end - 60_000_000_000 < failures[i] <= end)
        == Positions(failures, Within(end));
  }

  /** Counted one by one: of all failures of an address in a run with at most `k` of its handlers in the gap, at most
      4 + k fall in any sixty seconds. */
  lemma FailuresInAnyMinute(s: State, actions: seq<Action>, ip: string, k: nat, end: int)
    requires Initial(s) && AtMostPending(s, actions, ip, k)
    ensures var failures := AttemptsOf(Run(s, actions).history, ip);
      |set i | 0 <= i < |failures| && end - 60_000_000_000 < failures[i] <= end| <= 4 + k
  {
    FailuresBounded(s, actions, ip, k);
    InMinuteCount(AttemptsOf(Run(s, actions).history, ip), end);
  }

  /** And a check lets a handler through exactly when fewer than five of all failures so far are less than sixty seconds
      old. */
  lemma AllowedExactly(s: State, actions: seq<Action>, ip: string)
    requires Initial(s)
    ensures var t := Run(s, actions); var failures := AttemptsOf(t.history, ip);
      PendingOf(Step(t, Check(ip)), ip)
      == PendingOf(t, ip) + if |set i | 0 <= i < |failures| && failures[i] > t.clock - 60_000_000_000| < 5 then 1 else 0
  {
    var t := Run(s, actions);
    PruningIsInvisible(s, actions, ip);
    RecentCount(AttemptsOf(t.history, ip), t.clock - WINDOW);
  }

  // ---------- the bound is reached ----------

  lemma ExtendRun(s: State, actions: seq<Action>, a: Action, ip: string, k: nat)
    requires AtMostPending(s, actions, ip, k) && PendingOf(Step(Run(s, actions), a), ip) <= k
    ensures Run(s, actions + [a]) == Step(Run(s, actions), a)
    ensures AtMostPending(s, actions + [a], ip, k)
  {
    var longer := actions + [a];
    assert longer[..|actions|] == actions;
    forall n | 0 <= n <= |longer|
      ensures PendingOf(Run(s, longer[..n]), ip) <= k
    {
      if n <= |actions| {
        assert longer[..n] == actions[..n];
      } else {
        assert longer[..n] == longer;
      }
    }
  }

  /** `n` failures recorded at the present instant, in the map as in the history. */
  predicate FailedNow(s: State, ip: string, n: nat, pending: nat) {
    && AttemptsOf(s.attempts, ip) == AttemptsOf(s.history, ip) == seq(n, i => s.clock)
    && PendingOf(s, ip) == pending
  }

  lemma {:induction false} AllRecent(clock: nat, n: nat)
    ensures Recent(seq(n, i => clock), clock - WINDOW) == seq(n, i => clock)
    ensures InMinute(seq(n, i => clock), clock) == n
  {
    if n == 0 {
    } else {
      assert seq(n, i => clock)[..n - 1] == seq(n - 1, i => clock);
      AllRecent(clock, n - 1);
    }
  }

  lemma CheckNow(s: State, ip: string, n: nat, pending: nat)
    requires FailedNow(s, ip, n, pending) && n < MAX_LOGIN_PER_MIN
    ensures FailedNow(Step(s, Check(ip)), ip, n, pending + 1)
  {
    AllRecent(s.clock, n);
  }

  lemma FailNow(s: State, ip: string, n: nat, pending: nat)
    requires FailedNow(s, ip, n, pending) && pending > 0
    ensures FailedNow(Step(s, Fail(ip)), ip, n + 1, pending - 1)
  {
  }

  lemma {:induction false} FailSequentially(s: State, ip: string, k: nat, n: nat) returns (actions: seq<Action>)
    requires Initial(s) && k > 0 && n < MAX_LOGIN_PER_MIN
    ensures AtMostPending(s, actions, ip, k) && FailedNow(Run(s, actions), ip, n, 0)
    decreases n
  {
    actions := [];
    if n == 0 {
      assert seq(0, i => s.clock) == [];
    } else {
      actions := FailSequentially(s, ip, k, n - 1);
      CheckNow(Run(s, actions), ip, n - 1, 0);
      ExtendRun(s, actions, Check(ip), ip, k);
      actions := actions + [Check(ip)];
      FailNow(Run(s, actions), ip, n - 1, 1);
      ExtendRun(s, actions, Fail(ip), ip, k);
      actions := actions + [Fail(ip)];
    }
  }

  lemma {:induction false} CheckTogether(s: State, ip: string, k: nat, pending: nat) returns (actions: seq<Action>)
    requires Initial(s) && k > 0 && pending <= k
    ensures AtMostPending(s, actions, ip, k) && FailedNow(Run(s, actions), ip, 4, pending)
    decreases pending
  {
    if pending == 0 {
      actions := FailSequentially(s, ip, k, 4);
    } else {
      actions := CheckTogether(s, ip, k, pending - 1);
      CheckNow(Run(s, actions), ip, 4, pending - 1);
      ExtendRun(s, actions, Check(ip), ip, k);
      actions := actions + [Check(ip)];
    }
  }

  lemma {:induction false} FailTogether(s: State, ip: string, k: nat, failed: nat) returns (actions: seq<Action>)
    requires Initial(s) && k > 0 && failed <= k
    ensures AtMostPending(s, actions, ip, k) && FailedNow(Run(s, actions), ip, 4 + failed, k - failed)
    decreases failed
  {
    if failed == 0 {
      actions := CheckTogether(s, ip, k, k);
    } else {
      actions := FailTogether(s, ip, k, failed - 1);
      FailNow(Run(s, actions), ip, 3 + failed, k - failed + 1);
      ExtendRun(s, actions, Fail(ip), ip, k);
      actions := actions + [Fail(ip)];
    }
  }

  /** The bound is exact: for every k there is a run with at most k handlers in the gap and a minute with 4 + k
      failures. */
  lemma BoundIsReached(s: State, ip: string, k: nat) returns (actions: seq<Action>)
    requires Initial(s) && k > 0
    ensures AtMostPending(s, actions, ip, k)
    ensures InMinute(AttemptsOf(Run(s, actions).history, ip), Run(s, actions).clock) == 4 + k
  {
    actions := FailTogether(s, ip, k, k);
    AllRecent(Run(s, actions).clock, 4 + k);
  }
}
