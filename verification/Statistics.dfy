/** Statistics under interleaving: the five counts come from separate queries, each exact at its own state, in order. */
module Statistics {
  import opened Prelude
  import opened Authority
  import opened Storage
  import opened Lifecycle
  import opened Sorting
  import opened Invariant
  import opened Expiry
  import Durations
  import Rfc3339

  /** What the queries up to the last one read at a state: four counts, then the clock. */
  function ReadingAt(w: World, i: nat): nat
    requires i < 5
  {
    if i == 0 then |w.db.cas|
    else if i == 1 then |w.db.certs|
    else if i == 2 then CountStatus(w.db.certs, Active)
    else if i == 3 then CountStatus(w.db.certs, Revoked)
    else w.clock
  }

  /** What a statistics handler has read so far. */
  function ReadSoFar(th: Thread): (r: seq<nat>)
    ensures |r| <= 5
  {
    match th
    case StatsCerts(cas) => [cas]
    case StatsActive(cas, total) => [cas, total]
    case StatsRevoked(cas, total, active) => [cas, total, active]
    case StatsClock(cas, total, active, revoked) => [cas, total, active, revoked]
    case StatsExpiring(cas, total, active, revoked, now) => [cas, total, active, revoked, now]
    case _ => []
  }

  predicate Rising(js: seq<nat>) {
    forall i, j :: 0 <= i < j < |js| ==> js[i] <= js[j]
  }

  predicate ReadingFrom(env: Env, start: World, actions: seq<Action>, j: nat, i: nat, value: nat) {
    i < 5 && j <= |actions| && value == ReadingAt(Run(env, start, actions[..j]), i)
  }

  /** Each value was read at the state named beside it, and the states follow each other. */
  predicate Trail(env: Env, start: World, actions: seq<Action>, js: seq<nat>, values: seq<nat>) {
    && |js| == |values| <= 5 && Rising(js)
    && forall i :: 0 <= i < |js| ==> ReadingFrom(env, start, actions, js[i], i, values[i])
  }

  lemma TrailGrows(env: Env, start: World, actions: seq<Action>, js: seq<nat>, values: seq<nat>)
    requires actions != [] && Trail(env, start, actions[..|actions| - 1], js, values)
    ensures Trail(env, start, actions, js, values)
  {
    var front := actions[..|actions| - 1];
    forall i | 0 <= i < |js|
      ensures ReadingFrom(env, start, actions, js[i], i, values[i])
    {
      assert ReadingFrom(env, start, front, js[i], i, values[i]);
      assert front[..js[i]] == actions[..js[i]];
    }
  }

  lemma TrailAppends(env: Env, start: World, actions: seq<Action>, js: seq<nat>, values: seq<nat>, n: nat, value: nat)
    requires Trail(env, start, actions, js, values) && |js| < 5
    requires forall i :: 0 <= i < |js| ==> js[i] <= n
    requires ReadingFrom(env, start, actions, n, |js|, value)
    ensures Trail(env, start, actions, js + [n], values + [value])
  {
  }

  /** One statement reads the next value, or leaves what was read. */
  lemma NextReading(env: Env, w: World, th: Thread, draw: Draw)
    requires Advance(env, w.clock, w.db, th, draw).next.Some?
    ensures var read, next := ReadSoFar(th), ReadSoFar(Advance(env, w.clock, w.db, th, draw).next.value);
      next == [] || (|read| < 5 && next == read + [ReadingAt(w, |read|)])
  {
  }

  lemma AdmitReadsNothing(env: Env, req: Request)
    ensures Admit(env, req).Some? ==> ReadSoFar(Admit(env, req).value) == []
  {
  }

  lemma ReadingStep(env: Env, w: World, a: Action, t: nat)
    requires t in Step(env, w, a).threads
    ensures var next := ReadSoFar(Step(env, w, a).threads[t]);
      || next == []
      || (t in w.threads && next == ReadSoFar(w.threads[t]))
      || (t in w.threads && var read := ReadSoFar(w.threads[t]); |read| < 5 && next == read + [ReadingAt(w, |read|)])
  {
    if a.Begin? {
      AdmitReadsNothing(env, a.req);
    } else if a.Resume? && a.tid == t && t in w.threads && FreshDraw(w.threads, t, a.draw) {
      NextReading(env, w, w.threads[t], a.draw);
    }
  }

  lemma {:induction false} ReadInOrder(env: Env, start: World, actions: seq<Action>, t: nat) returns (js: seq<nat>)
    requires Initial(start) && t in Run(env, start, actions).threads
    ensures Trail(env, start, actions, js, ReadSoFar(Run(env, start, actions).threads[t]))
  {
    var n := |actions| - 1;
    var w, next := Run(env, start, actions[..n]), ReadSoFar(Run(env, start, actions).threads[t]);
    ReadingStep(env, w, actions[n], t);
    if next == [] {
      js := [];
    } else {
      js := ReadInOrder(env, start, actions[..n], t);
      var read := ReadSoFar(w.threads[t]);
      assert forall i :: 0 <= i < |js| ==> ReadingFrom(env, start, actions[..n], js[i], i, read[i]);
      TrailGrows(env, start, actions, js, read);
      if next != read {
        TrailAppends(env, start, actions, js, read, n, ReadingAt(w, |read|));
        js := js + [n];
      }
    }
  }

  /** The statistics are what the queries find at the states `js` and then `k`; the clock reading `now` for the deadline
      is that of the fifth of them. */
  predicate Snapshots(env: Env, start: World, actions: seq<Action>, js: seq<nat>, k: nat, now: nat, st: Stats) {
    && |js| == 5 && js[4] <= k
    && Trail(env, start, actions, js, [st.totalCAs, st.totalCerts, st.activeCerts, st.revokedCerts, now])
    && ExpiringFrom(env, start, actions, k, now, st.expiringSoon)
  }

  predicate ExpiringFrom(env: Env, start: World, actions: seq<Action>, k: nat, now: nat, count: nat) {
    k <= |actions| && count == ExpiringSoon(Run(env, start, actions[..k]).db.certs, now)
  }

  lemma LastQuery(env: Env, w: World, a: Action, st: Stats)
    requires st in Step(env, w, a).counts && st !in w.counts
    ensures a.Resume? && a.tid in w.threads && w.threads[a.tid].StatsExpiring?
    ensures var th := w.threads[a.tid];
      && ReadSoFar(th) == [st.totalCAs, st.totalCerts, st.activeCerts, st.revokedCerts, th.now]
      && st.expiringSoon == ExpiringSoon(w.db.certs, th.now)
  {
  }

  lemma SnapshotsGrow(env: Env, start: World, actions: seq<Action>, js: seq<nat>, k: nat, now: nat, st: Stats)
    requires actions != [] && Snapshots(env, start, actions[..|actions| - 1], js, k, now, st)
    ensures Snapshots(env, start, actions, js, k, now, st)
  {
    assert actions[..|actions| - 1][..k] == actions[..k];
    TrailGrows(env, start, actions, js, [st.totalCAs, st.totalCerts, st.activeCerts, st.revokedCerts, now]);
  }

  lemma TrailInRange(env: Env, start: World, actions: seq<Action>, js: seq<nat>, values: seq<nat>)
    requires Trail(env, start, actions, js, values)
    ensures forall i :: 0 <= i < |js| ==> js[i] <= |actions|
  {
    assert forall i :: 0 <= i < |js| ==> ReadingFrom(env, start, actions, js[i], i, values[i]);
  }

  lemma LastSnapshot(env: Env, start: World, actions: seq<Action>, w: World, a: Action, st: Stats)
    returns (js: seq<nat>, now: nat)
    requires Initial(start) && w == Run(env, start, actions)
    requires st in Step(env, w, a).counts && st !in w.counts
    ensures Snapshots(env, start, actions, js, |actions|, now, st)
  {
    LastQuery(env, w, a, st);
    now := w.threads[a.tid].now;
    js := ReadInOrder(env, start, actions, a.tid);
    TrailInRange(env, start, actions, js, ReadSoFar(w.threads[a.tid]));
    assert actions[..|actions|] == actions;
  }

  /** Whatever is interleaved with its queries, all statistics a run reports are exact one by one: each count is that of
      some state, and these states follow each other in the order of the queries. */
  lemma {:induction false} CountsAreSnapshots(env: Env, start: World, actions: seq<Action>, st: Stats)
    returns (js: seq<nat>, k: nat, now: nat)
    requires Initial(start) && st in Run(env, start, actions).counts
    ensures Snapshots(env, start, actions, js, k, now, st)
  {
    var n := |actions| - 1;
    var w := Run(env, start, actions[..n]);
    if st in w.counts {
      js, k, now := CountsAreSnapshots(env, start, actions[..n], st);
    } else {
      js, now := LastSnapshot(env, start, actions[..n], w, actions[n], st);
      k := n;
    }
    SnapshotsGrow(env, start, actions, js, k, now, st);
  }

  // ---------- what is counted ----------

  /** By status: as many as there are rows with it. */
  lemma CountsByStatus(certs: seq<CertRow>, status: Status)
    ensures CountStatus(certs, status) == |set i | 0 <= i < |certs| && certs[i].status == status|
  {
    var keep := (row: CertRow) => row.status == status;
    FilterSize(certs, keep);
    assert (set i | 0 <= i < |certs| && certs[i].status == status) == Positions(certs, keep);
  }

  lemma SortedSize(certs: seq<CertRow>, key: CertRow -> string)
    ensures |SortBy(certs, key)| == |certs|
  {
    SortPermutes(certs, key);
    assert |multiset(SortBy(certs, key))| == |multiset(certs)|;
  }

  predicate EndsSoon(row: CertRow, now: nat) {
    row.status == Active && row.certificate.notAfter * 1_000_000_000 <= now + 30 * 86_400_000_000_000
  }

  lemma ListedWhenSoon(row: CertRow, now: nat)
    requires TimesStored(row) && Encodable(now + 30 * 86_400_000_000_000)
    ensures EndsSoon(row, now)
       <==> row.status == Active && Rfc3339.TextAtMost(row.notAfter, Deadline(now, EXPIRING_DAYS))
  {
    Durations.DaysExactIff(EXPIRING_DAYS);
    DeadlineMeaning(row, now, EXPIRING_DAYS);
  }

  lemma SelectedSize(certs: seq<CertRow>, now: nat)
    requires forall row :: row in certs ==>
                             (row.status == Active && Rfc3339.TextAtMost(row.notAfter, Deadline(now, EXPIRING_DAYS))
                              <==> EndsSoon(row, now))
    ensures ExpiringSoon(certs, now) == |set i | 0 <= i < |certs| && EndsSoon(certs[i], now)|
  {
    var deadline := Deadline(now, EXPIRING_DAYS);
    var keep := (row: CertRow) => row.status == Active && Rfc3339.TextAtMost(row.notAfter, deadline);
    SortedSize(Filter(certs, keep), ExpiryKey);
    FilterSize(certs, keep);
    assert (set i | 0 <= i < |certs| && EndsSoon(certs[i], now)) == Positions(certs, keep);
  }

  /** Expiring soon, in every world that satisfies the invariant: as many as there are active certificates that end
      within 30 days of the clock reading. */
  lemma CountsExpiring(env: Env, w: World)
    requires Inv(env, w) && Encodable(w.clock + 30 * 86_400_000_000_000)
    ensures ExpiringSoon(w.db.certs, w.clock) == |set i | 0 <= i < |w.db.certs| && EndsSoon(w.db.certs[i], w.clock)|
  {
    TimesAreStored(env, w);
    forall row | row in w.db.certs
      ensures row.status == Active && Rfc3339.TextAtMost(row.notAfter, Deadline(w.clock, EXPIRING_DAYS))
         <==> EndsSoon(row, w.clock)
    {
      ListedWhenSoon(row, w.clock);
    }
    SelectedSize(w.db.certs, w.clock);
  }
}
