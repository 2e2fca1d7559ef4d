/** A handler that runs with no other in between: its thread resumed to the end, which is one of the interleaved runs.
    */
module Handlers {
  import opened Prelude
  import opened Authority
  import opened Storage
  import opened Lifecycle
  import opened CrlHistory

  // ---------- a thread run to the end ----------

  /** How many statements a handler may still run. */
  function Rank(th: Thread): nat {
    match th
    case RootSign(_, _) => 3
    case RootInsert(_) => 2
    case RootKey(_) => 1
    case RenewLookup(_) => 7
    case JobGetCA(_) => 6
    case JobGetKey(_, _) => 5
    case JobSign(_, _) => 4
    case JobInsert(_, _) => 3
    case RevokeClock(_, _) => 2
    case RevokeUpdate(_, _, _) => 1
    case CrlGetCA(_) => 4
    case CrlGetKey(_) => 3
    case CrlList(_) => 2
    case CrlSign(_, _) => 1
    case StatsCAs => 6
    case StatsCerts(_) => 5
    case StatsActive(_, _) => 4
    case StatsRevoked(_, _, _) => 3
    case StatsClock(_, _, _, _) => 2
    case StatsExpiring(_, _, _, _, _) => 1
  }

  /** The two clock readings of a handler: one before signing, one before revoking. */
  function Reading(th: Thread, now: nat, later: nat): nat {
    if th.RevokeClock? then later else now
  }

  predicate Falls(env: Env, clock: nat, db: Db, th: Thread, draw: Draw) {
    var o := Advance(env, clock, db, th, draw);
    o.next.Some? ==> Rank(o.next.value) < Rank(th) && (o.next.value.RevokeUpdate? <==> th.RevokeClock?)
  }

  lemma SignFalls(env: Env, clock: nat, db: Db, th: Thread, draw: Draw)
    requires th.JobSign? || th.RootSign?
    ensures Falls(env, clock, db, th, draw)
  {
  }

  lemma ReadFalls(env: Env, clock: nat, db: Db, th: Thread, draw: Draw)
    requires th.RenewLookup? || th.JobGetCA? || th.JobGetKey? || th.CrlGetCA? || th.CrlGetKey? || th.CrlList?
    ensures Falls(env, clock, db, th, draw)
  {
  }

  lemma WriteFalls(env: Env, clock: nat, db: Db, th: Thread, draw: Draw)
    requires th.RootInsert? || th.RootKey? || th.JobInsert? || th.RevokeClock? || th.RevokeUpdate? || th.CrlSign?
    ensures Falls(env, clock, db, th, draw)
  {
  }

  lemma CountFalls(env: Env, clock: nat, db: Db, th: Thread, draw: Draw)
    requires
      || th.StatsCAs? || th.StatsCerts? || th.StatsActive? || th.StatsRevoked? || th.StatsClock? || th.StatsExpiring?
    ensures Falls(env, clock, db, th, draw)
  {
  }

  lemma RankFalls(env: Env, clock: nat, db: Db, th: Thread, draw: Draw)
    ensures Falls(env, clock, db, th, draw)
  {
    if th.JobSign? || th.RootSign? {
      SignFalls(env, clock, db, th, draw);
    } else if th.RenewLookup? || th.JobGetCA? || th.JobGetKey? || th.CrlGetCA? || th.CrlGetKey? || th.CrlList? {
      ReadFalls(env, clock, db, th, draw);
    } else if th.RootInsert? || th.RootKey? || th.JobInsert? || th.RevokeClock? || th.RevokeUpdate? || th.CrlSign? {
      WriteFalls(env, clock, db, th, draw);
    } else {
      CountFalls(env, clock, db, th, draw);
    }
  }

  /** The outcome of the last statement a handler runs. */
  function Finally(env: Env, db: Db, th: Thread, draw: Draw, now: nat, later: nat): Outcome
    decreases Rank(th)
  {
    var o := Advance(env, Reading(th, now, later), db, th, draw);
    RankFalls(env, Reading(th, now, later), db, th, draw);
    if o.next.None? then o else Finally(env, o.db, o.next.value, draw, now, later)
  }

  function Complete(env: Env, db: Db, th: Thread, draw: Draw, now: nat, later: nat): Db {
    Finally(env, db, th, draw, now, later).db
  }

  function Served(env: Env, db: Db, req: Request, draw: Draw, now: nat, later: nat): Db {
    var th := Admit(env, req);
    if th.None? then db else Complete(env, db, th.value, draw, now, later)
  }

  lemma UpdateReadsNoClock(env: Env, a: nat, b: nat, db: Db, th: Thread, draw: Draw)
    requires th.RevokeUpdate?
    ensures Advance(env, a, db, th, draw) == Advance(env, b, db, th, draw)
  {
  }

  /** The clock as the thread is about to read it. */
  function Ready(w: World, tid: nat, later: nat): World
    requires tid in w.threads
  {
    if w.threads[tid].RevokeClock? then w.(clock := later) else w
  }

  lemma ReachReady(env: Env, w: World, tid: nat, later: nat) returns (ticks: seq<Action>)
    requires tid in w.threads && w.clock <= later && Encodable(later)
    ensures Run(env, w, ticks) == Ready(w, tid, later)
  {
    ticks := [];
    if w.threads[tid].RevokeClock? {
      ticks := [Tick(later - w.clock)];
      RunOne(env, w, ticks[0]);
    }
  }

  function Shown<T>(o: Option<T>): seq<T> {
    if o.Some? then [o.value] else []
  }

  lemma AloneStep(env: Env, w: World, tid: nat, draw: Draw)
    requires w.threads.Keys == {tid}
    ensures var o, next := Advance(env, w.clock, w.db, w.threads[tid], draw), Step(env, w, Resume(tid, draw));
      && next.db == o.db && next.clock == w.clock
      && next.crls == w.crls + Shown(o.crl) && next.counts == w.counts + Shown(o.counted)
      && (o.next.None? ==> next.threads == map[])
      && (o.next.Some? ==> next.threads.Keys == {tid} && next.threads[tid] == o.next.value)
  {
  }

  lemma OnlyTheLastShows(env: Env, clock: nat, db: Db, th: Thread, draw: Draw)
    requires Advance(env, clock, db, th, draw).next.Some?
    ensures Advance(env, clock, db, th, draw).crl.None? && Advance(env, clock, db, th, draw).counted.None?
  {
  }

  /** What a handler run alone leaves behind: its tables, whatever it publishes or counts, and nothing in flight. */
  predicate LeftBy(w: World, o: Outcome, after: World, later: nat) {
    && after.db == o.db && after.threads == map[] && w.clock <= after.clock <= later
    && after.crls == w.crls + Shown(o.crl) && after.counts == w.counts + Shown(o.counted)
  }

  /** The next statement of a handler alone, with the clock moved on first if it is the one before a revocation. */
  lemma NextStatement(env: Env, w: World, tid: nat, draw: Draw, now: nat, later: nat) returns (actions: seq<Action>)
    requires w.threads.Keys == {tid} && now <= later && Encodable(later)
    requires w.clock == now || (w.clock == later && w.threads[tid].RevokeUpdate?)
    ensures var ready := Ready(w, tid, later);
      && Run(env, w, actions) == Step(env, ready, Resume(tid, draw))
      && Advance(env, ready.clock, w.db, w.threads[tid], draw)
         == Advance(env, Reading(w.threads[tid], now, later), w.db, w.threads[tid], draw)
  {
    var th, ready := w.threads[tid], Ready(w, tid, later);
    var ticks := ReachReady(env, w, tid, later);
    if th.RevokeUpdate? {
      UpdateReadsNoClock(env, ready.clock, Reading(th, now, later), w.db, th, draw);
    }
    RunOne(env, ready, Resume(tid, draw));
    RunConcat(env, w, ticks, [Resume(tid, draw)]);
    actions := ticks + [Resume(tid, draw)];
  }

  /** Running one handler alone is one of the interleaved runs, with the clock moved on before the revocation. */
  lemma {:induction false} CompleteIsRun(env: Env, w: World, tid: nat, draw: Draw, now: nat, later: nat)
    returns (actions: seq<Action>)
    requires w.threads.Keys == {tid} && now <= later && Encodable(later)
    requires w.clock == now || (w.clock == later && w.threads[tid].RevokeUpdate?)
    ensures LeftBy(w, Finally(env, w.db, w.threads[tid], draw, now, later), Run(env, w, actions), later)
    decreases Rank(w.threads[tid])
  {
    var th, ready := w.threads[tid], Ready(w, tid, later);
    actions := NextStatement(env, w, tid, draw, now, later);
    AloneStep(env, ready, tid, draw);
    var o, next := Advance(env, Reading(th, now, later), w.db, th, draw), Run(env, w, actions);
    if o.next.Some? {
      RankFalls(env, Reading(th, now, later), w.db, th, draw);
      OnlyTheLastShows(env, Reading(th, now, later), w.db, th, draw);
      var rest := CompleteIsRun(env, next, tid, draw, now, later);
      RunConcat(env, w, actions, rest);
      actions := actions + rest;
    }
  }

  /** A request served while nothing else is in flight, from its admission to its end. */
  lemma ServedIsRun(env: Env, w: World, req: Request, draw: Draw, later: nat) returns (actions: seq<Action>)
    requires w.threads == map[] && w.clock <= later && Encodable(later) && Admit(env, req).Some?
    ensures LeftBy(w, Finally(env, w.db, Admit(env, req).value, draw, w.clock, later), Run(env, w, actions), later)
  {
    var begun := Step(env, w, Begin(0, req));
    RunOne(env, w, Begin(0, req));
    var rest := CompleteIsRun(env, begun, 0, draw, w.clock, later);
    RunConcat(env, w, [Begin(0, req)], rest);
    actions := [Begin(0, req)] + rest;
  }

  // ---------- statement by statement ----------

  /** A statement that changes no table and goes on to `next`. */
  lemma AfterStatement(env: Env, db: Db, th: Thread, draw: Draw, now: nat, later: nat, next: Thread)
    requires Advance(env, Reading(th, now, later), db, th, draw) == Continue(db, next)
    ensures Finally(env, db, th, draw, now, later) == Finally(env, db, next, draw, now, later)
  {
  }

  /** A job's thread is through its two lookups exactly when the CA can be loaded. */
  lemma JobLoads(env: Env, db: Db, job: Job, draw: Draw, now: nat, later: nat)
    ensures var row := GetCA(db, JobCA(job));
      Complete(env, db, JobGetCA(job), draw, now, later)
      == if row.Some? && Loadable(row.value, GetKey(db, "ca", row.value.id))
         then Complete(env, db, JobSign(job, row.value), draw, now, later) else db
  {
    var row := GetCA(db, JobCA(job));
    if row.Some? {
      AfterStatement(env, db, JobGetCA(job), draw, now, later, JobGetKey(job, row.value));
      if Loadable(row.value, GetKey(db, "ca", row.value.id)) {
        AfterStatement(env, db, JobGetKey(job, row.value), draw, now, later, JobSign(job, row.value));
      }
    }
  }

  lemma AfterInsert(env: Env, db: Db, rec: NewCert, renewal: bool, draw: Draw, now: nat, later: nat)
    ensures Complete(env, db, JobInsert(rec, renewal), draw, now, later)
         == if !CanInsertCert(db, rec) then db
            else if renewal then Complete(env, InsertCert(db, rec), RevokeClock(Superseded(rec.renewedFrom), true),
                draw, now, later)
            else InsertCert(db, rec)
  {
  }

  predicate RenewedInto(db: Db, db': Db, serial: string, rec: NewCert, later: nat) {
    rec.renewedFrom == serial && db' == Revoke(InsertCert(db, rec), Superseded(serial), Stamp(later))
  }

  lemma SupersedeLast(env: Env, db: Db, serial: string, draw: Draw, now: nat, later: nat)
    ensures Complete(env, db, RevokeClock(Superseded(serial), true), draw, now, later)
         == Revoke(db, Superseded(serial), Stamp(later))
  {
    assert Complete(env, db, RevokeClock(Superseded(serial), true), draw, now, later)
        == Complete(env, db, RevokeUpdate(Superseded(serial), Stamp(later), true), draw, now, later);
  }

  /** What a CRL request publishes when nothing runs in between; `CrlRequestPublishes` ties it to the thread. */
  function CrlFor(env: Env, db: Db, caId: int, now: nat): Option<Crl> {
    var caRow := GetCA(db, caId);
    if caRow.None? || !Loadable(caRow.value, GetKey(db, "ca", caRow.value.id)) then None
    else
      var entries := ListRevoked(db, caRow.value.id);
      if entries.None? then None else SignCrl(entries.value, env.crlHours, now)
  }

  /** The handler's four statements end in that list, published for the requested CA, or in nothing; the tables stay. */
  lemma CrlRequestEnds(env: Env, db: Db, caId: int, draw: Draw, now: nat, later: nat)
    ensures var o, crl := Finally(env, db, CrlGetCA(caId), draw, now, later), CrlFor(env, db, caId, now);
      && o.db == db && o.counted.None?
      && (crl.None? ==> o.crl.None?)
      && (crl.Some? ==> 0 <= caId && o.crl == Some(Published(caId, crl.value)))
  {
    var caRow := GetCA(db, caId);
    if caRow.Some? {
      AfterStatement(env, db, CrlGetCA(caId), draw, now, later, CrlGetKey(caRow.value));
      if Loadable(caRow.value, GetKey(db, "ca", caRow.value.id)) {
        var entries := ListRevoked(db, caRow.value.id);
        AfterStatement(env, db, CrlGetKey(caRow.value), draw, now, later, CrlList(caRow.value.id));
        if entries.Some? {
          AfterStatement(env, db, CrlList(caRow.value.id), draw, now, later, CrlSign(caRow.value.id, entries.value));
        }
      }
    }
  }

  /** A CRL request that nothing interrupts appends exactly that list to what is published, or nothing. */
  lemma CrlRequestPublishes(env: Env, w: World, caId: int, draw: Draw) returns (actions: seq<Action>)
    requires w.threads == map[] && Encodable(w.clock)
    ensures var crl, after := CrlFor(env, w.db, caId, w.clock), Run(env, w, actions);
      && after.db == w.db && after.clock == w.clock && after.threads == map[]
      && (crl.None? ==> after.crls == w.crls)
      && (crl.Some? ==> 0 <= caId && after.crls == w.crls + [Published(caId, crl.value)])
  {
    actions := ServedIsRun(env, w, PublishCrl(caId), draw, w.clock);
    CrlRequestEnds(env, w.db, caId, draw, w.clock, w.clock);
  }

  /** A statistics request that nothing interrupts appends the counts of that state. */
  lemma StatsRequestCounts(env: Env, w: World, draw: Draw) returns (actions: seq<Action>)
    requires w.threads == map[] && Encodable(w.clock)
    ensures var after := Run(env, w, actions);
      after.db == w.db && after.threads == map[] && after.counts == w.counts + [StatsOf(w.db, w.clock)]
  {
    actions := ServedIsRun(env, w, CountCerts, draw, w.clock);
    StatsEnd(env, w.db, draw, w.clock);
  }

  lemma StatsEnd(env: Env, db: Db, draw: Draw, now: nat)
    ensures Finally(env, db, StatsCAs, draw, now, now) == Outcome(db, None, None, Some(StatsOf(db, now)))
  {
    var cas, total := |db.cas|, |db.certs|;
    AfterStatement(env, db, StatsCAs, draw, now, now, StatsCerts(cas));
    AfterStatement(env, db, StatsCerts(cas), draw, now, now, StatsActive(cas, total));
    StatsByStatus(env, db, draw, now, cas, total);
  }

  lemma StatsByStatus(env: Env, db: Db, draw: Draw, now: nat, cas: nat, total: nat)
    ensures Finally(env, db, StatsActive(cas, total), draw, now, now)
         == Outcome(db, None, None, Some(StatsOf(db, now).(totalCAs := cas, totalCerts := total)))
  {
    var active := CountStatus(db.certs, Active);
    AfterStatement(env, db, StatsActive(cas, total), draw, now, now, StatsRevoked(cas, total, active));
    StatsByRevoked(env, db, draw, now, cas, total, active);
  }

  lemma StatsByRevoked(env: Env, db: Db, draw: Draw, now: nat, cas: nat, total: nat, active: nat)
    ensures Finally(env, db, StatsRevoked(cas, total, active), draw, now, now)
         == Outcome(db, None, None,
                    Some(Stats(cas, total, active, CountStatus(db.certs, Revoked), ExpiringSoon(db.certs, now))))
  {
    var revoked := CountStatus(db.certs, Revoked);
    AfterStatement(env, db, StatsRevoked(cas, total, active), draw, now, now, StatsClock(cas, total, active, revoked));
    StatsByExpiry(env, db, draw, now, cas, total, active, revoked);
  }

  lemma StatsByExpiry(env: Env, db: Db, draw: Draw, now: nat, cas: nat, total: nat, active: nat, revoked: nat)
    ensures Finally(env, db, StatsClock(cas, total, active, revoked), draw, now, now)
         == Outcome(db, None, None, Some(Stats(cas, total, active, revoked, ExpiringSoon(db.certs, now))))
  {
    var last := StatsExpiring(cas, total, active, revoked, now);
    AfterStatement(env, db, StatsClock(cas, total, active, revoked), draw, now, now, last);
    LastQuery(env, now, db, draw, last);
    AtLastStatement(env, db, last, draw, now, now);
  }

  lemma AtLastStatement(env: Env, db: Db, th: Thread, draw: Draw, now: nat, later: nat)
    requires Advance(env, Reading(th, now, later), db, th, draw).next.None?
    ensures Finally(env, db, th, draw, now, later) == Advance(env, Reading(th, now, later), db, th, draw)
  {
  }

  lemma LastQuery(env: Env, clock: nat, db: Db, draw: Draw, th: Thread)
    requires th.StatsExpiring?
    ensures Advance(env, clock, db, th, draw)
         == Outcome(db, None, None,
                    Some(Stats(th.cas, th.total, th.active, th.revoked, ExpiringSoon(db.certs, th.now))))
  {
  }

  /** A published list is the one its CA would sign at that very state, and there is one exactly when the CA can be
      loaded and signing succeeds. */
  lemma CrlForIsSignedNow(env: Env, w: World, caId: nat)
    ensures CrlFor(env, w.db, caId, w.clock).Some?
       <==>
            && GetCA(w.db, caId).Some?
            && Loadable(GetCA(w.db, caId).value, GetKey(w.db, "ca", caId))
            && SignedNow(env, w, caId).Some?
    ensures CrlFor(env, w.db, caId, w.clock).Some? ==> CrlFor(env, w.db, caId, w.clock) == SignedNow(env, w, caId)
  {
  }
}
