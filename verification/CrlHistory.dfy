/** How the CRLs of one CA relate over time: which part of a listing is settled, and how numbers follow time. */
module CrlHistory {
  import opened Prelude
  import opened Authority
  import opened Storage
  import opened Sorting
  import opened Lifecycle
  import opened Invariant
  import opened Ocsp
  import opened Revocation
  import Durations
  import Rfc3339
  import SerialText

  // ---------- the settled part of a listing ----------

  predicate Below(row: CertRow, cut: string) {
    Rfc3339.TextLess(RevokedKey(row), cut)
  }

  function BelowOf(cut: string): CertRow -> bool {
    (row: CertRow) => Below(row, cut)
  }

  predicate Low(row: CertRow, caId: nat, cut: string) {
    RevokedBy(row, caId) && Below(row, cut)
  }

  function LowOf(caId: nat, cut: string): CertRow -> bool {
    (row: CertRow) => Low(row, caId, cut)
  }

  /** The listed rows revoked before the second printed as `cut`. */
  function Settled(certs: seq<CertRow>, caId: nat, cut: string): seq<CertRow> {
    Filter(SelectRevoked(certs, caId), BelowOf(cut))
  }

  predicate SameSettled(certs: seq<CertRow>, certs': seq<CertRow>, caId: nat, cut: string) {
    Settled(certs', caId, cut) == Settled(certs, caId, cut)
  }

  lemma SettledIsPrefix(certs: seq<CertRow>, caId: nat, cut: string)
    ensures Settled(certs, caId, cut) <= SelectRevoked(certs, caId)
  {
    SortOrders(Filter(certs, RevokedOf(caId)), RevokedKey);
    BelowIsPrefix(SelectRevoked(certs, caId), RevokedKey, cut, BelowOf(cut));
  }

  lemma SettledFromTable(certs: seq<CertRow>, caId: nat, cut: string)
    ensures Settled(certs, caId, cut) == SortBy(Filter(certs, LowOf(caId, cut)), RevokedKey)
  {
    FilterSort(Filter(certs, RevokedOf(caId)), RevokedKey, BelowOf(cut));
    FilterTwice(certs, RevokedOf(caId), BelowOf(cut), LowOf(caId, cut));
  }

  lemma SameLowFilter(certs: seq<CertRow>, kept: seq<CertRow>, added: seq<CertRow>, low: CertRow -> bool)
    requires |certs| == |kept|
    requires forall i :: 0 <= i < |certs| && (low(certs[i]) || low(kept[i])) ==> certs[i] == kept[i]
    requires forall row :: row in added ==> !low(row)
    ensures Filter(kept + added, low) == Filter(certs, low)
  {
    FilterConcat(kept, added, low);
    FilterAgrees(certs, kept, low);
    FilterNone(added, low);
  }

  lemma SameLowRows(certs: seq<CertRow>, certs': seq<CertRow>, caId: nat, cut: string)
    requires |certs| <= |certs'|
    requires forall i :: 0 <= i < |certs| && (Low(certs[i], caId, cut) || Low(certs'[i], caId, cut)) ==>
             certs[i] == certs'[i]
    requires forall i :: |certs| <= i < |certs'| ==> !Low(certs'[i], caId, cut)
    ensures SameSettled(certs, certs', caId, cut)
  {
    var kept, added := certs'[..|certs|], certs'[|certs|..];
    assert certs' == kept + added;
    SameLowFilter(certs, kept, added, LowOf(caId, cut));
    SettledFromTable(certs, caId, cut);
    SettledFromTable(certs', caId, cut);
  }

  // ---------- which revocations can still reach below the cut ----------

  /** A revocation that has read its clock before the cut and has not run its UPDATE. */
  predicate Stale(th: Thread, cut: string) {
    th.RevokeUpdate? && Rfc3339.TextLess(th.stamp, cut)
  }

  predicate ActiveRow(certs: seq<CertRow>, caId: nat, serial: string) {
    exists i :: 0 <= i < |certs| && certs[i].serial == serial && certs[i].caId == caId && certs[i].status == Active
  }

  predicate PendingInsert(threads: map<nat, Thread>, caId: nat, serial: string) {
    exists u :: u in threads && threads[u].JobInsert? && threads[u].rec.serial == serial && threads[u].rec.caId == caId
  }

  /** The serial is an active certificate of the CA, or is about to be inserted as one. */
  predicate Target(certs: seq<CertRow>, threads: map<nat, Thread>, caId: nat, serial: string) {
    ActiveRow(certs, caId, serial) || (!HasSerial(certs, serial) && PendingInsert(threads, caId, serial))
  }

  predicate Exposed(w: World, caId: nat, cut: string) {
    exists t :: t in w.threads && Stale(w.threads[t], cut)
        && Target(w.db.certs, w.threads, caId, w.threads[t].opts.serial)
  }

  lemma NewStampNotStale(cut: string, clock: nat)
    requires StampBy(cut, clock) && Encodable(clock)
    ensures !Rfc3339.TextLess(Stamp(clock), cut)
  {
    var t: nat :| t < Rfc3339.END_OF_TEXT && t * Rfc3339.NANOS <= clock && cut == Rfc3339.Format(t);
    Rfc3339.TextOrderIsTimeOrder(clock / Rfc3339.NANOS, t);
  }

  /** A statement that creates no stale thread and no target for one leaves the world unexposed. */
  lemma StaysUnexposed(w: World, w': World, caId: nat, cut: string)
    requires !Exposed(w, caId, cut)
    requires forall t :: t in w'.threads && Stale(w'.threads[t], cut) ==>
             t in w.threads && w.threads[t] == w'.threads[t]
    requires forall t :: t in w.threads && Stale(w.threads[t], cut) ==>
                           var serial := w.threads[t].opts.serial;
                           Target(w'.db.certs, w'.threads, caId, serial) ==> Target(w.db.certs, w.threads, caId, serial)
    ensures !Exposed(w', caId, cut)
  {
  }

  lemma UpdateSettled(env: Env, w: World, tid: nat, draw: Draw, caId: nat, cut: string)
    requires !Exposed(w, caId, cut) && tid in w.threads && w.threads[tid].RevokeUpdate?
    ensures var w' := Step(env, w, Resume(tid, draw));
      !Exposed(w', caId, cut) && SameSettled(w.db.certs, w'.db.certs, caId, cut)
  {
    var th, w' := w.threads[tid], Step(env, w, Resume(tid, draw));
    assert w'.db == Revoke(w.db, th.opts, th.stamp) && w'.threads == w.threads - {tid};
    forall i | 0 <= i < |w.db.certs| && (Low(w.db.certs[i], caId, cut) || Low(w'.db.certs[i], caId, cut))
      ensures w.db.certs[i] == w'.db.certs[i]
    {
      if Matches(w.db.certs[i], th.opts) {
        assert ActiveRow(w.db.certs, w.db.certs[i].caId, th.opts.serial);
      }
    }
    SameLowRows(w.db.certs, w'.db.certs, caId, cut);
    forall serial | Target(w'.db.certs, w'.threads, caId, serial)
      ensures Target(w.db.certs, w.threads, caId, serial)
    {
      RevokeTargets(w.db, th.opts, th.stamp, w.threads, tid, caId, serial);
    }
    StaysUnexposed(w, w', caId, cut);
  }

  lemma RevokeTargets(db: Db, opts: RevokeOpts, stamp: string, threads: map<nat, Thread>, tid: nat, caId: nat,
          serial: string)
    requires Target(Revoke(db, opts, stamp).certs, threads - {tid}, caId, serial)
    ensures Target(db.certs, threads, caId, serial)
  {
  }

  lemma InsertActive(db: Db, threads: map<nat, Thread>, tid: nat, caId: nat, serial: string)
    requires tid in threads && threads[tid].JobInsert? && CanInsertCert(db, threads[tid].rec)
    requires ActiveRow(InsertCert(db, threads[tid].rec).certs, caId, serial)
    ensures Target(db.certs, threads, caId, serial)
  {
    var certs' := InsertCert(db, threads[tid].rec).certs;
    var i :| 0 <= i < |certs'| && certs'[i].serial == serial && certs'[i].caId == caId && certs'[i].status == Active;
    if i < |db.certs| {
      assert db.certs[i] == certs'[i];
    } else {
      assert threads[tid].rec.serial == serial;
    }
  }

  lemma InsertPending(db: Db, threads: map<nat, Thread>, threads': map<nat, Thread>, rec: NewCert, caId: nat,
          serial: string)
    requires forall u :: u in threads' && threads'[u].JobInsert? ==> u in threads && threads[u] == threads'[u]
    requires !HasSerial(InsertCert(db, rec).certs, serial) && PendingInsert(threads', caId, serial)
    ensures Target(db.certs, threads, caId, serial)
  {
    var u :| u in threads' && threads'[u].JobInsert? && threads'[u].rec.serial == serial
        && threads'[u].rec.caId == caId;
    assert forall i :: 0 <= i < |db.certs| ==> InsertCert(db, rec).certs[i] == db.certs[i];
  }

  lemma InsertSettled(env: Env, w: World, tid: nat, draw: Draw, caId: nat, cut: string)
    requires !Exposed(w, caId, cut) && tid in w.threads && w.threads[tid].JobInsert?
    ensures var w' := Step(env, w, Resume(tid, draw));
      !Exposed(w', caId, cut) && SameSettled(w.db.certs, w'.db.certs, caId, cut)
  {
    var rec, w' := w.threads[tid].rec, Step(env, w, Resume(tid, draw));
    InsertStep(env, w, tid, draw);
    if CanInsertCert(w.db, rec) {
      SameLowRows(w.db.certs, w'.db.certs, caId, cut);
      forall serial | Target(w'.db.certs, w'.threads, caId, serial)
        ensures Target(w.db.certs, w.threads, caId, serial)
      {
        if ActiveRow(w'.db.certs, caId, serial) {
          InsertActive(w.db, w.threads, tid, caId, serial);
        } else {
          InsertPending(w.db, w.threads, w'.threads, rec, caId, serial);
        }
      }
    }
    StaysUnexposed(w, w', caId, cut);
  }

  lemma InsertStep(env: Env, w: World, tid: nat, draw: Draw)
    requires tid in w.threads && w.threads[tid].JobInsert?
    ensures var rec, w' := w.threads[tid].rec, Step(env, w, Resume(tid, draw));
      && w'.db == (if CanInsertCert(w.db, rec) then InsertCert(w.db, rec) else w.db)
      && (!CanInsertCert(w.db, rec) ==> w'.threads == w.threads - {tid})
      && (forall u :: u in w'.threads && (w'.threads[u].JobInsert? || w'.threads[u].RevokeUpdate?) ==>
                        u in w.threads && w.threads[u] == w'.threads[u])
  {
  }

  /** Every other statement leaves the certificates alone. It may stamp a new revocation, but not before the cut; and a
      new record never takes a serial that a revocation in flight names. */
  lemma OtherSettled(env: Env, w: World, tid: nat, draw: Draw, caId: nat, cut: string)
    requires !Exposed(w, caId, cut) && tid in w.threads && FreshDraw(w.threads, tid, draw)
    requires Encodable(w.clock) && StampBy(cut, w.clock)
    requires !w.threads[tid].RevokeUpdate? && !w.threads[tid].JobInsert?
    ensures var w' := Step(env, w, Resume(tid, draw));
      !Exposed(w', caId, cut) && SameSettled(w.db.certs, w'.db.certs, caId, cut)
  {
    var th, w' := w.threads[tid], Step(env, w, Resume(tid, draw));
    NewStampNotStale(cut, w.clock);
    OtherNext(env, w.clock, w.db, th, draw);
    forall t | t in w.threads && t != tid && Stale(w.threads[t], cut)
      ensures Target(w'.db.certs, w'.threads, caId, w.threads[t].opts.serial) ==>
                Target(w.db.certs, w.threads, caId, w.threads[t].opts.serial)
    {
      OtherTargets(env, w, tid, draw, caId, t);
    }
    StaysUnexposed(w, w', caId, cut);
  }

  lemma OtherTargets(env: Env, w: World, tid: nat, draw: Draw, caId: nat, t: nat)
    requires tid in w.threads && FreshDraw(w.threads, tid, draw)
    requires !w.threads[tid].RevokeUpdate? && !w.threads[tid].JobInsert?
    requires t in w.threads && w.threads[t].RevokeUpdate?
    ensures var w' := Step(env, w, Resume(tid, draw)); var serial := w.threads[t].opts.serial;
      Target(w'.db.certs, w'.threads, caId, serial) ==> Target(w.db.certs, w.threads, caId, serial)
  {
    var w', serial := Step(env, w, Resume(tid, draw)), w.threads[t].opts.serial;
    OtherNext(env, w.clock, w.db, w.threads[tid], draw);
    assert Names(w.threads[t], serial);
    if PendingInsert(w'.threads, caId, serial) {
      var u :| u in w'.threads && w'.threads[u].JobInsert? && w'.threads[u].rec.serial == serial
               && w'.threads[u].rec.caId == caId;
      assert u != tid;
      assert w.threads[u] == w'.threads[u];
    }
  }

  lemma OtherNext(env: Env, clock: nat, db: Db, th: Thread, draw: Draw)
    requires !th.RevokeUpdate? && !th.JobInsert?
    ensures var o := Advance(env, clock, db, th, draw);
      && o.db.certs == db.certs
      && (o.next.Some? && o.next.value.RevokeUpdate? ==> o.next.value.stamp == Stamp(clock))
      && (o.next.Some? && o.next.value.JobInsert? ==>
            th.JobSign? && o.next.value.rec.serial == SerialText.HexUpper(draw.serial))
  {
    if th.JobSign? && JobProfile(th.job) in env.profiles && !(th.job.FromCsr? && th.job.csr.None?) {
      var opts := JobOptions(env, th.job);
      if Issue(env.net, opts, draw, clock).Ok? {
        IssuedObeysProfile(env.net, opts, draw, clock);
      }
    }
  }

  lemma BeginSettled(env: Env, w: World, tid: nat, req: Request, caId: nat, cut: string)
    requires !Exposed(w, caId, cut)
    ensures !Exposed(Step(env, w, Begin(tid, req)), caId, cut)
  {
  }

  lemma StepSettled(env: Env, w: World, a: Action, caId: nat, cut: string)
    requires !Exposed(w, caId, cut) && Encodable(w.clock) && StampBy(cut, w.clock)
    ensures var w' := Step(env, w, a);
      !Exposed(w', caId, cut) && SameSettled(w.db.certs, w'.db.certs, caId, cut) && Encodable(w'.clock)
          && StampBy(cut, w'.clock)
  {
    match a
    case Tick(_) =>
    case Begin(tid, req) => BeginSettled(env, w, tid, req, caId, cut);
    case Resume(tid, draw) =>
      if tid in w.threads && FreshDraw(w.threads, tid, draw) {
        if w.threads[tid].RevokeUpdate? {
          UpdateSettled(env, w, tid, draw, caId, cut);
        } else if w.threads[tid].JobInsert? {
          InsertSettled(env, w, tid, draw, caId, cut);
        } else {
          OtherSettled(env, w, tid, draw, caId, cut);
        }
      }
  }

  lemma {:induction false} RunSettled(env: Env, w: World, actions: seq<Action>, caId: nat, cut: string)
    requires !Exposed(w, caId, cut) && Encodable(w.clock) && StampBy(cut, w.clock)
    ensures var w' := Run(env, w, actions);
      !Exposed(w', caId, cut) && SameSettled(w.db.certs, w'.db.certs, caId, cut) && Encodable(w'.clock)
          && StampBy(cut, w'.clock)
  {
    if actions == [] {
    } else {
      RunSettled(env, w, actions[..|actions| - 1], caId, cut);
      StepSettled(env, Run(env, w, actions[..|actions| - 1]), actions[|actions| - 1], caId, cut);
    }
  }

  lemma SettledMembers(certs: seq<CertRow>, caId: nat, cut: string, row: CertRow)
    ensures row in Settled(certs, caId, cut) <==> row in certs && Low(row, caId, cut)
  {
  }

  lemma ActiveIsUnsettled(certs: seq<CertRow>, caId: nat, cut: string, i: nat)
    requires SerialsUnique(certs) && i < |certs| && certs[i].status == Active
    ensures forall row :: row in Settled(certs, caId, cut) ==> row.serial != certs[i].serial
  {
  }

  lemma RevokedIsSettled(db: Db, opts: RevokeOpts, stamp: string, caId: nat, cut: string, i: nat)
    requires i < |db.certs| && Matches(db.certs[i], opts) && db.certs[i].caId == caId && Rfc3339.TextLess(stamp, cut)
    ensures RevokedRow(db.certs[i], opts, stamp) in Settled(Revoke(db, opts, stamp).certs, caId, cut)
  {
  }

  lemma PendingRecordFits(env: Env, w: World, u: nat)
    requires Inv(env, w) && u in w.threads && w.threads[u].JobInsert? && !HasSerial(w.db.certs, w.threads[u].rec.serial)
    ensures CanInsertCert(w.db, w.threads[u].rec)
  {
  }

  lemma ActiveUnsettles(env: Env, w: World, t: nat, caId: nat, cut: string)
    requires SerialsUnique(w.db.certs) && t in w.threads && Stale(w.threads[t], cut)
    requires ActiveRow(w.db.certs, caId, w.threads[t].opts.serial)
    ensures !SameSettled(w.db.certs, Step(env, w, Resume(t, NO_DRAW)).db.certs, caId, cut)
    ensures exists row :: row in Settled(Step(env, w, Resume(t, NO_DRAW)).db.certs, caId, cut)
                          && row.serial == w.threads[t].opts.serial
  {
    var th, after := w.threads[t], Step(env, w, Resume(t, NO_DRAW)).db;
    assert after == Revoke(w.db, th.opts, th.stamp);
    var i :| 0 <= i < |w.db.certs| && w.db.certs[i].serial == th.opts.serial && w.db.certs[i].caId == caId
             && w.db.certs[i].status == Active;
    ActiveIsUnsettled(w.db.certs, caId, cut, i);
    RevokedIsSettled(w.db, th.opts, th.stamp, caId, cut, i);
    assert RevokedRow(w.db.certs[i], th.opts, th.stamp).serial == th.opts.serial;
  }

  lemma PendingUnsettles(env: Env, w: World, t: nat, u: nat, caId: nat, cut: string)
    requires SerialsUnique(w.db.certs) && t in w.threads && Stale(w.threads[t], cut)
    requires u in w.threads && w.threads[u].JobInsert? && CanInsertCert(w.db, w.threads[u].rec)
    requires w.threads[u].rec.serial == w.threads[t].opts.serial && w.threads[u].rec.caId == caId
    ensures var mid := Step(env, w, Resume(u, NO_DRAW));
      !SameSettled(w.db.certs, Step(env, mid, Resume(t, NO_DRAW)).db.certs, caId, cut)
  {
    var serial, n := w.threads[t].opts.serial, |w.db.certs|;
    var mid := Step(env, w, Resume(u, NO_DRAW));
    assert mid.db.certs == w.db.certs + [NewRow(n + 1, w.threads[u].rec)];
    assert mid.threads[t] == w.threads[t];
    assert ActiveRow(mid.db.certs, caId, serial) by {
      assert mid.db.certs[n].serial == serial;
    }
    ActiveUnsettles(env, mid, t, caId, cut);
    forall row | row in Settled(w.db.certs, caId, cut)
      ensures row.serial != serial
    {
      SettledMembers(w.db.certs, caId, cut, row);
    }
  }

  /** An exposed world has a continuation in which the settled part changes. */
  lemma ExposedUnsettles(env: Env, w: World, caId: nat, cut: string) returns (actions: seq<Action>)
    requires Inv(env, w) && Exposed(w, caId, cut)
    ensures !SameSettled(w.db.certs, Run(env, w, actions).db.certs, caId, cut)
  {
    var t :| t in w.threads && Stale(w.threads[t], cut)
        && Target(w.db.certs, w.threads, caId, w.threads[t].opts.serial);
    if ActiveRow(w.db.certs, caId, w.threads[t].opts.serial) {
      ActiveUnsettles(env, w, t, caId, cut);
      RunOne(env, w, Resume(t, NO_DRAW));
      actions := [Resume(t, NO_DRAW)];
    } else {
      var u :| u in w.threads && w.threads[u].JobInsert? && w.threads[u].rec.serial == w.threads[t].opts.serial
               && w.threads[u].rec.caId == caId;
      PendingRecordFits(env, w, u);
      PendingUnsettles(env, w, t, u, caId, cut);
      RunTwo(env, w, Resume(u, NO_DRAW), Resume(t, NO_DRAW));
      actions := [Resume(u, NO_DRAW), Resume(t, NO_DRAW)];
    }
  }

  lemma RunTwo(env: Env, w: World, a: Action, b: Action)
    ensures Run(env, w, [a, b]) == Step(env, Step(env, w, a), b)
  {
    assert [a, b][..1] == [a];
    RunOne(env, w, a);
  }

  /** The entries before a second that has begun stay the same in every later CRL, in the same order and at its head
      (`SettledIsPrefix`), if and only if no revocation that read its clock before that second is still on its way to
      an active, or just signed, certificate of the CA. */
  lemma SettledForeverIff(env: Env, w: World, caId: nat, cut: string)
    requires Inv(env, w) && StampBy(cut, w.clock)
    ensures (forall actions :: SameSettled(w.db.certs, Run(env, w, actions).db.certs, caId, cut))
             <==> !Exposed(w, caId, cut)
  {
    if Exposed(w, caId, cut) {
      var actions := ExposedUnsettles(env, w, caId, cut);
      assert !SameSettled(w.db.certs, Run(env, w, actions).db.certs, caId, cut);
    } else {
      forall actions: seq<Action>
        ensures SameSettled(w.db.certs, Run(env, w, actions).db.certs, caId, cut)
      {
        RunSettled(env, w, actions, caId, cut);
      }
    }
  }

  // ---------- numbers and times of published lists ----------

  /** A published list is dated after everything it lists, and not after the clock. */
  predicate CrlDated(crl: Crl, clock: nat) {
    && crl.number == crl.thisUpdate - Rfc3339.UNIX_EPOCH
    && crl.thisUpdate * Rfc3339.NANOS <= clock
    && crl.thisUpdate <= crl.nextUpdate
    && forall i :: 0 <= i < |crl.entries| ==> crl.entries[i].revokedAt <= crl.thisUpdate
  }

  predicate PublishedOk(crls: seq<Published>, clock: nat) {
    && (forall i :: 0 <= i < |crls| ==> CrlDated(crls[i].crl, clock))
    && (forall i, j :: 0 <= i < j < |crls| ==> crls[i].crl.number <= crls[j].crl.number)
  }

  /** In every interleaving CRL numbers never decrease, no entry is dated after its list, and no list ends before it
      starts; `PublishedWindows` and `CrlEndsLater` say when it ends later than it starts. */
  lemma {:induction false} PublishedInOrder(env: Env, start: World, actions: seq<Action>)
    requires Initial(start)
    ensures PublishedOk(Run(env, start, actions).crls, Run(env, start, actions).clock)
  {
    if actions == [] {
    } else {
      var front, last := actions[..|actions| - 1], actions[|actions| - 1];
      PublishedInOrder(env, start, front);
      InitialInv(env, start);
      RunInv(env, start, front);
      StepPublished(env, Run(env, start, front), last);
    }
  }

  lemma StepPublished(env: Env, w: World, a: Action)
    requires Inv(env, w) && PublishedOk(w.crls, w.clock)
    ensures PublishedOk(Step(env, w, a).crls, Step(env, w, a).clock)
  {
    if a.Resume? && a.tid in w.threads && w.threads[a.tid].CrlSign? {
      SigningEntriesBy(env, w, a.tid);
      SignPublished(env, w, a.tid, a.draw);
    } else {
      QuietPublished(env, w, a);
    }
  }

  lemma SigningEntriesBy(env: Env, w: World, tid: nat)
    requires Inv(env, w) && tid in w.threads && w.threads[tid].CrlSign?
    ensures EntriesBy(w.threads[tid].entries, w.clock)
  {
  }

  lemma SignPublished(env: Env, w: World, tid: nat, draw: Draw)
    requires PublishedOk(w.crls, w.clock) && tid in w.threads && w.threads[tid].CrlSign?
    requires EntriesBy(w.threads[tid].entries, w.clock)
    ensures PublishedOk(Step(env, w, Resume(tid, draw)).crls, w.clock)
  {
  }

  lemma QuietPublished(env: Env, w: World, a: Action)
    requires PublishedOk(w.crls, w.clock)
    requires a.Resume? && a.tid in w.threads ==> !w.threads[a.tid].CrlSign?
    ensures PublishedOk(Step(env, w, a).crls, Step(env, w, a).clock)
  {
    SameCrls(env, w, a);
  }

  /** A list valid for exactly the configured hours. */
  predicate ExactWindow(env: Env, crl: Crl) {
    crl.nextUpdate == crl.thisUpdate + HoursOr(env.crlHours) * 3600
  }

  /** Of the lists published in any interleaving every one has the configured window if that is at most 2562047 hours,
      and none has it if it is more. */
  lemma {:induction false} PublishedWindows(env: Env, start: World, actions: seq<Action>)
    requires Initial(start)
    ensures forall p :: p in Run(env, start, actions).crls ==>
                          (ExactWindow(env, p.crl) <==> HoursOr(env.crlHours) <= Durations.MAX_HOURS)
  {
    if actions == [] {
    } else {
      var front, last := Run(env, start, actions[..|actions| - 1]), actions[|actions| - 1];
      PublishedWindows(env, start, actions[..|actions| - 1]);
      if last.Resume? && last.tid in front.threads && front.threads[last.tid].CrlSign? {
        var entries := front.threads[last.tid].entries;
        if SignCrl(entries, env.crlHours, front.clock).Some? {
          CrlWindow(entries, env.crlHours, front.clock);
        }
      } else {
        SameCrls(env, front, last);
      }
    }
  }

  lemma SameCrls(env: Env, w: World, a: Action)
    requires a.Resume? && a.tid in w.threads ==> !w.threads[a.tid].CrlSign?
    ensures Step(env, w, a).crls == w.crls
  {
  }

  // ---------- what a published list lists ----------

  /** `entries` is the CA's listing at some state of the run. */
  ghost predicate ListedDuring(env: Env, start: World, actions: seq<Action>, caId: nat, entries: seq<RevokedEntry>) {
    exists j :: 0 <= j <= |actions| && ListedAt(env, start, actions, j, caId, entries)
  }

  predicate ListedAt(env: Env, start: World, actions: seq<Action>, j: nat, caId: nat, entries: seq<RevokedEntry>)
    requires j <= |actions|
  {
    ListRevoked(Run(env, start, actions[..j]).db, caId) == Some(entries)
  }

  lemma StillListed(env: Env, start: World, actions: seq<Action>, caId: nat, entries: seq<RevokedEntry>)
    requires actions != [] && ListedDuring(env, start, actions[..|actions| - 1], caId, entries)
    ensures ListedDuring(env, start, actions, caId, entries)
  {
    var front := actions[..|actions| - 1];
    var j :| 0 <= j <= |front| && ListedAt(env, start, front, j, caId, entries);
    assert actions[..j] == front[..j];
    assert ListedAt(env, start, actions, j, caId, entries);
  }

  /** A list about to be signed was read at some state of the run. */
  lemma {:induction false} SigningWasListed(env: Env, start: World, actions: seq<Action>, t: nat)
    requires Initial(start)
    requires t in Run(env, start, actions).threads && Run(env, start, actions).threads[t].CrlSign?
    ensures var th := Run(env, start, actions).threads[t]; ListedDuring(env, start, actions, th.listCa, th.entries)
  {
    var n := |actions| - 1;
    var front, last := Run(env, start, actions[..n]), actions[n];
    var th := Run(env, start, actions).threads[t];
    SigningFrom(env, front, last, t);
    if t in front.threads && front.threads[t] == th {
      SigningWasListed(env, start, actions[..n], t);
      StillListed(env, start, actions, th.listCa, th.entries);
    } else {
      assert ListedAt(env, start, actions, n, th.listCa, th.entries);
    }
  }

  predicate OfCrl(th: Thread) {
    th.CrlGetCA? || th.CrlGetKey? || th.CrlList? || th.CrlSign?
  }

  lemma JobsNeverSign(env: Env, clock: nat, db: Db, th: Thread, draw: Draw)
    requires th.RenewLookup? || th.JobGetCA? || th.JobGetKey? || th.JobSign? || th.JobInsert?
    ensures var o := Advance(env, clock, db, th, draw); o.next.Some? ==> !o.next.value.CrlSign?
  {
  }

  lemma OthersNeverSign(env: Env, clock: nat, db: Db, th: Thread, draw: Draw)
    requires !OfCrl(th) && !(th.RenewLookup? || th.JobGetCA? || th.JobGetKey? || th.JobSign? || th.JobInsert?)
    ensures var o := Advance(env, clock, db, th, draw); o.next.Some? ==> !o.next.value.CrlSign?
  {
  }

  lemma CrlNotYet(env: Env, clock: nat, db: Db, th: Thread, draw: Draw)
    requires OfCrl(th) && !th.CrlList?
    ensures var o := Advance(env, clock, db, th, draw); o.next.Some? ==> !o.next.value.CrlSign?
  {
  }

  lemma ListingStep(env: Env, clock: nat, db: Db, th: Thread, draw: Draw)
    ensures var o := Advance(env, clock, db, th, draw);
      o.next.Some? && o.next.value.CrlSign? ==> ListRevoked(db, o.next.value.listCa) == Some(o.next.value.entries)
  {
    if th.CrlList? {
      if Advance(env, clock, db, th, draw).next.Some? {
        ListingOnly(env, clock, db, th.listCa, draw, Advance(env, clock, db, th, draw).next.value);
      }
    } else if OfCrl(th) {
      CrlNotYet(env, clock, db, th, draw);
    } else if th.RenewLookup? || th.JobGetCA? || th.JobGetKey? || th.JobSign? || th.JobInsert? {
      JobsNeverSign(env, clock, db, th, draw);
    } else {
      OthersNeverSign(env, clock, db, th, draw);
    }
  }

  lemma AdmitNeverSigns(env: Env, req: Request)
    ensures Admit(env, req).Some? ==> !Admit(env, req).value.CrlSign?
  {
  }

  lemma ThreadAfter(env: Env, w: World, tid: nat, draw: Draw, t: nat)
    requires tid in w.threads && t in Step(env, w, Resume(tid, draw)).threads
    ensures var th := Step(env, w, Resume(tid, draw)).threads[t];
      (t in w.threads && w.threads[t] == th) || Advance(env, w.clock, w.db, w.threads[tid], draw).next == Some(th)
  {
  }

  lemma SigningFrom(env: Env, w: World, a: Action, t: nat)
    requires t in Step(env, w, a).threads && Step(env, w, a).threads[t].CrlSign?
    ensures var th := Step(env, w, a).threads[t];
      || (t in w.threads && w.threads[t] == th)
      || ListRevoked(w.db, th.listCa) == Some(th.entries)
  {
    if a.Begin? {
      AdmitNeverSigns(env, a.req);
    } else if a.Resume? && a.tid in w.threads {
      ListingStep(env, w.clock, w.db, w.threads[a.tid], a.draw);
      ThreadAfter(env, w, a.tid, a.draw, t);
    }
  }

  ghost predicate SignedListing(env: Env, start: World, actions: seq<Action>, p: Published) {
    exists entries :: ListedDuring(env, start, actions, p.caId, entries) && p.crl.entries == SignedEntries(entries)
  }

  /** Every list published in any interleaving is, whole, the listing of its CA at one state of the run: revocations
      that arrive while a list is being made are in it or not, never in part. */
  lemma {:induction false} PublishedIsAListing(env: Env, start: World, actions: seq<Action>, p: Published)
    requires Initial(start) && p in Run(env, start, actions).crls
    ensures SignedListing(env, start, actions, p)
  {
    var n := |actions| - 1;
    var front, last := Run(env, start, actions[..n]), actions[n];
    if p in front.crls {
      PublishedIsAListing(env, start, actions[..n], p);
      var entries :| ListedDuring(env, start, actions[..n], p.caId, entries) && p.crl.entries == SignedEntries(entries);
      StillListed(env, start, actions, p.caId, entries);
    } else {
      NewlySigned(env, front, last, p);
      var th := front.threads[last.tid];
      SigningWasListed(env, start, actions[..n], last.tid);
      StillListed(env, start, actions, th.listCa, th.entries);
    }
  }

  lemma NewlySigned(env: Env, w: World, a: Action, p: Published)
    requires p in Step(env, w, a).crls && p !in w.crls
    ensures a.Resume? && a.tid in w.threads && w.threads[a.tid].CrlSign?
    ensures p.caId == w.threads[a.tid].listCa && p.crl.entries == SignedEntries(w.threads[a.tid].entries)
  {
  }

  /** Whatever any list published so far says stays true for good: OCSP answers that serial as revoked, for that CA,
      with the list's time and reason, and so does every later list. */
  lemma PublishedStaysRevoked(env: Env, start: World, actions: seq<Action>, p: Published, e: CrlEntry, now: nat)
    requires Initial(start) && p in Run(env, start, actions).crls && e in p.crl.entries
    ensures var db := Run(env, start, actions).db;
      && e in CrlEntriesOf(db, p.caId)
      && StatusFor(env.build, db, p.caId, e.serial, now) == RevokedAt(e.revokedAt, e.reasonCode)
  {
    var j := EntryWasListed(env, start, actions, p, e);
    assert actions[..|actions|] == actions;
    LaterState(env, start, actions, j, |actions|, p.caId);
    InitialInv(env, start);
    RunInv(env, start, actions);
    ViewsAgree(env, Run(env, start, actions), p.caId, e.serial, now);
  }

  lemma EntryWasListed(env: Env, start: World, actions: seq<Action>, p: Published, e: CrlEntry) returns (j: nat)
    requires Initial(start) && p in Run(env, start, actions).crls && e in p.crl.entries
    ensures j <= |actions| && e in CrlEntriesOf(Run(env, start, actions[..j]).db, p.caId)
  {
    PublishedIsAListing(env, start, actions, p);
    var entries :| ListedDuring(env, start, actions, p.caId, entries) && p.crl.entries == SignedEntries(entries);
    j :| 0 <= j <= |actions| && ListedAt(env, start, actions, j, p.caId, entries);
    InitialInv(env, start);
    RunInv(env, start, actions[..j]);
    ListingBy(env, Run(env, start, actions[..j]).db, Run(env, start, actions[..j]).clock, p.caId);
  }

  /** Of two listings of one CA in a run the earlier holds nothing that the later does not, however they interleave. */
  lemma EarlierListingIsSubset(env: Env, start: World, actions: seq<Action>, j: nat, k: nat, caId: nat,
                               a: seq<RevokedEntry>, b: seq<RevokedEntry>)
    requires Initial(start) && j <= k <= |actions|
    requires ListedAt(env, start, actions, j, caId, a) && ListedAt(env, start, actions, k, caId, b)
    ensures forall e :: e in SignedEntries(a) ==> e in SignedEntries(b)
  {
    ListingIsEntries(env, start, actions, j, caId);
    ListingIsEntries(env, start, actions, k, caId);
    LaterState(env, start, actions, j, k, caId);
  }

  lemma ListingIsEntries(env: Env, start: World, actions: seq<Action>, j: nat, caId: nat)
    requires Initial(start) && j <= |actions|
    ensures var db := Run(env, start, actions[..j]).db;
      ListRevoked(db, caId).Some? && SignedEntries(ListRevoked(db, caId).value) == CrlEntriesOf(db, caId)
  {
    InitialInv(env, start);
    RunInv(env, start, actions[..j]);
    ListingBy(env, Run(env, start, actions[..j]).db, Run(env, start, actions[..j]).clock, caId);
  }

  // ---------- numbers against contents ----------

  /** Action `k` of the run publishes `p`. */
  predicate PublishedBy(env: Env, start: World, actions: seq<Action>, k: nat, p: Published) {
    k < |actions| && Run(env, start, actions[..k + 1]).crls == Run(env, start, actions[..k]).crls + [p]
  }

  /** Every published list was published by one action of the run, and what an action published stays published. */
  lemma {:induction false} PublishedIff(env: Env, start: World, actions: seq<Action>, p: Published)
    requires Initial(start)
    ensures p in Run(env, start, actions).crls <==> exists k: nat :: PublishedBy(env, start, actions, k, p)
  {
    if exists k: nat :: PublishedBy(env, start, actions, k, p) {
      var k: nat :| PublishedBy(env, start, actions, k, p);
      StaysPublished(env, start, actions, k, p);
    } else if p in Run(env, start, actions).crls {
      var k := PublishingAction(env, start, actions, p);
    }
  }

  lemma StaysPublished(env: Env, start: World, actions: seq<Action>, k: nat, p: Published)
    requires PublishedBy(env, start, actions, k, p)
    ensures p in Run(env, start, actions).crls
  {
    var mid := Run(env, start, actions[..k + 1]);
    assert actions == actions[..k + 1] + actions[k + 1..];
    RunConcat(env, start, actions[..k + 1], actions[k + 1..]);
    RunExtends(env, mid, actions[k + 1..]);
    assert mid.crls[|mid.crls| - 1] == p;
  }

  lemma {:induction false} PublishingAction(env: Env, start: World, actions: seq<Action>, p: Published) returns (k: nat)
    requires Initial(start) && p in Run(env, start, actions).crls
    ensures PublishedBy(env, start, actions, k, p)
  {
    var n := |actions| - 1;
    var front, last := Run(env, start, actions[..n]), actions[n];
    assert actions[..n + 1] == actions;
    if p in front.crls {
      k := PublishingAction(env, start, actions[..n], p);
      assert actions[..n][..k] == actions[..k] && actions[..n][..k + 1] == actions[..k + 1];
    } else {
      k := n;
      NewlyAppended(env, front, last, p);
    }
  }

  lemma NewlyAppended(env: Env, w: World, a: Action, p: Published)
    requires p in Step(env, w, a).crls && p !in w.crls
    ensures Step(env, w, a).crls == w.crls + [p]
  {
  }

  /** The list was still its CA's listing when it was signed. */
  predicate CurrentWhenSigned(env: Env, start: World, actions: seq<Action>, k: nat, p: Published) {
    PublishedBy(env, start, actions, k, p) && p.crl.entries == CrlEntriesOf(Run(env, start, actions[..k]).db, p.caId)
  }

  /** Its handler listed and signed with nothing in between. */
  predicate Uninterrupted(env: Env, start: World, actions: seq<Action>, k: nat, p: Published) {
    && 0 < k && PublishedBy(env, start, actions, k, p)
    && actions[k - 1].Resume? && actions[k].Resume? && actions[k - 1].tid == actions[k].tid
    && var w := Run(env, start, actions[..k - 1]); actions[k].tid in w.threads && w.threads[actions[k].tid].CrlList?
  }

  lemma StepAt(env: Env, start: World, actions: seq<Action>, k: nat)
    requires k < |actions|
    ensures Run(env, start, actions[..k + 1]) == Step(env, Run(env, start, actions[..k]), actions[k])
  {
    assert actions[..k + 1][..k] == actions[..k];
  }

  lemma SigningStep(env: Env, w: World, a: Action, p: Published)
    requires Step(env, w, a).crls == w.crls + [p]
    ensures a.Resume? && a.tid in w.threads && w.threads[a.tid].CrlSign?
    ensures var th := w.threads[a.tid];
      && p.caId == th.listCa && p.crl.entries == SignedEntries(th.entries)
      && p.crl.number == w.clock / Rfc3339.NANOS - Rfc3339.UNIX_EPOCH
  {
    assert (w.crls + [p])[|w.crls|] == p;
    if !(a.Resume? && a.tid in w.threads && w.threads[a.tid].CrlSign?) {
      SameCrls(env, w, a);
    }
  }

  lemma ListingOnly(env: Env, clock: nat, db: Db, caId: nat, draw: Draw, next: Thread)
    requires Advance(env, clock, db, CrlList(caId), draw).next == Some(next)
    ensures Advance(env, clock, db, CrlList(caId), draw).db == db
    ensures next.CrlSign? && ListRevoked(db, next.listCa) == Some(next.entries)
  {
  }

  lemma ListThenSign(env: Env, w: World, a: Action, b: Action)
    requires a.Resume? && b.Resume? && a.tid == b.tid && a.tid in w.threads && w.threads[a.tid].CrlList?
    requires var mid := Step(env, w, a); b.tid in mid.threads && mid.threads[b.tid].CrlSign?
    ensures var mid := Step(env, w, a);
      mid.db == w.db && ListRevoked(mid.db, mid.threads[b.tid].listCa) == Some(mid.threads[b.tid].entries)
  {
    var next := Step(env, w, a).threads[b.tid];
    assert Advance(env, w.clock, w.db, w.threads[a.tid], a.draw).next == Some(next);
    ListingOnly(env, w.clock, w.db, w.threads[a.tid].listCa, a.draw, next);
  }

  lemma UninterruptedIsCurrent(env: Env, start: World, actions: seq<Action>, k: nat, p: Published)
    requires Initial(start) && Uninterrupted(env, start, actions, k, p)
    ensures CurrentWhenSigned(env, start, actions, k, p)
  {
    StepAt(env, start, actions, k - 1);
    StepAt(env, start, actions, k);
    SigningStep(env, Run(env, start, actions[..k]), actions[k], p);
    ListThenSign(env, Run(env, start, actions[..k - 1]), actions[k - 1], actions[k]);
    ListingIsEntries(env, start, actions, k, p.caId);
  }

  /** Of two published lists of one CA that were current when signed, as every list is whose handler was not interrupted
      between listing and signing, the one with the lower number lists nothing that the other does not (section 5.2.3 of
      RFC 5280). */
  lemma LowerNumberIsSubset(env: Env, start: World, actions: seq<Action>, j: nat, k: nat, p: Published, q: Published)
    requires Initial(start) && p.caId == q.caId && p.crl.number < q.crl.number
    requires CurrentWhenSigned(env, start, actions, j, p) && CurrentWhenSigned(env, start, actions, k, q)
    ensures forall e :: e in p.crl.entries ==> e in q.crl.entries
  {
    StepAt(env, start, actions, j);
    StepAt(env, start, actions, k);
    SigningStep(env, Run(env, start, actions[..j]), actions[j], p);
    SigningStep(env, Run(env, start, actions[..k]), actions[k], q);
    LaterState(env, start, actions, if j <= k then j else k, if j <= k then k else j, p.caId);
  }

  lemma LaterState(env: Env, start: World, actions: seq<Action>, j: nat, k: nat, caId: nat)
    requires j <= k <= |actions|
    ensures var a, b := Run(env, start, actions[..j]), Run(env, start, actions[..k]);
      a.clock <= b.clock && forall e :: e in CrlEntriesOf(a.db, caId) ==> e in CrlEntriesOf(b.db, caId)
  {
    assert actions[..k] == actions[..j] + actions[j..k];
    RunConcat(env, start, actions[..j], actions[j..k]);
    RunExtends(env, Run(env, start, actions[..j]), actions[j..k]);
    CrlGrows(env, Run(env, start, actions[..j]), actions[j..k], caId);
  }

  /** The list a CA would sign at this very state, with nothing between the listing and the signature. */
  function SignedNow(env: Env, w: World, caId: nat): Option<Crl> {
    var entries := ListRevoked(w.db, caId);
    if entries.None? then None else SignCrl(entries.value, env.crlHours, w.clock)
  }
}
