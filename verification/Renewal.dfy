/** Renewal under interleaving: a renewed certificate never stays active unattended, renewal links form a forest, and
    policy never refuses a renewal. */
module Renewal {
  import opened Prelude
  import opened Authority
  import opened Storage
  import opened Lifecycle
  import opened Invariant
  import Durations

  // ---------- the race between a renewal's insert and its revocation ----------

  /** A renewal past its insert and before its revocation of `serial`. */
  predicate Superseding(th: Thread, serial: string) {
    (th.RevokeClock? || th.RevokeUpdate?) && th.renewal && th.opts.serial == serial
  }

  predicate BeingSuperseded(threads: map<nat, Thread>, serial: string) {
    exists t :: t in threads && Superseding(threads[t], serial)
  }

  predicate IsRenewed(certs: seq<CertRow>, i: nat)
    requires i < |certs|
  {
    exists j :: 0 <= j < |certs| && certs[j].renewedFrom == certs[i].serial
  }

  predicate Attended(certs: seq<CertRow>, threads: map<nat, Thread>) {
    forall i :: 0 <= i < |certs| && certs[i].status == Active && IsRenewed(certs, i) ==>
                  BeingSuperseded(threads, certs[i].serial)
  }

  /** What this argument needs of the invariant: serials identify rows, and every link names a row. */
  predicate Linked(w: World) {
    && SerialsUnique(w.db.certs)
    && (forall i :: 0 <= i < |w.db.certs| ==> w.db.certs[i].serial != "")
    && (forall i :: 0 <= i < |w.db.certs| ==> LinkNamesRow(w.db.certs, w.db.certs[i].renewedFrom))
    && (forall t :: t in w.threads && w.threads[t].JobInsert? ==> RecordLinked(w.db.certs, w.threads[t]))
  }

  predicate LinkNamesRow(certs: seq<CertRow>, serial: string) {
    serial == "" || HasSerial(certs, serial)
  }

  predicate RecordLinked(certs: seq<CertRow>, th: Thread)
    requires th.JobInsert?
  {
    && th.rec.serial != ""
    && if th.renewal then HasSerial(certs, th.rec.renewedFrom) else th.rec.renewedFrom == ""
  }

  lemma InvLinked(env: Env, w: World)
    requires Inv(env, w)
    ensures Linked(w)
  {
    forall i | 0 <= i < |w.db.certs|
      ensures w.db.certs[i].serial != "" && LinkNamesRow(w.db.certs, w.db.certs[i].renewedFrom)
    {
      RowLinked(env, w.db, w.clock, i);
    }
    forall t | t in w.threads && w.threads[t].JobInsert?
      ensures RecordLinked(w.db.certs, w.threads[t])
    {
      RecordIsLinked(env, w.db, w.threads[t].rec, w.threads[t].renewal);
    }
  }

  lemma RowLinked(env: Env, db: Db, clock: nat, i: nat)
    requires DbOk(env, db, clock) && i < |db.certs|
    ensures db.certs[i].serial != "" && LinkNamesRow(db.certs, db.certs[i].renewedFrom)
  {
    assert RowOk(env, db.cas, clock, db.certs[i]);
    assert LinkOk(db.certs, i);
  }

  lemma RecordIsLinked(env: Env, db: Db, rec: NewCert, renewal: bool)
    requires RecOk(env, db, rec, renewal)
    ensures RecordLinked(db.certs, JobInsert(rec, renewal))
  {
  }

  /** A new row that continues a lineage is attended by its own handler; one that starts a lineage renews nothing. */
  lemma AppendAttended(certs: seq<CertRow>, row: CertRow, threads: map<nat, Thread>, threads': map<nat, Thread>)
    requires Attended(certs, threads) && !HasSerial(certs, row.serial) && row.serial != ""
    requires forall i :: 0 <= i < |certs| ==> certs[i].serial != "" && LinkNamesRow(certs, certs[i].renewedFrom)
    requires row.renewedFrom != "" ==> HasSerial(certs, row.renewedFrom) && BeingSuperseded(threads', row.renewedFrom)
    requires forall s :: BeingSuperseded(threads, s) ==> BeingSuperseded(threads', s)
    ensures Attended(certs + [row], threads')
  {
  }

  lemma EvolveAttended(certs: seq<CertRow>, certs': seq<CertRow>, threads: map<nat, Thread>, threads': map<nat, Thread>)
    requires Attended(certs, threads) && |certs| == |certs'|
    requires forall i :: 0 <= i < |certs| ==> RowEvolves(certs[i], certs'[i])
    requires forall i :: 0 <= i < |certs| && certs'[i].status == Active && BeingSuperseded(threads, certs[i].serial) ==>
                           BeingSuperseded(threads', certs[i].serial)
    ensures Attended(certs', threads')
  {
  }

  function Threads(threads: map<nat, Thread>, tid: nat, next: Option<Thread>): map<nat, Thread> {
    if next.Some? then threads[tid := next.value] else threads - {tid}
  }

  lemma StillSuperseded(threads: map<nat, Thread>, tid: nat, next: Option<Thread>, serial: string)
    requires tid in threads && BeingSuperseded(threads, serial)
    requires Superseding(threads[tid], serial) ==> next.Some? && Superseding(next.value, serial)
    ensures BeingSuperseded(Threads(threads, tid, next), serial)
  {
    var t :| t in threads && Superseding(threads[t], serial);
    assert t in Threads(threads, tid, next) && Superseding(Threads(threads, tid, next)[t], serial);
  }

  lemma InsertGoesOn(env: Env, clock: nat, db: Db, rec: NewCert, renewal: bool, draw: Draw)
    requires CanInsertCert(db, rec)
    ensures var o := Advance(env, clock, db, JobInsert(rec, renewal), draw);
      && o.db == InsertCert(db, rec)
      && o.next == if renewal then Some(RevokeClock(Superseded(rec.renewedFrom), true)) else None
  {
  }

  lemma InsertAttended(env: Env, w: World, tid: nat, draw: Draw)
    requires Linked(w) && Attended(w.db.certs, w.threads)
    requires tid in w.threads && w.threads[tid].JobInsert? && CanInsertCert(w.db, w.threads[tid].rec)
    ensures var o := Advance(env, w.clock, w.db, w.threads[tid], draw);
      Attended(o.db.certs, Threads(w.threads, tid, o.next))
  {
    var th := w.threads[tid];
    InsertGoesOn(env, w.clock, w.db, th.rec, th.renewal, draw);
    var next := if th.renewal then Some(RevokeClock(Superseded(th.rec.renewedFrom), true)) else None;
    var threads' := Threads(w.threads, tid, next);
    assert RecordLinked(w.db.certs, th);
    forall s | BeingSuperseded(w.threads, s)
      ensures BeingSuperseded(threads', s)
    {
      StillSuperseded(w.threads, tid, next, s);
    }
    if th.renewal {
      assert Superseding(threads'[tid], th.rec.renewedFrom);
    }
    AppendAttended(w.db.certs, NewRow(|w.db.certs| + 1, th.rec), w.threads, threads');
  }

  /** Every statement but an insert leaves the rows in place. */
  lemma AdvanceKeepsRows(env: Env, clock: nat, db: Db, th: Thread, draw: Draw)
    requires th.JobInsert? ==> !CanInsertCert(db, th.rec)
    ensures var o := Advance(env, clock, db, th, draw);
      && |o.db.certs| == |db.certs|
      && (forall i :: 0 <= i < |db.certs| ==> RowEvolves(db.certs[i], o.db.certs[i]))
      && (!th.RevokeUpdate? ==> o.db.certs == db.certs)
  {
  }

  lemma OtherAttended(env: Env, w: World, tid: nat, draw: Draw)
    requires Attended(w.db.certs, w.threads) && tid in w.threads
    requires w.threads[tid].JobInsert? ==> !CanInsertCert(w.db, w.threads[tid].rec)
    ensures var o := Advance(env, w.clock, w.db, w.threads[tid], draw);
      Attended(o.db.certs, Threads(w.threads, tid, o.next))
  {
    var th := w.threads[tid];
    var o := Advance(env, w.clock, w.db, th, draw);
    AdvanceKeepsRows(env, w.clock, w.db, th, draw);
    forall i | 0 <= i < |w.db.certs| && o.db.certs[i].status == Active
        && BeingSuperseded(w.threads, w.db.certs[i].serial)
      ensures BeingSuperseded(Threads(w.threads, tid, o.next), w.db.certs[i].serial)
    {
      if th.RevokeUpdate? {
        assert !Matches(w.db.certs[i], th.opts);
      }
      StillSuperseded(w.threads, tid, o.next, w.db.certs[i].serial);
    }
    EvolveAttended(w.db.certs, o.db.certs, w.threads, Threads(w.threads, tid, o.next));
  }

  lemma BeginAttended(env: Env, w: World, tid: nat, req: Request)
    requires Attended(w.db.certs, w.threads)
    ensures Attended(w.db.certs, Step(env, w, Begin(tid, req)).threads)
  {
    var threads' := Step(env, w, Begin(tid, req)).threads;
    forall s | BeingSuperseded(w.threads, s)
      ensures BeingSuperseded(threads', s)
    {
      var t :| t in w.threads && Superseding(w.threads[t], s);
      assert t in threads' && Superseding(threads'[t], s);
    }
    EvolveAttended(w.db.certs, w.db.certs, w.threads, threads');
  }

  lemma StepAttended(env: Env, w: World, a: Action)
    requires Linked(w) && Attended(w.db.certs, w.threads)
    ensures Attended(Step(env, w, a).db.certs, Step(env, w, a).threads)
  {
    match a
    case Tick(_) =>
    case Begin(tid, req) => BeginAttended(env, w, tid, req);
    case Resume(tid, draw) =>
      if tid in w.threads && FreshDraw(w.threads, tid, draw) {
        if w.threads[tid].JobInsert? && CanInsertCert(w.db, w.threads[tid].rec) {
          InsertAttended(env, w, tid, draw);
        } else {
          OtherAttended(env, w, tid, draw);
        }
      }
  }

  lemma RunLinked(env: Env, start: World, actions: seq<Action>)
    requires Initial(start)
    ensures Linked(Run(env, start, actions))
  {
    InitialInv(env, start);
    RunInv(env, start, actions);
    InvLinked(env, Run(env, start, actions));
  }

  /** In every state of every interleaving of any number of handlers, an active certificate that has been renewed has a
      renewal in flight that is about to revoke it. */
  lemma {:induction false} RenewedIsAttended(env: Env, start: World, actions: seq<Action>)
    requires Initial(start)
    ensures Attended(Run(env, start, actions).db.certs, Run(env, start, actions).threads)
  {
    if actions == [] {
    } else {
      var front := actions[..|actions| - 1];
      RenewedIsAttended(env, start, front);
      RunLinked(env, start, front);
      StepAttended(env, Run(env, start, front), actions[|actions| - 1]);
    }
  }

  /** So whenever no handler is in flight, no renewed certificate is active. */
  lemma QuietMeansSuperseded(env: Env, start: World, actions: seq<Action>, i: nat)
    requires Initial(start) && Run(env, start, actions).threads == map[]
    requires i < |Run(env, start, actions).db.certs| && IsRenewed(Run(env, start, actions).db.certs, i)
    ensures Run(env, start, actions).db.certs[i].status == Revoked
  {
    RenewedIsAttended(env, start, actions);
    InitialInv(env, start);
    RunInv(env, start, actions);
    var w := Run(env, start, actions);
    assert RowOk(env, w.db.cas, w.clock, w.db.certs[i]);
  }

  // ---------- the renewal forest ----------

  /** The last row before `bound` with this serial. */
  function RowBefore(certs: seq<CertRow>, serial: string, bound: nat): (r: Option<nat>)
    requires bound <= |certs|
    ensures r.Some? ==> r.value < bound && certs[r.value].serial == serial
    ensures r.None? ==> forall j :: 0 <= j < bound ==> certs[j].serial != serial
  {
    if bound == 0 then None
    else if certs[bound - 1].serial == serial then Some(bound - 1)
    else RowBefore(certs, serial, bound - 1)
  }

  function Parent(certs: seq<CertRow>, i: nat): (r: Option<nat>)
    requires i < |certs|
    ensures r.Some? ==> r.value < i && certs[i].renewedFrom != "" && certs[r.value].serial == certs[i].renewedFrom
  {
    if certs[i].renewedFrom == "" then None else RowBefore(certs, certs[i].renewedFrom, i)
  }

  /** Where following the links from a row ends. */
  function Root(certs: seq<CertRow>, i: nat): (r: nat)
    requires i < |certs|
    ensures r <= i
  {
    if Parent(certs, i).None? then i else Root(certs, Parent(certs, i).value)
  }

  lemma ParentIsOrigin(certs: seq<CertRow>, i: nat)
    requires SerialsUnique(certs) && LinksOk(certs) && i < |certs|
    ensures Parent(certs, i).None? <==> certs[i].renewedFrom == ""
    ensures Parent(certs, i).Some? ==> SameLineage(certs[Parent(certs, i).value], certs[i])
  {
    assert LinkOk(certs, i);
    if certs[i].renewedFrom != "" {
      var j: nat :| RenewedFromRow(certs, i, j);
    }
  }

  lemma {:induction false} RootKeepsIdentity(certs: seq<CertRow>, i: nat)
    requires SerialsUnique(certs) && LinksOk(certs) && i < |certs|
    ensures certs[Root(certs, i)].renewedFrom == "" && SameLineage(certs[Root(certs, i)], certs[i])
  {
    ParentIsOrigin(certs, i);
    if Parent(certs, i).Some? {
      RootKeepsIdentity(certs, Parent(certs, i).value);
    }
  }

  /** In every interleaving the links form a forest over decreasing ids. Every link names an existing earlier row, each
      path ends in a certificate that was issued and not renewed, and CA, profile, common name and SANs are the same
      all along it. */
  lemma RenewalForest(env: Env, start: World, actions: seq<Action>, i: nat)
    requires Initial(start) && i < |Run(env, start, actions).db.certs|
    ensures var certs := Run(env, start, actions).db.certs;
      && (certs[i].renewedFrom != "" ==>
            exists j :: 0 <= j < i && certs[j].id < certs[i].id && certs[j].serial == certs[i].renewedFrom)
      && certs[Root(certs, i)].renewedFrom == ""
      && SameLineage(certs[Root(certs, i)], certs[i])
  {
    InitialInv(env, start);
    RunInv(env, start, actions);
    var certs := Run(env, start, actions).db.certs;
    ParentIsOrigin(certs, i);
    RootKeepsIdentity(certs, i);
  }

  // ---------- renewal as written ----------

  predicate HasActive(certs: seq<CertRow>, serial: string) {
    exists i :: 0 <= i < |certs| && certs[i].serial == serial && certs[i].status == Active
  }

  lemma ActiveRowReads(env: Env, db: Db, clock: nat, i: nat)
    requires DbOk(env, db, clock) && i < |db.certs|
    ensures db.certs[i].profile in env.profiles
    ensures db.certs[i].status == Active <==> db.certs[i].reason.None?
  {
    assert RowOk(env, db.cas, clock, db.certs[i]);
  }

  lemma FoundIsActive(certs: seq<CertRow>, serial: string)
    requires SerialsUnique(certs)
    ensures var found := FindRow(certs, serial);
      HasActive(certs, serial) <==> found.Some? && found.value.status == Active
  {
    if FindRow(certs, serial).Some? {
      var i :| 0 <= i < |certs| && certs[i] == FindRow(certs, serial).value;
      assert forall k :: 0 <= k < |certs| && certs[k].serial == serial ==> k == i;
    }
  }

  lemma FoundRow(env: Env, db: Db, clock: nat, serial: string)
    requires DbOk(env, db, clock)
    ensures var found := FindRow(db.certs, serial);
      && (HasActive(db.certs, serial) <==> found.Some? && found.value.status == Active)
      && (found.Some? ==>
            && found.value.profile in env.profiles
            && (found.value.status == Active <==> found.value.reason.None?))
  {
    FoundIsActive(db.certs, serial);
    if FindRow(db.certs, serial).Some? {
      var i :| 0 <= i < |db.certs| && db.certs[i] == FindRow(db.certs, serial).value;
      ActiveRowReads(env, db, clock, i);
    }
  }

  lemma LookupOutcome(env: Env, clock: nat, db: Db, serial: string, draw: Draw)
    requires var found := FindRow(db.certs, serial);
      found.Some? ==>
        && found.value.profile in env.profiles
        && (found.value.status == Active <==> found.value.reason.None?)
    ensures var found := FindRow(db.certs, serial);
      Advance(env, clock, db, RenewLookup(serial), draw).next.Some?
      <==> env.build.nullAsEmpty && found.Some? && found.value.status == Active
  {
  }

  /** A renewal gets past its lookup exactly when an active certificate has the serial and the lookup can read the
      NULL revocation reason of such a row; as written it cannot. */
  lemma RenewalProceedsIff(env: Env, w: World, serial: string, draw: Draw)
    requires Inv(env, w)
    ensures Advance(env, w.clock, w.db, RenewLookup(serial), draw).next.Some?
       <==> env.build.nullAsEmpty && HasActive(w.db.certs, serial)
  {
    FoundRow(env, w.db, w.clock, serial);
    LookupOutcome(env, w.clock, w.db, serial, draw);
  }

  /** In a reachable world a renewal that has come to its signature is never refused by policy: it goes on to its insert
      exactly when the end of the new validity period has a four-digit year. */
  lemma RenewalSignsIff(env: Env, w: World, tid: nat, draw: Draw)
    requires Inv(env, w) && tid in w.threads && w.threads[tid].JobSign? && w.threads[tid].job.Renewal?
    ensures Advance(env, w.clock, w.db, w.threads[tid], draw).next.Some?
       <==> Encodable(w.clock + Durations.DaysDuration(env.profiles[w.threads[tid].job.orig.profile].validityDays))
  {
  }

  predicate NoRenewal(th: Thread) {
    && ((th.JobGetCA? || th.JobGetKey? || th.JobSign?) ==> !th.job.Renewal?)
    && (th.JobInsert? ==> !th.renewal && th.rec.renewedFrom == "")
  }

  /** So as written no run ever renews anything. */
  lemma {:induction false} AsWrittenNothingRenews(env: Env, start: World, actions: seq<Action>)
    requires Initial(start) && !env.build.nullAsEmpty
    ensures forall i :: 0 <= i < |Run(env, start, actions).db.certs| ==>
             Run(env, start, actions).db.certs[i].renewedFrom == ""
    ensures forall t :: t in Run(env, start, actions).threads ==> NoRenewal(Run(env, start, actions).threads[t])
  {
    if actions == [] {
    } else {
      var front, last := actions[..|actions| - 1], actions[|actions| - 1];
      AsWrittenNothingRenews(env, start, front);
      InitialInv(env, start);
      RunInv(env, start, front);
      var w := Run(env, start, front);
      if last.Resume? && last.tid in w.threads {
        var th := w.threads[last.tid];
        assert NoRenewal(th);
        if th.RenewLookup? {
          RenewalProceedsIff(env, w, th.serial, last.draw);
        }
        NoRenewalAdvance(env, w.clock, w.db, th, last.draw);
      }
    }
  }

  lemma NoRenewalAdvance(env: Env, clock: nat, db: Db, th: Thread, draw: Draw)
    requires NoRenewal(th)
    requires th.RenewLookup? ==> Advance(env, clock, db, th, draw).next.None?
    requires forall i :: 0 <= i < |db.certs| ==> db.certs[i].renewedFrom == ""
    ensures var o := Advance(env, clock, db, th, draw);
      && (forall i :: 0 <= i < |o.db.certs| ==> o.db.certs[i].renewedFrom == "")
      && (o.next.Some? ==> NoRenewal(o.next.value))
  {
  }
}
