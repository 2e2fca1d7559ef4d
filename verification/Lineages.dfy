/** Lineages: when a certificate has at most one renewal child, and so each lineage is a single path. One kind of
    statement breaks this, an insert by a renewal whose original already has a child; overlapping renewals of the same
    certificate are the only way to come to it. */
module Lineages {
  import opened Prelude
  import opened Authority
  import opened Storage
  import opened Lifecycle
  import opened Invariant
  import opened Renewal

  predicate SingleChildren(certs: seq<CertRow>) {
    forall i, j :: 0 <= i < j < |certs| && certs[i].renewedFrom != "" ==> certs[i].renewedFrom != certs[j].renewedFrom
  }

  predicate Childless(certs: seq<CertRow>, serial: string) {
    forall j :: 0 <= j < |certs| ==> certs[j].renewedFrom != serial
  }

  // ---------- the statement that makes a second child ----------

  /** A renewal's insert that goes through although its original has a child already. */
  predicate InsertsSecondChild(w: World, a: Action) {
    && a.Resume? && a.tid in w.threads && w.threads[a.tid].JobInsert? && w.threads[a.tid].renewal
    && CanInsertCert(w.db, w.threads[a.tid].rec)
    && !Childless(w.db.certs, w.threads[a.tid].rec.renewedFrom)
  }

  lemma AppendSingleIff(certs: seq<CertRow>, row: CertRow)
    ensures SingleChildren(certs + [row])
       <==> SingleChildren(certs) && (row.renewedFrom == "" || Childless(certs, row.renewedFrom))
  {
    var longer := certs + [row];
    if SingleChildren(longer) {
      assert forall i :: 0 <= i < |certs| ==> longer[i] == certs[i];
      forall j | row.renewedFrom != "" && 0 <= j < |certs|
        ensures certs[j].renewedFrom != row.renewedFrom
      {
        assert longer[j].renewedFrom != "" ==> longer[j].renewedFrom != longer[|certs|].renewedFrom;
      }
    }
  }

  lemma EvolveSingleIff(certs: seq<CertRow>, certs': seq<CertRow>)
    requires |certs| == |certs'|
    requires forall i :: 0 <= i < |certs| ==> RowEvolves(certs[i], certs'[i])
    ensures SingleChildren(certs') <==> SingleChildren(certs)
    ensures forall serial :: Childless(certs', serial) <==> Childless(certs, serial)
  {
    assert forall i :: 0 <= i < |certs| ==> certs'[i].renewedFrom == certs[i].renewedFrom;
  }

  lemma InsertSingleIff(env: Env, w: World, tid: nat, draw: Draw)
    requires Linked(w) && tid in w.threads && w.threads[tid].JobInsert? && CanInsertCert(w.db, w.threads[tid].rec)
    ensures SingleChildren(InsertCert(w.db, w.threads[tid].rec).certs)
       <==> SingleChildren(w.db.certs) && !InsertsSecondChild(w, Resume(tid, draw))
  {
    assert RecordLinked(w.db.certs, w.threads[tid]);
    AppendSingleIff(w.db.certs, NewRow(|w.db.certs| + 1, w.threads[tid].rec));
  }

  lemma AdvanceSingleIff(env: Env, w: World, tid: nat, draw: Draw)
    requires Linked(w) && tid in w.threads
    ensures SingleChildren(Advance(env, w.clock, w.db, w.threads[tid], draw).db.certs)
       <==> SingleChildren(w.db.certs) && !InsertsSecondChild(w, Resume(tid, draw))
  {
    var th := w.threads[tid];
    if th.JobInsert? && CanInsertCert(w.db, th.rec) {
      InsertGoesOn(env, w.clock, w.db, th.rec, th.renewal, draw);
      InsertSingleIff(env, w, tid, draw);
    } else {
      AdvanceKeepsRows(env, w.clock, w.db, th, draw);
      EvolveSingleIff(w.db.certs, Advance(env, w.clock, w.db, th, draw).db.certs);
    }
  }

  /** One action keeps single children exactly when it is not such an insert. */
  lemma StepSingleIff(env: Env, w: World, a: Action)
    requires Linked(w)
    ensures SingleChildren(Step(env, w, a).db.certs) <==> SingleChildren(w.db.certs) && !InsertsSecondChild(w, a)
  {
    if a.Resume? && a.tid in w.threads && FreshDraw(w.threads, a.tid, a.draw) {
      AdvanceSingleIff(env, w, a.tid, a.draw);
    }
  }

  /** No action of the run inserts a second child. */
  predicate NoSecondChild(env: Env, start: World, actions: seq<Action>) {
    if actions == [] then true
    else
      var n := |actions| - 1;
      NoSecondChild(env, start, actions[..n]) && !InsertsSecondChild(Run(env, start, actions[..n]), actions[n])
  }

  /** Over every run, in any interleaving: each certificate has at most one renewal child if and only if no insert of
      the run found its original renewed already. */
  lemma {:induction false} SingleChildrenIff(env: Env, start: World, actions: seq<Action>)
    requires Initial(start)
    ensures SingleChildren(Run(env, start, actions).db.certs) <==> NoSecondChild(env, start, actions)
  {
    if actions == [] {
    } else {
      var n := |actions| - 1;
      SingleChildrenIff(env, start, actions[..n]);
      RunLinked(env, start, actions[..n]);
      StepSingleIff(env, Run(env, start, actions[..n]), actions[n]);
    }
  }

  // ---------- paths ----------

  predicate Ancestor(certs: seq<CertRow>, a: nat, b: nat)
    requires a < |certs| && b < |certs|
    decreases b
  {
    a == b || (Parent(certs, b).Some? && Ancestor(certs, a, Parent(certs, b).value))
  }

  lemma {:induction false} AncestorHasChild(certs: seq<CertRow>, a: nat, b: nat) returns (child: nat)
    requires a < |certs| && b < |certs| && a != b && Ancestor(certs, a, b)
    ensures child < |certs| && a < child <= b && Parent(certs, child) == Some(a)
    decreases b
  {
    var p := Parent(certs, b).value;
    if p == a {
      child := b;
    } else {
      child := AncestorHasChild(certs, a, p);
    }
  }

  lemma {:induction false} SameRootComparable(certs: seq<CertRow>, a: nat, b: nat)
    requires a <= b < |certs| && SingleChildren(certs) && Root(certs, a) == Root(certs, b)
    ensures Ancestor(certs, a, b)
    decreases a + b
  {
    if a != b {
      var p := Parent(certs, b).value;
      if a <= p {
        SameRootComparable(certs, a, p);
      } else {
        SameRootComparable(certs, p, a);
        var child := AncestorHasChild(certs, p, a);
        assert false;
      }
    }
  }

  lemma {:induction false} AncestorIsEarlier(certs: seq<CertRow>, a: nat, b: nat)
    requires a < |certs| && b < |certs| && Ancestor(certs, a, b)
    ensures a <= b
    decreases b
  {
    if a == b {
    } else {
      AncestorIsEarlier(certs, a, Parent(certs, b).value);
    }
  }

  /** Of any two certificates with the same root one was renewed, directly or through others, from the other. */
  predicate LineagesArePaths(certs: seq<CertRow>) {
    forall a: nat, b: nat :: a < |certs| && b < |certs| && Root(certs, a) == Root(certs, b) ==>
                               Ancestor(certs, a, b) || Ancestor(certs, b, a)
  }

  lemma SiblingsAreNoPath(certs: seq<CertRow>, i: nat, j: nat)
    requires SerialsUnique(certs) && LinksOk(certs) && i < j < |certs|
    requires certs[i].renewedFrom != "" && certs[i].renewedFrom == certs[j].renewedFrom
    ensures Root(certs, i) == Root(certs, j) && !Ancestor(certs, i, j) && !Ancestor(certs, j, i)
  {
    ParentIsOrigin(certs, i);
    ParentIsOrigin(certs, j);
    var p := Parent(certs, i).value;
    assert Parent(certs, j) == Some(p);
    if Ancestor(certs, i, j) {
      AncestorIsEarlier(certs, i, p);
    } else if Ancestor(certs, j, i) {
      AncestorIsEarlier(certs, j, i);
    }
  }

  lemma PathsIffSingle(certs: seq<CertRow>)
    requires SerialsUnique(certs) && LinksOk(certs)
    ensures LineagesArePaths(certs) <==> SingleChildren(certs)
  {
    if SingleChildren(certs) {
      forall a: nat, b: nat | a < |certs| && b < |certs| && Root(certs, a) == Root(certs, b)
        ensures Ancestor(certs, a, b) || Ancestor(certs, b, a)
      {
        SameRootComparable(certs, if a <= b then a else b, if a <= b then b else a);
      }
    } else {
      var i, j :| 0 <= i < j < |certs| && certs[i].renewedFrom != "" && certs[i].renewedFrom == certs[j].renewedFrom;
      SiblingsAreNoPath(certs, i, j);
    }
  }

  /** Over every run, in any interleaving: every lineage is a single path if and only if no insert found its original
      renewed already. */
  lemma LineagesArePathsIff(env: Env, start: World, actions: seq<Action>)
    requires Initial(start)
    ensures LineagesArePaths(Run(env, start, actions).db.certs) <==> NoSecondChild(env, start, actions)
  {
    InitialInv(env, start);
    RunInv(env, start, actions);
    PathsIffSingle(Run(env, start, actions).db.certs);
    SingleChildrenIff(env, start, actions);
  }

  /** And then a lineage has at most one active certificate that no renewal is about to revoke; in particular at most
      one whenever nothing is in flight. */
  lemma OneActivePerLineage(env: Env, start: World, actions: seq<Action>, a: nat, b: nat)
    requires Initial(start) && NoSecondChild(env, start, actions)
    requires a < |Run(env, start, actions).db.certs| && b < |Run(env, start, actions).db.certs|
    requires var w := Run(env, start, actions);
      && Root(w.db.certs, a) == Root(w.db.certs, b)
      && w.db.certs[a].status == Active && !BeingSuperseded(w.threads, w.db.certs[a].serial)
      && w.db.certs[b].status == Active && !BeingSuperseded(w.threads, w.db.certs[b].serial)
    ensures a == b
  {
    LineagesArePathsIff(env, start, actions);
    RenewedIsAttended(env, start, actions);
    var certs := Run(env, start, actions).db.certs;
    if a != b {
      var older, newer := if Ancestor(certs, a, b) then a else b, if Ancestor(certs, a, b) then b else a;
      var child := AncestorHasChild(certs, older, newer);
      assert IsRenewed(certs, older);
    }
  }

  // ---------- renewals of the same certificate that do not overlap ----------

  /** The certificate a renewal is working on, from its lookup to its insert. */
  function PendingOrigin(th: Thread): Option<string> {
    if (th.JobGetCA? || th.JobGetKey? || th.JobSign?) && th.job.Renewal? then Some(th.job.orig.serial)
    else if th.JobInsert? && th.renewal then Some(th.rec.renewedFrom)
    else None
  }

  /** The same, up to the revocation that ends the renewal. */
  function RenewalOf(th: Thread): Option<string> {
    if (th.RevokeClock? || th.RevokeUpdate?) && th.renewal then Some(th.opts.serial) else PendingOrigin(th)
  }

  /** No two renewals of the same certificate are in flight; any other handlers may be. */
  predicate Exclusive(threads: map<nat, Thread>) {
    forall s, t :: s in threads && t in threads && s != t && RenewalOf(threads[s]).Some? ==>
                     RenewalOf(threads[s]) != RenewalOf(threads[t])
  }

  predicate ExclusiveThroughout(env: Env, start: World, actions: seq<Action>) {
    forall k :: 0 <= k <= |actions| ==> Exclusive(Run(env, start, actions[..k]).threads)
  }

  /** A renewal that has not inserted yet is working on a certificate without a child. */
  predicate OriginChildless(certs: seq<CertRow>, th: Thread) {
    PendingOrigin(th).Some? ==> PendingOrigin(th).value != "" && Childless(certs, PendingOrigin(th).value)
  }

  predicate OriginsChildless(w: World) {
    forall t :: t in w.threads ==> OriginChildless(w.db.certs, w.threads[t])
  }

  lemma LookupGoesOn(env: Env, clock: nat, db: Db, th: Thread, draw: Draw)
    requires th.RenewLookup? && Advance(env, clock, db, th, draw).next.Some?
    ensures var found, next := FindRow(db.certs, th.serial), Advance(env, clock, db, th, draw).next.value;
      found.Some? && found.value.status == Active && PendingOrigin(next) == RenewalOf(next) == Some(found.value.serial)
  {
  }

  lemma AloneInRenewing(threads: map<nat, Thread>, tid: nat, next: Thread, serial: string)
    requires tid in threads && RenewalOf(threads[tid]).None?
    requires RenewalOf(next) == Some(serial) && Exclusive(threads[tid := next])
    ensures !BeingSuperseded(threads, serial)
  {
    var after := threads[tid := next];
    forall t | t in threads
      ensures !Superseding(threads[t], serial)
    {
      assert t != tid ==> after[t] == threads[t] && RenewalOf(after[t]) != RenewalOf(after[tid]);
    }
  }

  lemma UnattendedIsChildless(certs: seq<CertRow>, threads: map<nat, Thread>, row: CertRow)
    requires Attended(certs, threads) && row in certs && row.status == Active && !BeingSuperseded(threads, row.serial)
    ensures Childless(certs, row.serial)
  {
    var i :| 0 <= i < |certs| && certs[i] == row;
    assert !IsRenewed(certs, i);
  }

  /** A lookup that leaves its renewal the only one of its certificate finds one that was never renewed. */
  lemma LookupChildless(env: Env, w: World, tid: nat, draw: Draw, next: Thread)
    requires Linked(w) && Attended(w.db.certs, w.threads) && tid in w.threads && w.threads[tid].RenewLookup?
    requires Advance(env, w.clock, w.db, w.threads[tid], draw).next == Some(next) && Exclusive(w.threads[tid := next])
    ensures OriginChildless(w.db.certs, next)
  {
    LookupGoesOn(env, w.clock, w.db, w.threads[tid], draw);
    var row := FindRow(w.db.certs, w.threads[tid].serial).value;
    AloneInRenewing(w.threads, tid, next, row.serial);
    UnattendedIsChildless(w.db.certs, w.threads, row);
  }

  /** Up to the signature a renewal keeps working on the same certificate. */
  lemma OriginCarried(env: Env, clock: nat, db: Db, th: Thread, draw: Draw)
    requires !th.RenewLookup? && !th.JobInsert? && Advance(env, clock, db, th, draw).next.Some?
    ensures var next := Advance(env, clock, db, th, draw).next.value;
      PendingOrigin(next).Some? ==> PendingOrigin(next) == PendingOrigin(th)
  {
  }

  /** Another renewal's insert leaves this renewal's certificate without a child. */
  lemma InsertElsewhere(w: World, tid: nat, t: nat)
    requires Linked(w) && Exclusive(w.threads) && tid in w.threads && t in w.threads && t != tid
    requires w.threads[tid].JobInsert? && OriginChildless(w.db.certs, w.threads[t])
    ensures OriginChildless(InsertCert(w.db, w.threads[tid].rec).certs, w.threads[t])
  {
    assert RecordLinked(w.db.certs, w.threads[tid]);
    if w.threads[tid].renewal {
      assert RenewalOf(w.threads[tid]) != RenewalOf(w.threads[t]);
    }
  }

  lemma OthersChildless(env: Env, w: World, tid: nat, draw: Draw, t: nat)
    requires Linked(w) && Exclusive(w.threads) && tid in w.threads && t in w.threads && t != tid
    requires OriginChildless(w.db.certs, w.threads[t])
    ensures OriginChildless(Advance(env, w.clock, w.db, w.threads[tid], draw).db.certs, w.threads[t])
  {
    var th := w.threads[tid];
    if th.JobInsert? && CanInsertCert(w.db, th.rec) {
      InsertGoesOn(env, w.clock, w.db, th.rec, th.renewal, draw);
      InsertElsewhere(w, tid, t);
    } else {
      AdvanceKeepsRows(env, w.clock, w.db, th, draw);
      EvolveSingleIff(w.db.certs, Advance(env, w.clock, w.db, th, draw).db.certs);
    }
  }

  lemma OwnChildless(env: Env, w: World, tid: nat, draw: Draw)
    requires Linked(w) && Attended(w.db.certs, w.threads) && OriginsChildless(w) && tid in w.threads
    requires var next := Advance(env, w.clock, w.db, w.threads[tid], draw).next;
      next.Some? && Exclusive(w.threads[tid := next.value])
    ensures var o := Advance(env, w.clock, w.db, w.threads[tid], draw); OriginChildless(o.db.certs, o.next.value)
  {
    var th := w.threads[tid];
    if !th.JobInsert? {
      AdvanceKeepsRows(env, w.clock, w.db, th, draw);
      EvolveSingleIff(w.db.certs, Advance(env, w.clock, w.db, th, draw).db.certs);
      if th.RenewLookup? {
        LookupChildless(env, w, tid, draw, Advance(env, w.clock, w.db, th, draw).next.value);
      } else {
        OriginCarried(env, w.clock, w.db, th, draw);
      }
    }
  }

  lemma ResumeChildless(env: Env, w: World, tid: nat, draw: Draw)
    requires Linked(w) && Attended(w.db.certs, w.threads) && OriginsChildless(w) && Exclusive(w.threads)
    requires tid in w.threads && FreshDraw(w.threads, tid, draw)
    requires Exclusive(Step(env, w, Resume(tid, draw)).threads)
    ensures OriginsChildless(Step(env, w, Resume(tid, draw)))
  {
    var o, w' := Advance(env, w.clock, w.db, w.threads[tid], draw), Step(env, w, Resume(tid, draw));
    assert w'.db == o.db && w'.threads == Threads(w.threads, tid, o.next);
    forall t | t in w'.threads
      ensures OriginChildless(w'.db.certs, w'.threads[t])
    {
      if t == tid {
        OwnChildless(env, w, tid, draw);
      } else {
        OthersChildless(env, w, tid, draw, t);
      }
    }
  }

  lemma BeginChildless(env: Env, w: World, tid: nat, req: Request)
    requires OriginsChildless(w)
    ensures OriginsChildless(Step(env, w, Begin(tid, req)))
  {
  }

  lemma StepChildless(env: Env, w: World, a: Action)
    requires Linked(w) && Attended(w.db.certs, w.threads) && OriginsChildless(w)
    requires Exclusive(w.threads) && Exclusive(Step(env, w, a).threads)
    ensures OriginsChildless(Step(env, w, a)) && !InsertsSecondChild(w, a)
  {
    match a
    case Tick(_) =>
    case Begin(tid, req) => BeginChildless(env, w, tid, req);
    case Resume(tid, draw) =>
      if tid in w.threads {
        assert OriginChildless(w.db.certs, w.threads[tid]);
        if FreshDraw(w.threads, tid, draw) {
          ResumeChildless(env, w, tid, draw);
        }
      }
  }

  lemma {:induction false} ExclusiveRun(env: Env, start: World, actions: seq<Action>)
    requires Initial(start) && ExclusiveThroughout(env, start, actions)
    ensures OriginsChildless(Run(env, start, actions)) && NoSecondChild(env, start, actions)
  {
    if actions == [] {
    } else {
      var n := |actions| - 1;
      var front := actions[..n];
      assert forall k :: 0 <= k <= n ==> front[..k] == actions[..k];
      ExclusiveRun(env, start, front);
      RunLinked(env, start, front);
      RenewedIsAttended(env, start, front);
      assert actions[..n] == front && actions[..n + 1] == actions;
      StepChildless(env, Run(env, start, front), actions[n]);
    }
  }

  /** As long as no two renewals of the same certificate overlap, whatever else is interleaved with them, no certificate
      ever has two renewal children and every lineage is a single path. */
  lemma ExclusiveRunsKeepSingleChildren(env: Env, start: World, actions: seq<Action>)
    requires Initial(start) && ExclusiveThroughout(env, start, actions)
    ensures SingleChildren(Run(env, start, actions).db.certs) && LineagesArePaths(Run(env, start, actions).db.certs)
  {
    ExclusiveRun(env, start, actions);
    SingleChildrenIff(env, start, actions);
    LineagesArePathsIff(env, start, actions);
  }

  lemma OnlyThread(threads: map<nat, Thread>, a: nat, b: nat)
    requires |threads| <= 1 && a in threads && b in threads
    ensures a == b
  {
    assert {a} <= threads.Keys;
    assert |threads.Keys - {a}| == |threads.Keys| - 1;
    assert b in threads.Keys - {a} || b == a;
  }

  /** Handlers that run one at a time are such a run. */
  lemma OneAtATimeIsExclusive(env: Env, start: World, actions: seq<Action>)
    requires forall k :: 0 <= k <= |actions| ==> |Run(env, start, actions[..k]).threads| <= 1
    ensures ExclusiveThroughout(env, start, actions)
  {
    forall k, s, t | 0 <= k <= |actions| && s in Run(env, start, actions[..k]).threads
        && t in Run(env, start, actions[..k]).threads
      ensures s == t
    {
      OnlyThread(Run(env, start, actions[..k]).threads, s, t);
    }
  }
}
