/** What each row owes to the request behind it, in every interleaving: the handler that wrote it is followed from the
    admission of its request on. */
module Requests {
  import opened Prelude
  import opened Authority
  import opened Storage
  import opened Lifecycle
  import Profiles
  import Effects
  import SerialText

  // ---------- what a request accounts for ----------

  /** The issuance columns a request accounts for. */
  predicate Accounts(env: Env, req: Request, caId: nat, commonName: string, sans: seq<string>, profile: string,
                     renewedFrom: string, cert: Cert) {
    match req
    case IssueGenerated(askedCA, askedName, askedSans, askedProfile) =>
      && caId == askedCA && commonName == askedName && sans == askedSans && renewedFrom == ""
      && profile == (if askedProfile == "" then "server" else askedProfile)
      && cert.commonName == askedName && cert.dnsNames == Filter(askedSans, (s: string) => env.net.parseIP(s).None?)
    case IssueFromCsr(askedCA, csr, askedProfile) =>
      && caId == askedCA && renewedFrom == "" && profile == (if askedProfile == "" then "server" else askedProfile)
      && csr.Some? && csr.value.signatureValid && cert.publicKey == csr.value.publicKey
      && commonName == cert.commonName == csr.value.commonName && cert.dnsNames == csr.value.dnsNames
      && |cert.ips| == |csr.value.ips|
      && forall i :: 0 <= i < |cert.ips| ==> cert.ips[i] == Profiles.Encoded(csr.value.ips[i])
    case Renew(serial) => serial != "" && renewedFrom == serial
    case _ => false
  }

  predicate AccountsForRow(env: Env, req: Request, row: CertRow) {
    Accounts(env, req, row.caId, row.commonName, row.sans, row.profile, row.renewedFrom, row.certificate)
  }

  /** The revocation a request accounts for: the one it asks for, or that of a renewal's original. */
  predicate AccountsForRevocation(req: Request, serial: string, reason: string, comment: string, actor: string) {
    match req
    case RevokeSerial(asked, askedReason, askedComment, askedActor) =>
      && serial == asked && comment == askedComment
      && reason == (if askedReason == "" then "unspecified" else askedReason)
      && actor == (if askedActor == "" then "api" else askedActor)
    case Renew(asked) => serial == asked && reason == "superseded" && comment == "" && actor == "api"
    case _ => false
  }

  predicate AccountsForRevokedRow(req: Request, row: CertRow) {
    && row.reason.Some? && row.comment.Some? && row.revokedBy.Some?
    && AccountsForRevocation(req, row.serial, row.reason.value, row.comment.value, row.revokedBy.value)
  }

  predicate AccountsForCA(req: Request, ca: CARow) {
    && req.CreateRoot? && req.name != "" && ca.name == req.name
    && ca.certificate.Some? && ca.certificate.value.commonName == req.name
    && ca.serial == SerialText.HexUpper(ca.certificate.value.serial)
  }

  // ---------- a handler and its request ----------

  predicate JobServes(req: Request, job: Job) {
    match job
    case FromRequest(caId, commonName, sans, profile) =>
      && req.IssueGenerated? && caId == req.caId && commonName == req.commonName && sans == req.sans
      && profile == (if req.profile == "" then "server" else req.profile)
    case FromCsr(caId, csr, profile) =>
      && req.IssueFromCsr? && caId == req.caId && csr == req.csr
      && profile == (if req.profile == "" then "server" else req.profile)
    case Renewal(orig) => req.Renew? && req.serial != "" && orig.serial == req.serial
  }

  predicate RevocationServes(req: Request, opts: RevokeOpts) {
    && opts.reason != "" && opts.actor != ""
    && AccountsForRevocation(req, opts.serial, opts.reason, opts.comment, opts.actor)
  }

  predicate Serves(env: Env, req: Request, th: Thread) {
    match th
    case RootSign(name, days) => req == CreateRoot(name, days) && name != ""
    case RootInsert(ca) =>
      && req.CreateRoot? && req.name != "" && ca.name == ca.certificate.commonName == req.name
      && ca.serial == SerialText.HexUpper(ca.certificate.serial)
    case RootKey(_) => req.CreateRoot?
    case RenewLookup(serial) => req == Renew(serial) && serial != ""
    case JobGetCA(job) => JobServes(req, job)
    case JobGetKey(job, caRow) => JobServes(req, job) && caRow.id == JobCA(job)
    case JobSign(job, caRow) => JobServes(req, job) && caRow.id == JobCA(job)
    case JobInsert(rec, renewal) =>
      && (renewal <==> req.Renew?)
      && Accounts(env, req, rec.caId, rec.commonName, rec.sans, rec.profile, rec.renewedFrom, rec.certificate)
    case RevokeClock(opts, _) => RevocationServes(req, opts)
    case RevokeUpdate(opts, _, _) => RevocationServes(req, opts)
    case CrlGetCA(caId) => req == PublishCrl(caId)
    case CrlGetKey(caRow) => req == PublishCrl(caRow.id)
    case CrlList(caId) => req == PublishCrl(caId)
    case CrlSign(caId, _) => req == PublishCrl(caId)
    case _ => req == CountCerts
  }

  /** The difference one statement makes is its request's: rows keep their place, a new one has the requested columns,
      and one that changes is revoked as requested. */
  predicate Explained(env: Env, req: Request, db: Db, db': Db) {
    && |db.certs| <= |db'.certs| <= |db.certs| + 1 && |db.cas| <= |db'.cas| <= |db.cas| + 1
    && db'.cas[..|db.cas|] == db.cas
    && (forall i :: 0 <= i < |db.certs| ==>
          db'.certs[i] == db.certs[i]
          || (AccountsForRevokedRow(req, db'.certs[i]) && SameIssuance(db.certs[i], db'.certs[i])))
    && (forall i :: |db.certs| <= i < |db'.certs| ==>
          AccountsForRow(env, req, db'.certs[i]) && db'.certs[i].status == Active)
    && (forall i :: |db.cas| <= i < |db'.cas| ==> AccountsForCA(req, db'.cas[i]))
  }

  predicate SameIssuance(a: CertRow, b: CertRow) {
    && a.status == Active && b.status == Revoked && a.caId == b.caId && a.serial == b.serial
    && a.commonName == b.commonName && a.sans == b.sans && a.profile == b.profile
    && a.renewedFrom == b.renewedFrom && a.certificate == b.certificate
  }

  lemma AdmittedServes(env: Env, req: Request)
    requires Admit(env, req).Some?
    ensures Serves(env, req, Admit(env, req).value)
  {
    NoCodeForEmpty();
  }

  lemma SignServes(env: Env, req: Request, job: Job, caRow: CARow, draw: Draw, now: nat)
    requires JobServes(req, job) && caRow.id == JobCA(job) && JobProfile(job) in env.profiles
    requires (job.FromCsr? ==> job.csr.Some?) && Issue(env.net, JobOptions(env, job), draw, now).Ok?
    ensures var cert := Issue(env.net, JobOptions(env, job), draw, now).value;
      Serves(env, req, JobInsert(JobRecord(env, job, caRow, cert), job.Renewal?))
  {
    CsrCertified(env.net, JobOptions(env, job), draw, now);
    if job.FromRequest? {
      Effects.SplitExactly(env.net, job.sans);
    }
  }

  lemma LookupServes(env: Env, clock: nat, db: Db, th: Thread, draw: Draw)
    requires th.RenewLookup? && th.serial != "" && Advance(env, clock, db, th, draw).next.Some?
    ensures Serves(env, Renew(th.serial), Advance(env, clock, db, th, draw).next.value)
  {
  }

  lemma JobStepServes(env: Env, req: Request, clock: nat, db: Db, th: Thread, draw: Draw)
    requires Serves(env, req, th) && (th.JobGetCA? || th.JobGetKey? || th.JobSign?)
    requires Advance(env, clock, db, th, draw).next.Some?
    ensures Serves(env, req, Advance(env, clock, db, th, draw).next.value)
  {
    if th.JobSign? {
      SignServes(env, req, th.job, th.caRow, draw, clock);
    }
  }

  lemma RootServes(env: Env, req: Request, clock: nat, db: Db, th: Thread, draw: Draw)
    requires Serves(env, req, th) && th.RootSign? && Advance(env, clock, db, th, draw).next.Some?
    ensures Serves(env, req, Advance(env, clock, db, th, draw).next.value)
  {
    InitExactly(RootCA, th.name, th.days, draw, clock);
  }

  lemma OthersServe(env: Env, req: Request, clock: nat, db: Db, th: Thread, draw: Draw)
    requires Serves(env, req, th)
    requires !th.RenewLookup? && !th.JobGetCA? && !th.JobGetKey? && !th.JobSign? && !th.RootSign?
    requires Advance(env, clock, db, th, draw).next.Some?
    ensures Serves(env, req, Advance(env, clock, db, th, draw).next.value)
  {
  }

  lemma NextServes(env: Env, req: Request, clock: nat, db: Db, th: Thread, draw: Draw)
    requires Serves(env, req, th) && Advance(env, clock, db, th, draw).next.Some?
    ensures Serves(env, req, Advance(env, clock, db, th, draw).next.value)
  {
    if th.RenewLookup? {
      LookupServes(env, clock, db, th, draw);
    } else if th.JobGetCA? || th.JobGetKey? || th.JobSign? {
      JobStepServes(env, req, clock, db, th, draw);
    } else if th.RootSign? {
      RootServes(env, req, clock, db, th, draw);
    } else {
      OthersServe(env, req, clock, db, th, draw);
    }
  }

  lemma UpdateExplained(env: Env, req: Request, db: Db, opts: RevokeOpts, stamp: string)
    requires RevocationServes(req, opts)
    ensures Explained(env, req, db, Revoke(db, opts, stamp))
  {
    RevokeColumns(db, opts, stamp);
  }

  lemma AdvanceExplained(env: Env, req: Request, clock: nat, db: Db, th: Thread, draw: Draw)
    requires Serves(env, req, th)
    ensures Explained(env, req, db, Advance(env, clock, db, th, draw).db)
  {
    if th.RevokeUpdate? {
      UpdateExplained(env, req, db, th.opts, th.stamp);
    } else if th.RootInsert? || th.RootKey? {
      RootExplained(env, req, clock, db, th, draw);
    } else if th.JobInsert? {
      RowExplained(env, req, db, th.rec);
    } else {
      OthersWriteNothing(env, clock, db, th, draw);
    }
  }

  lemma RootExplained(env: Env, req: Request, clock: nat, db: Db, th: Thread, draw: Draw)
    requires Serves(env, req, th) && (th.RootInsert? || th.RootKey?)
    ensures Explained(env, req, db, Advance(env, clock, db, th, draw).db)
  {
  }

  lemma RowExplained(env: Env, req: Request, db: Db, rec: NewCert)
    requires Accounts(env, req, rec.caId, rec.commonName, rec.sans, rec.profile, rec.renewedFrom, rec.certificate)
    ensures Explained(env, req, db, InsertCert(db, rec)) && Explained(env, req, db, db)
  {
  }

  lemma OthersWriteNothing(env: Env, clock: nat, db: Db, th: Thread, draw: Draw)
    requires !th.RootInsert? && !th.RootKey? && !th.JobInsert? && !th.RevokeUpdate?
    ensures Advance(env, clock, db, th, draw).db == db
  {
  }

  lemma ListServes(env: Env, req: Request, clock: nat, db: Db, th: Thread, draw: Draw)
    requires Serves(env, req, th) && Advance(env, clock, db, th, draw).crl.Some?
    ensures req == PublishCrl(Advance(env, clock, db, th, draw).crl.value.caId)
  {
  }

  // ---------- over every run ----------

  /** The request behind each thread number: the last one admitted under it. */
  function Origins(env: Env, start: World, actions: seq<Action>): map<nat, Request> {
    if actions == [] then map[]
    else
      var front, last := actions[..|actions| - 1], actions[|actions| - 1];
      var before := Origins(env, start, front);
      if last.Begin? && last.tid !in Run(env, start, front).threads then before[last.tid := last.req] else before
  }

  /** The request came in with some action of the run. */
  predicate Asked(actions: seq<Action>, req: Request) {
    exists k :: 0 <= k < |actions| && actions[k].Begin? && actions[k].req == req
  }

  ghost predicate AllServe(env: Env, threads: map<nat, Thread>, origins: map<nat, Request>) {
    forall t :: t in threads ==> t in origins && Serves(env, origins[t], threads[t])
  }

  lemma ServeOn(env: Env, start: World, actions: seq<Action>, a: Action)
    requires AllServe(env, Run(env, start, actions).threads, Origins(env, start, actions))
    ensures AllServe(env, Step(env, Run(env, start, actions), a).threads, Origins(env, start, actions + [a]))
  {
    assert (actions + [a])[..|actions|] == actions;
    var w, origins := Run(env, start, actions), Origins(env, start, actions);
    match a
    case Tick(_) =>
    case Begin(tid, req) =>
      if Admit(env, req).Some? {
        AdmittedServes(env, req);
      }
    case Resume(tid, draw) =>
      if tid in w.threads && Advance(env, w.clock, w.db, w.threads[tid], draw).next.Some? {
        NextServes(env, origins[tid], w.clock, w.db, w.threads[tid], draw);
      }
  }

  lemma {:induction false} RunServes(env: Env, start: World, actions: seq<Action>)
    requires Initial(start)
    ensures AllServe(env, Run(env, start, actions).threads, Origins(env, start, actions))
  {
    if actions == [] {
    } else {
      var front := actions[..|actions| - 1];
      RunServes(env, start, front);
      ServeOn(env, start, front, actions[|actions| - 1]);
      assert front + [actions[|actions| - 1]] == actions;
    }
  }

  lemma {:induction false} OriginsAsked(env: Env, start: World, actions: seq<Action>, tid: nat)
    requires tid in Origins(env, start, actions)
    ensures Asked(actions, Origins(env, start, actions)[tid])
  {
    var front, last := actions[..|actions| - 1], actions[|actions| - 1];
    if last.Begin? && last.tid == tid && last.tid !in Run(env, start, front).threads {
      assert actions[|actions| - 1] == last;
    } else {
      OriginsAsked(env, start, front, tid);
      var k :| 0 <= k < |front| && front[k].Begin? && front[k].req == Origins(env, start, front)[tid];
      assert actions[k] == front[k];
    }
  }

  /** Whatever runs beside it, a statement changes the tables only as the request of its own handler says. */
  lemma StatementsAreExplained(env: Env, start: World, actions: seq<Action>, tid: nat, draw: Draw)
    requires Initial(start) && tid in Run(env, start, actions).threads
    ensures tid in Origins(env, start, actions) && Asked(actions, Origins(env, start, actions)[tid])
    ensures Explained(env, Origins(env, start, actions)[tid], Run(env, start, actions).db,
                      Step(env, Run(env, start, actions), Resume(tid, draw)).db)
  {
    var w := Run(env, start, actions);
    RunServes(env, start, actions);
    OriginsAsked(env, start, actions, tid);
    AdvanceExplained(env, Origins(env, start, actions)[tid], w.clock, w.db, w.threads[tid], draw);
  }

  ghost predicate CAAsked(actions: seq<Action>, ca: CARow) {
    exists req :: Asked(actions, req) && AccountsForCA(req, ca)
  }

  ghost predicate RowAsked(env: Env, actions: seq<Action>, row: CertRow) {
    exists req :: Asked(actions, req) && AccountsForRow(env, req, row)
  }

  ghost predicate RevocationAsked(actions: seq<Action>, row: CertRow) {
    exists req :: Asked(actions, req) && AccountsForRevokedRow(req, row)
  }

  /** Every CA, every row and every revocation goes back to a request of the run. */
  ghost predicate Founded(env: Env, actions: seq<Action>, db: Db) {
    && (forall i :: 0 <= i < |db.cas| ==> CAAsked(actions, db.cas[i]))
    && (forall i :: 0 <= i < |db.certs| ==> RowFounded(env, actions, db.certs[i]))
  }

  ghost predicate RowFounded(env: Env, actions: seq<Action>, row: CertRow) {
    RowAsked(env, actions, row) && (row.status == Revoked ==> RevocationAsked(actions, row))
  }

  lemma AskedEarlier(actions: seq<Action>, a: Action, req: Request)
    requires Asked(actions, req)
    ensures Asked(actions + [a], req)
  {
    var k :| 0 <= k < |actions| && actions[k].Begin? && actions[k].req == req;
    assert (actions + [a])[k] == actions[k];
  }

  lemma CAStaysFounded(actions: seq<Action>, a: Action, ca: CARow)
    requires CAAsked(actions, ca)
    ensures CAAsked(actions + [a], ca)
  {
    var req :| Asked(actions, req) && AccountsForCA(req, ca);
    AskedEarlier(actions, a, req);
  }

  lemma RowStaysFounded(env: Env, actions: seq<Action>, a: Action, row: CertRow)
    requires RowFounded(env, actions, row)
    ensures RowFounded(env, actions + [a], row)
  {
    var issue :| Asked(actions, issue) && AccountsForRow(env, issue, row);
    AskedEarlier(actions, a, issue);
    if row.status == Revoked {
      var revoke :| Asked(actions, revoke) && AccountsForRevokedRow(revoke, row);
      AskedEarlier(actions, a, revoke);
    }
  }

  lemma StaysFounded(env: Env, actions: seq<Action>, a: Action, db: Db)
    requires Founded(env, actions, db)
    ensures Founded(env, actions + [a], db)
  {
    forall i | 0 <= i < |db.cas|
      ensures CAAsked(actions + [a], db.cas[i])
    {
      CAStaysFounded(actions, a, db.cas[i]);
    }
    forall i | 0 <= i < |db.certs|
      ensures RowFounded(env, actions + [a], db.certs[i])
    {
      RowStaysFounded(env, actions, a, db.certs[i]);
    }
  }

  lemma ExplainedFounded(env: Env, actions: seq<Action>, req: Request, db: Db, db': Db)
    requires Founded(env, actions, db) && Asked(actions, req) && Explained(env, req, db, db')
    ensures Founded(env, actions, db')
  {
    forall i | 0 <= i < |db'.cas|
      ensures CAAsked(actions, db'.cas[i])
    {
      if i < |db.cas| {
        assert db'.cas[i] == db'.cas[..|db.cas|][i];
      }
    }
    forall i | 0 <= i < |db'.certs|
      ensures RowFounded(env, actions, db'.certs[i])
    {
      if i < |db.certs| {
        assert RowFounded(env, actions, db.certs[i]);
        assert db'.certs[i] == db.certs[i] || AccountsForRevokedRow(req, db'.certs[i]);
        var issue :| Asked(actions, issue) && AccountsForRow(env, issue, db.certs[i]);
        assert AccountsForRow(env, issue, db'.certs[i]);
      } else {
        assert AccountsForRow(env, req, db'.certs[i]);
      }
    }
  }

  lemma ResumeFounded(env: Env, start: World, front: seq<Action>, tid: nat, draw: Draw)
    requires Initial(start) && tid in Run(env, start, front).threads
    requires Founded(env, front, Run(env, start, front).db)
    ensures Founded(env, front + [Resume(tid, draw)], Step(env, Run(env, start, front), Resume(tid, draw)).db)
  {
    var w, last := Run(env, start, front), Resume(tid, draw);
    StatementsAreExplained(env, start, front, tid, draw);
    var req := Origins(env, start, front)[tid];
    AskedEarlier(front, last, req);
    StaysFounded(env, front, last, w.db);
    ExplainedFounded(env, front + [last], req, w.db, Step(env, w, last).db);
  }

  lemma {:induction false} EveryRowIsFounded(env: Env, start: World, actions: seq<Action>)
    requires Initial(start)
    ensures Founded(env, actions, Run(env, start, actions).db)
  {
    if actions == [] {
    } else {
      var front, last := actions[..|actions| - 1], actions[|actions| - 1];
      var w := Run(env, start, front);
      assert front + [last] == actions;
      EveryRowIsFounded(env, start, front);
      if last.Resume? && last.tid in w.threads {
        ResumeFounded(env, start, front, last.tid, last.draw);
      } else {
        StaysFounded(env, front, last, w.db);
      }
    }
  }

  /** Every published list was asked for, of that CA. */
  lemma {:induction false} EveryListIsAsked(env: Env, start: World, actions: seq<Action>, k: nat)
    requires Initial(start) && k < |Run(env, start, actions).crls|
    ensures Asked(actions, PublishCrl(Run(env, start, actions).crls[k].caId))
  {
    var front, last := actions[..|actions| - 1], actions[|actions| - 1];
    var w := Run(env, start, front);
    assert front + [last] == actions;
    if k < |w.crls| {
      EveryListIsAsked(env, start, front, k);
      StepExtends(env, w, last);
      AskedEarlier(front, last, PublishCrl(w.crls[k].caId));
    } else {
      RunServes(env, start, front);
      OriginsAsked(env, start, front, last.tid);
      ListServes(env, Origins(env, start, front)[last.tid], w.clock, w.db, w.threads[last.tid], last.draw);
      AskedEarlier(front, last, Origins(env, start, front)[last.tid]);
    }
  }
}
