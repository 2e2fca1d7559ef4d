/** What every reachable world satisfies: the shape of the tables, and what each handler in flight may rely on. */
module Invariant {
  import opened Prelude
  import opened Profiles
  import opened Authority
  import opened Storage
  import opened Lifecycle
  import Rfc3339
  import SerialText

  // ---------- tables ----------

  predicate CAsOk(cas: seq<CARow>) {
    && (forall i :: 0 <= i < |cas| ==>
          && cas[i].id == i + 1
          && cas[i].certificate.Some?
          && cas[i].serial == SerialText.HexUpper(cas[i].certificate.value.serial))
    && (forall i, j :: 0 <= i < j < |cas| ==> cas[i].serial != cas[j].serial)
  }

  /** The facts about an issued certificate that its row and the record about to be inserted share. */
  predicate Issued(env: Env, cas: seq<CARow>, caId: nat, serial: string, commonName: string, profile: string,
          cert: Cert) {
    && 1 <= caId <= |cas|
    && serial == SerialText.HexUpper(cert.serial)
    && commonName == cert.commonName
    && profile in env.profiles
    && Obeys(env.net, env.profiles[profile], cert)
    && EncodedAll(cert.ips) == cert.ips
    && cert.notBefore < Rfc3339.END_OF_TEXT && cert.notAfter < Rfc3339.END_OF_TEXT
  }

  /** `stamp` is the text of a clock reading not after `clock`. */
  ghost predicate StampBy(stamp: string, clock: nat) {
    exists t: nat :: t < Rfc3339.END_OF_TEXT && t * Rfc3339.NANOS <= clock && stamp == Rfc3339.Format(t)
  }

  ghost predicate StatusOk(row: CertRow, clock: nat) {
    match row.status
    case Active => row.revokedAt.None? && row.reason.None? && row.comment.None? && row.revokedBy.None?
    case Revoked => row.revokedAt.Some? && StampBy(row.revokedAt.value, clock) && row.reason.Some?
    case Expired => false
  }

  ghost predicate RowOk(env: Env, cas: seq<CARow>, clock: nat, row: CertRow) {
    && Issued(env, cas, row.caId, row.serial, row.commonName, row.profile, row.certificate)
    && TimesStored(row)
    && StatusOk(row, clock)
  }

  predicate SameIdentity(a: CertRow, caId: nat, profile: string, commonName: string, sans: seq<string>, cert: Cert) {
    && a.caId == caId && a.profile == profile && a.commonName == commonName && a.sans == sans
    && a.certificate.dnsNames == cert.dnsNames && a.certificate.ips == cert.ips
  }

  predicate SameLineage(a: CertRow, b: CertRow) {
    SameIdentity(a, b.caId, b.profile, b.commonName, b.sans, b.certificate)
  }

  /** Row `j` is what row `i` was renewed from. */
  predicate RenewedFromRow(certs: seq<CertRow>, i: nat, j: nat)
    requires i < |certs|
  {
    j < i && certs[j].serial == certs[i].renewedFrom && SameLineage(certs[j], certs[i])
  }

  ghost predicate LinkOk(certs: seq<CertRow>, i: nat)
    requires i < |certs|
  {
    certs[i].renewedFrom == "" || exists j: nat :: RenewedFromRow(certs, i, j)
  }

  ghost predicate RowsOk(env: Env, cas: seq<CARow>, certs: seq<CertRow>, clock: nat) {
    forall i :: 0 <= i < |certs| ==> certs[i].id == i + 1 && RowOk(env, cas, clock, certs[i])
  }

  predicate SerialsUnique(certs: seq<CertRow>) {
    forall i, j :: 0 <= i < j < |certs| ==> certs[i].serial != certs[j].serial
  }

  ghost predicate LinksOk(certs: seq<CertRow>) {
    forall i :: 0 <= i < |certs| ==> LinkOk(certs, i)
  }

  ghost predicate CertsOk(env: Env, cas: seq<CARow>, certs: seq<CertRow>, clock: nat) {
    RowsOk(env, cas, certs, clock) && SerialsUnique(certs) && LinksOk(certs)
  }

  ghost predicate DbOk(env: Env, db: Db, clock: nat) {
    CAsOk(db.cas) && CertsOk(env, db.cas, db.certs, clock)
  }

  // ---------- handlers in flight ----------

  /** A record read earlier still names a row with the same issuance columns. */
  predicate RecordOf(row: CertRow, orig: CertRecord) {
    && row.id == orig.id && row.caId == orig.caId && row.serial == orig.serial && row.commonName == orig.commonName
    && row.sans == orig.sans && row.profile == orig.profile && row.certificate == orig.certificate
  }

  predicate JobOk(env: Env, db: Db, job: Job) {
    && JobProfile(job) in env.profiles
    && (job.Renewal? ==> exists i :: 0 <= i < |db.certs| && RecordOf(db.certs[i], job.orig))
  }

  predicate RecOk(env: Env, db: Db, rec: NewCert, renewal: bool) {
    && Issued(env, db.cas, rec.caId, rec.serial, rec.commonName, rec.profile, rec.certificate)
    && if renewal
       then exists i :: 0 <= i < |db.certs| && db.certs[i].serial == rec.renewedFrom
                        && SameIdentity(db.certs[i], rec.caId, rec.profile, rec.commonName, rec.sans, rec.certificate)
       else rec.renewedFrom == ""
  }

  predicate EntriesBy(entries: seq<RevokedEntry>, clock: nat) {
    forall i :: 0 <= i < |entries| ==> entries[i].revokedAt * Rfc3339.NANOS <= clock
  }

  ghost predicate ThreadOk(env: Env, clock: nat, db: Db, th: Thread) {
    match th
    case RootInsert(ca) => ca.serial == SerialText.HexUpper(ca.certificate.serial)
    case JobGetCA(job) => JobOk(env, db, job)
    case JobGetKey(job, caRow) => JobOk(env, db, job) && caRow in db.cas && caRow.id == JobCA(job)
    case JobSign(job, caRow) => JobOk(env, db, job) && caRow in db.cas && caRow.id == JobCA(job)
    case JobInsert(rec, renewal) => RecOk(env, db, rec, renewal)
    case RevokeUpdate(_, stamp, _) => StampBy(stamp, clock)
    case CrlGetKey(caRow) => caRow in db.cas
    case CrlSign(_, entries) => EntriesBy(entries, clock)
    case StatsActive(_, total) => total <= |db.certs|
    case StatsRevoked(_, total, active) => total <= active + CountStatus(db.certs, Revoked)
    case StatsClock(_, total, active, revoked) => total <= active + revoked
    case StatsExpiring(_, total, active, revoked, _) => total <= active + revoked
    case _ => true
  }

  ghost predicate Inv(env: Env, w: World) {
    && Encodable(w.clock)
    && DbOk(env, w.db, w.clock)
    && forall t :: t in w.threads ==> ThreadOk(env, w.clock, w.db, w.threads[t])
  }

  // ---------- counts ----------

  lemma {:induction false} CountsAdd(certs: seq<CertRow>)
    requires forall i :: 0 <= i < |certs| ==> certs[i].status != Expired
    ensures CountStatus(certs, Active) + CountStatus(certs, Revoked) == |certs|
  {
    if certs == [] {
    } else {
      CountsAdd(certs[..|certs| - 1]);
    }
  }

  lemma {:induction false} RevokedCountGrows(a: seq<CertRow>, b: seq<CertRow>)
    requires |a| <= |b|
    requires forall i :: 0 <= i < |a| ==> RowEvolves(a[i], b[i])
    ensures CountStatus(a, Revoked) <= CountStatus(b, Revoked)
    decreases |b|
  {
    if |a| < |b| {
      RevokedCountGrows(a, b[..|b| - 1]);
    } else if a != [] {
      RevokedCountGrows(a[..|a| - 1], b[..|b| - 1]);
    }
  }

  // ---------- the tables keep their shape ----------

  lemma CAInserted(env: Env, db: Db, ca: NewCA, clock: nat)
    requires DbOk(env, db, clock) && CanInsertCA(db, ca)
    requires ca.serial == SerialText.HexUpper(ca.certificate.serial)
    ensures DbOk(env, InsertCA(db, ca), clock)
  {
  }

  /** Rows may change or be added, as long as the issuance columns of the old ones stay: links stay valid. */
  lemma LinksKept(certs: seq<CertRow>, certs': seq<CertRow>, i: nat)
    requires LinksOk(certs) && i < |certs| <= |certs'|
    requires forall k :: 0 <= k < |certs| ==> RowEvolves(certs[k], certs'[k])
    ensures LinkOk(certs', i)
  {
    assert LinkOk(certs, i);
    if certs[i].renewedFrom != "" {
      var j: nat :| RenewedFromRow(certs, i, j);
      assert RenewedFromRow(certs', i, j);
    }
  }

  lemma NewRowOk(env: Env, db: Db, rec: NewCert, id: nat, clock: nat)
    requires Issued(env, db.cas, rec.caId, rec.serial, rec.commonName, rec.profile, rec.certificate)
    ensures RowOk(env, db.cas, clock, NewRow(id, rec))
  {
  }

  lemma NewLinkOk(env: Env, db: Db, rec: NewCert, renewal: bool)
    requires RecOk(env, db, rec, renewal)
    ensures LinkOk(InsertCert(db, rec).certs, |db.certs|)
  {
    if renewal {
      var j :| 0 <= j < |db.certs| && db.certs[j].serial == rec.renewedFrom
               && SameIdentity(db.certs[j], rec.caId, rec.profile, rec.commonName, rec.sans, rec.certificate);
      assert RenewedFromRow(InsertCert(db, rec).certs, |db.certs|, j);
    }
  }

  lemma RowAppended(env: Env, cas: seq<CARow>, certs: seq<CertRow>, row: CertRow, clock: nat)
    requires RowsOk(env, cas, certs, clock) && RowOk(env, cas, clock, row) && row.id == |certs| + 1
    ensures RowsOk(env, cas, certs + [row], clock)
  {
  }

  lemma SerialAppended(certs: seq<CertRow>, row: CertRow)
    requires SerialsUnique(certs) && !HasSerial(certs, row.serial)
    ensures SerialsUnique(certs + [row])
  {
  }

  lemma LinkAppended(certs: seq<CertRow>, row: CertRow)
    requires LinksOk(certs) && LinkOk(certs + [row], |certs|)
    ensures LinksOk(certs + [row])
  {
    forall i | 0 <= i < |certs| + 1
      ensures LinkOk(certs + [row], i)
    {
      if i < |certs| {
        LinksKept(certs, certs + [row], i);
      }
    }
  }

  lemma CertInserted(env: Env, db: Db, rec: NewCert, renewal: bool, clock: nat)
    requires DbOk(env, db, clock) && CanInsertCert(db, rec) && RecOk(env, db, rec, renewal)
    ensures DbOk(env, InsertCert(db, rec), clock)
  {
    var row := NewRow(|db.certs| + 1, rec);
    NewRowOk(env, db, rec, |db.certs| + 1, clock);
    RowAppended(env, db.cas, db.certs, row, clock);
    SerialAppended(db.certs, row);
    NewLinkOk(env, db, rec, renewal);
    LinkAppended(db.certs, row);
  }

  lemma RevokedRowOk(env: Env, cas: seq<CARow>, clock: nat, row: CertRow, opts: RevokeOpts, stamp: string)
    requires RowOk(env, cas, clock, row) && StampBy(stamp, clock)
    ensures RowOk(env, cas, clock, RevokedRow(row, opts, stamp))
  {
  }

  lemma CertsRevoked(env: Env, db: Db, opts: RevokeOpts, stamp: string, clock: nat)
    requires DbOk(env, db, clock) && StampBy(stamp, clock)
    ensures DbOk(env, Revoke(db, opts, stamp), clock)
  {
    var certs := Revoke(db, opts, stamp).certs;
    forall i | 0 <= i < |certs|
      ensures certs[i].id == i + 1 && RowOk(env, db.cas, clock, certs[i])
    {
      RevokedRowOk(env, db.cas, clock, db.certs[i], opts, stamp);
    }
    forall i | 0 <= i < |certs|
      ensures LinkOk(certs, i)
    {
      LinksKept(db.certs, certs, i);
    }
  }

  lemma DbOkLater(env: Env, db: Db, clock: nat, later: nat)
    requires DbOk(env, db, clock) && clock <= later
    ensures DbOk(env, db, later)
  {
  }

  // ---------- other handlers do not disturb a handler ----------

  lemma ThreadUndisturbed(env: Env, clock: nat, db: Db, later: nat, db': Db, th: Thread)
    requires ThreadOk(env, clock, db, th) && Extends(db, db') && clock <= later
    ensures ThreadOk(env, later, db', th)
  {
    match th
    case JobGetCA(job) => JobUndisturbed(env, db, db', job);
    case JobGetKey(job, caRow) => JobUndisturbed(env, db, db', job);
    case JobSign(job, caRow) => JobUndisturbed(env, db, db', job);
    case JobInsert(rec, renewal) =>
      if renewal {
        var i :| 0 <= i < |db.certs| && db.certs[i].serial == rec.renewedFrom
                 && SameIdentity(db.certs[i], rec.caId, rec.profile, rec.commonName, rec.sans, rec.certificate);
        assert SameIdentity(db'.certs[i], rec.caId, rec.profile, rec.commonName, rec.sans, rec.certificate);
      }
    case StatsRevoked(_, _, _) => RevokedCountGrows(db.certs, db'.certs);
    case _ =>
  }

  lemma JobUndisturbed(env: Env, db: Db, db': Db, job: Job)
    requires JobOk(env, db, job) && Extends(db, db')
    ensures JobOk(env, db', job)
  {
  }

  // ---------- a handler's own statement keeps everything ----------

  lemma LookupFindsRow(env: Env, db: Db, clock: nat, serial: string)
    requires DbOk(env, db, clock) && GetCertBySerial(env.build, db, serial).Some?
    ensures JobProfile(Renewal(GetCertBySerial(env.build, db, serial).value)) in env.profiles
    ensures JobOk(env, db, Renewal(GetCertBySerial(env.build, db, serial).value))
  {
    var row := FindRow(db.certs, serial).value;
    var i :| 0 <= i < |db.certs| && db.certs[i] == row;
    assert RowOk(env, db.cas, clock, db.certs[i]);
    assert RecordOf(db.certs[i], ReadRow(row));
  }

  /** A signed certificate, together with the columns recorded beside it, is a record that may be stored. */
  lemma SignedIsIssued(env: Env, cas: seq<CARow>, caId: nat, profile: string, opts: IssueOptions, draw: Draw, now: int)
    requires 1 <= caId <= |cas| && profile in env.profiles && opts.profile == Some(env.profiles[profile])
    requires Issue(env.net, opts, draw, now).Ok?
    ensures var cert := Issue(env.net, opts, draw, now).value;
      && Issued(env, cas, caId, SerialText.HexUpper(cert.serial), cert.commonName, profile, cert)
      && cert.commonName == TakeFromCsr(opts).commonName
      && cert.dnsNames == TakeFromCsr(opts).dnsNames && cert.ips == EncodedAll(TakeFromCsr(opts).ips)
  {
    IssuedObeysProfile(env.net, opts, draw, now);
    EncodedTwice(TakeFromCsr(opts).ips);
  }

  /** What a job signs is a record that may be inserted: it obeys its profile and continues the lineage it renews. */
  lemma SignedRecordOk(env: Env, db: Db, clock: nat, job: Job, caRow: CARow, draw: Draw, now: nat)
    requires DbOk(env, db, clock) && JobOk(env, db, job) && caRow in db.cas && caRow.id == JobCA(job)
    requires job.FromCsr? ==> job.csr.Some?
    requires Issue(env.net, JobOptions(env, job), draw, now).Ok?
    ensures RecOk(env, db, JobRecord(env, job, caRow, Issue(env.net, JobOptions(env, job), draw, now).value),
             job.Renewal?)
  {
    SignedIsIssued(env, db.cas, caRow.id, JobProfile(job), JobOptions(env, job), draw, now);
    if job.Renewal? {
      RenewedRecordOk(env, db, clock, job, caRow, draw, now);
    }
  }

  lemma RenewedRecordOk(env: Env, db: Db, clock: nat, job: Job, caRow: CARow, draw: Draw, now: nat)
    requires DbOk(env, db, clock) && JobOk(env, db, job) && job.Renewal?
    requires Issue(env.net, JobOptions(env, job), draw, now).Ok?
    ensures var rec := JobRecord(env, job, caRow, Issue(env.net, JobOptions(env, job), draw, now).value);
      RecOk(env, db, rec, true)
  {
    var i :| 0 <= i < |db.certs| && RecordOf(db.certs[i], job.orig);
    var row := db.certs[i];
    assert RowOk(env, db.cas, clock, row);
    SignedIsIssued(env, db.cas, row.caId, row.profile, JobOptions(env, job), draw, now);
    var cert := Issue(env.net, JobOptions(env, job), draw, now).value;
    assert SameIdentity(row, job.orig.caId, job.orig.profile, job.orig.commonName, job.orig.sans, cert);
  }

  lemma StampIsRead(now: nat)
    requires Encodable(now)
    ensures StampBy(Stamp(now), now)
  {
  }

  lemma RevokedRowBy(env: Env, cas: seq<CARow>, clock: nat, row: CertRow)
    requires RowOk(env, cas, clock, row) && row.status == Revoked
    ensures row.revokedAt.Some? && row.reason.Some?
    ensures exists t: nat :: StampStored(row, t) && t * Rfc3339.NANOS <= clock && ReadRevoked(row).revokedAt == t
  {
    var t: nat :| t < Rfc3339.END_OF_TEXT && t * Rfc3339.NANOS <= clock && row.revokedAt.value == Rfc3339.Format(t);
    assert StampStored(row, t);
    Rfc3339.ParseRoundTrip(t);
  }

  lemma ListedRowBy(env: Env, db: Db, clock: nat, caId: nat, row: CertRow)
    requires DbOk(env, db, clock) && row in SelectRevoked(db.certs, caId)
    ensures row.revokedAt.Some? && ReadRevoked(row).revokedAt * Rfc3339.NANOS <= clock
  {
    var k :| 0 <= k < |db.certs| && db.certs[k] == row;
    RevokedRowBy(env, db.cas, clock, db.certs[k]);
  }

  lemma EntriesReadBy(rows: seq<CertRow>, clock: nat)
    requires forall row :: row in rows ==> ReadRevoked(row).revokedAt * Rfc3339.NANOS <= clock
    ensures EntriesBy(ReadAllRevoked(rows), clock)
  {
  }

  lemma ListingBy(env: Env, db: Db, clock: nat, caId: nat)
    requires DbOk(env, db, clock)
    ensures ListRevoked(db, caId) == Some(ReadAllRevoked(SelectRevoked(db.certs, caId)))
    ensures EntriesBy(ListRevoked(db, caId).value, clock)
  {
    var rows := SelectRevoked(db.certs, caId);
    forall row | row in rows
      ensures row.revokedAt.Some? && ReadRevoked(row).revokedAt * Rfc3339.NANOS <= clock
    {
      ListedRowBy(env, db, clock, caId, row);
    }
    EntriesReadBy(rows, clock);
  }

  lemma NoneExpired(env: Env, db: Db, clock: nat)
    requires DbOk(env, db, clock)
    ensures CountStatus(db.certs, Active) + CountStatus(db.certs, Revoked) == |db.certs|
  {
    forall i | 0 <= i < |db.certs|
      ensures db.certs[i].status != Expired
    {
      assert RowOk(env, db.cas, clock, db.certs[i]);
    }
    CountsAdd(db.certs);
  }

  lemma AdvanceDbOk(env: Env, clock: nat, db: Db, th: Thread, draw: Draw)
    requires Encodable(clock) && DbOk(env, db, clock) && ThreadOk(env, clock, db, th)
    ensures DbOk(env, Advance(env, clock, db, th, draw).db, clock)
  {
    match th
    case RootInsert(ca) =>
      if CanInsertCA(db, ca) {
        CAInserted(env, db, ca, clock);
      }
    case JobInsert(rec, renewal) =>
      if CanInsertCert(db, rec) {
        CertInserted(env, db, rec, renewal, clock);
      }
    case RevokeUpdate(opts, stamp, _) => CertsRevoked(env, db, opts, stamp, clock);
    case _ =>
  }

  lemma JobNextOk(env: Env, clock: nat, db: Db, th: Thread, draw: Draw)
    requires Encodable(clock) && DbOk(env, db, clock) && ThreadOk(env, clock, db, th)
    requires th.JobGetCA? || th.JobGetKey? || th.JobSign?
    requires Advance(env, clock, db, th, draw).next.Some?
    ensures ThreadOk(env, clock, db, Advance(env, clock, db, th, draw).next.value)
  {
    if th.JobSign? {
      SignedRecordOk(env, db, clock, th.job, th.caRow, draw, clock);
    }
  }

  lemma AdvanceNextOk(env: Env, clock: nat, db: Db, th: Thread, draw: Draw)
    requires Encodable(clock) && DbOk(env, db, clock) && ThreadOk(env, clock, db, th)
    requires Advance(env, clock, db, th, draw).next.Some?
    ensures ThreadOk(env, clock, Advance(env, clock, db, th, draw).db, Advance(env, clock, db, th, draw).next.value)
  {
    match th
    case RenewLookup(serial) => LookupFindsRow(env, db, clock, serial);
    case JobGetCA(_) => JobNextOk(env, clock, db, th, draw);
    case JobGetKey(_, _) => JobNextOk(env, clock, db, th, draw);
    case JobSign(_, _) => JobNextOk(env, clock, db, th, draw);
    case RevokeClock(_, _) => StampIsRead(clock);
    case CrlList(caId) => ListingBy(env, db, clock, caId);
    case StatsActive(_, _) => NoneExpired(env, db, clock);
    case _ =>
  }

  lemma InitialInv(env: Env, w: World)
    requires Initial(w)
    ensures Inv(env, w)
  {
  }

  lemma StepDbOk(env: Env, w: World, a: Action)
    requires Inv(env, w)
    ensures Encodable(Step(env, w, a).clock) && DbOk(env, Step(env, w, a).db, Step(env, w, a).clock)
  {
    match a
    case Tick(nanos) => DbOkLater(env, w.db, w.clock, Step(env, w, a).clock);
    case Begin(tid, req) =>
    case Resume(tid, draw) =>
      if tid in w.threads && FreshDraw(w.threads, tid, draw) {
        AdvanceDbOk(env, w.clock, w.db, w.threads[tid], draw);
      }
  }

  /** The handler an action moves on. */
  lemma OwnThreadOk(env: Env, w: World, a: Action, t: nat)
    requires Inv(env, w) && t in Step(env, w, a).threads
    requires t !in w.threads || Step(env, w, a).threads[t] != w.threads[t]
    ensures ThreadOk(env, Step(env, w, a).clock, Step(env, w, a).db, Step(env, w, a).threads[t])
  {
    if a.Resume? && a.tid in w.threads && FreshDraw(w.threads, a.tid, a.draw) {
      AdvanceNextOk(env, w.clock, w.db, w.threads[a.tid], a.draw);
    }
  }

  lemma StepInv(env: Env, w: World, a: Action)
    requires Inv(env, w)
    ensures Inv(env, Step(env, w, a))
  {
    var w' := Step(env, w, a);
    StepExtends(env, w, a);
    StepDbOk(env, w, a);
    forall t | t in w'.threads
      ensures ThreadOk(env, w'.clock, w'.db, w'.threads[t])
    {
      if t in w.threads && w'.threads[t] == w.threads[t] {
        ThreadUndisturbed(env, w.clock, w.db, w'.clock, w'.db, w.threads[t]);
      } else {
        OwnThreadOk(env, w, a, t);
      }
    }
  }

  /** The invariant holds in every state of every interleaving. */
  lemma {:induction false} RunInv(env: Env, w: World, actions: seq<Action>)
    requires Inv(env, w)
    ensures Inv(env, Run(env, w, actions))
  {
    if actions == [] {
    } else {
      RunInv(env, w, actions[..|actions| - 1]);
      StepInv(env, Run(env, w, actions[..|actions| - 1]), actions[|actions| - 1]);
    }
  }

  /** Every stored certificate obeys the rules of the profile it names, on all three issuance paths; with
      `RenewalNeverRefused` this means policy never blocks a renewal. */
  lemma StoredObeysPolicy(env: Env, start: World, actions: seq<Action>, row: CertRow)
    requires Initial(start) && row in Run(env, start, actions).db.certs
    ensures row.profile in env.profiles && Obeys(env.net, env.profiles[row.profile], row.certificate)
    ensures row.commonName == row.certificate.commonName
  {
    InitialInv(env, start);
    RunInv(env, start, actions);
    var w := Run(env, start, actions);
    var i :| 0 <= i < |w.db.certs| && w.db.certs[i] == row;
    assert RowOk(env, w.db.cas, w.clock, w.db.certs[i]);
  }

  /** Active and revoked certificates make up the whole table in every reachable state, since nothing writes
      'expired'. */
  lemma StatusPartition(env: Env, start: World, actions: seq<Action>)
    requires Initial(start)
    ensures var certs := Run(env, start, actions).db.certs;
      CountStatus(certs, Active) + CountStatus(certs, Revoked) == |certs|
  {
    InitialInv(env, start);
    RunInv(env, start, actions);
    NoneExpired(env, Run(env, start, actions).db, Run(env, start, actions).clock);
  }

  ghost predicate CountsOk(counts: seq<Stats>) {
    forall i :: 0 <= i < |counts| ==> counts[i].totalCerts <= counts[i].activeCerts + counts[i].revokedCerts
  }

  /** Statistics taken by separate queries, with any writers in between, never undercount. */
  lemma {:induction false} StatsNeverUndercount(env: Env, start: World, actions: seq<Action>)
    requires Initial(start)
    ensures CountsOk(Run(env, start, actions).counts)
  {
    if actions == [] {
    } else {
      var front := actions[..|actions| - 1];
      StatsNeverUndercount(env, start, front);
      InitialInv(env, start);
      RunInv(env, start, front);
    }
  }
}
