/** The handlers that drive the store, as threads interleaved one SQL statement at a time. A world is the clock, the
    tables, the handlers in flight and what has been published; a run is a sequence of actions. Everything a
    handler takes from outside, its request, the clock and the random source, is part of the action. */
module Lifecycle {
  import opened Prelude
  import opened Profiles
  import opened Authority
  import opened Storage
  import Durations
  import SerialText

  datatype Env = Env(net: Net, profiles: map<string, Profile>, build: Build, crlHours: Durations.Int64)

  // ---------- requests ----------

  datatype Request =
    | CreateRoot(name: string, days: Durations.Int64)
    | IssueGenerated(caId: int, commonName: string, sans: seq<string>, profile: string)
    | IssueFromCsr(caId: int, csr: Option<Csr>, profile: string)
    | Renew(serial: string)
    | RevokeSerial(serial: string, reason: string, comment: string, actor: string)
    | PublishCrl(caId: int)
    | CountCerts

  /** An issuance under way. The CSR is `None` when its text does not decode. */
  datatype Job =
    | FromRequest(caId: int, commonName: string, sans: seq<string>, profile: string)
    | FromCsr(caId: int, csr: Option<Csr>, profile: string)
    | Renewal(orig: CertRecord)

  /** Where a handler stands: each constructor is the next statement it will run. */
  datatype Thread =
    | RootSign(name: string, days: Durations.Int64)
    | RootInsert(ca: NewCA)
    | RootKey(caId: nat)
    | RenewLookup(serial: string)
    | JobGetCA(job: Job)
    | JobGetKey(job: Job, caRow: CARow)
    | JobSign(job: Job, caRow: CARow)
    | JobInsert(rec: NewCert, renewal: bool)
    | RevokeClock(opts: RevokeOpts, renewal: bool)
    | RevokeUpdate(opts: RevokeOpts, stamp: string, renewal: bool)
    | CrlGetCA(crlCa: int)
    | CrlGetKey(caRow: CARow)
    | CrlList(listCa: nat)
    | CrlSign(listCa: nat, entries: seq<RevokedEntry>)
    | StatsCAs
    | StatsCerts(cas: nat)
    | StatsActive(cas: nat, total: nat)
    | StatsRevoked(cas: nat, total: nat, active: nat)
    | StatsClock(cas: nat, total: nat, active: nat, revoked: nat)
    | StatsExpiring(cas: nat, total: nat, active: nat, revoked: nat, now: nat)

  function ProfileOr(profile: string): string {
    if profile == "" then "server" else profile
  }

  /** The checks a handler makes before its first statement; `None` where it answers with an error. */
  function Admit(env: Env, req: Request): Option<Thread> {
    match req
    case CreateRoot(name, days) => if name == "" then None else Some(RootSign(name, days))
    case IssueGenerated(caId, commonName, sans, profile) =>
      if commonName == "" || ProfileOr(profile) !in env.profiles then None
      else Some(JobGetCA(FromRequest(caId, commonName, sans, ProfileOr(profile))))
    case IssueFromCsr(caId, csr, profile) =>
      if ProfileOr(profile) !in env.profiles then None
      else Some(JobGetCA(FromCsr(caId, csr, ProfileOr(profile))))
    case Renew(serial) => if serial == "" then None else Some(RenewLookup(serial))
    case RevokeSerial(serial, reason, comment, actor) =>
      var full := if reason == "" then "unspecified" else reason;
      if full !in REASON_CODES then None
      else Some(RevokeClock(RevokeOpts(serial, full, comment, if actor == "" then "api" else actor), false))
    case PublishCrl(caId) => Some(CrlGetCA(caId))
    case CountCerts => Some(StatsCAs)
  }

  // ---------- issuance jobs ----------

  function JobCA(job: Job): int {
    if job.Renewal? then job.orig.caId else job.caId
  }

  function JobProfile(job: Job): string {
    if job.Renewal? then job.orig.profile else job.profile
  }

  /** The requested names that are no addresses, in order. */
  function DnsOf(net: Net, sans: seq<string>): seq<string> {
    if sans == [] then []
    else
      var rest := DnsOf(net, sans[..|sans| - 1]);
      if net.parseIP(sans[|sans| - 1]).Some? then rest else rest + [sans[|sans| - 1]]
  }

  function IpsOf(net: Net, sans: seq<string>): seq<Ip> {
    if sans == [] then []
    else
      var rest := IpsOf(net, sans[..|sans| - 1]);
      var parsed := net.parseIP(sans[|sans| - 1]);
      if parsed.Some? then rest + [parsed.value] else rest
  }

  function JobOptions(env: Env, job: Job): IssueOptions
    requires JobProfile(job) in env.profiles
  {
    var profile := env.profiles[JobProfile(job)];
    match job
    case FromRequest(_, commonName, sans, _) =>
      IssueOptions(commonName, DnsOf(env.net, sans), IpsOf(env.net, sans), Some(profile), None)
    case FromCsr(_, csr, _) => IssueOptions("", [], [], Some(profile), csr)
    case Renewal(orig) => RenewalOptions(orig.certificate, orig.commonName, profile)
  }

  /** The names of a signed certificate as the CSR path records them. */
  function NamesOf(net: Net, cert: Cert): seq<string> {
    cert.dnsNames + seq(|cert.ips|, i requires 0 <= i < |cert.ips| => IpText(net, cert.ips[i]))
  }

  function JobRecord(env: Env, job: Job, caRow: CARow, cert: Cert): NewCert {
    var serial := SerialText.HexUpper(cert.serial);
    match job
    case FromRequest(_, commonName, sans, profile) => NewCert(caRow.id, serial, commonName, sans, profile, cert, "")
    case FromCsr(_, _, profile) => NewCert(caRow.id, serial, cert.commonName, NamesOf(env.net, cert), profile, cert, "")
    case Renewal(orig) => NewCert(orig.caId, serial, orig.commonName, orig.sans, orig.profile, cert, orig.serial)
  }

  /** `LoadCAFromPEM` succeeds when both the certificate and the key decode. */
  predicate Loadable(caRow: CARow, key: Option<KeyText>) {
    caRow.certificate.Some? && key.Some? && key.value != Unreadable
  }

  // ---------- one statement of one handler ----------

  datatype Published = Published(caId: nat, crl: Crl)

  datatype Outcome = Outcome(db: Db, next: Option<Thread>, crl: Option<Published>, counted: Option<Stats>)

  function Continue(db: Db, next: Thread): Outcome {
    Outcome(db, Some(next), None, None)
  }

  function Finish(db: Db): Outcome {
    Outcome(db, None, None, None)
  }

  function Superseded(serial: string): RevokeOpts {
    RevokeOpts(serial, "superseded", "", "api")
  }

  function Advance(env: Env, clock: nat, db: Db, th: Thread, draw: Draw): Outcome {
    match th
    case RootSign(name, days) =>
      var ca := InitCA(RootCA, name, days, draw, clock);
      if ca.Err? then Finish(db)
      else Continue(db, RootInsert(NewCA(name, SerialText.HexUpper(ca.value.serial), ca.value)))
    case RootInsert(ca) =>
      if CanInsertCA(db, ca) then Continue(InsertCA(db, ca), RootKey(|db.cas| + 1)) else Finish(db)
    case RootKey(caId) => Finish(InsertKey(db, "ca", caId, Pkcs8))
    case RenewLookup(serial) =>
      var orig := GetCertBySerial(env.build, db, serial);
      if orig.None? || orig.value.status != Active || orig.value.profile !in env.profiles then Finish(db)
      else Continue(db, JobGetCA(Renewal(orig.value)))
    case JobGetCA(job) =>
      var caRow := GetCA(db, JobCA(job));
      if caRow.None? then Finish(db) else Continue(db, JobGetKey(job, caRow.value))
    case JobGetKey(job, caRow) =>
      if Loadable(caRow, GetKey(db, "ca", caRow.id)) then Continue(db, JobSign(job, caRow)) else Finish(db)
    case JobSign(job, caRow) =>
      if JobProfile(job) !in env.profiles || (job.FromCsr? && job.csr.None?) then Finish(db)
      else
        var cert := Issue(env.net, JobOptions(env, job), draw, clock);
        if cert.Err? then Finish(db)
        else Continue(db, JobInsert(JobRecord(env, job, caRow, cert.value), job.Renewal?))
    case JobInsert(rec, renewal) =>
      if !CanInsertCert(db, rec) then Finish(db)
      else if renewal then Continue(InsertCert(db, rec), RevokeClock(Superseded(rec.renewedFrom), true))
      else Finish(InsertCert(db, rec))
    case RevokeClock(opts, renewal) => Continue(db, RevokeUpdate(opts, Stamp(clock), renewal))
    case RevokeUpdate(opts, stamp, _) => Finish(Revoke(db, opts, stamp))
    case CrlGetCA(caId) =>
      var caRow := GetCA(db, caId);
      if caRow.None? then Finish(db) else Continue(db, CrlGetKey(caRow.value))
    case CrlGetKey(caRow) =>
      if Loadable(caRow, GetKey(db, "ca", caRow.id)) then Continue(db, CrlList(caRow.id)) else Finish(db)
    case CrlList(caId) =>
      var entries := ListRevoked(db, caId);
      if entries.None? then Finish(db) else Continue(db, CrlSign(caId, entries.value))
    case CrlSign(caId, entries) =>
      var crl := SignCrl(entries, env.crlHours, clock);
      if crl.None? then Finish(db) else Outcome(db, None, Some(Published(caId, crl.value)), None)
    case StatsCAs => Continue(db, StatsCerts(|db.cas|))
    case StatsCerts(cas) => Continue(db, StatsActive(cas, |db.certs|))
    case StatsActive(cas, total) => Continue(db, StatsRevoked(cas, total, CountStatus(db.certs, Active)))
    case StatsRevoked(cas, total, active) =>
      Continue(db, StatsClock(cas, total, active, CountStatus(db.certs, Revoked)))
    case StatsClock(cas, total, active, revoked) => Continue(db, StatsExpiring(cas, total, active, revoked, clock))
    case StatsExpiring(cas, total, active, revoked, now) =>
      Outcome(db, None, None, Some(Stats(cas, total, active, revoked, ExpiringSoon(db.certs, now))))
  }

  // ---------- worlds and runs ----------

  datatype World = World(
    clock: nat,
    db: Db,
    threads: map<nat, Thread>,
    crls: seq<Published>,
    counts: seq<Stats>)

  datatype Action =
    | Tick(nanos: nat)
    | Begin(tid: nat, req: Request)
    | Resume(tid: nat, draw: Draw)

  predicate Initial(w: World) {
    Encodable(w.clock) && w.db == EMPTY && w.threads == map[] && w.crls == [] && w.counts == []
  }

  predicate Names(th: Thread, serial: string) {
    (th.RevokeClock? || th.RevokeUpdate?) && th.opts.serial == serial
  }

  /** A random serial never hits a serial that some revocation in flight already names. */
  predicate FreshDraw(threads: map<nat, Thread>, tid: nat, draw: Draw)
    requires tid in threads
  {
    threads[tid].JobSign? ==> forall t :: t in threads ==> !Names(threads[t], SerialText.HexUpper(draw.serial))
  }

  /** The clock only moves forward and keeps a four-digit year; an action that does not apply changes nothing. */
  function Step(env: Env, w: World, a: Action): World {
    match a
    case Tick(nanos) => if Encodable(w.clock + nanos) then w.(clock := w.clock + nanos) else w
    case Begin(tid, req) =>
      var th := Admit(env, req);
      if tid in w.threads || th.None? then w else w.(threads := w.threads[tid := th.value])
    case Resume(tid, draw) =>
      if tid !in w.threads || !FreshDraw(w.threads, tid, draw) then w
      else
        var o := Advance(env, w.clock, w.db, w.threads[tid], draw);
        World(w.clock, o.db,
              if o.next.Some? then w.threads[tid := o.next.value] else w.threads - {tid},
              if o.crl.Some? then w.crls + [o.crl.value] else w.crls,
              if o.counted.Some? then w.counts + [o.counted.value] else w.counts)
  }

  function Run(env: Env, w: World, actions: seq<Action>): World {
    if actions == [] then w
    else Step(env, Run(env, w, actions[..|actions| - 1]), actions[|actions| - 1])
  }

  lemma RunOne(env: Env, w: World, a: Action)
    ensures Run(env, w, [a]) == Step(env, w, a)
  {
  }

  lemma {:induction false} RunConcat(env: Env, w: World, first: seq<Action>, second: seq<Action>)
    ensures Run(env, w, first + second) == Run(env, Run(env, w, first), second)
  {
    if second == [] {
      assert first + second == first;
    } else {
      var front := second[..|second| - 1];
      assert (first + second)[..|first + second| - 1] == first + front;
      RunConcat(env, w, first, front);
    }
  }

  /** The world with one handler moved on. */
  function Moved(w: World, tid: nat, th: Thread): World {
    w.(threads := w.threads[tid := th])
  }

  lemma Resumed(env: Env, w: World, actions: seq<Action>, at: World, tid: nat, draw: Draw, next: Thread)
    requires Run(env, w, actions) == at && tid in at.threads && FreshDraw(at.threads, tid, draw)
    requires Advance(env, at.clock, at.db, at.threads[tid], draw) == Continue(at.db, next)
    ensures Run(env, w, actions + [Resume(tid, draw)]) == Moved(at, tid, next)
  {
  }

  lemma MovedTwice(w: World, tid: nat, th: Thread, next: Thread)
    ensures Moved(Moved(w, tid, th), tid, next) == Moved(w, tid, next)
  {
  }

  // ---------- how the tables evolve ----------

  /** A row stays as it is, or goes from active to revoked keeping everything but the revocation columns. */
  predicate RowEvolves(a: CertRow, b: CertRow) {
    || b == a
    || (&& a.status == Active && b.status == Revoked
        && b == a.(status := Revoked, revokedAt := b.revokedAt, reason := b.reason, comment := b.comment,
                   revokedBy := b.revokedBy))
  }

  predicate Extends(a: Db, b: Db) {
    && a.cas <= b.cas
    && a.keys <= b.keys
    && |a.certs| <= |b.certs|
    && forall i :: 0 <= i < |a.certs| ==> RowEvolves(a.certs[i], b.certs[i])
  }

  lemma ExtendsTransitive(a: Db, b: Db, c: Db)
    requires Extends(a, b) && Extends(b, c)
    ensures Extends(a, c)
  {
  }

  lemma AdvanceExtends(env: Env, clock: nat, db: Db, th: Thread, draw: Draw)
    ensures Extends(db, Advance(env, clock, db, th, draw).db)
  {
  }

  lemma StepExtends(env: Env, w: World, a: Action)
    ensures Extends(w.db, Step(env, w, a).db) && w.clock <= Step(env, w, a).clock
    ensures w.crls <= Step(env, w, a).crls
  {
    if a.Resume? && a.tid in w.threads {
      AdvanceExtends(env, w.clock, w.db, w.threads[a.tid], a.draw);
    }
  }

  /** Over any run rows are never deleted, keep their place and their issuance columns, and move only from active to
      revoked; the clock does not go back. */
  lemma {:induction false} RunExtends(env: Env, w: World, actions: seq<Action>)
    ensures Extends(w.db, Run(env, w, actions).db) && w.clock <= Run(env, w, actions).clock
    ensures w.crls <= Run(env, w, actions).crls
  {
    if actions == [] {
    } else {
      var front := Run(env, w, actions[..|actions| - 1]);
      RunExtends(env, w, actions[..|actions| - 1]);
      StepExtends(env, front, actions[|actions| - 1]);
      ExtendsTransitive(w.db, front.db, Run(env, w, actions).db);
    }
  }

  /** Revocation is absorbing: once revoked, a row never changes again in any column, whatever runs after. */
  lemma {:induction false} RevocationAbsorbing(env: Env, w: World, actions: seq<Action>, i: nat)
    requires i < |w.db.certs| && w.db.certs[i].status == Revoked
    ensures i < |Run(env, w, actions).db.certs| && Run(env, w, actions).db.certs[i] == w.db.certs[i]
  {
    RunExtends(env, w, actions);
  }

  /** The first revocation to reach an active row wins: its time, reason, comment and actor are what every later
      state shows, even when a superseding renewal and an operator race. */
  lemma {:induction false} FirstWriterWins(env: Env, w: World, tid: nat, draw: Draw, actions: seq<Action>, i: nat)
    requires tid in w.threads && w.threads[tid].RevokeUpdate?
    requires i < |w.db.certs| && Matches(w.db.certs[i], w.threads[tid].opts)
    ensures var after := Run(env, Step(env, w, Resume(tid, draw)), actions);
      i < |after.db.certs| && after.db.certs[i] == RevokedRow(w.db.certs[i], w.threads[tid].opts, w.threads[tid].stamp)
  {
    var next := Step(env, w, Resume(tid, draw));
    assert next.db.certs[i] == RevokedRow(w.db.certs[i], w.threads[tid].opts, w.threads[tid].stamp);
    RevocationAbsorbing(env, next, actions, i);
  }
}
