/** What each request does to the tables when nothing runs in between, column by column and with the exact condition on
    which it succeeds. */
module Effects {
  import opened Prelude
  import opened Profiles
  import opened Authority
  import opened Storage
  import opened Lifecycle
  import opened Invariant
  import opened Revocation
  import opened Ocsp
  import opened Statistics
  import opened Handlers
  import Durations
  import Rfc3339
  import SerialText

  // ---------- which CA can sign ----------

  predicate OwnedBy(key: KeyRow, caId: int) {
    key.ownerType == "ca" && key.ownerId == caId
  }

  /** The `caId`-th CA has a certificate, and the first key stored for it decodes. */
  predicate CanSign(db: Db, caId: int) {
    && 1 <= caId <= |db.cas| && db.cas[caId - 1].certificate.Some?
    && exists k: nat :: k < |db.keys| && FirstKey(db.keys, k, caId) && db.keys[k].key != Unreadable
  }

  predicate FirstKey(keys: seq<KeyRow>, k: nat, caId: int)
    requires k < |keys|
  {
    OwnedBy(keys[k], caId) && forall j :: 0 <= j < k ==> !OwnedBy(keys[j], caId)
  }

  lemma FirstKeyFound(keys: seq<KeyRow>, caId: nat) returns (k: nat)
    requires exists key :: key in keys && OwnedBy(key, caId)
    ensures k < |keys| && FirstKey(keys, k, caId)
  {
    k := 0;
    while !OwnedBy(keys[k], caId)
      invariant k < |keys| && forall j :: 0 <= j < k ==> !OwnedBy(keys[j], caId)
      invariant exists j :: k <= j < |keys| && OwnedBy(keys[j], caId)
      decreases |keys| - k
    {
      k := k + 1;
    }
  }

  lemma GetCAIff(db: Db, caId: int)
    requires CAsOk(db.cas)
    ensures GetCA(db, caId).Some? <==> 1 <= caId <= |db.cas|
    ensures GetCA(db, caId).Some? ==> GetCA(db, caId).value == db.cas[caId - 1]
  {
    var found := Filter(db.cas, (ca: CARow) => ca.id == caId);
    if 1 <= caId <= |db.cas| {
      assert db.cas[caId - 1] in found;
    }
  }

  lemma KeyIff(db: Db, caId: nat)
    ensures GetKey(db, "ca", caId).Some? && GetKey(db, "ca", caId).value != Unreadable
       <==> exists k: nat :: k < |db.keys| && FirstKey(db.keys, k, caId) && db.keys[k].key != Unreadable
  {
    if exists key :: key in db.keys && OwnedBy(key, caId) {
      var k := FirstKeyFound(db.keys, caId);
      GetKeyFirst(db, "ca", caId, k);
      assert forall j: nat :: j < |db.keys| && FirstKey(db.keys, j, caId) ==> j == k;
    }
  }

  lemma CanSignIff(db: Db, caId: int)
    requires CAsOk(db.cas)
    ensures CanSign(db, caId)
       <==> GetCA(db, caId).Some? && Loadable(GetCA(db, caId).value, GetKey(db, "ca", GetCA(db, caId).value.id))
  {
    GetCAIff(db, caId);
    if 1 <= caId <= |db.cas| {
      KeyIff(db, caId);
    }
  }

  // ---------- issuing ----------

  /** What an issuance is to certify and to record. */
  datatype Wanted = Wanted(
    caId: int,
    profile: string,
    commonName: string,
    dnsNames: seq<string>,
    ips: seq<Ip>,
    publicKey: Octets,
    sans: seq<string>,
    renewedFrom: string)

  predicate Unused(certs: seq<CertRow>, serial: nat) {
    forall i :: 0 <= i < |certs| ==> certs[i].serial != SerialText.HexUpper(serial)
  }

  /** It succeeds when the CA can sign, the profile permits the names, both ends of the period have a four-digit year
      and no row has the drawn serial. */
  ghost predicate Succeeds(env: Env, db: Db, want: Wanted, draw: Draw, now: nat) {
    && want.profile in env.profiles && CanSign(db, want.caId)
    && Permitted(env.net, env.profiles[want.profile], want.commonName, want.dnsNames, want.ips)
    && Encodable(now) && Encodable(DaysLater(now, env.profiles[want.profile].validityDays))
    && Unused(db.certs, draw.serial)
  }

  /** The columns of a row as issuing writes it. */
  predicate RowFor(row: CertRow, id: nat, want: Wanted, serial: nat) {
    && row.id == id && row.caId == want.caId && row.serial == SerialText.HexUpper(serial)
    && row.commonName == want.commonName && row.sans == want.sans && row.profile == want.profile
    && row.renewedFrom == want.renewedFrom && row.status == Active
    && row.revokedAt == None && row.reason == None && row.comment == None && row.revokedBy == None
    && row.notBefore == Rfc3339.Format(row.certificate.notBefore)
    && row.notAfter == Rfc3339.Format(row.certificate.notAfter)
  }

  /** One row is appended to the certificates, as asked for, and nothing else changes; or nothing at all. */
  ghost predicate Issues(env: Env, db: Db, want: Wanted, draw: Draw, now: nat, db': Db) {
    if Succeeds(env, db, want, draw, now) then
      && db'.cas == db.cas && db'.keys == db.keys
      && |db'.certs| == |db.certs| + 1 && db'.certs[..|db.certs|] == db.certs
      && RowFor(db'.certs[|db.certs|], |db.certs| + 1, want, draw.serial)
      && Certifies(db'.certs[|db.certs|].certificate, draw.serial, want.commonName, want.dnsNames, want.ips,
                   want.publicKey, env.profiles[want.profile].validityDays, now)
    else db' == db
  }

  lemma InsertedRow(env: Env, db: Db, rec: NewCert, want: Wanted, draw: Draw, now: nat)
    requires CAsOk(db.cas) && Succeeds(env, db, want, draw, now)
    requires rec.caId == want.caId && rec.serial == SerialText.HexUpper(draw.serial)
    requires rec.commonName == want.commonName && rec.sans == want.sans && rec.profile == want.profile
    requires rec.renewedFrom == want.renewedFrom
    requires Certifies(rec.certificate, draw.serial, want.commonName, want.dnsNames, want.ips, want.publicKey,
                       env.profiles[want.profile].validityDays, now)
    ensures CanInsertCert(db, rec) && Issues(env, db, want, draw, now, InsertCert(db, rec))
  {
  }

  /** A job's thread past its signature. */
  lemma AfterSign(env: Env, db: Db, job: Job, caRow: CARow, draw: Draw, now: nat, later: nat)
    requires JobProfile(job) in env.profiles && (job.FromCsr? ==> job.csr.Some?)
    ensures var cert := Issue(env.net, JobOptions(env, job), draw, now);
      Complete(env, db, JobSign(job, caRow), draw, now, later)
      == if cert.Err? then db
         else Complete(env, db, JobInsert(JobRecord(env, job, caRow, cert.value), job.Renewal?), draw, now, later)
  {
    var cert := Issue(env.net, JobOptions(env, job), draw, now);
    if cert.Ok? {
      AfterStatement(env, db, JobSign(job, caRow), draw, now, later,
          JobInsert(JobRecord(env, job, caRow, cert.value), job.Renewal?));
    }
  }

  lemma UndecodedSignsNothing(env: Env, db: Db, job: Job, caRow: CARow, draw: Draw, now: nat, later: nat)
    requires job.FromCsr? && job.csr.None?
    ensures Complete(env, db, JobSign(job, caRow), draw, now, later) == db
  {
  }

  function TextsOf(net: Net, ips: seq<Ip>): seq<string> {
    seq(|ips|, i requires 0 <= i < |ips| => IpText(net, Encoded(ips[i])))
  }

  function FromRequestWanted(env: Env, caId: int, profile: string, commonName: string, sans: seq<string>, draw: Draw)
    : Wanted
  {
    Wanted(caId, profile, commonName, DnsOf(env.net, sans), IpsOf(env.net, sans), draw.publicKey, sans, "")
  }

  function FromCsrWanted(env: Env, caId: int, profile: string, csr: Csr): Wanted {
    Wanted(caId, profile, csr.commonName, csr.dnsNames, csr.ips, csr.publicKey,
           csr.dnsNames + TextsOf(env.net, csr.ips), "")
  }

  function RenewalWanted(orig: CertRecord, draw: Draw): Wanted {
    Wanted(orig.caId, orig.profile, orig.commonName, orig.certificate.dnsNames, orig.certificate.ips, draw.publicKey,
           orig.sans, orig.serial)
  }

  predicate WantedBy(env: Env, job: Job, draw: Draw, want: Wanted) {
    match job
    case FromRequest(caId, commonName, sans, profile) =>
      want == FromRequestWanted(env, caId, profile, commonName, sans, draw)
    case FromCsr(caId, csr, profile) => csr.Some? && want == FromCsrWanted(env, caId, profile, csr.value)
    case Renewal(orig) => want == RenewalWanted(orig, draw)
  }

  predicate SignatureHolds(job: Job) {
    job.FromCsr? && job.csr.Some? ==> job.csr.value.signatureValid
  }

  /** What a job signs is what it wants certified. */
  lemma SignsWanted(env: Env, job: Job, want: Wanted, draw: Draw, now: nat)
    requires WantedBy(env, job, draw, want) && want.profile in env.profiles
    ensures JobProfile(job) == want.profile && JobCA(job) == want.caId
    ensures var r, p := Issue(env.net, JobOptions(env, job), draw, now), env.profiles[want.profile];
      && (r.Ok? <==> SignatureHolds(job) && Permitted(env.net, p, want.commonName, want.dnsNames, want.ips)
                     && Encodable(now) && Encodable(DaysLater(now, p.validityDays)))
      && (r.Ok? ==> Certifies(r.value, draw.serial, want.commonName, want.dnsNames, want.ips, want.publicKey,
                              p.validityDays, now))
  {
    IssueExactly(env.net, JobOptions(env, job), draw, now);
  }

  lemma CsrTexts(net: Net, cert: Cert, dnsNames: seq<string>, ips: seq<Ip>)
    requires cert.dnsNames == dnsNames && |cert.ips| == |ips|
    requires forall i :: 0 <= i < |ips| ==> cert.ips[i] == Encoded(ips[i])
    ensures NamesOf(net, cert) == dnsNames + TextsOf(net, ips)
  {
  }

  lemma RecordsWanted(env: Env, db: Db, job: Job, caRow: CARow, want: Wanted, draw: Draw, now: nat, cert: Cert)
    requires CAsOk(db.cas) && Succeeds(env, db, want, draw, now)
    requires WantedBy(env, job, draw, want) && caRow.id == want.caId
    requires Certifies(cert, draw.serial, want.commonName, want.dnsNames, want.ips, want.publicKey,
                       env.profiles[want.profile].validityDays, now)
    ensures var rec := JobRecord(env, job, caRow, cert);
      CanInsertCert(db, rec) && Issues(env, db, want, draw, now, InsertCert(db, rec))
  {
    if job.FromCsr? {
      CsrTexts(env.net, cert, want.dnsNames, want.ips);
    }
    InsertedRow(env, db, JobRecord(env, job, caRow, cert), want, draw, now);
  }

  /** A job served alone ends with the tables unchanged unless it succeeds. */
  lemma JobFails(env: Env, db: Db, job: Job, want: Wanted, draw: Draw, now: nat, later: nat)
    requires CAsOk(db.cas) && WantedBy(env, job, draw, want) && want.profile in env.profiles
    requires !Succeeds(env, db, want, draw, now) || !SignatureHolds(job)
    ensures Complete(env, db, JobGetCA(job), draw, now, later) == db
  {
    JobLoads(env, db, job, draw, now, later);
    CanSignIff(db, want.caId);
    SignsWanted(env, job, want, draw, now);
    if CanSign(db, want.caId) {
      var caRow := GetCA(db, want.caId).value;
      AfterSign(env, db, job, caRow, draw, now, later);
      var cert := Issue(env.net, JobOptions(env, job), draw, now);
      if cert.Ok? {
        var rec := JobRecord(env, job, caRow, cert.value);
        AfterInsert(env, db, rec, job.Renewal?, draw, now, later);
        assert rec.serial == SerialText.HexUpper(draw.serial);
      }
    }
  }

  /** Otherwise the row it asks for is inserted, and a renewal goes on to revoke its original. */
  lemma JobSucceeds(env: Env, db: Db, job: Job, want: Wanted, draw: Draw, now: nat, later: nat) returns (db': Db)
    requires CAsOk(db.cas) && WantedBy(env, job, draw, want)
    requires Succeeds(env, db, want, draw, now) && SignatureHolds(job)
    ensures Issues(env, db, want, draw, now, db')
    ensures Complete(env, db, JobGetCA(job), draw, now, later)
         == if job.Renewal? then Complete(env, db', RevokeClock(Superseded(want.renewedFrom), true), draw, now, later)
            else db'
  {
    JobLoads(env, db, job, draw, now, later);
    CanSignIff(db, want.caId);
    SignsWanted(env, job, want, draw, now);
    var caRow := GetCA(db, want.caId).value;
    AfterSign(env, db, job, caRow, draw, now, later);
    var cert := Issue(env.net, JobOptions(env, job), draw, now).value;
    var rec := JobRecord(env, job, caRow, cert);
    RecordsWanted(env, db, job, caRow, want, draw, now, cert);
    AfterInsert(env, db, rec, job.Renewal?, draw, now, later);
    db' := InsertCert(db, rec);
  }

  /** Issuing with a fresh key: a common name is needed, an empty profile means "server", and the row has the requested
      CA, profile, common name and names. */
  ghost predicate GeneratedEffect(env: Env, db: Db, caId: int, commonName: string, sans: seq<string>, profile: string,
                                  draw: Draw, now: nat, db': Db) {
    var want := FromRequestWanted(env, caId, if profile == "" then "server" else profile, commonName, sans, draw);
    if commonName == "" then db' == db else Issues(env, db, want, draw, now, db')
  }

  lemma IssuesGenerated(env: Env, db: Db, caId: int, commonName: string, sans: seq<string>, profile: string, draw: Draw,
                        now: nat)
    requires CAsOk(db.cas)
    ensures GeneratedEffect(env, db, caId, commonName, sans, profile, draw, now,
                            Served(env, db, IssueGenerated(caId, commonName, sans, profile), draw, now, now))
  {
    var job := FromRequest(caId, commonName, sans, ProfileOr(profile));
    var want := FromRequestWanted(env, caId, ProfileOr(profile), commonName, sans, draw);
    if commonName != "" && ProfileOr(profile) in env.profiles {
      if Succeeds(env, db, want, draw, now) {
        var _ := JobSucceeds(env, db, job, want, draw, now, now);
      } else {
        JobFails(env, db, job, want, draw, now, now);
      }
    }
  }

  /** Issuing from a CSR: it must decode and its signature hold; names and key are the CSR's, and the row lists its DNS
      names, then the text of its addresses. */
  ghost predicate CsrEffect(env: Env, db: Db, caId: int, csr: Option<Csr>, profile: string, draw: Draw, now: nat,
                            db': Db) {
    if csr.None? || !csr.value.signatureValid then db' == db
    else
      Issues(env, db, FromCsrWanted(env, caId, if profile == "" then "server" else profile, csr.value), draw, now, db')
  }

  lemma IssuesFromCsr(env: Env, db: Db, caId: int, csr: Option<Csr>, profile: string, draw: Draw, now: nat)
    requires CAsOk(db.cas)
    ensures CsrEffect(env, db, caId, csr, profile, draw, now,
                      Served(env, db, IssueFromCsr(caId, csr, profile), draw, now, now))
  {
    var job := FromCsr(caId, csr, ProfileOr(profile));
    if ProfileOr(profile) in env.profiles {
      if csr.None? {
        UndecodedFails(env, db, job, draw, now);
      } else {
        var want := FromCsrWanted(env, caId, ProfileOr(profile), csr.value);
        if Succeeds(env, db, want, draw, now) && csr.value.signatureValid {
          var _ := JobSucceeds(env, db, job, want, draw, now, now);
        } else {
          JobFails(env, db, job, want, draw, now, now);
        }
      }
    }
  }

  lemma UndecodedFails(env: Env, db: Db, job: Job, draw: Draw, now: nat)
    requires job.FromCsr? && job.csr.None?
    ensures Complete(env, db, JobGetCA(job), draw, now, now) == db
  {
    JobLoads(env, db, job, draw, now, now);
    if GetCA(db, JobCA(job)).Some? {
      UndecodedSignsNothing(env, db, job, GetCA(db, JobCA(job)).value, draw, now, now);
    }
  }

  // ---------- splitting the requested names ----------

  /** Each requested name goes one way: those that read as no address are the DNS names, the others give the addresses,
      both in the requested order. */
  lemma {:induction false} SplitExactly(net: Net, sans: seq<string>)
    ensures DnsOf(net, sans) == Filter(sans, (s: string) => net.parseIP(s).None?)
    ensures var texts, ips := Filter(sans, (s: string) => net.parseIP(s).Some?), IpsOf(net, sans);
      |ips| == |texts| && forall i :: 0 <= i < |ips| ==> net.parseIP(texts[i]) == Some(ips[i])
  {
    if sans == [] {
    } else {
      SplitExactly(net, sans[..|sans| - 1]);
    }
  }

  // ---------- revoking ----------

  /** Revoking: an unknown reason is refused; otherwise the active row with the serial, if any, gets the reason, comment
      and actor of the request, with "unspecified" and "api" for empty ones, and the second of the reading. */
  ghost predicate RevokeEffect(db: Db, serial: string, reason: string, comment: string, actor: string, later: nat,
                               db': Db) {
    if reason != "" && reason != "unspecified" && ReasonCode(reason) == 0 then db' == db
    else
      && db'.cas == db.cas && db'.keys == db.keys
      && RevokesOnly(db.certs, db'.certs, serial, if reason == "" then "unspecified" else reason, comment,
                     if actor == "" then "api" else actor, Rfc3339.Format(later / 1_000_000_000))
  }

  lemma RevokeEnds(env: Env, db: Db, opts: RevokeOpts, renewal: bool, draw: Draw, now: nat, later: nat)
    ensures Complete(env, db, RevokeClock(opts, renewal), draw, now, later) == Revoke(db, opts, Stamp(later))
  {
    AfterStatement(env, db, RevokeClock(opts, renewal), draw, now, later, RevokeUpdate(opts, Stamp(later), renewal));
  }

  lemma RevokeServed(env: Env, db: Db, serial: string, reason: string, comment: string, actor: string, draw: Draw,
                     now: nat, later: nat)
    ensures var full, who := if reason == "" then "unspecified" else reason, if actor == "" then "api" else actor;
      Served(env, db, RevokeSerial(serial, reason, comment, actor), draw, now, later)
      == if full in REASON_CODES then Revoke(db, RevokeOpts(serial, full, comment, who), Stamp(later)) else db
  {
    var full, who := if reason == "" then "unspecified" else reason, if actor == "" then "api" else actor;
    RevokeEnds(env, db, RevokeOpts(serial, full, comment, who), false, draw, now, later);
  }

  lemma Revokes(env: Env, db: Db, serial: string, reason: string, comment: string, actor: string, draw: Draw, now: nat,
                later: nat)
    ensures RevokeEffect(db, serial, reason, comment, actor, later,
                         Served(env, db, RevokeSerial(serial, reason, comment, actor), draw, now, later))
  {
    ReasonCodeTable(reason);
    var full, who := if reason == "" then "unspecified" else reason, if actor == "" then "api" else actor;
    RevokeServed(env, db, serial, reason, comment, actor, draw, now, later);
    if full in REASON_CODES {
      NoCodeForEmpty();
      RevokeColumns(db, RevokeOpts(serial, full, comment, who), Stamp(later));
    }
  }

  // ---------- renewing ----------

  function RenewedRow(row: CertRow, draw: Draw): Wanted {
    Wanted(row.caId, row.profile, row.commonName, row.certificate.dnsNames, row.certificate.ips, draw.publicKey,
           row.sans, row.serial)
  }

  /** When the `i`-th row is renewed: the lookup must read its NULL reason, it must be active, its CA able to sign, the
      new period encodable and the drawn serial unused. Policy is no condition. */
  predicate Renews(env: Env, db: Db, i: nat, draw: Draw, now: nat)
    requires i < |db.certs|
  {
    var row := db.certs[i];
    && env.build.nullAsEmpty && row.status == Active && row.profile in env.profiles && CanSign(db, row.caId)
    && Encodable(now) && Encodable(DaysLater(now, env.profiles[row.profile].validityDays))
    && Unused(db.certs, draw.serial)
  }

  /** The tables after a renewal of the `i`-th row: a row is appended with the original's CA, profile and names, a fresh
      key and a link to it, and the original alone is revoked, as superseded, by "api", with no comment. */
  ghost predicate RenewEffect(env: Env, db: Db, i: nat, draw: Draw, now: nat, later: nat, db': Db)
    requires i < |db.certs|
  {
    if Renews(env, db, i, draw, now) then
      var n, want := |db.certs|, RenewedRow(db.certs[i], draw);
      && db'.cas == db.cas && db'.keys == db.keys && |db'.certs| == n + 1
      && RowFor(db'.certs[n], n + 1, want, draw.serial)
      && Certifies(db'.certs[n].certificate, draw.serial, want.commonName, want.dnsNames, want.ips, want.publicKey,
                   env.profiles[want.profile].validityDays, now)
      && RevokedAs(db.certs[i], db'.certs[i], "superseded", "", "api", Rfc3339.Format(later / 1_000_000_000))
      && forall j :: 0 <= j < n && j != i ==> db'.certs[j] == db.certs[j]
    else db' == db
  }

  lemma PolicyNeverStops(env: Env, w: World, i: nat, draw: Draw)
    requires Inv(env, w) && i < |w.db.certs|
    ensures Renews(env, w.db, i, draw, w.clock)
       <==> env.build.nullAsEmpty && w.db.certs[i].status == Active
            && Succeeds(env, w.db, RenewedRow(w.db.certs[i], draw), draw, w.clock)
  {
    var row := w.db.certs[i];
    assert RowOk(env, w.db.cas, w.clock, row);
    PermittedIff(env.net, env.profiles[row.profile], row.commonName, row.certificate.dnsNames, row.certificate.ips);
  }

  /** The lookup of a stored serial. */
  lemma LookedUp(env: Env, w: World, i: nat)
    requires Inv(env, w) && i < |w.db.certs|
    ensures LooksUp(env, w.db, w.db.certs[i])
  {
    var row := w.db.certs[i];
    RowFacts(env, w.db, w.clock, row);
    SameSerialSameRow(w.db.certs, row.serial, row);
    NamesProfile(env, w.db.cas, w.clock, row);
  }

  lemma NamesProfile(env: Env, cas: seq<CARow>, clock: nat, row: CertRow)
    requires RowOk(env, cas, clock, row)
    ensures row.profile in env.profiles
  {
  }

  predicate LooksUp(env: Env, db: Db, row: CertRow) {
    && row.serial != "" && FindRow(db.certs, row.serial) == Some(row) && (row.reason.None? <==> row.status == Active)
    && row.profile in env.profiles
  }

  lemma LookupStatement(env: Env, clock: nat, db: Db, row: CertRow, draw: Draw)
    requires LooksUp(env, db, row)
    ensures Advance(env, clock, db, RenewLookup(row.serial), draw)
         == if env.build.nullAsEmpty && row.status == Active then Continue(db, JobGetCA(Renewal(ReadRow(row))))
            else Finish(db)
  {
  }

  lemma NotRenewed(env: Env, w: World, i: nat, draw: Draw, later: nat)
    requires Inv(env, w) && i < |w.db.certs| && !(env.build.nullAsEmpty && w.db.certs[i].status == Active)
    ensures Served(env, w.db, Renew(w.db.certs[i].serial), draw, w.clock, later) == w.db
  {
    var row := w.db.certs[i];
    LookedUp(env, w, i);
    LookupStatement(env, w.clock, w.db, row, draw);
    AtLastStatement(env, w.db, RenewLookup(row.serial), draw, w.clock, later);
  }

  lemma RenewalStarts(env: Env, w: World, i: nat, draw: Draw, later: nat)
    requires Inv(env, w) && i < |w.db.certs| && env.build.nullAsEmpty && w.db.certs[i].status == Active
    ensures Served(env, w.db, Renew(w.db.certs[i].serial), draw, w.clock, later)
         == Complete(env, w.db, JobGetCA(Renewal(ReadRow(w.db.certs[i]))), draw, w.clock, later)
  {
    var row := w.db.certs[i];
    LookedUp(env, w, i);
    LookupStatement(env, w.clock, w.db, row, draw);
    AfterStatement(env, w.db, RenewLookup(row.serial), draw, w.clock, later, JobGetCA(Renewal(ReadRow(row))));
  }

  lemma OriginalRevoked(env: Env, w: World, i: nat, draw: Draw, later: nat, db: Db)
    requires Inv(env, w) && i < |w.db.certs| && Renews(env, w.db, i, draw, w.clock)
    requires Issues(env, w.db, RenewedRow(w.db.certs[i], draw), draw, w.clock, db)
    requires Succeeds(env, w.db, RenewedRow(w.db.certs[i], draw), draw, w.clock)
    ensures RenewEffect(env, w.db, i, draw, w.clock, later,
                        Revoke(db, Superseded(w.db.certs[i].serial), Stamp(later)))
  {
    var serial, n := w.db.certs[i].serial, |w.db.certs|;
    RevokeColumns(db, Superseded(serial), Stamp(later));
    assert forall j :: 0 <= j < n ==> db.certs[j] == w.db.certs[j];
    assert db.certs[n].serial != serial;
  }

  lemma RenewsExactly(env: Env, w: World, i: nat, draw: Draw, later: nat)
    requires Inv(env, w) && i < |w.db.certs|
    ensures RenewEffect(env, w.db, i, draw, w.clock, later,
                        Served(env, w.db, Renew(w.db.certs[i].serial), draw, w.clock, later))
  {
    var row := w.db.certs[i];
    PolicyNeverStops(env, w, i, draw);
    if env.build.nullAsEmpty && row.status == Active {
      var job, want := Renewal(ReadRow(row)), RenewedRow(row, draw);
      RenewalStarts(env, w, i, draw, later);
      LookedUp(env, w, i);
      if Succeeds(env, w.db, want, draw, w.clock) {
        var mid := JobSucceeds(env, w.db, job, want, draw, w.clock, later);
        RevokeEnds(env, mid, Superseded(row.serial), true, draw, w.clock, later);
        OriginalRevoked(env, w, i, draw, later, mid);
      } else {
        JobFails(env, w.db, job, want, draw, w.clock, later);
      }
    } else {
      NotRenewed(env, w, i, draw, later);
    }
  }

  /** A serial that no row has is not renewed. */
  lemma UnknownNotRenewed(env: Env, db: Db, serial: string, draw: Draw, now: nat, later: nat)
    requires !HasSerial(db.certs, serial)
    ensures Served(env, db, Renew(serial), draw, now, later) == db
  {
  }

  /** The same from the serial alone: the row that has it is renewed, and without one nothing happens. */
  ghost predicate SerialRenewed(env: Env, db: Db, serial: string, draw: Draw, now: nat, later: nat, db': Db) {
    && (!HasSerial(db.certs, serial) ==> db' == db)
    && forall i :: 0 <= i < |db.certs| && db.certs[i].serial == serial ==>
                     RenewEffect(env, db, i, draw, now, later, db')
  }

  lemma RenewsSerial(env: Env, db: Db, serial: string, draw: Draw, now: nat, later: nat)
    requires Encodable(now) && DbOk(env, db, now)
    ensures SerialRenewed(env, db, serial, draw, now, later, Served(env, db, Renew(serial), draw, now, later))
  {
    if HasSerial(db.certs, serial) {
      forall i | 0 <= i < |db.certs| && db.certs[i].serial == serial
        ensures RenewEffect(env, db, i, draw, now, later, Served(env, db, Renew(serial), draw, now, later))
      {
        RenewsExactly(env, World(now, db, map[], [], []), i, draw, later);
      }
    } else {
      UnknownNotRenewed(env, db, serial, draw, now, later);
    }
  }

  // ---------- making a root ----------

  predicate UnusedByCA(cas: seq<CARow>, serial: nat) {
    forall i :: 0 <= i < |cas| ==> cas[i].serial != SerialText.HexUpper(serial)
  }

  /** Making a root: with a name, an encodable period of the requested days or 3650 and an unused serial, one CA row and
      its key are appended; otherwise nothing is. */
  ghost predicate RootEffect(db: Db, name: string, days: Durations.Int64, draw: Draw, now: nat, db': Db) {
    var end, n := DaysLater(now, if days > 0 then days else 3650), |db.cas|;
    if name != "" && Encodable(now) && Encodable(end) && UnusedByCA(db.cas, draw.serial) then
      var start, stop := now / 1_000_000_000, end / 1_000_000_000;
      && db'.certs == db.certs && db'.keys == db.keys + [KeyRow("ca", n + 1, Pkcs8)]
      && db'.cas == db.cas + [CARow(n + 1, name, SerialText.HexUpper(draw.serial), Rfc3339.Format(start),
                                    Rfc3339.Format(stop),
                                    Some(Cert(draw.serial, name, [], [], start, stop, draw.publicKey)))]
    else db' == db
  }

  lemma RootKeyed(env: Env, db: Db, ca: NewCA, draw: Draw, now: nat)
    ensures Complete(env, db, RootInsert(ca), draw, now, now)
         == if CanInsertCA(db, ca) then InsertKey(InsertCA(db, ca), "ca", |db.cas| + 1, Pkcs8) else db
  {
    if CanInsertCA(db, ca) {
      assert Complete(env, db, RootInsert(ca), draw, now, now)
          == Complete(env, InsertCA(db, ca), RootKey(|db.cas| + 1), draw, now, now);
    }
  }

  lemma MakesRoot(env: Env, db: Db, name: string, days: Durations.Int64, draw: Draw, now: nat)
    ensures RootEffect(db, name, days, draw, now, Served(env, db, CreateRoot(name, days), draw, now, now))
  {
    if name != "" {
      var ca := InitCA(RootCA, name, days, draw, now);
      InitExactly(RootCA, name, days, draw, now);
      if ca.Ok? {
        var rec := NewCA(name, SerialText.HexUpper(ca.value.serial), ca.value);
        AfterStatement(env, db, RootSign(name, days), draw, now, now, RootInsert(rec));
        RootKeyed(env, db, rec, draw, now);
      }
    }
  }

  // ---------- publishing ----------

  /** A list's entries name exactly the revoked rows of the CA, each by its serial, time and code, in order of time and
      as many as there are. */
  ghost predicate Lists(entries: seq<CrlEntry>, certs: seq<CertRow>, caId: nat) {
    && (forall e :: e in entries <==> EntryOfSome(e, certs, caId))
    && (forall i, j :: 0 <= i < j < |entries| ==> entries[i].revokedAt <= entries[j].revokedAt)
    && |entries| == |set i | 0 <= i < |certs| && certs[i].caId == caId && certs[i].status == Revoked|
  }

  ghost predicate EntryOfSome(e: CrlEntry, certs: seq<CertRow>, caId: nat) {
    exists row :: row in certs && row.caId == caId && row.certificate.serial == e.serial
                  && RevokedWith(row, e.revokedAt, e.reasonCode)
  }

  lemma EntryIff(env: Env, w: World, caId: nat, e: CrlEntry)
    requires Inv(env, w)
    ensures e in CrlEntriesOf(w.db, caId) <==> EntryOfSome(e, w.db.certs, caId)
  {
    if e in CrlEntriesOf(w.db, caId) {
      var row := RowOfEntry(env, w.db, w.clock, caId, e);
      ReadTimes(env, w.db, w.clock, row);
    }
    if EntryOfSome(e, w.db.certs, caId) {
      var row :| row in w.db.certs && row.caId == caId && row.certificate.serial == e.serial
                 && RevokedWith(row, e.revokedAt, e.reasonCode);
      ReadTimes(env, w.db, w.clock, row);
      TimesAreOne(row, e.revokedAt, ReadRevoked(row).revokedAt, e.reasonCode, ReadRevoked(row).reasonCode);
      EntryOfRow(env, w.db, w.clock, caId, row);
    }
  }

  lemma EntryCount(db: Db, caId: nat)
    ensures |CrlEntriesOf(db, caId)|
         == |set i | 0 <= i < |db.certs| && db.certs[i].caId == caId && db.certs[i].status == Revoked|
  {
    var kept := Filter(db.certs, RevokedOf(caId));
    SortedSize(kept, RevokedKey);
    FilterSize(db.certs, RevokedOf(caId));
    assert Positions(db.certs, RevokedOf(caId))
        == set i | 0 <= i < |db.certs| && db.certs[i].caId == caId && db.certs[i].status == Revoked;
  }

  lemma RevokedStamped(env: Env, w: World)
    requires Inv(env, w)
    ensures forall row :: row in w.db.certs && row.status == Revoked ==> exists t :: StampStored(row, t)
  {
    forall row | row in w.db.certs && row.status == Revoked
      ensures exists t :: StampStored(row, t)
    {
      ReadTimes(env, w.db, w.clock, row);
      assert StampStored(row, ReadRevoked(row).revokedAt);
    }
  }

  lemma ListingExactly(env: Env, w: World, caId: nat)
    requires Inv(env, w)
    ensures Lists(CrlEntriesOf(w.db, caId), w.db.certs, caId)
  {
    forall e: CrlEntry
      ensures e in CrlEntriesOf(w.db, caId) <==> EntryOfSome(e, w.db.certs, caId)
    {
      EntryIff(env, w, caId, e);
    }
    RevokedStamped(env, w);
    RevokedInTimeOrder(w.db.certs, caId);
    EntryCount(w.db, caId);
  }

  /** What a CRL request gives: a list exactly when the CA can sign and the window, of the configured hours or 24 as 64
      bits hold them, does not end before it starts and has four-digit years; numbered and dated by the reading. */
  ghost predicate CrlEffect(env: Env, db: Db, caId: int, now: nat, crl: Option<Crl>) {
    var end := HoursLater(now, if env.crlHours <= 0 then 24 else env.crlHours);
    if CanSign(db, caId) && now <= end && Encodable(now) && Encodable(end) then
      && crl.Some? && Lists(crl.value.entries, db.certs, caId)
      && crl.value.number == now / 1_000_000_000 - 719_528 * 86_400
      && crl.value.thisUpdate == now / 1_000_000_000 && crl.value.nextUpdate == end / 1_000_000_000
    else crl == None
  }

  lemma PublishesExactly(env: Env, w: World, caId: int)
    requires Inv(env, w)
    ensures CrlEffect(env, w.db, caId, w.clock, CrlFor(env, w.db, caId, w.clock))
  {
    CanSignIff(w.db, caId);
    if CanSign(w.db, caId) {
      ListingBy(env, w.db, w.clock, caId);
      ListingExactly(env, w, caId);
      SignedExactly(ReadAllRevoked(SelectRevoked(w.db.certs, caId)), env.crlHours, w.clock);
    }
  }

  lemma SignedExactly(entries: seq<RevokedEntry>, hours: Durations.Int64, now: nat)
    ensures var crl, end := SignCrl(entries, hours, now), HoursLater(now, if hours <= 0 then 24 else hours);
      && (crl.Some? <==> now <= end && Encodable(now) && Encodable(end))
      && (crl.Some? ==>
            && crl.value.entries == SignedEntries(entries)
            && crl.value.number == now / 1_000_000_000 - 719_528 * 86_400
            && crl.value.thisUpdate == now / 1_000_000_000 && crl.value.nextUpdate == end / 1_000_000_000)
  {
  }

  /** One revoked row in both views: whatever list its CA signs has it with its time and code, and whenever its CA is
      the one that answers, the responder says revoked with that time and code. */
  ghost predicate Shows(env: Env, w: World, row: CertRow, time: nat, code: nat) {
    && CrlEntry(row.certificate.serial, time, code) in CrlEntriesOf(w.db, row.caId)
    && forall hash, requested, now: nat :: row.caId >= 1 && FirstQualifies(hash, w.db, row.caId - 1, requested) ==>
         var reply := Respond(hash, env.build, w.db, requested, row.certificate.serial, now);
         reply.Answer? ==> reply.status == RevokedAt(time, code)
  }

  lemma RevokedAnswered(env: Env, w: World, row: CertRow, time: nat, code: nat, hash: Hash, requested: Octets, now: nat)
    requires Inv(env, w) && row in w.db.certs && RevokedWith(row, time, code)
    requires row.caId >= 1 && FirstQualifies(hash, w.db, row.caId - 1, requested)
    requires Respond(hash, env.build, w.db, requested, row.certificate.serial, now).Answer?
    ensures Respond(hash, env.build, w.db, requested, row.certificate.serial, now).status == RevokedAt(time, code)
  {
    var i, status := row.caId - 1, Respond(hash, env.build, w.db, requested, row.certificate.serial, now).status;
    var k := FirstAnswers(env, w, hash, requested, row.certificate.serial, now);
    OneIsFirst(hash, w.db, i, k, requested);
    RowRead(env.build, w.db.certs, i, row.certificate.serial, now, status, row, time, code);
  }

  lemma FirstAnswers(env: Env, w: World, hash: Hash, requestedHash: Octets, requested: int, now: nat) returns (i: nat)
    requires Inv(env, w) && Respond(hash, env.build, w.db, requestedHash, requested, now).Answer?
    ensures FirstQualifies(hash, w.db, i, requestedHash)
    ensures StatusReads(env.build, w.db.certs, i, requested, now,
                        Respond(hash, env.build, w.db, requestedHash, requested, now).status)
  {
    ReplyExactly(env, w, hash, requestedHash, requested, now);
    i :| FirstQualifies(hash, w.db, i, requestedHash)
         && StatusReads(env.build, w.db.certs, i, requested, now,
                        Respond(hash, env.build, w.db, requestedHash, requested, now).status);
  }

  lemma OneIsFirst(hash: Hash, db: Db, i: nat, k: nat, requested: Octets)
    requires FirstQualifies(hash, db, i, requested) && FirstQualifies(hash, db, k, requested)
    ensures i == k
  {
  }

  lemma RowRead(build: Build, certs: seq<CertRow>, i: nat, requested: int, now: nat, status: CertStatus, row: CertRow,
                time: nat, code: nat)
    requires StatusReads(build, certs, i, requested, now, status)
    requires row in certs && IssuedBy(row, i, requested) && RevokedWith(row, time, code)
    ensures status == RevokedAt(time, code)
  {
  }

  lemma RevokedShows(env: Env, w: World, row: CertRow, time: nat, code: nat)
    requires Inv(env, w) && row in w.db.certs && RevokedWith(row, time, code)
    ensures Shows(env, w, row, time, code)
  {
    var e := CrlEntry(row.certificate.serial, time, code);
    assert EntryOfSome(e, w.db.certs, row.caId);
    EntryIff(env, w, row.caId, e);
    forall hash, requested, now: nat |
      && row.caId >= 1 && FirstQualifies(hash, w.db, row.caId - 1, requested)
      && Respond(hash, env.build, w.db, requested, row.certificate.serial, now).Answer?
      ensures Respond(hash, env.build, w.db, requested, row.certificate.serial, now).status == RevokedAt(time, code)
    {
      RevokedAnswered(env, w, row, time, code, hash, requested, now);
    }
  }

  /** A request served in a quiet world. */
  lemma Serve(env: Env, w: World, req: Request, draw: Draw) returns (actions: seq<Action>)
    requires Inv(env, w) && w.threads == map[] && Admit(env, req).Some?
    ensures Inv(env, Run(env, w, actions))
    ensures Run(env, w, actions).db == Served(env, w.db, req, draw, w.clock, w.clock)
  {
    actions := ServedIsRun(env, w, req, draw, w.clock);
    RunInv(env, w, actions);
  }

  lemma RevokedRowReads(row: CertRow, row': CertRow, reason: string, comment: string, actor: string, now: nat)
    requires Encodable(now) && RevokedAs(row, row', reason, comment, actor, Rfc3339.Format(now / 1_000_000_000))
    ensures RevokedWith(row', now / 1_000_000_000, ReasonCode(reason))
  {
  }

  /** A revocation served in a quiet world, seen from outside: both views show the certificate revoked in the second of
      the clock with the code of the given reason, 1 for "key_compromise" and so on. */
  lemma RevocationShows(env: Env, w: World, i: nat, reason: string, comment: string, actor: string)
    returns (actions: seq<Action>)
    requires Inv(env, w) && w.threads == map[] && i < |w.db.certs| && w.db.certs[i].status == Active
    requires reason == "" || reason in REASON_CODES
    ensures var after, row := Run(env, w, actions), w.db.certs[i];
      && |after.db.certs| == |w.db.certs|
      && RevokedAs(row, after.db.certs[i], if reason == "" then "unspecified" else reason, comment,
                   if actor == "" then "api" else actor, Rfc3339.Format(w.clock / 1_000_000_000))
      && Shows(env, after, after.db.certs[i], w.clock / 1_000_000_000, ReasonCode(reason))
  {
    var row, full := w.db.certs[i], if reason == "" then "unspecified" else reason;
    actions := Serve(env, w, RevokeSerial(row.serial, reason, comment, actor), NO_DRAW);
    Revokes(env, w.db, row.serial, reason, comment, actor, NO_DRAW, w.clock, w.clock);
    ReasonCodeTable(reason);
    ReasonCodeTable(full);
    var after := Run(env, w, actions);
    RevokedRowReads(row, after.db.certs[i], full, comment, if actor == "" then "api" else actor, w.clock);
    RevokedShows(env, after, after.db.certs[i], w.clock / 1_000_000_000, ReasonCode(reason));
  }

  /** A renewal that succeeds shows its original as superseded, code 4, in both views. */
  lemma RenewalShows(env: Env, w: World, i: nat, draw: Draw) returns (actions: seq<Action>)
    requires Inv(env, w) && w.threads == map[] && i < |w.db.certs| && Renews(env, w.db, i, draw, w.clock)
    ensures var after := Run(env, w, actions);
      && RenewEffect(env, w.db, i, draw, w.clock, w.clock, after.db)
      && Shows(env, after, after.db.certs[i], w.clock / 1_000_000_000, 4)
  {
    LookedUp(env, w, i);
    actions := Serve(env, w, Renew(w.db.certs[i].serial), draw);
    RenewsExactly(env, w, i, draw, w.clock);
    ReasonCodeTable("superseded");
    var after := Run(env, w, actions);
    RevokedRowReads(w.db.certs[i], after.db.certs[i], "superseded", "", "api", w.clock);
    RevokedShows(env, after, after.db.certs[i], w.clock / 1_000_000_000, 4);
  }
}
