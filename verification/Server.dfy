/** The REST handlers as methods on the store object. Each does exactly what its thread does when resumed to the end;
    what that is, column by column, stands beside it. */
module Server {
  import opened Prelude
  import opened Profiles
  import opened Authority
  import opened Storage
  import opened Lifecycle
  import opened Invariant
  import opened Handlers
  import opened Effects
  import Durations
  import SerialText

  class Server {
    const store: Store
    const env: Env

    constructor (store: Store, env: Env)
      ensures this.store == store && this.env == env
    {
      this.store := store;
      this.env := env;
    }

    /** The loop that separates addresses from names. */
    method SplitSans(sans: seq<string>) returns (dnsNames: seq<string>, ips: seq<Ip>)
      ensures dnsNames == DnsOf(env.net, sans) && ips == IpsOf(env.net, sans)
    {
      dnsNames, ips := [], [];
      for i := 0 to |sans|
        invariant dnsNames == DnsOf(env.net, sans[..i]) && ips == IpsOf(env.net, sans[..i])
      {
        assert sans[..i + 1][..i] == sans[..i];
        var ip := env.net.parseIP(sans[i]);
        if ip.Some? {
          ips := ips + [ip.value];
        } else {
          dnsNames := dnsNames + [sans[i]];
        }
      }
      assert sans[..|sans|] == sans;
    }

    /** The two loops that record the names of a certificate issued from a CSR. */
    method RecordNames(cert: Cert) returns (sans: seq<string>)
      ensures sans == NamesOf(env.net, cert)
    {
      sans := [];
      for i := 0 to |cert.dnsNames|
        invariant sans == cert.dnsNames[..i]
      {
        sans := sans + [cert.dnsNames[i]];
      }
      for i := 0 to |cert.ips|
        invariant sans == NamesOf(env.net, cert)[..|cert.dnsNames| + i]
      {
        sans := sans + [IpText(env.net, cert.ips[i])];
      }
      assert sans == NamesOf(env.net, cert);
    }

    method HandleCreateRootCA(name: string, days: Durations.Int64, draw: Draw, now: nat) returns (id: Option<nat>)
      modifies store
      ensures store.Tables() == Served(env, old(store.Tables()), CreateRoot(name, days), draw, now, now)
      ensures id.Some? <==> |store.cas| > |old(store.cas)|
      ensures RootEffect(old(store.Tables()), name, days, draw, now, store.Tables())
    {
      MakesRoot(env, store.Tables(), name, days, draw, now);
      if name == "" {
        return None;
      }
      var ca := InitCA(RootCA, name, days, draw, now);
      if ca.Err? {
        return None;
      }
      var rec := NewCA(name, SerialText.HexUpper(ca.value.serial), ca.value);
      AfterStatement(env, store.Tables(), RootSign(name, days), draw, now, now, RootInsert(rec));
      RootKeyed(env, store.Tables(), rec, draw, now);
      id := store.AddCA(rec);
      if id.Some? {
        store.AddKey("ca", id.value, Pkcs8);
      }
    }

    method HandleRevokeCert(serial: string, reason: string, comment: string, actor: string, now: nat) returns (ok: bool)
      modifies store
      ensures store.Tables()
               == Served(env, old(store.Tables()), RevokeSerial(serial, reason, comment, actor), NO_DRAW, now, now)
      ensures ok <==> (reason == "" || reason in REASON_CODES)
                      && AnyMatches(old(store.Tables()), RevokeOpts(serial, reason, comment, actor))
      ensures !ok ==> store.Tables() == old(store.Tables())
      ensures RevokeEffect(old(store.Tables()), serial, reason, comment, actor, now, store.Tables())
    {
      Revokes(env, store.Tables(), serial, reason, comment, actor, NO_DRAW, now, now);
      var full, who := reason, actor;
      if full == "" {
        full := "unspecified";
      }
      if who == "" {
        who := "api";
      }
      if full !in REASON_CODES {
        return false;
      }
      var opts := RevokeOpts(serial, full, comment, who);
      RevokeServed(env, store.Tables(), serial, reason, comment, actor, NO_DRAW, now, now);
      ok := store.RevokeCert(opts, now);
    }

    /** What issuing, renewing and CRL making begin with: the CA row, then its key, then decoding both. */
    method LoadCA(caId: int) returns (caRow: Option<CARow>)
      ensures caRow == var row := GetCA(store.Tables(), caId);
        if row.Some? && Loadable(row.value, GetKey(store.Tables(), "ca", row.value.id)) then row else None
    {
      var row := GetCA(store.Tables(), caId);
      if row.None? {
        return None;
      }
      var key := GetKey(store.Tables(), "ca", row.value.id);
      if !Loadable(row.value, key) {
        return None;
      }
      return row;
    }

    /** The row each path writes for the certificate it signed. */
    method RecordFor(job: Job, caRow: CARow, cert: Cert) returns (rec: NewCert)
      ensures rec == JobRecord(env, job, caRow, cert)
      ensures rec.serial == SerialText.HexUpper(cert.serial) && rec.certificate == cert
      ensures !job.Renewal? ==> rec.caId == caRow.id && rec.profile == job.profile && rec.renewedFrom == ""
      ensures job.FromRequest? ==> rec.commonName == job.commonName && rec.sans == job.sans
      ensures job.FromCsr? ==>
                && rec.commonName == cert.commonName && |rec.sans| == |cert.dnsNames| + |cert.ips|
                && rec.sans[..|cert.dnsNames|] == cert.dnsNames
                && forall i :: 0 <= i < |cert.ips| ==> rec.sans[|cert.dnsNames| + i] == IpText(env.net, cert.ips[i])
      ensures job.Renewal? ==>
                && rec.caId == job.orig.caId && rec.profile == job.orig.profile && rec.renewedFrom == job.orig.serial
                && rec.commonName == job.orig.commonName && rec.sans == job.orig.sans
    {
      var serial := SerialText.HexUpper(cert.serial);
      match job {
        case FromRequest(_, commonName, sans, profile) =>
          rec := NewCert(caRow.id, serial, commonName, sans, profile, cert, "");
        case FromCsr(_, _, profile) =>
          var sans := RecordNames(cert);
          rec := NewCert(caRow.id, serial, cert.commonName, sans, profile, cert, "");
        case Renewal(orig) =>
          rec := NewCert(orig.caId, serial, orig.commonName, orig.sans, orig.profile, cert, orig.serial);
      }
    }

    /** What issuing and renewing share up to the signature: load the CA and its key, then sign. */
    method PrepareJob(job: Job, opts: IssueOptions, draw: Draw, now: nat, ghost later: nat)
      returns (rec: Option<NewCert>)
      requires JobProfile(job) in env.profiles && opts == JobOptions(env, job)
      ensures Complete(env, store.Tables(), JobGetCA(job), draw, now, later)
           == if rec.None? then store.Tables()
              else Complete(env, store.Tables(), JobInsert(rec.value, job.Renewal?), draw, now, later)
      ensures rec.Some? && job.Renewal? ==> rec.value.renewedFrom == job.orig.serial
    {
      ghost var db := store.Tables();
      var caRow := LoadCA(JobCA(job));
      JobLoads(env, db, job, draw, now, later);
      if caRow.None? {
        return None;
      }
      if job.FromCsr? && job.csr.None? {
        return None;
      }
      var cert := IssueCert(env.net, opts, draw, now);
      if cert.Err? {
        return None;
      }
      var record := RecordFor(job, caRow.value, cert.value);
      rec := Some(record);
      AfterStatement(env, db, JobSign(job, caRow.value), draw, now, later, JobInsert(record, job.Renewal?));
    }

    /** The insert that follows. */
    method IssueJob(job: Job, opts: IssueOptions, draw: Draw, now: nat, ghost later: nat)
      returns (id: Option<nat>, ghost rec: NewCert)
      requires JobProfile(job) in env.profiles && opts == JobOptions(env, job)
      modifies store
      ensures id.None? ==>
                && store.Tables() == old(store.Tables())
                && Complete(env, store.Tables(), JobGetCA(job), draw, now, later) == store.Tables()
      ensures id.Some? ==>
                && id.value == |store.certs| == |old(store.certs)| + 1
                && store.Tables() == InsertCert(old(store.Tables()), rec)
                && (job.Renewal? ==> rec.renewedFrom == job.orig.serial)
                && Complete(env, old(store.Tables()), JobGetCA(job), draw, now, later)
                == if job.Renewal? then Complete(env, store.Tables(), RevokeClock(Superseded(rec.renewedFrom), true),
                    draw, now, later)
                   else store.Tables()
    {
      id, rec := None, NewCert(0, "", "", [], "", Cert(0, "", [], [], 0, 0, []), "");
      ghost var db := store.Tables();
      var record := PrepareJob(job, opts, draw, now, later);
      if record.Some? {
        rec := record.value;
        AfterInsert(env, db, rec, job.Renewal?, draw, now, later);
        id := store.AddCert(record.value);
      }
    }

    method HandleIssueCert(caId: int, commonName: string, sans: seq<string>, profile: string, draw: Draw, now: nat)
      returns (id: Option<nat>)
      modifies store
      ensures store.Tables()
               == Served(env, old(store.Tables()), IssueGenerated(caId, commonName, sans, profile), draw, now, now)
      ensures id.Some? ==> id.value == |store.certs| == |old(store.certs)| + 1
      ensures id.None? ==> store.Tables() == old(store.Tables())
      ensures CAsOk(old(store.cas)) ==>
                GeneratedEffect(env, old(store.Tables()), caId, commonName, sans, profile, draw, now, store.Tables())
    {
      if CAsOk(store.cas) {
        IssuesGenerated(env, store.Tables(), caId, commonName, sans, profile, draw, now);
      }
      var name := profile;
      if name == "" {
        name := "server";
      }
      if commonName == "" || name !in env.profiles {
        return None;
      }
      var dnsNames, ips := SplitSans(sans);
      var job := FromRequest(caId, commonName, sans, name);
      ghost var rec;
      id, rec := IssueJob(job, IssueOptions(commonName, dnsNames, ips, Some(env.profiles[name]), None), draw, now, now);
    }

    /** The CSR is `None` when its text does not decode, which is found out after the CA was loaded. */
    method HandleIssueFromCSR(caId: int, csr: Option<Csr>, profile: string, draw: Draw, now: nat)
      returns (id: Option<nat>)
      modifies store
      ensures store.Tables() == Served(env, old(store.Tables()), IssueFromCsr(caId, csr, profile), draw, now, now)
      ensures id.Some? ==> id.value == |store.certs| == |old(store.certs)| + 1
      ensures id.None? ==> store.Tables() == old(store.Tables())
      ensures CAsOk(old(store.cas)) ==>
                CsrEffect(env, old(store.Tables()), caId, csr, profile, draw, now, store.Tables())
    {
      if CAsOk(store.cas) {
        IssuesFromCsr(env, store.Tables(), caId, csr, profile, draw, now);
      }
      var name := profile;
      if name == "" {
        name := "server";
      }
      if name !in env.profiles {
        return None;
      }
      var job := FromCsr(caId, csr, name);
      ghost var rec;
      id, rec := IssueJob(job, IssueOptions("", [], [], Some(env.profiles[name]), csr), draw, now, now);
    }

    /** A renewal that returns an id has added one active row linked to the original and revoked the original as
        superseded; otherwise nothing has changed. The handler reads through the store, so store and environment
        describe the same build. */
    method HandleRenewCert(serial: string, draw: Draw, now: nat, later: nat) returns (id: Option<nat>)
      requires store.build == env.build
      modifies store
      ensures store.Tables() == Served(env, old(store.Tables()), Renew(serial), draw, now, later)
      ensures id.None? ==> store.Tables() == old(store.Tables())
      ensures id.Some? ==> id.value == |store.certs|
      ensures id.Some? ==> exists rec: NewCert :: RenewedInto(old(store.Tables()), store.Tables(), serial, rec, later)
      ensures Encodable(now) && DbOk(env, old(store.Tables()), now) ==>
                SerialRenewed(env, old(store.Tables()), serial, draw, now, later, store.Tables())
    {
      if Encodable(now) && DbOk(env, store.Tables(), now) {
        RenewsSerial(env, store.Tables(), serial, draw, now, later);
      }
      if serial == "" {
        return None;
      }
      ghost var db := store.Tables();
      var orig := GetCertBySerial(store.build, store.Tables(), serial);
      if orig.None? {
        return None;
      }
      if orig.value.status != Active {
        return None;
      }
      if orig.value.profile !in env.profiles {
        return None;
      }
      var job := Renewal(orig.value);
      assert Complete(env, db, RenewLookup(serial), draw, now, later)
          == Complete(env, db, JobGetCA(job), draw, now, later);
      ghost var rec;
      var opts := RenewalOptions(orig.value.certificate, orig.value.commonName, env.profiles[orig.value.profile]);
      id, rec := IssueJob(job, opts, draw, now, later);
      if id.Some? {
        assert store.Tables() == InsertCert(db, rec) && orig.value.serial == serial;
        SupersedeLast(env, store.Tables(), serial, draw, now, later);
        var _ := store.RevokeCert(RevokeOpts(orig.value.serial, "superseded", "", "api"), later);
        assert RenewedInto(db, store.Tables(), serial, rec, later);
      }
    }

    method GenerateCRL(caId: int, now: nat) returns (crl: Option<Crl>)
      ensures crl == CrlFor(env, store.Tables(), caId, now)
      ensures Encodable(now) && DbOk(env, store.Tables(), now) ==> CrlEffect(env, store.Tables(), caId, now, crl)
    {
      if Encodable(now) && DbOk(env, store.Tables(), now) {
        PublishesExactly(env, World(now, store.Tables(), map[], [], []), caId);
      }
      var caRow := LoadCA(caId);
      if caRow.None? {
        return None;
      }
      var entries := store.ListRevokedEntries(caRow.value.id);
      if entries.None? {
        return None;
      }
      var hours := env.crlHours;
      if hours <= 0 {
        hours := DEFAULT_CRL_HOURS;
      }
      SameHours(entries.value, env.crlHours, now);
      crl := Authority.GenerateCRL(entries.value, hours, now);
    }
  }
}
