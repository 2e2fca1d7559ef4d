/** The two published views of revocation, the CRL and the OCSP answer, over every run: they agree, also when writers
    come between the responder's reads, and the CRL only grows. */
module Revocation {
  import opened Prelude
  import opened Profiles
  import opened Authority
  import opened Storage
  import opened Lifecycle
  import opened Invariant
  import opened Ocsp
  import Durations
  import Rfc3339
  import SerialText

  // ---------- agreement ----------

  /** The entries a CRL of this CA holds when listed now. */
  function CrlEntriesOf(db: Db, caId: nat): seq<CrlEntry> {
    SignedEntries(ReadAllRevoked(SelectRevoked(db.certs, caId)))
  }

  lemma RowFacts(env: Env, db: Db, clock: nat, row: CertRow)
    requires DbOk(env, db, clock) && row in db.certs
    ensures row.serial == SerialText.HexUpper(row.certificate.serial)
    ensures row.status != Expired
    ensures row.status == Revoked ==> row.revokedAt.Some? && row.reason.Some?
    ensures row.status == Active ==> row.reason.None?
    ensures Rfc3339.ReadTime(row.notAfter) == row.certificate.notAfter
  {
    var i :| 0 <= i < |db.certs| && db.certs[i] == row;
    assert RowOk(env, db.cas, clock, db.certs[i]);
    Rfc3339.ParseRoundTrip(row.certificate.notAfter);
  }

  /** The responder's lookup text finds exactly the row whose certificate has the requested serial. */
  lemma LookupFinds(env: Env, db: Db, clock: nat, requested: int, row: CertRow)
    requires DbOk(env, db, clock) && row in db.certs
    ensures FindRow(db.certs, SerialText.ToUpper(SerialText.Text16(requested))) == Some(row)
       <==> row.certificate.serial == requested
  {
    var text := SerialText.ToUpper(SerialText.Text16(requested));
    RowFacts(env, db, clock, row);
    SerialText.LookupTextAgrees(requested, row.certificate.serial);
    if row.certificate.serial == requested {
      SameSerialSameRow(db.certs, text, row);
    }
  }

  lemma SameSerialSameRow(certs: seq<CertRow>, serial: string, row: CertRow)
    requires SerialsUnique(certs) && row in certs && row.serial == serial
    ensures FindRow(certs, serial) == Some(row)
  {
  }

  lemma EntryOfRow(env: Env, db: Db, clock: nat, caId: nat, row: CertRow)
    requires DbOk(env, db, clock) && row in db.certs
    ensures SignedEntry(ReadRevoked(row)).serial == row.certificate.serial
    ensures RevokedBy(row, caId) ==> SignedEntry(ReadRevoked(row)) in CrlEntriesOf(db, caId)
  {
    RowFacts(env, db, clock, row);
    SerialText.RoundTrip(row.certificate.serial);
    if RevokedBy(row, caId) {
      var rows := SelectRevoked(db.certs, caId);
      var k :| 0 <= k < |rows| && rows[k] == row;
      assert CrlEntriesOf(db, caId)[k] == SignedEntry(ReadRevoked(row));
    }
  }

  lemma RowOfEntry(env: Env, db: Db, clock: nat, caId: nat, e: CrlEntry) returns (row: CertRow)
    requires DbOk(env, db, clock) && e in CrlEntriesOf(db, caId)
    ensures row in db.certs && RevokedBy(row, caId) && e == SignedEntry(ReadRevoked(row))
    ensures e.serial == row.certificate.serial
  {
    var entries := CrlEntriesOf(db, caId);
    var k :| 0 <= k < |entries| && entries[k] == e;
    row := SelectRevoked(db.certs, caId)[k];
    EntryOfRow(env, db, clock, caId, row);
  }

  /** The status of a requested serial, told from the one row that has it. */
  lemma StatusOfRow(env: Env, db: Db, clock: nat, caId: nat, requested: int, now: nat, row: CertRow)
    requires DbOk(env, db, clock) && row in db.certs && row.certificate.serial == requested
    ensures StatusFor(env.build, db, caId, requested, now)
         == if row.caId != caId then Unknown
            else if row.status == Revoked then RevokedAt(ReadRevoked(row).revokedAt, ReadRevoked(row).reasonCode)
            else if env.build.nullAsEmpty && now <= row.certificate.notAfter * Rfc3339.NANOS then Good
            else Unknown
  {
    LookupFinds(env, db, clock, requested, row);
    RowFacts(env, db, clock, row);
  }

  lemma StatusOfNoRow(env: Env, db: Db, clock: nat, caId: nat, requested: int, now: nat)
    requires DbOk(env, db, clock)
    requires forall row :: row in db.certs ==> row.certificate.serial != requested
    ensures StatusFor(env.build, db, caId, requested, now) == Unknown
  {
    var found := FindRow(db.certs, SerialText.ToUpper(SerialText.Text16(requested)));
    if found.Some? {
      LookupFinds(env, db, clock, requested, found.value);
    }
  }

  predicate Listed(db: Db, caId: nat, requested: int) {
    exists e :: e in CrlEntriesOf(db, caId) && e.serial == requested
  }

  lemma ListedIffRevoked(env: Env, db: Db, clock: nat, caId: nat, requested: int, row: CertRow)
    requires DbOk(env, db, clock) && row in db.certs && row.certificate.serial == requested
    ensures Listed(db, caId, requested) <==> RevokedBy(row, caId)
  {
    EntryOfRow(env, db, clock, caId, row);
    if Listed(db, caId, requested) {
      var e :| e in CrlEntriesOf(db, caId) && e.serial == requested;
      var other := RowOfEntry(env, db, clock, caId, e);
      LookupFinds(env, db, clock, requested, row);
      LookupFinds(env, db, clock, requested, other);
    }
  }

  /** For every reachable world, CA and requested integer, OCSP and CRL agree: revoked exactly when listed, with the
      same time and reason; a serial the CA did not issue is unknown and unlisted. */
  lemma ViewsAgree(env: Env, w: World, caId: nat, requested: int, now: nat)
    requires Inv(env, w)
    ensures var status := StatusFor(env.build, w.db, caId, requested, now);
      && (status.RevokedAt? <==> Listed(w.db, caId, requested))
      && (status.RevokedAt? ==>
            forall e :: e in CrlEntriesOf(w.db, caId) && e.serial == requested ==>
                          e == CrlEntry(requested, status.time, status.reasonCode))
  {
    if exists row :: row in w.db.certs && row.certificate.serial == requested {
      var row :| row in w.db.certs && row.certificate.serial == requested;
      StatusOfRow(env, w.db, w.clock, caId, requested, now, row);
      ListedIffRevoked(env, w.db, w.clock, caId, requested, row);
      forall e | e in CrlEntriesOf(w.db, caId) && e.serial == requested
        ensures e == SignedEntry(ReadRevoked(row))
      {
        var other := RowOfEntry(env, w.db, w.clock, caId, e);
        LookupFinds(env, w.db, w.clock, requested, row);
        LookupFinds(env, w.db, w.clock, requested, other);
      }
    } else {
      StatusOfNoRow(env, w.db, w.clock, caId, requested, now);
      if Listed(w.db, caId, requested) {
        var e :| e in CrlEntriesOf(w.db, caId) && e.serial == requested;
        var row := RowOfEntry(env, w.db, w.clock, caId, e);
      }
    }
  }

  /** Good is answered exactly for an active, unexpired certificate of that very CA, and only if the lookup can read
      the NULL reason of such a row: as written the responder never says Good. */
  lemma GoodIff(env: Env, w: World, caId: nat, requested: int, now: nat)
    requires Inv(env, w)
    ensures StatusFor(env.build, w.db, caId, requested, now) == Good
       <==> env.build.nullAsEmpty
            && exists row :: row in w.db.certs && row.certificate.serial == requested && row.caId == caId
                             && row.status == Active && now <= row.certificate.notAfter * Rfc3339.NANOS
  {
    if exists row :: row in w.db.certs && row.certificate.serial == requested {
      var row :| row in w.db.certs && row.certificate.serial == requested;
      StatusOfRow(env, w.db, w.clock, caId, requested, now, row);
      RowFacts(env, w.db, w.clock, row);
      forall other | other in w.db.certs && other.certificate.serial == requested
        ensures other == row
      {
        LookupFinds(env, w.db, w.clock, requested, row);
        LookupFinds(env, w.db, w.clock, requested, other);
      }
    } else {
      StatusOfNoRow(env, w.db, w.clock, caId, requested, now);
    }
  }

  /** A serial issued by one CA is unknown to every other. */
  lemma OtherCAUnknown(env: Env, w: World, caId: nat, now: nat, row: CertRow)
    requires Inv(env, w) && row in w.db.certs && row.caId != caId
    ensures StatusFor(env.build, w.db, caId, row.certificate.serial, now) == Unknown
    ensures !Listed(w.db, caId, row.certificate.serial)
  {
    StatusOfRow(env, w.db, w.clock, caId, row.certificate.serial, now, row);
    ListedIffRevoked(env, w.db, w.clock, caId, row.certificate.serial, row);
  }

  // ---------- issuer matching ----------

  /** In a reachable world a matched issuer is the lowest-numbered CA that qualifies, and looking up its id by serial
      gives that row's id back. A full-length hash qualifies only by equality. */
  lemma MatchedIssuer(hash: Hash, build: Build, db: Db, requested: Octets) returns (i: nat)
    requires CAsOk(db.cas) && MatchIssuer(hash, build, db, requested).Issuer?
    ensures FirstCandidate(hash, db, db.cas, requested, i)
    ensures var cert := MatchIssuer(hash, build, db, requested).cert;
      && db.cas[i].certificate == Some(cert)
      && CAIdOf(db, cert) == db.cas[i].id
      && (|requested| == 20 ==> hash(cert.publicKey) == requested)
  {
    var rows := ListCAs(build, db);
    i := FindCandidate(hash, db, rows, requested, 0).value;
    assert rows == db.cas;
    var cert := rows[i].certificate.value;
    StoredIssuerId(db, i, cert);
  }

  lemma SerialFindsRow(cas: seq<CARow>, i: nat)
    requires CAsOk(cas) && i < |cas|
    ensures FindCASerial(cas, cas[i].serial, 0) == cas[i].id
  {
  }

  lemma MatchIffCandidate(hash: Hash, build: Build, db: Db, requested: Octets)
    ensures MatchIssuer(hash, build, db, requested).Issuer?
       <==> build.pemListed && !NoCandidate(hash, db, db.cas, requested)
    ensures MatchIssuer(hash, build, db, requested).NoCAs? <==> db.cas == []
  {
  }

  /** The responder answers exactly when the listing carries certificates and some CA qualifies; as written it answers
      nothing, and with no CA at all it fails on a nil result. */
  lemma AnswersIff(hash: Hash, build: Build, db: Db, requestedHash: Octets, requested: int, now: nat)
    ensures var reply := Respond(hash, build, db, requestedHash, requested, now);
      && (reply.Answer? <==> build.pemListed && !NoCandidate(hash, db, db.cas, requestedHash))
      && (reply.Crashed? <==> db.cas == [])
  {
    MatchIffCandidate(hash, build, db, requestedHash);
  }

  /** The signed views of one state: whatever OCSP answers and whatever CRL the answering CA signs, an integer is
      revoked in the one exactly when it is listed in the other, with the same time and reason. */
  lemma OcspMatchesCrl(env: Env, start: World, actions: seq<Action>, hash: Hash, requestedHash: Octets, requested: int,
                       now: nat, hours: Durations.Int64, signedAt: nat)
    requires Initial(start)
    requires Respond(hash, env.build, Run(env, start, actions).db, requestedHash, requested, now).Answer?
    ensures var db := Run(env, start, actions).db;
      var reply := Respond(hash, env.build, db, requestedHash, requested, now);
      var listing := ListRevoked(db, CAIdOf(db, reply.issuer));
      && listing.Some?
      && var crl := SignCrl(listing.value, hours, signedAt);
         crl.Some? ==>
           && (reply.status.RevokedAt? <==> exists e :: e in crl.value.entries && e.serial == requested)
           && (reply.status.RevokedAt? ==>
                 forall e :: e in crl.value.entries && e.serial == requested ==>
                               e.revokedAt == reply.status.time && e.reasonCode == reply.status.reasonCode)
  {
    InitialInv(env, start);
    RunInv(env, start, actions);
    var w := Run(env, start, actions);
    var caId := CAIdOf(w.db, Respond(hash, env.build, w.db, requestedHash, requested, now).issuer);
    ListingBy(env, w.db, w.clock, caId);
    ViewsAgree(env, w, caId, requested, now);
  }

  // ---------- the reply, spelled out ----------

  /** A row of the `i`-th CA whose certificate has the requested serial. */
  predicate IssuedBy(row: CertRow, i: nat, requested: int) {
    row.certificate.serial == requested && row.caId == i + 1
  }

  predicate InForce(row: CertRow, now: nat) {
    row.status == Active && now <= row.certificate.notAfter * 1_000_000_000
  }

  predicate RevokedWith(row: CertRow, time: nat, code: nat) {
    && row.status == Revoked && time < Rfc3339.END_OF_TEXT && row.revokedAt == Some(Rfc3339.Format(time))
    && row.reason.Some? && ReasonCode(row.reason.value) == code
  }

  /** The status in terms of the rows: good for a certificate of that CA in force, where the lookup can read a NULL
      reason; revoked with the time and code its row has; unknown otherwise. */
  ghost predicate StatusReads(build: Build, certs: seq<CertRow>, i: nat, requested: int, now: nat, status: CertStatus) {
    && (status == Good <==>
          build.nullAsEmpty && exists row :: row in certs && IssuedBy(row, i, requested) && InForce(row, now))
    && (forall time: nat, code: nat ::
          status == RevokedAt(time, code) <==>
            exists row :: row in certs && IssuedBy(row, i, requested) && RevokedWith(row, time, code))
  }

  lemma TimesAreOne(row: CertRow, a: nat, b: nat, c: nat, d: nat)
    requires RevokedWith(row, a, c) && RevokedWith(row, b, d)
    ensures a == b && c == d
  {
    Rfc3339.TextOrderIsTimeOrder(a, b);
  }

  lemma ReadTimes(env: Env, db: Db, clock: nat, row: CertRow)
    requires DbOk(env, db, clock) && row in db.certs && row.status == Revoked
    ensures RevokedWith(row, ReadRevoked(row).revokedAt, ReadRevoked(row).reasonCode)
  {
    var i :| 0 <= i < |db.certs| && db.certs[i] == row;
    RevokedRowBy(env, db.cas, clock, db.certs[i]);
  }

  lemma StatusReadsRow(env: Env, w: World, i: nat, requested: int, now: nat, row: CertRow)
    requires Inv(env, w) && row in w.db.certs && row.certificate.serial == requested
    ensures StatusReads(env.build, w.db.certs, i, requested, now, StatusFor(env.build, w.db, i + 1, requested, now))
  {
    var time, code := ReadRevoked(row).revokedAt, ReadRevoked(row).reasonCode;
    StatusOfRow(env, w.db, w.clock, i + 1, requested, now, row);
    RowFacts(env, w.db, w.clock, row);
    forall other | other in w.db.certs && IssuedBy(other, i, requested)
      ensures other == row
    {
      LookupFinds(env, w.db, w.clock, requested, row);
      LookupFinds(env, w.db, w.clock, requested, other);
    }
    if row.status == Revoked {
      ReadTimes(env, w.db, w.clock, row);
      OneTime(row, time, code);
    }
    OneRowReads(env.build, w.db.certs, i, requested, now, row, time, code);
  }

  lemma OneTime(row: CertRow, time: nat, code: nat)
    requires RevokedWith(row, time, code)
    ensures forall t: nat, c: nat :: RevokedWith(row, t, c) <==> t == time && c == code
  {
    forall t: nat, c: nat | RevokedWith(row, t, c)
      ensures t == time && c == code
    {
      TimesAreOne(row, t, time, c, code);
    }
  }

  lemma OneRowReads(build: Build, certs: seq<CertRow>, i: nat, requested: int, now: nat, row: CertRow, time: nat,
                    code: nat)
    requires row in certs && row.certificate.serial == requested && row.status != Expired
    requires forall other :: other in certs && IssuedBy(other, i, requested) ==> other == row
    requires row.status == Revoked ==> forall t: nat, c: nat :: RevokedWith(row, t, c) <==> t == time && c == code
    ensures StatusReads(build, certs, i, requested, now,
                        if row.caId != i + 1 then Unknown
                        else if row.status == Revoked then RevokedAt(time, code)
                        else if build.nullAsEmpty && now <= row.certificate.notAfter * 1_000_000_000 then Good
                        else Unknown)
  {
    if row.caId == i + 1 {
      assert IssuedBy(row, i, requested);
    }
  }

  lemma StatusExactly(env: Env, w: World, i: nat, requested: int, now: nat)
    requires Inv(env, w)
    ensures StatusReads(env.build, w.db.certs, i, requested, now, StatusFor(env.build, w.db, i + 1, requested, now))
  {
    if exists row :: row in w.db.certs && row.certificate.serial == requested {
      var row :| row in w.db.certs && row.certificate.serial == requested;
      StatusReadsRow(env, w, i, requested, now, row);
    } else {
      StatusOfNoRow(env, w.db, w.clock, i + 1, requested, now);
    }
  }

  /** The `i`-th CA's key hash starts with the requested octets and the responder can load its key. */
  predicate Qualifies(hash: Hash, db: Db, i: nat, requested: Octets) {
    && i < |db.cas| && db.cas[i].certificate.Some?
    && |requested| <= 20
    && (forall k :: 0 <= k < |requested| ==> hash(db.cas[i].certificate.value.publicKey)[k] == requested[k])
    && GetKey(db, "ca", i + 1) == Some(Pkcs8)
  }

  predicate FirstQualifies(hash: Hash, db: Db, i: nat, requested: Octets) {
    Qualifies(hash, db, i, requested) && forall j :: 0 <= j < i ==> !Qualifies(hash, db, j, requested)
  }

  lemma QualifiesIff(hash: Hash, db: Db, i: nat, requested: Octets)
    requires CAsOk(db.cas) && i < |db.cas|
    ensures Qualifies(hash, db, i, requested) <==> Candidate(hash, db, db.cas[i], requested)
  {
    var digest := hash(db.cas[i].certificate.value.publicKey);
    if requested <= digest {
      assert forall k :: 0 <= k < |requested| ==> digest[k] == requested[k];
    } else if |requested| <= 20 {
      assert requested != digest[..|requested|];
    }
  }

  lemma AnyQualifies(hash: Hash, db: Db, requested: Octets)
    requires CAsOk(db.cas)
    ensures NoCandidate(hash, db, db.cas, requested) <==> !exists i: nat :: Qualifies(hash, db, i, requested)
  {
    forall i: nat | i < |db.cas|
      ensures Qualifies(hash, db, i, requested) <==> Candidate(hash, db, db.cas[i], requested)
    {
      QualifiesIff(hash, db, i, requested);
    }
  }

  /** The reply in every world that satisfies the invariant, spelled out: who answers, for which CA, and with what
      status at that reading of the clock. */
  lemma ReplyExactly(env: Env, w: World, hash: Hash, requestedHash: Octets, requested: int, now: nat)
    requires Inv(env, w)
    ensures var reply := Respond(hash, env.build, w.db, requestedHash, requested, now);
      && (reply.Crashed? <==> w.db.cas == [])
      && (reply.Answer? <==> env.build.pemListed && exists i: nat :: Qualifies(hash, w.db, i, requestedHash))
      && (reply.Answer? ==>
            exists i: nat ::
              && FirstQualifies(hash, w.db, i, requestedHash)
              && w.db.cas[i].certificate == Some(reply.issuer)
              && StatusReads(env.build, w.db.certs, i, requested, now, reply.status))
  {
    AnswersIff(hash, env.build, w.db, requestedHash, requested, now);
    AnyQualifies(hash, w.db, requestedHash);
    if Respond(hash, env.build, w.db, requestedHash, requested, now).Answer? {
      var i := MatchedIssuer(hash, env.build, w.db, requestedHash);
      forall j: nat | j <= i
        ensures Qualifies(hash, w.db, j, requestedHash) <==> Candidate(hash, w.db, w.db.cas[j], requestedHash)
      {
        QualifiesIff(hash, w.db, j, requestedHash);
      }
      assert FirstQualifies(hash, w.db, i, requestedHash);
      StatusExactly(env, w, i, requested, now);
    }
  }

  /** What a lookup returns, column by column: the row's own, its times read back to the instants of its certificate and
      of its revocation, and empty text for NULL. */
  lemma RecordReads(env: Env, w: World, row: CertRow)
    requires Inv(env, w) && row in w.db.certs
    ensures var r := ReadRow(row);
      && r.id == row.id && r.caId == row.caId && r.serial == row.serial && r.commonName == row.commonName
      && r.sans == row.sans && r.profile == row.profile && r.certificate == row.certificate && r.status == row.status
      && r.renewedFrom == row.renewedFrom
      && r.notBefore == row.certificate.notBefore && r.notAfter == row.certificate.notAfter
      && (row.status == Active ==> r.revokedAt.None? && r.reason == "" && r.comment == "" && r.revokedBy == "")
      && (row.status == Revoked ==>
            && r.revokedAt.Some? && RevokedWith(row, r.revokedAt.value, ReasonCode(r.reason))
            && row.reason == Some(r.reason)
            && (row.comment.Some? ==> r.comment == row.comment.value)
            && (row.revokedBy.Some? ==> r.revokedBy == row.revokedBy.value))
  {
    var i :| 0 <= i < |w.db.certs| && w.db.certs[i] == row;
    assert RowOk(env, w.db.cas, w.clock, w.db.certs[i]);
    Rfc3339.ParseRoundTrip(row.certificate.notBefore);
    Rfc3339.ParseRoundTrip(row.certificate.notAfter);
    if row.status == Revoked {
      ReadTimes(env, w.db, w.clock, row);
    }
  }

  lemma StoredIssuerId(db: Db, i: nat, cert: Cert)
    requires CAsOk(db.cas) && i < |db.cas| && db.cas[i].certificate == Some(cert)
    ensures CAIdOf(db, cert) == db.cas[i].id
  {
    SerialText.LookupTextAgrees(cert.serial, cert.serial);
    SerialFindsRow(db.cas, i);
  }

  /** The responder reads the table three times, with any writers in between: it matches a stored CA, looks the serial
      up, then finds the CA's id. Its answer is the one of the moment of the lookup, and so says revoked exactly when
      the serial was on that CA's list at that moment. */
  lemma SplitReadsAgree(env: Env, start: World, before: seq<Action>, between: seq<Action>, after: seq<Action>,
                        i: nat, issuer: Cert, requested: int, now: nat)
    requires Initial(start) && i < |Run(env, start, before).db.cas|
    requires Run(env, start, before).db.cas[i].certificate == Some(issuer)
    ensures var looked := Run(env, Run(env, start, before), between);
      var rec := GetCertBySerial(env.build, looked.db, SerialText.ToUpper(SerialText.Text16(requested)));
      var status := Judge(rec, CAIdOf(Run(env, looked, after).db, issuer), now);
      && status == StatusFor(env.build, looked.db, i + 1, requested, now)
      && (status.RevokedAt? <==> Listed(looked.db, i + 1, requested))
  {
    var matched := Run(env, start, before);
    var looked := Run(env, matched, between);
    var last := Run(env, looked, after);
    InitialInv(env, start);
    RunInv(env, start, before);
    RunInv(env, matched, between);
    RunInv(env, looked, after);
    RunExtends(env, matched, between);
    RunExtends(env, looked, after);
    assert last.db.cas[i] == matched.db.cas[i];
    StoredIssuerId(last.db, i, issuer);
    ViewsAgree(env, looked, i + 1, requested, now);
  }

  // ---------- growth ----------

  /** Over any run a CA's revoked rows, and so its CRL entries, are only ever added to. */
  lemma CrlGrows(env: Env, w: World, actions: seq<Action>, caId: nat)
    ensures forall row :: row in SelectRevoked(w.db.certs, caId) ==>
                            row in SelectRevoked(Run(env, w, actions).db.certs, caId)
    ensures forall e :: e in CrlEntriesOf(w.db, caId) ==> e in CrlEntriesOf(Run(env, w, actions).db, caId)
  {
    var after := Run(env, w, actions);
    RunExtends(env, w, actions);
    forall row | row in SelectRevoked(w.db.certs, caId)
      ensures row in SelectRevoked(after.db.certs, caId)
    {
      var i :| 0 <= i < |w.db.certs| && w.db.certs[i] == row;
      assert after.db.certs[i] == row;
    }
    EntriesFollowRows(w.db, after.db, caId);
  }

  lemma EntriesFollowRows(db: Db, db': Db, caId: nat)
    requires forall row :: row in SelectRevoked(db.certs, caId) ==> row in SelectRevoked(db'.certs, caId)
    ensures forall e :: e in CrlEntriesOf(db, caId) ==> e in CrlEntriesOf(db', caId)
  {
    var rows, rows' := SelectRevoked(db.certs, caId), SelectRevoked(db'.certs, caId);
    var entries, entries' := CrlEntriesOf(db, caId), CrlEntriesOf(db', caId);
    forall e | e in entries
      ensures e in entries'
    {
      var k :| 0 <= k < |entries| && entries[k] == e;
      assert rows[k] in rows';
      var m :| 0 <= m < |rows'| && rows'[m] == rows[k];
      assert entries'[m] == e;
    }
  }
}
