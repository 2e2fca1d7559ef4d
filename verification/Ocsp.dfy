/** The OCSP responder: which CA a request is for, and what it answers about a serial. */
module Ocsp {
  import opened Prelude
  import opened Profiles
  import opened Authority
  import opened Storage
  import Rfc3339
  import SerialText

  type Digest = d: Octets | |d| == 20 witness seq(20, i => 0)

  /** SHA-1 over the whole subject public key info, left abstract. */
  type Hash = Octets -> Digest

  // ---------- issuer matching ----------

  /** `matchIssuer` returns no CA and no error when there are no CAs, which its caller does not expect. */
  datatype Match = NoCAs | NoMatch | Issuer(cert: Cert)

  /** An absent or empty request hash is not compared; a longer one than the digest never matches. */
  predicate HashMatches(digest: Digest, requested: Octets) {
    requested <= digest
  }

  /** A listed CA whose certificate decodes, whose key hash matches and whose key the responder can load. */
  predicate Candidate(hash: Hash, db: Db, row: CARow, requested: Octets) {
    && row.certificate.Some?
    && HashMatches(hash(row.certificate.value.publicKey), requested)
    && GetKey(db, "ca", row.id) == Some(Pkcs8)
  }

  predicate FirstCandidate(hash: Hash, db: Db, rows: seq<CARow>, requested: Octets, i: nat) {
    && i < |rows|
    && Candidate(hash, db, rows[i], requested)
    && forall j :: 0 <= j < i ==> !Candidate(hash, db, rows[j], requested)
  }

  predicate NoCandidate(hash: Hash, db: Db, rows: seq<CARow>, requested: Octets) {
    forall i :: 0 <= i < |rows| ==> !Candidate(hash, db, rows[i], requested)
  }

  function FindCandidate(hash: Hash, db: Db, rows: seq<CARow>, requested: Octets, from: nat): (r: Option<nat>)
    requires from <= |rows|
    requires forall j :: 0 <= j < from ==> !Candidate(hash, db, rows[j], requested)
    ensures r.Some? ==> FirstCandidate(hash, db, rows, requested, r.value)
    ensures r.None? ==> NoCandidate(hash, db, rows, requested)
    decreases |rows| - from
  {
    if from == |rows| then None
    else if Candidate(hash, db, rows[from], requested) then Some(from)
    else FindCandidate(hash, db, rows, requested, from + 1)
  }

  function MatchIssuer(hash: Hash, build: Build, db: Db, requested: Octets): Match {
    var rows := ListCAs(build, db);
    if rows == [] then NoCAs
    else
      var found := FindCandidate(hash, db, rows, requested, 0);
      if found.None? then NoMatch else Issuer(rows[found.value].certificate.value)
  }

  predicate FirstWithSerial(cas: seq<CARow>, serial: string, i: nat) {
    i < |cas| && cas[i].serial == serial && forall j :: 0 <= j < i ==> cas[j].serial != serial
  }

  function FindCASerial(cas: seq<CARow>, serial: string, from: nat): (id: nat)
    requires from <= |cas|
    requires forall j :: 0 <= j < from ==> cas[j].serial != serial
    ensures (exists i: nat :: FirstWithSerial(cas, serial, i) && id == cas[i].id)
             || (!HasCASerial(cas, serial) && id == 0)
    decreases |cas| - from
  {
    if from == |cas| then 0
    else if cas[from].serial == serial then
      assert FirstWithSerial(cas, serial, from);
      cas[from].id
    else FindCASerial(cas, serial, from + 1)
  }

  /** `getCAID`: the id of the first CA row with the certificate's serial, or 0. */
  function CAIdOf(db: Db, cert: Cert): nat {
    FindCASerial(db.cas, SerialText.ToUpper(SerialText.Text16(cert.serial)), 0)
  }

  // ---------- the answer ----------

  datatype CertStatus = Good | Unknown | RevokedAt(time: nat, reasonCode: nat)

  function StatusFor(build: Build, db: Db, caId: nat, requested: int, now: nat): CertStatus {
    Judge(GetCertBySerial(build, db, SerialText.ToUpper(SerialText.Text16(requested))), caId, now)
  }

  /** The decision once the row has been looked up and the id of the answering CA is known. */
  function Judge(rec: Option<CertRecord>, caId: nat, now: nat): CertStatus {
    if rec.None? || rec.value.caId != caId then Unknown
    else
      match rec.value.status
      case Revoked =>
        var time := if rec.value.revokedAt.Some? then rec.value.revokedAt.value else Rfc3339.ZERO_TIME;
        RevokedAt(time, ReasonCode(rec.value.reason))
      case Expired => Unknown
      case Active => if rec.value.notAfter * Rfc3339.NANOS < now then Unknown else Good
  }

  /** The handler's reply: a 404, a failed nil dereference, or a signed answer. */
  datatype Reply = IssuerNotFound | Crashed | Answer(issuer: Cert, status: CertStatus)

  function Respond(hash: Hash, build: Build, db: Db, requestedHash: Octets, requested: int, now: nat): Reply {
    match MatchIssuer(hash, build, db, requestedHash)
    case NoCAs => Crashed
    case NoMatch => IssuerNotFound
    case Issuer(cert) => Answer(cert, StatusFor(build, db, CAIdOf(db, cert), requested, now))
  }

  // ---------- the responder ----------

  class Responder {
    const store: Store
    const hash: Hash

    constructor (store: Store, hash: Hash)
      ensures this.store == store && this.hash == hash
    {
      this.store := store;
      this.hash := hash;
    }

    /** The comparison loop over the request's hash octets. */
    method CompareHash(digest: Digest, requested: Octets) returns (matched: bool)
      ensures matched <==> HashMatches(digest, requested)
    {
      matched := true;
      if |requested| > 0 {
        if |digest| >= |requested| {
          for i := 0 to |requested|
            invariant forall j :: 0 <= j < i ==> digest[j] == requested[j]
            invariant matched
          {
            if digest[i] != requested[i] {
              matched := false;
              break;
            }
          }
        } else {
          matched := false;
        }
      }
    }

    method FindIssuer(requested: Octets) returns (m: Match)
      ensures m == MatchIssuer(hash, store.build, store.Tables(), requested)
    {
      var db := store.Tables();
      var rows := ListCAs(store.build, db);
      if |rows| == 0 {
        return NoCAs;
      }
      for i := 0 to |rows|
        invariant forall j :: 0 <= j < i ==> !Candidate(hash, db, rows[j], requested)
      {
        if rows[i].certificate.Some? {
          var matched := CompareHash(hash(rows[i].certificate.value.publicKey), requested);
          if matched {
            var key := GetKey(db, "ca", rows[i].id);
            if key == Some(Pkcs8) {
              assert FirstCandidate(hash, db, rows, requested, i);
              return Issuer(rows[i].certificate.value);
            }
          }
        }
      }
      return NoMatch;
    }

    method GetCAId(cert: Cert) returns (id: nat)
      ensures id == CAIdOf(store.Tables(), cert)
    {
      var serial := SerialText.ToUpper(SerialText.Text16(cert.serial));
      for i := 0 to |store.cas|
        invariant forall j :: 0 <= j < i ==> store.cas[j].serial != serial
      {
        if store.cas[i].serial == serial {
          assert FirstWithSerial(store.cas, serial, i);
          return store.cas[i].id;
        }
      }
      return 0;
    }

    method Handle(requestedHash: Octets, requested: int, now: nat) returns (reply: Reply)
      ensures reply == Respond(hash, store.build, store.Tables(), requestedHash, requested, now)
    {
      var m := FindIssuer(requestedHash);
      if m.NoMatch? {
        return IssuerNotFound;
      }
      if m.NoCAs? {
        return Crashed;
      }
      var status := Unknown;
      var rec := GetCertBySerial(store.build, store.Tables(), SerialText.ToUpper(SerialText.Text16(requested)));
      if rec.Some? {
        var caId := GetCAId(m.cert);
        if rec.value.caId == caId {
          match rec.value.status {
            case Revoked =>
              status := RevokedAt(Rfc3339.ZERO_TIME, 0);
              if rec.value.revokedAt.Some? {
                status := status.(time := rec.value.revokedAt.value);
              }
              if rec.value.reason in REASON_CODES {
                status := status.(reasonCode := REASON_CODES[rec.value.reason]);
              }
            case Expired =>
            case Active =>
              if !(rec.value.notAfter * Rfc3339.NANOS < now) {
                status := Good;
              }
          }
        }
      }
      return Answer(m.cert, status);
    }
  }
}
