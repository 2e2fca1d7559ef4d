/** The certificate database: its tables as values, each SQL statement as a function on them, and the store whose
    methods run those statements. Timestamps are text columns. */
module Storage {
  import opened Prelude
  import opened Authority
  import opened Sorting
  import Durations
  import Rfc3339

  datatype Status = Active | Revoked | Expired

  /** A `cas` row. The certificate is `None` where the PEM column does not decode. */
  datatype CARow = CARow(
    id: nat,
    name: string,
    serial: string,
    notBefore: string,
    notAfter: string,
    certificate: Option<Cert>)

  /** A `certificates` row; the four revocation columns are NULL until the row is revoked. */
  datatype CertRow = CertRow(
    id: nat,
    caId: nat,
    serial: string,
    commonName: string,
    sans: seq<string>,
    profile: string,
    notBefore: string,
    notAfter: string,
    certificate: Cert,
    status: Status,
    revokedAt: Option<string>,
    reason: Option<string>,
    comment: Option<string>,
    revokedBy: Option<string>,
    renewedFrom: string)

  /** What a stored key decodes to: the issuing side reads PKCS#8 and SEC 1 keys, the OCSP responder only PKCS#8. */
  datatype KeyText = Pkcs8 | Sec1 | Unreadable

  datatype KeyRow = KeyRow(ownerType: string, ownerId: nat, key: KeyText)

  datatype Db = Db(cas: seq<CARow>, certs: seq<CertRow>, keys: seq<KeyRow>)

  const EMPTY: Db := Db([], [], [])

  /** Two places where the queries fall short of what their callers need. As written, `GetCertBySerial` cannot scan a
      NULL revocation reason, so it fails on every row that was never revoked; and `ListCAs` does not select the PEM
      column. Each flag says whether that place is repaired. */
  datatype Build = Build(nullAsEmpty: bool, pemListed: bool)

  const REASON_CODES: map<string, nat> := map[
    "unspecified" := 0,
    "key_compromise" := 1,
    "ca_compromise" := 2,
    "affiliation_changed" := 3,
    "superseded" := 4,
    "cessation_of_operation" := 5,
    "certificate_hold" := 6,
    "remove_from_crl" := 8,
    "privilege_withdrawn" := 9,
    "aa_compromise" := 10]

  function ReasonCode(reason: string): nat {
    if reason in REASON_CODES then REASON_CODES[reason] else 0
  }

  /** The codes are those of section 5.3.1 of RFC 5280: each used once, and 7 never. */
  lemma ReasonCodesComplete(code: nat)
    ensures code <= 10 && code != 7 <==> exists reason :: reason in REASON_CODES && REASON_CODES[reason] == code
    ensures forall a, b :: a in REASON_CODES && b in REASON_CODES && REASON_CODES[a] == REASON_CODES[b] ==> a == b
  {
    var names := ["unspecified", "key_compromise", "ca_compromise", "affiliation_changed", "superseded",
                  "cessation_of_operation", "certificate_hold", "", "remove_from_crl", "privilege_withdrawn",
                  "aa_compromise"];
    if code <= 10 && code != 7 {
      assert names[code] in REASON_CODES && REASON_CODES[names[code]] == code;
    }
  }

  /** The names of section 5.3.1 of RFC 5280, code by code; any other text has code 0. */
  lemma ReasonCodeTable(reason: string)
    ensures ReasonCode(reason)
         == if reason == "key_compromise" then 1 else if reason == "ca_compromise" then 2
            else if reason == "affiliation_changed" then 3 else if reason == "superseded" then 4
            else if reason == "cessation_of_operation" then 5 else if reason == "certificate_hold" then 6
            else if reason == "remove_from_crl" then 8 else if reason == "privilege_withdrawn" then 9
            else if reason == "aa_compromise" then 10 else 0
    ensures reason in REASON_CODES <==> ReasonCode(reason) != 0 || reason == "unspecified"
  {
  }

  // ---------- inserts ----------

  datatype NewCA = NewCA(name: string, serial: string, certificate: Cert)

  datatype NewCert = NewCert(
    caId: nat,
    serial: string,
    commonName: string,
    sans: seq<string>,
    profile: string,
    certificate: Cert,
    renewedFrom: string)

  predicate HasCASerial(cas: seq<CARow>, serial: string) {
    exists i :: 0 <= i < |cas| && cas[i].serial == serial
  }

  predicate HasSerial(certs: seq<CertRow>, serial: string) {
    exists i :: 0 <= i < |certs| && certs[i].serial == serial
  }

  predicate CanInsertCA(db: Db, r: NewCA) {
    !HasCASerial(db.cas, r.serial)
  }

  function InsertCA(db: Db, r: NewCA): Db {
    db.(cas := db.cas + [CARow(|db.cas| + 1, r.name, r.serial, Rfc3339.Format(r.certificate.notBefore),
                               Rfc3339.Format(r.certificate.notAfter), Some(r.certificate))])
  }

  /** The serial is UNIQUE and the issuing CA must exist. */
  predicate CanInsertCert(db: Db, r: NewCert) {
    !HasSerial(db.certs, r.serial) && 1 <= r.caId <= |db.cas|
  }

  function NewRow(id: nat, r: NewCert): CertRow {
    CertRow(id, r.caId, r.serial, r.commonName, r.sans, r.profile, Rfc3339.Format(r.certificate.notBefore),
            Rfc3339.Format(r.certificate.notAfter), r.certificate, Active, None, None, None, None, r.renewedFrom)
  }

  function InsertCert(db: Db, r: NewCert): Db {
    db.(certs := db.certs + [NewRow(|db.certs| + 1, r)])
  }

  function InsertKey(db: Db, ownerType: string, ownerId: nat, key: KeyText): Db {
    db.(keys := db.keys + [KeyRow(ownerType, ownerId, key)])
  }

  // ---------- lookups ----------

  function GetCA(db: Db, id: int): (r: Option<CARow>)
    ensures r.Some? ==> r.value in db.cas && r.value.id == id
  {
    var found := Filter(db.cas, (ca: CARow) => ca.id == id);
    if found == [] then None else Some(found[0])
  }

  function GetKey(db: Db, ownerType: string, ownerId: nat): (r: Option<KeyText>)
    ensures r.Some? <==> exists k :: k in db.keys && k.ownerType == ownerType && k.ownerId == ownerId
  {
    var found := Filter(db.keys, (k: KeyRow) => k.ownerType == ownerType && k.ownerId == ownerId);
    if found == [] then None else assert found[0] in found; Some(found[0].key)
  }

  datatype CertRecord = CertRecord(
    id: nat,
    caId: nat,
    serial: string,
    commonName: string,
    sans: seq<string>,
    profile: string,
    notBefore: nat,
    notAfter: nat,
    certificate: Cert,
    status: Status,
    revokedAt: Option<nat>,
    reason: string,
    comment: string,
    revokedBy: string,
    renewedFrom: string)

  function TextOr(column: Option<string>): string {
    match column case Some(s) => s case None => ""
  }

  function TimeOf(column: Option<string>): Option<nat> {
    match column case Some(s) => Some(Rfc3339.ReadTime(s)) case None => None
  }

  function ReadRow(row: CertRow): CertRecord {
    CertRecord(row.id, row.caId, row.serial, row.commonName, row.sans, row.profile,
               Rfc3339.ReadTime(row.notBefore), Rfc3339.ReadTime(row.notAfter), row.certificate, row.status,
               TimeOf(row.revokedAt), TextOr(row.reason), TextOr(row.comment), TextOr(row.revokedBy), row.renewedFrom)
  }

  /** The first matching key is the one used. */
  lemma GetKeyFirst(db: Db, ownerType: string, ownerId: nat, i: nat)
    requires i < |db.keys| && db.keys[i].ownerType == ownerType && db.keys[i].ownerId == ownerId
    requires forall j :: 0 <= j < i ==> db.keys[j].ownerType != ownerType || db.keys[j].ownerId != ownerId
    ensures GetKey(db, ownerType, ownerId) == Some(db.keys[i].key)
  {
    var owned := (k: KeyRow) => k.ownerType == ownerType && k.ownerId == ownerId;
    FilterNone(db.keys[..i], owned);
    assert db.keys == db.keys[..i] + ([db.keys[i]] + db.keys[i + 1..]);
    FilterConcat(db.keys[..i], [db.keys[i]] + db.keys[i + 1..], owned);
    FilterConcat([db.keys[i]], db.keys[i + 1..], owned);
    assert [db.keys[i]][..0] == [];
  }

  function FindRow(certs: seq<CertRow>, serial: string): (r: Option<CertRow>)
    ensures r.Some? <==> HasSerial(certs, serial)
    ensures r.Some? ==> r.value in certs && r.value.serial == serial
  {
    var found := Filter(certs, (c: CertRow) => c.serial == serial);
    if found == [] then
      assert forall i :: 0 <= i < |certs| && certs[i].serial == serial ==> certs[i] in found;
      None
    else
      assert found[0] in found;
      Some(found[0])
  }

  /** `GetCertBySerial`: fails where there is no row and, unless repaired, where the row's reason is NULL. */
  function GetCertBySerial(build: Build, db: Db, serial: string): Option<CertRecord> {
    match FindRow(db.certs, serial)
    case None => None
    case Some(row) => if row.reason.None? && !build.nullAsEmpty then None else Some(ReadRow(row))
  }

  /** The rows `ListCAs` returns, in id order. */
  function ListCAs(build: Build, db: Db): (r: seq<CARow>)
    ensures |r| == |db.cas|
    ensures forall i :: 0 <= i < |r| ==> r[i].id == db.cas[i].id && r[i].serial == db.cas[i].serial
                                         && r[i].certificate == if build.pemListed then db.cas[i].certificate else None
  {
    seq(|db.cas|, i requires 0 <= i < |db.cas| =>
        if build.pemListed then db.cas[i] else db.cas[i].(certificate := None))
  }

  // ---------- revocation ----------

  datatype RevokeOpts = RevokeOpts(serial: string, reason: string, comment: string, actor: string)

  function WithDefaults(opts: RevokeOpts): RevokeOpts {
    opts.(reason := if opts.reason == "" then "unspecified" else opts.reason,
          actor := if opts.actor == "" then "cli" else opts.actor)
  }

  predicate Matches(row: CertRow, opts: RevokeOpts) {
    row.serial == opts.serial && row.status == Active
  }

  function RevokedRow(row: CertRow, opts: RevokeOpts, now: string): CertRow {
    row.(status := Revoked, revokedAt := Some(now), reason := Some(WithDefaults(opts).reason),
         comment := Some(opts.comment), revokedBy := Some(WithDefaults(opts).actor))
  }

  /** The conditional UPDATE of `RevokeCert`: only an active row changes. */
  function Revoke(db: Db, opts: RevokeOpts, now: string): (r: Db)
    ensures r.cas == db.cas && r.keys == db.keys && |r.certs| == |db.certs|
    ensures forall i :: 0 <= i < |db.certs| ==>
                          r.certs[i] == if Matches(db.certs[i], opts) then RevokedRow(db.certs[i], opts, now)
                              else db.certs[i]
  {
    db.(certs := seq(|db.certs|, i requires 0 <= i < |db.certs| =>
                     if Matches(db.certs[i], opts) then RevokedRow(db.certs[i], opts, now) else db.certs[i]))
  }

  /** The table after a revocation that succeeds: the row's status, time, reason, comment and actor are set, everything
      else in it and every other row stays. */
  predicate RevokesOnly(certs: seq<CertRow>, certs': seq<CertRow>, serial: string, reason: string, comment: string,
                        actor: string, time: string) {
    && |certs'| == |certs|
    && forall i :: 0 <= i < |certs| ==>
                     if certs[i].serial == serial && certs[i].status == Active
                     then RevokedAs(certs[i], certs'[i], reason, comment, actor, time)
                     else certs'[i] == certs[i]
  }

  predicate RevokedAs(row: CertRow, row': CertRow, reason: string, comment: string, actor: string, time: string) {
    && row'.status == Revoked && row'.revokedAt == Some(time) && row'.reason == Some(reason)
    && row'.comment == Some(comment) && row'.revokedBy == Some(actor)
    && row'.id == row.id && row'.caId == row.caId && row'.serial == row.serial && row'.commonName == row.commonName
    && row'.sans == row.sans && row'.profile == row.profile && row'.notBefore == row.notBefore
    && row'.notAfter == row.notAfter && row'.certificate == row.certificate && row'.renewedFrom == row.renewedFrom
  }

  lemma RevokeColumns(db: Db, opts: RevokeOpts, now: string)
    ensures RevokesOnly(db.certs, Revoke(db, opts, now).certs, opts.serial,
                        if opts.reason == "" then "unspecified" else opts.reason, opts.comment,
                        if opts.actor == "" then "cli" else opts.actor, now)
    ensures Revoke(db, opts, now).cas == db.cas && Revoke(db, opts, now).keys == db.keys
  {
    var certs' := Revoke(db, opts, now).certs;
    forall i | 0 <= i < |db.certs| && db.certs[i].serial == opts.serial && db.certs[i].status == Active
      ensures RevokedAs(db.certs[i], certs'[i], if opts.reason == "" then "unspecified" else opts.reason, opts.comment,
                        if opts.actor == "" then "cli" else opts.actor, now)
    {
      assert certs'[i] == RevokedRow(db.certs[i], opts, now);
    }
  }

  predicate AnyMatches(db: Db, opts: RevokeOpts) {
    exists i :: 0 <= i < |db.certs| && Matches(db.certs[i], opts)
  }

  /** The text `RevokeCert` stores for a clock reading in nanoseconds. */
  function Stamp(now: nat): string {
    Rfc3339.Format(now / Rfc3339.NANOS)
  }

  // ---------- listings ----------

  function RevokedKey(row: CertRow): string {
    TextOr(row.revokedAt)
  }

  predicate RevokedBy(row: CertRow, caId: nat) {
    row.caId == caId && row.status == Revoked
  }

  function RevokedOf(caId: nat): CertRow -> bool {
    (row: CertRow) => RevokedBy(row, caId)
  }

  /** `WHERE ca_id = ? AND status = 'revoked' ORDER BY revoked_at`. */
  function SelectRevoked(certs: seq<CertRow>, caId: nat): (rows: seq<CertRow>)
    ensures forall row :: row in rows <==> row in certs && RevokedBy(row, caId)
  {
    var kept := Filter(certs, RevokedOf(caId));
    SortMembers(kept, RevokedKey);
    SortBy(kept, RevokedKey)
  }

  function ReadRevoked(row: CertRow): RevokedEntry {
    RevokedEntry(row.serial, Rfc3339.ReadTime(RevokedKey(row)), ReasonCode(TextOr(row.reason)))
  }

  function ReadAllRevoked(rows: seq<CertRow>): (r: seq<RevokedEntry>)
    ensures |r| == |rows|
    ensures forall i :: 0 <= i < |r| ==> r[i] == ReadRevoked(rows[i])
  {
    seq(|rows|, i requires 0 <= i < |rows| => ReadRevoked(rows[i]))
  }

  /** `ListRevoked`: a NULL time cannot be scanned and fails the whole listing. */
  function ListRevoked(db: Db, caId: nat): Option<seq<RevokedEntry>> {
    var rows := SelectRevoked(db.certs, caId);
    if exists row :: row in rows && row.revokedAt.None? then None else Some(ReadAllRevoked(rows))
  }

  method ScanEntry(row: CertRow) returns (e: RevokedEntry)
    requires row.revokedAt.Some?
    ensures e == ReadRevoked(row)
  {
    var code := 0;
    if row.reason.Some? && row.reason.value in REASON_CODES {
      code := REASON_CODES[row.reason.value];
    }
    NoCodeForEmpty();
    e := RevokedEntry(row.serial, Rfc3339.ReadTime(row.revokedAt.value), code);
  }

  /** The row loop of `ListRevoked`. */
  method ScanRevoked(rows: seq<CertRow>) returns (entries: Option<seq<RevokedEntry>>)
    ensures entries.None? <==> exists row :: row in rows && row.revokedAt.None?
    ensures entries.Some? ==> entries.value == ReadAllRevoked(rows)
  {
    var read: seq<RevokedEntry> := [];
    ghost var all := ReadAllRevoked(rows);
    for i := 0 to |rows|
      invariant forall j :: 0 <= j < i ==> rows[j].revokedAt.Some?
      invariant read == all[..i]
    {
      if rows[i].revokedAt.None? {
        return None;
      }
      var e := ScanEntry(rows[i]);
      assert e == all[i];
      read := read + [e];
    }
    return Some(read);
  }

  lemma NoCodeForEmpty()
    ensures "" !in REASON_CODES
  {
  }

  function ReadRows(rows: seq<CertRow>): (r: seq<CertRecord>)
    ensures |r| == |rows|
  {
    if rows == [] then [] else ReadRows(rows[..|rows| - 1]) + [ReadRow(rows[|rows| - 1])]
  }

  /** The records are those of the rows, one for each and in order. */
  lemma {:induction false} ReadRowsAt(rows: seq<CertRow>, i: nat)
    requires i < |rows|
    ensures ReadRows(rows)[i] == ReadRow(rows[i])
  {
    if i == |rows| - 1 {
    } else {
      ReadRowsAt(rows[..|rows| - 1], i);
    }
  }

  method ScanRows(rows: seq<CertRow>) returns (records: seq<CertRecord>)
    ensures records == ReadRows(rows)
  {
    records := [];
    for i := 0 to |rows|
      invariant records == ReadRows(rows[..i])
    {
      assert rows[..i + 1][..i] == rows[..i];
      records := records + [ReadRow(rows[i])];
    }
    assert rows[..|rows|] == rows;
  }

  /** The deadline text of `ListExpiring`. An instant before year 0 prints with a sign, which sorts before all digits.
      */
  function Deadline(now: nat, days: Durations.Int64): string {
    var t := now + Durations.DaysDuration(days);
    if t < 0 then "-" else Stamp(t)
  }

  function ExpiryKey(row: CertRow): string {
    row.notAfter
  }

  function SelectExpiring(certs: seq<CertRow>, deadline: string): (rows: seq<CertRow>)
    ensures forall row :: row in rows
             <==> row in certs && row.status == Active && Rfc3339.TextAtMost(row.notAfter, deadline)
  {
    var kept := Filter(certs, (row: CertRow) => row.status == Active && Rfc3339.TextAtMost(row.notAfter, deadline));
    SortMembers(kept, ExpiryKey);
    SortBy(kept, ExpiryKey)
  }

  function CountStatus(certs: seq<CertRow>, status: Status): nat {
    Count(certs, (row: CertRow) => row.status == status)
  }

  datatype Stats = Stats(totalCAs: nat, totalCerts: nat, activeCerts: nat, revokedCerts: nat, expiringSoon: nat)

  /** What `GetStats` reports when nothing writes between its queries. */
  function StatsOf(db: Db, now: nat): Stats {
    Stats(|db.cas|, |db.certs|, CountStatus(db.certs, Active), CountStatus(db.certs, Revoked),
          ExpiringSoon(db.certs, now))
  }

  const EXPIRING_DAYS: Durations.Int64 := 30

  /** The last query of `GetStats`, with the deadline read from the clock before it. */
  function ExpiringSoon(certs: seq<CertRow>, now: nat): nat {
    |SelectExpiring(certs, Deadline(now, EXPIRING_DAYS))|
  }

  // ---------- the store ----------

  class Store {
    const build: Build
    var cas: seq<CARow>
    var certs: seq<CertRow>
    var keys: seq<KeyRow>

    function Tables(): Db
      reads this
    {
      Db(cas, certs, keys)
    }

    constructor (build: Build)
      ensures this.build == build && Tables() == EMPTY
    {
      this.build := build;
      cas, certs, keys := [], [], [];
    }

    method AddCA(r: NewCA) returns (id: Option<nat>)
      modifies this
      ensures id == if CanInsertCA(old(Tables()), r) then Some(|old(cas)| + 1) else None
      ensures Tables() == if id.Some? then InsertCA(old(Tables()), r) else old(Tables())
    {
      if HasCASerial(cas, r.serial) {
        return None;
      }
      id := Some(|cas| + 1);
      cas := cas + [CARow(|cas| + 1, r.name, r.serial, Rfc3339.Format(r.certificate.notBefore),
                          Rfc3339.Format(r.certificate.notAfter), Some(r.certificate))];
    }

    method AddCert(r: NewCert) returns (id: Option<nat>)
      modifies this
      ensures id == if CanInsertCert(old(Tables()), r) then Some(|old(certs)| + 1) else None
      ensures Tables() == if id.Some? then InsertCert(old(Tables()), r) else old(Tables())
    {
      if HasSerial(certs, r.serial) || !(1 <= r.caId <= |cas|) {
        return None;
      }
      id := Some(|certs| + 1);
      certs := certs + [NewRow(|certs| + 1, r)];
    }

    method AddKey(ownerType: string, ownerId: nat, key: KeyText)
      modifies this
      ensures Tables() == InsertKey(old(Tables()), ownerType, ownerId, key)
    {
      keys := keys + [KeyRow(ownerType, ownerId, key)];
    }

    /** Fails, changing nothing, when no active row has the serial; otherwise exactly that row becomes revoked. */
    method RevokeCert(opts: RevokeOpts, now: nat) returns (ok: bool)
      modifies this`certs
      ensures ok <==> AnyMatches(old(Tables()), opts)
      ensures Tables() == Revoke(old(Tables()), opts, Stamp(now))
      ensures RevokesOnly(old(certs), certs, opts.serial, if opts.reason == "" then "unspecified" else opts.reason,
                          opts.comment, if opts.actor == "" then "cli" else opts.actor,
                          Rfc3339.Format(now / 1_000_000_000))
      ensures !ok ==> Tables() == old(Tables())
    {
      RevokeColumns(Tables(), opts, Stamp(now));
      var full := opts;
      if full.reason == "" {
        full := full.(reason := "unspecified");
      }
      if full.actor == "" {
        full := full.(actor := "cli");
      }
      var text := Stamp(now);
      var n, updated := 0, certs;
      for i := 0 to |certs|
        invariant |updated| == |certs|
        invariant forall j :: 0 <= j < i ==>
                                updated[j] == if Matches(certs[j], opts) then RevokedRow(certs[j], opts, text)
                                    else certs[j]
        invariant forall j :: i <= j < |certs| ==> updated[j] == certs[j]
        invariant n > 0 <==> exists j :: 0 <= j < i && Matches(certs[j], opts)
      {
        if certs[i].serial == full.serial && certs[i].status == Active {
          updated := updated[i := certs[i].(status := Revoked, revokedAt := Some(text), reason := Some(full.reason),
                                            comment := Some(full.comment), revokedBy := Some(full.actor))];
          n := n + 1;
        }
      }
      ghost var before := Tables();
      certs := updated;
      assert certs == Revoke(before, opts, text).certs;
      ok := n > 0;
    }

    method ListRevokedEntries(caId: nat) returns (entries: Option<seq<RevokedEntry>>)
      ensures entries == ListRevoked(Tables(), caId)
    {
      entries := ScanRevoked(SelectRevoked(certs, caId));
    }

    method ListExpiring(days: Durations.Int64, now: nat) returns (records: seq<CertRecord>)
      ensures records == ReadRows(SelectExpiring(certs, Deadline(now, days)))
    {
      records := ScanRows(SelectExpiring(certs, Deadline(now, days)));
    }

    /** The five counts with no writer between them. */
    method GetStats(now: nat) returns (st: Stats)
      ensures st == StatsOf(Tables(), now)
    {
      var active, revoked := 0, 0;
      for i := 0 to |certs|
        invariant active == CountStatus(certs[..i], Active) && revoked == CountStatus(certs[..i], Revoked)
      {
        assert certs[..i + 1][..i] == certs[..i];
        if certs[i].status == Active {
          active := active + 1;
        } else if certs[i].status == Revoked {
          revoked := revoked + 1;
        }
      }
      assert certs[..|certs|] == certs;
      st := Stats(|cas|, |certs|, active, revoked, ExpiringSoon(certs, now));
    }
  }

  // ---------- what the listings mean ----------

  /** The row's text columns print its certificate's times. */
  predicate TimesStored(row: CertRow) {
    && row.certificate.notBefore < Rfc3339.END_OF_TEXT && row.certificate.notAfter < Rfc3339.END_OF_TEXT
    && row.notBefore == Rfc3339.Format(row.certificate.notBefore)
    && row.notAfter == Rfc3339.Format(row.certificate.notAfter)
  }

  /** A revoked row's time is the text of some instant with a four-digit year. */
  predicate StampStored(row: CertRow, stamp: nat) {
    stamp < Rfc3339.END_OF_TEXT && row.revokedAt == Some(Rfc3339.Format(stamp))
  }

  /** Comparing text against the deadline is comparing instants against it, nanoseconds and all, as long as the deadline
      is not after the year 9999; one before the year 0 is before every stored time. */
  lemma DeadlineMeaning(row: CertRow, now: nat, days: Durations.Int64)
    requires TimesStored(row) && now + Durations.DaysDuration(days) < Rfc3339.END_OF_TEXT * Rfc3339.NANOS
    ensures Rfc3339.TextAtMost(row.notAfter, Deadline(now, days))
       <==> row.certificate.notAfter * Rfc3339.NANOS <= now + Durations.DaysDuration(days)
  {
    if now + Durations.DaysDuration(days) >= 0 {
      Rfc3339.TextOrderIsTimeOrder(row.certificate.notAfter, (now + Durations.DaysDuration(days)) / Rfc3339.NANOS);
    } else {
      DigitAfterSign(row.certificate.notAfter);
    }
  }

  /** The listing is exactly the active certificates that end by `now + days`, the days counted without overflow. */
  ghost predicate ListsExactly(certs: seq<CertRow>, now: nat, days: Durations.Int64) {
    forall row :: row in SelectExpiring(certs, Deadline(now, days)) <==>
                    row in certs && row.status == Active && EndsBy(row, now + days * Durations.DAY)
  }

  predicate EndsBy(row: CertRow, instant: int) {
    row.certificate.notAfter * Rfc3339.NANOS <= instant
  }

  /** For any table and any day count: the listing is exact if and only if no active certificate ends between the
      deadline as computed in 64 bits and the deadline meant. */
  lemma ListsExactlyIff(certs: seq<CertRow>, now: nat, days: Durations.Int64)
    requires forall row :: row in certs ==> TimesStored(row)
    requires now + Durations.DaysDuration(days) < Rfc3339.END_OF_TEXT * Rfc3339.NANOS
    ensures ListsExactly(certs, now, days)
       <==> forall row :: row in certs && row.status == Active ==>
                            EndsBy(row, now + Durations.DaysDuration(days)) == EndsBy(row, now + days * Durations.DAY)
  {
    var rows := SelectExpiring(certs, Deadline(now, days));
    forall row | row in certs && row.status == Active
      ensures row in rows <==> EndsBy(row, now + Durations.DaysDuration(days))
    {
      DeadlineMeaning(row, now, days);
    }
  }

  /** Whatever the deadline, the listing is in order of expiry. */
  lemma ExpiringInOrder(certs: seq<CertRow>, deadline: string)
    requires forall row :: row in certs ==> TimesStored(row)
    ensures var rows := SelectExpiring(certs, deadline);
      forall i, j :: 0 <= i < j < |rows| ==> rows[i].certificate.notAfter <= rows[j].certificate.notAfter
  {
    var rows := SelectExpiring(certs, deadline);
    SortOrders(Filter(certs, (row: CertRow) => row.status == Active && Rfc3339.TextAtMost(row.notAfter, deadline)),
        ExpiryKey);
    forall i, j | 0 <= i < j < |rows|
      ensures rows[i].certificate.notAfter <= rows[j].certificate.notAfter
    {
      assert rows[i] in certs && rows[j] in certs;
      assert Rfc3339.TextAtMost(ExpiryKey(rows[i]), ExpiryKey(rows[j]));
      Rfc3339.TextOrderIsTimeOrder(rows[i].certificate.notAfter, rows[j].certificate.notAfter);
    }
  }

  /** From 106752 days on, as many again, the deadline has wrapped into the past: no certificate still valid is listed,
      however soon it ends. */
  lemma ExpiringMissesAllAfterOverflow(certs: seq<CertRow>, now: nat, days: Durations.Int64, row: CertRow)
    requires Durations.MAX_DAYS < days <= 2 * Durations.MAX_DAYS + 1 && Encodable(now)
    requires row in certs && TimesStored(row) && now <= row.certificate.notAfter * Rfc3339.NANOS
    ensures row !in SelectExpiring(certs, Deadline(now, days))
  {
    Durations.DaysWrapNegative(days);
    DeadlineMeaning(row, now, days);
  }

  /** A deadline in the years 10000 to 19999 is printed with five digits, and every certificate that ends in the year
      2000 or later is missed. */
  lemma ExpiringMissesAfterYear9999(certs: seq<CertRow>, now: nat, days: Durations.Int64, row: CertRow)
    requires now + Durations.DaysDuration(days) >= Rfc3339.END_OF_TEXT * Rfc3339.NANOS
    requires (now + Durations.DaysDuration(days)) / Rfc3339.NANOS / Rfc3339.DAY < Rfc3339.YearStart(20000)
    requires row in certs && TimesStored(row) && row.certificate.notAfter / Rfc3339.DAY >= Rfc3339.YearStart(2000)
    ensures row !in SelectExpiring(certs, Deadline(now, days))
  {
    var late := (now + Durations.DaysDuration(days)) / Rfc3339.NANOS;
    Rfc3339.TextOrderEndsAtYear10000(row.certificate.notAfter, late);
    Rfc3339.TextLessAsymmetric(Rfc3339.Format(late), row.notAfter);
  }

  lemma DigitAfterSign(t: nat)
    requires t < Rfc3339.END_OF_TEXT
    ensures !Rfc3339.TextAtMost(Rfc3339.Format(t), "-")
  {
    Rfc3339.YearHasFourDigits(t / Rfc3339.DAY);
    Rfc3339.FirstDigit(Rfc3339.DateOf(t / Rfc3339.DAY).year);
    Rfc3339.YearTextHead(t, Rfc3339.DateOf(t / Rfc3339.DAY).year);
  }

  /** `ORDER BY revoked_at` puts the entries of a revocation list in order of time. */
  lemma RevokedInTimeOrder(certs: seq<CertRow>, caId: nat)
    requires forall row :: row in certs && row.status == Revoked ==> exists t :: StampStored(row, t)
    ensures var rows := SelectRevoked(certs, caId);
      forall i, j :: 0 <= i < j < |rows| ==> ReadRevoked(rows[i]).revokedAt <= ReadRevoked(rows[j]).revokedAt
  {
    var rows := SelectRevoked(certs, caId);
    SortOrders(Filter(certs, RevokedOf(caId)), RevokedKey);
    forall i, j | 0 <= i < j < |rows|
      ensures ReadRevoked(rows[i]).revokedAt <= ReadRevoked(rows[j]).revokedAt
    {
      assert rows[i] in certs && rows[j] in certs;
      assert Rfc3339.TextAtMost(RevokedKey(rows[i]), RevokedKey(rows[j]));
      var a :| StampStored(rows[i], a);
      var b :| StampStored(rows[j], b);
      Rfc3339.TextOrderIsTimeOrder(a, b);
      Rfc3339.ParseRoundTrip(a);
      Rfc3339.ParseRoundTrip(b);
    }
  }
}
