/** Issuing certificates and revocation lists. A certificate is a record; signing keeps its fields, rounds its
    times down to whole seconds and writes IPv4 addresses in 4 octets. */
module Authority {
  import opened Prelude
  import opened Profiles
  import Durations
  import Rfc3339
  import SerialText

  type Serial = n: nat | n < SerialText.SERIAL_LIMIT

  /** What one issuance takes from the random source: the serial and a fresh key pair's public half. */
  datatype Draw = Draw(serial: Serial, publicKey: Octets)

  /** For statements that draw nothing. */
  const NO_DRAW := Draw(0, [])

  datatype Cert = Cert(
    serial: nat,
    commonName: string,
    dnsNames: seq<string>,
    ips: seq<Ip>,
    notBefore: nat,
    notAfter: nat,
    publicKey: Octets)

  datatype Csr = Csr(
    commonName: string,
    dnsNames: seq<string>,
    ips: seq<Ip>,
    publicKey: Octets,
    signatureValid: bool)

  datatype IssueOptions = IssueOptions(
    commonName: string,
    dnsNames: seq<string>,
    ips: seq<Ip>,
    profile: Option<Profile>,
    csr: Option<Csr>)

  datatype IssueError = ProfileRequired | InvalidCsrSignature | PolicyRefused | TimeNotEncodable

  // ---------- signing ----------

  /** An instant in nanoseconds can be written into a certificate if its year has at most four digits. */
  predicate Encodable(t: int) {
    0 <= t < Rfc3339.END_OF_TEXT * Rfc3339.NANOS
  }

  /** `x509.CreateCertificate` followed by parsing the result. */
  function Sign(draw: Draw, publicKey: Octets, commonName: string, dnsNames: seq<string>, ips: seq<Ip>,
          period: (int, int))
    : (r: Result<Cert, IssueError>)
    ensures r.Ok? <==> Encodable(period.0) && Encodable(period.1)
    ensures r.Ok? ==> r.value.notBefore < Rfc3339.END_OF_TEXT && r.value.notAfter < Rfc3339.END_OF_TEXT
  {
    if !Encodable(period.0) || !Encodable(period.1) then Err(TimeNotEncodable)
    else
      Ok(Cert(draw.serial, commonName, dnsNames, EncodedAll(ips),
              period.0 / Rfc3339.NANOS, period.1 / Rfc3339.NANOS, publicKey))
  }

  // ---------- certificate authorities ----------

  datatype CAKind = RootCA | IntermediateCA

  const ROOT_DAYS: Durations.Int64 := 3650
  const INTERMEDIATE_DAYS: Durations.Int64 := 1825

  function CADays(kind: CAKind, days: Durations.Int64): Durations.Int64 {
    if days > 0 then days else if kind.RootCA? then ROOT_DAYS else INTERMEDIATE_DAYS
  }

  /** `InitRootCA` and `InitIntermediateCA`, which differ in the fallback validity. */
  function InitCA(kind: CAKind, name: string, days: Durations.Int64, draw: Draw, now: int): Result<Cert, IssueError> {
    Sign(draw, draw.publicKey, name, [], [], (now, now + Durations.DaysDuration(CADays(kind, days))))
  }

  /** The instant that ends a period of whole days, in nanoseconds: the days as 64 bits hold them. */
  function DaysLater(now: int, days: Durations.Int64): int {
    now + Durations.Wrap64(days * 86_400_000_000_000)
  }

  /** What making a CA gives: without a positive day count a root lives 3650 days and an intermediate 1825. */
  lemma InitExactly(kind: CAKind, name: string, days: Durations.Int64, draw: Draw, now: nat)
    ensures var ca, end := InitCA(kind, name, days, draw, now),
                           DaysLater(now, if days > 0 then days else if kind.RootCA? then 3650 else 1825);
      && (ca.Ok? <==> Encodable(now) && Encodable(end))
      && (ca.Ok? ==>
            ca.value == Cert(draw.serial, name, [], [], now / 1_000_000_000, end / 1_000_000_000, draw.publicKey))
  {
    Durations.DaysBits(CADays(kind, days));
  }

  /** A CA lives exactly the requested days, in its encoded whole seconds, if and only if the day count is at most
      106751 (a count of zero or less means the fallback). */
  lemma CALifetime(kind: CAKind, name: string, days: Durations.Int64, draw: Draw, now: nat)
    requires InitCA(kind, name, days, draw, now).Ok?
    ensures var ca := InitCA(kind, name, days, draw, now).value;
      ca.notAfter == ca.notBefore + CADays(kind, days) * Rfc3339.DAY <==> days <= Durations.MAX_DAYS
  {
  }

  // ---------- end-entity certificates ----------

  /** With a CSR, an empty common name or list is taken from it; the public key always is. */
  function TakeFromCsr(opts: IssueOptions): IssueOptions {
    match opts.csr
    case None => opts
    case Some(csr) => opts.(
      commonName := if opts.commonName == "" then csr.commonName else opts.commonName,
      dnsNames := if opts.dnsNames == [] then csr.dnsNames else opts.dnsNames,
      ips := if opts.ips == [] then csr.ips else opts.ips)
  }

  predicate Admits(net: Net, p: Profile, opts: IssueOptions) {
    SansAllowed(net, p, opts.dnsNames, opts.ips) && SubjectAllowed(p, opts.commonName)
  }

  function Issue(net: Net, opts: IssueOptions, draw: Draw, now: int): Result<Cert, IssueError> {
    if opts.profile.None? then Err(ProfileRequired)
    else if opts.csr.Some? && !opts.csr.value.signatureValid then Err(InvalidCsrSignature)
    else
      var full := TakeFromCsr(opts);
      var key := if opts.csr.Some? then opts.csr.value.publicKey else draw.publicKey;
      if !Admits(net, opts.profile.value, full) then Err(PolicyRefused)
      else Sign(draw, key, full.commonName, full.dnsNames, full.ips, Validity(opts.profile.value, now))
  }

  /** What the names and the key of a certificate come from: each name or list that the options leave empty, and always
      the key, from the CSR if there is one. */
  function NameFrom(opts: IssueOptions): string {
    if opts.commonName == "" && opts.csr.Some? then opts.csr.value.commonName else opts.commonName
  }

  function DnsFrom(opts: IssueOptions): seq<string> {
    if opts.dnsNames == [] && opts.csr.Some? then opts.csr.value.dnsNames else opts.dnsNames
  }

  function IpsFrom(opts: IssueOptions): seq<Ip> {
    if opts.ips == [] && opts.csr.Some? then opts.csr.value.ips else opts.ips
  }

  /** The certificate carries those names, that key, the drawn serial and the profile's period from the reading on. */
  predicate Certifies(cert: Cert, serial: nat, commonName: string, dnsNames: seq<string>, ips: seq<Ip>, key: Octets,
                      days: Durations.Int64, now: nat)
    requires DaysLater(now, days) >= 0
  {
    && cert.serial == serial && cert.commonName == commonName && cert.dnsNames == dnsNames && cert.publicKey == key
    && |cert.ips| == |ips| && (forall i :: 0 <= i < |ips| ==> cert.ips[i] == Encoded(ips[i]))
    && cert.notBefore == now / 1_000_000_000 && cert.notAfter == DaysLater(now, days) / 1_000_000_000
  }

  /** Everything an issuance depends on, spelled out: which requests are signed, what is signed, and which error it
      is. */
  ghost predicate IssuedAs(net: Net, opts: IssueOptions, draw: Draw, now: nat, r: Result<Cert, IssueError>) {
    if opts.profile.None? then r == Err(ProfileRequired)
    else if opts.csr.Some? && !opts.csr.value.signatureValid then r == Err(InvalidCsrSignature)
    else if !Permitted(net, opts.profile.value, NameFrom(opts), DnsFrom(opts), IpsFrom(opts))
        then r == Err(PolicyRefused)
    else if !Encodable(now) || !Encodable(DaysLater(now, opts.profile.value.validityDays))
        then r == Err(TimeNotEncodable)
    else
      && r.Ok?
      && Certifies(r.value, draw.serial, NameFrom(opts), DnsFrom(opts), IpsFrom(opts),
                   if opts.csr.Some? then opts.csr.value.publicKey else draw.publicKey,
                   opts.profile.value.validityDays, now)
  }

  lemma IssueExactly(net: Net, opts: IssueOptions, draw: Draw, now: nat)
    ensures IssuedAs(net, opts, draw, now, Issue(net, opts, draw, now))
  {
    if opts.profile.Some? {
      PermittedIff(net, opts.profile.value, NameFrom(opts), DnsFrom(opts), IpsFrom(opts));
      Durations.DaysBits(opts.profile.value.validityDays);
    }
  }

  /** What is signed with a CSR has the CSR's key, whose possession the CSR's signature shows, and the CSR's names where
      the request gives none; without a CSR it has the fresh key. */
  lemma CsrCertified(net: Net, opts: IssueOptions, draw: Draw, now: nat)
    requires Issue(net, opts, draw, now).Ok?
    ensures var cert := Issue(net, opts, draw, now).value;
      && (opts.csr.None? ==> cert.publicKey == draw.publicKey && cert.commonName == opts.commonName
                             && cert.dnsNames == opts.dnsNames && |cert.ips| == |opts.ips|)
      && (opts.csr.Some? ==>
            var csr := opts.csr.value;
            && csr.signatureValid && cert.publicKey == csr.publicKey
            && cert.commonName == (if opts.commonName == "" then csr.commonName else opts.commonName)
            && cert.dnsNames == (if opts.dnsNames == [] then csr.dnsNames else opts.dnsNames)
            && |cert.ips| == (if opts.ips == [] then |csr.ips| else |opts.ips|)
            && forall i :: 0 <= i < |cert.ips| ==>
                             cert.ips[i] == Encoded(if opts.ips == [] then csr.ips[i] else opts.ips[i]))
  {
    IssueExactly(net, opts, draw, now);
  }

  /** `IssueCert`: the defaults from the CSR, then the policy gate, then the signature. */
  method IssueCert(net: Net, opts: IssueOptions, draw: Draw, now: nat) returns (r: Result<Cert, IssueError>)
    ensures r == Issue(net, opts, draw, now)
    ensures IssuedAs(net, opts, draw, now, r)
  {
    IssueExactly(net, opts, draw, now);
    if opts.profile.None? {
      return Err(ProfileRequired);
    }
    var commonName, dnsNames, ips, publicKey := opts.commonName, opts.dnsNames, opts.ips, draw.publicKey;
    if opts.csr.Some? {
      var csr := opts.csr.value;
      if !csr.signatureValid {
        return Err(InvalidCsrSignature);
      }
      if commonName == "" {
        commonName := csr.commonName;
      }
      if |dnsNames| == 0 {
        dnsNames := csr.dnsNames;
      }
      if |ips| == 0 {
        ips := csr.ips;
      }
      publicKey := csr.publicKey;
    }
    var err := ValidateSANs(net, opts.profile.value, dnsNames, ips);
    if err.Some? {
      return Err(PolicyRefused);
    }
    err := ValidateSubject(opts.profile.value, commonName);
    if err.Some? {
      return Err(PolicyRefused);
    }
    r := Sign(draw, publicKey, commonName, dnsNames, ips, Validity(opts.profile.value, now));
  }

  /** A certificate obeys a profile's rules, read back from its encoding. */
  predicate Obeys(net: Net, p: Profile, cert: Cert) {
    SansAllowed(net, p, cert.dnsNames, cert.ips) && SubjectAllowed(p, cert.commonName)
  }

  /** Nothing outside the profile is ever signed, whichever way the names reached the signer. */
  lemma IssuedObeysProfile(net: Net, opts: IssueOptions, draw: Draw, now: int)
    requires Issue(net, opts, draw, now).Ok?
    ensures opts.profile.Some? && Obeys(net, opts.profile.value, Issue(net, opts, draw, now).value)
    ensures Issue(net, opts, draw, now).value.serial == draw.serial
  {
    SansAllowedAfterEncoding(net, opts.profile.value, TakeFromCsr(opts).dnsNames, TakeFromCsr(opts).ips);
  }

  function RenewalOptions(cert: Cert, commonName: string, p: Profile): IssueOptions {
    IssueOptions(commonName, cert.dnsNames, cert.ips, Some(p), None)
  }

  /** Renewal of a certificate that obeys its profile is never refused by policy, and the renewed certificate carries
      the same names and addresses; only an unencodable time can stop it. */
  lemma RenewalNeverRefused(net: Net, p: Profile, cert: Cert, draw: Draw, now: int)
    requires Obeys(net, p, cert)
    ensures var r := Issue(net, RenewalOptions(cert, cert.commonName, p), draw, now);
      && (r.Ok? <==> Encodable(now) && Encodable(now + Durations.DaysDuration(p.validityDays)))
      && (r.Ok? ==> r.value.dnsNames == cert.dnsNames && r.value.commonName == cert.commonName
                    && EncodedAll(r.value.ips) == EncodedAll(cert.ips) && Obeys(net, p, r.value))
  {
    var opts := RenewalOptions(cert, cert.commonName, p);
    if Issue(net, opts, draw, now).Ok? {
      IssuedObeysProfile(net, opts, draw, now);
    }
  }

  /** An issued certificate lives exactly its profile's days if and only if that count is at most 106751. */
  lemma IssuedLifetime(net: Net, opts: IssueOptions, draw: Draw, now: nat)
    requires Issue(net, opts, draw, now).Ok? && 0 <= opts.profile.value.validityDays
    ensures var cert, days := Issue(net, opts, draw, now).value, opts.profile.value.validityDays;
      cert.notAfter == cert.notBefore + days * Rfc3339.DAY <==> days <= Durations.MAX_DAYS
  {
  }

  // ---------- revocation lists ----------

  /** A revoked row as handed to the CRL builder: serial in hexadecimal, time in seconds. */
  datatype RevokedEntry = RevokedEntry(serialHex: string, revokedAt: nat, reasonCode: nat)

  /** An entry as signed; reason 0 stands for the absent extension. */
  datatype CrlEntry = CrlEntry(serial: int, revokedAt: nat, reasonCode: nat)

  /** A signed list. Number and times are in whole seconds, the number counted from 1970. */
  datatype Crl = Crl(number: int, thisUpdate: nat, nextUpdate: nat, entries: seq<CrlEntry>)

  const DEFAULT_CRL_HOURS: Durations.Int64 := 24

  function HoursOr(hours: Durations.Int64): Durations.Int64 {
    if hours <= 0 then DEFAULT_CRL_HOURS else hours
  }

  /** Text that does not parse leaves the new number at zero; no stored serial is such text. */
  function SerialNumber(hex: string): int {
    match SerialText.SetString16(hex) case Some(n) => n case None => 0
  }

  function SignedEntry(e: RevokedEntry): CrlEntry {
    CrlEntry(SerialNumber(e.serialHex), e.revokedAt, e.reasonCode)
  }

  function SignedEntries(entries: seq<RevokedEntry>): (r: seq<CrlEntry>)
    ensures |r| == |entries|
    ensures forall i :: 0 <= i < |r| ==> r[i] == SignedEntry(entries[i])
  {
    seq(|entries|, i requires 0 <= i < |entries| => SignedEntry(entries[i]))
  }

  /** `x509.CreateRevocationList` refuses a list that would end before it starts. */
  function SignCrl(entries: seq<RevokedEntry>, hours: Durations.Int64, now: nat): Option<Crl> {
    var next := now + Durations.HoursDuration(HoursOr(hours));
    if next < now || !Encodable(now) || !Encodable(next) then None
    else
      var start := now / Rfc3339.NANOS;
      Some(Crl(start - Rfc3339.UNIX_EPOCH, start, next / Rfc3339.NANOS, SignedEntries(entries)))
  }

  /** The fallback may be taken by the caller or by the signer. */
  lemma SameHours(entries: seq<RevokedEntry>, hours: Durations.Int64, now: nat)
    ensures SignCrl(entries, if hours <= 0 then DEFAULT_CRL_HOURS else hours, now) == SignCrl(entries, hours, now)
  {
  }

  /** The instant that ends a period of whole hours, in nanoseconds: the hours as 64 bits hold them. */
  function HoursLater(now: int, hours: Durations.Int64): int {
    now + Durations.Wrap64(hours * 3_600_000_000_000)
  }

  /** The list as it must read: numbered and dated by the clock, in seconds, ending after the configured hours or 24,
      with one entry for each revoked row in order. */
  ghost predicate ListReads(crl: Crl, entries: seq<RevokedEntry>, hours: Durations.Int64, now: nat) {
    && crl.number == now / 1_000_000_000 - 719_528 * 86_400 && crl.thisUpdate == now / 1_000_000_000
    && crl.nextUpdate == HoursLater(now, if hours <= 0 then 24 else hours) / 1_000_000_000
    && |crl.entries| == |entries|
    && forall i :: 0 <= i < |entries| ==> EntryReads(crl.entries[i], entries[i])
  }

  ghost predicate EntryReads(signed: CrlEntry, e: RevokedEntry) {
    && signed.revokedAt == e.revokedAt && signed.reasonCode == e.reasonCode
    && forall n: nat :: e.serialHex == SerialText.HexUpper(n) ==> signed.serial == n
  }

  lemma EntryRead(e: RevokedEntry)
    ensures EntryReads(SignedEntry(e), e)
  {
    forall n: nat | e.serialHex == SerialText.HexUpper(n)
      ensures SignedEntry(e).serial == n
    {
      SerialText.RoundTrip(n);
    }
  }

  lemma SignedReads(entries: seq<RevokedEntry>, hours: Durations.Int64, now: nat)
    requires SignCrl(entries, hours, now).Some?
    ensures ListReads(SignCrl(entries, hours, now).value, entries, hours, now)
  {
    forall i | 0 <= i < |entries|
      ensures EntryReads(SignedEntries(entries)[i], entries[i])
    {
      EntryRead(entries[i]);
    }
  }

  method GenerateCRL(entries: seq<RevokedEntry>, hours: Durations.Int64, now: nat) returns (crl: Option<Crl>)
    ensures crl == SignCrl(entries, hours, now)
    ensures crl.Some? ==> ListReads(crl.value, entries, hours, now)
  {
    if SignCrl(entries, hours, now).Some? {
      SignedReads(entries, hours, now);
    }
    var validity := hours;
    if validity <= 0 {
      validity := DEFAULT_CRL_HOURS;
    }
    var revoked: seq<CrlEntry> := [];
    for i := 0 to |entries|
      invariant revoked == SignedEntries(entries)[..i]
    {
      var e := entries[i];
      var parsed := SerialText.SetString16(e.serialHex);
      var serial := if parsed.Some? then parsed.value else 0;
      var entry := CrlEntry(serial, e.revokedAt, 0);
      if e.reasonCode > 0 {
        entry := entry.(reasonCode := e.reasonCode);
      }
      revoked := revoked + [entry];
    }
    assert revoked == SignedEntries(entries);
    var next := now + Durations.HoursDuration(validity);
    if next < now || !Encodable(now) || !Encodable(next) {
      return None;
    }
    crl := Some(Crl(now / Rfc3339.NANOS - Rfc3339.UNIX_EPOCH, now / Rfc3339.NANOS, next / Rfc3339.NANOS, revoked));
  }

  /** The nanoseconds of an hour count as 64 bits hold them, read as an unsigned number. */
  function HoursBits(hours: Durations.Int64): nat {
    HoursOr(hours) * Durations.HOUR % Durations.TWO64
  }

  /** For every configured number of hours: no list is signed exactly when the product has its sign bit set or an end of
      the window has no four-digit year. */
  lemma CrlRefusedIff(entries: seq<RevokedEntry>, hours: Durations.Int64, now: nat)
    ensures SignCrl(entries, hours, now).None?
       <==> HoursBits(hours) >= Durations.TWO63 || !Encodable(now) || !Encodable(now + HoursBits(hours))
  {
    Durations.WrapBits(HoursOr(hours) * Durations.HOUR);
  }

  /** A list that is signed is valid for exactly the configured hours if and only if they are at most 2562047. */
  lemma CrlWindow(entries: seq<RevokedEntry>, hours: Durations.Int64, now: nat)
    requires SignCrl(entries, hours, now).Some?
    ensures var crl := SignCrl(entries, hours, now).value;
      crl.nextUpdate == crl.thisUpdate + HoursOr(hours) * 3600 <==> HoursOr(hours) <= Durations.MAX_HOURS
  {
  }

  /** A list ends after it starts when its wrapped duration is at least a second, and so for every exact window. */
  lemma CrlEndsLater(entries: seq<RevokedEntry>, hours: Durations.Int64, now: nat)
    requires SignCrl(entries, hours, now).Some?
    ensures var crl := SignCrl(entries, hours, now).value;
      crl.thisUpdate < crl.nextUpdate <==> now % Rfc3339.NANOS + HoursBits(hours) >= Rfc3339.NANOS
    ensures HoursOr(hours) <= Durations.MAX_HOURS ==>
             HoursBits(hours) == HoursOr(hours) * Durations.HOUR >= Rfc3339.NANOS
  {
    Durations.WrapBits(HoursOr(hours) * Durations.HOUR);
    var seconds, rest := now / Rfc3339.NANOS, now % Rfc3339.NANOS;
    assert now + HoursBits(hours) == Rfc3339.NANOS * seconds + (rest + HoursBits(hours));
  }

  /** 2^51 hours wrap to nothing at all: the list is signed, and ends in the very second it starts. */
  lemma CrlEmptyWindow(entries: seq<RevokedEntry>, now: nat)
    requires Encodable(now)
    ensures var crl := SignCrl(entries, 0x8_0000_0000_0000, now);
      crl.Some? && crl.value.nextUpdate == crl.value.thisUpdate
  {
    assert 0x8_0000_0000_0000 * Durations.HOUR == Durations.TWO64 * 439_453_125;
    assert Durations.HoursDuration(0x8_0000_0000_0000) == 0;
  }

  /** From 2562048 hours on, as many again, the duration wraps negative and no list is signed at all. */
  lemma CrlRefusedOnOverflow(entries: seq<RevokedEntry>, hours: Durations.Int64, now: nat)
    requires Durations.MAX_HOURS < hours <= 2 * Durations.MAX_HOURS + 1
    ensures SignCrl(entries, hours, now).None?
  {
  }
}
