/** Issuance profiles: which names, addresses and subjects a profile admits, and for how long. */
module Profiles {
  import opened Prelude
  import Durations

  type Octets = seq<bv8>

  /** A `net.IP` as the parsers produce it: 4 octets, or 16 octets that may hold an IPv4-mapped address. */
  type Ip = octets: Octets | |octets| == 4 || |octets| == 16 witness [0, 0, 0, 0]

  /** An address range; the network address and its mask each take 4 or 16 octets. */
  datatype Network = Network(ip: Ip, mask: Ip)

  /** The parts of Go's `net` package that this model leaves as parameters. */
  datatype Net = Net(
    parseIP: string -> Option<Ip>,
    parseCIDR: string -> Option<Network>,
    longText: Ip -> string)

  datatype Profile = Profile(
    name: string,
    validityDays: Durations.Int64,
    allowedDNSSuffixes: seq<string>,
    allowedIPs: seq<string>,
    allowedSubjectPrefixes: seq<string>)

  datatype PolicyError =
    | DnsNotAllowed(dns: string)
    | IpNotAllowed(ip: Ip)
    | SubjectNotAllowed(commonName: string)

  // ---------- addresses ----------

  const MAPPED_PREFIX: Octets := [0, 0, 0, 0, 0, 0, 0, 0, 0, 0, 0xff, 0xff]

  /** `ip.To4()`. */
  function To4(ip: Ip): (r: Option<Ip>)
    ensures r.Some? ==> |r.value| == 4
  {
    if |ip| == 4 then Some(ip)
    else if ip[..12] == MAPPED_PREFIX then Some(ip[12..])
    else None
  }

  /** The form an address has after it was written into a certificate and parsed back. */
  function Encoded(ip: Ip): (r: Ip)
    ensures To4(r) == To4(ip)
    ensures To4(ip).None? ==> r == ip
    ensures |ip| == 4 ==> r == ip
  {
    match To4(ip) case Some(short) => short case None => ip
  }

  function EncodedAll(ips: seq<Ip>): (r: seq<Ip>)
    ensures |r| == |ips|
    ensures forall i :: 0 <= i < |ips| ==> r[i] == Encoded(ips[i])
  {
    seq(|ips|, i requires 0 <= i < |ips| => Encoded(ips[i]))
  }

  lemma EncodedTwice(ips: seq<Ip>)
    ensures EncodedAll(EncodedAll(ips)) == EncodedAll(ips)
  {
  }

  function Decimal(n: nat): string {
    if n < 10 then ['0' + n as char] else Decimal(n / 10) + ['0' + (n % 10) as char]
  }

  /** `ip.String()`; the text of a true IPv6 address stays abstract. */
  function IpText(net: Net, ip: Ip): string {
    match To4(ip)
    case Some(v4) => Decimal(v4[0] as nat) + "." + Decimal(v4[1] as nat) + "." + Decimal(v4[2] as nat) + "."
        + Decimal(v4[3] as nat)
    case None => net.longText(ip)
  }

  /** `networkNumberAndMask`: the network in its short form, with the mask cut to the same width. */
  function NetworkAndMask(network: Network): (r: Option<Network>)
    ensures r.Some? ==> |r.value.ip| == |r.value.mask|
  {
    var ip := Encoded(network.ip);
    if |network.mask| == 4 then
      if |ip| == 4 then Some(Network(ip, network.mask)) else None
    else
      if |ip| == 4 then Some(Network(ip, network.mask[12..])) else Some(Network(ip, network.mask))
  }

  /** `cidr.Contains(ip)`. */
  predicate Contains(network: Network, ip: Ip) {
    Covers(network, Encoded(ip))
  }

  predicate SameUnderMask(x: bv8, y: bv8, mask: bv8) {
    x & mask == y & mask
  }

  predicate Covers(network: Network, short: Ip) {
    match NetworkAndMask(network)
    case None => false
    case Some(n) =>
      && |short| == |n.ip|
      && forall i :: 0 <= i < |short| ==> SameUnderMask(n.ip[i], short[i], n.mask[i])
  }

  predicate MatchesEntry(net: Net, ip: Ip, entry: string) {
    || IpText(net, ip) == entry
    || (net.parseCIDR(entry).Some? && Contains(net.parseCIDR(entry).value, ip))
  }

  // ---------- what a profile admits ----------

  predicate HasSuffix(s: string, suffix: string) {
    |suffix| <= |s| && s[|s| - |suffix|..] == suffix
  }

  predicate HasPrefix(s: string, prefix: string) {
    prefix <= s
  }

  predicate DnsAllowed(p: Profile, dns: string) {
    p.allowedDNSSuffixes == [] || exists suffix :: suffix in p.allowedDNSSuffixes && HasSuffix(dns, suffix)
  }

  predicate IpAllowed(net: Net, p: Profile, ip: Ip) {
    p.allowedIPs == [] || exists entry :: entry in p.allowedIPs && MatchesEntry(net, ip, entry)
  }

  predicate SansAllowed(net: Net, p: Profile, dnsNames: seq<string>, ips: seq<Ip>) {
    && (forall dns :: dns in dnsNames ==> DnsAllowed(p, dns))
    && (forall ip :: ip in ips ==> IpAllowed(net, p, ip))
  }

  predicate SubjectAllowed(p: Profile, commonName: string) {
    p.allowedSubjectPrefixes == []
    || exists prefix :: prefix in p.allowedSubjectPrefixes && HasPrefix(commonName, prefix)
  }

  /** The rules do not see whether an IPv4 address takes 4 or 16 octets. */
  lemma IpRuleIgnoresWidth(net: Net, p: Profile, ip: Ip, other: Ip)
    requires To4(ip) == To4(other) && (To4(ip).Some? || ip == other)
    ensures IpAllowed(net, p, ip) <==> IpAllowed(net, p, other)
  {
  }

  /** What was admitted before signing is admitted again as read back from the certificate, and conversely. */
  lemma SansAllowedAfterEncoding(net: Net, p: Profile, dnsNames: seq<string>, ips: seq<Ip>)
    ensures SansAllowed(net, p, dnsNames, EncodedAll(ips)) <==> SansAllowed(net, p, dnsNames, ips)
  {
    var encoded := EncodedAll(ips);
    forall i | 0 <= i < |ips|
      ensures IpAllowed(net, p, encoded[i]) <==> IpAllowed(net, p, ips[i])
    {
      IpRuleIgnoresWidth(net, p, encoded[i], ips[i]);
    }
    assert forall ip :: ip in ips ==> exists i :: 0 <= i < |ips| && ips[i] == ip;
    assert forall ip :: ip in encoded ==> exists i :: 0 <= i < |encoded| && encoded[i] == ip;
  }

  // ---------- what the rules mean ----------

  /** The two octets agree in every bit that the mask sets. */
  predicate AgreeInMask(x: bv8, y: bv8, mask: bv8) {
    && (mask & 0x80 != 0 ==> x & 0x80 == y & 0x80) && (mask & 0x40 != 0 ==> x & 0x40 == y & 0x40)
    && (mask & 0x20 != 0 ==> x & 0x20 == y & 0x20) && (mask & 0x10 != 0 ==> x & 0x10 == y & 0x10)
    && (mask & 0x08 != 0 ==> x & 0x08 == y & 0x08) && (mask & 0x04 != 0 ==> x & 0x04 == y & 0x04)
    && (mask & 0x02 != 0 ==> x & 0x02 == y & 0x02) && (mask & 0x01 != 0 ==> x & 0x01 == y & 0x01)
  }

  lemma MaskedEqualIff(x: bv8, y: bv8, mask: bv8)
    ensures SameUnderMask(x, y, mask) <==> AgreeInMask(x, y, mask)
  {
  }

  /** An IPv4 address in 4 octets, or in 16 after ten zeros and two octets of ones. */
  predicate IsV4(ip: Ip) {
    |ip| == 4 || ((forall i :: 0 <= i < 10 ==> ip[i] == 0) && ip[10] == 0xff && ip[11] == 0xff)
  }

  function LastFour(octets: Ip): Octets {
    octets[|octets| - 4..]
  }

  lemma To4Iff(ip: Ip)
    ensures To4(ip) == if IsV4(ip) then Some(LastFour(ip)) else None
  {
    if |ip| == 16 {
      assert ip[..12] == MAPPED_PREFIX <==> forall i :: 0 <= i < 12 ==> ip[..12][i] == MAPPED_PREFIX[i];
    }
  }

  predicate AgreeInMasks(x: Octets, y: Octets, mask: Octets) {
    |x| == |y| == |mask| && forall i :: 0 <= i < |x| ==> AgreeInMask(x[i], y[i], mask[i])
  }

  /** The address is of the network's family and agrees with it in every bit of the mask. */
  predicate InRange(network: Network, ip: Ip) {
    if IsV4(network.ip) then IsV4(ip) && AgreeInMasks(LastFour(network.ip), LastFour(ip), LastFour(network.mask))
    else !IsV4(ip) && AgreeInMasks(network.ip, ip, network.mask)
  }

  lemma MaskedIff(x: Octets, y: Octets, mask: Octets)
    requires |x| == |y| == |mask|
    ensures (forall i :: 0 <= i < |x| ==> SameUnderMask(x[i], y[i], mask[i])) <==> AgreeInMasks(x, y, mask)
  {
    forall i | 0 <= i < |x|
      ensures SameUnderMask(x[i], y[i], mask[i]) <==> AgreeInMask(x[i], y[i], mask[i])
    {
      MaskedEqualIff(x[i], y[i], mask[i]);
    }
  }

  lemma NetworkParts(network: Network)
    ensures NetworkAndMask(network)
         == if IsV4(network.ip) then Some(Network(LastFour(network.ip), LastFour(network.mask)))
            else if |network.mask| == 16 then Some(network) else None
  {
    To4Iff(network.ip);
  }

  lemma ShortForm(ip: Ip)
    ensures Encoded(ip) == if IsV4(ip) then LastFour(ip) else ip
  {
    To4Iff(ip);
  }

  lemma CoversIff(network: Network, n: Network, short: Ip)
    requires NetworkAndMask(network) == Some(n)
    ensures Covers(network, short) <==> AgreeInMasks(n.ip, short, n.mask)
  {
    if |short| == |n.ip| {
      MaskedIff(n.ip, short, n.mask);
    }
  }

  lemma ContainsIff(network: Network, ip: Ip)
    ensures Contains(network, ip) <==> InRange(network, ip)
  {
    NetworkParts(network);
    ShortForm(ip);
    if NetworkAndMask(network).Some? {
      CoversIff(network, NetworkAndMask(network).value, Encoded(ip));
    }
  }

  lemma DottedDecimal(net: Net)
    ensures IpText(net, [127, 0, 0, 1]) == "127.0.0.1"
    ensures IpText(net, [0, 0, 0, 0, 0, 0, 0, 0, 0, 0, 0xff, 0xff, 10, 20, 3, 255]) == "10.20.3.255"
  {
    DecimalExamples();
    To4Iff([127, 0, 0, 1]);
    To4Iff([0, 0, 0, 0, 0, 0, 0, 0, 0, 0, 0xff, 0xff, 10, 20, 3, 255]);
  }

  lemma DecimalExamples()
    ensures Decimal(0) == "0" && Decimal(1) == "1" && Decimal(3) == "3" && Decimal(10) == "10" && Decimal(20) == "20"
    ensures Decimal(127) == "127" && Decimal(255) == "255"
  {
    assert Decimal(12) == "12" && Decimal(25) == "25";
  }

  lemma SuffixIff(s: string, suffix: string)
    ensures HasSuffix(s, suffix) <==> exists front: string :: s == front + suffix
  {
    if HasSuffix(s, suffix) {
      assert s == s[..|s| - |suffix|] + suffix;
    }
  }

  lemma PrefixIff(s: string, prefix: string)
    ensures HasPrefix(s, prefix) <==> exists rest: string :: s == prefix + rest
  {
    if HasPrefix(s, prefix) {
      assert s == prefix + s[|prefix|..];
    }
  }

  ghost predicate DnsPermitted(p: Profile, dns: string) {
    p.allowedDNSSuffixes == []
    || exists suffix, front: string :: suffix in p.allowedDNSSuffixes && dns == front + suffix
  }

  predicate IpPermitted(net: Net, p: Profile, ip: Ip) {
    p.allowedIPs == []
    || exists entry :: entry in p.allowedIPs
                       && (entry == IpText(net, ip)
                           || (net.parseCIDR(entry).Some? && InRange(net.parseCIDR(entry).value, ip)))
  }

  ghost predicate NamePermitted(p: Profile, commonName: string) {
    p.allowedSubjectPrefixes == []
    || exists prefix, rest: string :: prefix in p.allowedSubjectPrefixes && commonName == prefix + rest
  }

  /** What a profile admits, spelled out: every DNS name ends in an allowed suffix, every address is listed or lies in a
      listed range, the common name starts with an allowed prefix; an empty list allows everything. */
  ghost predicate Permitted(net: Net, p: Profile, commonName: string, dnsNames: seq<string>, ips: seq<Ip>) {
    && NamePermitted(p, commonName)
    && (forall dns :: dns in dnsNames ==> DnsPermitted(p, dns))
    && (forall ip :: ip in ips ==> IpPermitted(net, p, ip))
  }

  lemma DnsIff(p: Profile, dns: string)
    ensures DnsAllowed(p, dns) <==> DnsPermitted(p, dns)
  {
    forall suffix | suffix in p.allowedDNSSuffixes
      ensures HasSuffix(dns, suffix) <==> exists front: string :: dns == front + suffix
    {
      SuffixIff(dns, suffix);
    }
  }

  lemma IpIff(net: Net, p: Profile, ip: Ip)
    ensures IpAllowed(net, p, ip) <==> IpPermitted(net, p, ip)
  {
    forall entry | entry in p.allowedIPs && net.parseCIDR(entry).Some?
      ensures Contains(net.parseCIDR(entry).value, ip) <==> InRange(net.parseCIDR(entry).value, ip)
    {
      ContainsIff(net.parseCIDR(entry).value, ip);
    }
  }

  lemma NameIff(p: Profile, commonName: string)
    ensures SubjectAllowed(p, commonName) <==> NamePermitted(p, commonName)
  {
    forall prefix | prefix in p.allowedSubjectPrefixes
      ensures HasPrefix(commonName, prefix) <==> exists rest: string :: commonName == prefix + rest
    {
      PrefixIff(commonName, prefix);
    }
  }

  lemma PermittedIff(net: Net, p: Profile, commonName: string, dnsNames: seq<string>, ips: seq<Ip>)
    ensures SansAllowed(net, p, dnsNames, ips) && SubjectAllowed(p, commonName)
       <==> Permitted(net, p, commonName, dnsNames, ips)
  {
    NameIff(p, commonName);
    forall dns | dns in dnsNames
      ensures DnsAllowed(p, dns) <==> DnsPermitted(p, dns)
    {
      DnsIff(p, dns);
    }
    forall ip | ip in ips
      ensures IpAllowed(net, p, ip) <==> IpPermitted(net, p, ip)
    {
      IpIff(net, p, ip);
    }
  }

  // ---------- the checks as written ----------

  method MatchesDNSSuffix(name: string, suffixes: seq<string>) returns (matched: bool)
    ensures matched <==> exists suffix :: suffix in suffixes && HasSuffix(name, suffix)
  {
    for i := 0 to |suffixes|
      invariant forall j :: 0 <= j < i ==> !HasSuffix(name, suffixes[j])
    {
      if name == suffixes[i] || HasSuffix(name, suffixes[i]) {
        assert name[|name| - |suffixes[i]|..] == suffixes[i] && suffixes[i] in suffixes;
        return true;
      }
    }
    return false;
  }

  method MatchesAllowedIP(net: Net, ip: Ip, allowed: seq<string>) returns (matched: bool)
    ensures matched <==> exists entry :: entry in allowed && MatchesEntry(net, ip, entry)
  {
    for i := 0 to |allowed|
      invariant forall j :: 0 <= j < i ==> !MatchesEntry(net, ip, allowed[j])
    {
      if IpText(net, ip) == allowed[i] {
        assert MatchesEntry(net, ip, allowed[i]);
        return true;
      }
      var cidr := net.parseCIDR(allowed[i]);
      if cidr.Some? && Contains(cidr.value, ip) {
        assert MatchesEntry(net, ip, allowed[i]);
        return true;
      }
    }
    return false;
  }

  ghost predicate FirstDnsRefused(p: Profile, dnsNames: seq<string>, dns: string) {
    exists i :: 0 <= i < |dnsNames| && dnsNames[i] == dns && !DnsAllowed(p, dns)
                && forall j :: 0 <= j < i ==> DnsAllowed(p, dnsNames[j])
  }

  ghost predicate FirstIpRefused(net: Net, p: Profile, ips: seq<Ip>, ip: Ip) {
    exists i :: 0 <= i < |ips| && ips[i] == ip && !IpAllowed(net, p, ip)
                && forall j :: 0 <= j < i ==> IpAllowed(net, p, ips[j])
  }

  /** Reports the first DNS name refused, or else the first address refused. */
  method ValidateSANs(net: Net, p: Profile, dnsNames: seq<string>, ips: seq<Ip>) returns (err: Option<PolicyError>)
    ensures err.None? <==> SansAllowed(net, p, dnsNames, ips)
    ensures err.Some? ==> !err.value.SubjectNotAllowed?
    ensures err.Some? && err.value.DnsNotAllowed? ==> FirstDnsRefused(p, dnsNames, err.value.dns)
    ensures err.Some? && err.value.IpNotAllowed? ==>
              && (forall dns :: dns in dnsNames ==> DnsAllowed(p, dns))
              && FirstIpRefused(net, p, ips, err.value.ip)
  {
    if |p.allowedDNSSuffixes| > 0 {
      for i := 0 to |dnsNames|
        invariant forall j :: 0 <= j < i ==> DnsAllowed(p, dnsNames[j])
      {
        var matched := MatchesDNSSuffix(dnsNames[i], p.allowedDNSSuffixes);
        if !matched {
          assert dnsNames[i] in dnsNames && !DnsAllowed(p, dnsNames[i]);
          return Some(DnsNotAllowed(dnsNames[i]));
        }
      }
    }
    if |p.allowedIPs| > 0 {
      for i := 0 to |ips|
        invariant forall j :: 0 <= j < i ==> IpAllowed(net, p, ips[j])
      {
        var matched := MatchesAllowedIP(net, ips[i], p.allowedIPs);
        if !matched {
          assert ips[i] in ips && !IpAllowed(net, p, ips[i]);
          return Some(IpNotAllowed(ips[i]));
        }
      }
    }
    return None;
  }

  method ValidateSubject(p: Profile, commonName: string) returns (err: Option<PolicyError>)
    ensures err == if SubjectAllowed(p, commonName) then None else Some(SubjectNotAllowed(commonName))
  {
    if |p.allowedSubjectPrefixes| > 0 {
      for i := 0 to |p.allowedSubjectPrefixes|
        invariant forall j :: 0 <= j < i ==> !HasPrefix(commonName, p.allowedSubjectPrefixes[j])
      {
        if HasPrefix(commonName, p.allowedSubjectPrefixes[i]) {
          assert p.allowedSubjectPrefixes[i] in p.allowedSubjectPrefixes;
          return None;
        }
      }
      return Some(SubjectNotAllowed(commonName));
    }
    return None;
  }

  /** `Validity`: the first and last instant of the period, in nanoseconds. */
  function Validity(p: Profile, now: int): (int, int) {
    (now, now + Durations.DaysDuration(p.validityDays))
  }
}
