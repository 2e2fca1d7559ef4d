/** The names a row records against the names its certificate carries, on every issuance path and through renewals. */
module Names {
  import opened Profiles
  import opened Authority
  import opened Storage
  import opened Lifecycle
  import opened Renewal

  /** Splitting the recorded names as the issuing handler splits a request gives the certificate's names back. */
  predicate SplitsInto(net: Net, sans: seq<string>, cert: Cert) {
    DnsOf(net, sans) == cert.dnsNames && EncodedAll(IpsOf(net, sans)) == EncodedAll(cert.ips)
  }

  predicate Recorded(net: Net, sans: seq<string>, cert: Cert) {
    SplitsInto(net, sans, cert) || sans == NamesOf(net, cert)
  }

  predicate RowsRecorded(net: Net, certs: seq<CertRow>) {
    forall i :: 0 <= i < |certs| ==> Recorded(net, certs[i].sans, certs[i].certificate)
  }

  predicate ThreadRecorded(net: Net, th: Thread) {
    && (th.JobInsert? ==> Recorded(net, th.rec.sans, th.rec.certificate))
    && ((th.JobGetCA? || th.JobGetKey? || th.JobSign?) && th.job.Renewal? ==>
          Recorded(net, th.job.orig.sans, th.job.orig.certificate))
  }

  /** A certificate with the same names, its addresses in encoded form, is recorded by the same text. */
  lemma RecordedAgain(net: Net, sans: seq<string>, cert: Cert, renewed: Cert)
    requires Recorded(net, sans, cert) && renewed.dnsNames == cert.dnsNames && renewed.ips == EncodedAll(cert.ips)
    ensures Recorded(net, sans, renewed)
  {
  }

  lemma SignedNames(net: Net, opts: IssueOptions, draw: Draw, now: int)
    requires Issue(net, opts, draw, now).Ok?
    ensures Issue(net, opts, draw, now).value.dnsNames == TakeFromCsr(opts).dnsNames
    ensures Issue(net, opts, draw, now).value.ips == EncodedAll(TakeFromCsr(opts).ips)
  {
  }

  lemma JobRecorded(env: Env, job: Job, caRow: CARow, draw: Draw, now: nat)
    requires JobProfile(job) in env.profiles && Issue(env.net, JobOptions(env, job), draw, now).Ok?
    requires job.Renewal? ==> Recorded(env.net, job.orig.sans, job.orig.certificate)
    ensures var rec := JobRecord(env, job, caRow, Issue(env.net, JobOptions(env, job), draw, now).value);
      Recorded(env.net, rec.sans, rec.certificate)
  {
    SignedNames(env.net, JobOptions(env, job), draw, now);
    var cert := Issue(env.net, JobOptions(env, job), draw, now).value;
    match job
    case FromRequest(_, _, sans, _) => EncodedTwice(IpsOf(env.net, sans));
    case FromCsr(_, _, _) =>
    case Renewal(orig) => RecordedAgain(env.net, orig.sans, orig.certificate, cert);
  }

  lemma SignRecorded(env: Env, clock: nat, db: Db, th: Thread, draw: Draw)
    requires th.JobSign? && ThreadRecorded(env.net, th) && Advance(env, clock, db, th, draw).next.Some?
    ensures ThreadRecorded(env.net, Advance(env, clock, db, th, draw).next.value)
  {
    JobRecorded(env, th.job, th.caRow, draw, clock);
  }

  lemma LookupRecorded(env: Env, clock: nat, db: Db, th: Thread, draw: Draw)
    requires th.RenewLookup? && RowsRecorded(env.net, db.certs) && Advance(env, clock, db, th, draw).next.Some?
    ensures ThreadRecorded(env.net, Advance(env, clock, db, th, draw).next.value)
  {
    var row := FindRow(db.certs, th.serial).value;
    var i :| 0 <= i < |db.certs| && db.certs[i] == row;
  }

  lemma RowsStayRecorded(env: Env, clock: nat, db: Db, th: Thread, draw: Draw)
    requires RowsRecorded(env.net, db.certs) && ThreadRecorded(env.net, th)
    ensures RowsRecorded(env.net, Advance(env, clock, db, th, draw).db.certs)
  {
    if th.JobInsert? && CanInsertCert(db, th.rec) {
      InsertGoesOn(env, clock, db, th.rec, th.renewal, draw);
    } else {
      AdvanceKeepsRows(env, clock, db, th, draw);
    }
  }

  lemma LookupsCarry(env: Env, clock: nat, db: Db, th: Thread, draw: Draw)
    requires ThreadRecorded(env.net, th) && (th.JobGetCA? || th.JobGetKey?)
    requires Advance(env, clock, db, th, draw).next.Some?
    ensures ThreadRecorded(env.net, Advance(env, clock, db, th, draw).next.value)
  {
  }

  lemma OthersRecordNothing(env: Env, clock: nat, db: Db, th: Thread, draw: Draw)
    requires !th.JobSign? && !th.RenewLookup? && !th.JobGetCA? && !th.JobGetKey?
    requires Advance(env, clock, db, th, draw).next.Some?
    ensures ThreadRecorded(env.net, Advance(env, clock, db, th, draw).next.value)
  {
  }

  lemma AdvanceRecorded(env: Env, clock: nat, db: Db, th: Thread, draw: Draw)
    requires RowsRecorded(env.net, db.certs) && ThreadRecorded(env.net, th)
    ensures var o := Advance(env, clock, db, th, draw);
      RowsRecorded(env.net, o.db.certs) && (o.next.Some? ==> ThreadRecorded(env.net, o.next.value))
  {
    RowsStayRecorded(env, clock, db, th, draw);
    if Advance(env, clock, db, th, draw).next.Some? {
      if th.JobSign? {
        SignRecorded(env, clock, db, th, draw);
      } else if th.RenewLookup? {
        LookupRecorded(env, clock, db, th, draw);
      } else if th.JobGetCA? || th.JobGetKey? {
        LookupsCarry(env, clock, db, th, draw);
      } else {
        OthersRecordNothing(env, clock, db, th, draw);
      }
    }
  }

  ghost predicate WorldRecorded(env: Env, w: World) {
    RowsRecorded(env.net, w.db.certs) && forall t :: t in w.threads ==> ThreadRecorded(env.net, w.threads[t])
  }

  lemma StepRecorded(env: Env, w: World, a: Action)
    requires WorldRecorded(env, w)
    ensures WorldRecorded(env, Step(env, w, a))
  {
    if a.Resume? && a.tid in w.threads {
      AdvanceRecorded(env, w.clock, w.db, w.threads[a.tid], a.draw);
    }
  }

  /** In every interleaving each row records the names of its certificate: split like a request they give its names and
      addresses back, or they are its names followed by the text of its addresses, as the CSR path writes them; and a
      renewal hands them on. */
  lemma {:induction false} NamesAreRecorded(env: Env, start: World, actions: seq<Action>)
    requires Initial(start)
    ensures WorldRecorded(env, Run(env, start, actions))
  {
    if actions == [] {
    } else {
      NamesAreRecorded(env, start, actions[..|actions| - 1]);
      StepRecorded(env, Run(env, start, actions[..|actions| - 1]), actions[|actions| - 1]);
    }
  }

  // ---------- the two forms compared ----------

  lemma {:induction false} SplitConcat(net: Net, a: seq<string>, b: seq<string>)
    ensures DnsOf(net, a + b) == DnsOf(net, a) + DnsOf(net, b)
    ensures IpsOf(net, a + b) == IpsOf(net, a) + IpsOf(net, b)
  {
    if b == [] {
      assert a + b == a;
    } else {
      assert (a + b)[..|a + b| - 1] == a + b[..|b| - 1];
      SplitConcat(net, a, b[..|b| - 1]);
    }
  }

  lemma {:induction false} SplitCounts(net: Net, sans: seq<string>)
    ensures |DnsOf(net, sans)| + |IpsOf(net, sans)| == |sans|
    ensures IpsOf(net, sans) == [] <==> forall s :: s in sans ==> net.parseIP(s).None?
    ensures IpsOf(net, sans) == [] ==> DnsOf(net, sans) == sans
  {
    if sans == [] {
    } else {
      SplitCounts(net, sans[..|sans| - 1]);
      assert sans == sans[..|sans| - 1] + [sans[|sans| - 1]];
    }
  }

  /** The address parser reads back the text it is given for this address, in whichever width. */
  predicate ReadsBack(net: Net, ip: Ip) {
    net.parseIP(IpText(net, ip)).Some? && Encoded(net.parseIP(IpText(net, ip)).value) == Encoded(ip)
  }

  function TextsOf(net: Net, ips: seq<Ip>): seq<string> {
    seq(|ips|, i requires 0 <= i < |ips| => IpText(net, ips[i]))
  }

  lemma EncodedAppend(a: seq<Ip>, b: seq<Ip>, x: Ip, y: Ip)
    requires EncodedAll(a) == EncodedAll(b) && Encoded(x) == Encoded(y)
    ensures EncodedAll(a + [x]) == EncodedAll(b + [y])
  {
  }

  lemma {:induction false} TextsSplit(net: Net, ips: seq<Ip>)
    requires forall i :: 0 <= i < |ips| ==> ReadsBack(net, ips[i])
    ensures DnsOf(net, TextsOf(net, ips)) == [] && EncodedAll(IpsOf(net, TextsOf(net, ips))) == EncodedAll(ips)
  {
    if ips == [] {
    } else {
      var n := |ips| - 1;
      TextsSplit(net, ips[..n]);
      assert TextsOf(net, ips)[..n] == TextsOf(net, ips[..n]);
      assert ReadsBack(net, ips[n]);
      EncodedAppend(IpsOf(net, TextsOf(net, ips[..n])), ips[..n], net.parseIP(IpText(net, ips[n])).value, ips[n]);
      assert ips == ips[..n] + [ips[n]];
    }
  }

  /** What the CSR path records splits back into the certificate's names if and only if none of its DNS names reads as
      an address: a CSR may call an address a DNS name, and the row then forgets which it was. */
  lemma CsrNamesSplitIff(net: Net, cert: Cert)
    requires forall i :: 0 <= i < |cert.ips| ==> ReadsBack(net, cert.ips[i])
    ensures SplitsInto(net, NamesOf(net, cert), cert) <==> forall dns :: dns in cert.dnsNames ==> net.parseIP(dns).None?
  {
    var texts := TextsOf(net, cert.ips);
    assert NamesOf(net, cert) == cert.dnsNames + texts;
    SplitConcat(net, cert.dnsNames, texts);
    TextsSplit(net, cert.ips);
    SplitCounts(net, cert.dnsNames);
  }
}
