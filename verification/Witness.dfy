/** Runs from an empty database that come to the states the other modules argue about: a stored certificate, two
    children of one certificate, a CRL whose settled part will change, an expiry listing that misses a certificate. */
module Witness {
  import opened Prelude
  import opened Authority
  import opened Storage
  import opened Lifecycle
  import opened Invariant
  import opened Lineages
  import opened RenewalRace
  import opened CrlHistory
  import opened CrlOrder
  import opened CrlRace
  import opened Expiry
  import opened Handlers
  import Durations
  import Rfc3339
  import SerialText

  /** As the built-in "server" profile: it restricts no subjects, and its period and a day's fit the calendar. */
  predicate Usable(env: Env, clock: nat) {
    && "server" in env.profiles && env.profiles["server"].allowedSubjectPrefixes == []
    && Encodable(clock)
    && Encodable(clock + Durations.DaysDuration(1))
    && Encodable(clock + Durations.DaysDuration(env.profiles["server"].validityDays))
  }

  // ---------- a CA, then a certificate ----------

  function RootRecord(clock: nat, draw: Draw): NewCA
    requires Encodable(clock) && Encodable(clock + Durations.DaysDuration(1))
  {
    NewCA("ca", SerialText.HexUpper(draw.serial), InitCA(RootCA, "ca", 1, draw, clock).value)
  }

  function WithRoot(clock: nat, draw: Draw): Db
    requires Encodable(clock) && Encodable(clock + Durations.DaysDuration(1))
  {
    InsertKey(InsertCA(EMPTY, RootRecord(clock, draw)), "ca", 1, Pkcs8)
  }

  lemma RootEnds(env: Env, clock: nat, draw: Draw)
    requires Encodable(clock) && Encodable(clock + Durations.DaysDuration(1))
    ensures Finally(env, EMPTY, RootSign("ca", 1), draw, clock, clock) == Finish(WithRoot(clock, draw))
  {
    var rec := RootRecord(clock, draw);
    AfterStatement(env, EMPTY, RootSign("ca", 1), draw, clock, clock, RootInsert(rec));
    var db := InsertCA(EMPTY, rec);
    assert Advance(env, clock, EMPTY, RootInsert(rec), draw) == Continue(db, RootKey(1));
    assert Finally(env, EMPTY, RootInsert(rec), draw, clock, clock) == Finally(env, db, RootKey(1), draw, clock, clock);
  }

  lemma OnlyCAFound(db: Db, ca: CARow)
    requires db.cas == [ca]
    ensures GetCA(db, ca.id) == Some(ca)
  {
    assert ca in Filter(db.cas, (c: CARow) => c.id == ca.id);
  }

  lemma OnlyKeyFound(db: Db, key: KeyRow)
    requires db.keys == [key]
    ensures GetKey(db, key.ownerType, key.ownerId) == Some(key.key)
  {
    assert key in Filter(db.keys, (k: KeyRow) => k.ownerType == key.ownerType && k.ownerId == key.ownerId);
  }

  lemma RootFound(clock: nat, draw: Draw)
    requires Encodable(clock) && Encodable(clock + Durations.DaysDuration(1))
    ensures var db := WithRoot(clock, draw);
      && |db.cas| == 1 && db.certs == [] && GetCA(db, 1) == Some(db.cas[0]) && db.cas[0].id == 1
      && Loadable(db.cas[0], GetKey(db, "ca", 1))
  {
    var db := WithRoot(clock, draw);
    OnlyCAFound(db, db.cas[0]);
    OnlyKeyFound(db, KeyRow("ca", 1, Pkcs8));
  }

  function PlainOptions(env: Env, commonName: string): IssueOptions
    requires "server" in env.profiles
  {
    IssueOptions(commonName, [], [], Some(env.profiles["server"]), None)
  }

  lemma PlainIssues(env: Env, clock: nat, commonName: string, draw: Draw)
    requires Usable(env, clock)
    ensures var r := Issue(env.net, PlainOptions(env, commonName), draw, clock);
      && r.Ok? && r.value.serial == draw.serial && r.value.commonName == commonName
      && r.value.dnsNames == [] && r.value.ips == []
      && r.value.notAfter == (clock + Durations.DaysDuration(env.profiles["server"].validityDays)) / Rfc3339.NANOS
  {
  }

  function PlainRecord(env: Env, clock: nat, draw: Draw): NewCert
    requires Usable(env, clock)
  {
    PlainIssues(env, clock, "a", draw);
    NewCert(1, SerialText.HexUpper(draw.serial), "a", [], "server",
        Issue(env.net, PlainOptions(env, "a"), draw, clock).value, "")
  }

  function WithCert(env: Env, clock: nat, first: Draw, second: Draw): Db
    requires Usable(env, clock)
  {
    InsertCert(WithRoot(clock, first), PlainRecord(env, clock, second))
  }

  const PLAIN_JOB := FromRequest(1, "a", [], "server")

  lemma PlainSigned(env: Env, clock: nat, db: Db, caRow: CARow, draw: Draw)
    requires Usable(env, clock) && caRow.id == 1
    ensures Advance(env, clock, db, JobSign(PLAIN_JOB, caRow), draw)
         == Continue(db, JobInsert(PlainRecord(env, clock, draw), false))
  {
    PlainIssues(env, clock, "a", draw);
    assert JobOptions(env, PLAIN_JOB) == PlainOptions(env, "a");
  }

  lemma IssueEnds(env: Env, clock: nat, first: Draw, second: Draw)
    requires Usable(env, clock)
    ensures Finally(env, WithRoot(clock, first), JobGetCA(PLAIN_JOB), second, clock, clock)
         == Finish(WithCert(env, clock, first, second))
  {
    var db, rec := WithRoot(clock, first), PlainRecord(env, clock, second);
    RootFound(clock, first);
    var caRow := db.cas[0];
    AfterStatement(env, db, JobGetCA(PLAIN_JOB), second, clock, clock, JobGetKey(PLAIN_JOB, caRow));
    AfterStatement(env, db, JobGetKey(PLAIN_JOB, caRow), second, clock, clock, JobSign(PLAIN_JOB, caRow));
    PlainSigned(env, clock, db, caRow, second);
    AfterStatement(env, db, JobSign(PLAIN_JOB, caRow), second, clock, clock, JobInsert(rec, false));
    InsertEnds(env, clock, db, rec, second);
  }

  lemma InsertEnds(env: Env, clock: nat, db: Db, rec: NewCert, draw: Draw)
    requires CanInsertCert(db, rec)
    ensures Finally(env, db, JobInsert(rec, false), draw, clock, clock) == Finish(InsertCert(db, rec))
  {
  }

  lemma ReachRoot(env: Env, start: World, first: Draw) returns (actions: seq<Action>)
    requires Initial(start) && Usable(env, start.clock)
    ensures Run(env, start, actions) == World(start.clock, WithRoot(start.clock, first), map[], [], [])
  {
    actions := ServedIsRun(env, start, CreateRoot("ca", 1), first, start.clock);
    RootEnds(env, start.clock, first);
  }

  /** From any empty start a root CA is made, then a certificate, and nothing is left in flight. */
  lemma ReachCertificate(env: Env, start: World, first: Draw, second: Draw) returns (actions: seq<Action>)
    requires Initial(start) && Usable(env, start.clock)
    ensures Run(env, start, actions) == World(start.clock, WithCert(env, start.clock, first, second), map[], [], [])
  {
    var made := ReachRoot(env, start, first);
    var w := World(start.clock, WithRoot(start.clock, first), map[], [], []);
    assert Admit(env, IssueGenerated(1, "a", [], "server")) == Some(JobGetCA(PLAIN_JOB));
    var issued := ServedIsRun(env, w, IssueGenerated(1, "a", [], "server"), second, w.clock);
    IssueEnds(env, start.clock, first, second);
    RunConcat(env, start, made, issued);
    actions := made + issued;
  }

  lemma OnlyRowFound(certs: seq<CertRow>, row: CertRow)
    requires certs == [row]
    ensures FindRow(certs, row.serial) == Some(row)
  {
    assert certs[0].serial == row.serial;
  }

  lemma InsertKeepsLookups(db: Db, rec: NewCert)
    ensures GetCA(InsertCert(db, rec), 1) == GetCA(db, 1) && GetKey(InsertCert(db, rec), "ca", 1) == GetKey(db, "ca", 1)
  {
  }

  lemma FirstInserted(db: Db, rec: NewCert)
    requires db.certs == []
    ensures InsertCert(db, rec).certs == [NewRow(1, rec)]
    ensures FindRow(InsertCert(db, rec).certs, rec.serial) == Some(NewRow(1, rec))
  {
    OnlyRowFound(InsertCert(db, rec).certs, NewRow(1, rec));
  }

  lemma OneRow(env: Env, clock: nat, first: Draw, second: Draw)
    requires Usable(env, clock)
    ensures var db, row := WithCert(env, clock, first, second), NewRow(1, PlainRecord(env, clock, second));
      && db.certs == [row] && FindRow(db.certs, row.serial) == Some(row)
      && GetCA(db, 1).Some? && GetCA(db, 1).value.id == 1 && Loadable(GetCA(db, 1).value, GetKey(db, "ca", 1))
  {
    RootFound(clock, first);
    FirstInserted(WithRoot(clock, first), PlainRecord(env, clock, second));
    InsertKeepsLookups(WithRoot(clock, first), PlainRecord(env, clock, second));
  }

  // ---------- two children ----------

  lemma CertIsRenewable(env: Env, clock: nat, first: Draw, second: Draw, draw: Draw)
    requires Usable(env, clock) && draw.serial != second.serial
    ensures var db := WithCert(env, clock, first, second); Renewable(env, clock, db, ReadRow(db.certs[0]), draw)
  {
    var db := WithCert(env, clock, first, second);
    OneRow(env, clock, first, second);
    PlainIssues(env, clock, "a", second);
    PlainIssues(env, clock, "a", draw);
    assert JobOptions(env, Renewal(ReadRow(db.certs[0]))) == PlainOptions(env, "a");
    if HasSerial(db.certs, SerialText.HexUpper(draw.serial)) {
      SerialText.PrintInjective(draw.serial, second.serial);
    }
  }

  /** With the lookup repaired, four draws with distinct serials reach a state in which one certificate has two
      children: the guard missing before the insert is missed in real runs. */
  lemma ReachTwoChildren(env: Env, start: World, first: Draw, second: Draw, third: Draw, fourth: Draw)
    returns (actions: seq<Action>)
    requires Initial(start) && Usable(env, start.clock) && env.build.nullAsEmpty
    requires third.serial != second.serial && fourth.serial != second.serial && third.serial != fourth.serial
    ensures !SingleChildren(Run(env, start, actions).db.certs) && !LineagesArePaths(Run(env, start, actions).db.certs)
  {
    var stored := ReachCertificate(env, start, first, second);
    var w := Run(env, start, stored);
    OneRow(env, start.clock, first, second);
    CertIsRenewable(env, start.clock, first, second, third);
    CertIsRenewable(env, start.clock, first, second, fourth);
    var race := RaceGivesTwoChildren(env, w, SerialText.HexUpper(second.serial), ReadRow(w.db.certs[0]), third, fourth);
    RunConcat(env, start, stored, race);
    actions := stored + race;
    SingleChildrenIff(env, start, actions);
    LineagesArePathsIff(env, start, actions);
  }

  // ---------- an unsettled list ----------

  function SlowRevocation(serial: string, stamp: string): Thread {
    RevokeUpdate(RevokeOpts(serial, "unspecified", "", "api"), stamp, false)
  }

  lemma StampThenWait(env: Env, w: World, serial: string) returns (actions: seq<Action>)
    requires w.threads == map[] && Encodable(w.clock + Rfc3339.NANOS)
    ensures Run(env, w, actions)
         == w.(clock := w.clock + Rfc3339.NANOS, threads := map[0 := SlowRevocation(serial, Stamp(w.clock))])
  {
    var begin, resume, tick := Begin(0, RevokeSerial(serial, "", "", "")), Resume(0, NO_DRAW), Tick(Rfc3339.NANOS);
    assert "unspecified" in REASON_CODES;
    var begun := w.(threads := map[0 := RevokeClock(RevokeOpts(serial, "unspecified", "", "api"), false)]);
    assert Step(env, w, begin) == begun;
    var stamped := w.(threads := map[0 := SlowRevocation(serial, Stamp(w.clock))]);
    assert Step(env, begun, resume) == stamped;
    RunTwo(env, w, begin, resume);
    RunOne(env, stamped, tick);
    RunConcat(env, w, [begin, resume], [tick]);
    actions := [begin, resume] + [tick];
  }

  lemma WaitingExposes(w: World, start: nat, row: CertRow)
    requires w.clock == start + Rfc3339.NANOS && Encodable(w.clock)
    requires w.threads == map[0 := SlowRevocation(row.serial, Stamp(start))]
    requires w.db.certs == [row] && row.status == Active
    ensures Exposed(w, row.caId, Stamp(w.clock))
  {
    var t := start / Rfc3339.NANOS;
    assert w.clock / Rfc3339.NANOS == t + 1;
    Rfc3339.TextOrderIsTimeOrder(t, t + 1);
    assert Stale(w.threads[0], Stamp(w.clock));
    assert w.db.certs[0].serial == row.serial;
  }

  /** A revocation that has read its clock and waits a second: a CRL made now may still change below that second. By
      `SettledForeverIff` some continuation does change it. */
  lemma ReachExposed(env: Env, start: World, first: Draw, second: Draw) returns (actions: seq<Action>)
    requires Initial(start) && Usable(env, start.clock) && Encodable(start.clock + Rfc3339.NANOS)
    ensures var w := Run(env, start, actions); StampBy(Stamp(w.clock), w.clock) && Exposed(w, 1, Stamp(w.clock))
  {
    var stored := ReachCertificate(env, start, first, second);
    OneRow(env, start.clock, first, second);
    var row := NewRow(1, PlainRecord(env, start.clock, second));
    var waiting := StampThenWait(env, Run(env, start, stored), row.serial);
    RunConcat(env, start, stored, waiting);
    actions := stored + waiting;
    WaitingExposes(Run(env, start, actions), start.clock, row);
    StampIsRead(Run(env, start, actions).clock);
  }

  /** So the settled part of a CRL does change after all in some run. */
  lemma ReachUnsettled(env: Env, start: World, first: Draw, second: Draw)
    returns (actions: seq<Action>, more: seq<Action>, cut: string)
    requires Initial(start) && Usable(env, start.clock) && Encodable(start.clock + Rfc3339.NANOS)
    ensures StampBy(cut, Run(env, start, actions).clock)
    ensures !SameSettled(Run(env, start, actions).db.certs, Run(env, start, actions + more).db.certs, 1, cut)
  {
    actions := ReachExposed(env, start, first, second);
    var w := Run(env, start, actions);
    cut := Stamp(w.clock);
    InitialInv(env, start);
    RunInv(env, start, actions);
    more := ExposedUnsettles(env, w, 1, cut);
    RunConcat(env, start, actions, more);
  }

  // ---------- an outdated list ----------

  /** Two lists of one CA are published and the one with the higher number misses an entry of the other: the check
      missing before the signature is missed in real runs. */
  lemma ReachOutdatedList(env: Env, start: World, first: Draw, second: Draw)
    returns (actions: seq<Action>, p: Published, q: Published)
    requires Initial(start) && Usable(env, start.clock) && Encodable(start.clock + Rfc3339.NANOS)
    requires SignCrl([], env.crlHours, start.clock).Some?
    requires SignCrl([], env.crlHours, start.clock + Rfc3339.NANOS).Some?
    ensures Run(env, start, actions).crls == [p, q]
    ensures p.caId == q.caId == 1 && p.crl.number < q.crl.number && !Contained(p, q)
    ensures !NumbersFollowContents(Run(env, start, actions).crls) && !NoneOutdated(env, start, actions)
  {
    var stored := ReachCertificate(env, start, first, second);
    OneRow(env, start.clock, first, second);
    InitialInv(env, start);
    RunInv(env, start, stored);
    var race;
    race, p, q := RaceOutdates(env, Run(env, start, stored), NewRow(1, PlainRecord(env, start.clock, second)));
    RunConcat(env, start, stored, race);
    actions := stored + race;
    NumbersFollowContentsIff(env, start, actions);
  }

  // ---------- a listing that misses a certificate ----------

  /** Asked for 106752 days, the expiry listing of a reachable world misses a valid certificate that ends well before.
      */
  lemma ReachMissedExpiry(env: Env, start: World, first: Draw, second: Draw) returns (actions: seq<Action>)
    requires Initial(start) && Usable(env, start.clock)
    requires 1 <= env.profiles["server"].validityDays <= Durations.MAX_DAYS
    ensures var w := Run(env, start, actions); !ListsExactly(w.db.certs, w.clock, Durations.MAX_DAYS + 1)
  {
    actions := ReachCertificate(env, start, first, second);
    var w, days := Run(env, start, actions), env.profiles["server"].validityDays;
    OneRow(env, start.clock, first, second);
    PlainIssues(env, start.clock, "a", second);
    Durations.DaysExactIff(days);
    InitialInv(env, start);
    RunInv(env, start, actions);
    TimesAreStored(env, w);
    var row := w.db.certs[0];
    assert row in w.db.certs;
    ExpiringMissesAllAfterOverflow(w.db.certs, w.clock, Durations.MAX_DAYS + 1, row);
    assert EndsBy(row, w.clock + (Durations.MAX_DAYS + 1) * Durations.DAY);
  }
}
