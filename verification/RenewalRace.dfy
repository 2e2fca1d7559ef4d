/** Two renewals of the same certificate that both look it up before either inserts give it two children. */
module RenewalRace {
  import opened Prelude
  import opened Authority
  import opened Storage
  import opened Lifecycle
  import opened Lineages
  import SerialText

  /** Nothing but another handler can stop a renewal of `orig` with this draw. */
  predicate Renewable(env: Env, clock: nat, db: Db, orig: CertRecord, draw: Draw) {
    && orig.profile in env.profiles
    && 1 <= orig.caId <= |db.cas|
    && GetCA(db, orig.caId).Some?
    && Loadable(GetCA(db, orig.caId).value, GetKey(db, "ca", GetCA(db, orig.caId).value.id))
    && Issue(env.net, JobOptions(env, Renewal(orig)), draw, clock).Ok?
    && !HasSerial(db.certs, SerialText.HexUpper(draw.serial))
  }

  function RenewedRecord(env: Env, clock: nat, db: Db, orig: CertRecord, draw: Draw): NewCert
    requires Renewable(env, clock, db, orig, draw)
  {
    JobRecord(env, Renewal(orig), GetCA(db, orig.caId).value,
        Issue(env.net, JobOptions(env, Renewal(orig)), draw, clock).value)
  }

  lemma Begun(env: Env, w: World, actions: seq<Action>, at: World, tid: nat, serial: string)
    requires Run(env, w, actions) == at && tid !in at.threads && serial != ""
    ensures Run(env, w, actions + [Begin(tid, Renew(serial))]) == Moved(at, tid, RenewLookup(serial))
  {
  }

  lemma Inserted(env: Env, w: World, actions: seq<Action>, at: World, tid: nat, draw: Draw, rec: NewCert)
    requires Run(env, w, actions) == at && tid in at.threads && at.threads[tid] == JobInsert(rec, true)
    requires CanInsertCert(at.db, rec)
    ensures Run(env, w, actions + [Resume(tid, draw)])
         == Moved(at, tid, RevokeClock(Superseded(rec.renewedFrom), true)).(db := InsertCert(at.db, rec))
  {
  }

  lemma RecordSerial(env: Env, clock: nat, db: Db, orig: CertRecord, draw: Draw)
    requires Renewable(env, clock, db, orig, draw)
    ensures RenewedRecord(env, clock, db, orig, draw).serial == SerialText.HexUpper(draw.serial)
    ensures CanInsertCert(db, RenewedRecord(env, clock, db, orig, draw))
    ensures RenewedRecord(env, clock, db, orig, draw).renewedFrom == orig.serial
  {
  }

  /** The two lookups of a renewal, undisturbed. */
  lemma RunToSign(env: Env, w: World, tid: nat, orig: CertRecord, draw: Draw) returns (actions: seq<Action>)
    requires tid in w.threads && w.threads[tid] == JobGetCA(Renewal(orig))
    requires Renewable(env, w.clock, w.db, orig, draw)
    ensures Run(env, w, actions) == Moved(w, tid, JobSign(Renewal(orig), GetCA(w.db, orig.caId).value))
  {
    var job, caRow := Renewal(orig), GetCA(w.db, orig.caId).value;
    Resumed(env, w, [], w, tid, draw, JobGetKey(job, caRow));
    var once := Moved(w, tid, JobGetKey(job, caRow));
    Resumed(env, w, [] + [Resume(tid, draw)], once, tid, draw, JobSign(job, caRow));
    MovedTwice(w, tid, JobGetKey(job, caRow), JobSign(job, caRow));
    actions := [] + [Resume(tid, draw)] + [Resume(tid, draw)];
  }

  /** Signing: the draw must not hit a serial some revocation in flight names. */
  lemma RunToRecord(env: Env, w: World, tid: nat, orig: CertRecord, draw: Draw) returns (actions: seq<Action>)
    requires tid in w.threads && w.threads[tid] == JobGetCA(Renewal(orig))
    requires Renewable(env, w.clock, w.db, orig, draw)
    requires forall t :: t in w.threads ==> !Names(w.threads[t], SerialText.HexUpper(draw.serial))
    ensures Run(env, w, actions) == Moved(w, tid, JobInsert(RenewedRecord(env, w.clock, w.db, orig, draw), true))
  {
    var before := RunToSign(env, w, tid, orig, draw);
    var sign := JobSign(Renewal(orig), GetCA(w.db, orig.caId).value);
    var insert := JobInsert(RenewedRecord(env, w.clock, w.db, orig, draw), true);
    Resumed(env, w, before, Moved(w, tid, sign), tid, draw, insert);
    MovedTwice(w, tid, sign, insert);
    actions := before + [Resume(tid, draw)];
  }

  /** The four statements from the CA lookup to the insert, undisturbed. */
  lemma RunToInsert(env: Env, w: World, tid: nat, orig: CertRecord, draw: Draw) returns (actions: seq<Action>)
    requires tid in w.threads && w.threads[tid] == JobGetCA(Renewal(orig))
    requires Renewable(env, w.clock, w.db, orig, draw)
    requires forall t :: t in w.threads ==> !Names(w.threads[t], SerialText.HexUpper(draw.serial))
    ensures Run(env, w, actions) == Moved(w, tid, RevokeClock(Superseded(orig.serial), true))
                                    .(db := InsertCert(w.db, RenewedRecord(env, w.clock, w.db, orig, draw)))
  {
    var before := RunToRecord(env, w, tid, orig, draw);
    var rec := RenewedRecord(env, w.clock, w.db, orig, draw);
    RecordSerial(env, w.clock, w.db, orig, draw);
    Inserted(env, w, before, Moved(w, tid, JobInsert(rec, true)), tid, draw, rec);
    MovedTwice(w, tid, JobInsert(rec, true), RevokeClock(Superseded(orig.serial), true));
    actions := before + [Resume(tid, draw)];
  }

  lemma LookedUp(env: Env, w: World, actions: seq<Action>, at: World, tid: nat, serial: string, orig: CertRecord,
          draw: Draw)
    requires Run(env, w, actions) == at && tid in at.threads && at.threads[tid] == RenewLookup(serial)
    requires GetCertBySerial(env.build, at.db, serial) == Some(orig)
    requires orig.status == Active && orig.profile in env.profiles
    ensures Run(env, w, actions + [Resume(tid, draw)]) == Moved(at, tid, JobGetCA(Renewal(orig)))
  {
    Resumed(env, w, actions, at, tid, draw, JobGetCA(Renewal(orig)));
  }

  lemma BothBegin(env: Env, w: World, serial: string) returns (actions: seq<Action>)
    requires w.threads == map[] && serial != ""
    ensures Run(env, w, actions) == w.(threads := map[0 := RenewLookup(serial), 1 := RenewLookup(serial)])
  {
    Begun(env, w, [], w, 0, serial);
    var first := [] + [Begin(0, Renew(serial))];
    Begun(env, w, first, Moved(w, 0, RenewLookup(serial)), 1, serial);
    actions := first + [Begin(1, Renew(serial))];
  }

  /** Both renewals look the certificate up while it is active. */
  lemma BothLookUp(env: Env, w: World, serial: string, orig: CertRecord, draw: Draw) returns (actions: seq<Action>)
    requires w.threads == map[] && serial != "" && GetCertBySerial(env.build, w.db, serial) == Some(orig)
    requires orig.status == Active && orig.profile in env.profiles
    ensures Run(env, w, actions) == w.(threads := map[0 := JobGetCA(Renewal(orig)), 1 := JobGetCA(Renewal(orig))])
  {
    var begun := BothBegin(env, w, serial);
    var at, job := Run(env, w, begun), JobGetCA(Renewal(orig));
    LookedUp(env, w, begun, at, 0, serial, orig, draw);
    LookedUp(env, w, begun + [Resume(0, draw)], Moved(at, 0, job), 1, serial, orig, draw);
    actions := begun + [Resume(0, draw)] + [Resume(1, draw)];
    assert at.threads[0 := job][1 := job] == map[0 := job, 1 := job];
  }

  lemma StillRenewable(env: Env, clock: nat, db: Db, orig: CertRecord, first: Draw, second: Draw)
    requires Renewable(env, clock, db, orig, first) && Renewable(env, clock, db, orig, second)
             && first.serial != second.serial
    ensures Renewable(env, clock, InsertCert(db, RenewedRecord(env, clock, db, orig, first)), orig, second)
    ensures RenewedRecord(env, clock, InsertCert(db, RenewedRecord(env, clock, db, orig, first)), orig, second)
         == RenewedRecord(env, clock, db, orig, second)
  {
    RecordSerial(env, clock, db, orig, first);
    if SerialText.HexUpper(first.serial) == SerialText.HexUpper(second.serial) {
      SerialText.PrintInjective(first.serial, second.serial);
    }
  }

  /** Two inserts of children of the same serial leave two active rows naming it. */
  lemma TwoChildren(db: Db, a: NewCert, b: NewCert, serial: string)
    requires CanInsertCert(db, a) && CanInsertCert(InsertCert(db, a), b)
    requires a.renewedFrom == b.renewedFrom == serial != ""
    ensures var certs, n := InsertCert(InsertCert(db, a), b).certs, |db.certs|;
      && |certs| == n + 2
      && certs[n].renewedFrom == certs[n + 1].renewedFrom == serial
      && certs[n].status == certs[n + 1].status == Active
      && !SingleChildren(certs)
  {
  }

  /** The first renewal has inserted and not yet revoked; the second, which looked up before, goes on to its insert. */
  lemma SecondInserts(env: Env, w: World, orig: CertRecord, second: Draw) returns (actions: seq<Action>)
    requires w.threads == map[0 := RevokeClock(Superseded(orig.serial), true), 1 := JobGetCA(Renewal(orig))]
    requires Renewable(env, w.clock, w.db, orig, second) && HasSerial(w.db.certs, orig.serial)
    ensures Run(env, w, actions).db == InsertCert(w.db, RenewedRecord(env, w.clock, w.db, orig, second))
  {
    assert SerialText.HexUpper(second.serial) != orig.serial;
    actions := RunToInsert(env, w, 1, orig, second);
  }

  lemma Overwrite(w: World, job: Thread, revoke: Thread)
    requires w.threads == map[0 := job, 1 := job]
    ensures Moved(w, 0, revoke) == w.(threads := map[0 := revoke, 1 := job])
  {
  }

  lemma FirstInserts(env: Env, w: World, orig: CertRecord, first: Draw) returns (actions: seq<Action>)
    requires w.threads == map[0 := JobGetCA(Renewal(orig)), 1 := JobGetCA(Renewal(orig))]
    requires Renewable(env, w.clock, w.db, orig, first)
    ensures Run(env, w, actions)
         == w.(db := InsertCert(w.db, RenewedRecord(env, w.clock, w.db, orig, first)),
               threads := map[0 := RevokeClock(Superseded(orig.serial), true), 1 := JobGetCA(Renewal(orig))])
  {
    assert forall t :: t in w.threads ==> w.threads[t].JobGetCA?;
    actions := RunToInsert(env, w, 0, orig, first);
    Overwrite(w, JobGetCA(Renewal(orig)), RevokeClock(Superseded(orig.serial), true));
  }

  lemma SerialsStay(db: Db, rec: NewCert, serial: string)
    requires HasSerial(db.certs, serial)
    ensures HasSerial(InsertCert(db, rec).certs, serial)
  {
    var i :| 0 <= i < |db.certs| && db.certs[i].serial == serial;
    assert InsertCert(db, rec).certs[i].serial == serial;
  }

  /** From any quiet world, any certificate whose renewal nothing prevents can get two active children of its own: the
      second insert finds the original renewed already, which `SingleChildrenIff` says is the only way. */
  lemma RaceGivesTwoChildren(env: Env, w: World, serial: string, orig: CertRecord, first: Draw, second: Draw)
    returns (actions: seq<Action>)
    requires w.threads == map[] && serial != "" && GetCertBySerial(env.build, w.db, serial) == Some(orig)
    requires orig.status == Active && first.serial != second.serial
    requires Renewable(env, w.clock, w.db, orig, first) && Renewable(env, w.clock, w.db, orig, second)
    ensures var certs, n := Run(env, w, actions).db.certs, |w.db.certs|;
      && |certs| == n + 2
      && certs[n].renewedFrom == certs[n + 1].renewedFrom == serial
      && certs[n].status == certs[n + 1].status == Active
      && !SingleChildren(certs)
  {
    var lookups := BothLookUp(env, w, serial, orig, first);
    FoundSerial(env, w.db, serial, orig);
    var inserts := FirstInserts(env, Run(env, w, lookups), orig, first);
    RunConcat(env, w, lookups, inserts);
    var mid := Run(env, w, lookups + inserts);
    var a := RenewedRecord(env, w.clock, w.db, orig, first);
    SerialsStay(w.db, a, serial);
    StillRenewable(env, w.clock, w.db, orig, first, second);
    var more := SecondInserts(env, mid, orig, second);
    RunConcat(env, w, lookups + inserts, more);
    actions := lookups + inserts + more;
    RecordSerial(env, w.clock, w.db, orig, first);
    RecordSerial(env, w.clock, mid.db, orig, second);
    TwoChildren(w.db, a, RenewedRecord(env, w.clock, w.db, orig, second), serial);
  }

  lemma FoundSerial(env: Env, db: Db, serial: string, orig: CertRecord)
    requires GetCertBySerial(env.build, db, serial) == Some(orig)
    ensures orig.serial == serial && HasSerial(db.certs, serial)
  {
  }
}
