/** A CRL request overtaken between its listing and its signature by a revocation and a second request publishes the
    older list under the higher number. */
module CrlRace {
  import opened Prelude
  import opened Authority
  import opened Storage
  import opened Lifecycle
  import opened Invariant
  import opened Revocation
  import opened CrlOrder
  import Rfc3339

  predicate CALoads(db: Db, caId: nat) {
    GetCA(db, caId).Some? && Loadable(GetCA(db, caId).value, GetKey(db, "ca", caId))
  }

  lemma Admitted(env: Env, w: World, actions: seq<Action>, at: World, tid: nat, req: Request, th: Thread)
    requires Run(env, w, actions) == at && tid !in at.threads && Admit(env, req) == Some(th)
    ensures Run(env, w, actions + [Begin(tid, req)]) == Moved(at, tid, th)
  {
    assert (actions + [Begin(tid, req)])[..|actions|] == actions;
  }

  /** A request up to its listing, undisturbed. */
  lemma RunToListing(env: Env, w: World, tid: nat, caId: nat) returns (actions: seq<Action>)
    requires tid !in w.threads && CALoads(w.db, caId)
    ensures Run(env, w, actions) == Moved(w, tid, CrlList(caId))
  {
    var caRow := GetCA(w.db, caId).value;
    Admitted(env, w, [], w, tid, PublishCrl(caId), CrlGetCA(caId));
    actions := [] + [Begin(tid, PublishCrl(caId))];
    Resumed(env, w, actions, Moved(w, tid, CrlGetCA(caId)), tid, NO_DRAW, CrlGetKey(caRow));
    MovedTwice(w, tid, CrlGetCA(caId), CrlGetKey(caRow));
    actions := actions + [Resume(tid, NO_DRAW)];
    Resumed(env, w, actions, Moved(w, tid, CrlGetKey(caRow)), tid, NO_DRAW, CrlList(caId));
    MovedTwice(w, tid, CrlGetKey(caRow), CrlList(caId));
    actions := actions + [Resume(tid, NO_DRAW)];
  }

  /** And on to its signature. */
  lemma RunToSignature(env: Env, w: World, tid: nat, caId: nat) returns (actions: seq<Action>)
    requires tid !in w.threads && CALoads(w.db, caId) && ListRevoked(w.db, caId).Some?
    ensures Run(env, w, actions) == Moved(w, tid, CrlSign(caId, ListRevoked(w.db, caId).value))
  {
    var sign := CrlSign(caId, ListRevoked(w.db, caId).value);
    actions := RunToListing(env, w, tid, caId);
    Resumed(env, w, actions, Moved(w, tid, CrlList(caId)), tid, NO_DRAW, sign);
    MovedTwice(w, tid, CrlList(caId), sign);
    actions := actions + [Resume(tid, NO_DRAW)];
  }

  function Plainly(serial: string): RevokeOpts {
    RevokeOpts(serial, "unspecified", "", "api")
  }

  lemma Ended(env: Env, w: World, actions: seq<Action>, at: World, tid: nat, o: Outcome)
    requires Run(env, w, actions) == at && tid in at.threads && !at.threads[tid].JobSign? && o.next.None?
    requires Advance(env, at.clock, at.db, at.threads[tid], NO_DRAW) == o && o.counted.None?
    ensures Run(env, w, actions + [Resume(tid, NO_DRAW)])
         == at.(db := o.db, threads := at.threads - {tid}, crls := at.crls + if o.crl.Some? then [o.crl.value] else [])
  {
    assert (actions + [Resume(tid, NO_DRAW)])[..|actions|] == actions;
  }

  lemma MovedBack(w: World, tid: nat, th: Thread)
    requires tid !in w.threads
    ensures Moved(w, tid, th).threads - {tid} == w.threads
  {
  }

  /** A whole revocation, undisturbed. */
  lemma RunRevocation(env: Env, w: World, tid: nat, serial: string) returns (actions: seq<Action>)
    requires tid !in w.threads
    ensures Run(env, w, actions) == w.(db := Revoke(w.db, Plainly(serial), Stamp(w.clock)))
  {
    var clock, update := RevokeClock(Plainly(serial), false), RevokeUpdate(Plainly(serial), Stamp(w.clock), false);
    assert "unspecified" in REASON_CODES;
    Admitted(env, w, [], w, tid, RevokeSerial(serial, "", "", ""), clock);
    actions := [] + [Begin(tid, RevokeSerial(serial, "", "", ""))];
    Resumed(env, w, actions, Moved(w, tid, clock), tid, NO_DRAW, update);
    MovedTwice(w, tid, clock, update);
    actions := actions + [Resume(tid, NO_DRAW)];
    Ended(env, w, actions, Moved(w, tid, update), tid, Finish(Revoke(w.db, Plainly(serial), Stamp(w.clock))));
    MovedBack(w, tid, update);
    actions := actions + [Resume(tid, NO_DRAW)];
  }

  lemma RunSignature(env: Env, w: World, tid: nat, caId: nat, entries: seq<RevokedEntry>) returns (actions: seq<Action>)
    requires tid in w.threads && w.threads[tid] == CrlSign(caId, entries)
    requires SignCrl(entries, env.crlHours, w.clock).Some?
    ensures Run(env, w, actions)
         == w.(threads := w.threads - {tid},
               crls := w.crls + [Published(caId, SignCrl(entries, env.crlHours, w.clock).value)])
  {
    var p := Published(caId, SignCrl(entries, env.crlHours, w.clock).value);
    Ended(env, w, [], w, tid, Outcome(w.db, None, Some(p), None));
    actions := [] + [Resume(tid, NO_DRAW)];
  }

  /** What the revocation adds to the listing was not there before. */
  lemma NewlyListed(env: Env, db: Db, clock: nat, row: CertRow, stamp: string)
    requires DbOk(env, db, clock) && StampBy(stamp, clock) && row in db.certs && row.status == Active
    ensures var after := Revoke(db, Plainly(row.serial), stamp);
      exists e :: e in CrlEntriesOf(after, row.caId) && e !in CrlEntriesOf(db, row.caId)
  {
    var opts, after := Plainly(row.serial), Revoke(db, Plainly(row.serial), stamp);
    CertsRevoked(env, db, opts, stamp, clock);
    var i :| 0 <= i < |db.certs| && db.certs[i] == row;
    var revoked := RevokedRow(row, opts, stamp);
    assert after.certs[i] == revoked;
    EntryOfRow(env, after, clock, row.caId, revoked);
    var e := SignedEntry(ReadRevoked(revoked));
    if e in CrlEntriesOf(db, row.caId) {
      var other := RowOfEntry(env, db, clock, row.caId, e);
      SameSerialOnce(env, db, clock, row, other);
    }
  }

  lemma RevokeKeepsLookups(db: Db, opts: RevokeOpts, stamp: string, caId: nat)
    ensures CALoads(Revoke(db, opts, stamp), caId) == CALoads(db, caId)
  {
  }

  /** A whole request, undisturbed. */
  lemma RunRequest(env: Env, w: World, tid: nat, caId: nat) returns (actions: seq<Action>)
    requires tid !in w.threads && CALoads(w.db, caId) && ListRevoked(w.db, caId).Some?
    requires SignCrl(ListRevoked(w.db, caId).value, env.crlHours, w.clock).Some?
    ensures Run(env, w, actions)
         == w.(crls := w.crls + [Published(caId, SignCrl(ListRevoked(w.db, caId).value, env.crlHours, w.clock).value)])
  {
    var sign := CrlSign(caId, ListRevoked(w.db, caId).value);
    var list := RunToSignature(env, w, tid, caId);
    var signed := RunSignature(env, Moved(w, tid, sign), tid, caId, sign.entries);
    MovedBack(w, tid, sign);
    RunConcat(env, w, list, signed);
    actions := list + signed;
  }

  lemma ListingLoads(env: Env, w: World, caId: nat)
    requires Inv(env, w)
    ensures ListRevoked(w.db, caId).Some? && SignedEntries(ListRevoked(w.db, caId).value) == CrlEntriesOf(w.db, caId)
  {
    ListingBy(env, w.db, w.clock, caId);
  }

  lemma SignedWhateverEntries(entries: seq<RevokedEntry>, env: Env, clock: nat)
    requires SignCrl([], env.crlHours, clock).Some?
    ensures var crl := SignCrl(entries, env.crlHours, clock);
      && crl.Some? && crl.value.entries == SignedEntries(entries)
      && crl.value.number == clock / Rfc3339.NANOS - Rfc3339.UNIX_EPOCH
  {
  }

  /** The revocation and the second request, while the first waits for its signature. */
  lemma Overtake(env: Env, w: World, row: CertRow) returns (actions: seq<Action>, p: Published)
    requires Inv(env, w) && 1 !in w.threads && row in w.db.certs && row.status == Active && CALoads(w.db, row.caId)
    requires SignCrl([], env.crlHours, w.clock).Some?
    ensures var after := Run(env, w, actions);
      after.threads == w.threads && after.clock == w.clock && after.crls == w.crls + [p]
    ensures p.caId == row.caId && p.crl.number == w.clock / Rfc3339.NANOS - Rfc3339.UNIX_EPOCH
    ensures exists e :: e in p.crl.entries && e !in CrlEntriesOf(w.db, row.caId)
  {
    var revoke := RunRevocation(env, w, 1, row.serial);
    var mid := Run(env, w, revoke);
    RunInv(env, w, revoke);
    ListingLoads(env, mid, row.caId);
    RevokeKeepsLookups(w.db, Plainly(row.serial), Stamp(w.clock), row.caId);
    SignedWhateverEntries(ListRevoked(mid.db, row.caId).value, env, mid.clock);
    var request := RunRequest(env, mid, 1, row.caId);
    RunConcat(env, w, revoke, request);
    actions := revoke + request;
    p := Published(row.caId, SignCrl(ListRevoked(mid.db, row.caId).value, env.crlHours, mid.clock).value);
    StampIsRead(w.clock);
    NewlyListed(env, w.db, w.clock, row, Stamp(w.clock));
  }

  /** A second later the first request signs the list it has. */
  lemma SignLate(env: Env, w: World, caId: nat, entries: seq<RevokedEntry>) returns (actions: seq<Action>, q: Published)
    requires 0 in w.threads && w.threads[0] == CrlSign(caId, entries) && Encodable(w.clock + Rfc3339.NANOS)
    requires SignCrl([], env.crlHours, w.clock + Rfc3339.NANOS).Some?
    ensures Run(env, w, actions).crls == w.crls + [q]
    ensures q.caId == caId && q.crl.entries == SignedEntries(entries)
    ensures q.crl.number == w.clock / Rfc3339.NANOS + 1 - Rfc3339.UNIX_EPOCH
  {
    var later := w.(clock := w.clock + Rfc3339.NANOS);
    RunOne(env, w, Tick(Rfc3339.NANOS));
    var sign := RunSignature(env, later, 0, caId, entries);
    RunConcat(env, w, [Tick(Rfc3339.NANOS)], sign);
    actions, q := [Tick(Rfc3339.NANOS)] + sign, Published(caId, SignCrl(entries, env.crlHours, later.clock).value);
  }

  /** From any quiet world that satisfies the invariant, any CA that loads and has an active certificate can publish two
      lists of which the one with the higher number misses an entry of the other. */
  lemma RaceOutdates(env: Env, w: World, row: CertRow) returns (actions: seq<Action>, p: Published, q: Published)
    requires Inv(env, w) && w.threads == map[] && row in w.db.certs && row.status == Active && CALoads(w.db, row.caId)
    requires Encodable(w.clock + Rfc3339.NANOS)
    requires SignCrl([], env.crlHours, w.clock).Some? && SignCrl([], env.crlHours, w.clock + Rfc3339.NANOS).Some?
    ensures Run(env, w, actions).crls == w.crls + [p, q]
    ensures p.caId == q.caId == row.caId && p.crl.number + 1 == q.crl.number && !Contained(p, q)
  {
    ListingBy(env, w.db, w.clock, row.caId);
    var entries := ListRevoked(w.db, row.caId).value;
    var list := RunToSignature(env, w, 0, row.caId);
    RunInv(env, w, list);
    var waiting := Run(env, w, list);
    var overtake, sign;
    overtake, p := Overtake(env, waiting, row);
    sign, q := SignLate(env, Run(env, waiting, overtake), row.caId, entries);
    RunConcat(env, w, list, overtake);
    RunConcat(env, w, list + overtake, sign);
    actions := list + overtake + sign;
  }
}
