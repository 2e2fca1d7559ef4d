/** The expiry listing over reachable worlds: for which day counts it is exact. */
module Expiry {
  import opened Prelude
  import opened Authority
  import opened Storage
  import opened Lifecycle
  import opened Invariant
  import Durations
  import Rfc3339
  import SerialText

  lemma TimesAreStored(env: Env, w: World)
    requires Inv(env, w)
    ensures forall row :: row in w.db.certs ==> TimesStored(row)
  {
    forall row | row in w.db.certs
      ensures TimesStored(row)
    {
      var i :| 0 <= i < |w.db.certs| && w.db.certs[i] == row;
      assert RowOk(env, w.db.cas, w.clock, w.db.certs[i]);
    }
  }

  /** For up to 106751 days `ListExpiring` returns exactly the active certificates that end by `now + days`, in order of
      their end, as long as that deadline has a four-digit year. */
  lemma ExpiringExactly(env: Env, w: World, days: Durations.Int64)
    requires Inv(env, w) && 0 <= days <= Durations.MAX_DAYS && Encodable(w.clock + days * Durations.DAY)
    ensures ListsExactly(w.db.certs, w.clock, days)
    ensures var rows := SelectExpiring(w.db.certs, Deadline(w.clock, days));
      forall i, j :: 0 <= i < j < |rows| ==> rows[i].certificate.notAfter <= rows[j].certificate.notAfter
  {
    TimesAreStored(env, w);
    Durations.DaysExactIff(days);
    ListsExactlyIff(w.db.certs, w.clock, days);
    ExpiringInOrder(w.db.certs, Deadline(w.clock, days));
  }

  // ---------- no certificate outlives the widest duration ----------

  /** A certificate issued so far ends within the largest 64-bit duration from now. */
  predicate EndsInRange(cert: Cert, clock: nat) {
    cert.notAfter * Rfc3339.NANOS < clock + Durations.TWO63
  }

  predicate RowsInRange(w: World) {
    && (forall i :: 0 <= i < |w.db.certs| ==> EndsInRange(w.db.certs[i].certificate, w.clock))
    && (forall t :: t in w.threads && w.threads[t].JobInsert? ==> EndsInRange(w.threads[t].rec.certificate, w.clock))
  }

  lemma AdvanceInRange(env: Env, clock: nat, db: Db, th: Thread, draw: Draw)
    requires forall i :: 0 <= i < |db.certs| ==> EndsInRange(db.certs[i].certificate, clock)
    requires th.JobInsert? ==> EndsInRange(th.rec.certificate, clock)
    ensures var o := Advance(env, clock, db, th, draw);
      && (forall i :: 0 <= i < |o.db.certs| ==> EndsInRange(o.db.certs[i].certificate, clock))
      && (o.next.Some? && o.next.value.JobInsert? ==> EndsInRange(o.next.value.rec.certificate, clock))
  {
  }

  lemma StepInRange(env: Env, w: World, a: Action)
    requires RowsInRange(w)
    ensures RowsInRange(Step(env, w, a))
  {
    if a.Resume? && a.tid in w.threads {
      AdvanceInRange(env, w.clock, w.db, w.threads[a.tid], a.draw);
    }
  }

  lemma {:induction false} RunInRange(env: Env, start: World, actions: seq<Action>)
    requires Initial(start)
    ensures RowsInRange(Run(env, start, actions))
  {
    if actions == [] {
    } else {
      RunInRange(env, start, actions[..|actions| - 1]);
      StepInRange(env, Run(env, start, actions[..|actions| - 1]), actions[|actions| - 1]);
    }
  }

  lemma BeyondAllDurations(days: Durations.Int64)
    requires days > Durations.MAX_DAYS
    ensures days * Durations.DAY >= Durations.TWO63 + 2 * Rfc3339.NANOS
  {
  }

  predicate AllEndBy(certs: seq<CertRow>, instant: int) {
    forall row :: row in certs && row.status == Active ==> EndsBy(row, instant)
  }

  /** In every reachable world, for every day count a caller can pass: the listing is exact if and only if the count
      is at most 106751 or every active certificate ends by the wrapped deadline all the same. Beyond that count all
      of them end by `now + days`, so any that ends after the wrapped deadline is missed. */
  lemma ReachableExpiringIff(env: Env, start: World, actions: seq<Action>, w: World, days: Durations.Int64)
    requires Initial(start) && w == Run(env, start, actions)
    requires days >= 0 && Encodable(w.clock + Durations.TWO63)
    ensures ListsExactly(w.db.certs, w.clock, days)
       <==> days <= Durations.MAX_DAYS || AllEndBy(w.db.certs, w.clock + Durations.DaysDuration(days))
  {
    InitialInv(env, start);
    RunInv(env, start, actions);
    RunInRange(env, start, actions);
    InRangeExpiringIff(env, w, days);
  }

  lemma InRangeEndBy(w: World, days: Durations.Int64)
    requires RowsInRange(w) && days > Durations.MAX_DAYS
    ensures AllEndBy(w.db.certs, w.clock + days * Durations.DAY)
  {
    BeyondAllDurations(days);
    forall row | row in w.db.certs
      ensures EndsBy(row, w.clock + days * Durations.DAY)
    {
      var i :| 0 <= i < |w.db.certs| && w.db.certs[i] == row;
      assert EndsInRange(w.db.certs[i].certificate, w.clock);
    }
  }

  lemma InRangeExpiringIff(env: Env, w: World, days: Durations.Int64)
    requires Inv(env, w) && RowsInRange(w) && days >= 0 && Encodable(w.clock + Durations.TWO63)
    ensures ListsExactly(w.db.certs, w.clock, days)
       <==> days <= Durations.MAX_DAYS || AllEndBy(w.db.certs, w.clock + Durations.DaysDuration(days))
  {
    if days <= Durations.MAX_DAYS {
      ExpiringExactly(env, w, days);
    } else {
      assert AllEndBy(w.db.certs, w.clock + days * Durations.DAY) by {
        InRangeEndBy(w, days);
      }
      TimesAreStored(env, w);
      ListsExactlyIff(w.db.certs, w.clock, days);
    }
  }

  // ---------- the day count alone ----------

  /** A certificate that any profile without subject prefixes admits. */
  function Plain(notAfter: nat): Cert {
    Cert(0, "a", [], [], 0, notAfter, [])
  }

  function PlainRow(profile: string, notAfter: nat): CertRow {
    NewRow(1, NewCert(1, SerialText.HexUpper(0), "a", [], profile, Plain(notAfter), ""))
  }

  function PlainWorld(clock: nat, profile: string, notAfter: nat): World {
    var ca := CARow(1, "ca", SerialText.HexUpper(0), Rfc3339.Format(0), Rfc3339.Format(0), Some(Plain(0)));
    World(clock, Db([ca], [PlainRow(profile, notAfter)], []), map[], [], [])
  }

  lemma PlainInv(env: Env, clock: nat, profile: string, notAfter: nat)
    requires Encodable(clock) && notAfter < Rfc3339.END_OF_TEXT
    requires profile in env.profiles && env.profiles[profile].allowedSubjectPrefixes == []
    ensures Inv(env, PlainWorld(clock, profile, notAfter))
  {
    var w := PlainWorld(clock, profile, notAfter);
    assert w.db.certs == [PlainRow(profile, notAfter)];
    assert Obeys(env.net, env.profiles[profile], Plain(notAfter));
    assert RowOk(env, w.db.cas, clock, w.db.certs[0]);
    assert LinkOk(w.db.certs, 0);
  }

  /** Asked of the day count alone: it makes the listing exact in every world that satisfies the invariant at this clock
      reading if and only if it is at most 106751. */
  lemma ExpiringExactlyIff(env: Env, profile: string, now: nat, days: Durations.Int64)
    requires days >= 0 && Encodable(now) && Encodable(now + Durations.TWO63 + 2 * Rfc3339.NANOS)
    requires profile in env.profiles && env.profiles[profile].allowedSubjectPrefixes == []
    ensures (forall w :: Inv(env, w) && w.clock == now ==> ListsExactly(w.db.certs, now, days))
             <==> days <= Durations.MAX_DAYS
  {
    if days <= Durations.MAX_DAYS {
      forall w | Inv(env, w) && w.clock == now
        ensures ListsExactly(w.db.certs, now, days)
      {
        ExpiringExactly(env, w, days);
      }
    } else {
      var notAfter := (now + Durations.TWO63) / Rfc3339.NANOS + 1;
      var w := PlainWorld(now, profile, notAfter);
      PlainInv(env, now, profile, notAfter);
      BeyondAllDurations(days);
      TimesAreStored(env, w);
      ListsExactlyIff(w.db.certs, now, days);
      assert w.db.certs[0] in w.db.certs && w.db.certs[0].status == Active;
      assert EndsBy(w.db.certs[0], now + days * Durations.DAY)
          && !EndsBy(w.db.certs[0], now + Durations.DaysDuration(days));
    }
  }
}
