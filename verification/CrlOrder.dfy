/** The contents of a CA's published lists against their numbers and against each other. Section 5.2.3 of RFC 5280
    wants a higher number to be a later list; one kind of signature breaks this, and it can be told from the lists at
    hand. */
module CrlOrder {
  import opened Prelude
  import opened Authority
  import opened Storage
  import opened Sorting
  import opened Lifecycle
  import opened Invariant
  import opened Revocation
  import opened CrlHistory
  import Rfc3339

  // ---------- distinct entries ----------

  predicate Distinct<T(==)>(s: seq<T>) {
    forall i, j :: 0 <= i < j < |s| ==> s[i] != s[j]
  }

  function Elements<T>(s: seq<T>): set<T> {
    set x | x in s
  }

  lemma {:induction false} DistinctSize<T>(s: seq<T>)
    requires Distinct(s)
    ensures |Elements(s)| == |s|
  {
    if s == [] {
    } else {
      var front, last := s[..|s| - 1], s[|s| - 1];
      DistinctSize(front);
      assert Elements(s) == Elements(front) + {last};
      assert last !in front;
    }
  }

  lemma SubsetSize<T>(a: set<T>, b: set<T>)
    requires a <= b
    ensures |a| <= |b| && (|a| == |b| ==> a == b)
  {
    assert b == a + (b - a);
    if a != b {
      var x :| x in b - a;
      assert |b - a| > 0;
    }
  }

  /** When one of two lists without repetitions contains the other, the lengths tell which. */
  lemma ContainedIffShorter<T>(a: seq<T>, b: seq<T>)
    requires Distinct(a) && Distinct(b)
    requires Elements(a) <= Elements(b) || Elements(b) <= Elements(a)
    ensures Elements(a) <= Elements(b) <==> |a| <= |b|
  {
    DistinctSize(a);
    DistinctSize(b);
    if Elements(a) <= Elements(b) {
      SubsetSize(Elements(a), Elements(b));
    } else {
      SubsetSize(Elements(b), Elements(a));
    }
  }

  lemma {:induction false} FilterOnce<T(!new)>(s: seq<T>, keep: T -> bool)
    requires Distinct(s)
    ensures Distinct(Filter(s, keep))
  {
    if s == [] {
    } else {
      FilterOnce(s[..|s| - 1], keep);
      assert s[|s| - 1] !in s[..|s| - 1];
    }
  }

  lemma {:induction false} DistinctOnce<T>(s: seq<T>)
    requires Distinct(s)
    ensures forall x :: x in s ==> multiset(s)[x] == 1
  {
    if s == [] {
    } else {
      var front, last := s[..|s| - 1], s[|s| - 1];
      DistinctOnce(front);
      assert s == front + [last] && last !in front;
      assert multiset(s) == multiset(front) + multiset{last};
    }
  }

  lemma OnceDistinct<T>(s: seq<T>)
    requires forall x :: x in s ==> multiset(s)[x] == 1
    ensures Distinct(s)
  {
    forall i, j | 0 <= i < j < |s|
      ensures s[i] != s[j]
    {
      assert s == s[..j] + s[j..];
      assert multiset(s) == multiset(s[..j]) + multiset(s[j..]);
      assert s[..j][i] == s[i] && s[j..][0] == s[j];
      assert multiset(s)[s[i]] == multiset(s[..j])[s[i]] + multiset(s[j..])[s[i]];
      assert s[i] in s && s[i] in multiset(s[..j]) && s[j] in multiset(s[j..]);
    }
  }

  lemma SortOnce<T>(s: seq<T>, key: T -> string)
    requires Distinct(s)
    ensures Distinct(SortBy(s, key))
  {
    SortPermutes(s, key);
    DistinctOnce(s);
    assert forall x :: x in SortBy(s, key) ==> x in multiset(SortBy(s, key));
    assert forall x :: x in multiset(s) ==> x in s;
    OnceDistinct(SortBy(s, key));
  }

  lemma ListedOnce(certs: seq<CertRow>, caId: nat)
    requires SerialsUnique(certs)
    ensures Distinct(SelectRevoked(certs, caId))
  {
    FilterOnce(certs, RevokedOf(caId));
    SortOnce(Filter(certs, RevokedOf(caId)), RevokedKey);
  }

  lemma SameSerialOnce(env: Env, db: Db, clock: nat, a: CertRow, b: CertRow)
    requires DbOk(env, db, clock) && a in db.certs && b in db.certs && a.certificate.serial == b.certificate.serial
    ensures a == b
  {
    LookupFinds(env, db, clock, a.certificate.serial, a);
    LookupFinds(env, db, clock, a.certificate.serial, b);
  }

  /** No serial is listed twice. */
  lemma EntriesOnce(env: Env, db: Db, clock: nat, caId: nat)
    requires DbOk(env, db, clock)
    ensures Distinct(CrlEntriesOf(db, caId))
  {
    var rows, entries := SelectRevoked(db.certs, caId), CrlEntriesOf(db, caId);
    ListedOnce(db.certs, caId);
    forall i, j | 0 <= i < j < |entries|
      ensures entries[i] != entries[j]
    {
      assert rows[i] in rows && rows[j] in rows && rows[i] != rows[j];
      EntryOfRow(env, db, clock, caId, rows[i]);
      EntryOfRow(env, db, clock, caId, rows[j]);
      if rows[i].certificate.serial == rows[j].certificate.serial {
        SameSerialOnce(env, db, clock, rows[i], rows[j]);
      }
    }
  }

  // ---------- any two published lists ----------

  predicate Contained(p: Published, q: Published) {
    forall e :: e in p.crl.entries ==> e in q.crl.entries
  }

  lemma ContainedIsSubset(p: Published, q: Published)
    ensures Contained(p, q) <==> Elements(p.crl.entries) <= Elements(q.crl.entries)
  {
    assert forall e :: e in p.crl.entries <==> e in Elements(p.crl.entries);
    assert forall e :: e in q.crl.entries <==> e in Elements(q.crl.entries);
  }

  /** The list is that of its CA at state `j` of the run. */
  predicate ListedFrom(env: Env, start: World, actions: seq<Action>, j: nat, p: Published) {
    j <= |actions| && p.crl.entries == CrlEntriesOf(Run(env, start, actions[..j]).db, p.caId)
  }

  lemma ListedSomewhere(env: Env, start: World, actions: seq<Action>, p: Published) returns (j: nat)
    requires Initial(start) && p in Run(env, start, actions).crls
    ensures ListedFrom(env, start, actions, j, p) && Distinct(p.crl.entries)
  {
    PublishedIsAListing(env, start, actions, p);
    var entries :| ListedDuring(env, start, actions, p.caId, entries) && p.crl.entries == SignedEntries(entries);
    j :| 0 <= j <= |actions| && ListedAt(env, start, actions, j, p.caId, entries);
    ListingIsEntries(env, start, actions, j, p.caId);
    InitialInv(env, start);
    RunInv(env, start, actions[..j]);
    EntriesOnce(env, Run(env, start, actions[..j]).db, Run(env, start, actions[..j]).clock, p.caId);
  }

  /** Of any two lists of one CA published in any interleaving one contains the other, and it is the longer one. */
  lemma PublishedComparable(env: Env, start: World, actions: seq<Action>, p: Published, q: Published)
    requires Initial(start) && p in Run(env, start, actions).crls && q in Run(env, start, actions).crls
    requires p.caId == q.caId
    ensures Contained(p, q) <==> |p.crl.entries| <= |q.crl.entries|
    ensures Contained(p, q) || Contained(q, p)
  {
    var j := ListedSomewhere(env, start, actions, p);
    var k := ListedSomewhere(env, start, actions, q);
    LaterState(env, start, actions, if j <= k then j else k, if j <= k then k else j, p.caId);
    assert Contained(p, q) || Contained(q, p);
    ContainedIsSubset(p, q);
    ContainedIsSubset(q, p);
    ContainedIffShorter(p.crl.entries, q.crl.entries);
  }

  // ---------- numbers ----------

  /** Every published list with a lower number is contained in every one of the same CA with a higher number. */
  ghost predicate NumbersFollowContents(crls: seq<Published>) {
    forall p, q :: p in crls && q in crls && p.caId == q.caId && p.crl.number < q.crl.number ==> Contained(p, q)
  }

  /** The check that is not made before signing: a list already published for the CA, with a lower number, is longer. */
  predicate Outdates(crls: seq<Published>, caId: nat, crl: Crl) {
    exists p :: p in crls && p.caId == caId && p.crl.number < crl.number && |p.crl.entries| > |crl.entries|
  }

  /** The action signs a list although that check would fail. */
  predicate SignsOutdated(env: Env, w: World, a: Action) {
    && a.Resume? && a.tid in w.threads && w.threads[a.tid].CrlSign?
    && var crl := SignCrl(w.threads[a.tid].entries, env.crlHours, w.clock);
       crl.Some? && Outdates(w.crls, w.threads[a.tid].listCa, crl.value)
  }

  /** No action of the run signs an outdated list. */
  predicate NoneOutdated(env: Env, start: World, actions: seq<Action>) {
    if actions == [] then true
    else
      var n := |actions| - 1;
      NoneOutdated(env, start, actions[..n]) && !SignsOutdated(env, Run(env, start, actions[..n]), actions[n])
  }

  /** Appending the highest number so far. */
  lemma AppendFollowsIff(crls: seq<Published>, p: Published)
    requires forall q :: q in crls ==> q.crl.number <= p.crl.number
    requires forall q :: q in crls && q.caId == p.caId ==> (Contained(q, p) <==> |q.crl.entries| <= |p.crl.entries|)
    ensures NumbersFollowContents(crls + [p]) <==> NumbersFollowContents(crls) && !Outdates(crls, p.caId, p.crl)
  {
    assert forall q :: q in crls + [p] <==> q in crls || q == p;
    if NumbersFollowContents(crls + [p]) {
      forall q | q in crls && q.caId == p.caId && q.crl.number < p.crl.number
        ensures |q.crl.entries| <= |p.crl.entries|
      {
        assert Contained(q, p);
      }
    }
  }

  lemma SignatureAppends(env: Env, w: World, a: Action)
    requires a.Resume? && a.tid in w.threads && w.threads[a.tid].CrlSign?
    ensures var th := w.threads[a.tid]; var crl := SignCrl(th.entries, env.crlHours, w.clock);
      Step(env, w, a).crls == w.crls + if crl.None? then [] else [Published(th.listCa, crl.value)]
  {
  }

  lemma StepFollowsIff(env: Env, start: World, front: seq<Action>, w: World, a: Action, w': World)
    requires Initial(start) && w == Run(env, start, front)
    requires w' == Step(env, w, a) && w' == Run(env, start, front + [a])
    ensures NumbersFollowContents(w'.crls) <==> NumbersFollowContents(w.crls) && !SignsOutdated(env, w, a)
  {
    if a.Resume? && a.tid in w.threads && w.threads[a.tid].CrlSign? {
      var th := w.threads[a.tid];
      var crl := SignCrl(th.entries, env.crlHours, w.clock);
      SignatureAppends(env, w, a);
      if crl.Some? {
        var p := Published(th.listCa, crl.value);
        HighestNumber(env, start, front + [a], w.crls, p);
        forall q | q in w.crls && q.caId == p.caId
          ensures Contained(q, p) <==> |q.crl.entries| <= |p.crl.entries|
        {
          PublishedComparable(env, start, front + [a], q, p);
        }
        AppendFollowsIff(w.crls, p);
      }
    } else {
      SameCrls(env, w, a);
    }
  }

  lemma HighestNumber(env: Env, start: World, actions: seq<Action>, crls: seq<Published>, p: Published)
    requires Initial(start) && Run(env, start, actions).crls == crls + [p]
    ensures forall q :: q in crls ==> q.crl.number <= p.crl.number
  {
    PublishedInOrder(env, start, actions);
    forall q | q in crls
      ensures q.crl.number <= p.crl.number
    {
      var i :| 0 <= i < |crls| && crls[i] == q;
      assert (crls + [p])[i] == q && (crls + [p])[|crls|] == p;
    }
  }

  /** Over every run, in any interleaving: lower-numbered lists of a CA are contained in higher-numbered ones (section
      5.2.3 of RFC 5280) if and only if no list was signed while a longer one with a lower number was out. */
  lemma {:induction false} NumbersFollowContentsIff(env: Env, start: World, actions: seq<Action>)
    requires Initial(start)
    ensures NumbersFollowContents(Run(env, start, actions).crls) <==> NoneOutdated(env, start, actions)
  {
    if actions == [] {
    } else {
      var n := |actions| - 1;
      NumbersFollowContentsIff(env, start, actions[..n]);
      assert actions == actions[..n] + [actions[n]];
      StepFollowsIff(env, start, actions[..n], Run(env, start, actions[..n]), actions[n], Run(env, start, actions));
    }
  }

  // ---------- the stable head of published lists ----------

  function Before(t: nat): CrlEntry -> bool {
    (e: CrlEntry) => e.revokedAt < t
  }

  function EntriesOf(rows: seq<CertRow>): seq<CrlEntry> {
    SignedEntries(ReadAllRevoked(rows))
  }

  function MapAll<A, B>(s: seq<A>, f: A -> B): (r: seq<B>)
    ensures |r| == |s| && forall i :: 0 <= i < |s| ==> r[i] == f(s[i])
  {
    if s == [] then [] else MapAll(s[..|s| - 1], f) + [f(s[|s| - 1])]
  }

  lemma FilterAppend<T(!new)>(s: seq<T>, x: T, keep: T -> bool)
    ensures Filter(s + [x], keep) == if keep(x) then Filter(s, keep) + [x] else Filter(s, keep)
  {
    assert (s + [x])[..|s|] == s;
  }

  lemma MapAppend<A, B>(s: seq<A>, x: A, f: A -> B)
    ensures MapAll(s + [x], f) == MapAll(s, f) + [f(x)]
  {
    assert (s + [x])[..|s|] == s;
  }

  lemma {:induction false} FilterMap<A(!new), B(!new)>(s: seq<A>, f: A -> B, keep: A -> bool, kept: B -> bool)
    requires forall x :: x in s ==> (keep(x) <==> kept(f(x)))
    ensures Filter(MapAll(s, f), kept) == MapAll(Filter(s, keep), f)
  {
    if s == [] {
    } else {
      var front, last := s[..|s| - 1], s[|s| - 1];
      FilterMap(front, f, keep, kept);
      FilterAppend(MapAll(front, f), f(last), kept);
      MapAppend(Filter(front, keep), last, f);
      assert last in s;
    }
  }

  function EntryOf(row: CertRow): CrlEntry {
    SignedEntry(ReadRevoked(row))
  }

  lemma EntriesAreMapped(rows: seq<CertRow>)
    ensures EntriesOf(rows) == MapAll(rows, EntryOf)
  {
  }

  lemma FilterEntries(rows: seq<CertRow>, cut: string, t: nat)
    requires forall row :: row in rows ==> (Below(row, cut) <==> EntryOf(row).revokedAt < t)
    ensures Filter(EntriesOf(rows), Before(t)) == EntriesOf(Filter(rows, BelowOf(cut)))
  {
    EntriesAreMapped(rows);
    EntriesAreMapped(Filter(rows, BelowOf(cut)));
    FilterMap(rows, EntryOf, BelowOf(cut), Before(t));
  }

  lemma BelowIsBefore(env: Env, db: Db, clock: nat, row: CertRow, t: nat)
    requires DbOk(env, db, clock) && row in db.certs && row.status == Revoked && t < Rfc3339.END_OF_TEXT
    ensures Below(row, Rfc3339.Format(t)) <==> ReadRevoked(row).revokedAt < t
  {
    var i :| 0 <= i < |db.certs| && db.certs[i] == row;
    RevokedRowBy(env, db.cas, clock, db.certs[i]);
    var s: nat :| StampStored(row, s) && s * Rfc3339.NANOS <= clock && ReadRevoked(row).revokedAt == s;
    Rfc3339.TextOrderIsTimeOrder(s, t);
  }

  lemma SettledEntries(env: Env, w: World, caId: nat, t: nat)
    requires Inv(env, w) && t < Rfc3339.END_OF_TEXT
    ensures Filter(CrlEntriesOf(w.db, caId), Before(t)) == EntriesOf(Settled(w.db.certs, caId, Rfc3339.Format(t)))
    ensures EntriesOf(Settled(w.db.certs, caId, Rfc3339.Format(t))) <= CrlEntriesOf(w.db, caId)
  {
    var rows, cut := SelectRevoked(w.db.certs, caId), Rfc3339.Format(t);
    forall row | row in rows
      ensures Below(row, cut) <==> EntryOf(row).revokedAt < t
    {
      BelowIsBefore(env, w.db, w.clock, row, t);
    }
    FilterEntries(rows, cut, t);
    SettledIsPrefix(w.db.certs, caId, cut);
    PrefixEntries(Settled(w.db.certs, caId, cut), rows);
  }

  lemma PrefixEntries(a: seq<CertRow>, b: seq<CertRow>)
    requires a <= b
    ensures EntriesOf(a) <= EntriesOf(b)
  {
    assert EntriesOf(a) == EntriesOf(b)[..|a|];
  }

  /** A second that has begun, in seconds since the year 0. */
  predicate SecondBegun(w: World, t: nat) {
    t < Rfc3339.END_OF_TEXT && t * Rfc3339.NANOS <= w.clock
  }

  /** No revocation stamped before the second is in flight to a certificate of the CA. */
  predicate SecondSettled(w: World, caId: nat, t: nat) {
    SecondBegun(w, t) && !Exposed(w, caId, Rfc3339.Format(t))
  }

  /** Both lists start with the same entries before `t` and have no others. */
  predicate SameHead(a: seq<CrlEntry>, b: seq<CrlEntry>, t: nat) {
    var head := Filter(a, Before(t));
    head <= a && head <= b && Filter(b, Before(t)) == head
  }

  /** The entries before a settled second, at a state and at any later one. */
  lemma HeadStays(env: Env, w: World, more: seq<Action>, caId: nat, t: nat)
    requires Inv(env, w) && SecondSettled(w, caId, t)
    ensures SameHead(CrlEntriesOf(w.db, caId), CrlEntriesOf(Run(env, w, more).db, caId), t)
  {
    var cut := Rfc3339.Format(t);
    assert StampBy(cut, w.clock);
    RunInv(env, w, more);
    RunSettled(env, w, more, caId, cut);
    SettledEntries(env, w, caId, t);
    SettledEntries(env, Run(env, w, more), caId, t);
  }

  lemma SplitRun(env: Env, start: World, actions: seq<Action>, j: nat, k: nat)
    requires j <= k <= |actions|
    ensures Run(env, start, actions[..k]) == Run(env, Run(env, start, actions[..j]), actions[j..k])
  {
    assert actions[..k] == actions[..j] + actions[j..k];
    RunConcat(env, start, actions[..j], actions[j..k]);
  }

  lemma SameHeadLater(env: Env, w: World, more: seq<Action>, w': World, p: Published, q: Published, t: nat)
    requires Inv(env, w) && SecondSettled(w, p.caId, t) && w' == Run(env, w, more) && p.caId == q.caId
    requires p.crl.entries == CrlEntriesOf(w.db, p.caId) && q.crl.entries == CrlEntriesOf(w'.db, q.caId)
    ensures SameHead(p.crl.entries, q.crl.entries, t)
  {
    HeadStays(env, w, more, p.caId, t);
  }

  /** Let `p` have been listed at a state where the second `t` was settled for its CA. Then its entries before `t` are
      its head and the head of every list of that CA listed later. */
  lemma SettledHeadStays(env: Env, start: World, actions: seq<Action>, j: nat, k: nat, p: Published, q: Published,
                         t: nat)
    requires Initial(start) && p.caId == q.caId && j <= k
    requires ListedFrom(env, start, actions, j, p) && ListedFrom(env, start, actions, k, q)
    requires SecondSettled(Run(env, start, actions[..j]), p.caId, t)
    ensures SameHead(p.crl.entries, q.crl.entries, t)
  {
    var w, w' := Run(env, start, actions[..j]), Run(env, start, actions[..k]);
    InitialInv(env, start);
    RunInv(env, start, actions[..j]);
    SplitRun(env, start, actions, j, k);
    SameHeadLater(env, w, actions[j..k], w', p, q, t);
  }
}
