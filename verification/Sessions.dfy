/** The session table under any interleaving of logins, checks, logouts and sweeps, split at every access to the shared
    map: a check answers as if it had looked at one instant, and expiry never removes a session that is still valid. */
module Sessions {
  import opened Dashauth

  /** A login: the clock is read, then the session is stored. */
  datatype Login = Login(token: string, now: nat)

  /** A check of a token: called; the stored session loaded; found expired, so about to delete; answered. */
  datatype Check =
    | Idle
    | Called(token: string)
    | Loaded(token: string, session: Session)
    | Dropping(token: string, session: Session)
    | Answered(token: string, valid: bool)

  /** A sweeper round: one clock reading; the entry found expired by it is deleted in a separate access. */
  datatype Round =
    | Visiting(now: nat)
    | Removing(now: nat, token: string, session: Session)

  /** `sessions` is the code's map. The full history is kept beside it: every token drawn, every session ever stored,
      every stored token that was logged out. */
  datatype State = State(
    clock: nat,
    sessions: map<string, Session>,
    drawn: set<string>,
    created: map<string, Session>,
    loggedOut: set<string>,
    logins: map<nat, Login>,
    checks: map<nat, Check>,
    rounds: map<nat, Round>)

  datatype Action =
    | Tick(nanos: nat)
    | LoginRead(id: nat, token: string)
    | LoginStore(id: nat, ip: string)
    | Logout(token: string)
    | CheckCall(id: nat, token: string)
    | CheckLoad(id: nat)
    | CheckClock(id: nat)
    | CheckDelete(id: nat)
    | CheckReturn(id: nat)
    | RoundStart(id: nat)
    | RoundVisit(id: nat, token: string)
    | RoundDelete(id: nat)
    | RoundEnd(id: nat)

  predicate Initial(s: State) {
    s.sessions == map[] && s.drawn == {} && s.created == map[] && s.loggedOut == {} && s.logins == map[]
    && s.checks == map[] && s.rounds == map[]
  }

  function CheckOf(s: State, id: nat): Check {
    if id in s.checks then s.checks[id] else Idle
  }

  /** An action whose thread stands elsewhere changes nothing; a drawn token is never drawn again. */
  function Step(s: State, a: Action): State {
    match a
    case Tick(nanos) => s.(clock := s.clock + nanos)
    case LoginRead(id, token) =>
      if id in s.logins || token in s.drawn then s
      else s.(drawn := s.drawn + {token}, logins := s.logins[id := Login(token, s.clock)])
    case LoginStore(id, ip) =>
      if id !in s.logins then s
      else
        var login := s.logins[id];
        var session := NewSession(login.now, ip);
        s.(sessions := s.sessions[login.token := session], created := s.created[login.token := session],
           logins := s.logins - {id})
    case Logout(token) =>
      s.(sessions := s.sessions - {token},
         loggedOut := if token in s.created then s.loggedOut + {token} else s.loggedOut)
    case CheckCall(id, token) =>
      if CheckOf(s, id).Idle? then s.(checks := s.checks[id := Called(token)]) else s
    case CheckLoad(id) =>
      var c := CheckOf(s, id);
      if !c.Called? then s
      else if c.token in s.sessions then s.(checks := s.checks[id := Loaded(c.token, s.sessions[c.token])])
      else s.(checks := s.checks[id := Answered(c.token, false)])
    case CheckClock(id) =>
      var c := CheckOf(s, id);
      if !c.Loaded? then s
      else if Expired(c.session, s.clock) then s.(checks := s.checks[id := Dropping(c.token, c.session)])
      else s.(checks := s.checks[id := Answered(c.token, true)])
    case CheckDelete(id) =>
      var c := CheckOf(s, id);
      if !c.Dropping? then s
      else s.(sessions := s.sessions - {c.token}, checks := s.checks[id := Answered(c.token, false)])
    case CheckReturn(id) =>
      if CheckOf(s, id).Answered? then s.(checks := s.checks[id := Idle]) else s
    case RoundStart(id) => if id in s.rounds then s else s.(rounds := s.rounds[id := Visiting(s.clock)])
    case RoundVisit(id, token) =>
      if id in s.rounds && s.rounds[id].Visiting? && token in s.sessions && Expired(s.sessions[token], s.rounds[id].now)
      then s.(rounds := s.rounds[id := Removing(s.rounds[id].now, token, s.sessions[token])])
      else s
    case RoundDelete(id) =>
      if id in s.rounds && s.rounds[id].Removing?
      then s.(sessions := s.sessions - {s.rounds[id].token}, rounds := s.rounds[id := Visiting(s.rounds[id].now)])
      else s
    case RoundEnd(id) => if id in s.rounds && s.rounds[id].Visiting? then s.(rounds := s.rounds - {id}) else s
  }

  function Run(s: State, actions: seq<Action>): State {
    if actions == [] then s else Step(Run(s, actions[..|actions| - 1]), actions[|actions| - 1])
  }

  /** The specification: stored, not logged out, not past its expiry. */
  predicate Valid(s: State, token: string) {
    token in s.created && token !in s.loggedOut && !Expired(s.created[token], s.clock)
  }

  // ---------- the invariant ----------

  predicate TableOk(s: State) {
    && (forall t :: t in s.sessions ==> t in s.created && s.sessions[t] == s.created[t] && t !in s.loggedOut)
    && (forall t :: t in s.created && t !in s.loggedOut && t !in s.sessions ==> Expired(s.created[t], s.clock))
    && s.loggedOut <= s.created.Keys <= s.drawn
  }

  predicate LoginsOk(s: State) {
    && (forall i :: i in s.logins ==> s.logins[i].token in s.drawn && s.logins[i].token !in s.created)
    && (forall i, j :: i in s.logins && j in s.logins && i != j ==> s.logins[i].token != s.logins[j].token)
  }

  predicate CheckOk(s: State, c: Check) {
    && (c.Loaded? || c.Dropping? ==> c.token in s.created && s.created[c.token] == c.session)
    && (c.Dropping? ==> Expired(c.session, s.clock))
  }

  predicate RoundOk(s: State, r: Round) {
    && r.now <= s.clock
    && (r.Removing? ==> r.token in s.created && s.created[r.token] == r.session && Expired(r.session, s.clock))
  }

  predicate Inv(s: State) {
    && TableOk(s) && LoginsOk(s)
    && (forall i :: i in s.checks ==> CheckOk(s, s.checks[i]))
    && (forall i :: i in s.rounds ==> RoundOk(s, s.rounds[i]))
  }

  lemma StoreOk(s: State, id: nat, ip: string)
    requires TableOk(s) && LoginsOk(s)
    ensures TableOk(Step(s, LoginStore(id, ip))) && LoginsOk(Step(s, LoginStore(id, ip)))
  {
    if id in s.logins {
      assert s.logins[id].token !in s.created && s.logins[id].token !in s.loggedOut;
    }
  }

  lemma LogoutOk(s: State, token: string)
    requires TableOk(s) && LoginsOk(s)
    ensures TableOk(Step(s, Logout(token))) && LoginsOk(Step(s, Logout(token)))
  {
  }

  /** Dropping an expired session keeps the table right. */
  lemma DropOk(s: State, token: string)
    requires TableOk(s) && token in s.created && Expired(s.created[token], s.clock)
    ensures TableOk(s.(sessions := s.sessions - {token}))
  {
  }

  lemma DeleteOk(s: State, a: Action)
    requires Inv(s) && (a.CheckDelete? || a.RoundDelete?)
    ensures TableOk(Step(s, a)) && LoginsOk(Step(s, a))
  {
    if a.CheckDelete? && CheckOf(s, a.id).Dropping? {
      assert CheckOk(s, s.checks[a.id]);
      DropOk(s, s.checks[a.id].token);
    } else if a.RoundDelete? && a.id in s.rounds && s.rounds[a.id].Removing? {
      assert RoundOk(s, s.rounds[a.id]);
      DropOk(s, s.rounds[a.id].token);
    }
  }

  lemma DrawOk(s: State, id: nat, token: string)
    requires TableOk(s) && LoginsOk(s)
    ensures TableOk(Step(s, LoginRead(id, token))) && LoginsOk(Step(s, LoginRead(id, token)))
  {
  }

  predicate TouchesTable(a: Action) {
    a.LoginRead? || a.LoginStore? || a.Logout? || a.CheckDelete? || a.RoundDelete?
  }

  lemma TableUntouched(s: State, a: Action)
    requires !TouchesTable(a)
    ensures var s' := Step(s, a);
      && s'.sessions == s.sessions && s'.drawn == s.drawn && s'.created == s.created && s'.loggedOut == s.loggedOut
      && s'.logins == s.logins && s.clock <= s'.clock
  {
  }

  lemma OtherOk(s: State, a: Action)
    requires TableOk(s) && LoginsOk(s) && !TouchesTable(a)
    ensures TableOk(Step(s, a)) && LoginsOk(Step(s, a))
  {
    TableUntouched(s, a);
  }

  lemma StepTableOk(s: State, a: Action)
    requires Inv(s)
    ensures TableOk(Step(s, a)) && LoginsOk(Step(s, a))
  {
    match a
    case LoginRead(id, token) => DrawOk(s, id, token);
    case LoginStore(id, ip) => StoreOk(s, id, ip);
    case Logout(token) => LogoutOk(s, token);
    case CheckDelete(_) => DeleteOk(s, a);
    case RoundDelete(_) => DeleteOk(s, a);
    case _ => OtherOk(s, a);
  }

  lemma HistoryKept(s: State, a: Action)
    requires LoginsOk(s)
    ensures s.clock <= Step(s, a).clock
    ensures forall t :: t in s.created ==> t in Step(s, a).created && Step(s, a).created[t] == s.created[t]
  {
  }

  lemma CheckAdvances(s: State, a: Action, i: nat)
    requires TableOk(s) && (i in s.checks ==> CheckOk(s, s.checks[i])) && i in Step(s, a).checks
    ensures CheckOk(s, Step(s, a).checks[i])
  {
  }

  lemma RoundAdvances(s: State, a: Action, i: nat)
    requires TableOk(s) && (i in s.rounds ==> RoundOk(s, s.rounds[i])) && i in Step(s, a).rounds
    ensures RoundOk(s, Step(s, a).rounds[i])
  {
  }

  lemma StepThreadsOk(s: State, a: Action)
    requires Inv(s)
    ensures forall i :: i in Step(s, a).checks ==> CheckOk(Step(s, a), Step(s, a).checks[i])
    ensures forall i :: i in Step(s, a).rounds ==> RoundOk(Step(s, a), Step(s, a).rounds[i])
  {
    var s' := Step(s, a);
    HistoryKept(s, a);
    forall i | i in s'.checks
      ensures CheckOk(s', s'.checks[i])
    {
      CheckAdvances(s, a, i);
    }
    forall i | i in s'.rounds
      ensures RoundOk(s', s'.rounds[i])
    {
      RoundAdvances(s, a, i);
    }
  }

  lemma {:induction false} RunInv(s: State, actions: seq<Action>)
    requires Initial(s)
    ensures Inv(Run(s, actions))
  {
    if actions == [] {
    } else {
      var front := Run(s, actions[..|actions| - 1]);
      RunInv(s, actions[..|actions| - 1]);
      StepTableOk(front, actions[|actions| - 1]);
      StepThreadsOk(front, actions[|actions| - 1]);
    }
  }

  // ---------- deletions ----------

  /** Whatever removes a token from the map other than a logout of that very token finds it no longer valid: neither the
      lazy deletion nor the sweeper, however stale its clock reading, ever ends a valid session. */
  lemma OnlyLogoutEndsValid(s: State, actions: seq<Action>, a: Action, token: string)
    requires Initial(s)
    requires var t := Run(s, actions); token in t.sessions && token !in Step(t, a).sessions
    ensures a == Logout(token) || !Valid(Run(s, actions), token)
  {
    RunInv(s, actions);
    var t := Run(s, actions);
    match a
    case CheckDelete(id) => assert CheckOk(t, t.checks[id]);
    case RoundDelete(id) => assert RoundOk(t, t.rounds[id]);
    case _ =>
  }

  /** And a valid token is always in the map, so expiry handling never makes a check miss it. */
  lemma ValidIsStored(s: State, actions: seq<Action>, token: string)
    requires Initial(s)
    ensures var t := Run(s, actions); Valid(t, token) <==> token in t.sessions && !Expired(t.sessions[token], t.clock)
  {
    RunInv(s, actions);
  }

  // ---------- linearizability ----------

  /** From step `from` to step `to` the check `id` has been in one and the same call about `token`. */
  predicate SameCall(s: State, actions: seq<Action>, id: nat, token: string, from: nat, to: nat)
    requires from <= to <= |actions|
  {
    forall n :: from <= n <= to ==>
                  var c := CheckOf(Run(s, actions[..n]), id);
                  !c.Idle? && c.token == token
  }

  /** Some instant of the call at which the specification gives `valid`. */
  predicate AgreedAt(s: State, actions: seq<Action>, id: nat, token: string, at: nat, valid: bool) {
    at <= |actions| && SameCall(s, actions, id, token, at, |actions|) && Valid(Run(s, actions[..at]), token) == valid
  }

  ghost predicate Agreed(s: State, actions: seq<Action>, id: nat, token: string, valid: bool) {
    exists at: nat :: AgreedAt(s, actions, id, token, at, valid)
  }

  lemma AgreedNow(s: State, actions: seq<Action>, id: nat, token: string, valid: bool)
    requires !CheckOf(Run(s, actions), id).Idle? && CheckOf(Run(s, actions), id).token == token
    requires Valid(Run(s, actions), token) == valid
    ensures Agreed(s, actions, id, token, valid)
  {
    assert actions[..|actions|] == actions;
    assert AgreedAt(s, actions, id, token, |actions|, valid);
  }

  lemma AgreedStill(s: State, actions: seq<Action>, id: nat, token: string, valid: bool)
    requires actions != [] && Agreed(s, actions[..|actions| - 1], id, token, valid)
    requires !CheckOf(Run(s, actions), id).Idle? && CheckOf(Run(s, actions), id).token == token
    ensures Agreed(s, actions, id, token, valid)
  {
    var front := actions[..|actions| - 1];
    var at: nat :| AgreedAt(s, front, id, token, at, valid);
    forall n | at <= n <= |actions|
      ensures var c := CheckOf(Run(s, actions[..n]), id); !c.Idle? && c.token == token
    {
      if n <= |front| {
        assert actions[..n] == front[..n];
      } else {
        assert actions[..n] == actions;
      }
    }
    assert actions[..at] == front[..at];
    assert AgreedAt(s, actions, id, token, at, valid);
  }

  /** What each stage of a check can already point back to: once the session is loaded, an instant of this call at which
      the token was valid unless the session had expired; once answered, an instant that agrees with the answer. */
  ghost predicate Explained(s: State, actions: seq<Action>, id: nat) {
    match CheckOf(Run(s, actions), id)
    case Loaded(token, session) =>
      Expired(session, Run(s, actions).clock) || Agreed(s, actions, id, token, true)
    case Dropping(token, session) => Agreed(s, actions, id, token, false)
    case Answered(token, valid) => Agreed(s, actions, id, token, valid)
    case _ => true
  }

  lemma LoadExplained(s: State, actions: seq<Action>, id: nat)
    requires Initial(s) && actions != [] && actions[|actions| - 1] == CheckLoad(id)
    requires CheckOf(Run(s, actions[..|actions| - 1]), id).Called?
    ensures Explained(s, actions, id)
  {
    RunInv(s, actions);
    var t := Run(s, actions);
    var c := CheckOf(t, id);
    if c.Answered? {
      AgreedNow(s, actions, id, c.token, false);
    } else if !Expired(c.session, t.clock) {
      AgreedNow(s, actions, id, c.token, true);
    }
  }

  lemma ClockExplained(s: State, actions: seq<Action>, id: nat)
    requires Initial(s) && actions != [] && actions[|actions| - 1] == CheckClock(id)
    requires CheckOf(Run(s, actions[..|actions| - 1]), id).Loaded? && Explained(s, actions[..|actions| - 1], id)
    ensures Explained(s, actions, id)
  {
    RunInv(s, actions);
    RunInv(s, actions[..|actions| - 1]);
    var t, c := Run(s, actions), CheckOf(Run(s, actions[..|actions| - 1]), id);
    assert CheckOk(Run(s, actions[..|actions| - 1]), c);
    if Expired(c.session, t.clock) {
      AgreedNow(s, actions, id, c.token, false);
    } else {
      AgreedStill(s, actions, id, c.token, true);
    }
  }

  /** Any action that leaves the check where it is, and the deletion that follows a found expiry. */
  lemma OtherExplained(s: State, actions: seq<Action>, id: nat)
    requires actions != [] && Explained(s, actions[..|actions| - 1], id)
    requires Run(s, actions[..|actions| - 1]).clock <= Run(s, actions).clock
    requires Stays(CheckOf(Run(s, actions[..|actions| - 1]), id), CheckOf(Run(s, actions), id))
    ensures Explained(s, actions, id)
  {
    var after := CheckOf(Run(s, actions), id);
    match after
    case Loaded(token, session) =>
      if Agreed(s, actions[..|actions| - 1], id, token, true) {
        AgreedStill(s, actions, id, token, true);
      }
    case Dropping(token, _) => AgreedStill(s, actions, id, token, false);
    case Answered(token, valid) => AgreedStill(s, actions, id, token, valid);
    case _ =>
  }

  predicate Stays(before: Check, after: Check) {
    after == before || (before.Dropping? && after == Answered(before.token, false)) || after.Idle? || after.Called?
  }

  lemma StageOf(s: State, a: Action, id: nat)
    ensures var before, after := CheckOf(s, id), CheckOf(Step(s, a), id);
      || (a == CheckLoad(id) && before.Called?)
      || (a == CheckClock(id) && before.Loaded?)
      || Stays(before, after)
    ensures s.clock <= Step(s, a).clock
  {
  }

  lemma {:induction false} AllExplained(s: State, actions: seq<Action>, id: nat)
    requires Initial(s)
    ensures Explained(s, actions, id)
  {
    if actions == [] {
    } else {
      var front, last := actions[..|actions| - 1], actions[|actions| - 1];
      AllExplained(s, front, id);
      StageOf(Run(s, front), last, id);
      if last == CheckLoad(id) && CheckOf(Run(s, front), id).Called? {
        LoadExplained(s, actions, id);
      } else if last == CheckClock(id) && CheckOf(Run(s, front), id).Loaded? {
        ClockExplained(s, actions, id);
      } else {
        OtherExplained(s, actions, id);
      }
    }
  }

  /** `validSession` is linearizable: whenever a check has answered, there is an instant between its call and its answer
      at which "created, not logged out, not expired" had exactly that value. */
  lemma ChecksLinearizable(s: State, actions: seq<Action>, id: nat)
    requires Initial(s) && CheckOf(Run(s, actions), id).Answered?
    ensures var c := CheckOf(Run(s, actions), id); exists at: nat :: AgreedAt(s, actions, id, c.token, at, c.valid)
  {
    AllExplained(s, actions, id);
  }

  /** A check that nothing interrupts does what the method `ValidSession` does: same answer, same table. */
  lemma CheckAlone(s: State, id: nat, token: string)
    requires CheckOf(s, id).Idle?
    ensures var t := Step(Step(Step(Step(s, CheckCall(id, token)), CheckLoad(id)), CheckClock(id)), CheckDelete(id));
      var valid := token in s.sessions && !Expired(s.sessions[token], s.clock);
      && CheckOf(t, id) == Answered(token, valid)
      && t.sessions == if token in s.sessions && !valid then s.sessions - {token} else s.sessions
  {
    var loaded := Step(Step(s, CheckCall(id, token)), CheckLoad(id));
    assert CheckOf(loaded, id) == if token in s.sessions then Loaded(token, s.sessions[token])
        else Answered(token, false);
    assert loaded.sessions == s.sessions && loaded.clock == s.clock;
  }

  // ---------- eight hours ----------

  const EIGHT_HOURS: nat := 28_800_000_000_000

  /** Action `i` of the run is a login drawing `token` and reading its clock. */
  predicate Draws(s: State, actions: seq<Action>, i: nat, token: string) {
    && i < |actions| && actions[i].LoginRead? && actions[i].token == token
    && actions[i].id !in Run(s, actions[..i]).logins && token !in Run(s, actions[..i]).drawn
  }

  /** The login of a token that is under way or was stored is dated by the clock at its draw. */
  predicate DatedBy(s: State, token: string, t: nat) {
    && (forall id :: id in s.logins && s.logins[id].token == token ==> s.logins[id].now == t)
    && (token in s.created ==> s.created[token].expiresAt == t + EIGHT_HOURS)
  }

  lemma StepDated(s: State, a: Action, token: string, t: nat)
    requires DatedBy(s, token, t) && token in s.drawn
    ensures DatedBy(Step(s, a), token, t) && token in Step(s, a).drawn
  {
  }

  lemma DrawDated(s: State, id: nat, token: string)
    requires LoginsOk(s) && TableOk(s) && id !in s.logins && token !in s.drawn
    ensures DatedBy(Step(s, LoginRead(id, token)), token, s.clock) && token in Step(s, LoginRead(id, token)).drawn
  {
  }

  lemma {:induction false} SessionDated(s: State, actions: seq<Action>, i: nat, token: string)
    requires Initial(s) && Draws(s, actions, i, token)
    ensures DatedBy(Run(s, actions), token, Run(s, actions[..i]).clock) && token in Run(s, actions).drawn
  {
    var n := |actions| - 1;
    if i == n {
      RunInv(s, actions[..n]);
      DrawDated(Run(s, actions[..n]), actions[n].id, token);
    } else {
      assert actions[..n][..i] == actions[..i];
      SessionDated(s, actions[..n], i, token);
      StepDated(Run(s, actions[..n]), actions[n], token, Run(s, actions[..i]).clock);
    }
  }

  /** A token that was stored and not logged out is valid at exactly the instants up to eight hours after the clock
      reading of its login: it is in the map then, and a check that nothing interrupts answers just that. */
  lemma ValidForEightHours(s: State, actions: seq<Action>, i: nat, token: string, id: nat)
    requires Initial(s) && Draws(s, actions, i, token)
    requires token in Run(s, actions).created && token !in Run(s, actions).loggedOut
    requires CheckOf(Run(s, actions), id).Idle?
    ensures var t, login := Run(s, actions), Run(s, actions[..i]).clock;
      var checked := Step(Step(Step(Step(t, CheckCall(id, token)), CheckLoad(id)), CheckClock(id)), CheckDelete(id));
      && (t.clock <= login + 8 * 3600 * 1_000_000_000 ==> token in t.sessions)
      && CheckOf(checked, id) == Answered(token, t.clock <= login + 8 * 3600 * 1_000_000_000)
  {
    SessionDated(s, actions, i, token);
    ValidIsStored(s, actions, token);
    RunInv(s, actions);
    CheckAlone(Run(s, actions), id, token);
  }

  predicate NoOlder(s: State, s': State) {
    s.loggedOut <= s'.loggedOut && s.created.Keys <= s'.created.Keys && s.clock <= s'.clock
  }

  lemma StepNoOlder(s: State, a: Action)
    ensures NoOlder(s, Step(s, a))
  {
  }

  lemma {:induction false} HistoryGrows(s: State, actions: seq<Action>, b: nat, a: nat)
    requires a <= b <= |actions|
    ensures NoOlder(Run(s, actions[..a]), Run(s, actions[..b]))
    decreases b
  {
    if a == b {
    } else {
      HistoryGrows(s, actions, b - 1, a);
      assert actions[..b][..b - 1] == actions[..b - 1];
      StepNoOlder(Run(s, actions[..b - 1]), actions[b - 1]);
    }
  }

  /** The same for a check with anything in between: called after the token was stored, and answered before it is logged
      out, it answers true if the answer comes within the eight hours and false if the call comes after them. */
  lemma CheckedInEightHours(s: State, actions: seq<Action>, i: nat, called: nat, token: string, id: nat)
    requires Initial(s) && Draws(s, actions, i, token) && i < called <= |actions|
    requires token in Run(s, actions[..called]).created && token !in Run(s, actions).loggedOut
    requires CheckOf(Run(s, actions[..called]), id).Idle?
    requires CheckOf(Run(s, actions), id).Answered? && CheckOf(Run(s, actions), id).token == token
    ensures var login, valid := Run(s, actions[..i]).clock, CheckOf(Run(s, actions), id).valid;
      && (Run(s, actions).clock <= login + 8 * 3600 * 1_000_000_000 ==> valid)
      && (Run(s, actions[..called]).clock > login + 8 * 3600 * 1_000_000_000 ==> !valid)
  {
    var valid := CheckOf(Run(s, actions), id).valid;
    ChecksLinearizable(s, actions, id);
    var at: nat :| AgreedAt(s, actions, id, token, at, valid);
    assert at > called;
    assert actions[..|actions|] == actions;
    HistoryGrows(s, actions, at, called);
    HistoryGrows(s, actions, |actions|, at);
    assert actions[..at][..i] == actions[..i];
    SessionDated(s, actions[..at], i, token);
  }
}
