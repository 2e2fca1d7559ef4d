/** Dashboard authentication: the login limiter and the session table. The maps are pruned as they are used; the class
    methods below are proved against the pure operations that the interleaved runs are built from. */
module Dashauth {
  import opened Prelude

  const SECOND: nat := 1_000_000_000
  const WINDOW: nat := 60 * SECOND
  const SESSION_DURATION: nat := 8 * 3600 * SECOND
  const MAX_LOGIN_PER_MIN: nat := 5

  type Attempts = map<string, seq<nat>>

  // ---------- attempts ----------

  /** The attempts strictly after `cutoff`, in order. */
  function Recent(attempts: seq<nat>, cutoff: int): (r: seq<nat>)
    ensures |r| <= |attempts|
  {
    if attempts == [] then []
    else
      var rest := Recent(attempts[..|attempts| - 1], cutoff);
      var last := attempts[|attempts| - 1];
      if last > cutoff then rest + [last] else rest
  }

  function After(cutoff: int): nat -> bool {
    (x: nat) => x > cutoff
  }

  lemma {:induction false} RecentIsFilter(attempts: seq<nat>, cutoff: int)
    ensures Recent(attempts, cutoff) == Filter(attempts, After(cutoff))
  {
    if attempts == [] {
    } else {
      RecentIsFilter(attempts[..|attempts| - 1], cutoff);
    }
  }

  /** As many attempts are recent as there are attempts after the cutoff. */
  lemma RecentCount(attempts: seq<nat>, cutoff: int)
    ensures |Recent(attempts, cutoff)| == |set i | 0 <= i < |attempts| && attempts[i] > cutoff|
  {
    RecentIsFilter(attempts, cutoff);
    FilterSize(attempts, After(cutoff));
    assert (set i | 0 <= i < |attempts| && attempts[i] > cutoff) == Positions(attempts, After(cutoff));
  }

  lemma RecentMembers(attempts: seq<nat>, cutoff: int)
    ensures forall x :: x in Recent(attempts, cutoff) <==> x in attempts && x > cutoff
  {
    RecentIsFilter(attempts, cutoff);
  }

  function AttemptsOf(m: Attempts, ip: string): seq<nat> {
    if ip in m then m[ip] else []
  }

  /** `allowLogin` leaves only the recent attempts of this address behind. */
  function Prune(m: Attempts, ip: string, now: nat): Attempts {
    m[ip := Recent(AttemptsOf(m, ip), now - WINDOW)]
  }

  predicate Allowed(m: Attempts, ip: string, now: nat) {
    |Recent(AttemptsOf(m, ip), now - WINDOW)| < MAX_LOGIN_PER_MIN
  }

  function Record(m: Attempts, ip: string, now: nat): Attempts {
    m[ip := AttemptsOf(m, ip) + [now]]
  }

  /** The sweeper keeps the recent attempts of every address and drops addresses that have none. */
  function Sweep(m: Attempts, now: nat): Attempts {
    map ip | ip in m && Recent(m[ip], now - WINDOW) != [] :: Recent(m[ip], now - WINDOW)
  }

  /** What is left of a list of attempts are those less than sixty seconds old. */
  ghost predicate KeepsRecent(before: seq<nat>, after: seq<nat>, now: nat) {
    forall x :: x in after <==> x in before && x > now - 60_000_000_000
  }

  /** A sweep keeps the addresses with an attempt less than sixty seconds old, and of each such attempts only. */
  lemma SweepMeans(m: Attempts, now: nat)
    ensures forall ip :: ip in Sweep(m, now) <==> ip in m && exists x :: x in m[ip] && x > now - 60_000_000_000
    ensures forall ip :: ip in Sweep(m, now) ==> KeepsRecent(m[ip], Sweep(m, now)[ip], now)
  {
    forall ip | ip in m
      ensures KeepsRecent(m[ip], Recent(m[ip], now - WINDOW), now)
      ensures Recent(m[ip], now - WINDOW) != [] <==> exists x :: x in m[ip] && x > now - 60_000_000_000
    {
      RecentMembers(m[ip], now - WINDOW);
      if Recent(m[ip], now - WINDOW) != [] {
        assert Recent(m[ip], now - WINDOW)[0] in Recent(m[ip], now - WINDOW);
      }
    }
  }

  // ---------- sessions ----------

  datatype Session = Session(createdAt: nat, expiresAt: nat, remoteIP: string)

  function NewSession(now: nat, ip: string): Session {
    Session(now, now + SESSION_DURATION, ip)
  }

  /** Expired is strictly after the expiry instant. */
  predicate Expired(s: Session, now: nat) {
    now > s.expiresAt
  }

  datatype LoginReply = DevMode | TooMany | BadRequest | InvalidKey | LoggedIn(token: string)

  class DashAuth {
    const apiKey: string
    const devMode: bool
    var sessions: map<string, Session>
    var loginAttempts: Attempts

    constructor (apiKey: string, devMode: bool)
      ensures this.apiKey == apiKey && this.devMode == devMode && sessions == map[] && loginAttempts == map[]
    {
      this.apiKey, this.devMode := apiKey, devMode;
      sessions, loginAttempts := map[], map[];
    }

    predicate IsDevMode() {
      devMode || apiKey == ""
    }

    method AllowLogin(ip: string, now: nat) returns (allowed: bool)
      modifies this`loginAttempts
      ensures allowed <==> Allowed(old(loginAttempts), ip, now)
      ensures var attempts := AttemptsOf(old(loginAttempts), ip);
        allowed <==> |set i | 0 <= i < |attempts| && attempts[i] > now - 60_000_000_000| < 5
      ensures loginAttempts == Prune(old(loginAttempts), ip, now)
    {
      RecentCount(AttemptsOf(loginAttempts, ip), now - WINDOW);
      var attempts := if ip in loginAttempts then loginAttempts[ip] else [];
      var recent := KeepRecent(attempts, now - WINDOW);
      loginAttempts := loginAttempts[ip := recent];
      allowed := |recent| < MAX_LOGIN_PER_MIN;
    }

    method RecordFailedLogin(ip: string, now: nat)
      modifies this`loginAttempts
      ensures loginAttempts == Record(old(loginAttempts), ip, now)
      ensures loginAttempts == old(loginAttempts)[ip := AttemptsOf(old(loginAttempts), ip) + [now]]
    {
      var attempts := if ip in loginAttempts then loginAttempts[ip] else [];
      loginAttempts := loginAttempts[ip := attempts + [now]];
    }

    method CreateSession(ip: string, token: string, now: nat)
      modifies this`sessions
      ensures sessions == old(sessions)[token := NewSession(now, ip)]
      ensures sessions == old(sessions)[token := Session(now, now + 8 * 3600 * 1_000_000_000, ip)]
    {
      sessions := sessions[token := NewSession(now, ip)];
    }

    /** Answers whether the session is known and not expired; an expired one is dropped on the way. */
    method ValidSession(token: string, now: nat) returns (valid: bool)
      modifies this`sessions
      ensures valid <==> token in old(sessions) && now <= old(sessions)[token].expiresAt
      ensures sessions == if token in old(sessions) && !valid then old(sessions) - {token} else old(sessions)
    {
      if token !in sessions {
        return false;
      }
      if Expired(sessions[token], now) {
        sessions := sessions - {token};
        return false;
      }
      return true;
    }

    method HandleLogout(cookie: Option<string>)
      modifies this`sessions
      ensures sessions == if cookie.Some? then old(sessions) - {cookie.value} else old(sessions)
    {
      if cookie.Some? {
        sessions := sessions - {cookie.value};
      }
    }

    /** A login attempt: the body is `None` if it does not decode; `token` is the fresh random token. The clock is read
        for the check and again, `later`, for the failure or the session. */
    method HandleLogin(ip: string, body: Option<string>, token: string, now: nat, later: nat)
      returns (reply: LoginReply)
      modifies this
      ensures IsDevMode() ==> reply == DevMode && sessions == old(sessions) && loginAttempts == old(loginAttempts)
      ensures !IsDevMode() ==>
                && (reply == TooMany <==> !Allowed(old(loginAttempts), ip, now))
                && (reply == LoggedIn(token) <==> Allowed(old(loginAttempts), ip, now) && body == Some(apiKey))
                && sessions == (if reply.LoggedIn?
                                then old(sessions)[token := Session(later, later + 8 * 3600 * 1_000_000_000, ip)]
                                else old(sessions))
                && loginAttempts == (if reply == InvalidKey then Record(Prune(old(loginAttempts), ip, now), ip, later)
                                     else Prune(old(loginAttempts), ip, now))
                && (reply == InvalidKey <==> Allowed(old(loginAttempts), ip, now) && body.Some? && body != Some(apiKey))
                && !reply.DevMode?
    {
      if IsDevMode() {
        return DevMode;
      }
      var allowed := AllowLogin(ip, now);
      if !allowed {
        return TooMany;
      }
      if body.None? {
        return BadRequest;
      }
      if body.value != apiKey {
        RecordFailedLogin(ip, later);
        return InvalidKey;
      }
      CreateSession(ip, token, later);
      return LoggedIn(token);
    }

    /** One round of the cleanup loop; both maps are pruned with the one clock reading taken at its start. */
    method Cleanup(now: nat)
      modifies this
      ensures loginAttempts == Sweep(old(loginAttempts), now)
      ensures sessions
           == map token | token in old(sessions) && now <= old(sessions)[token].expiresAt :: old(sessions)[token]
    {
      var tokens := sessions.Keys;
      while tokens != {}
        invariant tokens <= sessions.Keys <= old(sessions).Keys
        invariant forall token :: token in sessions ==> sessions[token] == old(sessions)[token]
        invariant forall token :: token in old(sessions) && token !in tokens ==>
                                    (token in sessions <==> !Expired(old(sessions)[token], now))
        invariant loginAttempts == old(loginAttempts)
        decreases tokens
      {
        var token :| token in tokens;
        if Expired(sessions[token], now) {
          sessions := sessions - {token};
        }
        tokens := tokens - {token};
      }
      SweepAttempts(now);
    }

    method SweepAttempts(now: nat)
      modifies this`loginAttempts
      ensures loginAttempts == Sweep(old(loginAttempts), now)
    {
      var ips := loginAttempts.Keys;
      while ips != {}
        invariant ips <= loginAttempts.Keys <= old(loginAttempts).Keys
        invariant forall ip :: ip in ips ==> loginAttempts[ip] == old(loginAttempts)[ip]
        invariant forall ip :: ip in old(loginAttempts) && ip !in ips ==>
                                 && (ip in loginAttempts <==> Recent(old(loginAttempts)[ip], now - WINDOW) != [])
                                 && (ip in loginAttempts ==>
                                     loginAttempts[ip] == Recent(old(loginAttempts)[ip], now - WINDOW))
        decreases ips
      {
        var ip :| ip in ips;
        var recent := KeepRecent(loginAttempts[ip], now - WINDOW);
        if |recent| == 0 {
          loginAttempts := loginAttempts - {ip};
        } else {
          loginAttempts := loginAttempts[ip := recent];
        }
        ips := ips - {ip};
      }
    }
  }

  /** The loop that rebuilds `recent`. */
  method KeepRecent(attempts: seq<nat>, cutoff: int) returns (recent: seq<nat>)
    ensures recent == Recent(attempts, cutoff)
  {
    recent := [];
    for i := 0 to |attempts|
      invariant recent == Recent(attempts[..i], cutoff)
    {
      assert attempts[..i + 1][..i] == attempts[..i];
      if attempts[i] > cutoff {
        recent := recent + [attempts[i]];
      }
    }
    assert attempts[..|attempts|] == attempts;
  }
}
