/** The login dialogue of one connection (`ClientThread.promptLogin`) as a
    deterministic transition function over the claims the client sends.
    A username phase is followed by a password phase; one failure counter
    covers both. The state of the rest of the server (who is logged in,
    who is blocked) does not change during one dialogue. */
module Auth {
  import opened Credentials

  /** What the dialogue consults: the credentials file, the usernames
      currently registered as devices, the blocked usernames and the
      configured number of failures that blocks an account. */
  datatype Env = Env(creds: seq<Cred>, loggedIn: set<string>, blocked: set<string>, maxFail: int)

  datatype Phase =
    | AwaitingUsername(failed: nat)
    | AwaitingPassword(user: string, failed: nat)
    | LoggedIn(user: string)         // "welcome"; the device is registered
    | BlockedAccount(user: string)   // "blocked account"; the attempt ends
    | MaxFailed(user: string)        // "max failed attempts"; the username being authenticated gets blocked

  predicate Awaiting(ph: Phase) {
    ph.AwaitingUsername? || ph.AwaitingPassword?
  }

  function Counter(ph: Phase): nat {
    if Awaiting(ph) then ph.failed else 0
  }

  const USERNAME_REQUEST := "username authentication request"
  const USERNAME_RETRY := "retry username authentication request"
  const PASSWORD_REQUEST := "password authentication request"
  const PASSWORD_RETRY := "retry password authentication request"
  const ALREADY_LOGGED_IN := "username already logged in"
  const BLOCKED := "blocked account"
  const MAX_FAILED := "max failed attempts"
  const WELCOME := "welcome"

  /** The two replies that ask the client to try again. */
  predicate IsRetry(reply: string) {
    reply == USERNAME_RETRY || reply == PASSWORD_RETRY
  }

  /** The number of retry requests among `replies`. */
  function Retries(replies: seq<string>): nat {
    if replies == [] then 0 else (if IsRetry(replies[0]) then 1 else 0) + Retries(replies[1..])
  }

  /** One received claim: the next phase and the reply sent for it. */
  function Step(env: Env, ph: Phase, claim: string): (r: (Phase, string))
    requires Awaiting(ph)
    // the counter is never reset: it stays or grows by one
    ensures Awaiting(r.0) ==> Counter(r.0) == Counter(ph) || Counter(r.0) == Counter(ph) + 1
    // accepting the username keeps the counter for the password phase
    ensures ph.AwaitingUsername? && r.0.AwaitingPassword? ==> r.0.failed == ph.failed && r.0.user == claim
    // an already-logged-in username is not a failure and changes nothing
    ensures ph.AwaitingUsername? && claim in env.loggedIn ==> r == (ph, ALREADY_LOGGED_IN)
    // the attempt is ended by the counter only when it reaches the limit
    ensures r.0.MaxFailed? ==> Counter(ph) + 1 == env.maxFail
    // a blocked account never gets past its correct password
    ensures r.0.LoggedIn? ==> ph.AwaitingPassword? && r.0.user == ph.user && ph.user !in env.blocked
                              && PasswordLookup(env.creds, ph.user, claim)
    // each ending has its own reply, and a retry request is sent exactly
    // when the counter goes up
    ensures r.1 == MAX_FAILED <==> r.0.MaxFailed?
    ensures r.1 == WELCOME <==> r.0.LoggedIn?
    ensures r.1 == BLOCKED <==> r.0.BlockedAccount?
    ensures IsRetry(r.1) <==> Awaiting(r.0) && Counter(r.0) == Counter(ph) + 1
  {
    match ph
    case AwaitingUsername(failed) =>
      if UsernameLookup(env.creds, claim) && claim !in env.loggedIn then
        if claim !in env.blocked then (AwaitingPassword(claim, failed), PASSWORD_REQUEST)
        else (BlockedAccount(claim), BLOCKED)
      else if claim in env.loggedIn then (ph, ALREADY_LOGGED_IN)
      else if failed + 1 == env.maxFail then (MaxFailed(claim), MAX_FAILED)
      else (AwaitingUsername(failed + 1), USERNAME_RETRY)
    case AwaitingPassword(user, failed) =>
      if PasswordLookup(env.creds, user, claim) then
        if user !in env.blocked then (LoggedIn(user), WELCOME)
        else (BlockedAccount(user), BLOCKED)
      else if failed + 1 == env.maxFail then (MaxFailed(user), MAX_FAILED)
      else (AwaitingPassword(user, failed + 1), PASSWORD_RETRY)
  }

  /** Where a dialogue got to: its phase, the replies it sent and how many
      claims it read. */
  datatype Trace = Trace(phase: Phase, replies: seq<string>, consumed: nat)

  /** Runs the dialogue over the claims until it ends or the claims run out. */
  function Drive(env: Env, ph: Phase, claims: seq<string>): (t: Trace)
    ensures t.consumed <= |claims|
    ensures |t.replies| == t.consumed
    ensures !Awaiting(t.phase) || t.consumed == |claims|
    decreases |claims|
  {
    if !Awaiting(ph) || claims == [] then Trace(ph, [], 0)
    else
      var step := Step(env, ph, claims[0]);
      var t := Drive(env, step.0, claims[1..]);
      Trace(t.phase, [step.1] + t.replies, t.consumed + 1)
  }

  /** The whole of `promptLogin`: the username request, then the dialogue. */
  function Login(env: Env, claims: seq<string>): (t: Trace)
    ensures t.consumed <= |claims|
    ensures |t.replies| == t.consumed + 1 && t.replies[0] == USERNAME_REQUEST
    ensures !Awaiting(t.phase) || t.consumed == |claims|
  {
    var t := Drive(env, AwaitingUsername(0), claims);
    Trace(t.phase, [USERNAME_REQUEST] + t.replies, t.consumed)
  }

  /** The invariant of the password phase: its username is known and was
      not logged in. */
  ghost predicate Admissible(env: Env, ph: Phase) {
    ph.AwaitingPassword? ==> UsernameLookup(env.creds, ph.user) && ph.user !in env.loggedIn
  }

  /** A dialogue ends logged in only for a known, not logged-in, not
      blocked username, after a claim that its credentials line accepts. */
  lemma {:induction false} LoginNeedsCredentials(env: Env, ph: Phase, claims: seq<string>)
    requires Awaiting(ph) && Admissible(env, ph)
    requires Drive(env, ph, claims).phase.LoggedIn?
    ensures var u := Drive(env, ph, claims).phase.user;
      && UsernameLookup(env.creds, u) && u !in env.loggedIn && u !in env.blocked
      && exists i :: 0 <= i < |claims| && PasswordLookup(env.creds, u, claims[i])
    decreases |claims|
  {
    var next := Step(env, ph, claims[0]).0;
    if next.LoggedIn? {
      assert PasswordLookup(env.creds, next.user, claims[0]);
    } else {
      LoginNeedsCredentials(env, next, claims[1..]);
      var u := Drive(env, ph, claims).phase.user;
      var i :| 0 <= i < |claims[1..]| && PasswordLookup(env.creds, u, claims[1..][i]);
      assert claims[1..][i] == claims[i + 1];
    }
  }

  /** A blocked username is never logged in, whatever the client sends. */
  lemma BlockedNeverLogsIn(env: Env, claims: seq<string>)
    ensures Login(env, claims).phase.LoggedIn? ==> Login(env, claims).phase.user !in env.blocked
  {
    if Login(env, claims).phase.LoggedIn? {
      LoginNeedsCredentials(env, AwaitingUsername(0), claims);
    }
  }

  /** Every counted failure but the last is answered with a retry request,
      so while the dialogue waits the counter is its start plus the retry
      requests sent, and the limit ends it with "max failed attempts" as
      the last reply after exactly `maxFail - counter` counted failures
      (hence at least that many claims). */
  lemma {:induction false} NoLockoutBeforeLimit(env: Env, ph: Phase, claims: seq<string>)
    requires Awaiting(ph)
    ensures var t := Drive(env, ph, claims);
      Awaiting(t.phase) ==> Counter(t.phase) == Counter(ph) + Retries(t.replies)
    ensures var t := Drive(env, ph, claims);
      t.phase.MaxFailed? ==>
        && Retries(t.replies) + 1 == env.maxFail - Counter(ph)
        && t.replies[|t.replies| - 1] == MAX_FAILED
        && t.consumed >= env.maxFail - Counter(ph)
    decreases |claims|
  {
    if claims != [] {
      var step := Step(env, ph, claims[0]);
      var rest := Drive(env, step.0, claims[1..]);
      assert Drive(env, ph, claims) == Trace(rest.phase, [step.1] + rest.replies, rest.consumed + 1);
      RetriesCons(step.1, rest.replies);
      if Awaiting(step.0) {
        NoLockoutBeforeLimit(env, step.0, claims[1..]);
      } else {
        assert rest.replies == [];
      }
    }
  }

  lemma RetriesCons(reply: string, rest: seq<string>)
    ensures Retries([reply] + rest) == (if IsRetry(reply) then 1 else 0) + Retries(rest)
  {
    assert ([reply] + rest)[1..] == rest;
  }

  /** A claim the username phase counts as a failure: unknown and not
      logged in. */
  predicate UnknownName(env: Env, claim: string) {
    !UsernameLookup(env.creds, claim) && claim !in env.loggedIn
  }

  /** Unknown usernames up to the limit are answered with retry requests
      and the last of them with "max failed attempts", after exactly
      `maxFail - failed` claims. */
  lemma {:induction false} UnknownNamesReachLimit(env: Env, failed: nat, claims: seq<string>)
    requires failed < env.maxFail <= failed + |claims|
    requires forall i :: 0 <= i < env.maxFail - failed ==> UnknownName(env, claims[i])
    ensures var t := Drive(env, AwaitingUsername(failed), claims);
      && t.phase == MaxFailed(claims[env.maxFail - failed - 1])
      && t.consumed == env.maxFail - failed
      && t.replies == Repeat(USERNAME_RETRY, env.maxFail - failed - 1) + [MAX_FAILED]
    decreases env.maxFail - failed
  {
    assert UnknownName(env, claims[0]);
    if failed + 1 < env.maxFail {
      UnknownNamesReachLimit(env, failed + 1, claims[1..]);
      assert claims[1..][env.maxFail - (failed + 1) - 1] == claims[env.maxFail - failed - 1];
      ConsAppend(USERNAME_RETRY, Repeat(USERNAME_RETRY, env.maxFail - failed - 2), [MAX_FAILED]);
    } else {
      assert Repeat(USERNAME_RETRY, 0) + [MAX_FAILED] == [MAX_FAILED];
    }
  }

  /** Wrong passwords up to the limit are answered with retry requests
      and the last of them with "max failed attempts" for the username,
      after exactly `maxFail - failed` claims. */
  lemma {:induction false} WrongPasswordsReachLimit(env: Env, user: string, failed: nat, claims: seq<string>)
    requires failed < env.maxFail <= failed + |claims|
    requires forall i :: 0 <= i < env.maxFail - failed ==> !PasswordLookup(env.creds, user, claims[i])
    ensures var t := Drive(env, AwaitingPassword(user, failed), claims);
      && t.phase == MaxFailed(user)
      && t.consumed == env.maxFail - failed
      && t.replies == Repeat(PASSWORD_RETRY, env.maxFail - failed - 1) + [MAX_FAILED]
    decreases env.maxFail - failed
  {
    assert !PasswordLookup(env.creds, user, claims[0]);
    if failed + 1 < env.maxFail {
      WrongPasswordsReachLimit(env, user, failed + 1, claims[1..]);
      ConsAppend(PASSWORD_RETRY, Repeat(PASSWORD_RETRY, env.maxFail - failed - 2), [MAX_FAILED]);
    } else {
      assert Repeat(PASSWORD_RETRY, 0) + [MAX_FAILED] == [MAX_FAILED];
    }
  }

  /** The counter is shared by the two phases: after `k` unknown usernames
      and an accepted one, only `maxFail - k` wrong passwords are needed to
      block the account. */
  lemma {:induction false} CounterSharedAcrossPhases(env: Env, k: nat, user: string, claims: seq<string>)
    requires k < env.maxFail
    requires |claims| == env.maxFail + 1
    requires forall i :: 0 <= i < k ==> UnknownName(env, claims[i])
    requires claims[k] == user && UsernameLookup(env.creds, user)
    requires user !in env.loggedIn && user !in env.blocked
    requires forall i :: k < i < |claims| ==> !PasswordLookup(env.creds, user, claims[i])
    ensures Login(env, claims).phase == MaxFailed(user)
    ensures Login(env, claims).consumed == env.maxFail + 1
  {
    UnknownPrefix(env, 0, k, claims);
    var rest := claims[k + 1..];
    assert forall i :: 0 <= i < env.maxFail - k ==> rest[i] == claims[k + 1 + i];
    WrongPasswordsReachLimit(env, user, k, rest);
    assert claims[k..][1..] == rest;
  }

  /** One unknown username below the limit: a retry request and the
      counter one higher. */
  lemma UnknownStep(env: Env, failed: nat, claims: seq<string>)
    requires failed + 1 < env.maxFail && claims != [] && UnknownName(env, claims[0])
    ensures var t := Drive(env, AwaitingUsername(failed + 1), claims[1..]);
      Drive(env, AwaitingUsername(failed), claims) == Trace(t.phase, [USERNAME_RETRY] + t.replies, t.consumed + 1)
  {
    assert Step(env, AwaitingUsername(failed), claims[0]) == (AwaitingUsername(failed + 1), USERNAME_RETRY);
  }

  /** `k` unknown usernames below the limit leave the dialogue asking for a
      username again with the counter raised by `k`. */
  lemma {:induction false} UnknownPrefix(env: Env, failed: nat, k: nat, claims: seq<string>)
    requires failed + k < env.maxFail && k < |claims|
    requires forall i :: 0 <= i < k ==> UnknownName(env, claims[i])
    ensures var t := Drive(env, AwaitingUsername(failed + k), claims[k..]);
      Drive(env, AwaitingUsername(failed), claims) == Trace(t.phase, Repeat(USERNAME_RETRY, k) + t.replies, t.consumed + k)
    decreases k
  {
    var t := Drive(env, AwaitingUsername(failed + k), claims[k..]);
    if k == 0 {
      assert claims[0..] == claims;
      assert Repeat(USERNAME_RETRY, 0) + t.replies == t.replies;
    } else {
      UnknownStep(env, failed, claims);
      var tail := claims[1..];
      assert forall i :: 0 <= i < k - 1 ==> tail[i] == claims[i + 1];
      UnknownPrefix(env, failed + 1, k - 1, tail);
      assert tail[k - 1..] == claims[k..];
      ConsAppend(USERNAME_RETRY, Repeat(USERNAME_RETRY, k - 1), t.replies);
    }
  }

  lemma ConsAppend<T>(x: T, a: seq<T>, b: seq<T>)
    ensures [x] + (a + b) == ([x] + a) + b
  {
  }

  function Repeat(s: string, k: nat): (r: seq<string>)
    ensures |r| == k && forall i :: 0 <= i < k ==> r[i] == s
  {
    if k == 0 then [] else [s] + Repeat(s, k - 1)
  }

  /** Claims of usernames that are already logged in are answered
      "username already logged in" and cost nothing. */
  lemma {:induction false} LoggedInClaimsAreFree(env: Env, failed: nat, taken: seq<string>, rest: seq<string>)
    requires forall i :: 0 <= i < |taken| ==> taken[i] in env.loggedIn
    ensures var t := Drive(env, AwaitingUsername(failed), rest);
      Drive(env, AwaitingUsername(failed), taken + rest)
        == Trace(t.phase, Repeat(ALREADY_LOGGED_IN, |taken|) + t.replies, t.consumed + |taken|)
  {
    if taken != [] {
      assert (taken + rest)[0] == taken[0];
      assert (taken + rest)[1..] == taken[1..] + rest;
      LoggedInClaimsAreFree(env, failed, taken[1..], rest);
      assert Step(env, AwaitingUsername(failed), taken[0]) == (AwaitingUsername(failed), ALREADY_LOGGED_IN);
      var t := Drive(env, AwaitingUsername(failed), rest);
      var t1 := Drive(env, AwaitingUsername(failed), taken[1..] + rest);
      assert |taken[1..]| == |taken| - 1;
      assert t1 == Trace(t.phase, Repeat(ALREADY_LOGGED_IN, |taken| - 1) + t.replies, t.consumed + |taken| - 1);
      assert Drive(env, AwaitingUsername(failed), taken + rest) == Trace(t1.phase, [ALREADY_LOGGED_IN] + t1.replies, t1.consumed + 1);
      ConsAppend(ALREADY_LOGGED_IN, Repeat(ALREADY_LOGGED_IN, |taken| - 1), t.replies);
      assert Repeat(ALREADY_LOGGED_IN, |taken|) == [ALREADY_LOGGED_IN] + Repeat(ALREADY_LOGGED_IN, |taken| - 1);
    } else {
      assert taken + rest == rest;
    }
  }

  /** A blocked account with a known username is turned away at its first
      claim, before any password is asked for. */
  lemma BlockedEndsAtOnce(env: Env, user: string, rest: seq<string>)
    requires UsernameLookup(env.creds, user) && user !in env.loggedIn && user in env.blocked
    ensures Login(env, [user] + rest) == Trace(BlockedAccount(user), [USERNAME_REQUEST, BLOCKED], 1)
  {
    var claims := [user] + rest;
    assert claims[0] == user && claims[1..] == rest;
    assert Step(env, AwaitingUsername(0), user) == (BlockedAccount(user), BLOCKED);
    assert Drive(env, BlockedAccount(user), rest) == Trace(BlockedAccount(user), [], 0);
    assert Drive(env, AwaitingUsername(0), claims) == Trace(BlockedAccount(user), [BLOCKED], 1);
  }

  /** Once the account is no longer blocked, its username and its password
      log in. */
  lemma UnblockedCanLogIn(env: Env, user: string, password: string)
    requires UsernameLookup(env.creds, user) && PasswordLookup(env.creds, user, password)
    requires user !in env.loggedIn && user !in env.blocked
    ensures Login(env, [user, password]).phase == LoggedIn(user)
  {
    var claims := [user, password];
    assert claims[1..] == [password] && claims[1..][1..] == [];
    assert Step(env, AwaitingUsername(0), user) == (AwaitingPassword(user, 0), PASSWORD_REQUEST);
    assert Step(env, AwaitingPassword(user, 0), password) == (LoggedIn(user), WELCOME);
    assert Drive(env, AwaitingPassword(user, 0), [password]).phase == LoggedIn(user);
  }

  /** A dialogue that has already sent `replies` and read `read` claims
      continues as `t`. */
  function After(replies: seq<string>, read: nat, t: Trace): Trace {
    Trace(t.phase, replies + t.replies, t.consumed + read)
  }

  /** Reading claim `i` in phase `ph` moves the dialogue one step. */
  lemma DriveStep(env: Env, ph: Phase, claims: seq<string>, i: nat, replies: seq<string>)
    requires Awaiting(ph) && i < |claims|
    ensures var step := Step(env, ph, claims[i]);
      After(replies, i, Drive(env, ph, claims[i..]))
        == After(replies + [step.1], i + 1, Drive(env, step.0, claims[i + 1..]))
  {
    assert claims[i..][0] == claims[i];
    assert claims[i..][1..] == claims[i + 1..];
    var step := Step(env, ph, claims[i]);
    var t := Drive(env, step.0, claims[i + 1..]);
    assert replies + ([step.1] + t.replies) == (replies + [step.1]) + t.replies;
  }

  /** `promptLogin`'s two loops over the received claims, with the
      failure counter and the `validUsername` flag as variables. The
      dialogue it carries out is `Login`. When the claims run out the
      connection is closed and the dialogue stops where it is. */
  method Dialogue(env: Env, claims: seq<string>) returns (t: Trace)
    ensures t == Login(env, claims)
  {
    var failedAttempts: nat := 0;
    var validUsername := false;
    var usernameClaim := "";
    var replies := [USERNAME_REQUEST];
    var i := 0;
    assert claims[0..] == claims;
    while !validUsername
      invariant 0 <= i <= |claims|
      invariant !validUsername ==>
        Login(env, claims) == After(replies, i, Drive(env, AwaitingUsername(failedAttempts), claims[i..]))
      invariant validUsername ==>
        Login(env, claims) == After(replies, i, Drive(env, AwaitingPassword(usernameClaim, failedAttempts), claims[i..]))
      decreases |claims| - i, !validUsername
    {
      if i == |claims| {
        return Trace(AwaitingUsername(failedAttempts), replies, i);
      }
      DriveStep(env, AwaitingUsername(failedAttempts), claims, i, replies);
      usernameClaim := claims[i];
      i := i + 1;
      if UsernameLookup(env.creds, usernameClaim) && usernameClaim !in env.loggedIn {
        if usernameClaim !in env.blocked {
          validUsername := true;
          replies := replies + [PASSWORD_REQUEST];
        } else {
          replies := replies + [BLOCKED];
          return Trace(BlockedAccount(usernameClaim), replies, i);
        }
      } else if usernameClaim in env.loggedIn {
        replies := replies + [ALREADY_LOGGED_IN];
      } else {
        failedAttempts := failedAttempts + 1;
        if failedAttempts == env.maxFail {
          replies := replies + [MAX_FAILED];
          return Trace(MaxFailed(usernameClaim), replies, i);
        }
        replies := replies + [USERNAME_RETRY];
      }
    }
    t := PasswordDialogue(env, claims, usernameClaim, failedAttempts, replies, i);
  }

  /** The second loop of `promptLogin`: password claims for a username
      that passed the first loop, with the failure count carried over. */
  method PasswordDialogue(env: Env, claims: seq<string>, usernameClaim: string, failed: nat,
                          replies0: seq<string>, i0: nat) returns (t: Trace)
    requires i0 <= |claims|
    ensures t == After(replies0, i0, Drive(env, AwaitingPassword(usernameClaim, failed), claims[i0..]))
  {
    var failedAttempts := failed;
    var replies := replies0;
    var i := i0;
    while true
      invariant 0 <= i <= |claims|
      invariant After(replies0, i0, Drive(env, AwaitingPassword(usernameClaim, failed), claims[i0..]))
             == After(replies, i, Drive(env, AwaitingPassword(usernameClaim, failedAttempts), claims[i..]))
      decreases |claims| - i
    {
      if i == |claims| {
        return Trace(AwaitingPassword(usernameClaim, failedAttempts), replies, i);
      }
      DriveStep(env, AwaitingPassword(usernameClaim, failedAttempts), claims, i, replies);
      var passwordClaim := claims[i];
      i := i + 1;
      if PasswordLookup(env.creds, usernameClaim, passwordClaim) {
        if usernameClaim !in env.blocked {
          replies := replies + [WELCOME];
          return Trace(LoggedIn(usernameClaim), replies, i);
        } else {
          replies := replies + [BLOCKED];
          return Trace(BlockedAccount(usernameClaim), replies, i);
        }
      } else {
        failedAttempts := failedAttempts + 1;
        if failedAttempts == env.maxFail {
          replies := replies + [MAX_FAILED];
          return Trace(MaxFailed(usernameClaim), replies, i);
        }
        replies := replies + [PASSWORD_RETRY];
      }
    }
  }
}
