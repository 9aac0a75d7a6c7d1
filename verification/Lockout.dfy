/** The failed-login counter and the lock of `AuthService`: `authenticate_user`, `create_tokens`,
    `refresh_access_token` and `logout`, each one atomic step with one clock reading. Whether a
    password is right, and whom a refresh token names, are inputs. */
module Lockout {
  import opened Options
  import opened LastWrites

  datatype User = User(
    attempts: Option<nat>,
    lockedUntil: Option<real>,
    active: bool,
    lastLogin: Option<real>,
    refreshToken: Option<string>)

  type Users = map<string, User>

  const THRESHOLD := 5
  const LOCK_SECONDS := 900.0

  datatype Outcome = Success | Incorrect | Locked | Inactive

  datatype Event =
    | Login(email: string, correct: bool, now: real)
    | IssueTokens(email: string, token: string, now: real)
    | Refresh(claim: Option<string>, token: string, now: real)
    | Logout(email: string, now: real)

  function Attempts(u: User): nat {
    match u.attempts case None => 0 case Some(n) => n
  }

  // One step

  predicate IsLocked(u: User, now: real) {
    u.lockedUntil.Some? && u.lockedUntil.value > now
  }

  function Authenticate(users: Users, email: string, correct: bool, now: real): Outcome {
    if email !in users || !correct then Incorrect
    else if IsLocked(users[email], now) then Locked
    else if !users[email].active then Inactive
    else Success
  }

  function WithTokens(u: User, token: string, now: real): User {
    u.(refreshToken := Some(token), lastLogin := Some(now), attempts := Some(0))
  }

  /** One user after one event. */
  function UserStep(email: string, u: User, ev: Event): User {
    match ev
    case Login(e, correct, now) =>
      if e != email then u
      else if !correct then
        var n := Attempts(u) + 1;
        u.(attempts := Some(n), lockedUntil := if n >= THRESHOLD then Some(now + LOCK_SECONDS) else u.lockedUntil)
      else if !IsLocked(u, now) && u.active then
        u.(attempts := Some(0), lockedUntil := None, lastLogin := Some(now))
      else u
    case IssueTokens(e, token, now) => if e != email then u else WithTokens(u, token, now)
    case Refresh(claim, token, now) =>
      if claim != Some(email) || !u.active then u else WithTokens(u, token, now)
    case Logout(e, _) => if e != email then u else u.(refreshToken := None)
  }

  function Effect(users: Users, ev: Event): Users {
    map e | e in users :: UserStep(e, users[e], ev)
  }

  class AuthService {
    var users: Users

    constructor (users: Users)
      ensures this.users == users
    {
      this.users := users;
    }

    method AuthenticateUser(email: string, correct: bool, now: real) returns (outcome: Outcome)
      modifies this
      ensures outcome == old(Authenticate(users, email, correct, now))
      ensures users == old(Effect(users, Login(email, correct, now)))
    {
      if email !in users {
        return Incorrect;
      }
      var user := users[email];
      if !correct {
        user := user.(attempts := Some(Attempts(user) + 1));
        if user.attempts.value >= THRESHOLD {
          user := user.(lockedUntil := Some(now + LOCK_SECONDS));
        }
        users := users[email := user];
        return Incorrect;
      }
      if user.lockedUntil.Some? && user.lockedUntil.value > now {
        return Locked;
      }
      if !user.active {
        return Inactive;
      }
      users := users[email := user.(attempts := Some(0), lockedUntil := None, lastLogin := Some(now))];
      outcome := Success;
    }

    method CreateTokens(email: string, token: string, now: real)
      requires email in users
      modifies this
      ensures users == old(Effect(users, IssueTokens(email, token, now)))
    {
      users := users[email := WithTokens(users[email], token, now)];
    }

    method RefreshAccessToken(claim: Option<string>, token: string, now: real) returns (ok: bool)
      modifies this
      ensures ok <==> claim.Some? && claim.value in old(users) && old(users)[claim.value].active
      ensures users == old(Effect(users, Refresh(claim, token, now)))
    {
      if claim == None || claim.value !in users || !users[claim.value].active {
        return false;
      }
      CreateTokens(claim.value, token, now);
      ok := true;
    }

    method Logout(email: string, now: real)
      requires email in users
      modifies this
      ensures users == old(Effect(users, Event.Logout(email, now)))
    {
      users := users[email := users[email].(refreshToken := None)];
    }
  }

  // Runs

  /** The accounts after the first `n` events. */
  function After(users: Users, evs: seq<Event>, n: nat): (r: Users)
    requires n <= |evs|
    ensures r.Keys == users.Keys
  {
    if n == 0 then users else Effect(After(users, evs, n - 1), evs[n - 1])
  }

  predicate Monotone(evs: seq<Event>) {
    forall i, j | 0 <= i <= j < |evs| :: evs[i].now <= evs[j].now
  }

  /** How the login attempt that is event `i` of the run ends. */
  function OutcomeAt(users: Users, evs: seq<Event>, i: nat): Outcome
    requires i < |evs| && evs[i].Login?
  {
    Authenticate(After(users, evs, i), evs[i].email, evs[i].correct, evs[i].now)
  }

  predicate WrongPassword(ev: Event, email: string) {
    ev.Login? && ev.email == email && !ev.correct
  }

  function WrongCount(evs: seq<Event>, email: string, k: nat, n: nat): nat
    requires k <= n <= |evs|
  {
    if k == n then 0
    else WrongCount(evs, email, k, n - 1) + if WrongPassword(evs[n - 1], email) then 1 else 0
  }

  /** Event `i` zeroes the counter of the account: a successful login, or tokens issued or
      refreshed. */
  predicate ZeroesCounter(users: Users, evs: seq<Event>, email: string, i: nat)
    requires email in users && i < |evs|
  {
    match evs[i]
    case Login(e, _, _) => e == email && OutcomeAt(users, evs, i) == Success
    case IssueTokens(e, _, _) => e == email
    case Refresh(claim, _, _) => claim == Some(email) && users[email].active
    case Logout(_, _) => false
  }

  /** Event `i` is at least the fifth wrong password since event `k`, with nothing in between that
      zeroes the counter. */
  predicate Streak(users: Users, evs: seq<Event>, email: string, k: nat, i: nat)
    requires email in users
  {
    && k <= i < |evs|
    && WrongPassword(evs[i], email)
    && WrongCount(evs, email, k, i + 1) >= 5
    && forall m: nat | k <= m <= i :: !ZeroesCounter(users, evs, email, m)
  }

  // The lock holds

  lemma {:induction false} StaysActive(users: Users, evs: seq<Event>, email: string, n: nat)
    requires email in users && n <= |evs|
    ensures After(users, evs, n)[email].active == users[email].active
  {
    if n > 0 {
      StaysActive(users, evs, email, n - 1);
    }
  }

  /** An event zeroes the counter, adds one to it, or leaves it alone. */
  lemma CounterStep(users: Users, evs: seq<Event>, email: string, n: nat)
    requires email in users && n < |evs|
    ensures Attempts(After(users, evs, n + 1)[email])
         == if ZeroesCounter(users, evs, email, n) then 0
            else Attempts(After(users, evs, n)[email]) + if WrongPassword(evs[n], email) then 1 else 0
  {
    StaysActive(users, evs, email, n);
  }

  /** A wrong password at the threshold sets the deadline, a successful login removes it, and
      nothing else touches it. */
  lemma LockStep(users: Users, evs: seq<Event>, email: string, n: nat)
    requires email in users && n < |evs|
    ensures After(users, evs, n + 1)[email].lockedUntil
         == if WrongPassword(evs[n], email) && Attempts(After(users, evs, n)[email]) + 1 >= THRESHOLD
            then Some(evs[n].now + LOCK_SECONDS)
            else if evs[n].Login? && evs[n].email == email && OutcomeAt(users, evs, n) == Success then None
            else After(users, evs, n)[email].lockedUntil
  {
  }

  /** What is observed of one account over a run: counter and deadline before each event and at
      the end, and which events zero the counter. */
  datatype Trace = Trace(counts: seq<nat>, locks: seq<Option<real>>, zeroes: seq<bool>)

  ghost predicate Observes(t: Trace, users: Users, evs: seq<Event>, email: string)
    requires email in users
  {
    && |t.counts| == |t.locks| == |evs| + 1 && |t.zeroes| == |evs|
    && (forall n | 0 <= n <= |evs| :: t.counts[n] == Attempts(After(users, evs, n)[email]))
    && (forall n | 0 <= n <= |evs| :: t.locks[n] == After(users, evs, n)[email].lockedUntil)
    && (forall n | 0 <= n < |evs| :: t.zeroes[n] == ZeroesCounter(users, evs, email, n))
  }

  /** How event `n` moves counter and deadline, in terms of the events alone. */
  ghost predicate MovesAt(t: Trace, evs: seq<Event>, email: string, n: nat)
    requires |t.counts| == |t.locks| == |evs| + 1 && |t.zeroes| == |evs| && n < |evs|
  {
    && t.counts[n + 1] == (if t.zeroes[n] then 0
                           else t.counts[n] + if WrongPassword(evs[n], email) then 1 else 0)
    && (if WrongPassword(evs[n], email) && t.counts[n] + 1 >= THRESHOLD
        then t.locks[n + 1] == Some(evs[n].now + LOCK_SECONDS)
        else t.locks[n + 1] == t.locks[n]
             || (t.locks[n + 1] == None && (t.locks[n].Some? ==> t.locks[n].value <= evs[n].now)))
    && (WrongPassword(evs[n], email) ==> !t.zeroes[n])
  }

  ghost predicate Moves(t: Trace, evs: seq<Event>, email: string) {
    && |t.counts| == |t.locks| == |evs| + 1 && |t.zeroes| == |evs|
    && forall n: nat | n < |evs| :: MovesAt(t, evs, email, n)
  }

  lemma ObservedMove(t: Trace, users: Users, evs: seq<Event>, email: string, n: nat)
    requires email in users && Observes(t, users, evs, email) && n < |evs|
    ensures MovesAt(t, evs, email, n)
  {
    CounterStep(users, evs, email, n);
    LockStep(users, evs, email, n);
    assert t.counts[n] == Attempts(After(users, evs, n)[email]);
    assert t.counts[n + 1] == Attempts(After(users, evs, n + 1)[email]);
    assert t.locks[n] == After(users, evs, n)[email].lockedUntil;
    assert t.locks[n + 1] == After(users, evs, n + 1)[email].lockedUntil;
  }

  lemma Observe(users: Users, evs: seq<Event>, email: string) returns (t: Trace)
    requires email in users
    ensures Observes(t, users, evs, email) && Moves(t, evs, email)
  {
    t := Trace(seq(|evs| + 1, n requires 0 <= n <= |evs| => Attempts(After(users, evs, n)[email])),
               seq(|evs| + 1, n requires 0 <= n <= |evs| => After(users, evs, n)[email].lockedUntil),
               seq(|evs|, n requires 0 <= n < |evs| => ZeroesCounter(users, evs, email, n)));
    forall n: nat | n < |evs|
      ensures MovesAt(t, evs, email, n)
    {
      ObservedMove(t, users, evs, email, n);
    }
  }

  /** `Streak`, on a trace. */
  ghost predicate TraceStreak(t: Trace, evs: seq<Event>, email: string, k: nat, i: nat)
    requires |t.zeroes| == |evs|
  {
    && k <= i < |evs| && WrongPassword(evs[i], email)
    && WrongCount(evs, email, k, i + 1) >= THRESHOLD
    && forall m | k <= m <= i :: !t.zeroes[m]
  }

  lemma StreakSeen(t: Trace, users: Users, evs: seq<Event>, email: string, k: nat, i: nat)
    requires email in users && Observes(t, users, evs, email)
    ensures Streak(users, evs, email, k, i) <==> TraceStreak(t, evs, email, k, i)
  {
  }

  /** Without a zeroing event the counter grows by each wrong password. */
  lemma {:induction false} CounterGrows(t: Trace, evs: seq<Event>, email: string, k: nat, n: nat)
    requires Moves(t, evs, email) && k <= n <= |evs|
    requires forall m | k <= m < n :: !t.zeroes[m]
    ensures t.counts[n] == t.counts[k] + WrongCount(evs, email, k, n)
  {
    if k < n {
      assert MovesAt(t, evs, email, n - 1);
      CounterGrows(t, evs, email, k, n - 1);
    }
  }

  /** A deadline that all events up to `n` fall short of is not brought forward by them. */
  lemma {:induction false} LockPersists(t: Trace, evs: seq<Event>, email: string, i: nat, n: nat)
    requires Moves(t, evs, email) && Monotone(evs) && i < n <= |evs|
    requires t.locks[i + 1] == Some(evs[i].now + LOCK_SECONDS)
    requires forall m | 0 <= m < n :: evs[m].now < evs[i].now + LOCK_SECONDS
    ensures t.locks[n].Some? && t.locks[n].value >= evs[i].now + LOCK_SECONDS
  {
    if i + 1 < n {
      assert MovesAt(t, evs, email, n - 1);
      LockPersists(t, evs, email, i, n - 1);
    }
  }

  /** Once a wrong password leaves the counter at five or more, no login succeeds in the following
      fifteen minutes, whatever logins, token issues, refreshes and logouts come in between. */
  lemma LockHolds(users: Users, evs: seq<Event>, email: string, i: nat, j: nat)
    requires email in users && Monotone(evs) && i < j < |evs|
    requires WrongPassword(evs[i], email) && Attempts(After(users, evs, i + 1)[email]) >= 5
    requires evs[j].Login? && evs[j].email == email && evs[j].now < evs[i].now + 900.0
    ensures OutcomeAt(users, evs, j) == if evs[j].correct then Locked else Incorrect
  {
    var t := Observe(users, evs, email);
    assert t.counts[i + 1] == Attempts(After(users, evs, i + 1)[email]);
    assert MovesAt(t, evs, email, i);
    LockPersists(t, evs, email, i, j);
    assert t.locks[j] == After(users, evs, j)[email].lockedUntil;
  }

  /** Hence five wrong passwords in a row lock the account. */
  lemma LockoutSafety(users: Users, evs: seq<Event>, email: string, k: nat, i: nat, j: nat)
    requires email in users && Monotone(evs) && i < j < |evs|
    requires Streak(users, evs, email, k, i)
    requires evs[j].Login? && evs[j].email == email && evs[j].now < evs[i].now + 900.0
    ensures OutcomeAt(users, evs, j) == if evs[j].correct then Locked else Incorrect
  {
    var t := Observe(users, evs, email);
    StreakSeen(t, users, evs, email, k, i);
    CounterGrows(t, evs, email, k, i + 1);
    assert t.counts[i + 1] == Attempts(After(users, evs, i + 1)[email]);
    LockHolds(users, evs, email, i, j);
  }

  // The lock has a cause

  predicate Untouched(u: User) {
    u.attempts in {None, Some(0)} && u.lockedUntil == None
  }

  ghost predicate CountsSince(t: Trace, evs: seq<Event>, email: string, k: nat, n: nat)
    requires Moves(t, evs, email)
  {
    && k <= n <= |evs| && t.counts[n] == WrongCount(evs, email, k, n)
    && forall m | k <= m < n :: !t.zeroes[m]
  }

  /** The counter of a clean account is the number of wrong passwords since some event. */
  lemma {:induction false} CounterExplained(t: Trace, evs: seq<Event>, email: string, n: nat) returns (k: nat)
    requires Moves(t, evs, email) && t.counts[0] == 0 && n <= |evs|
    ensures CountsSince(t, evs, email, k, n)
  {
    if n == 0 {
      k := 0;
    } else {
      assert MovesAt(t, evs, email, n - 1);
      k := CounterExplained(t, evs, email, n - 1);
      k := if t.zeroes[n - 1] then n else k;
    }
  }

  /** The deadline of a clean account was set by a streak. */
  lemma {:induction false} LockExplained(t: Trace, evs: seq<Event>, email: string, n: nat) returns (k: nat, i: nat)
    requires Moves(t, evs, email) && t.counts[0] == 0 && t.locks[0] == None
    requires n <= |evs| && t.locks[n].Some?
    ensures i < n && TraceStreak(t, evs, email, k, i)
    ensures t.locks[n].value == evs[i].now + LOCK_SECONDS
  {
    assert n > 0 ==> MovesAt(t, evs, email, n - 1);
    if WrongPassword(evs[n - 1], email) && t.counts[n - 1] + 1 >= THRESHOLD {
      k := CounterExplained(t, evs, email, n - 1);
      i := n - 1;
      assert WrongCount(evs, email, k, n) == WrongCount(evs, email, k, n - 1) + 1;
    } else {
      k, i := LockExplained(t, evs, email, n - 1);
    }
  }

  /** For an account that starts with a clean record: the right password is refused as locked if
      and only if a streak of five wrong passwords ended less than fifteen minutes before. */
  lemma LockedExactly(users: Users, evs: seq<Event>, email: string, j: nat)
    requires email in users && Untouched(users[email]) && Monotone(evs) && j < |evs|
    requires evs[j].Login? && evs[j].email == email && evs[j].correct
    ensures OutcomeAt(users, evs, j) == Locked
            <==> exists k: nat, i: nat :: i < j && Streak(users, evs, email, k, i)
                                          && evs[j].now < evs[i].now + 900.0
  {
    if OutcomeAt(users, evs, j) == Locked {
      var t := Observe(users, evs, email);
      var k, i := LockExplained(t, evs, email, j);
      StreakSeen(t, users, evs, email, k, i);
    }
    if k: nat, i: nat :| i < j && Streak(users, evs, email, k, i) && evs[j].now < evs[i].now + 900.0 {
      LockoutSafety(users, evs, email, k, i, j);
    }
  }

  /** The deadline only ever moves forward, until a successful login removes it. */
  lemma DeadlineNeverDecreases(users: Users, evs: seq<Event>, email: string, n: nat)
    requires email in users && Untouched(users[email]) && Monotone(evs) && n < |evs|
    requires After(users, evs, n)[email].lockedUntil.Some?
    ensures var before := After(users, evs, n)[email].lockedUntil;
            var after := After(users, evs, n + 1)[email].lockedUntil;
            if evs[n].Login? && evs[n].email == email && OutcomeAt(users, evs, n) == Success
            then after == None
            else after.Some? && after.value >= before.value
  {
    var t := Observe(users, evs, email);
    var k, i := LockExplained(t, evs, email, n);
    LockStep(users, evs, email, n);
  }

  // Every outcome

  /** A streak of wrong passwords ended less than fifteen minutes before event `j`. */
  ghost predicate RecentStreak(users: Users, evs: seq<Event>, email: string, j: nat)
    requires email in users && j < |evs|
  {
    exists k: nat, i: nat :: i < j && Streak(users, evs, email, k, i) && evs[j].now < evs[i].now + 900.0
  }

  /** For an account that starts with a clean record, a login succeeds if and only if the password is
      right, the account active and there was no recent streak; a locked account is told so whether
      active or not. */
  lemma OutcomeExactly(users: Users, evs: seq<Event>, email: string, j: nat)
    requires email in users && Untouched(users[email]) && Monotone(evs) && j < |evs|
    requires evs[j].Login? && evs[j].email == email
    ensures var outcome, streak := OutcomeAt(users, evs, j), RecentStreak(users, evs, email, j);
            && (outcome == Success <==> evs[j].correct && users[email].active && !streak)
            && (outcome == Inactive <==> evs[j].correct && !users[email].active && !streak)
            && (outcome == Locked <==> evs[j].correct && streak)
            && (outcome == Incorrect <==> !evs[j].correct)
  {
    StaysActive(users, evs, email, j);
    if evs[j].correct {
      LockedExactly(users, evs, email, j);
    }
  }

  /** An address without an account is answered like a wrong password. */
  lemma UnknownIsIncorrect(users: Users, evs: seq<Event>, j: nat)
    requires j < |evs| && evs[j].Login? && evs[j].email !in users
    ensures OutcomeAt(users, evs, j) == Incorrect
  {
  }

  // Tokens and last logins

  /** Tokens are stored when they are issued, or refreshed for an active account, and forgotten at logout. */
  function TokenWrite(users: Users, ev: Event, email: string): Write<string>
    requires email in users
  {
    match ev
    case Login(_, _, _) => None
    case IssueTokens(e, token, _) => if e == email then Some(Some(token)) else None
    case Refresh(claim, token, _) => if claim == Some(email) && users[email].active then Some(Some(token)) else None
    case Logout(e, _) => if e == email then Some(None) else None
  }

  /** A login that succeeds is noted, and so are tokens issued or refreshed. */
  function LoginWrite(users: Users, evs: seq<Event>, email: string, i: nat): Write<real>
    requires email in users && i < |evs|
  {
    if ZeroesCounter(users, evs, email, i) then Some(Some(evs[i].now)) else None
  }

  lemma AccountStep(users: Users, evs: seq<Event>, email: string, n: nat)
    requires email in users && n < |evs|
    ensures var u, v := After(users, evs, n)[email], After(users, evs, n + 1)[email];
            && v.refreshToken == Written(u.refreshToken, TokenWrite(users, evs[n], email))
            && v.lastLogin == Written(u.lastLogin, LoginWrite(users, evs, email, n))
  {
    StaysActive(users, evs, email, n);
  }

  /** A zeroed counter is 0, not null. */
  lemma CounterZeroed(users: Users, evs: seq<Event>, email: string, n: nat)
    requires email in users && n < |evs| && ZeroesCounter(users, evs, email, n)
    ensures After(users, evs, n + 1)[email].attempts == Some(0)
  {
    StaysActive(users, evs, email, n);
  }

  ghost function TokenWrites(users: Users, evs: seq<Event>, email: string): (ws: seq<Write<string>>)
    requires email in users
    ensures |ws| == |evs| && forall n | 0 <= n < |evs| :: ws[n] == TokenWrite(users, evs[n], email)
  {
    seq(|evs|, n requires 0 <= n < |evs| => TokenWrite(users, evs[n], email))
  }

  ghost function LoginWrites(users: Users, evs: seq<Event>, email: string): (ws: seq<Write<real>>)
    requires email in users
    ensures |ws| == |evs| && forall n | 0 <= n < |evs| :: ws[n] == LoginWrite(users, evs, email, n)
  {
    seq(|evs|, n requires 0 <= n < |evs| => LoginWrite(users, evs, email, n))
  }

  /** An account before each event and at the end. */
  ghost function Account(users: Users, evs: seq<Event>, email: string): (us: seq<User>)
    requires email in users
    ensures |us| == |evs| + 1 && forall n | 0 <= n <= |evs| :: us[n] == After(users, evs, n)[email]
  {
    seq(|evs| + 1, n requires 0 <= n <= |evs| => After(users, evs, n)[email])
  }

  ghost function Tokens(us: seq<User>): (ts: seq<Option<string>>)
    ensures |ts| == |us| && forall n | 0 <= n < |us| :: ts[n] == us[n].refreshToken
  {
    seq(|us|, n requires 0 <= n < |us| => us[n].refreshToken)
  }

  ghost function Logins(us: seq<User>): (ts: seq<Option<real>>)
    ensures |ts| == |us| && forall n | 0 <= n < |us| :: ts[n] == us[n].lastLogin
  {
    seq(|us|, n requires 0 <= n < |us| => us[n].lastLogin)
  }

  lemma AccountFollows(users: Users, evs: seq<Event>, email: string)
    requires email in users
    ensures var us := Account(users, evs, email);
            && Follows(Tokens(us), TokenWrites(users, evs, email))
            && Follows(Logins(us), LoginWrites(users, evs, email))
            && us[0] == users[email]
  {
    var us := Account(users, evs, email);
    forall n | 0 <= n < |evs|
      ensures us[n + 1].refreshToken == Written(us[n].refreshToken, TokenWrites(users, evs, email)[n])
      ensures us[n + 1].lastLogin == Written(us[n].lastLogin, LoginWrites(users, evs, email)[n])
    {
      AccountStep(users, evs, email, n);
      hide After;
    }
    assert us[0] == After(users, evs, 0)[email];
    hide After, TokenWrite, LoginWrite, Account;
  }

  /** After every run the refresh token of an account is the last one stored, if none was forgotten since. */
  lemma TokenExactly(users: Users, evs: seq<Event>, email: string, n: nat, r: Option<string>)
    requires email in users && n <= |evs|
    ensures After(users, evs, n)[email].refreshToken == r
       <==> Left(users[email].refreshToken, TokenWrites(users, evs, email), n, r)
  {
    AccountFollows(users, evs, email);
    var us := Account(users, evs, email);
    assert us[n] == After(users, evs, n)[email];
    hide After, TokenWrite, LoginWrite, Follows;
    ValueIsLastWrite(Tokens(us), TokenWrites(users, evs, email), n, r);
  }

  /** And its last login the time of the last event that was one. */
  lemma LastLoginExactly(users: Users, evs: seq<Event>, email: string, n: nat, r: Option<real>)
    requires email in users && n <= |evs|
    ensures After(users, evs, n)[email].lastLogin == r
       <==> Left(users[email].lastLogin, LoginWrites(users, evs, email), n, r)
  {
    AccountFollows(users, evs, email);
    var us := Account(users, evs, email);
    assert us[n] == After(users, evs, n)[email];
    hide After, TokenWrite, LoginWrite, Follows;
    ValueIsLastWrite(Logins(us), LoginWrites(users, evs, email), n, r);
  }
}
