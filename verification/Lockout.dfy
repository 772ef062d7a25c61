/** Password login with a lockout after five wrong passwords. Times are minutes. */
module Lockout {
  const MAX_FAILURES: nat := 5
  const LOCK_MINUTES: real := 15.0

  /** The stored lock. A text without a time zone cannot be compared with the clock and raises; an unreadable one is ignored. */
  datatype Lock = NoLock | Unreadable | WithoutZone | Until(time: real)

  datatype Account = Account(active: bool, verified: bool, approved: bool, salt: string, passwordHash: string,
                             failedAttempts: nat, lockedUntil: Lock)

  /** scrypt, as an arbitrary function of password and salt. */
  type Scrypt = (string, string) -> string

  const MIN_PASSWORD: nat := 10

  /** A shorter password is not hashed and matches nothing. */
  predicate Matches(scrypt: Scrypt, a: Account, password: string) {
    |password| >= MIN_PASSWORD && scrypt(password, a.salt) == a.passwordHash
  }

  datatype Outcome = UnknownAccount | NotApproved | LockedOut | Incomparable | WrongPassword | SessionIssued

  /** The row after a wrong password, from the row as it was read. */
  function Punished(a: Account, now: real): Account {
    a.(failedAttempts := a.failedAttempts + 1,
       lockedUntil := if a.failedAttempts + 1 >= MAX_FAILURES then Until(now + LOCK_MINUTES) else NoLock)
  }

  function Cleared(a: Account): Account {
    a.(failedAttempts := 0, lockedUntil := NoLock)
  }

  /** One login on one account. */
  function Login(scrypt: Scrypt, a: Account, password: string, now: real): (Account, Outcome) {
    if !a.active then (a, UnknownAccount)
    else if !a.verified || !a.approved then (a, NotApproved)
    else if a.lockedUntil.WithoutZone? then (a, Incomparable)
    else if a.lockedUntil.Until? && a.lockedUntil.time > now then (a, LockedOut)
    else if !Matches(scrypt, a, password) then (Punished(a, now), WrongPassword)
    else (Cleared(a), SessionIssued)
  }

  /** A login on the account gets as far as the password: it may log in, and no lock stands in the way. */
  predicate Open(a: Account, now: real) {
    a.active && a.verified && a.approved && !a.lockedUntil.WithoutZone? && (a.lockedUntil.Until? ==> a.lockedUntil.time <= now)
  }

  class AccountStore {
    /** Accounts by normalised email. */
    var accounts: map<string, Account>

    method IssueAccountSession(scrypt: Scrypt, email: string, password: string, now: real) returns (o: Outcome)
      modifies this
      ensures email !in old(accounts) ==> o == UnknownAccount && accounts == old(accounts)
      ensures email in old(accounts) ==>
                var (after, outcome) := Login(scrypt, old(accounts)[email], password, now);
                o == outcome && accounts == old(accounts)[email := after]
      ensures o == SessionIssued <==>
                email in old(accounts)
                && var row := old(accounts)[email];
                && row.active && row.verified && row.approved
                && !row.lockedUntil.WithoutZone? && (row.lockedUntil.Until? ==> row.lockedUntil.time <= now)
                && |password| >= 10 && scrypt(password, row.salt) == row.passwordHash
      ensures o == LockedOut <==>
                email in old(accounts)
                && var row := old(accounts)[email];
                && row.active && row.verified && row.approved && row.lockedUntil.Until? && row.lockedUntil.time > now
      ensures o == WrongPassword <==>
                email in old(accounts) && Open(old(accounts)[email], now)
                && (|password| < 10 || scrypt(password, old(accounts)[email].salt) != old(accounts)[email].passwordHash)
      ensures o == SessionIssued ==>
                accounts == old(accounts)[email := old(accounts)[email].(failedAttempts := 0, lockedUntil := NoLock)]
      ensures o == WrongPassword ==>
                var row := old(accounts)[email]; var count := row.failedAttempts + 1;
                accounts == old(accounts)[email :=
                  row.(failedAttempts := count, lockedUntil := if count >= 5 then Until(now + 15.0) else NoLock)]
      ensures o != SessionIssued && o != WrongPassword ==> accounts == old(accounts)
    {
      if email !in accounts || !accounts[email].active {
        return UnknownAccount;
      }
      var row := accounts[email];
      if !row.verified || !row.approved {
        return NotApproved;
      }
      match row.lockedUntil {
        case WithoutZone => return Incomparable;
        case Until(time) => if time > now { return LockedOut; }
        case _ =>
      }
      if !Matches(scrypt, row, password) {
        var attempts := row.failedAttempts + 1;
        var locked := if attempts >= MAX_FAILURES then Until(now + LOCK_MINUTES) else NoLock;
        accounts := accounts[email := row.(failedAttempts := attempts, lockedUntil := locked)];
        return WrongPassword;
      }
      accounts := accounts[email := row.(failedAttempts := 0, lockedUntil := NoLock)];
      return SessionIssued;
    }
  }

  // ---- runs of one account ------------------------------------------------------------------------------------

  /** A login, or an administrator's change of the account's standing. */
  datatype Event = Attempt(password: string, now: real) | SetStanding(active: bool, verified: bool, approved: bool, now: real)

  function Step(scrypt: Scrypt, a: Account, e: Event): (Account, Outcome) {
    match e
    case Attempt(password, now) => Login(scrypt, a, password, now)
    case SetStanding(active, verified, approved, _) =>
      (a.(active := active, verified := verified, approved := approved), NotApproved)
  }

  function After(scrypt: Scrypt, a: Account, events: seq<Event>): Account {
    if events == [] then a else Step(scrypt, After(scrypt, a, events[..|events| - 1]), events[|events| - 1]).0
  }

  function LastOutcome(scrypt: Scrypt, a: Account, events: seq<Event>): Outcome
    requires events != []
  {
    Step(scrypt, After(scrypt, a, events[..|events| - 1]), events[|events| - 1]).1
  }

  /** How many wrong passwords were compared with the stored hash. */
  function WrongOnes(scrypt: Scrypt, a: Account, events: seq<Event>): nat {
    if events == [] then 0
    else WrongOnes(scrypt, a, events[..|events| - 1]) + if LastOutcome(scrypt, a, events) == WrongPassword then 1 else 0
  }

  ghost predicate NoSession(scrypt: Scrypt, a: Account, events: seq<Event>) {
    forall n | 0 < n <= |events| :: LastOutcome(scrypt, a, events[..n]) != SessionIssued
  }

  ghost predicate Ordered(events: seq<Event>) {
    forall i, j | 0 <= i < j < |events| :: events[i].now <= events[j].now
  }

  /** Once five wrong passwords were compared, the lock is fifteen minutes further for each one more. */
  ghost predicate Locked(a: Account, wrong: nat, first: real, last: real) {
    && wrong <= a.failedAttempts
    && (wrong >= MAX_FAILURES ==>
          && a.lockedUntil.Until? && a.lockedUntil.time <= last + LOCK_MINUTES
          && first + (wrong - 4) as real * LOCK_MINUTES <= a.lockedUntil.time)
  }

  lemma StepLocks(scrypt: Scrypt, a: Account, e: Event, wrong: nat, first: real, last: real)
    requires Locked(a, wrong, first, last) && first <= last <= e.now
    requires Step(scrypt, a, e).1 != SessionIssued
    ensures var (after, outcome) := Step(scrypt, a, e);
            Locked(after, if outcome == WrongPassword then wrong + 1 else wrong, first, e.now)
  {
  }

  lemma {:induction false} RunLocks(scrypt: Scrypt, a: Account, events: seq<Event>)
    requires events != [] && Ordered(events) && NoSession(scrypt, a, events)
    ensures Locked(After(scrypt, a, events), WrongOnes(scrypt, a, events), events[0].now, events[|events| - 1].now)
  {
    var n := |events| - 1;
    assert events[..|events|] == events;
    if n == 0 {
      assert events[..0] == [];
      StepLocks(scrypt, a, events[0], 0, events[0].now, events[0].now);
    } else {
      forall m | 0 < m <= n ensures LastOutcome(scrypt, a, events[..n][..m]) != SessionIssued {
        assert events[..n][..m] == events[..m];
      }
      RunLocks(scrypt, a, events[..n]);
      var before := events[..n];
      StepLocks(scrypt, After(scrypt, a, before), events[n], WrongOnes(scrypt, a, before), events[0].now, events[n - 1].now);
    }
  }

  /** Without a session, T minutes see at most 5 + floor(T / 15) wrong passwords compared, whatever the account's state before. */
  lemma LockoutBound(scrypt: Scrypt, a: Account, events: seq<Event>)
    requires events != [] && Ordered(events) && NoSession(scrypt, a, events)
    ensures var span := events[|events| - 1].now - events[0].now;
            WrongOnes(scrypt, a, events) <= MAX_FAILURES + (span / LOCK_MINUTES).Floor
  {
    hide After, WrongOnes, LastOutcome;
    RunLocks(scrypt, a, events);
    assert events[0].now <= events[|events| - 1].now;
  }

  // ---- the bound is reached -------------------------------------------------------------------------------------

  function AtOnce(password: string, n: nat): (events: seq<Event>)
    ensures |events| == n && forall i | 0 <= i < n :: events[i] == Attempt(password, 0.0)
  {
    seq(n, _ => Attempt(password, 0.0))
  }

  /** Five wrong passwords at once, then one whenever the lock ends. */
  function Patient(password: string, k: nat): (events: seq<Event>)
    ensures |events| == MAX_FAILURES + k && events[|events| - 1].now == k as real * LOCK_MINUTES
    ensures events[0].now == 0.0 && forall i | 0 <= i < |events| :: events[i].now <= k as real * LOCK_MINUTES
  {
    if k == 0 then AtOnce(password, MAX_FAILURES)
    else Patient(password, k - 1) + [Attempt(password, k as real * LOCK_MINUTES)]
  }

  predicate IsFresh(a: Account) {
    a.active && a.verified && a.approved && a.lockedUntil == NoLock && a.failedAttempts == 0
  }

  lemma RunSnoc(scrypt: Scrypt, a: Account, events: seq<Event>, e: Event)
    ensures var (after, outcome) := Step(scrypt, After(scrypt, a, events), e);
            && After(scrypt, a, events + [e]) == after
            && WrongOnes(scrypt, a, events + [e]) == WrongOnes(scrypt, a, events) + if outcome == WrongPassword then 1 else 0
  {
    assert (events + [e])[..|events|] == events;
  }

  /** The account after 5 + k wrong passwords, each compared as soon as the lock allowed. */
  function Battered(a: Account, k: nat): Account {
    a.(failedAttempts := MAX_FAILURES + k, lockedUntil := Until(k as real * LOCK_MINUTES + LOCK_MINUTES))
  }

  /** The wrong password sent when the lock ends is compared, and locks again. */
  lemma OneMore(scrypt: Scrypt, a: Account, password: string, k: nat, before: seq<Event>)
    requires IsFresh(a) && !Matches(scrypt, a, password) && k > 0
    requires After(scrypt, a, before) == Battered(a, k - 1)
    ensures var all := before + [Attempt(password, k as real * LOCK_MINUTES)];
            After(scrypt, a, all) == Battered(a, k) && WrongOnes(scrypt, a, all) == WrongOnes(scrypt, a, before) + 1
  {
    RunSnoc(scrypt, a, before, Attempt(password, k as real * LOCK_MINUTES));
    hide After, WrongOnes;
    assert (k - 1) as real * LOCK_MINUTES + LOCK_MINUTES == k as real * LOCK_MINUTES;
  }

  /** Exactly 5 + k wrong passwords are compared within 15k minutes. */
  lemma {:induction false} BoundIsReached(scrypt: Scrypt, a: Account, password: string, k: nat)
    requires IsFresh(a) && !Matches(scrypt, a, password)
    ensures WrongOnes(scrypt, a, Patient(password, k)) == MAX_FAILURES + k
    ensures After(scrypt, a, Patient(password, k)) == Battered(a, k)
  {
    hide After, WrongOnes, Matches;
    if k == 0 {
      FiveAreCompared(scrypt, a, Patient(password, 0));
    } else {
      hide Battered;
      BoundIsReached(scrypt, a, password, k - 1);
      OneMore(scrypt, a, password, k, Patient(password, k - 1));
    }
  }

  // ---- what a session and the passing of time undo -----------------------------------------------------------

  ghost predicate AllWrong(scrypt: Scrypt, a: Account, events: seq<Event>) {
    forall i | 0 <= i < |events| :: events[i].Attempt? && !Matches(scrypt, a, events[i].password)
  }

  /** A fresh account after some wrong passwords, at most five, the last of them at `last`. */
  function Failed(a: Account, failures: nat, last: real): Account {
    a.(failedAttempts := failures, lockedUntil := if failures == MAX_FAILURES then Until(last + LOCK_MINUTES) else NoLock)
  }

  lemma OneFailure(scrypt: Scrypt, a: Account, failures: nat, last: real, e: Event)
    requires IsFresh(a) && failures < MAX_FAILURES && e.Attempt? && !Matches(scrypt, a, e.password)
    ensures Step(scrypt, Failed(a, failures, last), e) == (Failed(a, failures + 1, e.now), WrongPassword)
  {
  }

  /** From a fresh account, five wrong passwords are compared at whatever times they come, and only the fifth locks. */
  lemma {:induction false} FiveAreCompared(scrypt: Scrypt, a: Account, events: seq<Event>)
    requires IsFresh(a) && AllWrong(scrypt, a, events) && |events| <= MAX_FAILURES
    ensures WrongOnes(scrypt, a, events) == |events|
    ensures After(scrypt, a, events) == Failed(a, |events|, if events == [] then 0.0 else events[|events| - 1].now)
  {
    if events != [] {
      hide After, WrongOnes, Matches, Step, Failed, IsFresh;
      var n := |events| - 1;
      var before := events[..n];
      FiveAreCompared(scrypt, a, before);
      RunSnoc(scrypt, a, before, events[n]);
      OneFailure(scrypt, a, n, if before == [] then 0.0 else before[n - 1].now, events[n]);
      assert events == before + [events[n]];
    }
  }

  /** A session forgets every failure before it: again five wrong passwords are compared before a lock. */
  lemma SessionForgets(scrypt: Scrypt, a: Account, password: string, now: real, events: seq<Event>)
    requires Login(scrypt, a, password, now).1 == SessionIssued
    requires var after := Login(scrypt, a, password, now).0; AllWrong(scrypt, after, events)
    requires |events| <= MAX_FAILURES
    ensures var after := Login(scrypt, a, password, now).0; WrongOnes(scrypt, after, events) == |events|
  {
    FiveAreCompared(scrypt, Login(scrypt, a, password, now).0, events);
  }

  /** After the wrong password that locks, even the right one is refused for fifteen minutes, and then issues a session. */
  lemma LockEnds(scrypt: Scrypt, a: Account, wrong: string, now: real, right: string, later: real)
    requires a.failedAttempts + 1 >= MAX_FAILURES && Login(scrypt, a, wrong, now).1 == WrongPassword
    requires Matches(scrypt, a, right) && now <= later
    ensures var after := Login(scrypt, a, wrong, now).0;
            Login(scrypt, after, right, later).1 == if later < now + LOCK_MINUTES then LockedOut else SessionIssued
  {
    assert Matches(scrypt, Login(scrypt, a, wrong, now).0, right);
  }

  /**
   * For a row whose hash was made from p: p issues a session, whatever the number of failures before, and any other
   * password with another scrypt value is compared and counted.
   */
  lemma OnlyThePasswordIssues(scrypt: Scrypt, a: Account, p: string, q: string, now: real)
    requires Open(a, now) && |p| >= 10 && a.passwordHash == scrypt(p, a.salt)
    ensures LastOutcome(scrypt, a, [Attempt(p, now)]) == SessionIssued
    ensures After(scrypt, a, [Attempt(p, now)]) == a.(failedAttempts := 0, lockedUntil := NoLock)
    ensures |q| < 10 || scrypt(q, a.salt) != scrypt(p, a.salt) ==>
              WrongOnes(scrypt, a, [Attempt(q, now)]) == 1
              && After(scrypt, a, [Attempt(q, now)]).failedAttempts == a.failedAttempts + 1
  {
    assert [Attempt(p, now)][..0] == [] && [Attempt(q, now)][..0] == [];
  }
}
