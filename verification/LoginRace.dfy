/** Password logins that overlap: each reads its row, checks it and compares, and writes the row back in a later step. */
module LoginRace {
  import opened Lockout

  /** A login between its read and its write: the row as read, and how many writes the row had had by then. */
  datatype Pending = Pending(row: Account, now: real, right: bool, seen: nat)

  /**
   * The row, the logins at work, and counts of what has happened: wrong passwords compared, wrong ones written back,
   * right ones, writes in all, and writes by a login that another write had overtaken since its read.
   */
  datatype State = State(account: Account, pending: map<nat, Pending>,
                         compared: nat, failures: nat, rights: nat, writes: nat, overtaken: nat)

  datatype Action =
    | Read(pid: nat, password: string, now: real)
    | Write(pid: nat)
    | SetStanding(active: bool, verified: bool, approved: bool)

  function Start(a: Account): State {
    State(a, map[], 0, 0, 0, 0, 0)
  }

  /** The update sets the count and the lock from the row that was read, and nothing else. */
  function Written(a: Account, p: Pending): Account {
    if p.right then Cleared(a)
    else a.(failedAttempts := Punished(p.row, p.now).failedAttempts, lockedUntil := Punished(p.row, p.now).lockedUntil)
  }

  /** One step; a step that no caller can take changes nothing. */
  function Next(scrypt: Scrypt, s: State, a: Action): State {
    match a
    case Read(pid, password, now) =>
      var outcome := Login(scrypt, s.account, password, now).1;
      if pid in s.pending || (outcome != WrongPassword && outcome != SessionIssued) then s
      else
        var right := outcome == SessionIssued;
        s.(pending := s.pending[pid := Pending(s.account, now, right, s.writes)],
           compared := if right then s.compared else s.compared + 1,
           rights := if right then s.rights + 1 else s.rights)
    case Write(pid) =>
      if pid !in s.pending then s
      else
        var p := s.pending[pid];
        s.(account := Written(s.account, p), pending := s.pending - {pid}, writes := s.writes + 1,
           failures := if p.right then s.failures else s.failures + 1,
           overtaken := if p.seen == s.writes then s.overtaken else s.overtaken + 1)
    case SetStanding(active, verified, approved) =>
      s.(account := s.account.(active := active, verified := verified, approved := approved))
  }

  function Run(scrypt: Scrypt, s: State, actions: seq<Action>): State {
    if actions == [] then s else Next(scrypt, Run(scrypt, s, actions[..|actions| - 1]), actions[|actions| - 1])
  }

  lemma RunSnoc(scrypt: Scrypt, s: State, actions: seq<Action>, a: Action)
    ensures Run(scrypt, s, actions + [a]) == Next(scrypt, Run(scrypt, s, actions), a)
  {
    assert (actions + [a])[..|actions|] == actions;
  }

  /** With nobody in between, the two steps are the login of a single caller. */
  lemma ReadThenWrite(scrypt: Scrypt, s: State, pid: nat, password: string, now: real)
    requires pid !in s.pending
    ensures Next(scrypt, Next(scrypt, s, Read(pid, password, now)), Write(pid)).account
         == Login(scrypt, s.account, password, now).0
  {
  }

  // ---- what the count means -----------------------------------------------------------------------------

  /** A wrong login: no newer than the row, and equal to it in count and lock while no write has come in between. */
  ghost predicate Current(initial: nat, s: State, p: Pending) {
    && !p.right && p.seen <= s.writes && p.row.failedAttempts <= initial + p.seen
    && (p.seen == s.writes ==> p.row.failedAttempts == s.account.failedAttempts && p.row.lockedUntil == s.account.lockedUntil)
  }

  /** While every password is wrong, the count lags behind the writes exactly when some write was overtaken. */
  ghost predicate Counted(initial: nat, s: State) {
    && s.writes == s.failures
    && (if s.overtaken == 0 then s.account.failedAttempts == initial + s.failures
        else s.account.failedAttempts < initial + s.failures)
    && (forall i | i in s.pending :: Current(initial, s, s.pending[i]))
    && s.compared == s.failures + |s.pending|
  }

  lemma ReadCounted(scrypt: Scrypt, initial: nat, s: State, a: Action)
    requires a.Read? && Counted(initial, s) && Next(scrypt, s, a).rights == s.rights
    ensures Counted(initial, Next(scrypt, s, a))
  {
  }

  lemma WriteCounted(scrypt: Scrypt, initial: nat, s: State, a: Action)
    requires a.Write? && Counted(initial, s)
    ensures Counted(initial, Next(scrypt, s, a))
  {
    if a.pid in s.pending {
      var p := s.pending[a.pid];
      assert Current(initial, s, p);
      assert |s.pending - {a.pid}| == |s.pending| - 1 by {
        assert s.pending == (s.pending - {a.pid})[a.pid := p];
      }
    }
  }

  lemma RightsGrow(scrypt: Scrypt, s: State, a: Action)
    ensures s.rights <= Next(scrypt, s, a).rights
  {
  }

  lemma {:induction false} RunCounted(scrypt: Scrypt, a: Account, actions: seq<Action>)
    requires Run(scrypt, Start(a), actions).rights == 0
    ensures Counted(a.failedAttempts, Run(scrypt, Start(a), actions))
  {
    if actions != [] {
      var n := |actions| - 1;
      var before := Run(scrypt, Start(a), actions[..n]);
      RightsGrow(scrypt, before, actions[n]);
      RunCounted(scrypt, a, actions[..n]);
      if actions[n].Read? {
        ReadCounted(scrypt, a.failedAttempts, before, actions[n]);
      } else if actions[n].Write? {
        WriteCounted(scrypt, a.failedAttempts, before, actions[n]);
      }
    }
  }

  /**
   * In a run without a right password, the stored count is the initial one plus the wrong passwords compared and
   * written back if and only if no other write fell between the read and the write of any login.
   */
  lemma CountIff(scrypt: Scrypt, a: Account, actions: seq<Action>)
    requires Run(scrypt, Start(a), actions).rights == 0
    ensures var end := Run(scrypt, Start(a), actions);
            end.account.failedAttempts == a.failedAttempts + end.failures <==> end.overtaken == 0
  {
    RunCounted(scrypt, a, actions);
  }

  // ---- the bound without overtaking ------------------------------------------------------------------------

  /** Every reading of the clock lies in [first, last]. */
  ghost predicate ReadIn(actions: seq<Action>, first: real, last: real) {
    forall i | 0 <= i < |actions| && actions[i].Read? :: first <= actions[i].now <= last
  }

  /** A login whose row is still current found the lock open. */
  ghost predicate FoundOpen(s: State, p: Pending, first: real, last: real) {
    && first <= p.now <= last
    && (p.row.lockedUntil.Until? ==> p.row.lockedUntil.time <= p.now)
  }

  ghost predicate Serial(s: State, first: real, last: real) {
    && Locked(s.account, s.failures, first, last)
    && forall i | i in s.pending :: FoundOpen(s, s.pending[i], first, last)
  }

  lemma NextSerial(scrypt: Scrypt, initial: nat, s: State, a: Action, first: real, last: real)
    requires Counted(initial, s) && Serial(s, first, last)
    requires a.Read? ==> first <= a.now <= last
    requires Next(scrypt, s, a).rights == s.rights && Next(scrypt, s, a).overtaken == 0
    ensures Serial(Next(scrypt, s, a), first, last)
  {
    if a.Write? && a.pid in s.pending {
      assert Current(initial, s, s.pending[a.pid]) && FoundOpen(s, s.pending[a.pid], first, last);
    }
  }

  lemma OvertakenGrows(scrypt: Scrypt, s: State, a: Action)
    ensures s.overtaken <= Next(scrypt, s, a).overtaken
  {
  }

  lemma {:induction false} RunSerial(scrypt: Scrypt, a: Account, actions: seq<Action>, first: real, last: real)
    requires ReadIn(actions, first, last) && first <= last
    requires Run(scrypt, Start(a), actions).rights == 0 && Run(scrypt, Start(a), actions).overtaken == 0
    ensures Serial(Run(scrypt, Start(a), actions), first, last)
  {
    if actions != [] {
      var n := |actions| - 1;
      var before := Run(scrypt, Start(a), actions[..n]);
      RightsGrow(scrypt, before, actions[n]);
      OvertakenGrows(scrypt, before, actions[n]);
      assert forall i | 0 <= i < n :: actions[..n][i] == actions[i];
      RunSerial(scrypt, a, actions[..n], first, last);
      RunCounted(scrypt, a, actions[..n]);
      NextSerial(scrypt, a.failedAttempts, before, actions[n], first, last);
    }
  }

  /**
   * Without a right password and without an overtaken write, however logins are interleaved: T minutes see at most
   * 5 + floor(T / 15) wrong passwords compared and written back, and no others compared but those still at work.
   */
  lemma UnovertakenBound(scrypt: Scrypt, a: Account, actions: seq<Action>, first: real, last: real)
    requires ReadIn(actions, first, last) && first <= last
    requires Run(scrypt, Start(a), actions).rights == 0 && Run(scrypt, Start(a), actions).overtaken == 0
    ensures var end := Run(scrypt, Start(a), actions);
            && end.failures <= MAX_FAILURES + ((last - first) / LOCK_MINUTES).Floor
            && end.compared == end.failures + |end.pending|
  {
    RunSerial(scrypt, a, actions, first, last);
    RunCounted(scrypt, a, actions);
    hide Run;
  }

  // ---- any number at one moment ------------------------------------------------------------------------------

  /** n logins that all read before any of them writes, all at one moment. */
  function Readers(password: string, now: real, n: nat): (r: seq<Action>)
    ensures |r| == n && forall i | 0 <= i < n :: r[i] == Read(i, password, now)
  {
    seq(n, i requires 0 <= i < n => Read(i, password, now))
  }

  function Writers(n: nat): (r: seq<Action>)
    ensures |r| == n && forall i | 0 <= i < n :: r[i] == Write(i)
  {
    seq(n, i requires 0 <= i < n => Write(i))
  }

  predicate Waits(i: nat, k: nat) {
    k <= i
  }

  /** The logins numbered from k to n, all of the row a. */
  function Crowd(a: Account, now: real, k: nat, n: nat): map<nat, Pending> {
    map i: nat | k <= i < n && Waits(i, k) :: Pending(a, now, false, 0)
  }

  /** n logins have read the row a, and k of them have written. */
  function Midway(a: Account, now: real, n: nat, k: nat): State
    requires k <= n
  {
    State(if k == 0 then a else Punished(a, now), Crowd(a, now, k, n), n, k, 0, k, if k == 0 then 0 else k - 1)
  }

  lemma OneRead(scrypt: Scrypt, a: Account, password: string, now: real, n: nat)
    requires IsFresh(a) && !Matches(scrypt, a, password)
    ensures Next(scrypt, Midway(a, now, n, 0), Read(n, password, now)) == Midway(a, now, n + 1, 0)
  {
    hide Matches;
    assert Crowd(a, now, 0, n + 1) == Crowd(a, now, 0, n)[n := Pending(a, now, false, 0)];
  }

  lemma OneWritten(scrypt: Scrypt, a: Account, now: real, n: nat, k: nat)
    requires k < n
    ensures Next(scrypt, Midway(a, now, n, k), Write(k)) == Midway(a, now, n, k + 1)
  {
    assert Crowd(a, now, k + 1, n) == Crowd(a, now, k, n) - {k};
    assert k in Crowd(a, now, k, n);
  }

  lemma {:induction false} AllRead(scrypt: Scrypt, a: Account, password: string, now: real, n: nat)
    requires IsFresh(a) && !Matches(scrypt, a, password)
    ensures Run(scrypt, Start(a), Readers(password, now, n)) == Midway(a, now, n, 0)
  {
    if n > 0 {
      hide Run, Matches, Midway, Next, IsFresh;
      AllRead(scrypt, a, password, now, n - 1);
      RunSnoc(scrypt, Start(a), Readers(password, now, n - 1), Read(n - 1, password, now));
      OneRead(scrypt, a, password, now, n - 1);
      assert Readers(password, now, n) == Readers(password, now, n - 1) + [Read(n - 1, password, now)];
    } else {
      assert Crowd(a, now, 0, 0) == map[];
    }
  }

  lemma {:induction false} AllWritten(scrypt: Scrypt, a: Account, now: real, n: nat, k: nat)
    requires k <= n
    ensures Run(scrypt, Midway(a, now, n, 0), Writers(k)) == Midway(a, now, n, k)
  {
    if k > 0 {
      hide Run, Midway, Next;
      AllWritten(scrypt, a, now, n, k - 1);
      RunSnoc(scrypt, Midway(a, now, n, 0), Writers(k - 1), Write(k - 1));
      OneWritten(scrypt, a, now, n, k - 1);
      assert Writers(k) == Writers(k - 1) + [Write(k - 1)];
    }
  }

  lemma {:induction false} RunConcat(scrypt: Scrypt, s: State, first: seq<Action>, second: seq<Action>)
    ensures Run(scrypt, s, first + second) == Run(scrypt, Run(scrypt, s, first), second)
  {
    if second == [] {
      assert first + second == first;
    } else {
      var n := |second| - 1;
      RunConcat(scrypt, s, first, second[..n]);
      assert (first + second)[..|first + second| - 1] == first + second[..n];
    }
  }

  /**
   * From a fresh account, for every n, one moment suffices to compare n wrong passwords, and the stored count then
   * stands at one.
   */
  lemma CrowdIsCompared(scrypt: Scrypt, a: Account, password: string, now: real, n: nat)
    requires IsFresh(a) && !Matches(scrypt, a, password) && n > 0
    ensures var actions := Readers(password, now, n) + Writers(n);
            var end := Run(scrypt, Start(a), actions);
            && ReadIn(actions, now, now)
            && end.compared == end.failures == n && end.pending == map[] && end.account.failedAttempts == 1
  {
    RunConcat(scrypt, Start(a), Readers(password, now, n), Writers(n));
    AllRead(scrypt, a, password, now, n);
    AllWritten(scrypt, a, now, n, n);
    hide Run;
    assert Crowd(a, now, n, n) == map[];
  }
}
