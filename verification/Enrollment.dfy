/** Enrollment codes: issue, the attempt gate, and redemption by a read followed by a conditional write. */
module Enrollment {
  import opened Options
  import opened Bytes

  const MAX_ATTEMPTS: nat := 10
  const WINDOW_SECONDS: int := 60

  /** SHA-256 of a code, the fingerprint of a public key, and signature verification, all arbitrary functions. */
  datatype Crypto = Crypto(hash: string -> string, fingerprint: Bytes -> string, verify: (Bytes, string, Bytes) -> bool)

  datatype Redemption = Redemption(at: int, did: string, device: string)
  datatype Row = Row(workspace: string, expiresAt: int, redeemed: Option<Redemption>)
  type Codes = map<string, Row>

  datatype Request = Request(code: string, did: string, device: string, publicKey: Bytes, signature: Bytes)

  datatype Reason = RateLimited | UnknownCode | AlreadyRedeemed | Expired | KeyDoesNotMatchDid | BadSignature
                  | AlreadyRedeemedConcurrently

  // ---- the parts of a redemption --------------------------------------------------------------------------

  /** How many attempts are stamped at the cutoff or later. */
  function Recent(attempts: seq<int>, cutoff: int): nat {
    if attempts == [] then 0
    else Recent(attempts[..|attempts| - 1], cutoff) + if attempts[|attempts| - 1] >= cutoff then 1 else 0
  }

  /** The part of a text after its last colon. */
  function LastPart(s: string): string {
    if s == "" || s[|s| - 1] == ':' then "" else LastPart(s[..|s| - 1]) + [s[|s| - 1]]
  }

  predicate KeyMatchesDid(c: Crypto, r: Request) {
    "did:integrity:" <= r.did && c.fingerprint(r.publicKey) == LastPart(r.did)
  }

  /** The checks between the gate and the update, on the row as read. */
  function Refusal(c: Crypto, codes: Codes, r: Request, now: int): Option<Reason> {
    var h := c.hash(r.code);
    if h !in codes then Some(UnknownCode)
    else if codes[h].redeemed.Some? then Some(AlreadyRedeemed)
    else if codes[h].expiresAt <= now then Some(Expired)
    else if !KeyMatchesDid(c, r) then Some(KeyDoesNotMatchDid)
    else if !c.verify(r.publicKey, r.code, r.signature) then Some(BadSignature)
    else None
  }

  /** The update's WHERE clause. */
  predicate Unredeemed(codes: Codes, h: string) {
    h in codes && codes[h].redeemed == None
  }

  // ---- the machine ----------------------------------------------------------------------------------------

  /** How far a redemption has come. row and stamp are the attempt it inserted. */
  datatype Phase =
    | Begun
    | Inserted(row: nat, stamp: int)
    | Limited(row: nat, stamp: int)
    | Past(row: nat, stamp: int, later: Later)

  datatype Later = Admitted | Ready(readAt: int) | Refused(reason: Reason) | Redeemed(readAt: int, at: int, workspace: string)

  datatype Process = Process(request: Request, began: int, phase: Phase)

  datatype State = State(codes: Codes, attempts: seq<int>, processes: map<nat, Process>)

  /** One atomic step of one caller; the times are its clock readings. */
  datatype Action =
    | Issue(code: string, workspace: string, now: int, ttl: int)
    | Begin(pid: nat, request: Request, now: int)
    | Insert(pid: nat, now: int)
    | Decide(pid: nat)
    | Read(pid: nat, now: int)
    | Update(pid: nat, now: int)

  function Move(s: State, pid: nat, p: Process, phase: Phase): State {
    s.(processes := s.processes[pid := p.(phase := phase)])
  }

  /** A step; one that is not the caller's next step changes nothing. */
  function Step(c: Crypto, s: State, a: Action): State {
    match a
    case Issue(code, workspace, now, ttl) =>
      if workspace == "" || c.hash(code) in s.codes then s
      else s.(codes := s.codes[c.hash(code) := Row(workspace, now + ttl, None)])
    case Begin(pid, request, now) =>
      if pid in s.processes then s else s.(processes := s.processes[pid := Process(request, now, Begun)])
    case _ =>
      if a.pid !in s.processes then s else StepOf(c, s, a, s.processes[a.pid])
  }

  function StepOf(c: Crypto, s: State, a: Action, p: Process): State
    requires !a.Issue? && !a.Begin?
  {
    match a
    case Insert(pid, now) =>
      if p.phase.Begun? && p.began <= now then
        Move(s, pid, p, Inserted(|s.attempts|, now)).(attempts := s.attempts + [now])
      else s
    case Decide(pid) =>
      if p.phase.Inserted? then
        Move(s, pid, p, if Recent(s.attempts, p.began - WINDOW_SECONDS) > MAX_ATTEMPTS
                        then Limited(p.phase.row, p.phase.stamp) else Past(p.phase.row, p.phase.stamp, Admitted))
      else s
    case Read(pid, now) =>
      if p.phase.Past? && p.phase.later.Admitted? then
        var refusal := Refusal(c, s.codes, p.request, now);
        Move(s, pid, p, p.phase.(later := if refusal.Some? then Refused(refusal.value) else Ready(now)))
      else s
    case Update(pid, now) =>
      var h := c.hash(p.request.code);
      if !p.phase.Past? || !p.phase.later.Ready? then s
      else if Unredeemed(s.codes, h) then
        var row := s.codes[h];
        Move(s, pid, p, p.phase.(later := Redeemed(p.phase.later.readAt, now, row.workspace)))
        .(codes := s.codes[h := row.(redeemed := Some(Redemption(now, p.request.did, p.request.device)))])
      else Move(s, pid, p, p.phase.(later := Refused(AlreadyRedeemedConcurrently)))
    case _ => s
  }

  function Run(c: Crypto, s: State, actions: seq<Action>): State {
    if actions == [] then s else Step(c, Run(c, s, actions[..|actions| - 1]), actions[|actions| - 1])
  }

  /** Any stored codes and attempts, and nobody at work. */
  predicate Initial(s: State) {
    s.processes == map[]
  }

  /** When a redemption that nobody disturbs should succeed. */
  predicate Redeemable(c: Crypto, codes: Codes, attempts: seq<int>, r: Request, began: int, readAt: int) {
    && Recent(attempts, began - WINDOW_SECONDS) < MAX_ATTEMPTS
    && Unredeemed(codes, c.hash(r.code)) && readAt < codes[c.hash(r.code)].expiresAt
    && KeyMatchesDid(c, r) && c.verify(r.publicKey, r.code, r.signature)
  }

  /** The recent attempts are those stamped at the cutoff or later. */
  lemma {:induction false} RecentCounts(attempts: seq<int>, cutoff: int)
    ensures Recent(attempts, cutoff) == |set i | 0 <= i < |attempts| && attempts[i] >= cutoff|
  {
    if attempts != [] {
      var n := |attempts| - 1;
      var before := attempts[..n];
      var some, all := set i | 0 <= i < n && before[i] >= cutoff, set i | 0 <= i < |attempts| && attempts[i] >= cutoff;
      RecentCounts(before, cutoff);
      assert all == if attempts[n] >= cutoff then some + {n} else some;
    }
  }

  // ---- one caller on the database ---------------------------------------------------------------------------

  datatype Outcome = OutcomeRefused(reason: Reason) | OutcomeRedeemed(did: string, workspace: string, device: string, at: int)

  function OutcomeOf(p: Process): Option<Outcome> {
    match p.phase
    case Limited(_, _) => Some(OutcomeRefused(RateLimited))
    case Past(_, _, Refused(reason)) => Some(OutcomeRefused(reason))
    case Past(_, _, Redeemed(_, at, workspace)) => Some(OutcomeRedeemed(p.request.did, workspace, p.request.device, at))
    case _ => None
  }

  class Home {
    var codes: Codes
    var attempts: seq<int>

    /** Stores the hash of a fresh code; an empty workspace or a hash already stored is an error and stores nothing. */
    method IssueCode(c: Crypto, code: string, workspace: string, now: int, ttl: int) returns (ok: bool)
      modifies this`codes
      ensures ok == (workspace != "" && c.hash(code) !in old(codes))
      ensures State(codes, attempts, map[]) == Step(c, State(old(codes), attempts, map[]), Issue(code, workspace, now, ttl))
      ensures codes == if ok then old(codes)[c.hash(code) := Row(workspace, now + ttl, None)] else old(codes)
    {
      ok := workspace != "" && c.hash(code) !in codes;
      if ok {
        codes := codes[c.hash(code) := Row(workspace, now + ttl, None)];
      }
    }

    method TooManyAttempts(began: int, now: int) returns (tooMany: bool)
      modifies this`attempts
      ensures attempts == old(attempts) + [now]
      ensures tooMany == (Recent(attempts, began - WINDOW_SECONDS) > MAX_ATTEMPTS)
    {
      attempts := attempts + [now];
      var recent, i := 0, 0;
      while i < |attempts|
        invariant 0 <= i <= |attempts| && recent == Recent(attempts[..i], began - WINDOW_SECONDS)
      {
        assert attempts[..i + 1][..i] == attempts[..i];
        if attempts[i] >= began - WINDOW_SECONDS {
          recent := recent + 1;
        }
        i := i + 1;
      }
      assert attempts[..i] == attempts;
      tooMany := recent > MAX_ATTEMPTS;
    }

    /** A redemption with nobody else at work takes the machine's five steps, and succeeds exactly when it should. */
    method RedeemCode(c: Crypto, r: Request, began: int, stamp: int, readAt: int, now: int) returns (o: Outcome)
      requires began <= stamp
      modifies this
      ensures var end := Run(c, State(old(codes), old(attempts), map[]), Alone(r, began, stamp, readAt, now));
              codes == end.codes && attempts == end.attempts && 0 in end.processes && OutcomeOf(end.processes[0]) == Some(o)
      ensures o.OutcomeRedeemed? <==> Redeemable(c, old(codes), old(attempts), r, began, readAt)
      ensures attempts == old(attempts) + [stamp]
      ensures o.OutcomeRedeemed? <==>
                && |set i | 0 <= i < |old(attempts)| && old(attempts)[i] >= began - 60| < 10
                && c.hash(r.code) in old(codes) && old(codes)[c.hash(r.code)].redeemed == None
                && readAt < old(codes)[c.hash(r.code)].expiresAt
                && KeyMatchesDid(c, r) && c.verify(r.publicKey, r.code, r.signature)
      ensures o.OutcomeRedeemed? ==>
                var row := old(codes)[c.hash(r.code)];
                && o == OutcomeRedeemed(r.did, row.workspace, r.device, now)
                && codes == old(codes)[c.hash(r.code) := row.(redeemed := Some(Redemption(now, r.did, r.device)))]
      ensures !o.OutcomeRedeemed? ==> codes == old(codes)
    {
      RecentCounts(attempts, began - WINDOW_SECONDS);
      AloneEnds(c, codes, attempts, r, began, stamp, readAt, now);
      RecentPlusOne(attempts, began - WINDOW_SECONDS, stamp);
      hide Step, StepOf, Run, Alone, Recent, KeyMatchesDid;
      var tooMany := TooManyAttempts(began, stamp);
      if tooMany {
        return OutcomeRefused(RateLimited);
      }
      var refusal := Refusal(c, codes, r, readAt);
      if refusal.Some? {
        return OutcomeRefused(refusal.value);
      }
      var h := c.hash(r.code);
      if !Unredeemed(codes, h) {
        return OutcomeRefused(AlreadyRedeemedConcurrently);
      }
      codes := codes[h := codes[h].(redeemed := Some(Redemption(now, r.did, r.device)))];
      return OutcomeRedeemed(r.did, codes[h].workspace, r.device, now);
    }
  }

  lemma RecentPlusOne(attempts: seq<int>, cutoff: int, stamp: int)
    ensures Recent(attempts + [stamp], cutoff) == Recent(attempts, cutoff) + if stamp >= cutoff then 1 else 0
  {
    assert (attempts + [stamp])[..|attempts|] == attempts;
  }

  function Alone(r: Request, began: int, stamp: int, readAt: int, now: int): seq<Action> {
    [Begin(0, r, began), Insert(0, stamp), Decide(0), Read(0, readAt), Update(0, now)]
  }

  lemma RunOne(c: Crypto, s: State, before: seq<Action>, a: Action)
    ensures Run(c, s, before + [a]) == Step(c, Run(c, s, before), a)
  {
    assert (before + [a])[..|before|] == before;
  }

  lemma AloneSteps(c: Crypto, s: State, r: Request, began: int, stamp: int, readAt: int, now: int)
    ensures var steps := Alone(r, began, stamp, readAt, now);
            Run(c, s, steps) == Step(c, Step(c, Step(c, Step(c, Step(c, s, steps[0]), steps[1]), steps[2]), steps[3]), steps[4])
  {
    var steps := Alone(r, began, stamp, readAt, now);
    assert Run(c, s, []) == s;
    hide Step, Run;
    RunOne(c, s, [], steps[0]);
    RunOne(c, s, [steps[0]], steps[1]);
    RunOne(c, s, [steps[0], steps[1]], steps[2]);
    RunOne(c, s, [steps[0], steps[1], steps[2]], steps[3]);
    RunOne(c, s, [steps[0], steps[1], steps[2], steps[3]], steps[4]);
    assert [] + [steps[0]] == [steps[0]] && [steps[0]] + [steps[1]] == [steps[0], steps[1]];
    assert [steps[0], steps[1]] + [steps[2]] == [steps[0], steps[1], steps[2]];
    assert [steps[0], steps[1], steps[2]] + [steps[3]] == [steps[0], steps[1], steps[2], steps[3]];
    assert [steps[0], steps[1], steps[2], steps[3]] + [steps[4]] == steps;
  }

  /** A caller alone, with its attempt just inserted. */
  function AloneInserted(codes: Codes, attempts: seq<int>, r: Request, began: int, stamp: int, phase: Phase): State {
    State(codes, attempts + [stamp], map[0 := Process(r, began, phase)])
  }

  lemma AloneBegins(c: Crypto, codes: Codes, attempts: seq<int>, r: Request, began: int, stamp: int)
    requires began <= stamp
    ensures Step(c, Step(c, State(codes, attempts, map[]), Begin(0, r, began)), Insert(0, stamp))
         == AloneInserted(codes, attempts, r, began, stamp, Inserted(|attempts|, stamp))
  {
  }

  lemma AloneDecides(c: Crypto, codes: Codes, attempts: seq<int>, r: Request, began: int, stamp: int)
    ensures Step(c, AloneInserted(codes, attempts, r, began, stamp, Inserted(|attempts|, stamp)), Decide(0))
         == AloneInserted(codes, attempts, r, began, stamp,
              if Recent(attempts + [stamp], began - WINDOW_SECONDS) > MAX_ATTEMPTS
              then Limited(|attempts|, stamp) else Past(|attempts|, stamp, Admitted))
  {
    hide Recent;
  }

  lemma AloneReads(c: Crypto, codes: Codes, attempts: seq<int>, r: Request, began: int, stamp: int, readAt: int)
    ensures Step(c, AloneInserted(codes, attempts, r, began, stamp, Past(|attempts|, stamp, Admitted)), Read(0, readAt))
         == AloneInserted(codes, attempts, r, began, stamp, Past(|attempts|, stamp,
              if Refusal(c, codes, r, readAt).Some? then Refused(Refusal(c, codes, r, readAt).value) else Ready(readAt)))
  {
    hide Refusal;
  }

  lemma AloneUpdates(c: Crypto, codes: Codes, attempts: seq<int>, r: Request, began: int, stamp: int, readAt: int, now: int)
    requires Unredeemed(codes, c.hash(r.code))
    ensures Step(c, AloneInserted(codes, attempts, r, began, stamp, Past(|attempts|, stamp, Ready(readAt))), Update(0, now))
         == AloneInserted(Bound(c, codes, r, now), attempts, r, began, stamp,
                          Past(|attempts|, stamp, Redeemed(readAt, now, codes[c.hash(r.code)].workspace)))
  {
  }

  /** A refused redemption takes no further step. */
  lemma AloneStays(c: Crypto, codes: Codes, attempts: seq<int>, r: Request, began: int, stamp: int, phase: Phase, a: Action)
    requires a.Read? || a.Update?
    requires phase.Limited? || (phase.Past? && phase.later.Refused?)
    ensures var s := AloneInserted(codes, attempts, r, began, stamp, phase); Step(c, s, a) == s
  {
  }

  /** The rows after a successful redemption. */
  function Bound(c: Crypto, codes: Codes, r: Request, now: int): Codes
    requires c.hash(r.code) in codes
  {
    codes[c.hash(r.code) := codes[c.hash(r.code)].(redeemed := Some(Redemption(now, r.did, r.device)))]
  }

  /** Where the machine stands after a caller's five steps alone. */
  lemma AloneEnds(c: Crypto, codes: Codes, attempts: seq<int>, r: Request, began: int, stamp: int, readAt: int, now: int)
    requires began <= stamp
    ensures var end := Run(c, State(codes, attempts, map[]), Alone(r, began, stamp, readAt, now));
            var refusal := Refusal(c, codes, r, readAt);
            if Recent(attempts + [stamp], began - WINDOW_SECONDS) > MAX_ATTEMPTS then
              end == AloneInserted(codes, attempts, r, began, stamp, Limited(|attempts|, stamp))
            else if refusal.Some? then
              end == AloneInserted(codes, attempts, r, began, stamp, Past(|attempts|, stamp, Refused(refusal.value)))
            else
              end == AloneInserted(Bound(c, codes, r, now), attempts, r, began, stamp,
                                   Past(|attempts|, stamp, Redeemed(readAt, now, codes[c.hash(r.code)].workspace)))
  {
    AloneSteps(c, State(codes, attempts, map[]), r, began, stamp, readAt, now);
    AloneBegins(c, codes, attempts, r, began, stamp);
    AloneDecides(c, codes, attempts, r, began, stamp);
    hide Recent, Run, Step, AloneInserted;
    var refusal := Refusal(c, codes, r, readAt);
    if Recent(attempts + [stamp], began - WINDOW_SECONDS) > MAX_ATTEMPTS {
      AloneStays(c, codes, attempts, r, began, stamp, Limited(|attempts|, stamp), Read(0, readAt));
      AloneStays(c, codes, attempts, r, began, stamp, Limited(|attempts|, stamp), Update(0, now));
    } else {
      AloneReads(c, codes, attempts, r, began, stamp, readAt);
      if refusal.Some? {
        AloneStays(c, codes, attempts, r, began, stamp, Past(|attempts|, stamp, Refused(refusal.value)), Update(0, now));
      } else {
        AloneUpdates(c, codes, attempts, r, began, stamp, readAt, now);
      }
    }
  }

  lemma AloneOutcome(c: Crypto, codes: Codes, attempts: seq<int>, r: Request, began: int, stamp: int, readAt: int, now: int)
    requires began <= stamp
    ensures var end := Run(c, State(codes, attempts, map[]), Alone(r, began, stamp, readAt, now));
            && 0 in end.processes && OutcomeOf(end.processes[0]).Some?
            && (OutcomeOf(end.processes[0]).value.OutcomeRedeemed? <==> Redeemable(c, codes, attempts, r, began, readAt))
            && (Redeemable(c, codes, attempts, r, began, readAt) ==>
                  && OutcomeOf(end.processes[0]).value == OutcomeRedeemed(r.did, codes[c.hash(r.code)].workspace, r.device, now)
                  && end.codes == Bound(c, codes, r, now))
  {
    AloneEnds(c, codes, attempts, r, began, stamp, readAt, now);
    RecentPlusOne(attempts, began - WINDOW_SECONDS, stamp);
    hide Step, Run, Alone, Recent, KeyMatchesDid;
  }

  /**
   * A code that was just issued, redeemed by one caller alone: it succeeds exactly within the code's lifetime, for
   * the key the DID names, with a signature over the code, and below the attempt limit; it binds the code's workspace.
   */
  lemma IssuedCodeRedeems(c: Crypto, codes: Codes, attempts: seq<int>, workspace: string, issued: int, ttl: int,
                          r: Request, began: int, stamp: int, readAt: int, now: int)
    requires workspace != "" && c.hash(r.code) !in codes && began <= stamp
    ensures var start := Step(c, State(codes, attempts, map[]), Issue(r.code, workspace, issued, ttl));
            var end := Run(c, start, Alone(r, began, stamp, readAt, now));
            var succeeds := Recent(attempts, began - WINDOW_SECONDS) < MAX_ATTEMPTS && readAt < issued + ttl
                            && KeyMatchesDid(c, r) && c.verify(r.publicKey, r.code, r.signature);
            && 0 in end.processes && OutcomeOf(end.processes[0]).Some?
            && (OutcomeOf(end.processes[0]).value.OutcomeRedeemed? <==> succeeds)
            && (succeeds ==> OutcomeOf(end.processes[0]).value == OutcomeRedeemed(r.did, workspace, r.device, now))
  {
    var stored := codes[c.hash(r.code) := Row(workspace, issued + ttl, None)];
    assert Step(c, State(codes, attempts, map[]), Issue(r.code, workspace, issued, ttl)) == State(stored, attempts, map[]);
    hide Step, Run, Alone, Recent, KeyMatchesDid, OutcomeOf, Bound;
    AloneOutcome(c, stored, attempts, r, began, stamp, readAt, now);
  }

  // ---- what every run keeps -----------------------------------------------------------------------------------

  /** A redemption that succeeded, on the row with this hash. */
  predicate Won(c: Crypto, p: Process, h: string) {
    p.phase.Past? && p.phase.later.Redeemed? && c.hash(p.request.code) == h
  }

  predicate HasRow(phase: Phase) {
    !phase.Begun?
  }

  /** Every process past its insertion owns one attempt row, with its stamp, not before its first reading. */
  ghost predicate RowsOwned(s: State) {
    && (forall i | i in s.processes && HasRow(s.processes[i].phase) ::
          var p := s.processes[i];
          p.phase.row < |s.attempts| && s.attempts[p.phase.row] == p.phase.stamp && p.began <= p.phase.stamp)
    && (forall i, j | i in s.processes && j in s.processes && i != j
          && HasRow(s.processes[i].phase) && HasRow(s.processes[j].phase) ::
          s.processes[i].phase.row != s.processes[j].phase.row)
  }

  /** What a process between its read and its update, or after a success, has established. */
  predicate Proven(c: Crypto, codes: Codes, p: Process) {
    p.phase.Past? && (p.phase.later.Ready? || p.phase.later.Redeemed?) ==>
      var h := c.hash(p.request.code);
      h in codes && p.phase.later.readAt < codes[h].expiresAt
      && KeyMatchesDid(c, p.request) && c.verify(p.request.publicKey, p.request.code, p.request.signature)
  }

  /** A success is what the row stores. */
  predicate Stored(c: Crypto, codes: Codes, p: Process) {
    p.phase.Past? && p.phase.later.Redeemed? ==>
      var h := c.hash(p.request.code);
      h in codes && codes[h].workspace == p.phase.later.workspace
      && codes[h].redeemed == Some(Redemption(p.phase.later.at, p.request.did, p.request.device))
  }

  ghost predicate OneWinner(c: Crypto, s: State) {
    forall i, j, h | i in s.processes && j in s.processes && Won(c, s.processes[i], h) && Won(c, s.processes[j], h) :: i == j
  }

  ghost predicate AllProven(c: Crypto, s: State) {
    forall i | i in s.processes :: Proven(c, s.codes, s.processes[i]) && Stored(c, s.codes, s.processes[i])
  }

  ghost predicate Inv(c: Crypto, s: State) {
    RowsOwned(s) && AllProven(c, s) && OneWinner(c, s)
  }

  /** Rows never vanish, keep their workspace and expiry, and keep their redemption once they have one. */
  ghost predicate RowsKept(before: Codes, after: Codes) {
    forall h | h in before ::
      && h in after && after[h].workspace == before[h].workspace && after[h].expiresAt == before[h].expiresAt
      && (before[h].redeemed.Some? ==> after[h].redeemed == before[h].redeemed)
  }

  lemma StepKeepsRows(c: Crypto, s: State, a: Action)
    ensures RowsKept(s.codes, Step(c, s, a).codes)
  {
  }

  /** One process moves on, and keeps the row it has. */
  lemma MoveKeepsOwned(s: State, t: State, pid: nat, q: Process)
    requires RowsOwned(s) && t.attempts == s.attempts && t.processes == s.processes[pid := q]
    requires HasRow(q.phase) ==>
               pid in s.processes && HasRow(s.processes[pid].phase) && q.began == s.processes[pid].began
               && q.phase.row == s.processes[pid].phase.row && q.phase.stamp == s.processes[pid].phase.stamp
    ensures RowsOwned(t)
  {
  }

  lemma StepKeepsOwned(c: Crypto, s: State, a: Action)
    requires RowsOwned(s)
    ensures RowsOwned(Step(c, s, a))
  {
    hide Recent, Refusal, Unredeemed, RowsOwned;
    var t := Step(c, s, a);
    if a.Issue? {
      SameRowsOwned(s, t);
    } else if a.pid !in t.processes {
      assert t == s;
    } else if a.Insert? && t != s {
      InsertKeepsOwned(s, a.pid, a.now);
    } else {
      assert t.processes == s.processes[a.pid := t.processes[a.pid]];
      MoveKeepsOwned(s, t, a.pid, t.processes[a.pid]);
    }
  }

  lemma SameRowsOwned(s: State, t: State)
    requires RowsOwned(s) && t.attempts == s.attempts && t.processes == s.processes
    ensures RowsOwned(t)
  {
  }

  /** The row inserted is a new one. */
  lemma InsertKeepsOwned(s: State, pid: nat, now: int)
    requires RowsOwned(s) && pid in s.processes && s.processes[pid].began <= now
    ensures RowsOwned(Move(s, pid, s.processes[pid], Inserted(|s.attempts|, now)).(attempts := s.attempts + [now]))
  {
  }

  lemma StepKeepsProven(c: Crypto, s: State, a: Action)
    requires AllProven(c, s)
    ensures AllProven(c, Step(c, s, a))
  {
    hide KeyMatchesDid, Recent;
  }

  lemma StepKeepsOneWinner(c: Crypto, s: State, a: Action)
    requires AllProven(c, s) && OneWinner(c, s)
    ensures OneWinner(c, Step(c, s, a))
  {
    hide KeyMatchesDid, Recent, Refusal, Proven;
  }

  lemma {:induction false} RunKeeps(c: Crypto, s: State, actions: seq<Action>)
    requires Inv(c, s)
    ensures Inv(c, Run(c, s, actions)) && RowsKept(s.codes, Run(c, s, actions).codes)
  {
    if actions != [] {
      var n := |actions| - 1;
      var middle := Run(c, s, actions[..n]);
      RunKeeps(c, s, actions[..n]);
      StepKeepsRows(c, middle, actions[n]);
      StepKeepsOwned(c, middle, actions[n]);
      StepKeepsProven(c, middle, actions[n]);
      StepKeepsOneWinner(c, middle, actions[n]);
      hide Step, RowsOwned, AllProven, OneWinner;
    }
  }

  lemma InitiallyInv(c: Crypto, s: State)
    requires Initial(s)
    ensures Inv(c, s)
  {
  }

  /**
   * Under every interleaving: at most one redemption per code succeeds, and it met every check.
   * A stored code that was redeemed before has no winner.
   */
  lemma SingleUse(c: Crypto, s: State, actions: seq<Action>, i: nat, j: nat, h: string)
    requires Initial(s)
    ensures var end := Run(c, s, actions);
            i in end.processes && Won(c, end.processes[i], h) ==>
              var p := end.processes[i];
              && (j in end.processes && Won(c, end.processes[j], h) ==> i == j)
              && KeyMatchesDid(c, p.request) && c.verify(p.request.publicKey, p.request.code, p.request.signature)
              && h in end.codes && p.phase.later.readAt < end.codes[h].expiresAt
              && end.codes[h].workspace == p.phase.later.workspace
              && !(h in s.codes && s.codes[h].redeemed.Some?)
  {
    InitiallyInv(c, s);
    RunKeeps(c, s, actions);
    if h in s.codes && s.codes[h].redeemed.Some? {
      NoWinnerOnSpent(c, s, actions, h);
    }
  }

  lemma {:induction false} NoWinnerOnSpent(c: Crypto, s: State, actions: seq<Action>, h: string)
    requires Initial(s) && h in s.codes && s.codes[h].redeemed.Some?
    ensures var end := Run(c, s, actions); forall i | i in end.processes :: !Won(c, end.processes[i], h)
  {
    if actions != [] {
      var n := |actions| - 1;
      NoWinnerOnSpent(c, s, actions[..n], h);
      InitiallyInv(c, s);
      RunKeeps(c, s, actions[..n]);
      SpentStaysWinnerless(c, Run(c, s, actions[..n]), actions[n], h);
    }
  }

  lemma SpentStaysWinnerless(c: Crypto, s: State, a: Action, h: string)
    requires h in s.codes && s.codes[h].redeemed.Some?
    requires forall i | i in s.processes :: !Won(c, s.processes[i], h)
    ensures var t := Step(c, s, a); forall i | i in t.processes :: !Won(c, t.processes[i], h)
  {
    hide Recent, Refusal;
  }

  /** What the winner stored stays stored: whatever comes after, the row names the winner's DID and device. */
  lemma WinnerStays(c: Crypto, s: State, first: seq<Action>, more: seq<Action>, i: nat)
    requires Initial(s) && i in Run(c, s, first).processes
    requires var p := Run(c, s, first).processes[i]; p.phase.Past? && p.phase.later.Redeemed?
    ensures var p := Run(c, s, first).processes[i];
            var h := c.hash(p.request.code);
            var end := Run(c, Run(c, s, first), more);
            h in end.codes && end.codes[h].redeemed == Some(Redemption(p.phase.later.at, p.request.did, p.request.device))
  {
    InitiallyInv(c, s);
    RunKeeps(c, s, first);
    RunKeeps(c, Run(c, s, first), more);
  }

  // ---- the gate -----------------------------------------------------------------------------------------------

  /** The redemptions past the gate whose attempt is stamped in [a, a + 60]. */
  ghost function PassedIn(s: State, a: int): set<nat> {
    set i | i in s.processes && s.processes[i].phase.Past? && a <= s.processes[i].phase.stamp <= a + WINDOW_SECONDS
  }

  lemma {:induction false} RowsAtMostRecent(attempts: seq<int>, cutoff: int, rows: set<nat>)
    requires forall k | k in rows :: k < |attempts| && attempts[k] >= cutoff
    ensures |rows| <= Recent(attempts, cutoff)
  {
    if attempts == [] {
      assert rows == {};
    } else {
      var n := |attempts| - 1;
      RowsAtMostRecent(attempts[..n], cutoff, rows - {n});
      assert n in rows ==> rows == (rows - {n}) + {n};
      assert n !in rows ==> rows == rows - {n};
    }
  }

  lemma {:induction false} InjectiveImage(xs: set<nat>, f: nat -> nat)
    requires forall i, j | i in xs && j in xs && i != j :: f(i) != f(j)
    ensures |set i | i in xs :: f(i)| == |xs|
    decreases |xs|
  {
    if x :| x in xs {
      InjectiveImage(xs - {x}, f);
      assert (set i | i in xs :: f(i)) == (set i | i in xs - {x} :: f(i)) + {f(x)};
    }
  }

  /** Processes owning different recent rows are at most as many as the recent rows. */
  lemma OwnersAtMostRecent(attempts: seq<int>, cutoff: int, owners: set<nat>, row: nat -> nat)
    requires forall i | i in owners :: row(i) < |attempts| && attempts[row(i)] >= cutoff
    requires forall i, j | i in owners && j in owners && i != j :: row(i) != row(j)
    ensures |owners| <= Recent(attempts, cutoff)
  {
    InjectiveImage(owners, row);
    RowsAtMostRecent(attempts, cutoff, set i | i in owners :: row(i));
  }

  /** The attempt row a process owns. */
  function OwnRow(s: State, i: nat): nat {
    if i in s.processes && HasRow(s.processes[i].phase) then s.processes[i].phase.row else 0
  }

  /** A decision counts every redemption already past the gate in a window its own stamp falls in. */
  lemma DecisionCountsAll(s: State, pid: nat, from: int)
    requires RowsOwned(s) && pid in PassedIn(s, from)
    ensures |PassedIn(s, from)| <= Recent(s.attempts, s.processes[pid].began - WINDOW_SECONDS)
  {
    OwnersAtMostRecent(s.attempts, s.processes[pid].began - WINDOW_SECONDS, PassedIn(s, from), i => OwnRow(s, i));
  }

  /** Only a decision that admits adds to a window. */
  lemma OthersKeepWindow(c: Crypto, s: State, a: Action, from: int)
    requires !(a.Decide? && a.pid in PassedIn(Step(c, s, a), from) && a.pid !in PassedIn(s, from))
    ensures PassedIn(Step(c, s, a), from) == PassedIn(s, from)
  {
    hide Recent, Refusal, Unredeemed;
    var t := Step(c, s, a);
    forall i ensures i in PassedIn(t, from) <==> i in PassedIn(s, from) {
    }
  }

  lemma AdmittedBelowLimit(c: Crypto, s: State, a: Action, from: int)
    requires a.Decide? && a.pid in PassedIn(Step(c, s, a), from) && a.pid !in PassedIn(s, from)
    ensures var t := Step(c, s, a);
            t.attempts == s.attempts && Recent(t.attempts, t.processes[a.pid].began - WINDOW_SECONDS) <= MAX_ATTEMPTS
  {
    hide Recent;
  }

  lemma StepKeepsWindow(c: Crypto, s: State, a: Action, from: int)
    requires RowsOwned(s) && |PassedIn(s, from)| <= MAX_ATTEMPTS
    ensures |PassedIn(Step(c, s, a), from)| <= MAX_ATTEMPTS
  {
    StepKeepsOwned(c, s, a);
    hide Step, Recent, PassedIn, RowsOwned;
    if a.Decide? && a.pid in PassedIn(Step(c, s, a), from) && a.pid !in PassedIn(s, from) {
      AdmittedBelowLimit(c, s, a, from);
      DecisionCountsAll(Step(c, s, a), a.pid, from);
    } else {
      OthersKeepWindow(c, s, a, from);
    }
  }

  /** At most ten redemptions pass the gate in any closed window of sixty seconds, under every interleaving. */
  lemma {:induction false} GateBound(c: Crypto, s: State, actions: seq<Action>, from: int)
    requires Initial(s)
    ensures |PassedIn(Run(c, s, actions), from)| <= MAX_ATTEMPTS
  {
    if actions == [] {
      assert PassedIn(s, from) == {};
    } else {
      var n := |actions| - 1;
      GateBound(c, s, actions[..n], from);
      InitiallyInv(c, s);
      RunKeeps(c, s, actions[..n]);
      StepKeepsWindow(c, Run(c, s, actions[..n]), actions[n], from);
    }
  }

  // ---- the key the DID names ------------------------------------------------------------------------------------

  /** The text ends in the part, which begins it or follows a colon. */
  predicate EndsIn(s: string, part: string) {
    s == part || (|part| < |s| && s[|s| - |part| - 1] == ':' && s[|s| - |part|..] == part)
  }

  lemma EndsInSnoc(s: string, x: char, part: string, y: char)
    requires x != ':'
    ensures EndsIn(s + [x], part + [y]) <==> x == y && EndsIn(s, part)
  {
    var t, p := s + [x], part + [y];
    assert t[..|s|] == s && p[..|part|] == part;
    if |p| < |t| {
      assert t[|t| - |p|..] == s[|s| - |part|..] + [x];
      assert (s[|s| - |part|..] + [x])[..|part|] == s[|s| - |part|..];
    }
  }

  lemma {:induction false} LastPartIsSuffix(s: string, part: string)
    requires forall i | 0 <= i < |part| :: part[i] != ':'
    ensures LastPart(s) == part <==> EndsIn(s, part)
  {
    if s != "" && s[|s| - 1] != ':' && part != "" {
      var m, n := |part| - 1, |s| - 1;
      hide EndsIn;
      LastPartIsSuffix(s[..n], part[..m]);
      EndsInSnoc(s[..n], s[n], part[..m], part[m]);
      assert s == s[..n] + [s[n]] && part == part[..m] + [part[m]];
    } else {
      LastPartEmpty(s, part);
    }
  }

  lemma LastPartEmpty(s: string, part: string)
    requires s == "" || s[|s| - 1] == ':' || part == ""
    requires forall i | 0 <= i < |part| :: part[i] != ':'
    ensures LastPart(s) == part <==> EndsIn(s, part)
  {
    if part != "" && |part| < |s| {
      assert s[|s| - |part|..][|part| - 1] == s[|s| - 1];
    }
  }

  /** The supplied key is accepted exactly when the DID has the method prefix and ends in a colon and the key's fingerprint. */
  lemma AcceptedKeyIsNamed(c: Crypto, r: Request)
    requires var f := c.fingerprint(r.publicKey); forall i | 0 <= i < |f| :: f[i] != ':'
    ensures var f := c.fingerprint(r.publicKey);
            KeyMatchesDid(c, r) <==> "did:integrity:" <= r.did && |f| < |r.did|
                                     && r.did[|r.did| - |f| - 1] == ':' && r.did[|r.did| - |f|..] == f
  {
    LastPartIsSuffix(r.did, c.fingerprint(r.publicKey));
    assert "did:integrity:"[3] == ':';
  }
}
