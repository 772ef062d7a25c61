/** `sync_account_registrations`: the on-chain registration projection, its cursors, and the agent sets read from it. */
module Registrations {
  import opened Options
  import opened TextPieces

  /** offChain holds the ids bound without a registration. */
  datatype Account = Account(email: string, active: bool, offChain: set<string>)
  datatype Place = Place(account: string, did: string)
  datatype Registration = Registration(chain: int, block: int, tx: string, logIndex: int, active: bool, finalized: bool,
                                       observedAt: int, revokedAt: Option<int>)
  datatype Feed = Feed(account: string, chain: int)
  datatype Cursor = Cursor(block: int, snapshot: string, logIndex: int, observedAt: int)

  /** A stored list of agent ids is sorted and without repetition, so the set is all of it. */
  datatype Token = Token(name: string, revoked: bool, agentIds: set<string>)

  datatype State = State(accounts: map<string, Account>, registrations: map<Place, Registration>,
                         cursors: map<Feed, Cursor>, tokens: map<string, Token>)

  datatype Snapshot = Snapshot(account: string, chain: int, block: int, tx: string, logIndex: int,
                               agentIds: seq<string>, finalized: bool)

  const DID_PREFIX := "did:integrity:"

  /** The DIDs among the ids, stripped. The prefix is looked for before stripping. */
  function Normalized(ids: seq<string>): set<string> {
    set v | v in ids && DID_PREFIX <= v :: Strip(v)
  }

  // ---- one sync --------------------------------------------------------------------------------------------

  datatype Verdict = InvalidCursor | NoActiveAccount | Older | Conflicting | Applied

  function VerdictOn(s: State, x: Snapshot): Verdict {
    var feed := Feed(x.account, x.chain);
    if x.tx == "" || x.block < 0 || x.chain < 0 || x.logIndex < 0 then InvalidCursor
    else if x.account !in s.accounts || !s.accounts[x.account].active then NoActiveAccount
    else if feed in s.cursors && x.block < s.cursors[feed].block then Older
    else if feed in s.cursors && x.block == s.cursors[feed].block && x.tx != s.cursors[feed].snapshot then Conflicting
    else Applied
  }

  function Fresh(x: Snapshot, now: int): Registration {
    Registration(x.chain, x.block, x.tx, x.logIndex, true, x.finalized, now, None)
  }

  function Revoked(r: Registration, now: int): Registration {
    if r.active then r.(active := false, revokedAt := Some(now)) else r
  }

  /** The account's rows: the snapshot's DIDs active, every other one revoked; other accounts' rows untouched. */
  function Replaced(rows: map<Place, Registration>, x: Snapshot, now: int): map<Place, Registration> {
    var listed := set d | d in Normalized(x.agentIds) :: Place(x.account, d);
    map p | p in rows.Keys + listed ::
      if p in listed then Fresh(x, now) else if p.account == x.account then Revoked(rows[p], now) else rows[p]
  }

  /** The live tokens of an account's sessions get the agent set; no other token does. */
  function Rewritten(tokens: map<string, Token>, name: string, agentIds: set<string>): map<string, Token> {
    map t | t in tokens :: if tokens[t].name == name && !tokens[t].revoked then tokens[t].(agentIds := agentIds) else tokens[t]
  }

  function LabelOf(a: Account): string {
    "account:" + a.email
  }

  function Synced(s: State, x: Snapshot, now: int): State {
    if VerdictOn(s, x) != Applied then s
    else
      State(s.accounts,
            Replaced(s.registrations, x, now),
            s.cursors[Feed(x.account, x.chain) := Cursor(x.block, x.tx, x.logIndex, now)],
            Rewritten(s.tokens, LabelOf(s.accounts[x.account]), if x.finalized then Normalized(x.agentIds) else {}))
  }

  class Registry {
    var accounts: map<string, Account>
    var registrations: map<Place, Registration>
    var cursors: map<Feed, Cursor>
    var tokens: map<string, Token>

    function Contents(): State
      reads this
    {
      State(accounts, registrations, cursors, tokens)
    }

    method SyncAccountRegistrations(x: Snapshot, now: int) returns (v: Verdict)
      modifies this
      ensures v == VerdictOn(old(Contents()), x)
      ensures Contents() == Synced(old(Contents()), x, now)
      ensures v != Applied ==> Contents() == old(Contents())
      ensures v == InvalidCursor <==> x.tx == "" || x.block < 0 || x.chain < 0 || x.logIndex < 0
      ensures v == Applied <==>
                && x.tx != "" && x.block >= 0 && x.chain >= 0 && x.logIndex >= 0
                && x.account in old(accounts) && old(accounts)[x.account].active
                && var feed := Feed(x.account, x.chain);
                (feed in old(cursors) ==>
                   x.block > old(cursors)[feed].block
                   || (x.block == old(cursors)[feed].block && x.tx == old(cursors)[feed].snapshot))
    {
      var normalized := Normalized(x.agentIds);
      if x.tx == "" || x.block < 0 || x.chain < 0 || x.logIndex < 0 {
        return InvalidCursor;
      }
      if x.account !in accounts || !accounts[x.account].active {
        return NoActiveAccount;
      }
      var feed := Feed(x.account, x.chain);
      if feed in cursors {
        if x.block < cursors[feed].block {
          return Older;
        }
        if x.block == cursors[feed].block && x.tx != cursors[feed].snapshot {
          return Conflicting;
        }
      }
      ReplaceRows(x, now);
      cursors := cursors[feed := Cursor(x.block, x.tx, x.logIndex, now)];
      var effective := if x.finalized then normalized else {};
      tokens := Rewritten(tokens, LabelOf(accounts[x.account]), effective);
      return Applied;
    }

    /** Revokes the account's active rows, then inserts or revives the listed ones. */
    method ReplaceRows(x: Snapshot, now: int)
      modifies this`registrations
      ensures registrations == Replaced(old(registrations), x, now)
    {
      hide *;
      var normalized := Normalized(x.agentIds);
      var row := Fresh(x, now);
      registrations := AllRevoked(registrations, x.account, now);
      ghost var revoked := registrations;
      var rest := normalized;
      ghost var done: set<string> := {};
      PutNone(revoked, x.account, row);
      while rest != {}
        invariant done + rest == normalized
        invariant registrations == Put(revoked, x.account, done, row)
      {
        var did :| did in rest;
        PutOne(revoked, x.account, done, did, row);
        registrations := registrations[Place(x.account, did) := row];
        rest := rest - {did};
        done := done + {did};
      }
      assert done == normalized;
      PutIsReplaced(old(registrations), x, now);
    }
  }

  function AllRevoked(rows: map<Place, Registration>, account: string, now: int): map<Place, Registration> {
    map p | p in rows :: if p.account == account then Revoked(rows[p], now) else rows[p]
  }

  function Put(rows: map<Place, Registration>, account: string, dids: set<string>, r: Registration): map<Place, Registration> {
    map p | p in rows.Keys + (set d | d in dids :: Place(account, d)) ::
       if p.account == account && p.did in dids then r else rows[p]
  }

  lemma PutNone(rows: map<Place, Registration>, account: string, r: Registration)
    ensures Put(rows, account, {}, r) == rows
  {
  }

  lemma PutIsReplaced(rows: map<Place, Registration>, x: Snapshot, now: int)
    ensures Put(AllRevoked(rows, x.account, now), x.account, Normalized(x.agentIds), Fresh(x, now)) == Replaced(rows, x, now)
  {
    hide Normalized, Fresh, Revoked;
  }

  lemma PutOne(rows: map<Place, Registration>, account: string, dids: set<string>, did: string, r: Registration)
    ensures Put(rows, account, dids + {did}, r) == Put(rows, account, dids, r)[Place(account, did) := r]
  {
  }

  // ---- what is read ------------------------------------------------------------------------------------------

  /** `_registered_agent_ids`. */
  function OnChain(rows: map<Place, Registration>, account: string): set<string> {
    set p | p in rows && p.account == account && rows[p].active && rows[p].finalized :: p.did
  }

  function NonEmptyStripped(ids: set<string>): set<string> {
    set v | v in ids && Strip(v) != "" :: Strip(v)
  }

  /** `_effective_agent_ids`. */
  function Effective(s: State, account: string): set<string>
    requires account in s.accounts
  {
    NonEmptyStripped(OnChain(s.registrations, account) + s.accounts[account].offChain)
  }

  // ---- runs ----------------------------------------------------------------------------------------------------

  datatype Action =
    | Sync(snapshot: Snapshot, now: int)
    | SetAgentIds(account: string, ids: set<string>)
    | SetActive(account: string, active: bool)
    | IssueSession(account: string, token: string)
    | RevokeToken(token: string)

  function Step(s: State, a: Action): State {
    match a
    case Sync(x, now) => Synced(s, x, now)
    case SetAgentIds(id, ids) =>
      if id !in s.accounts || !s.accounts[id].active then s
      else s.(accounts := s.accounts[id := s.accounts[id].(offChain := NonEmptyStripped(ids))])
    case SetActive(id, active) =>
      if id !in s.accounts then s else s.(accounts := s.accounts[id := s.accounts[id].(active := active)])
    case IssueSession(id, token) =>
      if id !in s.accounts || !s.accounts[id].active || token in s.tokens then s
      else s.(tokens := s.tokens[token := Token(LabelOf(s.accounts[id]), false, Effective(s, id))])
    case RevokeToken(token) =>
      if token !in s.tokens then s else s.(tokens := s.tokens[token := s.tokens[token].(revoked := true)])
  }

  function Run(s: State, actions: seq<Action>): State {
    if actions == [] then s else Step(Run(s, actions[..|actions| - 1]), actions[|actions| - 1])
  }

  // ---- cursors -------------------------------------------------------------------------------------------------

  /** Not an earlier block, and the same snapshot at the same block. */
  ghost predicate NotBack(before: map<Feed, Cursor>, after: map<Feed, Cursor>) {
    forall f | f in before ::
      && f in after && before[f].block <= after[f].block
      && (before[f].block == after[f].block ==> before[f].snapshot == after[f].snapshot)
  }

  /** No run moves a cursor back, or to another snapshot of the same block. */
  lemma {:induction false} CursorsNeverGoBack(s: State, actions: seq<Action>)
    ensures NotBack(s.cursors, Run(s, actions).cursors)
  {
    if actions != [] {
      hide Normalized, Replaced, Rewritten, Effective;
      CursorsNeverGoBack(s, actions[..|actions| - 1]);
    }
  }

  /** The last snapshot of a feed that the run applied. */
  function LastOnFeed(s: State, actions: seq<Action>, f: Feed): Option<Snapshot> {
    if actions == [] then None
    else
      var n := |actions| - 1;
      var a := actions[n];
      if a.Sync? && Feed(a.snapshot.account, a.snapshot.chain) == f && VerdictOn(Run(s, actions[..n]), a.snapshot) == Applied
      then Some(a.snapshot)
      else LastOnFeed(s, actions[..n], f)
  }

  /** After any run, a feed's cursor is at the last snapshot that was applied on it. */
  lemma {:induction false} CursorIsLastApplied(s: State, actions: seq<Action>, f: Feed)
    ensures var cursors := Run(s, actions).cursors;
            match LastOnFeed(s, actions, f)
            case None => (f in cursors) == (f in s.cursors) && (f in cursors ==> cursors[f] == s.cursors[f])
            case Some(x) => f in cursors && cursors[f].block == x.block && cursors[f].snapshot == x.tx
  {
    if actions != [] {
      hide Normalized, Replaced, Rewritten, Effective;
      CursorIsLastApplied(s, actions[..|actions| - 1], f);
    }
  }

  predicate HasCursor(x: Snapshot) {
    x.tx != "" && x.block >= 0 && x.chain >= 0 && x.logIndex >= 0
  }

  /** A snapshot of an active account is applied exactly when that does not move its feed's cursor back. */
  lemma AppliedIffNotBack(s: State, x: Snapshot, now: int)
    requires HasCursor(x) && x.account in s.accounts && s.accounts[x.account].active
    ensures VerdictOn(s, x) == Applied <==>
              NotBack(s.cursors, s.cursors[Feed(x.account, x.chain) := Cursor(x.block, x.tx, x.logIndex, now)])
  {
  }

  // ---- the projection ------------------------------------------------------------------------------------------

  /** The set a snapshot calls for. */
  function Called(x: Snapshot): set<string> {
    if x.finalized then Normalized(x.agentIds) else {}
  }

  lemma ReplacedOnChain(rows: map<Place, Registration>, x: Snapshot, now: int, account: string)
    ensures OnChain(Replaced(rows, x, now), account) == if account == x.account then Called(x) else OnChain(rows, account)
  {
    hide Normalized;
    var after := Replaced(rows, x, now);
    forall d ensures d in OnChain(after, account) <==> d in if account == x.account then Called(x) else OnChain(rows, account) {
      var p := Place(account, d);
      assert d in OnChain(after, account) <==> p in after && after[p].active && after[p].finalized;
      assert d in OnChain(rows, account) <==> p in rows && rows[p].active && rows[p].finalized;
    }
  }

  /** A snapshot of a later block, or the first of its feed, always becomes the on-chain set. */
  lemma LaterBlockIsProjected(s: State, x: Snapshot, now: int)
    requires HasCursor(x) && x.account in s.accounts && s.accounts[x.account].active
    requires var feed := Feed(x.account, x.chain); feed in s.cursors ==> s.cursors[feed].block < x.block
    ensures var after := Synced(s, x, now);
            && after.cursors == s.cursors[Feed(x.account, x.chain) := Cursor(x.block, x.tx, x.logIndex, now)]
            && OnChain(after.registrations, x.account)
               == if x.finalized then set v | v in x.agentIds && "did:integrity:" <= v :: Strip(v) else {}
  {
    ReplacedOnChain(s.registrations, x, now, x.account);
    hide OnChain, Replaced, Rewritten, Strip;
  }

  /** What else an applied snapshot does: other rows are revoked at that time or left alone, and live session tokens get its set. */
  lemma AppliedTouches(s: State, x: Snapshot, now: int)
    requires VerdictOn(s, x) == Applied
    ensures var after := Synced(s, x, now);
            && after.accounts == s.accounts && s.registrations.Keys <= after.registrations.Keys
            && (forall p | p in s.registrations ::
                  && (p.account != x.account ==> after.registrations[p] == s.registrations[p])
                  && (p.account == x.account && p.did !in Normalized(x.agentIds) ==>
                        var row := s.registrations[p];
                        after.registrations[p] == if row.active then row.(active := false, revokedAt := Some(now)) else row))
            && after.tokens.Keys == s.tokens.Keys
            && (forall t | t in s.tokens ::
                  after.tokens[t] == if s.tokens[t].name == "account:" + s.accounts[x.account].email && !s.tokens[t].revoked
                                     then s.tokens[t].(agentIds := Called(x)) else s.tokens[t])
  {
    hide Normalized;
  }

  /** The last snapshot of the account that the run applied, on whatever chain. */
  function LastApplied(s: State, actions: seq<Action>, account: string): Option<Snapshot> {
    if actions == [] then None
    else
      var n := |actions| - 1;
      var a := actions[n];
      if a.Sync? && a.snapshot.account == account && VerdictOn(Run(s, actions[..n]), a.snapshot) == Applied then Some(a.snapshot)
      else LastApplied(s, actions[..n], account)
  }

  /** After any run, the on-chain set is what the last applied snapshot calls for. */
  lemma {:induction false} ProjectionIsLastSnapshot(s: State, actions: seq<Action>, account: string)
    ensures OnChain(Run(s, actions).registrations, account)
         == match LastApplied(s, actions, account) case None => OnChain(s.registrations, account) case Some(x) => Called(x)
  {
    if actions != [] {
      var n := |actions| - 1;
      ProjectionIsLastSnapshot(s, actions[..n], account);
      if actions[n].Sync? {
        ReplacedOnChain(Run(s, actions[..n]).registrations, actions[n].snapshot, actions[n].now, account);
      }
      hide OnChain, Replaced, Called, Normalized, Rewritten, Effective;
    }
  }

  /** The account's active rows are exactly the snapshot's, from its chain. */
  ghost predicate RowsAreOf(rows: map<Place, Registration>, x: Snapshot) {
    forall d ::
      var p := Place(x.account, d);
      && (p in rows && rows[p].active <==> d in Normalized(x.agentIds))
      && (p in rows && rows[p].active ==> rows[p].chain == x.chain && rows[p].tx == x.tx && rows[p].finalized == x.finalized)
  }

  lemma ReplacedRowsAreOf(rows: map<Place, Registration>, x: Snapshot, now: int)
    ensures RowsAreOf(Replaced(rows, x, now), x)
    ensures forall y: Snapshot | y.account != x.account && RowsAreOf(rows, y) :: RowsAreOf(Replaced(rows, x, now), y)
  {
    hide Normalized;
    var after := Replaced(rows, x, now);
    forall y: Snapshot | y.account != x.account && RowsAreOf(rows, y) ensures RowsAreOf(after, y) {
      forall d ensures var p := Place(y.account, d); (p in after <==> p in rows) && (p in rows ==> after[p] == rows[p]) {
      }
    }
  }

  lemma StepRows(s: State, a: Action)
    ensures Step(s, a).registrations == if a.Sync? && VerdictOn(s, a.snapshot) == Applied
                                        then Replaced(s.registrations, a.snapshot, a.now) else s.registrations
  {
    hide Replaced, Rewritten, Effective, Normalized;
  }

  /**
   * Syncs revoke across chains: after any run an account's active rows are the DIDs of the last snapshot applied for
   * it, all with that snapshot's chain, whatever chains other snapshots of the run were of.
   */
  lemma {:induction false} ActiveRowsAreOfOneChain(s: State, actions: seq<Action>, account: string)
    ensures var last := LastApplied(s, actions, account);
            last.Some? ==> last.value.account == account && RowsAreOf(Run(s, actions).registrations, last.value)
  {
    if actions != [] {
      var n := |actions| - 1;
      hide RowsAreOf, Replaced, Step, VerdictOn;
      ActiveRowsAreOfOneChain(s, actions[..n], account);
      StepRows(Run(s, actions[..n]), actions[n]);
      if actions[n].Sync? {
        ReplacedRowsAreOf(Run(s, actions[..n]).registrations, actions[n].snapshot, actions[n].now);
      }
    }
  }

  /**
   * A snapshot of another chain takes over: the first chain's cursor stays at its snapshot, but the account is left
   * with the second set alone. That is the union of both exactly when the second chain has all the DIDs of the first.
   */
  lemma OtherChainTakesOver(s: State, x: Snapshot, t: int, y: Snapshot, u: int)
    requires VerdictOn(s, x) == Applied && VerdictOn(s, y) == Applied && y.account == x.account && y.chain != x.chain
    ensures var once := Synced(s, x, t); var twice := Synced(once, y, u);
            && VerdictOn(once, y) == Applied && VerdictOn(twice, x) == Applied
            && twice.cursors[Feed(x.account, x.chain)] == Cursor(x.block, x.tx, x.logIndex, t)
            && OnChain(once.registrations, x.account) == Called(x)
            && (OnChain(twice.registrations, x.account) == Called(x) + Called(y) <==> Called(x) <= Called(y))
  {
    var once := Synced(s, x, t);
    ReplacedOnChain(s.registrations, x, t, x.account);
    ReplacedOnChain(once.registrations, y, u, x.account);
    hide Normalized, Replaced, Rewritten, OnChain, Called;
  }

  lemma RunOfTwo(s: State, a: Action, b: Action)
    ensures Run(s, [a]) == Step(s, a) && Run(s, [a, b]) == Step(Step(s, a), b)
  {
    hide Step;
    assert [a][..0] == [] && [a, b][..1] == [a];
    assert Run(s, [a]) == Step(Run(s, []), a);
  }

  /** Some account is active, and nothing is registered. */
  function Managed(account: string): State {
    State(map[account := Account("e", true, {})], map[], map[], map[])
  }

  lemma StrippedIsNormal(did: string)
    requires DID_PREFIX <= did && Strip(did) == did
    ensures Normalized([did]) == {did} && Normalized([]) == {}
  {
    hide Strip, DID_PREFIX;
    assert did in [did];
  }

  /** A run of two chains that loses a row: the first chain lists one DID, the second then lists none. */
  lemma TwoChainsLoseARow(account: string, did: string, t: int, u: int)
    requires DID_PREFIX <= did && Strip(did) == did
    ensures var one, two := Snapshot(account, 1, 0, "x", 0, [did], true), Snapshot(account, 2, 0, "y", 0, [], true);
            var once, twice := Run(Managed(account), [Sync(one, t)]), Run(Managed(account), [Sync(one, t), Sync(two, u)]);
            && OnChain(once.registrations, account) == {did} && OnChain(twice.registrations, account) == {}
            && twice.registrations == map[Place(account, did) := Registration(1, 0, "x", 0, false, true, t, Some(u))]
  {
    var one, two := Snapshot(account, 1, 0, "x", 0, [did], true), Snapshot(account, 2, 0, "y", 0, [], true);
    hide Normalized, Rewritten, Strip, DID_PREFIX;
    StrippedIsNormal(did);
    RunOfTwo(Managed(account), Sync(one, t), Sync(two, u));
    hide Run, OnChain;
    var once := Synced(Managed(account), one, t);
    assert VerdictOn(Managed(account), one) == Applied && VerdictOn(once, two) == Applied;
    ReplacedOnChain(map[], one, t, account);
    ReplacedOnChain(once.registrations, two, u, account);
    assert once.registrations == map[Place(account, did) := Fresh(one, t)];
  }

  // ---- replay --------------------------------------------------------------------------------------------------

  function Timeless(r: Registration): Registration {
    r.(observedAt := 0)
  }

  /** The state without observation times. */
  function WithoutTimes(s: State): State {
    s.(registrations := map p | p in s.registrations :: Timeless(s.registrations[p]),
       cursors := map f | f in s.cursors :: s.cursors[f].(observedAt := 0))
  }

  /** Replaying the snapshot just applied is accepted, and changes nothing but observation times. */
  lemma ReplayChangesOnlyTimes(s: State, x: Snapshot, now: int, later: int)
    requires VerdictOn(s, x) == Applied
    ensures var once := Synced(s, x, now);
            VerdictOn(once, x) == Applied && WithoutTimes(Synced(once, x, later)) == WithoutTimes(once)
  {
    var once := Synced(s, x, now);
    var twice := Synced(once, x, later);
    ReplacedAgain(s.registrations, x, now, later);
    RewrittenAgain(s.tokens, LabelOf(s.accounts[x.account]), Called(x));
    hide Normalized, Replaced, Rewritten;
    assert WithoutTimes(twice).cursors == WithoutTimes(once).cursors;
  }

  lemma ReplacedAgain(rows: map<Place, Registration>, x: Snapshot, now: int, later: int)
    ensures var once := Replaced(rows, x, now);
            var twice := Replaced(once, x, later);
            (map p | p in twice :: Timeless(twice[p])) == (map p | p in once :: Timeless(once[p]))
  {
    hide Normalized;
  }

  lemma RewrittenAgain(tokens: map<string, Token>, name: string, ids: set<string>)
    ensures Rewritten(Rewritten(tokens, name, ids), name, ids) == Rewritten(tokens, name, ids)
  {
  }

  // ---- the effective set -----------------------------------------------------------------------------------------

  lemma StripLeftDid(v: string)
    requires DID_PREFIX <= v
    ensures StripLeft(v) == v
  {
    assert v[0] == DID_PREFIX[0] == 'd';
    hide DID_PREFIX;
    assert !IsSpace('d');
    hide IsSpace;
  }

  lemma {:induction false} StripRightIdempotent(v: string)
    ensures StripRight(StripRight(v)) == StripRight(v)
  {
    if v != "" && IsSpace(v[|v| - 1]) {
      StripRightIdempotent(v[..|v| - 1]);
    }
  }

  /** Stripping only cuts behind the prefix. */
  lemma {:induction false} StripRightKeepsDid(v: string)
    requires DID_PREFIX <= v
    ensures DID_PREFIX <= StripRight(v)
    decreases |v|
  {
    if IsSpace(v[|v| - 1]) {
      assert !IsSpace(DID_PREFIX[|DID_PREFIX| - 1]);
      assert |v| > |DID_PREFIX|;
      StripRightKeepsDid(v[..|v| - 1]);
    }
  }

  lemma NormalizedIsStripped(ids: seq<string>, d: string)
    requires d in Normalized(ids)
    ensures d != "" && Strip(d) == d
  {
    var v :| v in ids && DID_PREFIX <= v && d == Strip(v);
    StripLeftDid(v);
    StripRightKeepsDid(v);
    StripRightIdempotent(v);
    StripLeftDid(d);
  }

  /** Every on-chain DID was stored stripped. */
  ghost predicate StoredStripped(s: State) {
    forall p | p in s.registrations :: p.did != "" && Strip(p.did) == p.did
  }

  lemma SyncKeepsStripped(s: State, x: Snapshot, now: int)
    requires StoredStripped(s)
    ensures StoredStripped(Synced(s, x, now))
  {
    forall d | d in Normalized(x.agentIds) ensures d != "" && Strip(d) == d {
      NormalizedIsStripped(x.agentIds, d);
    }
    hide Normalized, Strip, Rewritten, Fresh, Revoked;
  }

  lemma {:induction false} RunKeepsStripped(s: State, actions: seq<Action>)
    requires StoredStripped(s)
    ensures StoredStripped(Run(s, actions))
  {
    hide Normalized, Strip, Rewritten, Effective, Synced;
    if actions != [] {
      var n := |actions| - 1;
      RunKeepsStripped(s, actions[..n]);
      if actions[n].Sync? {
        SyncKeepsStripped(Run(s, actions[..n]), actions[n].snapshot, actions[n].now);
      }
    }
  }

  function OffChain(s: State, account: string): set<string>
    requires account in s.accounts
  {
    NonEmptyStripped(s.accounts[account].offChain)
  }

  /** The effective set is the union of the on-chain set and the account's own ids; neither hides the other. */
  lemma EffectiveIsUnion(s: State, account: string)
    requires account in s.accounts && StoredStripped(s)
    ensures Effective(s, account) == OnChain(s.registrations, account) + OffChain(s, account)
    ensures forall d :: d in Effective(s, account) <==>
                          d in OnChain(s.registrations, account)
                          || (d != "" && exists v :: v in s.accounts[account].offChain && Strip(v) == d)
  {
    hide Strip;
    var chain, own := OnChain(s.registrations, account), s.accounts[account].offChain;
    forall d | d in chain ensures d != "" && Strip(d) == d {
    }
    forall d ensures d in NonEmptyStripped(chain + own) <==> d in chain || d in NonEmptyStripped(own) {
      if d in chain {
        assert d in chain + own;
      }
      if v :| v in own && Strip(v) != "" && Strip(v) == d {
        assert v in chain + own;
      }
    }
  }

  /** A sync leaves the account's own ids alone. */
  lemma SyncKeepsOffChain(s: State, x: Snapshot, now: int, account: string)
    requires account in s.accounts && StoredStripped(s)
    ensures var after := Synced(s, x, now);
            VerdictOn(s, x) == Applied && account == x.account ==>
              account in after.accounts && Effective(after, account) == Called(x) + OffChain(s, account)
  {
    if VerdictOn(s, x) == Applied && account == x.account {
      SyncKeepsStripped(s, x, now);
      EffectiveIsUnion(Synced(s, x, now), account);
      ReplacedOnChain(s.registrations, x, now, account);
      hide Normalized, Replaced, Rewritten, OnChain, Called, Effective, StoredStripped;
    }
  }

  /** What a sync writes into live session tokens is the effective set exactly when the account's own ids are all on chain. */
  lemma TokensAreEffectiveIff(s: State, x: Snapshot, now: int, token: string)
    requires VerdictOn(s, x) == Applied && StoredStripped(s)
    requires token in s.tokens && !s.tokens[token].revoked && s.tokens[token].name == LabelOf(s.accounts[x.account])
    ensures var after := Synced(s, x, now);
            after.tokens[token].agentIds == Effective(after, x.account) <==> OffChain(s, x.account) <= Called(x)
  {
    SyncKeepsOffChain(s, x, now, x.account);
    hide Normalized, Replaced, Effective, OffChain;
  }
}
