/** Preview, apply and rollback of a control-plane import batch, with its ledger of row digests. */
module StorageMigration {
  import opened Options
  import opened TextPieces

  datatype Table = Tenants | Usage | Operations | StripeEvents | CheckoutRequests | EmailVerifications

  const TABLES: seq<Table> := [Tenants, Usage, Operations, StripeEvents, CheckoutRequests, EmailVerifications]

  /** The position of a table in the order of insertion. */
  function RankOf(t: Table): (r: nat)
    ensures r < |TABLES| && TABLES[r] == t
  {
    match t
    case Tenants => 0
    case Usage => 1
    case Operations => 2
    case StripeEvents => 3
    case CheckoutRequests => 4
    case EmailVerifications => 5
  }

  datatype Value = NullValue | IntValue(i: int) | TextValue(s: string)
  type Row = map<string, Value>

  function KeyColumns(t: Table): seq<string> {
    match t
    case Tenants => ["id"]
    case Usage => ["tenant_id", "month", "meter"]
    case Operations => ["tenant_id", "request_key"]
    case StripeEvents => ["id"]
    case CheckoutRequests => ["tenant_id"]
    case EmailVerifications => ["token_hash"]
  }

  function SourceColumns(t: Table): seq<string> {
    match t
    case Tenants => ["id", "owner_account_id", "plan", "status", "customer_id", "subscription_id", "period_end",
                     "cancel_at_period_end", "created_at"]
    case Usage => ["tenant_id", "month", "meter", "amount"]
    case Operations => ["tenant_id", "request_key", "fingerprint"]
    case StripeEvents => ["id", "processed_at"]
    case CheckoutRequests => ["tenant_id", "plan", "attempt", "checkout_id", "url"]
    case EmailVerifications => ["token_hash", "account_id", "expires_at"]
  }

  /** A column's value; an absent column reads as null. */
  function Get(row: Row, name: string): Value {
    if name in row then row[name] else NullValue
  }

  /** The values to insert: the source columns, and two more for a tenant. */
  function ValuesOf(t: Table, row: Row): Row {
    var values := map name | name in SourceColumns(t) :: Get(row, name);
    if t == Tenants then values["owner_user_id" := NullValue]["updated_at" := Get(row, "created_at")] else values
  }

  /** A row's place: its table and primary-key values. */
  datatype Loc = Loc(table: Table, key: seq<Value>)

  function LocOf(t: Table, values: Row): Loc {
    Loc(t, seq(|KeyColumns(t)|, i requires 0 <= i < |KeyColumns(t)| => Get(values, KeyColumns(t)[i])))
  }

  /** The tenant a row references, in the tables whose foreign key deletes on cascade. */
  function Parent(l: Loc): (p: Option<Loc>)
    ensures p.Some? ==> p.value.table == Tenants && l.table != Tenants
  {
    if l.table in {Usage, Operations, CheckoutRequests} && l.key != [] then Some(Loc(Tenants, [l.key[0]])) else None
  }

  type Target = map<Loc, Row>
  datatype Entry = Entry(batch: string, digest: string)

  /** The ledger's uniqueness constraint on table and key makes it a map. */
  datatype Db = Db(target: Target, ledger: map<Loc, Entry>)

  /** What the database adds on insertion: column defaults, and constraints beyond those modelled here. */
  datatype Engine = Engine(fill: (Table, Row) -> Row, admits: (Loc, Row, Target) -> bool)

  /** Stored rows keep the inserted values. */
  ghost predicate Faithful(e: Engine) {
    forall t, values: Row, name | name in values :: Get(e.fill(t, values), name) == values[name]
  }

  // ---- planning ---------------------------------------------------------------------------------------

  datatype SourceRow = SourceRow(table: Table, row: Row)

  predicate Conflicts(values: Row, stored: Row) {
    exists name :: name in values && Get(stored, name) != values[name]
  }

  datatype Status = Missing | Conflicting | Present
  datatype Plan = Plan(loc: Loc, values: Row, status: Status)

  function PlanOf(target: Target, r: SourceRow): Plan {
    var values := ValuesOf(r.table, r.row);
    var loc := LocOf(r.table, values);
    Plan(loc, values, if loc !in target then Missing else if Conflicts(values, target[loc]) then Conflicting else Present)
  }

  function Plans(target: Target, rows: seq<SourceRow>): (plans: seq<Plan>)
    ensures |plans| == |rows| && forall i | 0 <= i < |rows| :: plans[i] == PlanOf(target, rows[i])
  {
    seq(|rows|, i requires 0 <= i < |rows| => PlanOf(target, rows[i]))
  }

  predicate NoConflict(plans: seq<Plan>) {
    forall i | 0 <= i < |plans| :: plans[i].status != Conflicting
  }

  /** How many of the planned rows of a table have a status. */
  function Tally(plans: seq<Plan>, t: Table, s: Status): nat {
    if plans == [] then 0
    else Tally(plans[..|plans| - 1], t, s)
         + if plans[|plans| - 1].loc.table == t && plans[|plans| - 1].status == s then 1 else 0
  }

  // ---- inserting --------------------------------------------------------------------------------------

  /** One insertion and its ledger entry; none when the database rejects either. */
  function InsertOne(digest: Row -> string, e: Engine, db: Db, batch: string, p: Plan): Option<Db> {
    if p.status != Missing then Some(db)
    else if p.loc in db.target || p.loc in db.ledger
         || (Parent(p.loc).Some? && Parent(p.loc).value !in db.target)
         || !e.admits(p.loc, p.values, db.target) then None
    else
      var row := e.fill(p.loc.table, p.values);
      Some(Db(db.target[p.loc := row], db.ledger[p.loc := Entry(batch, digest(row))]))
  }

  function InsertAll(digest: Row -> string, e: Engine, db: Db, batch: string, plans: seq<Plan>): Option<Db>
    decreases |plans|
  {
    if plans == [] then Some(db)
    else
      match InsertOne(digest, e, db, batch, plans[0])
      case None => None
      case Some(next) => InsertAll(digest, e, next, batch, plans[1..])
  }

  datatype Action = Preview | Apply

  datatype Outcome =
    | Refused                          // a blank batch id, or a source row without a required column
    | Conflicted(conflicts: seq<Loc>)  // nothing written
    | Failed                           // the database rejected an insertion; the transaction is undone
    | Done(plans: seq<Plan>)
    | Modified                         // rollback met a changed row; nothing deleted
    | RolledBack(count: nat)

  predicate HasColumns(r: SourceRow) {
    forall i | 0 <= i < |SourceColumns(r.table)| :: SourceColumns(r.table)[i] in r.row
  }

  predicate Acceptable(batch: string, rows: seq<SourceRow>) {
    !Blank(batch) && forall i | 0 <= i < |rows| :: HasColumns(rows[i])
  }

  function ConflictLocs(plans: seq<Plan>): seq<Loc> {
    if plans == [] then []
    else ConflictLocs(plans[..|plans| - 1])
         + if plans[|plans| - 1].status == Conflicting then [plans[|plans| - 1].loc] else []
  }

  function Migrate(digest: Row -> string, e: Engine, db: Db, batch: string, action: Action, rows: seq<SourceRow>)
    : (Outcome, Db)
  {
    var plans := Plans(db.target, rows);
    if !Acceptable(batch, rows) then (Refused, db)
    else if !NoConflict(plans) then (Conflicted(ConflictLocs(plans)), db)
    else if action == Preview then (Done(plans), db)
    else
      match InsertAll(digest, e, db, batch, plans)
      case None => (Failed, db)
      case Some(next) => (Done(plans), next)
  }

  // ---- rolling back -----------------------------------------------------------------------------------

  function Owned(ledger: map<Loc, Entry>, batch: string): set<Loc> {
    set l | l in ledger && ledger[l].batch == batch
  }

  predicate Unmodified(digest: Row -> string, db: Db, batch: string) {
    forall l | l in Owned(db.ledger, batch) && l in db.target :: digest(db.target[l]) == db.ledger[l].digest
  }

  /** Deleting the rows in `gone` takes the rows that reference a deleted tenant with them. */
  predicate Deleted(target: Target, gone: set<Loc>, l: Loc) {
    l in gone || (Parent(l).Some? && Parent(l).value in gone && Parent(l).value in target)
  }

  function Without(target: Target, gone: set<Loc>): Target {
    map l | l in target && !Deleted(target, gone, l) :: target[l]
  }

  function Rollback(digest: Row -> string, db: Db, batch: string): (Outcome, Db) {
    var owned := Owned(db.ledger, batch);
    if Blank(batch) then (Refused, db)
    else if !Unmodified(digest, db, batch) then (Modified, db)
    else (RolledBack(|owned|), Db(Without(db.target, owned), db.ledger - owned))
  }

  // ---- the command ------------------------------------------------------------------------------------

  class ControlPlane {
    var target: Target
    var ledger: map<Loc, Entry>
    const digest: Row -> string

    constructor (target: Target, digest: Row -> string)
      ensures this.target == target && ledger == map[] && this.digest == digest
    {
      this.target, ledger, this.digest := target, map[], digest;
    }

    function State(): Db
      reads this
    {
      Db(target, ledger)
    }

    /** Compare every source row with the target before anything is written. */
    method PlanRows(rows: seq<SourceRow>) returns (plans: seq<Plan>, conflicts: seq<Loc>)
      ensures plans == Plans(target, rows) && conflicts == ConflictLocs(plans)
      ensures conflicts == [] <==> NoConflict(plans)
    {
      hide PlanOf, NoConflict, ConflictLocs;
      NothingPlanned();
      plans, conflicts := [], [];
      var i := 0;
      while i < |rows|
        invariant i <= |rows|
        invariant plans == Plans(target, rows[..i]) && conflicts == ConflictLocs(plans)
        invariant conflicts == [] <==> NoConflict(plans)
      {
        var plan := PlanOf(target, rows[i]);
        assert rows[..i + 1] == rows[..i] + [rows[i]];
        assert Plans(target, rows[..i + 1]) == plans + [plan];
        PlanAdded(plans, plan);
        plans := plans + [plan];
        if plan.status == Conflicting {
          conflicts := conflicts + [plan.loc];
        }
        i := i + 1;
      }
      assert rows[..i] == rows;
    }

    /** Insert the missing rows; the first rejection undoes the transaction. */
    method InsertPlans(e: Engine, batch: string, plans: seq<Plan>) returns (ok: bool)
      modifies this
      ensures var r := InsertAll(digest, e, old(State()), batch, plans);
              ok == r.Some? && State() == if ok then r.value else old(State())
    {
      var before := State();
      var i := 0;
      while i < |plans|
        invariant i <= |plans|
        invariant InsertAll(digest, e, State(), batch, plans[i..]) == InsertAll(digest, e, before, batch, plans)
      {
        var next := InsertOne(digest, e, State(), batch, plans[i]);
        assert plans[i..][0] == plans[i] && plans[i..][1..] == plans[i + 1..];
        if next.None? {
          target, ledger := before.target, before.ledger;
          return false;
        }
        target, ledger := next.value.target, next.value.ledger;
        i := i + 1;
      }
      ok := true;
    }

    method MigrateStorage(e: Engine, batch: string, action: Action, rows: seq<SourceRow>) returns (outcome: Outcome)
      modifies this
      ensures (outcome, State()) == Migrate(digest, e, old(State()), batch, action, rows)
    {
      if !Acceptable(batch, rows) {
        return Refused;
      }
      var plans, conflicts := PlanRows(rows);
      if conflicts != [] {
        return Conflicted(conflicts);
      }
      if action == Apply {
        var ok := InsertPlans(e, batch, plans);
        if !ok {
          return Failed;
        }
      }
      outcome := Done(plans);
    }

    method CheckOwned(batch: string, owned: set<Loc>) returns (ok: bool)
      requires owned == Owned(ledger, batch)
      ensures ok == Unmodified(digest, State(), batch)
    {
      var unchecked := owned;
      while unchecked != {}
        invariant unchecked <= owned
        invariant forall l | l in owned - unchecked && l in target :: digest(target[l]) == ledger[l].digest
      {
        var l :| l in unchecked;
        if l in target && digest(target[l]) != ledger[l].digest {
          return false;
        }
        unchecked := unchecked - {l};
      }
      ok := true;
    }

    /** Delete the owned rows of one table. */
    method DeleteTable(t: Table, owned: set<Loc>, ghost before: Target, ghost gone: set<Loc>)
      returns (ghost more: set<Loc>)
      requires gone <= owned && target == Without(before, gone)
      modifies this`target
      ensures gone <= more <= owned && target == Without(before, more)
      ensures forall l | l in owned && l.table == t :: l in more
    {
      hide Without;
      more := gone;
      var rows := set l | l in owned && l.table == t;
      while rows != {}
        invariant rows <= owned && gone <= more <= owned && target == Without(before, more)
        invariant forall l | l in owned && l.table == t :: l in rows || l in more
      {
        var l :| l in rows;
        DeleteOne(before, more, l);
        if l in target {
          target := Without(target, {l});
        }
        more := more + {l};
        rows := rows - {l};
      }
    }

    /** The owned rows are checked first; then they are deleted table by table, child tables first. */
    method RollbackBatch(batch: string) returns (outcome: Outcome)
      modifies this
      ensures (outcome, State()) == Rollback(digest, old(State()), batch)
    {
      if Blank(batch) {
        return Refused;
      }
      var owned := Owned(ledger, batch);
      var ok := CheckOwned(batch, owned);
      if !ok {
        return Modified;
      }
      ghost var before, gone: set<Loc> := target, {};
      assert Without(before, {}) == before;
      hide Without;
      var t := |TABLES|;
      while t > 0
        invariant 0 <= t <= |TABLES| && ledger == old(ledger)
        invariant gone <= owned && target == Without(before, gone)
        invariant forall l | l in owned && RankOf(l.table) >= t :: l in gone
      {
        t := t - 1;
        gone := DeleteTable(TABLES[t], owned, before, gone);
      }
      assert gone == owned;
      ledger := ledger - owned;
      outcome := RolledBack(|owned|);
    }
  }

  lemma NothingPlanned()
    ensures ConflictLocs([]) == [] && NoConflict([])
  {
  }

  lemma PlanAdded(plans: seq<Plan>, plan: Plan)
    ensures ConflictLocs(plans + [plan]) == ConflictLocs(plans) + if plan.status == Conflicting then [plan.loc] else []
    ensures NoConflict(plans + [plan]) <==> NoConflict(plans) && plan.status != Conflicting
  {
    assert (plans + [plan])[..|plans|] == plans;
    assert forall k | 0 <= k < |plans| :: (plans + [plan])[k] == plans[k];
  }

  /** Deleting one more row, with its cascade, from what earlier deletions left. */
  lemma DeleteOne(target: Target, gone: set<Loc>, l: Loc)
    ensures var left := Without(target, gone);
            (if l in left then Without(left, {l}) else left) == Without(target, gone + {l})
  {
    var left := Without(target, gone);
    var next := if l in left then Without(left, {l}) else left;
    forall x | x in target ensures x in next <==> x in Without(target, gone + {l}) {
      assert Parent(x) == Some(l) ==> Parent(l).None?;
    }
    assert next.Keys == Without(target, gone + {l}).Keys;
  }

  // ---- runs with no other writers ---------------------------------------------------------------------

  /** Every referenced tenant is there. */
  ghost predicate References(target: Target) {
    forall l | l in target && Parent(l).Some? :: Parent(l).value in target
  }

  /**
   * What every reachable state keeps: the initial rows untouched; every other row owned by exactly one
   * batch and still as its ledger entry recorded it; no foreign key broken.
   */
  ghost predicate Inv(digest: Row -> string, initial: Target, db: Db) {
    && References(initial) && References(db.target)
    && (forall l | l in initial :: l in db.target && db.target[l] == initial[l] && l !in db.ledger)
    && (forall l | l in db.target :: l in initial || l in db.ledger)
    && (forall l | l in db.target && l in db.ledger :: digest(db.target[l]) == db.ledger[l].digest)
  }

  lemma InsertOneKeeps(digest: Row -> string, e: Engine, initial: Target, db: Db, batch: string, p: Plan)
    requires Inv(digest, initial, db)
    ensures var r := InsertOne(digest, e, db, batch, p); r.Some? ==> Inv(digest, initial, r.value)
  {
  }

  lemma {:induction false} InsertAllKeeps(digest: Row -> string, e: Engine, initial: Target, db: Db, batch: string,
                                          plans: seq<Plan>)
    requires Inv(digest, initial, db)
    ensures var r := InsertAll(digest, e, db, batch, plans); r.Some? ==> Inv(digest, initial, r.value)
    decreases |plans|
  {
    if plans != [] {
      var next := InsertOne(digest, e, db, batch, plans[0]);
      InsertOneKeeps(digest, e, initial, db, batch, plans[0]);
      if next.Some? {
        InsertAllKeeps(digest, e, initial, next.value, batch, plans[1..]);
      }
    }
  }

  /** Rollback succeeds, and keeps everything the invariant says, cascade included. */
  lemma RollbackKeeps(digest: Row -> string, initial: Target, db: Db, batch: string)
    requires Inv(digest, initial, db)
    ensures Inv(digest, initial, Rollback(digest, db, batch).1)
    ensures !Blank(batch) ==> Rollback(digest, db, batch).0.RolledBack?
  {
  }

  datatype Step =
    | Migration(batch: string, action: Action, rows: seq<SourceRow>, engine: Engine)
    | Reversal(batch: string)

  ghost function After(digest: Row -> string, db: Db, step: Step): Db {
    match step
    case Migration(batch, action, rows, e) => Migrate(digest, e, db, batch, action, rows).1
    case Reversal(batch) => Rollback(digest, db, batch).1
  }

  ghost function Run(digest: Row -> string, db: Db, steps: seq<Step>): Db
    decreases |steps|
  {
    if steps == [] then db else Run(digest, After(digest, db, steps[0]), steps[1..])
  }

  lemma StepKeeps(digest: Row -> string, initial: Target, db: Db, step: Step)
    requires Inv(digest, initial, db)
    ensures Inv(digest, initial, After(digest, db, step))
  {
    match step
    case Migration(batch, action, rows, e) =>
      InsertAllKeeps(digest, e, initial, db, batch, Plans(db.target, rows));
    case Reversal(batch) =>
      RollbackKeeps(digest, initial, db, batch);
  }

  /** Every state of every run, by any batches in any order. */
  lemma {:induction false} RunKeeps(digest: Row -> string, initial: Target, db: Db, steps: seq<Step>)
    requires Inv(digest, initial, db)
    ensures Inv(digest, initial, Run(digest, db, steps))
    decreases |steps|
  {
    if steps != [] {
      StepKeeps(digest, initial, db, steps[0]);
      RunKeeps(digest, initial, After(digest, db, steps[0]), steps[1..]);
    }
  }

  // ---- conservation, and exactly when it holds --------------------------------------------------------

  /** No ledger entry has lost its row: the target is the initial rows and the owned rows. */
  ghost predicate Conserved(db: Db) {
    forall l | l in db.ledger :: l in db.target
  }

  lemma ConservedMeans(digest: Row -> string, initial: Target, db: Db)
    requires Inv(digest, initial, db)
    ensures Conserved(db) <==> db.target.Keys == initial.Keys + db.ledger.Keys
    ensures initial.Keys !! db.ledger.Keys
  {
  }

  /** Some other batch's row is there that references a tenant this batch owns. */
  ghost predicate Strands(db: Db, batch: string) {
    exists l :: l in db.ledger && l in db.target && db.ledger[l].batch != batch
                && Parent(l).Some? && Parent(l).value in Owned(db.ledger, batch)
  }

  /**
   * Rolling a batch back deletes exactly its own rows unless another batch hangs rows on its tenants, whatever
   * earlier rollbacks have stranded; and then it strands no further ledger entry.
   */
  lemma RollbackConservesIff(digest: Row -> string, initial: Target, db: Db, batch: string)
    requires Inv(digest, initial, db) && !Blank(batch)
    ensures Rollback(digest, db, batch).1.target == db.target - Owned(db.ledger, batch) <==> !Strands(db, batch)
    ensures Lost(Rollback(digest, db, batch).1) <= Lost(db) <==> !Strands(db, batch)
  {
    var owned, next := Owned(db.ledger, batch), Rollback(digest, db, batch).1;
    if Strands(db, batch) {
      var l :| l in db.ledger && l in db.target && db.ledger[l].batch != batch && Parent(l).Some? && Parent(l).value in owned;
      assert l in db.target - owned && l !in next.target;
      assert l in Lost(next) && l !in Lost(db);
    } else {
      forall l | l in db.target ensures Deleted(db.target, owned, l) <==> l in owned {
        if Parent(l).Some? && Parent(l).value in owned {
          assert l !in initial;
        }
      }
      assert next.target == db.target - owned;
    }
  }

  /** The ledger entries whose rows are gone. */
  ghost function Lost(db: Db): set<Loc> {
    db.ledger.Keys - db.target.Keys
  }

  lemma ConservedIffNothingLost(db: Db)
    ensures Conserved(db) <==> Lost(db) == {}
  {
    assert forall l :: l in Lost(db) <==> l in db.ledger && l !in db.target;
  }

  lemma {:induction false} InsertAllConserves(digest: Row -> string, e: Engine, db: Db, batch: string, plans: seq<Plan>)
    requires Conserved(db)
    ensures var r := InsertAll(digest, e, db, batch, plans); r.Some? ==> Conserved(r.value)
    decreases |plans|
  {
    if plans != [] {
      var next := InsertOne(digest, e, db, batch, plans[0]);
      if next.Some? {
        InsertAllConserves(digest, e, next.value, batch, plans[1..]);
      }
    }
  }

  /** No rollback of the run strands another batch's rows. */
  ghost predicate NeverStrands(digest: Row -> string, db: Db, steps: seq<Step>)
    decreases |steps|
  {
    steps != [] ==>
      (steps[0].Reversal? && !Blank(steps[0].batch) ==> !Strands(db, steps[0].batch))
      && NeverStrands(digest, After(digest, db, steps[0]), steps[1..])
  }

  /** At every point the target is the initial target plus exactly the rows the ledger owns. */
  ghost predicate AlwaysConserved(digest: Row -> string, initial: Target, db: Db, steps: seq<Step>)
    decreases |steps|
  {
    && db.target.Keys == initial.Keys + db.ledger.Keys
    && (steps != [] ==> AlwaysConserved(digest, initial, After(digest, db, steps[0]), steps[1..]))
  }

  /** Conservation over runs holds exactly when no rollback strands another batch's rows. */
  lemma {:induction false} RunConservesIff(digest: Row -> string, initial: Target, db: Db, steps: seq<Step>)
    requires Inv(digest, initial, db) && Conserved(db)
    ensures AlwaysConserved(digest, initial, db, steps) <==> NeverStrands(digest, db, steps)
    decreases |steps|
  {
    ConservedMeans(digest, initial, db);
    if steps != [] {
      var next := After(digest, db, steps[0]);
      StepKeeps(digest, initial, db, steps[0]);
      StepConservesIff(digest, initial, db, steps[0]);
      ConservedMeans(digest, initial, next);
      if Conserved(next) {
        RunConservesIff(digest, initial, next, steps[1..]);
      }
    }
  }

  lemma StepConservesIff(digest: Row -> string, initial: Target, db: Db, step: Step)
    requires Inv(digest, initial, db) && Conserved(db)
    ensures Conserved(After(digest, db, step)) <==>
              (step.Reversal? && !Blank(step.batch) ==> !Strands(db, step.batch))
  {
    match step
    case Migration(batch, action, rows, e) =>
      InsertAllConserves(digest, e, db, batch, Plans(db.target, rows));
    case Reversal(batch) =>
      if !Blank(batch) {
        RollbackConservesIff(digest, initial, db, batch);
        ConservedIffNothingLost(db);
        ConservedIffNothingLost(Rollback(digest, db, batch).1);
        hide Inv, Strands, Rollback, Conserved, Lost;
      }
  }

  // ---- one command and its inverse --------------------------------------------------------------------

  /** next is db with new rows, each new in both maps and recorded for the batch. */
  ghost predicate Extends(digest: Row -> string, db: Db, next: Db, batch: string) {
    && (forall l | l in db.target :: l in next.target && next.target[l] == db.target[l])
    && (forall l | l in db.ledger :: l in next.ledger && next.ledger[l] == db.ledger[l])
    && (forall l | l in next.target && l !in db.target :: l in next.ledger && l !in db.ledger)
    && (forall l | l in next.ledger && l !in db.ledger ::
          l in next.target && l !in db.target && next.ledger[l] == Entry(batch, digest(next.target[l])))
  }

  lemma {:induction false} InsertAllExtends(digest: Row -> string, e: Engine, db: Db, batch: string, plans: seq<Plan>)
    ensures var r := InsertAll(digest, e, db, batch, plans); r.Some? ==> Extends(digest, db, r.value, batch)
    decreases |plans|
  {
    if plans != [] {
      var next := InsertOne(digest, e, db, batch, plans[0]);
      if next.Some? {
        InsertAllExtends(digest, e, next.value, batch, plans[1..]);
      }
    }
  }

  /** Rolling back after an extension by the same batch is rolling back without it. */
  lemma ExtensionUndone(digest: Row -> string, initial: Target, db: Db, next: Db, batch: string)
    requires Inv(digest, initial, db) && Extends(digest, db, next, batch)
    ensures Unmodified(digest, next, batch)
    ensures Db(Without(next.target, Owned(next.ledger, batch)), next.ledger - Owned(next.ledger, batch))
         == Db(Without(db.target, Owned(db.ledger, batch)), db.ledger - Owned(db.ledger, batch))
  {
    var owned, before := Owned(next.ledger, batch), Owned(db.ledger, batch);
    assert next.ledger - owned == db.ledger - before;
    forall l | l in next.target ensures Deleted(next.target, owned, l) <==> l !in db.target || Deleted(db.target, before, l) {
      assert l in db.target && Parent(l).Some? ==> Parent(l).value in db.target;
    }
    assert Without(next.target, owned) == Without(db.target, before);
  }

  /**
   * Applying and then rolling back is rolling back alone; so it restores target and ledger when the batch owned
   * nothing before.
   */
  lemma ApplyThenRollback(digest: Row -> string, e: Engine, initial: Target, db: Db, batch: string, rows: seq<SourceRow>)
    requires Inv(digest, initial, db) && Migrate(digest, e, db, batch, Apply, rows).0.Done?
    ensures var next := Migrate(digest, e, db, batch, Apply, rows).1;
            && Rollback(digest, next, batch) == (RolledBack(|Owned(next.ledger, batch)|), Rollback(digest, db, batch).1)
            && (Owned(db.ledger, batch) == {} ==> Rollback(digest, next, batch).1 == db)
  {
    var next := Migrate(digest, e, db, batch, Apply, rows).1;
    InsertAllExtends(digest, e, db, batch, Plans(db.target, rows));
    RollbackKeeps(digest, initial, db, batch);
    RollbackOfNothing(digest, db, batch);
    hide Inv, Extends, Unmodified, Without, InsertAll, Owned;
    ExtensionUndone(digest, initial, db, next, batch);
  }

  lemma RollbackOfNothing(digest: Row -> string, db: Db, batch: string)
    ensures Owned(db.ledger, batch) == {} ==> Rollback(digest, db, batch).1 == db
  {
    if Owned(db.ledger, batch) == {} {
      assert forall l :: !Deleted(db.target, {}, l);
      assert Without(db.target, {}) == db.target && db.ledger - {} == db.ledger;
    }
  }

  /** The new rows of a table. */
  ghost function Added(db: Db, next: Db, t: Table): set<Loc> {
    set l | l in next.target && l !in db.target && l.table == t
  }

  /** One more insertion adds its row to the count of its table. */
  lemma AddedNext(digest: Row -> string, e: Engine, db: Db, batch: string, p: Plan, next: Db, last: Db, t: Table)
    requires InsertOne(digest, e, db, batch, p) == Some(next) && Extends(digest, next, last, batch)
    ensures |Added(db, last, t)| == |Added(next, last, t)| + if p.status == Missing && p.loc.table == t then 1 else 0
  {
    if p.status == Missing {
      assert next.target.Keys == db.target.Keys + {p.loc} && p.loc !in db.target && p.loc in last.target;
      hide InsertOne, Extends;
      AddedWith(db, next, last, t, p.loc);
    }
  }

  lemma AddedWith(db: Db, next: Db, last: Db, t: Table, l: Loc)
    requires next.target.Keys == db.target.Keys + {l} && l !in db.target && l in last.target
    ensures |Added(db, last, t)| == |Added(next, last, t)| + if l.table == t then 1 else 0
  {
    if l.table == t {
      assert Added(db, last, t) == Added(next, last, t) + {l};
    } else {
      assert Added(db, last, t) == Added(next, last, t);
    }
  }

  lemma {:induction false} TallyFirst(plans: seq<Plan>, t: Table, s: Status)
    requires plans != []
    ensures Tally(plans, t, s) == Tally(plans[1..], t, s) + if plans[0].loc.table == t && plans[0].status == s then 1 else 0
  {
    var n := |plans| - 1;
    if n > 0 {
      TallyFirst(plans[..n], t, s);
      assert plans[1..][..n - 1] == plans[..n][1..];
    } else {
      assert plans[1..] == [] && plans[..0] == [];
    }
  }

  lemma {:induction false} TallyIsAdded(digest: Row -> string, e: Engine, db: Db, batch: string, plans: seq<Plan>, t: Table)
    ensures var r := InsertAll(digest, e, db, batch, plans); r.Some? ==> Tally(plans, t, Missing) == |Added(db, r.value, t)|
    decreases |plans|
  {
    var r := InsertAll(digest, e, db, batch, plans);
    if r.Some? {
      if plans == [] {
        assert Added(db, db, t) == {};
      } else {
        var next := InsertOne(digest, e, db, batch, plans[0]);
        hide InsertOne, Tally, Added, Extends;
        TallyFirst(plans, t, Missing);
        TallyIsAdded(digest, e, next.value, batch, plans[1..], t);
        InsertAllExtends(digest, e, next.value, batch, plans[1..]);
        AddedNext(digest, e, db, batch, plans[0], next.value, r.value, t);
      }
    }
  }

  /** A preview foretells an apply: the same report, nothing written, and "to import" counts exactly the rows the apply adds. */
  lemma PreviewForetells(digest: Row -> string, e: Engine, db: Db, batch: string, rows: seq<SourceRow>, t: Table)
    requires Migrate(digest, e, db, batch, Apply, rows).0.Done?
    ensures var (report, next) := Migrate(digest, e, db, batch, Apply, rows);
            && Migrate(digest, e, db, batch, Preview, rows) == (report, db)
            && Tally(report.plans, t, Missing) == |Added(db, next, t)|
  {
    TallyIsAdded(digest, e, db, batch, Plans(db.target, rows), t);
  }

  /** An apply changes something exactly when it completes and some source row was not there. */
  lemma ApplyChangesIff(digest: Row -> string, e: Engine, db: Db, batch: string, rows: seq<SourceRow>)
    ensures var (report, next) := Migrate(digest, e, db, batch, Apply, rows);
            next != db <==> report.Done? && exists r :: r in rows && LocOf(r.table, ValuesOf(r.table, r.row)) !in db.target
  {
    var (report, next) := Migrate(digest, e, db, batch, Apply, rows);
    var plans := Plans(db.target, rows);
    if report.Done? {
      InsertAllExtends(digest, e, db, batch, plans);
      hide LocOf, ValuesOf, InsertOne;
      if r :| r in rows && LocOf(r.table, ValuesOf(r.table, r.row)) !in db.target {
        var i :| 0 <= i < |rows| && rows[i] == r;
        MissingIsAdded(digest, e, db, batch, plans, i);
      } else {
        forall i | 0 <= i < |plans| ensures plans[i].status != Missing {
          assert rows[i] in rows;
        }
        NothingInserted(digest, e, db, batch, plans);
      }
    }
  }

  lemma {:induction false} MissingIsAdded(digest: Row -> string, e: Engine, db: Db, batch: string, plans: seq<Plan>, i: nat)
    requires i < |plans| && plans[i].status == Missing && InsertAll(digest, e, db, batch, plans).Some?
    ensures plans[i].loc in InsertAll(digest, e, db, batch, plans).value.target
    decreases |plans|
  {
    var next := InsertOne(digest, e, db, batch, plans[0]);
    if i > 0 {
      MissingIsAdded(digest, e, next.value, batch, plans[1..], i - 1);
    } else {
      InsertAllExtends(digest, e, next.value, batch, plans[1..]);
    }
  }

  lemma {:induction false} NothingInserted(digest: Row -> string, e: Engine, db: Db, batch: string, plans: seq<Plan>)
    requires forall i | 0 <= i < |plans| :: plans[i].status != Missing
    ensures InsertAll(digest, e, db, batch, plans) == Some(db)
    decreases |plans|
  {
    if plans != [] {
      NothingInserted(digest, e, db, batch, plans[1..]);
    }
  }

  /** A rollback changes something exactly when the batch owns a ledger entry and none of its rows was modified. */
  lemma RollbackChangesIff(digest: Row -> string, db: Db, batch: string)
    ensures Rollback(digest, db, batch).1 != db <==>
              !Blank(batch) && Unmodified(digest, db, batch) && exists l :: l in db.ledger && db.ledger[l].batch == batch
  {
    var owned := Owned(db.ledger, batch);
    if l :| l in db.ledger && db.ledger[l].batch == batch {
      assert l in owned && l !in db.ledger - owned;
    } else {
      assert owned == {};
      RollbackOfNothing(digest, db, batch);
    }
  }

  /** After an apply every planned row is there and agrees with its source. */
  lemma {:induction false} InsertAllPresent(digest: Row -> string, e: Engine, db: Db, batch: string, plans: seq<Plan>)
    requires Faithful(e)
    requires forall i | 0 <= i < |plans| && plans[i].status != Missing ::
               plans[i].loc in db.target && !Conflicts(plans[i].values, db.target[plans[i].loc])
    ensures var r := InsertAll(digest, e, db, batch, plans);
            r.Some? ==> forall i | 0 <= i < |plans| ::
              plans[i].loc in r.value.target && !Conflicts(plans[i].values, r.value.target[plans[i].loc])
    decreases |plans|
  {
    if plans != [] {
      var next := InsertOne(digest, e, db, batch, plans[0]);
      if next.Some? {
        var rest := plans[1..];
        InsertAllPresent(digest, e, next.value, batch, rest);
        InsertAllExtends(digest, e, next.value, batch, rest);
        assert forall i | 0 < i < |plans| :: plans[i] == rest[i - 1];
      }
    }
  }

  lemma {:induction false} NothingMissing(digest: Row -> string, e: Engine, db: Db, batch: string, plans: seq<Plan>)
    requires forall i | 0 <= i < |plans| :: plans[i].status == Present
    ensures InsertAll(digest, e, db, batch, plans) == Some(db)
    ensures forall t :: Tally(plans, t, Missing) == 0
    decreases |plans|
  {
    if plans != [] {
      NothingInserted(digest, e, db, batch, plans);
      NothingMissing(digest, e, db, batch, plans[1..]);
      forall t ensures Tally(plans, t, Missing) == 0 {
        NoneTallied(plans, t);
      }
    }
  }

  lemma {:induction false} NoneTallied(plans: seq<Plan>, t: Table)
    requires forall i | 0 <= i < |plans| :: plans[i].status == Present
    ensures Tally(plans, t, Missing) == 0
  {
    if plans != [] {
      NoneTallied(plans[..|plans| - 1], t);
    }
  }

  /** Applying the same rows again, for any batch, imports nothing. */
  lemma ReapplyImportsNothing(digest: Row -> string, e: Engine, db: Db, batch: string, rows: seq<SourceRow>, again: string)
    requires Faithful(e) && !Blank(again) && Migrate(digest, e, db, batch, Apply, rows).0.Done?
    ensures var next := Migrate(digest, e, db, batch, Apply, rows).1;
            Migrate(digest, e, next, again, Apply, rows) == (Done(Plans(next.target, rows)), next)
            && forall t :: Tally(Plans(next.target, rows), t, Missing) == 0
  {
    var plans, next := Plans(db.target, rows), Migrate(digest, e, db, batch, Apply, rows).1;
    InsertAllPresent(digest, e, db, batch, plans);
    var second := Plans(next.target, rows);
    forall i | 0 <= i < |second| ensures second[i].status == Present {
      assert second[i].loc == plans[i].loc && second[i].values == plans[i].values;
    }
    NothingMissing(digest, e, next, again, second);
  }

  // ---- what the target holds, in the source's own columns ------------------------------------------------

  /** A stored row has every column of the source row; a tenant's other two are null and the time of creation. */
  predicate Carries(stored: Row, r: SourceRow) {
    && (forall i | 0 <= i < |SourceColumns(r.table)| ::
          Get(stored, SourceColumns(r.table)[i]) == Get(r.row, SourceColumns(r.table)[i]))
    && (r.table == Tenants ==>
          Get(stored, "owner_user_id") == NullValue && Get(stored, "updated_at") == Get(r.row, "created_at"))
  }

  lemma ColumnIsValue(t: Table, row: Row, i: nat)
    requires i < |SourceColumns(t)|
    ensures SourceColumns(t)[i] in ValuesOf(t, row)
    ensures ValuesOf(t, row)[SourceColumns(t)[i]] == Get(row, SourceColumns(t)[i])
  {
    assert forall j | 0 <= j < |SourceColumns(Tenants)| :: SourceColumns(Tenants)[j] !in {"owner_user_id", "updated_at"};
  }

  lemma OnlyColumns(t: Table, row: Row, name: string)
    requires name in ValuesOf(t, row)
    ensures name in SourceColumns(t) || (t == Tenants && name in {"owner_user_id", "updated_at"})
    ensures t == Tenants ==>
              && "owner_user_id" in ValuesOf(t, row) && ValuesOf(t, row)["owner_user_id"] == NullValue
              && "updated_at" in ValuesOf(t, row) && ValuesOf(t, row)["updated_at"] == Get(row, "created_at")
  {
  }

  lemma CarriesIff(stored: Row, r: SourceRow)
    ensures Carries(stored, r) <==> !Conflicts(ValuesOf(r.table, r.row), stored)
  {
    var t, values := r.table, ValuesOf(r.table, r.row);
    forall i: nat | i < |SourceColumns(t)|
      ensures SourceColumns(t)[i] in values && values[SourceColumns(t)[i]] == Get(r.row, SourceColumns(t)[i])
    {
      ColumnIsValue(t, r.row, i);
    }
    forall name | name in values
      ensures name in SourceColumns(t) || (t == Tenants && name in {"owner_user_id", "updated_at"})
    {
      OnlyColumns(t, r.row, name);
    }
    ColumnIsValue(t, r.row, 0);
    OnlyColumns(t, r.row, SourceColumns(t)[0]);
    hide ValuesOf, SourceColumns, Get;
    if Carries(stored, r) {
      forall name | name in values ensures Get(stored, name) == values[name] {
        if name in SourceColumns(t) {
          var i :| 0 <= i < |SourceColumns(t)| && SourceColumns(t)[i] == name;
        }
      }
    }
  }

  /** The key of a source row is read off its own columns. */
  lemma KeyOfSource(r: SourceRow)
    ensures LocOf(r.table, ValuesOf(r.table, r.row)) == LocOf(r.table, r.row)
  {
    var columns, keys := SourceColumns(r.table), KeyColumns(r.table);
    forall i: nat | i < |keys| ensures Get(ValuesOf(r.table, r.row), keys[i]) == Get(r.row, keys[i]) {
      assert exists k :: 0 <= k < |columns| && columns[k] == keys[i] by {
        KeysAreColumns(r.table, i);
      }
      var k :| 0 <= k < |columns| && columns[k] == keys[i];
      ColumnIsValue(r.table, r.row, k);
    }
    hide ValuesOf;
  }

  lemma KeysAreColumns(t: Table, i: nat)
    requires i < |KeyColumns(t)|
    ensures exists k :: 0 <= k < |SourceColumns(t)| && SourceColumns(t)[k] == KeyColumns(t)[i]
  {
    assert i < |SourceColumns(t)| && SourceColumns(t)[i] == KeyColumns(t)[i];
  }

  /** A source row is missing, present or conflicting as the row under its key is absent, carries it, or does not. */
  lemma PlanMeans(target: Target, r: SourceRow)
    ensures var p, l := PlanOf(target, r), LocOf(r.table, r.row);
            && p.loc == l
            && (p.status == Missing <==> l !in target)
            && (p.status == Present <==> l in target && Carries(target[l], r))
            && (p.status == Conflicting <==> l in target && !Carries(target[l], r))
  {
    KeyOfSource(r);
    var l := LocOf(r.table, r.row);
    if l in target {
      CarriesIff(target[l], r);
    }
    hide ValuesOf, LocOf, Carries, Conflicts;
  }

  /** The answer to a command: refused for its batch id or a missing column, conflicting for a row that differs from its source. */
  lemma AnswerIff(digest: Row -> string, e: Engine, db: Db, batch: string, action: Action, rows: seq<SourceRow>)
    ensures var outcome := Migrate(digest, e, db, batch, action, rows).0;
            && (outcome.Refused? <==>
                  || (forall i | 0 <= i < |batch| :: IsSpace(batch[i]))
                  || exists r, name :: r in rows && name in SourceColumns(r.table) && name !in r.row)
            && (outcome.Conflicted? <==>
                  && !outcome.Refused?
                  && exists r :: r in rows && LocOf(r.table, r.row) in db.target && !Carries(db.target[LocOf(r.table, r.row)], r))
  {
    var plans := Plans(db.target, rows);
    forall i | 0 <= i < |rows|
      ensures var l := LocOf(rows[i].table, rows[i].row);
              plans[i].status == Conflicting <==> l in db.target && !Carries(db.target[l], rows[i])
    {
      hide PlanOf, LocOf, Carries;
      PlanMeans(db.target, rows[i]);
    }
    AcceptableIff(batch, rows);
    hide PlanOf, LocOf, Carries, InsertAll, ConflictLocs, HasColumns, Acceptable, Blank, SourceColumns, IsSpace;
    if r :| r in rows && LocOf(r.table, r.row) in db.target && !Carries(db.target[LocOf(r.table, r.row)], r) {
      var i :| 0 <= i < |rows| && rows[i] == r;
      assert plans[i].status == Conflicting;
    }
    if !NoConflict(plans) {
      var i :| 0 <= i < |plans| && plans[i].status == Conflicting;
      assert rows[i] in rows;
    }
  }

  lemma AcceptableIff(batch: string, rows: seq<SourceRow>)
    ensures !Acceptable(batch, rows) <==>
              || (forall i | 0 <= i < |batch| :: IsSpace(batch[i]))
              || exists r, name :: r in rows && name in SourceColumns(r.table) && name !in r.row
  {
    hide SourceColumns, IsSpace;
    if r, name :| r in rows && name in SourceColumns(r.table) && name !in r.row {
      var i :| 0 <= i < |rows| && rows[i] == r;
      var k :| 0 <= k < |SourceColumns(r.table)| && SourceColumns(r.table)[k] == name;
      assert !HasColumns(rows[i]);
    }
    if i :| 0 <= i < |rows| && !HasColumns(rows[i]) {
      var k :| 0 <= k < |SourceColumns(rows[i].table)| && SourceColumns(rows[i].table)[k] !in rows[i].row;
      assert rows[i] in rows && SourceColumns(rows[i].table)[k] in SourceColumns(rows[i].table);
    }
  }

  /** After a completed apply the target holds every source row, under its key and with all its columns. */
  lemma ApplyCarriesSource(digest: Row -> string, e: Engine, db: Db, batch: string, rows: seq<SourceRow>, r: SourceRow)
    requires Faithful(e) && Migrate(digest, e, db, batch, Apply, rows).0.Done? && r in rows
    ensures var target := Migrate(digest, e, db, batch, Apply, rows).1.target;
            LocOf(r.table, r.row) in target && Carries(target[LocOf(r.table, r.row)], r)
  {
    var plans, target := Plans(db.target, rows), Migrate(digest, e, db, batch, Apply, rows).1.target;
    var i :| 0 <= i < |rows| && rows[i] == r;
    InsertAllPresent(digest, e, db, batch, plans);
    PlanMeans(db.target, r);
    KeyOfSource(r);
    CarriesIff(target[LocOf(r.table, r.row)], r);
  }

  predicate OwnedBy(db: Db, batch: string, l: Loc) {
    l in db.ledger && db.ledger[l].batch == batch
  }

  /** The tenant a row of a child table belongs to. */
  function TenantOf(l: Loc): Loc
    requires l.key != []
  {
    Loc(Tenants, [l.key[0]])
  }

  /**
   * A rollback that completes leaves exactly the rows that the batch does not own and whose tenant, where they have
   * one, it does not own either; and it drops exactly the batch's ledger entries. It completes unless an owned row
   * that is still there has another digest.
   */
  lemma RollbackLeaves(digest: Row -> string, db: Db, batch: string, l: Loc)
    requires exists i :: 0 <= i < |batch| && !IsSpace(batch[i])
    ensures var (outcome, next) := Rollback(digest, db, batch);
            if forall x | OwnedBy(db, batch, x) && x in db.target :: digest(db.target[x]) == db.ledger[x].digest then
              && outcome.RolledBack?
              && (l in next.target <==>
                    && l in db.target && !OwnedBy(db, batch, l)
                    && !(l.table in {Usage, Operations, CheckoutRequests} && l.key != []
                         && OwnedBy(db, batch, TenantOf(l)) && TenantOf(l) in db.target))
              && (l in next.target ==> next.target[l] == db.target[l])
              && (l in next.ledger <==> l in db.ledger && !OwnedBy(db, batch, l))
              && (l in next.ledger ==> next.ledger[l] == db.ledger[l])
            else outcome == Modified && next == db
  {
    assert !Blank(batch);
    hide IsSpace, Blank;
    assert forall x :: x in Owned(db.ledger, batch) <==> OwnedBy(db, batch, x);
  }

  /**
   * A single missing row is imported exactly when no ledger entry has its key, its tenant is there, and the other
   * constraints admit it; otherwise the transaction fails and leaves everything as it was.
   */
  lemma OneRowApplies(digest: Row -> string, e: Engine, db: Db, batch: string, r: SourceRow)
    requires Acceptable(batch, [r]) && LocOf(r.table, r.row) !in db.target
    ensures var l, values := LocOf(r.table, r.row), ValuesOf(r.table, r.row);
            var (outcome, next) := Migrate(digest, e, db, batch, Apply, [r]);
            if l !in db.ledger && e.admits(l, values, db.target)
               && (l.table in {Usage, Operations, CheckoutRequests} && l.key != [] ==> TenantOf(l) in db.target)
            then
              var row := e.fill(r.table, values);
              outcome.Done? && next == Db(db.target[l := row], db.ledger[l := Entry(batch, digest(row))])
            else outcome.Failed? && next == db
  {
    KeyOfSource(r);
    PlanMeans(db.target, r);
    var plans := Plans(db.target, [r]);
    assert plans == [PlanOf(db.target, r)] && plans[1..] == [];
    hide ValuesOf, LocOf, Carries, Conflicts;
    var one := InsertOne(digest, e, db, batch, plans[0]);
    if one.Some? {
      assert InsertAll(digest, e, one.value, batch, plans[1..]) == one;
    }
  }
}
