/** The constraints of the control-plane tables, and a run they admit that loses another batch's row. */
module ManagedSchema {
  import opened Options
  import opened TextPieces
  import opened StorageMigration

  /** The columns that may not be null. */
  function Required(t: Table): seq<string> {
    match t
    case Tenants => ["id", "owner_account_id", "plan", "status", "cancel_at_period_end", "created_at", "updated_at"]
    case Usage => ["tenant_id", "month", "meter", "amount"]
    case Operations => ["tenant_id", "request_key", "fingerprint"]
    case StripeEvents => ["id", "processed_at"]
    case CheckoutRequests => ["tenant_id", "plan", "attempt"]
    case EmailVerifications => ["token_hash", "account_id", "expires_at"]
  }

  const STATUSES: seq<string> := ["free", "active", "past_due", "canceled", "read_only", "unpaid", "incomplete",
                                  "incomplete_expired", "paused", "trialing"]

  predicate OneOf(v: Value, texts: seq<string>) {
    v.TextValue? && v.s in texts
  }

  /** The check clauses of each table. */
  predicate Checked(t: Table, values: Row) {
    match t
    case Tenants => OneOf(Get(values, "plan"), ["free", "pro", "team"]) && OneOf(Get(values, "status"), STATUSES)
    case Usage => OneOf(Get(values, "meter"), ["writes", "retrievals"])
                  && Get(values, "amount").IntValue? && Get(values, "amount").i >= 0
    case CheckoutRequests => OneOf(Get(values, "plan"), ["pro", "team"])
    case _ => true
  }

  predicate Clash(values: Row, stored: Row, name: string) {
    Get(values, name) != NullValue && Get(stored, name) == Get(values, name)
  }

  /** Tenants differ in their owner and in the customer, where they have one. */
  predicate Unique(t: Table, values: Row, target: Target) {
    t == Tenants ==> forall l | l in target && l.table == Tenants ::
                       !Clash(values, target[l], "owner_account_id") && !Clash(values, target[l], "customer_id")
  }

  predicate Admits(t: Table, values: Row, target: Target) {
    && (forall i | 0 <= i < |Required(t)| :: Get(values, Required(t)[i]) != NullValue)
    && Checked(t, values) && Unique(t, values, target)
  }

  /** The time of creation, where the command does not give it. */
  function Filled(now: int, t: Table, values: Row): Row {
    if t in {Operations, CheckoutRequests, EmailVerifications} && "created_at" !in values
    then values["created_at" := IntValue(now)]
    else values
  }

  function Postgres(now: int): Engine {
    Engine((t, values) => Filled(now, t, values), (l: Loc, values, target) => Admits(l.table, values, target))
  }

  lemma PostgresIsFaithful(now: int)
    ensures Faithful(Postgres(now))
  {
    forall t, values: Row, name | name in values ensures Get(Postgres(now).fill(t, values), name) == values[name] {
      assert Postgres(now).fill(t, values) == Filled(now, t, values);
    }
  }

  // ---- a run that loses another batch's row -----------------------------------------------------------

  /** A tenant on the free plan. */
  const TENANT_ROW: Row :=
    map["id" := TextValue("t"), "owner_account_id" := TextValue("o"), "plan" := TextValue("free"),
        "status" := TextValue("free"), "customer_id" := NullValue, "subscription_id" := NullValue,
        "period_end" := NullValue, "cancel_at_period_end" := IntValue(0), "created_at" := IntValue(0)]

  /** Its writes of a month. */
  const USAGE_ROW: Row :=
    map["tenant_id" := TextValue("t"), "month" := TextValue("2026-11"), "meter" := TextValue("writes"),
        "amount" := IntValue(0)]

  const TENANT: SourceRow := SourceRow(Tenants, TENANT_ROW)
  const USAGE: SourceRow := SourceRow(Usage, USAGE_ROW)
  const T_LOC: Loc := Loc(Tenants, [TextValue("t")])
  const U_LOC: Loc := Loc(Usage, [TextValue("t"), TextValue("2026-11"), TextValue("writes")])

  lemma ValueIsCell(t: Table, row: Row, i: nat)
    requires i < |SourceColumns(t)|
    ensures Get(ValuesOf(t, row), SourceColumns(t)[i]) == Get(row, SourceColumns(t)[i])
  {
    assert forall j | 0 <= j < |SourceColumns(Tenants)| :: SourceColumns(Tenants)[j] !in {"owner_user_id", "updated_at"};
  }

  lemma TenantCells()
    ensures HasColumns(TENANT)
    ensures Get(TENANT_ROW, "id") == TextValue("t") && Get(TENANT_ROW, "owner_account_id") == TextValue("o")
    ensures Get(TENANT_ROW, "plan") == TextValue("free") && Get(TENANT_ROW, "status") == TextValue("free")
    ensures Get(TENANT_ROW, "cancel_at_period_end") == IntValue(0) && Get(TENANT_ROW, "created_at") == IntValue(0)
  {
  }

  /** What is inserted for the tenant. */
  lemma TenantInserted()
    ensures var values := ValuesOf(Tenants, TENANT_ROW);
            && Get(values, "id") == TextValue("t") && Get(values, "owner_account_id") == TextValue("o")
            && Get(values, "plan") == TextValue("free") && Get(values, "status") == TextValue("free")
            && Get(values, "cancel_at_period_end") == IntValue(0)
            && Get(values, "created_at") == Get(values, "updated_at") == IntValue(0)
  {
    var values := ValuesOf(Tenants, TENANT_ROW);
    TenantCells();
    hide TENANT_ROW;
    assert Get(values, "updated_at") == Get(TENANT_ROW, "created_at");
    ValueIsCell(Tenants, TENANT_ROW, 0);
    ValueIsCell(Tenants, TENANT_ROW, 1);
    ValueIsCell(Tenants, TENANT_ROW, 2);
    ValueIsCell(Tenants, TENANT_ROW, 3);
    ValueIsCell(Tenants, TENANT_ROW, 7);
    ValueIsCell(Tenants, TENANT_ROW, 8);
    hide ValuesOf;
  }

  lemma TenantValues()
    ensures var values := ValuesOf(Tenants, TENANT_ROW);
            LocOf(Tenants, values) == T_LOC && Admits(Tenants, values, map[])
  {
    TenantInserted();
    hide ValuesOf, TENANT_ROW, Get;
    assert STATUSES[0] == "free" && ["free", "pro", "team"][0] == "free";
  }

  lemma UsageValues(target: Target)
    ensures var values := ValuesOf(Usage, USAGE_ROW);
            HasColumns(USAGE) && LocOf(Usage, values) == U_LOC && Admits(Usage, values, target)
  {
  }

  /** The state once both rows are in, the tenant for batch a and its usage row for batch b. */
  ghost function BothIn(digest: Row -> string): Db {
    var tenant, usage := ValuesOf(Tenants, TENANT_ROW), ValuesOf(Usage, USAGE_ROW);
    Db(map[T_LOC := tenant, U_LOC := usage], map[T_LOC := Entry("a", digest(tenant)), U_LOC := Entry("b", digest(usage))])
  }

  ghost function TenantIn(digest: Row -> string): Db {
    var tenant := ValuesOf(Tenants, TENANT_ROW);
    Db(map[T_LOC := tenant], map[T_LOC := Entry("a", digest(tenant))])
  }

  lemma NamesAreAcceptable()
    ensures !Blank("a") && !Blank("b") && Acceptable("a", [TENANT]) && Acceptable("b", [TENANT, USAGE])
  {
    assert "a"[0] == 'a' && "b"[0] == 'b' && !IsSpace('a') && !IsSpace('b');
    TenantCells();
    UsageValues(map[]);
    hide HasColumns, Blank;
  }

  /** Batch a finds the tenant missing, and the schema admits it. */
  lemma TenantApplied(digest: Row -> string, now: int)
    ensures After(digest, Db(map[], map[]), Migration("a", Apply, [TENANT], Postgres(now))) == TenantIn(digest)
  {
    var db, e := Db(map[], map[]), Postgres(now);
    NamesAreAcceptable();
    TenantValues();
    hide ValuesOf, LocOf, Admits, Acceptable, TENANT_ROW, USAGE_ROW;
    var plans := Plans(db.target, [TENANT]);
    assert plans == [PlanOf(db.target, TENANT)] && plans[0].status == Missing;
    assert InsertOne(digest, e, db, "a", plans[0]) == Some(TenantIn(digest));
    assert plans[1..] == [];
    assert InsertAll(digest, e, db, "a", plans) == InsertAll(digest, e, TenantIn(digest), "a", []);
  }

  /** Batch b, importing the same source after it has grown, finds the tenant present and the usage row missing. */
  lemma UsageApplied(digest: Row -> string, now: int)
    ensures After(digest, TenantIn(digest), Migration("b", Apply, [TENANT, USAGE], Postgres(now))) == BothIn(digest)
  {
    var db, e, rows := TenantIn(digest), Postgres(now), [TENANT, USAGE];
    NamesAreAcceptable();
    TenantValues();
    UsageValues(db.target);
    hide ValuesOf, LocOf, Admits, Acceptable, TENANT_ROW, USAGE_ROW;
    var plans := Plans(db.target, rows);
    assert plans[0].status == Present && plans[1].status == Missing;
    assert NoConflict(plans);
    assert InsertOne(digest, e, db, "b", plans[0]) == Some(db);
    assert InsertOne(digest, e, db, "b", plans[1]) == Some(BothIn(digest));
    assert plans[1..][0] == plans[1] && plans[1..][1..] == [];
    assert InsertAll(digest, e, db, "b", plans[1..]) == InsertAll(digest, e, BothIn(digest), "b", []);
    assert InsertAll(digest, e, db, "b", plans) == InsertAll(digest, e, db, "b", plans[1..]);
  }

  /** Rolling a back takes both rows and one entry. */
  lemma TenantReversed(digest: Row -> string)
    ensures var last := After(digest, BothIn(digest), Reversal("a"));
            last.target == map[] && last.ledger.Keys == {U_LOC} && last.ledger[U_LOC].batch == "b"
  {
    NamesAreAcceptable();
    hide ValuesOf, Acceptable, Blank, TENANT_ROW, USAGE_ROW;
    var db := BothIn(digest);
    assert T_LOC != U_LOC && Parent(T_LOC) == None && Parent(U_LOC) == Some(T_LOC);
    hide T_LOC, U_LOC, Parent;
    assert Owned(db.ledger, "a") == {T_LOC} by {
      assert forall l :: l in Owned(db.ledger, "a") <==> l == T_LOC;
    }
    hide Owned;
    assert Without(db.target, {T_LOC}) == map[];
  }

  lemma RunOfThree(digest: Row -> string, db: Db, a: Step, b: Step, c: Step)
    ensures Run(digest, db, [a, b, c]) == After(digest, After(digest, After(digest, db, a), b), c)
  {
    hide After;
    assert [a, b, c][1..] == [b, c] && [b, c][1..] == [c] && [c][1..] == [];
    var one, two := After(digest, db, a), After(digest, After(digest, db, a), b);
    assert Run(digest, two, [c]) == Run(digest, After(digest, two, c), []);
    assert Run(digest, one, [b, c]) == Run(digest, two, [c]);
  }

  /**
   * On an empty target with the schema's own constraints: batch a imports a tenant, batch b the same source with a
   * usage row of that tenant; rolling a back deletes b's row with it and leaves b's ledger entry behind.
   */
  lemma CascadeLosesRow(digest: Row -> string, now: int)
    ensures var a := Migration("a", Apply, [TENANT], Postgres(now));
            var b := Migration("b", Apply, [TENANT, USAGE], Postgres(now));
            var last := Run(digest, Db(map[], map[]), [a, b, Reversal("a")]);
            last.target == map[] && last.ledger.Keys == {U_LOC} && last.ledger[U_LOC].batch == "b" && !Conserved(last)
  {
    hide After, Run, Blank, BothIn, TenantIn;
    TenantApplied(digest, now);
    UsageApplied(digest, now);
    TenantReversed(digest);
    RunOfThree(digest, Db(map[], map[]), Migration("a", Apply, [TENANT], Postgres(now)),
               Migration("b", Apply, [TENANT, USAGE], Postgres(now)), Reversal("a"));
  }
}
