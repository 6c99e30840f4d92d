/**
 Which tables auto-REST exposes, and under which rules
 (internal/restapi/registry.go; ReloadSchema in internal/restapi/handlers.go).
 */
module Registry {
  import opened Prelude

  datatype Column = Column(name: string, declType: string, notNull: bool, isPK: bool)

  /** A table as sqlite_master and PRAGMA table_info show it. */
  datatype Table = Table(name: string, columns: seq<Column>)

  datatype Rule = Owner | Shared | Denied

  datatype Op = Read | Create | Update | Delete

  /** A row of _policies; the table's own CHECK closes the rules. */
  datatype Policy = Policy(collection: string, operation: string, rule: Rule)

  datatype Collection = Collection(
    name: string,
    columns: seq<Column>,
    pkColumn: string,
    pkIsInteger: bool,
    ownerColumn: string,
    rules: map<Op, Rule>)
  {
    predicate HasColumn(column: string) {
      exists i :: 0 <= i < |columns| && columns[i].name == column
    }

    function Rule(op: Op): Rule {
      if op in rules then rules[op] else Shared
    }
  }

  type Collections = map<string, Collection>

  datatype Error =
    | OwnerNotText(table: string)
    | UnknownCollection(collection: string)
    | NoOwnerColumn(collection: string)
    | UnknownOperation(operation: string)

  const OWNER_COLUMN := "owner_id"

  const RESERVED := {
    "users", "sessions", "oauth_clients", "oauth_client_jti", "oauth_authorize_codes",
    "oauth_access_tokens", "oauth_refresh_tokens", "oauth_pkce_requests", "oauth_consents",
    "oauth_signing_keys", "oauth_hmac_secret", "owner_users", "owner_sessions", "owner_audit_log",
    "schema_migrations", "files", "_policies", "password_reset_tokens", "social_identities"}

  const SQLITE_PREFIX := "sqlite_"

  predicate IsReserved(name: string) {
    SQLITE_PREFIX <= name || name in RESERVED
  }

  // ----- Column affinity -----------------------------------------------------

  datatype Affinity = INTEGER | TEXT | BLOB | REAL | NUMERIC

  function UpperChar(c: char): char {
    if 'a' <= c <= 'z' then c - 32 as char else c
  }

  function ToUpper(s: string): string {
    if s == "" then "" else [UpperChar(s[0])] + ToUpper(s[1..])
  }

  predicate Contains(s: string, part: string) {
    exists i :: 0 <= i <= |s| - |part| && OccursAt(s, part, i)
  }

  predicate OccursAt(s: string, part: string, i: nat)
    requires i + |part| <= |s|
  {
    s[i..i + |part|] == part
  }

  function ColumnAffinity(declType: string): Affinity {
    var t := ToUpper(declType);
    if Contains(t, "INT") then INTEGER
    else if Contains(t, "CHAR") || Contains(t, "CLOB") || Contains(t, "TEXT") then TEXT
    else if Contains(t, "BLOB") || t == "" then BLOB
    else if Contains(t, "REAL") || Contains(t, "FLOA") || Contains(t, "DOUB") then REAL
    else NUMERIC
  }

  // ----- Describing one table --------------------------------------------------

  predicate BadOwner(c: Column) {
    c.name == OWNER_COLUMN && ColumnAffinity(c.declType) != TEXT
  }

  predicate Describable(t: Table) {
    forall i :: 0 <= i < |t.columns| ==> !BadOwner(t.columns[i])
  }

  /** The primary-key columns among the first n. */
  function KeyColumns(columns: seq<Column>, n: nat): seq<Column>
    requires n <= |columns|
  {
    if n == 0 then []
    else KeyColumns(columns, n - 1) + if columns[n - 1].isPK then [columns[n - 1]] else []
  }

  function OwnerOf(columns: seq<Column>): string {
    if exists i :: 0 <= i < |columns| && columns[i].name == OWNER_COLUMN then OWNER_COLUMN else ""
  }

  /** The collection describeTable builds, before any rule is set. */
  function Described(t: Table): Collection {
    var keys := KeyColumns(t.columns, |t.columns|);
    Collection(t.name, t.columns,
               if |keys| == 1 then keys[0].name else "",
               |keys| == 1 && Contains(ToUpper(keys[0].declType), "INT"),
               OwnerOf(t.columns), map[])
  }

  method DescribeTable(t: Table) returns (r: Result<Collection, Error>)
    ensures r == if Describable(t) then Success(Described(t)) else Failure(OwnerNotText(t.name))
  {
    hide Contains, ToUpper, ColumnAffinity;
    var columns, keys, ownerColumn := [], [], "";
    for i := 0 to |t.columns|
      invariant columns == t.columns[..i] && keys == KeyColumns(t.columns, i)
      invariant forall j :: 0 <= j < i ==> !BadOwner(t.columns[j])
      invariant ownerColumn == if exists j :: 0 <= j < i && t.columns[j].name == OWNER_COLUMN then OWNER_COLUMN else ""
    {
      var c := t.columns[i];
      columns := columns + [c];
      if c.isPK {
        keys := keys + [c];
      }
      if c.name == OWNER_COLUMN {
        if ColumnAffinity(c.declType) != TEXT {
          assert BadOwner(t.columns[i]);
          return Failure(OwnerNotText(t.name));
        }
        ownerColumn := OWNER_COLUMN;
      }
    }
    assert columns == t.columns;
    var pkColumn, pkIsInteger := "", false;
    if |keys| == 1 {
      pkColumn, pkIsInteger := keys[0].name, Contains(ToUpper(keys[0].declType), "INT");
    }
    return Success(Collection(t.name, columns, pkColumn, pkIsInteger, ownerColumn, map[]));
  }

  // ----- Discovering every table ---------------------------------------------

  function Everywhere(rule: Rule): map<Op, Rule> {
    map[Read := rule, Create := rule, Update := rule, Delete := rule]
  }

  function WithDefaults(c: Collection): Collection {
    c.(rules := Everywhere(if c.ownerColumn != "" then Owner else Shared))
  }

  predicate Exposed(t: Table) {
    !IsReserved(t.name) && Described(t).pkColumn != ""
  }

  /** The collections of the first n tables, or the first error. */
  function Discovered(tables: seq<Table>, n: nat): Result<Collections, Error>
    requires n <= |tables|
  {
    if n == 0 then Success(map[])
    else
      var before := Discovered(tables, n - 1);
      var t := tables[n - 1];
      if before.Failure? || IsReserved(t.name) then before
      else if !Describable(t) then Failure(OwnerNotText(t.name))
      else if Described(t).pkColumn == "" then before
      else Success(before.value[t.name := WithDefaults(Described(t))])
  }

  // ----- Policies ------------------------------------------------------------

  function Parse(operation: string): Option<Op> {
    if operation == "read" then Some(Read)
    else if operation == "create" then Some(Create)
    else if operation == "update" then Some(Update)
    else if operation == "delete" then Some(Delete)
    else None
  }

  function Refusal(collections: Collections, p: Policy): Option<Error> {
    if p.collection !in collections then Some(UnknownCollection(p.collection))
    else if p.rule == Owner && collections[p.collection].ownerColumn == "" then Some(NoOwnerColumn(p.collection))
    else if Parse(p.operation).None? then Some(UnknownOperation(p.operation))
    else None
  }

  function Overridden(collections: Collections, p: Policy): Collections
    requires Refusal(collections, p).None?
  {
    var c := collections[p.collection];
    collections[p.collection := c.(rules := c.rules[Parse(p.operation).value := p.rule])]
  }

  function Applied(collections: Collections, policies: seq<Policy>, n: nat): Result<Collections, Error>
    requires n <= |policies|
  {
    if n == 0 then Success(collections)
    else
      var before := Applied(collections, policies, n - 1);
      if before.Failure? then before
      else
        var refusal := Refusal(before.value, policies[n - 1]);
        if refusal.Some? then Failure(refusal.value) else Success(Overridden(before.value, policies[n - 1]))
  }

  method ApplyPolicies(collections: Collections, policies: seq<Policy>) returns (r: Result<Collections, Error>)
    ensures r == Applied(collections, policies, |policies|)
  {
    var result := collections;
    for i := 0 to |policies|
      invariant Applied(collections, policies, i) == Success(result)
    {
      var p := policies[i];
      if p.collection !in result {
        FailureSticks(collections, policies, i + 1);
        return Failure(UnknownCollection(p.collection));
      }
      var c := result[p.collection];
      if p.rule == Owner && c.ownerColumn == "" {
        FailureSticks(collections, policies, i + 1);
        return Failure(NoOwnerColumn(p.collection));
      }
      var op := Parse(p.operation);
      if op.None? {
        FailureSticks(collections, policies, i + 1);
        return Failure(UnknownOperation(p.operation));
      }
      result := result[p.collection := c.(rules := c.rules[op.value := p.rule])];
    }
    r := Success(result);
  }

  lemma {:induction false} FailureSticks(collections: Collections, policies: seq<Policy>, n: nat)
    requires n <= |policies| && Applied(collections, policies, n).Failure?
    ensures Applied(collections, policies, |policies|) == Applied(collections, policies, n)
    decreases |policies| - n
  {
    if n < |policies| {
      FailureSticks(collections, policies, n + 1);
    }
  }

  /** What Discover makes of a database. */
  function Loaded(tables: seq<Table>, policies: seq<Policy>): Result<Collections, Error> {
    var found := Discovered(tables, |tables|);
    if found.Failure? then found else Applied(found.value, policies, |policies|)
  }

  lemma {:induction false} DiscoveryFailureSticks(tables: seq<Table>, n: nat)
    requires n <= |tables| && Discovered(tables, n).Failure?
    ensures Discovered(tables, |tables|) == Discovered(tables, n)
    decreases |tables| - n
  {
    hide IsReserved, Describable, Described;
    if n < |tables| {
      DiscoveryFailureSticks(tables, n + 1);
    }
  }

  method Discover(tables: seq<Table>, policies: seq<Policy>) returns (r: Result<Collections, Error>)
    ensures r == Loaded(tables, policies)
  {
    hide IsReserved, Describable, Described, Applied;
    var collections: Collections := map[];
    for i := 0 to |tables|
      invariant Discovered(tables, i) == Success(collections)
    {
      if IsReserved(tables[i].name) {
        continue;
      }
      var described := DescribeTable(tables[i]);
      if described.Failure? {
        DiscoveryFailureSticks(tables, i + 1);
        return Failure(described.error);
      }
      var col := described.value;
      if col.pkColumn == "" {
        continue;
      }
      var def := if col.ownerColumn != "" then Owner else Shared;
      collections := collections[tables[i].name := col.(rules := Everywhere(def))];
    }
    r := ApplyPolicies(collections, policies);
  }

  /** The registry a process serves; a failed reload leaves it in place. */
  class Server {
    var registry: Collections

    constructor (registry: Collections)
      ensures this.registry == registry
    {
      this.registry := registry;
    }

    method ReloadSchema(tables: seq<Table>, policies: seq<Policy>) returns (error: Option<Error>)
      modifies this
      ensures registry == Reloaded(old(registry), Database(tables, policies))
      ensures error.Some? <==> Loaded(tables, policies).Failure?
    {
      var r := Discover(tables, policies);
      if r.Failure? {
        return Some(r.error);
      }
      registry := r.value;
      error := None;
    }
  }

  datatype Database = Database(tables: seq<Table>, policies: seq<Policy>)

  function Reloaded(registry: Collections, db: Database): Collections {
    var r := Loaded(db.tables, db.policies);
    if r.Success? then r.value else registry
  }

  // ----- Every registry ever served ------------------------------------------

  predicate SingleKey(columns: seq<Column>, key: string) {
    && key != ""
    && exists i :: 0 <= i < |columns| && columns[i].isPK && columns[i].name == key
                   && forall j :: 0 <= j < |columns| && columns[j].isPK ==> j == i
  }

  predicate OwnedByText(columns: seq<Column>) {
    && (exists i :: 0 <= i < |columns| && columns[i].name == OWNER_COLUMN)
    && forall i :: 0 <= i < |columns| && columns[i].name == OWNER_COLUMN ==> ColumnAffinity(columns[i].declType) == TEXT
  }

  predicate SoundCollection(name: string, c: Collection) {
    && c.name == name && !IsReserved(name)
    && SingleKey(c.columns, c.pkColumn)
    && c.rules.Keys == {Read, Create, Update, Delete}
    && (c.ownerColumn == "" || (c.ownerColumn == OWNER_COLUMN && OwnedByText(c.columns)))
    && (Owner in c.rules.Values ==> c.ownerColumn != "")
  }

  predicate Sound(r: Collections) {
    forall name :: name in r ==> SoundCollection(name, r[name])
  }

  lemma {:induction false} NoKeyColumns(columns: seq<Column>, n: nat)
    requires n <= |columns| && KeyColumns(columns, n) == []
    ensures forall i :: 0 <= i < n ==> !columns[i].isPK
  {
    if n > 0 {
      NoKeyColumns(columns, n - 1);
    }
  }

  lemma {:induction false} OneKeyColumn(columns: seq<Column>, n: nat) returns (i: nat)
    requires n <= |columns| && |KeyColumns(columns, n)| == 1
    ensures i < n && columns[i].isPK && columns[i] == KeyColumns(columns, n)[0]
    ensures forall j :: 0 <= j < n && columns[j].isPK ==> j == i
  {
    if columns[n - 1].isPK {
      i := n - 1;
      NoKeyColumns(columns, n - 1);
    } else {
      i := OneKeyColumn(columns, n - 1);
    }
  }

  lemma DescribedIsSound(t: Table)
    requires Exposed(t) && Describable(t)
    ensures SoundCollection(t.name, WithDefaults(Described(t)))
  {
    var i := OneKeyColumn(t.columns, |t.columns|);
    var c := WithDefaults(Described(t));
    assert SingleKey(t.columns, c.pkColumn);
    if c.ownerColumn != "" {
      forall j | 0 <= j < |t.columns| && t.columns[j].name == OWNER_COLUMN
        ensures ColumnAffinity(t.columns[j].declType) == TEXT
      {
        assert !BadOwner(t.columns[j]);
      }
    }
  }

  lemma {:induction false} DiscoveredIsSound(tables: seq<Table>, n: nat)
    requires n <= |tables| && Discovered(tables, n).Success?
    ensures Sound(Discovered(tables, n).value)
  {
    if n > 0 {
      DiscoveredIsSound(tables, n - 1);
      var t := tables[n - 1];
      if Exposed(t) {
        DescribedIsSound(t);
      }
      hide SoundCollection, Described, Describable, IsReserved;
    }
  }

  lemma OverriddenIsSound(collections: Collections, p: Policy)
    requires Sound(collections) && Refusal(collections, p).None?
    ensures Sound(Overridden(collections, p))
  {
    hide IsReserved, SingleKey, OwnedByText;
    var c := collections[p.collection];
    assert SoundCollection(p.collection, c);
    var rules := c.rules[Parse(p.operation).value := p.rule];
    assert Owner in rules.Values ==> p.rule == Owner || Owner in c.rules.Values;
    assert SoundCollection(p.collection, c.(rules := rules));
  }

  lemma {:induction false} AppliedIsSound(collections: Collections, policies: seq<Policy>, n: nat)
    requires n <= |policies| && Sound(collections) && Applied(collections, policies, n).Success?
    ensures Sound(Applied(collections, policies, n).value)
  {
    if n > 0 {
      AppliedIsSound(collections, policies, n - 1);
      OverriddenIsSound(Applied(collections, policies, n - 1).value, policies[n - 1]);
    }
  }

  function ReloadedAll(registry: Collections, dbs: seq<Database>): Collections {
    if dbs == [] then registry else Reloaded(ReloadedAll(registry, dbs[..|dbs| - 1]), dbs[|dbs| - 1])
  }

  /**
   Whatever the database looks like at startup and at each later reload, failed
   reloads included, the registry served exposes no reserved table and no table
   without a single key, and an owner rule always has a TEXT owner_id to go by.
   */
  lemma {:induction false} ServedIsSound(start: Database, dbs: seq<Database>)
    requires Loaded(start.tables, start.policies).Success?
    ensures Sound(ReloadedAll(Loaded(start.tables, start.policies).value, dbs))
  {
    hide Sound, Discovered, Applied;
    if dbs == [] {
      LoadedIsSound(start);
    } else {
      ServedIsSound(start, dbs[..|dbs| - 1]);
      if Loaded(dbs[|dbs| - 1].tables, dbs[|dbs| - 1].policies).Success? {
        LoadedIsSound(dbs[|dbs| - 1]);
      }
    }
  }

  lemma LoadedIsSound(db: Database)
    requires Loaded(db.tables, db.policies).Success?
    ensures Sound(Loaded(db.tables, db.policies).value)
  {
    DiscoveredIsSound(db.tables, |db.tables|);
    AppliedIsSound(Discovered(db.tables, |db.tables|).value, db.policies, |db.policies|);
  }

  // ----- What Discover finds, pointwise ----------------------------------------

  predicate DistinctNames(tables: seq<Table>) {
    forall i, j :: 0 <= i < j < |tables| ==> tables[i].name != tables[j].name
  }

  /** Discovery fails exactly when some unreserved table has a non-TEXT owner_id; else it finds the exposed tables. */
  lemma {:induction false} DiscoveredExactly(tables: seq<Table>, n: nat)
    requires n <= |tables| && DistinctNames(tables)
    ensures Discovered(tables, n).Success? <==>
      forall i :: 0 <= i < n ==> IsReserved(tables[i].name) || Describable(tables[i])
    ensures Discovered(tables, n).Success? ==>
      && (forall i :: 0 <= i < n ==>
            if Exposed(tables[i]) then
              tables[i].name in Discovered(tables, n).value
              && Discovered(tables, n).value[tables[i].name] == WithDefaults(Described(tables[i]))
            else tables[i].name !in Discovered(tables, n).value)
      && (forall name :: name in Discovered(tables, n).value ==> exists i :: 0 <= i < n && tables[i].name == name)
  {
    hide Described, Describable, IsReserved;
    if n > 0 {
      DiscoveredExactly(tables, n - 1);
    }
  }

  // ----- Policies do not depend on their order ----------------------------------

  predicate Acceptable(collections: Collections, p: Policy) {
    && p.collection in collections
    && (p.rule == Owner ==> collections[p.collection].ownerColumn != "")
    && Parse(p.operation).Some?
  }

  predicate Matches(p: Policy, name: string, op: Op) {
    p.collection == name && Parse(p.operation) == Some(op)
  }

  /** (collection, operation) is the primary key of _policies. */
  predicate UniquePolicies(policies: seq<Policy>) {
    forall i, j :: 0 <= i < j < |policies| ==>
      policies[i].collection != policies[j].collection || policies[i].operation != policies[j].operation
  }

  /** Only rules change: names, columns and owners stay. */
  predicate SameShape(a: Collections, b: Collections) {
    a.Keys == b.Keys && forall name :: name in a ==> b[name] == a[name].(rules := b[name].rules)
  }

  lemma {:induction false} AppliedKeepsShape(collections: Collections, policies: seq<Policy>, n: nat)
    requires n <= |policies| && Applied(collections, policies, n).Success?
    ensures SameShape(collections, Applied(collections, policies, n).value)
  {
    if n > 0 {
      AppliedKeepsShape(collections, policies, n - 1);
    }
  }

  /** Applying succeeds exactly when every row is acceptable on its own. */
  lemma {:induction false} AppliesExactly(collections: Collections, policies: seq<Policy>, n: nat)
    requires n <= |policies|
    ensures Applied(collections, policies, n).Success? <==>
      forall i :: 0 <= i < n ==> Acceptable(collections, policies[i])
  {
    if n > 0 {
      AppliesExactly(collections, policies, n - 1);
      if Applied(collections, policies, n - 1).Success? {
        AppliedKeepsShape(collections, policies, n - 1);
      }
    }
  }

  lemma OverriddenRule(collections: Collections, p: Policy, name: string, op: Op)
    requires Refusal(collections, p).None? && name in collections
    ensures name in Overridden(collections, p)
    ensures Overridden(collections, p)[name].Rule(op) ==
      if Matches(p, name, op) then p.rule else collections[name].Rule(op)
  {
  }

  lemma AtMostOneMatch(policies: seq<Policy>, i: nat, j: nat, name: string, op: Op)
    requires UniquePolicies(policies) && i < |policies| && j < |policies|
    requires Matches(policies[i], name, op) && Matches(policies[j], name, op)
    ensures i == j
  {
    assert policies[i].operation == policies[j].operation;
  }

  /** And each rule is then the one its own row gives, or else the default. */
  lemma {:induction false} AppliedRule(collections: Collections, policies: seq<Policy>, n: nat, name: string, op: Op)
    requires n <= |policies| && UniquePolicies(policies) && name in collections
    requires Applied(collections, policies, n).Success?
    ensures name in Applied(collections, policies, n).value
    ensures var rule := Applied(collections, policies, n).value[name].Rule(op);
      && (forall i :: 0 <= i < n && Matches(policies[i], name, op) ==> rule == policies[i].rule)
      && ((forall i :: 0 <= i < n ==> !Matches(policies[i], name, op)) ==> rule == collections[name].Rule(op))
  {
    if n > 0 {
      AppliedRule(collections, policies, n - 1, name, op);
      OverriddenRule(Applied(collections, policies, n - 1).value, policies[n - 1], name, op);
      forall i | 0 <= i < n - 1 && Matches(policies[i], name, op)
        ensures !Matches(policies[n - 1], name, op)
      {
        if Matches(policies[n - 1], name, op) {
          AtMostOneMatch(policies, i, n - 1, name, op);
        }
      }
      hide Overridden, Refusal, Matches, UniquePolicies;
    }
  }

  predicate SameRows(a: seq<Policy>, b: seq<Policy>) {
    && (forall i :: 0 <= i < |a| ==> a[i] in b)
    && (forall i :: 0 <= i < |b| ==> b[i] in a)
  }

  lemma SameRule(collections: Collections, a: seq<Policy>, b: seq<Policy>, name: string, op: Op)
    requires UniquePolicies(a) && UniquePolicies(b) && SameRows(a, b) && name in collections
    requires Applied(collections, a, |a|).Success? && Applied(collections, b, |b|).Success?
    requires name in Applied(collections, a, |a|).value && name in Applied(collections, b, |b|).value
    ensures Applied(collections, a, |a|).value[name].Rule(op) == Applied(collections, b, |b|).value[name].Rule(op)
  {
    AppliedRule(collections, a, |a|, name, op);
    AppliedRule(collections, b, |b|, name, op);
    hide Applied, UniquePolicies, Matches;
    if i :| 0 <= i < |a| && Matches(a[i], name, op) {
      var j :| 0 <= j < |b| && b[j] == a[i];
      assert Matches(b[j], name, op);
    } else {
      forall j | 0 <= j < |b|
        ensures !Matches(b[j], name, op)
      {
        var i :| 0 <= i < |a| && a[i] == b[j];
      }
    }
  }

  predicate Ruled(collections: Collections) {
    forall name :: name in collections ==> collections[name].rules.Keys == {Read, Create, Update, Delete}
  }

  lemma SameCollections(collections: Collections, x: Collections, y: Collections)
    requires SameShape(collections, x) && SameShape(collections, y) && Ruled(x) && Ruled(y)
    requires forall name, op :: name in x && name in y ==> x[name].Rule(op) == y[name].Rule(op)
    ensures x == y
  {
    forall name | name in x
      ensures x[name] == y[name]
    {
      SameRules(x[name], y[name]);
    }
  }

  lemma SameRules(a: Collection, b: Collection)
    requires a.rules.Keys == b.rules.Keys && forall op :: a.Rule(op) == b.Rule(op)
    ensures a.rules == b.rules
  {
    forall op | op in a.rules
      ensures a.rules[op] == b.rules[op]
    {
      assert a.Rule(op) == b.Rule(op);
    }
  }

  /** The order _policies comes in changes neither success nor the rules that result. */
  lemma PolicyOrderIsIrrelevant(collections: Collections, a: seq<Policy>, b: seq<Policy>)
    requires Ruled(collections) && UniquePolicies(a) && UniquePolicies(b) && SameRows(a, b)
    ensures Applied(collections, a, |a|).Success? <==> Applied(collections, b, |b|).Success?
    ensures Applied(collections, a, |a|).Success? ==> Applied(collections, a, |a|) == Applied(collections, b, |b|)
  {
    hide Applied, UniquePolicies, Ruled, Acceptable;
    AppliesExactly(collections, a, |a|);
    AppliesExactly(collections, b, |b|);
    SameAcceptable(collections, a, b);
    if Applied(collections, a, |a|).Success? {
      var x, y := Applied(collections, a, |a|).value, Applied(collections, b, |b|).value;
      AppliedKeepsShape(collections, a, |a|);
      AppliedKeepsShape(collections, b, |b|);
      AppliedKeepsRuled(collections, a, |a|);
      AppliedKeepsRuled(collections, b, |b|);
      forall name, op | name in x && name in y
        ensures x[name].Rule(op) == y[name].Rule(op)
      {
        SameRule(collections, a, b, name, op);
      }
      SameCollections(collections, x, y);
    }
  }

  lemma SameAcceptable(collections: Collections, a: seq<Policy>, b: seq<Policy>)
    requires SameRows(a, b)
    ensures (forall i :: 0 <= i < |a| ==> Acceptable(collections, a[i])) <==>
            (forall i :: 0 <= i < |b| ==> Acceptable(collections, b[i]))
  {
    hide Acceptable;
  }

  lemma {:induction false} AppliedKeepsRuled(collections: Collections, policies: seq<Policy>, n: nat)
    requires n <= |policies| && Ruled(collections) && Applied(collections, policies, n).Success?
    ensures Ruled(Applied(collections, policies, n).value)
  {
    if n > 0 {
      AppliedKeepsRuled(collections, policies, n - 1);
    }
  }

  // ----- What is served, and under which rules, read off the database ------------

  /** The character is the capital letter, in either case. */
  predicate IsLetter(c: char, capital: char) {
    c == capital || ('A' <= capital <= 'Z' && c as int == capital as int + 32)
  }

  predicate SpeltAt(s: string, word: string, i: nat)
    requires i + |word| <= |s|
  {
    forall k :: 0 <= k < |word| ==> IsLetter(s[i + k], word[k])
  }

  /** The word, in capitals, occurs in any case. */
  predicate Holds(s: string, word: string) {
    exists i :: 0 <= i <= |s| - |word| && SpeltAt(s, word, i)
  }

  predicate Capitals(word: string) {
    forall k :: 0 <= k < |word| ==> 'A' <= word[k] <= 'Z'
  }

  lemma {:induction false} UpperAt(s: string, i: nat)
    requires i < |s|
    ensures |ToUpper(s)| == |s| && ToUpper(s)[i] == UpperChar(s[i])
  {
    if i > 0 {
      UpperAt(s[1..], i - 1);
    } else if |s| > 1 {
      UpperAt(s[1..], 0);
    }
  }

  lemma UpperLength(s: string)
    ensures |ToUpper(s)| == |s|
  {
    if s != "" {
      UpperAt(s, 0);
    }
  }

  lemma HoldsIff(s: string, word: string)
    requires Capitals(word)
    ensures Contains(ToUpper(s), word) <==> Holds(s, word)
  {
    UpperLength(s);
    hide ToUpper;
    forall i | 0 <= i <= |s| - |word|
      ensures OccursAt(ToUpper(s), word, i) <==> SpeltAt(s, word, i)
    {
      SpeltIff(s, word, i);
    }
    hide OccursAt, SpeltAt;
  }

  lemma SpeltIff(s: string, word: string, i: nat)
    requires Capitals(word) && i + |word| <= |s| == |ToUpper(s)|
    ensures OccursAt(ToUpper(s), word, i) <==> SpeltAt(s, word, i)
  {
    hide ToUpper;
    var part := ToUpper(s)[i..i + |word|];
    forall k | 0 <= k < |word|
      ensures part[k] == word[k] <==> IsLetter(s[i + k], word[k])
    {
      UpperAt(s, i + k);
    }
    assert part == word <==> forall k :: 0 <= k < |word| ==> part[k] == word[k];
  }

  /** SQLite's rule for TEXT: CHAR, CLOB or TEXT in the declared type, in any case, and INT not in it. */
  predicate DeclaredText(declType: string) {
    !Holds(declType, "INT") && (Holds(declType, "CHAR") || Holds(declType, "CLOB") || Holds(declType, "TEXT"))
  }

  lemma TextIff(declType: string)
    ensures ColumnAffinity(declType) == TEXT <==> DeclaredText(declType)
  {
    hide ToUpper, Contains, Holds;
    HoldsIff(declType, "INT");
    HoldsIff(declType, "CHAR");
    HoldsIff(declType, "CLOB");
    HoldsIff(declType, "TEXT");
  }

  predicate HasOwnerId(t: Table) {
    exists i :: 0 <= i < |t.columns| && t.columns[i].name == "owner_id"
  }

  /** Every owner_id of the table is declared as text. */
  predicate OwnerIdIsText(t: Table) {
    forall i :: 0 <= i < |t.columns| && t.columns[i].name == "owner_id" ==> DeclaredText(t.columns[i].declType)
  }

  lemma DescribableIff(t: Table)
    ensures Describable(t) <==> OwnerIdIsText(t)
  {
    hide ColumnAffinity, DeclaredText;
    forall i | 0 <= i < |t.columns|
      ensures BadOwner(t.columns[i]) <==> t.columns[i].name == "owner_id" && !DeclaredText(t.columns[i].declType)
    {
      TextIff(t.columns[i].declType);
    }
  }

  /** The i-th column is the table's one key column, and has a name. */
  predicate OnlyKey(columns: seq<Column>, i: nat) {
    && i < |columns| && columns[i].isPK && columns[i].name != ""
    && forall j :: 0 <= j < |columns| && columns[j].isPK ==> j == i
  }

  /** A table is served if it is not SQLite's and not maubase's own and has a single key column. */
  ghost predicate Servable(t: Table) {
    && !("sqlite_" <= t.name) && t.name !in RESERVED
    && exists i: nat :: OnlyKey(t.columns, i)
  }

  lemma {:induction false} KeysAre(columns: seq<Column>, n: nat, i: nat)
    requires n <= |columns| && OnlyKey(columns, i)
    ensures KeyColumns(columns, n) == if i < n then [columns[i]] else []
  {
    if n > 0 {
      KeysAre(columns, n - 1, i);
    }
  }

  /** The key, its kind and the owner column of what is served are those of the table. */
  lemma DescribedIs(t: Table, i: nat)
    requires OnlyKey(t.columns, i)
    ensures var c := Described(t);
      && c.name == t.name && c.columns == t.columns
      && c.pkColumn == t.columns[i].name && (c.pkIsInteger <==> Holds(t.columns[i].declType, "INT"))
      && c.ownerColumn == if HasOwnerId(t) then "owner_id" else ""
  {
    KeysAre(t.columns, |t.columns|, i);
    HoldsIff(t.columns[i].declType, "INT");
    hide Contains, ToUpper, Holds, KeyColumns;
  }

  lemma ExposedIff(t: Table)
    ensures Exposed(t) <==> Servable(t)
  {
    hide IsLetter, Holds, Contains, ToUpper;
    if i: nat :| OnlyKey(t.columns, i) {
      DescribedIs(t, i);
    }
    if Exposed(t) {
      var i := OneKeyColumn(t.columns, |t.columns|);
      assert OnlyKey(t.columns, i);
    }
  }

  /** The operation's name in _policies. */
  function OpName(op: Op): string {
    match op
    case Read => "read"
    case Create => "create"
    case Update => "update"
    case Delete => "delete"
  }

  predicate Governs(p: Policy, name: string, op: Op) {
    p.collection == name && p.operation == OpName(op)
  }

  lemma GovernsIff(p: Policy, name: string, op: Op)
    ensures Matches(p, name, op) <==> Governs(p, name, op)
    ensures Parse(p.operation).Some? <==> p.operation in {"read", "create", "update", "delete"}
  {
  }

  /** The table the database has under a name. */
  predicate IsTable(tables: seq<Table>, i: nat, name: string) {
    i < |tables| && tables[i].name == name
  }

  /**
   Once loaded, a table is served exactly if it is servable, with the columns, key and
   owner column it has; and the rule of each operation is that of its own policy row,
   or, without one, owner if the table has an owner_id and shared if not.
   */
  lemma ServedExactly(db: Database, i: nat, op: Op)
    requires DistinctNames(db.tables) && UniquePolicies(db.policies) && i < |db.tables|
    requires Loaded(db.tables, db.policies).Success?
    ensures var t, served := db.tables[i], Loaded(db.tables, db.policies).value;
      && (t.name in served <==> Servable(t))
      && (t.name in served ==>
            && served[t.name] == Described(t).(rules := served[t.name].rules)
            && (forall j :: 0 <= j < |db.policies| && Governs(db.policies[j], t.name, op) ==>
                  served[t.name].Rule(op) == db.policies[j].rule)
            && ((forall j :: 0 <= j < |db.policies| ==> !Governs(db.policies[j], t.name, op)) ==>
                  served[t.name].Rule(op) == if HasOwnerId(t) then Owner else Shared))
  {
    var tables, policies := db.tables, db.policies;
    var t, found := tables[i], Discovered(tables, |tables|).value;
    DiscoveredExactly(tables, |tables|);
    ExposedIff(t);
    AppliedKeepsShape(found, policies, |policies|);
    forall j | 0 <= j < |policies|
      ensures Matches(policies[j], t.name, op) <==> Governs(policies[j], t.name, op)
    {
      GovernsIff(policies[j], t.name, op);
    }
    hide Discovered, Applied, Described, Exposed, Servable, Describable, IsReserved, Matches, Governs, UniquePolicies;
    if t.name in found {
      AppliedRule(found, policies, |policies|, t.name, op);
      DefaultRule(t, op);
    }
  }

  lemma DefaultRule(t: Table, op: Op)
    requires Exposed(t)
    ensures WithDefaults(Described(t)).Rule(op) == if HasOwnerId(t) then Owner else Shared
  {
    var i := OneKeyColumn(t.columns, |t.columns|);
    hide KeyColumns, Contains, ToUpper;
  }

  /** Loading succeeds exactly if no table it looks at has an owner_id that is no text, and each policy row is right. */
  lemma LoadsIff(db: Database)
    requires DistinctNames(db.tables)
    ensures Loaded(db.tables, db.policies).Success? <==>
      && (forall i :: 0 <= i < |db.tables| ==> IsReserved(db.tables[i].name) || OwnerIdIsText(db.tables[i]))
      && (forall j :: 0 <= j < |db.policies| ==> RowIsRight(db.tables, db.policies[j]))
  {
    var tables, policies := db.tables, db.policies;
    DiscoveredExactly(tables, |tables|);
    forall i | 0 <= i < |tables|
      ensures Describable(tables[i]) <==> OwnerIdIsText(tables[i])
    {
      DescribableIff(tables[i]);
    }
    hide Describable, OwnerIdIsText, Described, Exposed, IsReserved, DistinctNames;
    if Discovered(tables, |tables|).Success? {
      var found := Discovered(tables, |tables|).value;
      AppliesExactly(found, policies, |policies|);
      forall j | 0 <= j < |policies|
        ensures Acceptable(found, policies[j]) <==> RowIsRight(tables, policies[j])
      {
        RightIff(tables, policies[j]);
      }
      hide Acceptable, RowIsRight;
    }
  }

  /** Its collection is served, its operation is one of the four, and it gives an owner rule only to an owner_id. */
  ghost predicate RowIsRight(tables: seq<Table>, p: Policy) {
    && p.operation in {"read", "create", "update", "delete"}
    && exists i: nat :: IsTable(tables, i, p.collection) && Servable(tables[i])
                        && (p.rule == Owner ==> HasOwnerId(tables[i]))
  }

  lemma FoundAs(tables: seq<Table>, i: nat)
    requires DistinctNames(tables) && Discovered(tables, |tables|).Success? && i < |tables|
    ensures var found, t := Discovered(tables, |tables|).value, tables[i];
      && (t.name in found <==> Servable(t))
      && (t.name in found ==> (found[t.name].ownerColumn != "" <==> HasOwnerId(t)))
  {
    hide Discovered, Describable, IsReserved, Described, DistinctNames, Servable, Exposed, HasOwnerId, WithDefaults;
    DiscoveredExactly(tables, |tables|);
    ExposedIff(tables[i]);
    OwnerColumnIff(tables[i]);
  }

  lemma FoundIsTable(tables: seq<Table>, name: string) returns (i: nat)
    requires DistinctNames(tables) && Discovered(tables, |tables|).Success?
    requires name in Discovered(tables, |tables|).value
    ensures IsTable(tables, i, name)
  {
    hide Discovered, Describable, IsReserved, Described, DistinctNames, Exposed;
    DiscoveredExactly(tables, |tables|);
    i :| 0 <= i < |tables| && tables[i].name == name;
  }

  lemma RightIff(tables: seq<Table>, p: Policy)
    requires DistinctNames(tables) && Discovered(tables, |tables|).Success?
    ensures Acceptable(Discovered(tables, |tables|).value, p) <==> RowIsRight(tables, p)
  {
    hide Discovered, DistinctNames, Servable, HasOwnerId, Parse;
    GovernsIff(p, p.collection, Read);
    if Acceptable(Discovered(tables, |tables|).value, p) {
      var i := FoundIsTable(tables, p.collection);
      FoundAs(tables, i);
    }
    if RowIsRight(tables, p) {
      var i: nat :| IsTable(tables, i, p.collection) && Servable(tables[i])
        && (p.rule == Owner ==> HasOwnerId(tables[i]));
      FoundAs(tables, i);
    }
  }

  lemma OwnerColumnIff(t: Table)
    ensures WithDefaults(Described(t)).ownerColumn != "" <==> HasOwnerId(t)
  {
    hide KeyColumns, Contains, ToUpper;
  }

  /** What a process serves is what the latest database that could be loaded says, and nothing older. */
  lemma {:induction false} ServedIsLatest(registry: Collections, dbs: seq<Database>, i: nat)
    requires i <= |dbs|
    requires forall j :: i <= j < |dbs| ==> Loaded(dbs[j].tables, dbs[j].policies).Failure?
    ensures i == 0 ==> ReloadedAll(registry, dbs) == registry
    ensures i > 0 && Loaded(dbs[i - 1].tables, dbs[i - 1].policies).Success? ==>
      ReloadedAll(registry, dbs) == Loaded(dbs[i - 1].tables, dbs[i - 1].policies).value
  {
    hide Loaded;
    if i < |dbs| {
      ServedIsLatest(registry, dbs[..|dbs| - 1], i);
    }
  }

  // ----- The reserved list is complete -----------------------------------------

  /** Every table the embedded migrations create, in file order. */
  const OWN_TABLES := [
    "users", "sessions", "oauth_clients", "oauth_client_jti", "oauth_authorize_codes",
    "oauth_access_tokens", "oauth_refresh_tokens", "oauth_pkce_requests", "oauth_consents",
    "oauth_signing_keys", "oauth_hmac_secret", "owner_users", "owner_sessions", "owner_audit_log",
    "files", "_policies", "password_reset_tokens", "social_identities", "schema_migrations"]

  /** No table of maubase's own is ever served, by any run of reloads. */
  lemma OwnTablesAreNeverServed(start: Database, dbs: seq<Database>, i: nat)
    requires Loaded(start.tables, start.policies).Success? && i < |OWN_TABLES|
    ensures OWN_TABLES[i] !in ReloadedAll(Loaded(start.tables, start.policies).value, dbs)
  {
    ServedIsSound(start, dbs);
    hide ReloadedAll, Loaded;
  }
}
