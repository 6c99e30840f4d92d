/**
 Auto-REST's row access rules and what realtime subscribers are told
 (internal/restapi/handlers.go and admin.go).

 A table is a map from key to row. Each handler is one step; what it cannot
 decide itself (the database refusing a write, a generated key, column
 defaults, a failing lookup) comes in with the request.
 */
module AccessRules {
  import opened Prelude
  import opened Broker
  import opened Registry
  import MigrationNumbers

  type Rows = map<string, Record>

  type Tables = map<string, Rows>

  datatype Reply = Reply(status: int, record: Option<Record>)

  /** An event on its way to the broker with the value that gates it. */
  datatype Notice = Notice(ev: Event, gate: string)

  /** Why the database turned a write down, as writeWriteError tells them apart. */
  datatype Refusal = Conflict | Violation | Fault

  function Status(refusal: Refusal): int {
    match refusal
    case Conflict => 409
    case Violation => 400
    case Fault => 500
  }

  datatype Env = Env(refusal: Option<Refusal>, newKey: Value, defaults: Record, lookupFails: bool)

  datatype Request =
    | Create(name: string, body: Record, subj: string, env: Env)
    | Update(name: string, id: string, body: Record, subj: string, env: Env)
    | Delete(name: string, id: string, subj: string, env: Env)
    | AdminCreate(name: string, body: Record, env: Env)
    | AdminUpdate(name: string, id: string, body: Record, env: Env)
    | AdminDelete(name: string, id: string, env: Env)

  datatype Effect = Effect(reply: Reply, tables: Tables, notice: Option<Notice>)

  // ----- Rows and values -------------------------------------------------------

  function RowsOf(tables: Tables, name: string): Rows {
    if name in tables then tables[name] else map[]
  }

  function Decimal(n: int): string {
    if n < 0 then "-" + MigrationNumbers.Digits(-n) else MigrationNumbers.Digits(n)
  }

  /** fmt.Sprint of a column value; null prints as nothing. */
  function Printed(v: Value): string {
    match v
    case Null => ""
    case Text(text) => text
    case Number(n) => Decimal(n)
  }

  /** An owner column has TEXT affinity, so a number is stored as its digits. */
  function Coerced(c: Collection, column: string, v: Value): Value {
    if c.ownerColumn != "" && column == c.ownerColumn && v.Number? then Text(Printed(v)) else v
  }

  function CoercedAll(c: Collection, body: Record): Record {
    map column | column in body :: Coerced(c, column, body[column])
  }

  function ColumnNames(c: Collection): set<string> {
    set i | 0 <= i < |c.columns| :: c.columns[i].name
  }

  /** The row an INSERT of `body` leaves: every column, from the body or else its default. */
  function Stored(c: Collection, body: Record, defaults: Record): Record {
    map column | column in ColumnNames(c) ::
      Coerced(c, column,
              if column in body then body[column] else if column in defaults then defaults[column] else Null)
  }

  predicate Known(c: Collection, body: Record) {
    forall column :: column in body ==> c.HasColumn(column)
  }

  /** WHERE owner_id = subj. */
  predicate Owned(c: Collection, row: Record, subj: string) {
    c.ownerColumn in row && row[c.ownerColumn] == Text(subj)
  }

  /** fetchByPK. */
  function Fetch(rows: Rows, c: Collection, id: string, scoped: bool, subj: string): Option<Record> {
    if id in rows && (scoped ==> Owned(c, rows[id], subj)) then Some(rows[id]) else None
  }

  /** ownerGateValue. */
  function Gate(c: Collection, record: Record): string {
    if c.Rule(Op.Read) != Owner || c.ownerColumn == "" || c.ownerColumn !in record then ""
    else Printed(record[c.ownerColumn])
  }

  function Publish(c: Collection, ev: Event, gate: string): Option<Notice> {
    if c.Rule(Op.Read) == Denied then None else Some(Notice(ev, gate))
  }

  /** The key the row is inserted under; one is generated when the body leaves it open. */
  function WithKey(c: Collection, body: Record, newKey: Value): Record {
    if c.pkColumn !in body || body[c.pkColumn] == Null || (!c.pkIsInteger && body[c.pkColumn] == Text(""))
    then body[c.pkColumn := newKey]
    else body
  }

  function OwnedBody(c: Collection, body: Record, subj: string): Record {
    if c.ownerColumn != "" then body[c.ownerColumn := Text(subj)] else body
  }

  function Stripped(c: Collection, body: Record): Record {
    if c.ownerColumn != "" then body - {c.pkColumn, c.ownerColumn} else body - {c.pkColumn}
  }

  function Error(status: int, tables: Tables): Effect {
    Effect(Reply(status, None), tables, None)
  }

  function Found(row: Option<Record>): Reply {
    if row.Some? then Reply(200, row) else Reply(404, None)
  }

  // ----- The operations ----------------------------------------------------------

  function Get(reg: Collections, tables: Tables, name: string, id: string, subj: string): Reply {
    if name !in reg then Reply(404, None)
    else if reg[name].Rule(Op.Read) == Denied then Reply(403, None)
    else Found(Fetch(RowsOf(tables, name), reg[name], id, reg[name].Rule(Op.Read) == Owner, subj))
  }

  /** handleList, before paging. */
  function List(reg: Collections, tables: Tables, name: string, subj: string): Option<Rows> {
    if name !in reg || reg[name].Rule(Op.Read) == Denied then None
    else
      Some(map id | id in RowsOf(tables, name)
                    && (reg[name].Rule(Op.Read) == Owner ==> Owned(reg[name], RowsOf(tables, name)[id], subj))
                  :: RowsOf(tables, name)[id])
  }

  /** The INSERT and what follows it, for customers and administrators alike. */
  function Insert(c: Collection, tables: Tables, name: string, body: Record, env: Env): Effect {
    var keyed := WithKey(c, body, env.newKey);
    var row := Stored(c, keyed, env.defaults);
    var id := Printed(keyed[c.pkColumn]);
    if env.refusal.Some? then Error(Status(env.refusal.value), tables)
    else if id in RowsOf(tables, name) then Error(409, tables)
    else
      var tables' := tables[name := RowsOf(tables, name)[id := row]];
      if env.lookupFails then Error(500, tables')
      else Effect(Reply(201, Some(row)), tables', Publish(c, Created(name, row), Gate(c, row)))
  }

  function Change(
      c: Collection, tables: Tables, name: string, id: string, body: Record, scoped: bool, subj: string, env: Env
  ): Effect {
    if env.refusal.Some? then Error(Status(env.refusal.value), tables)
    else
      var found := Fetch(RowsOf(tables, name), c, id, scoped, subj);
      if found.None? then Error(404, tables)
      else
        var row := found.value + CoercedAll(c, body);
        var tables' := tables[name := RowsOf(tables, name)[id := row]];
        if env.lookupFails then Error(500, tables')
        else Effect(Reply(200, Some(row)), tables', Publish(c, Updated(name, row), Gate(c, row)))
  }

  function OwnerLookup(c: Collection, rows: Rows, id: string, fails: bool): string {
    if fails || id !in rows || c.ownerColumn !in rows[id] then "" else Printed(rows[id][c.ownerColumn])
  }

  function Remove(
      c: Collection, tables: Tables, name: string, id: string, scoped: bool, subj: string, env: Env): Effect {
    var rows := RowsOf(tables, name);
    var gate :=
      if c.Rule(Op.Read) == Owner && c.ownerColumn != "" then OwnerLookup(c, rows, id, env.lookupFails) else "";
    if env.refusal.Some? then Error(500, tables)
    else if Fetch(rows, c, id, scoped, subj).None? then Error(404, tables)
    else Effect(Reply(204, None), tables[name := rows - {id}], Publish(c, Deleted(name, id), gate))
  }

  function Handle(reg: Collections, tables: Tables, r: Request): Effect {
    if r.name !in reg then Error(404, tables)
    else
      var c := reg[r.name];
      match r
      case Create(name, body, subj, env) =>
        if c.Rule(Op.Create) == Denied then Error(403, tables)
        else if !Known(c, body) then Error(400, tables)
        else Insert(c, tables, name, OwnedBody(c, body, subj), env)
      case Update(name, id, body, subj, env) =>
        if c.Rule(Op.Update) == Denied then Error(403, tables)
        else if !Known(c, body) then Error(400, tables)
        else if Stripped(c, body) != map[] then
          Change(c, tables, name, id, Stripped(c, body), c.Rule(Op.Update) == Owner, subj, env)
        else if body == map[] then Error(400, tables)
        else if env.lookupFails then Error(500, tables)
        else Effect(Found(Fetch(RowsOf(tables, name), c, id, c.Rule(Op.Update) == Owner, subj)), tables, None)
      case Delete(name, id, subj, env) =>
        if c.Rule(Op.Delete) == Denied then Error(403, tables)
        else Remove(c, tables, name, id, c.Rule(Op.Delete) == Owner, subj, env)
      case AdminCreate(name, body, env) =>
        if !Known(c, body) then Error(500, tables) else Insert(c, tables, name, body, env)
      case AdminUpdate(name, id, body, env) =>
        if body - {c.pkColumn} == map[] then
          if env.lookupFails then Error(500, tables)
          else Effect(Found(Fetch(RowsOf(tables, name), c, id, false, "")), tables, None)
        else if !Known(c, body) then Error(500, tables)
        else Change(c, tables, name, id, body - {c.pkColumn}, false, "", env)
      case AdminDelete(name, id, env) => Remove(c, tables, name, id, false, "", env)
  }

  // ----- Account erasure and export ----------------------------------------------

  function OwnedRows(c: Collection, rows: Rows, subj: string): Rows {
    map id | id in rows && Owned(c, rows[id], subj) :: rows[id]
  }

  function EraseOne(reg: Collections, tables: Tables, name: string, subj: string): Tables
    requires name in reg
  {
    tables[name := RowsOf(tables, name) - OwnedRows(reg[name], RowsOf(tables, name), subj).Keys]
  }

  /** DeleteOwned once the first n collections of `order` are done. */
  function Erased(reg: Collections, tables: Tables, order: seq<string>, subj: string, n: nat): Tables
    requires n <= |order| && forall i :: 0 <= i < |order| ==> order[i] in reg
  {
    if n == 0 then tables else EraseOne(reg, Erased(reg, tables, order, subj, n - 1), order[n - 1], subj)
  }

  function Export(reg: Collections, tables: Tables, subj: string): map<string, Rows> {
    map name | name in reg && reg[name].ownerColumn != "" && reg[name].Rule(Op.Read) != Denied ::
      OwnedRows(reg[name], RowsOf(tables, name), subj)
  }

  /** The owner-scoped collections, once each. */
  predicate OwnedOrder(reg: Collections, order: seq<string>) {
    && (forall i :: 0 <= i < |order| ==> order[i] in reg && reg[order[i]].ownerColumn != "")
    && (forall i, j :: 0 <= i < j < |order| ==> order[i] != order[j])
    && (forall name :: name in reg && reg[name].ownerColumn != "" ==> name in order)
  }

  // ----- The server ----------------------------------------------------------------

  class RestServer {
    const reg: Collections
    var tables: Tables
    var published: multiset<Notice>

    constructor (reg: Collections)
      ensures this.reg == reg && tables == map[] && published == multiset{}
    {
      this.reg, tables, published := reg, map[], multiset{};
    }

    /** What a step does to the server: its tables, and the event it publishes if any. */
    twostate predicate Did(e: Effect)
      reads this
    {
      && tables == e.tables
      && published == old(published) + if e.notice.Some? then multiset{e.notice.value} else multiset{}
    }

    method PublishEvent(c: Collection, ev: Event, gate: string)
      modifies this`published
      ensures published == old(published) +
        (var notice := Publish(c, ev, gate); if notice.Some? then multiset{notice.value} else multiset{})
    {
      if c.Rule(Op.Read) == Denied {
        return;
      }
      published := published + multiset{Notice(ev, gate)};
    }

    /** `fails`: the look-up itself fails. */
    method HandleGet(name: string, id: string, subj: string, fails: bool) returns (reply: Reply)
      ensures fails && name in reg && reg[name].Rule(Op.Read) != Denied ==> reply == Reply(500, None)
      ensures !fails || name !in reg || reg[name].Rule(Op.Read) == Denied ==> reply == Get(reg, tables, name, id, subj)
    {
      if name !in reg {
        return Reply(404, None);
      }
      var c := reg[name];
      if c.Rule(Op.Read) == Denied {
        return Reply(403, None);
      }
      if fails {
        return Reply(500, None);
      }
      var record := Fetch(RowsOf(tables, name), c, id, c.Rule(Op.Read) == Owner, subj);
      if record.None? {
        return Reply(404, None);
      }
      return Reply(200, record);
    }

    /** From the generated key on, creates by customers and by administrators agree. */
    method InsertRow(c: Collection, name: string, body: Record, env: Env) returns (reply: Reply)
      modifies this
      ensures reply == Insert(c, old(tables), name, body, env).reply
      ensures Did(Insert(c, old(tables), name, body, env))
    {
      var fields := body;
      if c.pkColumn !in fields || fields[c.pkColumn] == Null || (!c.pkIsInteger && fields[c.pkColumn] == Text("")) {
        fields := fields[c.pkColumn := env.newKey];
      }
      if env.refusal.Some? {
        return Reply(Status(env.refusal.value), None);
      }
      var id, rows := Printed(fields[c.pkColumn]), RowsOf(tables, name);
      if id in rows {
        return Reply(409, None);
      }
      var record := Stored(c, fields, env.defaults);
      tables := tables[name := rows[id := record]];
      if env.lookupFails {
        return Reply(500, None);
      }
      PublishEvent(c, Created(name, record), Gate(c, record));
      return Reply(201, Some(record));
    }

    method HandleCreate(name: string, body: Record, subj: string, env: Env) returns (reply: Reply)
      modifies this
      ensures reply == Handle(reg, old(tables), Request.Create(name, body, subj, env)).reply
      ensures Did(Handle(reg, old(tables), Request.Create(name, body, subj, env)))
    {
      if name !in reg {
        return Reply(404, None);
      }
      var c := reg[name];
      if c.Rule(Op.Create) == Denied {
        return Reply(403, None);
      }
      if !Known(c, body) {
        return Reply(400, None);
      }
      var fields := body;
      if c.ownerColumn != "" {
        fields := fields[c.ownerColumn := Text(subj)];
      }
      reply := InsertRow(c, name, fields, env);
    }

    method ChangeRow(c: Collection, name: string, id: string, body: Record, scoped: bool, subj: string, env: Env)
      returns (reply: Reply)
      modifies this
      ensures reply == Change(c, old(tables), name, id, body, scoped, subj, env).reply
      ensures Did(Change(c, old(tables), name, id, body, scoped, subj, env))
    {
      if env.refusal.Some? {
        return Reply(Status(env.refusal.value), None);
      }
      var rows := RowsOf(tables, name);
      if id !in rows || (scoped && !Owned(c, rows[id], subj)) {
        return Reply(404, None);
      }
      var record := rows[id] + CoercedAll(c, body);
      tables := tables[name := rows[id := record]];
      if env.lookupFails {
        return Reply(500, None);
      }
      PublishEvent(c, Updated(name, record), Gate(c, record));
      return Reply(200, Some(record));
    }

    method HandleUpdate(name: string, id: string, body: Record, subj: string, env: Env) returns (reply: Reply)
      modifies this
      ensures reply == Handle(reg, old(tables), Request.Update(name, id, body, subj, env)).reply
      ensures Did(Handle(reg, old(tables), Request.Update(name, id, body, subj, env)))
    {
      if name !in reg {
        return Reply(404, None);
      }
      var c := reg[name];
      if c.Rule(Op.Update) == Denied {
        return Reply(403, None);
      }
      if !Known(c, body) {
        return Reply(400, None);
      }
      var sentSomething := body != map[];
      var fields := body - {c.pkColumn};
      if c.ownerColumn != "" {
        fields := fields - {c.ownerColumn};
      }
      assert fields == Stripped(c, body);
      if fields == map[] {
        if !sentSomething {
          return Reply(400, None);
        }
        if env.lookupFails {
          return Reply(500, None);
        }
        return Found(Fetch(RowsOf(tables, name), c, id, c.Rule(Op.Update) == Owner, subj));
      }
      reply := ChangeRow(c, name, id, fields, c.Rule(Op.Update) == Owner, subj, env);
    }

    method RemoveRow(c: Collection, name: string, id: string, scoped: bool, subj: string, env: Env)
      returns (reply: Reply)
      modifies this
      ensures reply == Remove(c, old(tables), name, id, scoped, subj, env).reply
      ensures Did(Remove(c, old(tables), name, id, scoped, subj, env))
    {
      var rows, gate := RowsOf(tables, name), "";
      if c.Rule(Op.Read) == Owner && c.ownerColumn != "" {
        gate := OwnerLookup(c, rows, id, env.lookupFails);
      }
      if env.refusal.Some? {
        return Reply(500, None);
      }
      if id !in rows || (scoped && !Owned(c, rows[id], subj)) {
        return Reply(404, None);
      }
      tables := tables[name := rows - {id}];
      PublishEvent(c, Deleted(name, id), gate);
      return Reply(204, None);
    }

    method HandleDelete(name: string, id: string, subj: string, env: Env) returns (reply: Reply)
      modifies this
      ensures reply == Handle(reg, old(tables), Request.Delete(name, id, subj, env)).reply
      ensures Did(Handle(reg, old(tables), Request.Delete(name, id, subj, env)))
    {
      if name !in reg {
        return Reply(404, None);
      }
      var c := reg[name];
      if c.Rule(Op.Delete) == Denied {
        return Reply(403, None);
      }
      reply := RemoveRow(c, name, id, c.Rule(Op.Delete) == Owner, subj, env);
    }

    method AdminCreateRow(name: string, body: Record, env: Env) returns (reply: Reply)
      requires name in reg
      modifies this
      ensures reply == Handle(reg, old(tables), AdminCreate(name, body, env)).reply
      ensures Did(Handle(reg, old(tables), AdminCreate(name, body, env)))
    {
      if !Known(reg[name], body) {
        return Reply(500, None);
      }
      reply := InsertRow(reg[name], name, body, env);
    }

    method AdminDeleteRow(name: string, id: string, env: Env) returns (reply: Reply)
      requires name in reg
      modifies this
      ensures reply == Handle(reg, old(tables), AdminDelete(name, id, env)).reply
      ensures Did(Handle(reg, old(tables), AdminDelete(name, id, env)))
    {
      reply := RemoveRow(reg[name], name, id, false, "", env);
    }

    method AdminUpdateRow(name: string, id: string, body: Record, env: Env) returns (reply: Reply)
      requires name in reg
      modifies this
      ensures reply == Handle(reg, old(tables), AdminUpdate(name, id, body, env)).reply
      ensures Did(Handle(reg, old(tables), AdminUpdate(name, id, body, env)))
    {
      var c := reg[name];
      var fields := body - {c.pkColumn};
      if fields == map[] {
        if env.lookupFails {
          return Reply(500, None);
        }
        return Found(Fetch(RowsOf(tables, name), c, id, false, ""));
      }
      if !Known(c, body) {
        return Reply(500, None);
      }
      reply := ChangeRow(c, name, id, fields, false, "", env);
    }

    /**
     DeleteOwned: collection by collection, rows first, then an event for each.
     `failAt` is the collection whose store operation fails, if any does.
     */
    method DeleteOwned(order: seq<string>, subj: string, failAt: nat) returns (ok: bool)
      requires OwnedOrder(reg, order)
      modifies this
      ensures ok <==> |order| <= failAt
      ensures tables == Erased(reg, old(tables), order, subj, if ok then |order| else failAt)
      ensures published == old(published) +
        AllNotices(reg, old(tables), order, subj, if ok then |order| else failAt)
    {
      hide Erased, AllNotices, OwnedRows, NoticesFor, RowsOf;
      NothingErased(reg, tables, order, subj);
      ghost var start, before := tables, published;
      for i := 0 to |order|
        invariant i <= failAt
        invariant tables == Erased(reg, start, order, subj, i)
        invariant published == before + AllNotices(reg, start, order, subj, i)
      {
        if i == failAt {
          return false;
        }
        OneMoreErased(reg, start, order, subj, i);
        var name := order[i];
        var ids := OwnedRows(reg[name], RowsOf(tables, name), subj).Keys;
        tables := tables[name := RowsOf(tables, name) - ids];
        PublishAll(name, ids, subj);
      }
      return true;
    }

    method ExportOwned(order: seq<string>, subj: string) returns (out: map<string, Rows>)
      requires OwnedOrder(reg, order)
      ensures out == Export(reg, tables, subj)
    {
      out := map[];
      for i := 0 to |order|
        invariant forall name :: name in out <==> name in order[..i] && name in Export(reg, tables, subj)
        invariant forall name :: name in out ==> out[name] == Export(reg, tables, subj)[name]
      {
        var name := order[i];
        if reg[name].Rule(Op.Read) == Denied {
          continue;
        }
        out := out[name := OwnedRows(reg[name], RowsOf(tables, name), subj)];
      }
      assert order[..|order|] == order;
    }

    method PublishAll(name: string, ids: set<string>, subj: string)
      requires name in reg
      modifies this`published
      ensures published == old(published) + multiset(NoticesFor(reg[name], name, ids, subj))
    {
      ghost var before := published;
      var todo := ids;
      while todo != {}
        invariant todo <= ids
        invariant published == before + multiset(NoticesFor(reg[name], name, ids - todo, subj))
        decreases |todo|
      {
        var id :| id in todo;
        PublishEvent(reg[name], Deleted(name, id), subj);
        OneMoreNotice(reg[name], name, ids - todo, subj, id);
        assert ids - (todo - {id}) == ids - todo + {id};
        todo := todo - {id};
      }
      assert ids - {} == ids;
    }
  }

  function NoticesFor(c: Collection, name: string, ids: set<string>, subj: string): set<Notice> {
    if c.Rule(Op.Read) == Denied then {} else set id | id in ids :: Notice(Deleted(name, id), subj)
  }

  lemma OneMoreNotice(c: Collection, name: string, ids: set<string>, subj: string, id: string)
    requires id !in ids
    ensures multiset(NoticesFor(c, name, ids + {id}, subj)) ==
      multiset(NoticesFor(c, name, ids, subj)) +
      (var notice := Publish(c, Deleted(name, id), subj); if notice.Some? then multiset{notice.value} else multiset{})
  {
    if c.Rule(Op.Read) != Denied {
      assert NoticesFor(c, name, ids + {id}, subj) ==
        NoticesFor(c, name, ids, subj) + {Notice(Deleted(name, id), subj)};
    }
  }

  /** One event per erased row of the first n collections, read-denied ones excepted. */
  function AllNotices(reg: Collections, tables: Tables, order: seq<string>, subj: string, n: nat): multiset<Notice>
    requires n <= |order| && forall i :: 0 <= i < |order| ==> order[i] in reg
  {
    if n == 0 then multiset{}
    else
      var c, rows := reg[order[n - 1]], RowsOf(tables, order[n - 1]);
      AllNotices(reg, tables, order, subj, n - 1)
      + multiset(NoticesFor(c, order[n - 1], OwnedRows(c, rows, subj).Keys, subj))
  }

  lemma NothingErased(reg: Collections, tables: Tables, order: seq<string>, subj: string)
    requires OwnedOrder(reg, order)
    ensures Erased(reg, tables, order, subj, 0) == tables && AllNotices(reg, tables, order, subj, 0) == multiset{}
  {
  }

  /** The n-th collection is still as it was when its turn comes. */
  lemma OneMoreErased(reg: Collections, tables: Tables, order: seq<string>, subj: string, n: nat)
    requires OwnedOrder(reg, order) && n < |order|
    ensures var name, left := order[n], Erased(reg, tables, order, subj, n);
      var ids := OwnedRows(reg[name], RowsOf(left, name), subj).Keys;
      && Erased(reg, tables, order, subj, n + 1) == left[name := RowsOf(left, name) - ids]
      && AllNotices(reg, tables, order, subj, n + 1) ==
           AllNotices(reg, tables, order, subj, n) + multiset(NoticesFor(reg[name], name, ids, subj))
  {
    ErasedElsewhere(reg, tables, order, subj, n, order[n]);
    hide OwnedRows, NoticesFor, RowsOf;
  }

  lemma {:induction false} ErasedElsewhere(
      reg: Collections, tables: Tables, order: seq<string>, subj: string, n: nat, name: string)
    requires OwnedOrder(reg, order) && n <= |order| && name !in order[..n]
    ensures RowsOf(Erased(reg, tables, order, subj, n), name) == RowsOf(tables, name)
  {
    if n > 0 {
      ErasedElsewhere(reg, tables, order, subj, n - 1, name);
      assert order[n - 1] in order[..n];
    }
  }
}
