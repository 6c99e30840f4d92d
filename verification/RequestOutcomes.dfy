/**
 What each auto-REST request is answered, and what it does, read off the rules and
 the rows (internal/restapi/handlers.go and admin.go): when a write happens at all,
 what denied and owner rules keep whole runs from doing, and what a table without
 policies protects.
 */
module RequestOutcomes {
  import opened Prelude
  import opened Broker
  import opened Registry
  import opened AccessRules
  import opened AccessLaws
  import MigrationNumbers

  /** WHERE owner_id = subj holds of the row. */
  predicate BelongsTo(c: Collection, row: Record, subj: string) {
    c.ownerColumn in row && row[c.ownerColumn] == Text(subj)
  }

  /** The row is there, and the rule lets the subject at it. */
  predicate WithinReach(c: Collection, rows: Rows, id: string, rule: Rule, subj: string) {
    rule != Denied && id in rows && (rule == Owner ==> BelongsTo(c, rows[id], subj))
  }

  predicate Nothing(e: Effect, tables: Tables) {
    e.tables == tables && e.notice == None
  }

  // ----- One request -------------------------------------------------------------

  /** The operation a customer's request asks for. */
  function OpOf(r: Request): Op
    requires r.Create? || r.Update? || r.Delete?
  {
    if r.Create? then Op.Create else if r.Update? then Op.Update else Op.Delete
  }

  /** A denied operation is a 403 and does nothing, whatever the request; so is an unknown collection a 404. */
  lemma DeniedIsRefused(reg: Collections, tables: Tables, r: Request)
    requires r.Create? || r.Update? || r.Delete?
    ensures r.name !in reg ==> Handle(reg, tables, r) == Effect(Reply(404, None), tables, None)
    ensures r.name in reg ==>
      (reg[r.name].Rule(OpOf(r)) == Denied <==> Handle(reg, tables, r).reply.status == 403)
    ensures r.name in reg && reg[r.name].Rule(OpOf(r)) == Denied ==>
      Handle(reg, tables, r) == Effect(Reply(403, None), tables, None)
  {
    hide Stored, CoercedAll, Gate, WithKey, OwnedBody, Stripped, OwnerLookup, Known, Publish, Owned;
  }

  /** A customer's read: 403 if denied, 404 if out of reach, else the row. */
  lemma GetSucceedsIff(reg: Collections, tables: Tables, name: string, id: string, subj: string)
    requires name in reg
    ensures var c, rows, reply := reg[name], RowsOf(tables, name), Get(reg, tables, name, id, subj);
      && (reply.status == 200 <==> WithinReach(c, rows, id, c.Rule(Op.Read), subj))
      && (reply.status == 200 ==> reply.record == Some(rows[id]))
      && (reply.status == 403 <==> c.Rule(Op.Read) == Denied)
      && (reply.status in {200, 403, 404} && (reply.status != 200 ==> reply.record == None))
  {
  }

  /** A customer's delete takes the row away exactly if it is within reach of the delete rule; else it does nothing. */
  lemma DeleteSucceedsIff(reg: Collections, tables: Tables, r: Request)
    requires r.Delete? && r.name in reg
    ensures var c, rows, e := reg[r.name], RowsOf(tables, r.name), Handle(reg, tables, r);
      && (e.reply.status == 204 <==> WithinReach(c, rows, r.id, c.Rule(Op.Delete), r.subj) && r.env.refusal.None?)
      && (e.reply.status == 204 ==> e.tables == tables[r.name := rows - {r.id}])
      && (e.reply.status != 204 ==> Nothing(e, tables))
      && (e.reply.status == 404 <==>
            && c.Rule(Op.Delete) != Denied && r.env.refusal.None?
            && !WithinReach(c, rows, r.id, c.Rule(Op.Delete), r.subj))
  {
    hide Gate, OwnerLookup, Publish;
  }

  /** An administrator's delete asks no rule. */
  lemma AdminDeleteSucceedsIff(reg: Collections, tables: Tables, r: Request)
    requires r.AdminDelete? && r.name in reg
    ensures var rows, e := RowsOf(tables, r.name), Handle(reg, tables, r);
      && (e.reply.status == 204 <==> r.id in rows && r.env.refusal.None?)
      && (e.reply.status == 204 ==> e.tables == tables[r.name := rows - {r.id}])
      && (e.reply.status != 204 ==> Nothing(e, tables))
  {
    hide Gate, OwnerLookup, Publish;
  }

  /** Every name in the body is a column. */
  predicate AllColumns(c: Collection, body: Record) {
    forall column :: column in body ==> exists i :: 0 <= i < |c.columns| && c.columns[i].name == column
  }

  lemma KnownIff(c: Collection, body: Record)
    ensures Known(c, body) <==> AllColumns(c, body)
  {
    forall column
      ensures c.HasColumn(column) <==> exists i :: 0 <= i < |c.columns| && c.columns[i].name == column
    {
    }
  }

  /** The digits a number is stored as in an owner column read as that number again. */
  lemma DecimalReadsBack(n: int)
    requires -0x8000_0000_0000_0000 <= n < 0x8000_0000_0000_0000
    ensures MigrationNumbers.Atoi(Decimal(n)) == Some(n)
  {
    var size := if n < 0 then -n else n;
    MigrationNumbers.ValueOfDigits(size);
    MigrationNumbers.AtoiReads(MigrationNumbers.Digits(size));
    hide MigrationNumbers.Atoi, MigrationNumbers.Digits, MigrationNumbers.Value;
  }

  /** What a value becomes in a column: a number in an owner column its decimal digits, all else itself. */
  function AsStored(c: Collection, column: string, v: Value): Value {
    if v.Number? && c.ownerColumn != "" && column == c.ownerColumn then Text(Decimal(v.n)) else v
  }

  /** The columns of `before`, those in `sent` overwritten, whatever is in `kept` excepted. */
  ghost predicate Overwritten(c: Collection, before: Record, sent: Record, kept: set<string>, after: Record) {
    && (forall column :: column in sent && column !in kept ==>
          column in after && after[column] == AsStored(c, column, sent[column]))
    && (forall column :: column !in sent || column in kept ==>
          (column in after <==> column in before) && (column in before ==> after[column] == before[column]))
  }

  /** The columns that a customer's update never writes. */
  function Immutable(c: Collection): set<string> {
    if c.ownerColumn == "" then {c.pkColumn} else {c.pkColumn, c.ownerColumn}
  }

  predicate Writable(c: Collection, body: Record) {
    exists column :: column in body && column !in Immutable(c)
  }

  predicate UpdateWrites(c: Collection, rows: Rows, r: Request)
    requires r.Update?
  {
    && WithinReach(c, rows, r.id, c.Rule(Op.Update), r.subj)
    && AllColumns(c, r.body) && r.env.refusal.None?
    && Writable(c, r.body)
  }

  /** The tables with just that row written. */
  predicate RowWritten(before: Tables, after: Tables, name: string, id: string) {
    && name in after && id in after[name]
    && after == before[name := RowsOf(before, name)[id := after[name][id]]]
  }

  /**
   A customer's update writes exactly if the row is within reach of the update rule and
   the body sends a column that may be written and only columns there are. It then writes
   what was sent, key and owner excepted; otherwise it does nothing.
   */
  lemma UpdateSucceedsIff(reg: Collections, tables: Tables, r: Request)
    requires r.Update? && r.name in reg
    ensures var c, rows, e := reg[r.name], RowsOf(tables, r.name), Handle(reg, tables, r);
      && (!UpdateWrites(c, rows, r) ==> Nothing(e, tables))
      && (UpdateWrites(c, rows, r) ==>
            && RowWritten(tables, e.tables, r.name, r.id)
            && Overwritten(c, rows[r.id], r.body, Immutable(c), e.tables[r.name][r.id])
            && e.reply == (if r.env.lookupFails then Reply(500, None) else Reply(200, Some(e.tables[r.name][r.id]))))
  {
    var c, rows := reg[r.name], RowsOf(tables, r.name);
    KnownIff(c, r.body);
    StrippedIs(c, r.body);
    if UpdateWrites(c, rows, r) {
      UpdatedRow(reg, tables, r);
      OverwrittenBy(c, rows[r.id], r.body, Stripped(c, r.body), Immutable(c));
    } else {
      UpdateDoesNothing(reg, tables, r);
    }
    hide Handle, AllColumns, Known, Overwritten, Stripped, CoercedAll, Immutable;
  }

  lemma StrippedIs(c: Collection, body: Record)
    ensures Stripped(c, body) == map column | column in body && column !in Immutable(c) :: body[column]
    ensures Stripped(c, body) != map[] <==> Writable(c, body)
  {
    var column :| Writable(c, body) ==> column in body && column !in Immutable(c);
    assert Writable(c, body) ==> column in Stripped(c, body);
    var sent :| Stripped(c, body) != map[] ==> sent in Stripped(c, body);
  }

  lemma UpdatedRow(reg: Collections, tables: Tables, r: Request)
    requires r.Update? && r.name in reg && Known(reg[r.name], r.body) && Stripped(reg[r.name], r.body) != map[]
    requires WithinReach(reg[r.name], RowsOf(tables, r.name), r.id, reg[r.name].Rule(Op.Update), r.subj)
    requires r.env.refusal.None?
    ensures var c, rows, e := reg[r.name], RowsOf(tables, r.name), Handle(reg, tables, r);
      var row := rows[r.id] + CoercedAll(c, Stripped(c, r.body));
      && e.tables == tables[r.name := rows[r.id := row]]
      && e.reply == if r.env.lookupFails then Reply(500, None) else Reply(200, Some(row))
  {
    hide Known, Stripped, CoercedAll, Gate, Publish;
  }

  lemma UpdateDoesNothing(reg: Collections, tables: Tables, r: Request)
    requires r.Update? && r.name in reg
    requires !Known(reg[r.name], r.body) || Stripped(reg[r.name], r.body) == map[] || r.env.refusal.Some?
      || !WithinReach(reg[r.name], RowsOf(tables, r.name), r.id, reg[r.name].Rule(Op.Update), r.subj)
    ensures Nothing(Handle(reg, tables, r), tables)
  {
    hide Known, Stripped, CoercedAll, Gate, Publish;
  }

  lemma OverwrittenBy(c: Collection, before: Record, body: Record, fields: Record, kept: set<string>)
    requires fields == map column | column in body && column !in kept :: body[column]
    ensures Overwritten(c, before, body, kept, before + CoercedAll(c, fields))
  {
  }

  /** The status of a write the database turns down. */
  predicate TurnedDown(refusal: Option<Refusal>, reply: Reply) {
    && refusal.Some? && reply.record == None
    && reply.status == match refusal.value case Conflict => 409 case Violation => 400 case Fault => 500
  }

  /** How an update that writes nothing is answered. */
  lemma UpdateIsAnswered(reg: Collections, tables: Tables, r: Request)
    requires r.Update? && r.name in reg && reg[r.name].Rule(Op.Update) != Denied
    ensures var c, rows, reply := reg[r.name], RowsOf(tables, r.name), Handle(reg, tables, r).reply;
      var within := WithinReach(c, rows, r.id, c.Rule(Op.Update), r.subj);
      if !AllColumns(c, r.body) || r.body == map[] then reply == Reply(400, None)
      else if Writable(c, r.body) then
        && (r.env.refusal.Some? ==> TurnedDown(r.env.refusal, reply))
        && (r.env.refusal.None? && !within ==> reply == Reply(404, None))
      else
        !r.env.lookupFails ==> reply == if within then Reply(200, Some(rows[r.id])) else Reply(404, None)
  {
    KnownIff(reg[r.name], r.body);
    StrippedIs(reg[r.name], r.body);
    hide AllColumns, Known, Stripped, Immutable, CoercedAll, Gate, Publish;
  }

  /** The key a created row gets: the one sent, unless none was, or null, or (where keys are text) the empty text. */
  function KeyOf(c: Collection, body: Record, newKey: Value): Value {
    if c.pkColumn in body && body[c.pkColumn] != Null && (body[c.pkColumn] == Text("") ==> c.pkIsInteger)
    then body[c.pkColumn] else newKey
  }

  /** A row as it was sent: each column from the body, the generated key, the default, or null. */
  ghost predicate StoredAsSent(c: Collection, body: Record, env: Env, row: Record) {
    && (forall column :: column in row <==> c.HasColumn(column))
    && (forall column :: column in row ==>
          row[column] == AsStored(c, column,
            if column == c.pkColumn then KeyOf(c, body, env.newKey)
            else if column in body then body[column]
            else if column in env.defaults then env.defaults[column] else Null))
  }

  lemma StoredIs(c: Collection, body: Record, env: Env)
    ensures StoredAsSent(c, body, env, Stored(c, WithKey(c, body, env.newKey), env.defaults))
    ensures Printed(WithKey(c, body, env.newKey)[c.pkColumn]) == Printed(KeyOf(c, body, env.newKey))
  {
    ColumnsAre(c);
    hide Decimal, ColumnNames;
  }

  lemma ColumnsAre(c: Collection)
    ensures forall column :: column in ColumnNames(c) <==> c.HasColumn(column)
  {
    forall column
      ensures column in ColumnNames(c) <==> c.HasColumn(column)
    {
    }
  }

  /** What an insertion of `body` comes to when nothing is against it but, perhaps, a taken key. */
  ghost predicate Inserted(c: Collection, tables: Tables, name: string, body: Record, env: Env, e: Effect) {
    var id := Printed(KeyOf(c, body, env.newKey));
    if id in RowsOf(tables, name) then e.reply.status == 409 && Nothing(e, tables)
    else
      && RowWritten(tables, e.tables, name, id)
      && StoredAsSent(c, body, env, e.tables[name][id])
      && e.reply == if env.lookupFails then Reply(500, None) else Reply(201, Some(e.tables[name][id]))
  }

  lemma InsertIs(c: Collection, tables: Tables, name: string, body: Record, env: Env)
    ensures env.refusal.None? ==> Inserted(c, tables, name, body, env, Insert(c, tables, name, body, env))
    ensures env.refusal.Some? ==>
      Nothing(Insert(c, tables, name, body, env), tables)
      && TurnedDown(env.refusal, Insert(c, tables, name, body, env).reply)
  {
    StoredIs(c, body, env);
    hide StoredAsSent, Stored, WithKey, KeyOf, Printed, Gate, Publish;
  }

  /**
   A customer's create inserts a row exactly if creates are allowed, the body names only
   columns, the database does not refuse and the key is free; its owner is the subject,
   whatever owner the body names.
   */
  lemma CreateSucceedsIff(reg: Collections, tables: Tables, r: Request)
    requires r.Create? && r.name in reg
    ensures var c, e := reg[r.name], Handle(reg, tables, r);
      var owned := if c.ownerColumn == "" then r.body else r.body[c.ownerColumn := Text(r.subj)];
      && (c.Rule(Op.Create) != Denied && AllColumns(c, r.body) && r.env.refusal.None? ==>
            Inserted(c, tables, r.name, owned, r.env, e))
      && (c.Rule(Op.Create) == Denied || !AllColumns(c, r.body) || r.env.refusal.Some? ==> Nothing(e, tables))
      && (c.Rule(Op.Create) != Denied && !AllColumns(c, r.body) ==> e.reply == Reply(400, None))
  {
    var c := reg[r.name];
    KnownIff(c, r.body);
    InsertIs(c, tables, r.name, OwnedBody(c, r.body, r.subj), r.env);
    hide AllColumns, Known, Insert, Inserted;
  }

  /** An administrator's create asks no rule, and takes the owner as sent. */
  lemma AdminCreateSucceedsIff(reg: Collections, tables: Tables, r: Request)
    requires r.AdminCreate? && r.name in reg
    ensures var c, e := reg[r.name], Handle(reg, tables, r);
      && (AllColumns(c, r.body) && r.env.refusal.None? ==> Inserted(c, tables, r.name, r.body, r.env, e))
      && (!AllColumns(c, r.body) || r.env.refusal.Some? ==> Nothing(e, tables))
  {
    KnownIff(reg[r.name], r.body);
    InsertIs(reg[r.name], tables, r.name, r.body, r.env);
    hide AllColumns, Known, Insert, Inserted;
  }

  predicate AdminUpdateWrites(c: Collection, rows: Rows, r: Request)
    requires r.AdminUpdate?
  {
    && r.id in rows && AllColumns(c, r.body) && r.env.refusal.None?
    && exists column :: column in r.body && column != c.pkColumn
  }

  lemma WithoutKeyIs(c: Collection, body: Record)
    ensures body - {c.pkColumn} == map column | column in body && column !in {c.pkColumn} :: body[column]
    ensures body - {c.pkColumn} == map[] <==> forall column :: column in body ==> column == c.pkColumn
  {
    if body - {c.pkColumn} == map[] {
      forall column | column in body
        ensures column == c.pkColumn
      {
        assert column !in body - {c.pkColumn};
      }
    }
  }

  /** An administrator's update asks no rule, and may write any column but the key. */
  lemma AdminUpdateSucceedsIff(reg: Collections, tables: Tables, r: Request)
    requires r.AdminUpdate? && r.name in reg
    ensures var c, rows, e := reg[r.name], RowsOf(tables, r.name), Handle(reg, tables, r);
      && (!AdminUpdateWrites(c, rows, r) ==> Nothing(e, tables))
      && (AdminUpdateWrites(c, rows, r) ==>
            && RowWritten(tables, e.tables, r.name, r.id)
            && Overwritten(c, rows[r.id], r.body, {c.pkColumn}, e.tables[r.name][r.id])
            && e.reply == (if r.env.lookupFails then Reply(500, None) else Reply(200, Some(e.tables[r.name][r.id]))))
  {
    var c, rows := reg[r.name], RowsOf(tables, r.name);
    KnownIff(c, r.body);
    WithoutKeyIs(c, r.body);
    if AdminUpdateWrites(c, rows, r) {
      AdminUpdatedRow(reg, tables, r);
      OverwrittenBy(c, rows[r.id], r.body, r.body - {c.pkColumn}, {c.pkColumn});
    } else {
      AdminUpdateDoesNothing(reg, tables, r);
    }
    hide Handle, AllColumns, Known, Overwritten, CoercedAll;
  }

  lemma AdminUpdatedRow(reg: Collections, tables: Tables, r: Request)
    requires r.AdminUpdate? && r.name in reg && Known(reg[r.name], r.body) && r.body - {reg[r.name].pkColumn} != map[]
    requires r.id in RowsOf(tables, r.name) && r.env.refusal.None?
    ensures var c, rows, e := reg[r.name], RowsOf(tables, r.name), Handle(reg, tables, r);
      var row := rows[r.id] + CoercedAll(c, r.body - {c.pkColumn});
      && e.tables == tables[r.name := rows[r.id := row]]
      && e.reply == if r.env.lookupFails then Reply(500, None) else Reply(200, Some(row))
  {
    hide Known, CoercedAll, Gate, Publish;
  }

  lemma AdminUpdateDoesNothing(reg: Collections, tables: Tables, r: Request)
    requires r.AdminUpdate? && r.name in reg
    requires !Known(reg[r.name], r.body) || r.body - {reg[r.name].pkColumn} == map[] || r.env.refusal.Some?
      || r.id !in RowsOf(tables, r.name)
    ensures Nothing(Handle(reg, tables, r), tables)
  {
    hide Known, CoercedAll, Gate, Publish;
  }

  // ----- Whole runs ----------------------------------------------------------------

  predicate FromCustomers(rs: seq<Request>) {
    forall i :: 0 <= i < |rs| ==> rs[i].Create? || rs[i].Update? || rs[i].Delete?
  }

  /** The row is there with the same columns in both. */
  predicate SameRow(a: Tables, b: Tables, name: string, id: string) {
    id in RowsOf(a, name) && id in RowsOf(b, name) && RowsOf(a, name)[id] == RowsOf(b, name)[id]
  }

  /** A customer's request that changes or removes a row is an update or a delete for which it is within reach. */
  lemma ChangedWithinReach(reg: Collections, tables: Tables, r: Request, name: string, id: string)
    requires r.Create? || r.Update? || r.Delete?
    requires id in RowsOf(tables, name) && !SameRow(tables, Handle(reg, tables, r).tables, name, id)
    ensures r.name == name && name in reg && !r.Create? && r.id == id
    ensures WithinReach(reg[name], RowsOf(tables, name), id, reg[name].Rule(OpOf(r)), r.subj)
  {
    hide WithinReach;
    if r.name !in reg {
      DeniedIsRefused(reg, tables, r);
    } else if r.Create? {
      CreateSucceedsIff(reg, tables, r);
      hide StoredAsSent, AllColumns, Handle;
    } else if r.Update? {
      UpdateSucceedsIff(reg, tables, r);
      hide Overwritten, AllColumns, Handle, Immutable;
    } else {
      DeleteSucceedsIff(reg, tables, r);
      hide Handle;
    }
  }

  /** Where updates and deletes are denied, no run of customers ever changes or removes a row. */
  lemma {:induction false} DeniedRowsStand(
      reg: Collections, tables: Tables, rs: seq<Request>, n: nat, name: string, id: string)
    requires FromCustomers(rs) && n <= |rs| && name in reg && id in RowsOf(tables, name)
    requires reg[name].Rule(Op.Update) == Denied && reg[name].Rule(Op.Delete) == Denied
    ensures SameRow(tables, Served(reg, tables, rs, n), name, id)
  {
    hide Handle;
    if n > 0 {
      DeniedRowsStand(reg, tables, rs, n - 1, name, id);
      var before := Served(reg, tables, rs, n - 1);
      if !SameRow(before, Handle(reg, before, rs[n - 1]).tables, name, id) {
        ChangedWithinReach(reg, before, rs[n - 1], name, id);
      }
    }
  }

  /** And where creates are denied, none ever adds one. */
  lemma {:induction false} DeniedRowsStayAway(
      reg: Collections, tables: Tables, rs: seq<Request>, n: nat, name: string, id: string)
    requires FromCustomers(rs) && n <= |rs| && name in reg && id !in RowsOf(tables, name)
    requires reg[name].Rule(Op.Create) == Denied
    ensures id !in RowsOf(Served(reg, tables, rs, n), name)
  {
    if n > 0 {
      hide Handle;
      DeniedRowsStayAway(reg, tables, rs, n - 1, name, id);
      if id in RowsOf(Served(reg, tables, rs, n), name) {
        AddedByCreate(reg, Served(reg, tables, rs, n - 1), rs[n - 1], name, id);
      }
    }
  }

  lemma AddedByCreate(reg: Collections, tables: Tables, r: Request, name: string, id: string)
    requires r.Create? || r.Update? || r.Delete?
    requires id !in RowsOf(tables, name) && id in RowsOf(Handle(reg, tables, r).tables, name)
    ensures r.Create? && r.name == name && name in reg && reg[name].Rule(Op.Create) != Denied
  {
    if r.name !in reg {
      DeniedIsRefused(reg, tables, r);
    } else if r.Create? {
      CreateSucceedsIff(reg, tables, r);
      hide StoredAsSent, AllColumns, Handle;
    } else if r.Update? {
      UpdateSucceedsIff(reg, tables, r);
      hide Overwritten, AllColumns, Handle, Immutable;
    } else {
      DeleteSucceedsIff(reg, tables, r);
      hide Handle;
    }
  }

  /**
   Where updates and deletes are left to owners (or to nobody), a subject's row stands,
   as it is, through any run of other customers' requests, whoever may read or create.
   */
  lemma {:induction false} OwnersRowsStand(
      reg: Collections, tables: Tables, rs: seq<Request>, n: nat, name: string, id: string, subj: string)
    requires FromCustomers(rs) && n <= |rs| && forall i :: 0 <= i < |rs| ==> rs[i].subj != subj
    requires name in reg && reg[name].Rule(Op.Update) != Shared && reg[name].Rule(Op.Delete) != Shared
    requires id in RowsOf(tables, name) && BelongsTo(reg[name], RowsOf(tables, name)[id], subj)
    ensures SameRow(tables, Served(reg, tables, rs, n), name, id)
  {
    hide Handle;
    if n > 0 {
      OwnersRowsStand(reg, tables, rs, n - 1, name, id, subj);
      var before := Served(reg, tables, rs, n - 1);
      if !SameRow(before, Handle(reg, before, rs[n - 1]).tables, name, id) {
        ChangedWithinReach(reg, before, rs[n - 1], name, id);
      }
    }
  }

  // ----- From the database's tables to who reads what -------------------------------

  /**
   With no policies at all, a table with an owner_id is its owners' alone: for anyone
   else a row is as good as absent, to read, to change or to delete.
   */
  lemma DefaultsArePrivate(db: Database, i: nat, tables: Tables, id: string, subj: string, body: Record, env: Env)
    requires DistinctNames(db.tables) && i < |db.tables| && db.policies == []
    requires Loaded(db.tables, db.policies).Success? && Servable(db.tables[i]) && HasOwnerId(db.tables[i])
    requires var rows := RowsOf(tables, db.tables[i].name);
      id in rows && !("owner_id" in rows[id] && rows[id]["owner_id"] == Text(subj))
    ensures var reg, name := Loaded(db.tables, db.policies).value, db.tables[i].name;
      && Get(reg, tables, name, id, subj) == Reply(404, None)
      && Nothing(Handle(reg, tables, Request.Update(name, id, body, subj, env)), tables)
      && Nothing(Handle(reg, tables, Request.Delete(name, id, subj, env)), tables)
      && (env.refusal.None? ==>
            Handle(reg, tables, Request.Delete(name, id, subj, env)).reply == Reply(404, None))
  {
    var reg, t := Loaded(db.tables, db.policies).value, db.tables[i];
    DefaultsToOwner(db, i, Op.Read);
    DefaultsToOwner(db, i, Op.Update);
    DefaultsToOwner(db, i, Op.Delete);
    hide Loaded, Servable, DistinctNames, HasOwnerId;
    GetSucceedsIff(reg, tables, t.name, id, subj);
    UpdateSucceedsIff(reg, tables, Request.Update(t.name, id, body, subj, env));
    DeleteSucceedsIff(reg, tables, Request.Delete(t.name, id, subj, env));
    NotFoundHasNoRecord(reg, tables, Request.Delete(t.name, id, subj, env));
  }

  lemma DefaultsToOwner(db: Database, i: nat, op: Op)
    requires DistinctNames(db.tables) && i < |db.tables| && db.policies == []
    requires Loaded(db.tables, db.policies).Success? && Servable(db.tables[i]) && HasOwnerId(db.tables[i])
    ensures var reg, name := Loaded(db.tables, db.policies).value, db.tables[i].name;
      name in reg && reg[name].ownerColumn == "owner_id" && reg[name].Rule(op) == Owner
  {
    ServedExactly(db, i, op);
    var k: nat :| OnlyKey(db.tables[i].columns, k);
    DescribedIs(db.tables[i], k);
    hide Loaded, Described, HasOwnerId, DistinctNames;
  }

  lemma NotFoundHasNoRecord(reg: Collections, tables: Tables, r: Request)
    requires r.Delete?
    ensures Handle(reg, tables, r).reply.record == None
  {
  }

  // ----- Erasure and export -----------------------------------------------------------

  /** An export has each owned collection that is not read-denied, and in it exactly the subject's rows. */
  lemma ExportIsExact(reg: Collections, tables: Tables, subj: string, name: string, id: string)
    ensures name in Export(reg, tables, subj) <==>
      name in reg && reg[name].ownerColumn != "" && reg[name].Rule(Op.Read) != Denied
    ensures name in Export(reg, tables, subj) ==>
      var exported, rows := Export(reg, tables, subj)[name], RowsOf(tables, name);
      && (id in exported <==> id in rows && BelongsTo(reg[name], rows[id], subj))
      && (id in exported ==> exported[id] == rows[id])
  {
  }

  lemma {:induction false} NoticesCount(
      reg: Collections, tables: Tables, order: seq<string>, subj: string, n: nat,
      name: string, id: string, gate: string)
    requires OwnedOrder(reg, order) && n <= |order|
    ensures AllNotices(reg, tables, order, subj, n)[Notice(Deleted(name, id), gate)] ==
      if name in order[..n] && gate == subj && reg[name].Rule(Op.Read) != Denied
         && id in RowsOf(tables, name) && BelongsTo(reg[name], RowsOf(tables, name)[id], subj) then 1 else 0
  {
    hide OwnedRows, NoticesFor, BelongsTo;
    if n > 0 {
      var last := order[n - 1];
      NoticesCount(reg, tables, order, subj, n - 1, name, id, gate);
      NoticesOfOne(reg[last], last, RowsOf(tables, last), subj, name, id, gate);
      assert order[..n] == order[..n - 1] + [last];
      assert last !in order[..n - 1];
      hide OwnedOrder, RowsOf;
    }
  }

  lemma NoticesOfOne(c: Collection, own: string, rows: Rows, subj: string, name: string, id: string, gate: string)
    ensures Notice(Deleted(name, id), gate) in NoticesFor(c, own, OwnedRows(c, rows, subj).Keys, subj) <==>
      name == own && gate == subj && c.Rule(Op.Read) != Denied && id in rows && BelongsTo(c, rows[id], subj)
  {
  }

  /**
   A whole erasure tells of each row it removes exactly once, to the subject, and of no
   other; rows that nobody may read are not told of.
   */
  lemma ErasureTellsOnce(reg: Collections, tables: Tables, order: seq<string>, subj: string, name: string, id: string)
    requires OwnedOrder(reg, order) && name in reg && reg[name].Rule(Op.Read) != Denied
    ensures var gone := id in RowsOf(tables, name) && id !in RowsOf(Erased(reg, tables, order, subj, |order|), name);
      AllNotices(reg, tables, order, subj, |order|)[Notice(Deleted(name, id), subj)] == if gone then 1 else 0
  {
    ErasureIsExact(reg, tables, order, subj, name, id);
    NoticesCount(reg, tables, order, subj, |order|, name, id, subj);
    assert order[..|order|] == order;
    hide Erased, AllNotices;
    if name in order {
      var i :| 0 <= i < |order| && order[i] == name;
    }
  }
}
