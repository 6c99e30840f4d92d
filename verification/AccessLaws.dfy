/**
 What auto-REST's access rules amount to: realtime visibility against REST read
 visibility, who owns a row, and what one subject's steps can change for another.
 */
module AccessLaws {
  import opened Prelude
  import opened Broker
  import opened Registry
  import opened AccessRules

  // ----- Realtime visibility is REST read visibility ---------------------------

  predicate CanRead(reg: Collections, tables: Tables, name: string, id: string, subj: string) {
    Get(reg, tables, name, id, subj).status == 200
  }

  /** Told who may read, and nobody else. */
  ghost predicate ToldExactly(reg: Collections, tables: Tables, name: string, id: string, gate: string) {
    forall subj :: MaySee(gate, subj) <==> CanRead(reg, tables, name, id, subj)
  }

  /** The row names an owner a subject can equal. */
  predicate NamedOwner(c: Collection, row: Record) {
    c.ownerColumn in row && row[c.ownerColumn].Text? && row[c.ownerColumn].text != ""
  }

  predicate Deletes(r: Request) {
    r.Delete? || r.AdminDelete?
  }

  /** The row the request is about. */
  function Target(c: Collection, r: Request): string {
    match r
    case Create(_, body, subj, env) => Printed(WithKey(c, OwnedBody(c, body, subj), env.newKey)[c.pkColumn])
    case AdminCreate(_, body, env) => Printed(WithKey(c, body, env.newKey)[c.pkColumn])
    case Update(_, id, _, _, _) => id
    case Delete(_, id, _, _) => id
    case AdminUpdate(_, id, _, _) => id
    case AdminDelete(_, id, _) => id
  }

  /** The tables in which the event's row is to be looked up: as they were for a deletion, else as they are now. */
  function Seen(reg: Collections, tables: Tables, r: Request): Tables {
    if Deletes(r) then tables else Handle(reg, tables, r).tables
  }

  lemma SomeoneElse(text: string) returns (subj: string)
    ensures subj != text
  {
    subj := text + "x";
  }

  /** The heart of it: gating by the row's owner is exact unless the owner is no name at all. */
  lemma GateIsExactIff(reg: Collections, tables: Tables, name: string, id: string)
    requires name in reg && id in RowsOf(tables, name) && reg[name].Rule(Op.Read) != Denied
    requires reg[name].Rule(Op.Read) == Owner ==> reg[name].ownerColumn != ""
    ensures var row := RowsOf(tables, name)[id];
      ToldExactly(reg, tables, name, id, Gate(reg[name], row)) <==>
        reg[name].Rule(Op.Read) == Shared || NamedOwner(reg[name], row)
  {
    var c, row := reg[name], RowsOf(tables, name)[id];
    if c.Rule(Op.Read) == Owner && !NamedOwner(c, row) {
      if c.ownerColumn in row && row[c.ownerColumn].Number? {
        var printed := Printed(row[c.ownerColumn]);
        assert MaySee(Gate(c, row), printed) && !CanRead(reg, tables, name, id, printed);
      } else {
        var subj := SomeoneElse("");
        assert MaySee(Gate(c, row), subj) && !CanRead(reg, tables, name, id, subj);
      }
    }
  }

  lemma NobodyIsExactNever(reg: Collections, tables: Tables, name: string, id: string)
    requires name in reg && reg[name].Rule(Op.Read) == Owner
    ensures !ToldExactly(reg, tables, name, id, "")
  {
    var row := if id in RowsOf(tables, name) then RowsOf(tables, name)[id] else map[];
    var c := reg[name];
    var subj := SomeoneElse(if c.ownerColumn in row then Printed(row[c.ownerColumn]) else "");
    assert MaySee("", subj) && !CanRead(reg, tables, name, id, subj);
  }

  /** What a notice is about: the row it carries is the row GET finds. */
  lemma NoticeIsOfTarget(reg: Collections, tables: Tables, r: Request)
    requires Handle(reg, tables, r).notice.Some?
    ensures r.name in reg
    ensures var id := Target(reg[r.name], r);
      var notice := Handle(reg, tables, r).notice.value;
      && id in RowsOf(Seen(reg, tables, r), r.name)
      && (Deletes(r) ==> notice.ev == Deleted(r.name, id))
      && (!Deletes(r) ==>
            var row := RowsOf(Seen(reg, tables, r), r.name)[id];
            && notice.gate == Gate(reg[r.name], row)
            && notice.ev == (if r.Create? || r.AdminCreate? then Created(r.name, row) else Updated(r.name, row)))
  {
    hide Stored, CoercedAll, Gate;
  }

  /**
   Nothing goes untold and nothing else is told: unless reads are denied (and
   then nobody can read any row) or the row could not be fetched back, a request
   publishes exactly when it succeeds in writing.
   */
  lemma WritesAreTold(reg: Collections, tables: Tables, r: Request)
    requires r.name in reg
    ensures var e := Handle(reg, tables, r);
      && (e.notice.Some? ==> e.reply.status in {200, 201, 204} && reg[r.name].Rule(Op.Read) != Denied)
      && (e.tables != tables && e.notice.None? ==> reg[r.name].Rule(Op.Read) == Denied || e.reply.status == 500)
      && (e.reply.status == 500 && e.tables != tables ==> r.env.lookupFails)
      && (reg[r.name].Rule(Op.Read) == Denied ==> forall id, subj :: !CanRead(reg, e.tables, r.name, id, subj))
  {
    hide Stored, CoercedAll, Gate, WithKey, OwnedBody, Stripped, OwnerLookup, Known;
  }

  /**
   An event reaches exactly the subjects whose GET of the row succeeds (after
   the write, or before the deletion) if and only if reads are shared or the row
   names its owner, and for a deletion the owner could be looked up. The comment
   at handlers.go:394-396 says a failed lookup reaches no one; it reaches everyone.
   */
  lemma EventsMatchReadsIff(reg: Collections, tables: Tables, r: Request)
    requires Sound(reg) && Handle(reg, tables, r).notice.Some?
    ensures r.name in reg
    ensures var c := reg[r.name];
      var id := Target(c, r);
      && id in RowsOf(Seen(reg, tables, r), r.name)
      && (ToldExactly(reg, Seen(reg, tables, r), r.name, id, Handle(reg, tables, r).notice.value.gate) <==>
            c.Rule(Op.Read) == Shared
            || (NamedOwner(c, RowsOf(Seen(reg, tables, r), r.name)[id]) && !(Deletes(r) && r.env.lookupFails)))
  {
    hide Handle, Sound, ToldExactly, Target, NamedOwner, CanRead;
    NoticeIsOfTarget(reg, tables, r);
    WritesAreTold(reg, tables, r);
    var c, id := reg[r.name], Target(reg[r.name], r);
    if c.Rule(Op.Read) == Owner {
      OwnerRuleHasOwner(reg, r.name, Op.Read);
    }
    GateIsExactIff(reg, Seen(reg, tables, r), r.name, id);
    if Deletes(r) {
      DeletionGate(reg, tables, r);
      if c.Rule(Op.Read) == Owner && r.env.lookupFails {
        NobodyIsExactNever(reg, tables, r.name, id);
      }
    }
  }

  lemma OwnerRuleHasOwner(reg: Collections, name: string, op: Op)
    requires Sound(reg) && name in reg && reg[name].Rule(op) == Owner
    ensures reg[name].ownerColumn == OWNER_COLUMN && reg[name].HasColumn(OWNER_COLUMN)
  {
    assert SoundCollection(name, reg[name]);
    assert op in reg[name].rules && reg[name].rules[op] == Owner;
    hide IsReserved, SingleKey;
  }

  lemma DeletionGate(reg: Collections, tables: Tables, r: Request)
    requires Deletes(r) && Handle(reg, tables, r).notice.Some? && r.name in reg
    requires Target(reg[r.name], r) in RowsOf(tables, r.name)
    ensures var c := reg[r.name];
      Handle(reg, tables, r).notice.value.gate ==
        if c.Rule(Op.Read) == Owner && r.env.lookupFails then "" else Gate(c, RowsOf(tables, r.name)[Target(c, r)])
  {
  }

  /** A request leaves every row but its target alone. */
  lemma OnlyTheTarget(reg: Collections, tables: Tables, r: Request, name: string, id: string)
    requires r.name !in reg || name != r.name || id != Target(reg[r.name], r)
    ensures var e := Handle(reg, tables, r);
      && (id in RowsOf(e.tables, name) <==> id in RowsOf(tables, name))
      && (id in RowsOf(tables, name) ==> RowsOf(e.tables, name)[id] == RowsOf(tables, name)[id])
  {
    hide Stored, CoercedAll, Gate, WithKey, OwnedBody, Stripped, OwnerLookup, Known, Publish, Found, Owned;
  }

  // ----- Over whole runs -----------------------------------------------------------

  datatype Step = Serve(r: Request) | EraseOwned(order: seq<string>, subj: string, upTo: nat)

  predicate Possible(reg: Collections, step: Step) {
    step.EraseOwned? ==> OwnedOrder(reg, step.order) && step.upTo <= |step.order|
  }

  function After(reg: Collections, tables: Tables, step: Step): Tables
    requires Possible(reg, step)
  {
    match step
    case Serve(r) => Handle(reg, tables, r).tables
    case EraseOwned(order, subj, upTo) => Erased(reg, tables, order, subj, upTo)
  }

  /** Every row of an owner-scoped collection names its owner. */
  ghost predicate OwnersNamed(reg: Collections, tables: Tables) {
    forall name, id :: name in reg && reg[name].ownerColumn != "" && id in RowsOf(tables, name) ==>
      NamedOwner(reg[name], RowsOf(tables, name)[id])
  }

  /** What the exactness of every event asks of a request: a subject, or an administrator naming an owner. */
  predicate Careful(reg: Collections, r: Request) {
    match r
    case Create(_, _, subj, _) => subj != ""
    case Update(_, _, _, _, _) => true
    case Delete(_, _, _, env) => !env.lookupFails
    case AdminDelete(_, _, env) => !env.lookupFails
    case AdminCreate(name, body, env) =>
      name in reg && reg[name].ownerColumn != "" ==>
        NamedOwner(reg[name], Stored(reg[name], WithKey(reg[name], body, env.newKey), env.defaults))
    case AdminUpdate(name, _, body, _) =>
      name in reg && reg[name].ownerColumn in body && reg[name].ownerColumn != "" ==>
        NamedOwner(reg[name], CoercedAll(reg[name], body))
  }

  lemma CreatedRowNamesSubject(c: Collection, body: Record, subj: string, env: Env)
    requires c.ownerColumn != "" && c.HasColumn(c.ownerColumn) && subj != ""
    ensures Owned(c, Stored(c, WithKey(c, OwnedBody(c, body, subj), env.newKey), env.defaults), subj)
  {
    var i :| 0 <= i < |c.columns| && c.columns[i].name == c.ownerColumn;
    assert c.ownerColumn in ColumnNames(c);
  }

  lemma OwnersHaveColumn(reg: Collections, name: string)
    requires Sound(reg) && name in reg && reg[name].ownerColumn != ""
    ensures reg[name].HasColumn(reg[name].ownerColumn)
  {
    assert SoundCollection(name, reg[name]);
    hide IsReserved, SingleKey;
  }

  /** The row a request leaves at its target is the old one, a stored one or a changed one. */
  predicate Leaves(c: Collection, before: Rows, r: Request, id: string, row: Record) {
    if id in before then
      || row == before[id]
      || (r.Update? && row == before[id] + CoercedAll(c, Stripped(c, r.body))
          && (c.Rule(Op.Update) == Owner ==> Owned(c, before[id], r.subj)))
      || (r.AdminUpdate? && row == before[id] + CoercedAll(c, r.body - {c.pkColumn}))
    else
      || (r.Create? && row == Stored(c, WithKey(c, OwnedBody(c, r.body, r.subj), r.env.newKey), r.env.defaults))
      || (r.AdminCreate? && row == Stored(c, WithKey(c, r.body, r.env.newKey), r.env.defaults))
  }

  /** Where a request leaves its target, if it leaves it at all. */
  lemma TargetAfter(reg: Collections, tables: Tables, r: Request)
    requires Sound(reg) && r.name in reg
    requires Target(reg[r.name], r) in RowsOf(Handle(reg, tables, r).tables, r.name)
    ensures var c, id := reg[r.name], Target(reg[r.name], r);
      Leaves(c, RowsOf(tables, r.name), r, id, RowsOf(Handle(reg, tables, r).tables, r.name)[id])
  {
    hide Stored, CoercedAll, Gate, WithKey, OwnedBody, Stripped, OwnerLookup, Known, Sound, Publish, Found, Owned;
  }

  lemma RequestKeepsOwnersNamed(reg: Collections, tables: Tables, r: Request)
    requires Sound(reg) && OwnersNamed(reg, tables) && Careful(reg, r)
    ensures OwnersNamed(reg, Handle(reg, tables, r).tables)
  {
    hide Handle, Sound, Target, Stored, WithKey, OwnedBody;
    var after := Handle(reg, tables, r).tables;
    forall name, id | name in reg && reg[name].ownerColumn != "" && id in RowsOf(after, name)
      ensures NamedOwner(reg[name], RowsOf(after, name)[id])
    {
      if r.name !in reg || name != r.name || id != Target(reg[r.name], r) {
        OnlyTheTarget(reg, tables, r, name, id);
      } else {
        OwnersHaveColumn(reg, name);
        TargetAfter(reg, tables, r);
        if r.Create? {
          CreatedRowNamesSubject(reg[name], r.body, r.subj, r.env);
        }
      }
    }
  }

  // ----- Bulk erasure ----------------------------------------------------------------

  lemma {:induction false} ErasedRow(
      reg: Collections, tables: Tables, order: seq<string>, subj: string, n: nat, name: string, id: string)
    requires OwnedOrder(reg, order) && n <= |order|
    ensures var after := Erased(reg, tables, order, subj, n);
      && (id in RowsOf(after, name) <==>
            id in RowsOf(tables, name) && !(name in order[..n] && Owned(reg[name], RowsOf(tables, name)[id], subj)))
      && (id in RowsOf(after, name) ==> RowsOf(after, name)[id] == RowsOf(tables, name)[id])
  {
    if n > 0 {
      ErasedRow(reg, tables, order, subj, n - 1, name, id);
      assert order[..n] == order[..n - 1] + [order[n - 1]];
      hide Owned;
    }
  }

  /** Erasing every owned collection removes exactly the subject's own rows. */
  lemma ErasureIsExact(reg: Collections, tables: Tables, order: seq<string>, subj: string, name: string, id: string)
    requires OwnedOrder(reg, order)
    ensures var after := Erased(reg, tables, order, subj, |order|);
      && (id in RowsOf(after, name) <==>
            id in RowsOf(tables, name)
            && !(name in reg && reg[name].ownerColumn != "" && Owned(reg[name], RowsOf(tables, name)[id], subj)))
      && (id in RowsOf(after, name) ==> RowsOf(after, name)[id] == RowsOf(tables, name)[id])
  {
    ErasedRow(reg, tables, order, subj, |order|, name, id);
    assert order[..|order|] == order;
    if name in order {
      var i :| 0 <= i < |order| && order[i] == name;
    }
  }

  lemma {:induction false} NoticesAreOfOwnRows(
      reg: Collections, tables: Tables, order: seq<string>, subj: string, n: nat, notice: Notice)
    requires OwnedOrder(reg, order) && n <= |order| && notice in AllNotices(reg, tables, order, subj, n)
    ensures notice.gate == subj && notice.ev.Deleted? && notice.ev.collection in reg
    ensures reg[notice.ev.collection].Rule(Op.Read) != Denied
    ensures notice.ev.id in OwnedRows(reg[notice.ev.collection], RowsOf(tables, notice.ev.collection), subj)
  {
    if notice in AllNotices(reg, tables, order, subj, n - 1) {
      NoticesAreOfOwnRows(reg, tables, order, subj, n - 1, notice);
    }
  }

  /**
   Each event of a bulk erasure reaches only subjects who could read the row
   just before; all of them if and only if the collection's read rule is owner.
   */
  lemma ErasureTellsOnlyReaders(
      reg: Collections, tables: Tables, order: seq<string>, subj: string, n: nat, notice: Notice, other: string)
    requires OwnedOrder(reg, order) && n <= |order| && notice in AllNotices(reg, tables, order, subj, n) && subj != ""
    ensures notice.ev.Deleted? && notice.ev.collection in reg
    ensures MaySee(notice.gate, other) ==> CanRead(reg, tables, notice.ev.collection, notice.ev.id, other)
    ensures ToldExactly(reg, tables, notice.ev.collection, notice.ev.id, notice.gate) <==>
      reg[notice.ev.collection].Rule(Op.Read) == Owner
  {
    NoticesAreOfOwnRows(reg, tables, order, subj, n, notice);
    var name := notice.ev.collection;
    if reg[name].Rule(Op.Read) == Shared {
      var stranger := SomeoneElse(subj);
      assert CanRead(reg, tables, name, notice.ev.id, stranger) && !MaySee(notice.gate, stranger);
    }
  }

  lemma ErasureKeepsOwnersNamed(reg: Collections, tables: Tables, order: seq<string>, subj: string, n: nat)
    requires OwnedOrder(reg, order) && n <= |order| && OwnersNamed(reg, tables)
    ensures OwnersNamed(reg, Erased(reg, tables, order, subj, n))
  {
    forall name, id | name in reg && reg[name].ownerColumn != ""
      && id in RowsOf(Erased(reg, tables, order, subj, n), name)
      ensures NamedOwner(reg[name], RowsOf(Erased(reg, tables, order, subj, n), name)[id])
    {
      ErasedRow(reg, tables, order, subj, n, name, id);
    }
  }

  // ----- Every event of every run --------------------------------------------------

  predicate CarefulStep(reg: Collections, step: Step) {
    Possible(reg, step) && match step
      case Serve(r) => Careful(reg, r)
      case EraseOwned(_, subj, _) => subj != ""
  }

  predicate CarefulRun(reg: Collections, steps: seq<Step>) {
    forall i :: 0 <= i < |steps| ==> CarefulStep(reg, steps[i])
  }

  function AfterAll(reg: Collections, tables: Tables, steps: seq<Step>, n: nat): Tables
    requires n <= |steps| && CarefulRun(reg, steps)
  {
    if n == 0 then tables else After(reg, AfterAll(reg, tables, steps, n - 1), steps[n - 1])
  }

  lemma {:induction false} RunKeepsOwnersNamed(reg: Collections, tables: Tables, steps: seq<Step>, n: nat)
    requires Sound(reg) && OwnersNamed(reg, tables) && CarefulRun(reg, steps) && n <= |steps|
    ensures OwnersNamed(reg, AfterAll(reg, tables, steps, n))
  {
    hide Sound, OwnersNamed;
    if n > 0 {
      RunKeepsOwnersNamed(reg, tables, steps, n - 1);
      var before := AfterAll(reg, tables, steps, n - 1);
      match steps[n - 1]
      case Serve(r) => RequestKeepsOwnersNamed(reg, before, r);
      case EraseOwned(order, subj, upTo) => ErasureKeepsOwnersNamed(reg, before, order, subj, upTo);
    }
  }

  /**
   Over any run that starts with every owner named (no rows, say), by customers
   with a subject and administrators who name owners: the n-th step's event, if it
   is a create, update or delete, reaches exactly the subjects who can GET that row.
   */
  lemma EveryEventIsExact(reg: Collections, tables: Tables, steps: seq<Step>, n: nat)
    requires Sound(reg) && OwnersNamed(reg, tables) && CarefulRun(reg, steps) && n < |steps| && steps[n].Serve?
    ensures var before := AfterAll(reg, tables, steps, n);
      var r := steps[n].r;
      Handle(reg, before, r).notice.Some? ==>
        && r.name in reg
        && ToldExactly(reg, Seen(reg, before, r), r.name, Target(reg[r.name], r),
                       Handle(reg, before, r).notice.value.gate)
  {
    RunKeepsOwnersNamed(reg, tables, steps, n);
    RunKeepsOwnersNamed(reg, tables, steps, n + 1);
    var before, r := AfterAll(reg, tables, steps, n), steps[n].r;
    assert AfterAll(reg, tables, steps, n + 1) == After(reg, before, steps[n]);
    if Handle(reg, before, r).notice.Some? {
      EventIsExactWhenNamed(reg, before, r);
    }
  }

  lemma EventIsExactWhenNamed(reg: Collections, tables: Tables, r: Request)
    requires Sound(reg) && Careful(reg, r) && OwnersNamed(reg, Seen(reg, tables, r))
    requires Handle(reg, tables, r).notice.Some?
    ensures r.name in reg
    ensures ToldExactly(reg, Seen(reg, tables, r), r.name, Target(reg[r.name], r),
      Handle(reg, tables, r).notice.value.gate)
  {
    EventsMatchReadsIff(reg, tables, r);
    var c := reg[r.name];
    WritesAreTold(reg, tables, r);
    if c.Rule(Op.Read) == Owner {
      OwnerRuleHasOwner(reg, r.name, Op.Read);
    }
    hide Handle, Sound, ToldExactly, Target;
  }

  // ----- Ownership never moves ---------------------------------------------------------

  predicate ByCustomer(r: Request) {
    (r.Create? || r.Update? || r.Delete?) && r.subj != ""
  }

  predicate ByCustomers(rs: seq<Request>) {
    forall i :: 0 <= i < |rs| ==> ByCustomer(rs[i])
  }

  function Served(reg: Collections, tables: Tables, rs: seq<Request>, n: nat): Tables
    requires n <= |rs|
  {
    if n == 0 then tables else Handle(reg, Served(reg, tables, rs, n - 1), rs[n - 1]).tables
  }

  /** Who last brought the row into being during the first n requests. */
  function Creator(reg: Collections, tables: Tables, rs: seq<Request>, n: nat, name: string, id: string): Option<string>
    requires n <= |rs| && ByCustomers(rs)
  {
    if n == 0 then None
    else
      var before, after := RowsOf(Served(reg, tables, rs, n - 1), name), RowsOf(Served(reg, tables, rs, n), name);
      if id !in before && id in after then Some(rs[n - 1].subj) else Creator(reg, tables, rs, n - 1, name, id)
  }

  lemma RequestKeepsOwner(reg: Collections, tables: Tables, r: Request, name: string, id: string)
    requires Sound(reg) && ByCustomer(r) && name in reg && reg[name].ownerColumn != ""
    requires id in RowsOf(Handle(reg, tables, r).tables, name)
    ensures var row := RowsOf(Handle(reg, tables, r).tables, name)[id];
      if id in RowsOf(tables, name) then
        forall subj :: Owned(reg[name], row, subj) <==> Owned(reg[name], RowsOf(tables, name)[id], subj)
      else Owned(reg[name], row, r.subj)
  {
    if r.name !in reg || name != r.name || id != Target(reg[r.name], r) {
      OnlyTheTarget(reg, tables, r, name, id);
    } else {
      OwnersHaveColumn(reg, name);
      TargetAfter(reg, tables, r);
      if r.Create? {
        CreatedRowNamesSubject(reg[name], r.body, r.subj, r.env);
      }
    }
  }

  /**
   Over any run of customer requests, under any rules, a row belongs to the
   subject whose create brought it about, or, if no create of the run did, to
   whom it belonged at the start.
   */
  lemma {:induction false} OwnerIsCreator(
      reg: Collections, tables: Tables, rs: seq<Request>, n: nat, name: string, id: string, subj: string)
    requires Sound(reg) && ByCustomers(rs) && n <= |rs| && name in reg && reg[name].ownerColumn != ""
    requires id in RowsOf(Served(reg, tables, rs, n), name)
    ensures var creator := Creator(reg, tables, rs, n, name, id);
      var row := RowsOf(Served(reg, tables, rs, n), name)[id];
      if creator.Some? then Owned(reg[name], row, creator.value)
      else
        && id in RowsOf(tables, name)
        && (Owned(reg[name], row, subj) <==> Owned(reg[name], RowsOf(tables, name)[id], subj))
  {
    hide Handle, Owned, Sound;
    if n > 0 {
      var before := Served(reg, tables, rs, n - 1);
      RequestKeepsOwner(reg, before, rs[n - 1], name, id);
      if id in RowsOf(before, name) {
        OwnerIsCreator(reg, tables, rs, n - 1, name, id, subj);
      }
    }
  }

  // ----- Private collections -----------------------------------------------------------

  predicate Private(c: Collection) {
    c.Rule(Op.Read) == Owner && c.Rule(Op.Update) == Owner && c.Rule(Op.Delete) == Owner
  }

  /** What one subject sees in a private collection, no request of another can change. */
  lemma OthersCannotInterfere(reg: Collections, tables: Tables, r: Request, name: string, subj: string)
    requires Sound(reg) && ByCustomer(r) && r.subj != subj && name in reg && Private(reg[name])
    ensures List(reg, Handle(reg, tables, r).tables, name, subj) == List(reg, tables, name, subj)
  {
    OwnerRuleHasOwner(reg, name, Op.Read);
    var after := Handle(reg, tables, r).tables;
    forall id
      ensures VisibleAlike(reg, tables, after, name, id, subj)
    {
      OtherCannotTouch(reg, tables, r, name, id, subj);
    }
    ListsAlike(reg, tables, after, name, subj);
  }

  predicate Visible(c: Collection, rows: Rows, id: string, subj: string) {
    id in rows && Owned(c, rows[id], subj)
  }

  predicate VisibleAlike(reg: Collections, a: Tables, b: Tables, name: string, id: string, subj: string)
    requires name in reg
  {
    var c, x, y := reg[name], RowsOf(a, name), RowsOf(b, name);
    (Visible(c, x, id, subj) <==> Visible(c, y, id, subj)) && (Visible(c, x, id, subj) ==> x[id] == y[id])
  }

  lemma ListsAlike(reg: Collections, a: Tables, b: Tables, name: string, subj: string)
    requires name in reg && reg[name].Rule(Op.Read) == Owner
    requires forall id :: VisibleAlike(reg, a, b, name, id, subj)
    ensures List(reg, a, name, subj) == List(reg, b, name, subj)
  {
    var x, y := List(reg, a, name, subj).value, List(reg, b, name, subj).value;
    forall id
      ensures (id in x <==> id in y) && (id in x ==> x[id] == y[id])
    {
      assert VisibleAlike(reg, a, b, name, id, subj);
    }
    assert x == y;
  }

  lemma OtherCannotTouch(reg: Collections, tables: Tables, r: Request, name: string, id: string, subj: string)
    requires Sound(reg) && ByCustomer(r) && r.subj != subj && name in reg && Private(reg[name])
    requires reg[name].ownerColumn != ""
    ensures VisibleAlike(reg, tables, Handle(reg, tables, r).tables, name, id, subj)
  {
    hide Handle, Sound, Target, CoercedAll, Stripped;
    var after := Handle(reg, tables, r).tables;
    if r.name !in reg || name != r.name || id != Target(reg[r.name], r) {
      OnlyTheTarget(reg, tables, r, name, id);
    } else if id in RowsOf(after, name) {
      RequestKeepsOwner(reg, tables, r, name, id);
      TargetAfter(reg, tables, r);
    } else if id in RowsOf(tables, name) {
      GoneWasOwn(reg, tables, r);
    }
  }

  lemma GoneWasOwn(reg: Collections, tables: Tables, r: Request)
    requires r.name in reg && ByCustomer(r) && Private(reg[r.name])
    requires Target(reg[r.name], r) in RowsOf(tables, r.name)
    requires Target(reg[r.name], r) !in RowsOf(Handle(reg, tables, r).tables, r.name)
    ensures Owned(reg[r.name], RowsOf(tables, r.name)[Target(reg[r.name], r)], r.subj)
  {
    hide Stored, CoercedAll, Gate, WithKey, OwnedBody, Stripped, OwnerLookup, Known;
  }

  // ----- Lists and exports -------------------------------------------------------------

  /** A list holds exactly the rows GET returns. */
  lemma ListIsWhatGetReads(reg: Collections, tables: Tables, name: string, subj: string, id: string)
    ensures List(reg, tables, name, subj).Some? ==>
      var rows := List(reg, tables, name, subj).value;
      && (id in rows <==> CanRead(reg, tables, name, id, subj))
      && (id in rows ==> Get(reg, tables, name, id, subj) == Reply(200, Some(rows[id])))
    ensures List(reg, tables, name, subj).None? ==> !CanRead(reg, tables, name, id, subj)
  {
  }

  /** An export holds only rows its subject can GET: under an owner read rule, just what a list shows. */
  lemma ExportIsReadable(reg: Collections, tables: Tables, subj: string, name: string)
    requires name in Export(reg, tables, subj)
    ensures forall id :: id in Export(reg, tables, subj)[name] ==>
      Get(reg, tables, name, id, subj) == Reply(200, Some(Export(reg, tables, subj)[name][id]))
    ensures reg[name].Rule(Op.Read) == Owner ==> List(reg, tables, name, subj) == Some(Export(reg, tables, subj)[name])
  {
    var exported := Export(reg, tables, subj)[name];
    assert exported == OwnedRows(reg[name], RowsOf(tables, name), subj);
    if reg[name].Rule(Op.Read) == Owner {
      assert List(reg, tables, name, subj).value == exported;
    }
  }

  /** After an erasure, every export of that subject is empty. */
  lemma ErasureLeavesNothingToExport(reg: Collections, tables: Tables, order: seq<string>, subj: string, name: string)
    requires OwnedOrder(reg, order) && name in Export(reg, tables, subj)
    ensures Export(reg, Erased(reg, tables, order, subj, |order|), subj)[name] == map[]
  {
    var after := Erased(reg, tables, order, subj, |order|);
    forall id
      ensures id !in OwnedRows(reg[name], RowsOf(after, name), subj)
    {
      ErasureIsExact(reg, tables, order, subj, name, id);
    }
    hide Erased, Owned;
  }

  // ----- What was written is what is read -----------------------------------------------

  /** The columns a customer's body decides. */
  predicate Sendable(c: Collection, column: string) {
    column != c.pkColumn && (c.ownerColumn == "" || column != c.ownerColumn)
  }

  lemma CreatedRow(reg: Collections, tables: Tables, r: Request)
    requires r.Create? && Handle(reg, tables, r).reply.status == 201
    ensures r.name in reg && Known(reg[r.name], r.body)
    ensures var c, e := reg[r.name], Handle(reg, tables, r);
      var id, row := Target(c, r), Stored(c, WithKey(c, OwnedBody(c, r.body, r.subj), r.env.newKey), r.env.defaults);
      && e.reply.record == Some(row)
      && id !in RowsOf(tables, r.name) && id in RowsOf(e.tables, r.name) && RowsOf(e.tables, r.name)[id] == row
  {
    hide Stored, WithKey, OwnedBody, Known, Gate, Publish;
  }

  /**
   After a create the row is there under its key with every column the body sent,
   as sent, and the subject's own; its creator can GET it exactly as replied unless
   reads are denied.
   */
  lemma CreateIsRead(reg: Collections, tables: Tables, r: Request)
    requires Sound(reg) && r.Create? && r.subj != "" && Handle(reg, tables, r).reply.status == 201
    ensures r.name in reg
    ensures var c, e := reg[r.name], Handle(reg, tables, r);
      var id := Target(c, r);
      && e.reply.record.Some? && id !in RowsOf(tables, r.name)
      && (forall column :: column in r.body && Sendable(c, column) ==>
            column in e.reply.record.value && e.reply.record.value[column] == r.body[column])
      && (c.ownerColumn != "" ==> Owned(c, e.reply.record.value, r.subj))
      && (c.Rule(Op.Read) != Denied ==> Get(reg, e.tables, r.name, id, r.subj) == Reply(200, e.reply.record))
  {
    hide Handle, Stored, WithKey, OwnedBody, Known, Target, Sound, Owned, Sendable;
    CreatedRow(reg, tables, r);
    var c := reg[r.name];
    SentIsStored(c, r.body, r.subj, r.env);
    if c.ownerColumn != "" {
      OwnersHaveColumn(reg, r.name);
      CreatedRowNamesSubject(c, r.body, r.subj, r.env);
    } else if c.Rule(Op.Read) == Owner {
      OwnerRuleHasOwner(reg, r.name, Op.Read);
    }
  }

  lemma SentIsStored(c: Collection, body: Record, subj: string, env: Env)
    requires Known(c, body)
    ensures var row := Stored(c, WithKey(c, OwnedBody(c, body, subj), env.newKey), env.defaults);
      forall column :: column in body && Sendable(c, column) ==> column in row && row[column] == body[column]
  {
    forall column | column in body && Sendable(c, column)
      ensures column in ColumnNames(c)
    {
      assert c.HasColumn(column);
    }
  }

  /** An update that writes sets every column sent but key and owner, and changes no other. */
  lemma UpdateWritesWhatWasSent(reg: Collections, tables: Tables, r: Request)
    requires r.Update? && Handle(reg, tables, r).notice.Some?
    ensures r.name in reg && r.id in RowsOf(tables, r.name) && r.id in RowsOf(Handle(reg, tables, r).tables, r.name)
    ensures var c := reg[r.name];
      var before, after := RowsOf(tables, r.name)[r.id], RowsOf(Handle(reg, tables, r).tables, r.name)[r.id];
      && Handle(reg, tables, r).reply == Reply(200, Some(after))
      && (forall column :: column in r.body && Sendable(c, column) ==>
        column in after && after[column] == r.body[column])
      && (forall column :: !(column in r.body && Sendable(c, column)) ==>
            (column in after <==> column in before) && (column in before ==> after[column] == before[column]))
      && (c.Rule(Op.Update) == Owner ==> Owned(c, before, r.subj))
  {
    var c := reg[r.name];
    assert forall column :: column in Stripped(c, r.body) <==> column in r.body && Sendable(c, column);
    assert forall column :: Sendable(c, column) && column in r.body ==>
      Coerced(c, column, r.body[column]) == r.body[column];
    hide Gate, Publish, Known, Stripped, Sendable, Coerced;
  }

  /** Deleting what was just created leaves the rows as they were before. */
  lemma DeleteUndoesCreate(reg: Collections, tables: Tables, r: Request, d: Request)
    requires r.Create? && d.Delete? && r.name in reg && d.name == r.name && d.id == Target(reg[r.name], r)
    requires d.id !in RowsOf(tables, r.name)
    requires Handle(reg, Handle(reg, tables, r).tables, d).reply.status == 204
    ensures RowsOf(Handle(reg, Handle(reg, tables, r).tables, d).tables, r.name) == RowsOf(tables, r.name)
  {
    var middle := Handle(reg, tables, r).tables;
    var after := Handle(reg, middle, d).tables;
    forall id
      ensures id in RowsOf(after, r.name) <==> id in RowsOf(tables, r.name)
      ensures id in RowsOf(tables, r.name) ==> RowsOf(after, r.name)[id] == RowsOf(tables, r.name)[id]
    {
      if id != d.id {
        OnlyTheTarget(reg, tables, r, r.name, id);
        OnlyTheTarget(reg, middle, d, r.name, id);
      } else {
        DeletedIsGone(reg, middle, d);
      }
    }
  }

  lemma DeletedIsGone(reg: Collections, tables: Tables, d: Request)
    requires d.Delete? && d.name in reg && Handle(reg, tables, d).reply.status == 204
    ensures d.id in RowsOf(tables, d.name) && d.id !in RowsOf(Handle(reg, tables, d).tables, d.name)
  {
    hide Gate, Publish, OwnerLookup;
  }
}
