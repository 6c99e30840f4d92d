/**
 Account erasure (handleDeleteAccount in internal/server/handlers_auth.go): rows,
 files, grants, then the account, stopping at the first failure, with no
 transaction over the four.
 */
module Erasure {
  import opened Prelude
  import Broker
  import Registry
  import AccessRules
  import AccessLaws
  import FileStorage
  import GrantStorage
  import Identity

  datatype State = State(
    tables: AccessRules.Tables,
    disk: FileStorage.Disk,
    grants: GrantStorage.Store,
    db: Identity.Db)

  /**
   What an attempt runs over: the registry and its owner-scoped collections in
   name order.
   */
  datatype Site = Site(reg: Registry.Collections, order: seq<string>)

  /** How far each stage gets; one that gets to its end succeeds. */
  datatype Faults = Faults(rows: nat, files: nat, grants: nat, userFails: bool)

  ghost predicate Valid(site: Site, s: State) {
    && AccessRules.OwnedOrder(site.reg, site.order)
    && GrantStorage.AllTables(s.grants)
    && FileStorage.Distinct(s.disk.files)
  }

  /** One request: the state it leaves and whether it answers 204. */
  function Attempt(site: Site, s: State, subj: string, f: Faults): (State, bool)
    requires AccessRules.OwnedOrder(site.reg, site.order)
  {
    var s1 := s.(tables := AccessRules.Erased(site.reg, s.tables, site.order, subj, Min(f.rows, |site.order|)));
    if f.rows < |site.order| then (s1, false)
    else
      var (disk, ok) := FileStorage.ErasedFiles(s.disk, subj, f.files);
      var s2 := s1.(disk := disk);
      if !ok then (s2, false)
      else
        var s3 := s2.(grants := GrantStorage.RevokedFirst(s.grants, subj, f.grants));
        if f.grants < |GrantStorage.GRANT_TABLES| || f.userFails then (s3, false)
        else (s3.(db := Identity.WithoutUser(s.db, subj)), true)
  }

  /** One run with no fault. */
  function Clean(site: Site, s: State, subj: string): State
    requires AccessRules.OwnedOrder(site.reg, site.order)
  {
    State(AccessRules.Erased(site.reg, s.tables, site.order, subj, |site.order|),
          FileStorage.CleanFiles(s.disk, subj),
          GrantStorage.RevokedFirst(s.grants, subj, |GrantStorage.GRANT_TABLES|),
          Identity.WithoutUser(s.db, subj))
  }

  class AccountServer {
    const rest: AccessRules.RestServer
    const files: FileStorage.FileServer
    const oauth: GrantStorage.Storage
    const auth: Identity.Service

    constructor (
        rest: AccessRules.RestServer, files: FileStorage.FileServer,
        oauth: GrantStorage.Storage, auth: Identity.Service)
      ensures this.rest == rest && this.files == files && this.oauth == oauth && this.auth == auth
    {
      this.rest, this.files, this.oauth, this.auth := rest, files, oauth, auth;
    }

    function Now(): State
      reads this, rest, files, oauth, auth
    {
      State(rest.tables, files.State(), oauth.store, auth.State())
    }

    method HandleDeleteAccount(order: seq<string>, subj: string, f: Faults, now: int) returns (status: int)
      requires AccessRules.OwnedOrder(rest.reg, order) && oauth.Valid()
      modifies rest, files, oauth, auth
      ensures oauth.Valid()
      ensures (Now(), status == 204) == Attempt(Site(rest.reg, order), old(Now()), subj, f)
      ensures status != 204 ==> status == 500
    {
      var rowsGone := rest.DeleteOwned(order, subj, f.rows);
      if !rowsGone {
        return 500;
      }
      var filesGone := files.DeleteOwned(subj, f.files);
      if !filesGone {
        return 500;
      }
      var grantsGone := oauth.RevokeForSubject(subj, f.grants);
      if !grantsGone {
        return 500;
      }
      if f.userFails {
        return 500;
      }
      auth.DeleteUser(subj, now);
      return 204;
    }
  }

  // ----- Erasing again changes nothing more --------------------------------------------

  lemma {:induction false} ErasedKeys(site: Site, tables: AccessRules.Tables, subj: string, n: nat)
    requires AccessRules.OwnedOrder(site.reg, site.order) && n <= |site.order|
    ensures forall name :: name in AccessRules.Erased(site.reg, tables, site.order, subj, n) <==>
      name in tables || name in site.order[..n]
  {
    if n > 0 {
      ErasedKeys(site, tables, subj, n - 1);
      assert site.order[..n] == site.order[..n - 1] + [site.order[n - 1]];
    }
  }

  /** Erasing up to n and then up to m is erasing up to the further of the two. */
  lemma ErasedTwice(site: Site, tables: AccessRules.Tables, subj: string, n: nat, m: nat)
    requires AccessRules.OwnedOrder(site.reg, site.order) && n <= |site.order| && m <= |site.order|
    ensures var once := AccessRules.Erased(site.reg, tables, site.order, subj, n);
      AccessRules.Erased(site.reg, once, site.order, subj, m) ==
      AccessRules.Erased(site.reg, tables, site.order, subj, if n < m then m else n)
  {
    var top := if n < m then m else n;
    var once := AccessRules.Erased(site.reg, tables, site.order, subj, n);
    var a := AccessRules.Erased(site.reg, once, site.order, subj, m);
    var b := AccessRules.Erased(site.reg, tables, site.order, subj, top);
    ErasedKeys(site, tables, subj, n);
    ErasedKeys(site, once, subj, m);
    ErasedKeys(site, tables, subj, top);
    assert forall name :: name in site.order[..top] <==> name in site.order[..n] || name in site.order[..m];
    forall name, id
      ensures SameRow(a, b, name, id)
    {
      AccessLaws.ErasedRow(site.reg, tables, site.order, subj, n, name, id);
      AccessLaws.ErasedRow(site.reg, once, site.order, subj, m, name, id);
      AccessLaws.ErasedRow(site.reg, tables, site.order, subj, top, name, id);
    }
    SameTables(a, b);
  }

  predicate SameRow(a: AccessRules.Tables, b: AccessRules.Tables, name: string, id: string) {
    var x, y := AccessRules.RowsOf(a, name), AccessRules.RowsOf(b, name);
    (id in x <==> id in y) && (id in x ==> x[id] == y[id])
  }

  lemma SameTables(a: AccessRules.Tables, b: AccessRules.Tables)
    requires forall name :: name in a <==> name in b
    requires forall name, id :: SameRow(a, b, name, id)
    ensures a == b
  {
    forall name | name in a
      ensures a[name] == b[name]
    {
      forall id
        ensures (id in a[name] <==> id in b[name]) && (id in a[name] ==> a[name][id] == b[name][id])
      {
        assert SameRow(a, b, name, id);
      }
    }
  }

  lemma SomeIdsAreSome(ids: seq<string>)
    ensures ids != [] ==> FileStorage.SetOf(ids) != {}
  {
    if ids != [] {
      assert ids[0] in FileStorage.SetOf(ids);
    }
  }

  lemma FilesErasedTwice(disk: FileStorage.Disk, subj: string, upTo: nat)
    ensures FileStorage.ErasedFiles(FileStorage.CleanFiles(disk, subj), subj, upTo).0 ==
      FileStorage.CleanFiles(disk, subj)
  {
    var clean := FileStorage.CleanFiles(disk, subj);
    FileStorage.OwnedAfterKeep(disk.files, FileStorage.SetOf(FileStorage.OwnedIds(disk.files, subj)), subj);
    var left := FileStorage.OwnedIds(clean.files, subj);
    SomeIdsAreSome(left);
    FileStorage.PartlyNone(clean, left);
  }

  lemma GrantsRevokedTwice(grants: GrantStorage.Store, subj: string, n: nat, m: nat)
    ensures GrantStorage.RevokedFirst(GrantStorage.RevokedFirst(grants, subj, n), subj, m) ==
            GrantStorage.RevokedFirst(grants, subj, if n < m then m else n)
  {
    var tables := GrantStorage.GRANT_TABLES;
    var k, l := Min(n, |tables|), Min(m, |tables|);
    var top := if k < l then l else k;
    forall table
      ensures table in tables[..top] <==> table in tables[..k] || table in tables[..l]
    {
    }
    forall grants: GrantStorage.Grants
      ensures GrantStorage.WithoutSubject(GrantStorage.WithoutSubject(grants, subj), subj) ==
        GrantStorage.WithoutSubject(grants, subj)
    {
    }
  }

  lemma UserGoneTwice(db: Identity.Db, subj: string)
    ensures Identity.WithoutUser(Identity.WithoutUser(db, subj), subj) == Identity.WithoutUser(db, subj)
  {
    var once := Identity.WithoutUser(db, subj);
    var twice := Identity.WithoutUser(once, subj);
    assert twice.users == once.users && twice.sessions == once.sessions && twice.resets == once.resets;
  }

  // ----- Convergence ----------------------------------------------------------------------

  /**
   Whatever fails, what is left to clean comes to the same; success leaves nothing to
   clean; failure keeps the account.
   */
  lemma AttemptConverges(site: Site, s: State, subj: string, f: Faults)
    requires Valid(site, s)
    ensures var (after, ok) := Attempt(site, s, subj, f);
      && Clean(site, after, subj) == Clean(site, s, subj)
      && (if ok then after == Clean(site, s, subj) else after.db == s.db)
  {
    var n := Min(f.rows, |site.order|);
    ErasedTwice(site, s.tables, subj, n, |site.order|);
    ErasedTwice(site, s.tables, subj, |site.order|, |site.order|);
    FileStorage.ErasureConverges(s.disk, subj, f.files);
    GrantsRevokedTwice(s.grants, subj, f.grants, |GrantStorage.GRANT_TABLES|);
    UserGoneTwice(s.db, subj);
    RevokedPast(s.grants, subj, f.grants);
    hide FileStorage.ErasedFiles, FileStorage.CleanFiles, GrantStorage.RevokedFirst;
    hide Identity.WithoutUser, AccessRules.Erased;
  }

  lemma RevokedPast(grants: GrantStorage.Store, subj: string, n: nat)
    ensures |GrantStorage.GRANT_TABLES| <= n ==>
      GrantStorage.RevokedFirst(grants, subj, n) == GrantStorage.RevokedFirst(grants, subj, |GrantStorage.GRANT_TABLES|)
  {
  }

  function AfterAttempts(site: Site, s: State, subj: string, fs: seq<Faults>): State
    requires AccessRules.OwnedOrder(site.reg, site.order)
  {
    if fs == [] then s else Attempt(site, AfterAttempts(site, s, subj, fs[..|fs| - 1]), subj, fs[|fs| - 1]).0
  }

  lemma AttemptKeepsValid(site: Site, s: State, subj: string, f: Faults)
    requires Valid(site, s)
    ensures Valid(site, Attempt(site, s, subj, f).0)
  {
    if f.files > 0 {
      var ids := FileStorage.OwnedIds(s.disk.files, subj);
      FileStorage.KeepIsDistinct(s.disk.files, FileStorage.SetOf(ids[..Min((f.files - 1) / 2, |ids|)]));
    }
    hide FileStorage.Keep, FileStorage.OwnedIds, FileStorage.Distinct;
    hide AccessRules.Erased, AccessRules.OwnedOrder, Identity.WithoutUser;
  }

  /** Any number of attempts, failing anywhere, and one that succeeds amount to one clean run. */
  lemma {:induction false} ErasureConverges(site: Site, s: State, subj: string, fs: seq<Faults>, last: Faults)
    requires Valid(site, s)
    ensures Valid(site, AfterAttempts(site, s, subj, fs))
    ensures Clean(site, AfterAttempts(site, s, subj, fs), subj) == Clean(site, s, subj)
    ensures var (after, ok) := Attempt(site, AfterAttempts(site, s, subj, fs), subj, last);
      ok ==> after == Clean(site, s, subj)
  {
    hide AccessRules.OwnedOrder, GrantStorage.AllTables, FileStorage.Distinct, Attempt, Clean;
    if fs != [] {
      var front := fs[..|fs| - 1];
      ErasureConverges(site, s, subj, front, fs[|fs| - 1]);
      AttemptConverges(site, AfterAttempts(site, s, subj, front), subj, fs[|fs| - 1]);
      AttemptKeepsValid(site, AfterAttempts(site, s, subj, front), subj, fs[|fs| - 1]);
    }
    AttemptConverges(site, AfterAttempts(site, s, subj, fs), subj, last);
  }

  lemma CleanStaysClean(site: Site, s: State, subj: string, f: Faults)
    requires Valid(site, s)
    ensures Attempt(site, Clean(site, s, subj), subj, f).0 == Clean(site, s, subj)
  {
    var n := Min(f.rows, |site.order|);
    ErasedTwice(site, s.tables, subj, |site.order|, n);
    FilesErasedTwice(s.disk, subj, f.files);
    GrantsRevokedTwice(s.grants, subj, |GrantStorage.GRANT_TABLES|, f.grants);
    RevokedPast(s.grants, subj, f.grants);
    UserGoneTwice(s.db, subj);
    hide FileStorage.ErasedFiles, FileStorage.CleanFiles, GrantStorage.RevokedFirst;
    hide Identity.WithoutUser, AccessRules.Erased, AccessRules.OwnedOrder;
  }

  /**
   So long as the account is there nothing of it is lost, and once it is gone everything
   else of the subject is too.
   */
  lemma {:induction false} AccountGoesLast(site: Site, s: State, subj: string, fs: seq<Faults>)
    requires Valid(site, s)
    ensures AfterAttempts(site, s, subj, fs).db == s.db || AfterAttempts(site, s, subj, fs) == Clean(site, s, subj)
  {
    if fs != [] {
      var front := fs[..|fs| - 1];
      var before, f := AfterAttempts(site, s, subj, front), fs[|fs| - 1];
      AccountGoesLast(site, s, subj, front);
      ErasureConverges(site, s, subj, front, f);
      CleanStaysClean(site, s, subj, f);
      AttemptConverges(site, before, subj, f);
      hide AccessRules.OwnedOrder, GrantStorage.AllTables, FileStorage.Distinct, Attempt, Clean;
    }
  }

  lemma GoneMeansClean(site: Site, s: State, subj: string, fs: seq<Faults>)
    requires Valid(site, s) && Identity.HasUser(s.db, subj)
    requires !Identity.HasUser(AfterAttempts(site, s, subj, fs).db, subj)
    ensures AfterAttempts(site, s, subj, fs) == Clean(site, s, subj)
  {
    AccountGoesLast(site, s, subj, fs);
  }

  /**
   The stages come in order: files are touched only once every owned row is gone, grants
   only once rows and files are, and the account only once all of them are; the attempt
   succeeds exactly if every stage gets to its end.
   */
  lemma StagesInOrder(site: Site, s: State, subj: string, f: Faults)
    requires Valid(site, s)
    ensures var (after, ok) := Attempt(site, s, subj, f);
      var clean := Clean(site, s, subj);
      && (after.disk != s.disk ==> after.tables == clean.tables)
      && (after.grants != s.grants ==> after.tables == clean.tables && after.disk == clean.disk)
      && (after.db != s.db ==> after == clean)
      && (ok <==>
            && |site.order| <= f.rows && 2 * |FileStorage.OwnedIds(s.disk.files, subj)| < f.files
            && |GrantStorage.GRANT_TABLES| <= f.grants && !f.userFails)
  {
    FileStorage.ErasureConverges(s.disk, subj, f.files);
    RevokedPast(s.grants, subj, f.grants);
    hide FileStorage.CleanFiles, FileStorage.OwnedIds, FileStorage.Partly, GrantStorage.RevokedFirst;
    hide Identity.WithoutUser, AccessRules.Erased, AccessRules.OwnedOrder;
  }

  // ----- What clean means, and what others keep --------------------------------------------

  predicate Theirs(site: Site, subj: string, name: string, row: Broker.Record) {
    name in site.reg && site.reg[name].ownerColumn != "" && AccessRules.Owned(site.reg[name], row, subj)
  }

  /** A clean run leaves no owned row, no file and no bytes of one, no grant, and no account, session or reset token. */
  lemma CleanLeavesNothing(site: Site, s: State, subj: string)
    requires Valid(site, s)
    ensures var c := Clean(site, s, subj);
      && (forall name, id :: id in AccessRules.RowsOf(c.tables, name) ==>
            !Theirs(site, subj, name, AccessRules.RowsOf(c.tables, name)[id]))
      && (forall f :: f in c.disk.files ==> f.owner != subj)
      && (forall key :: FileStorage.File(key, subj) in s.disk.files ==> key !in c.disk.bytes)
      && (forall table, signature :: signature in GrantStorage.In(c.grants, table) ==>
            GrantStorage.In(c.grants, table)[signature].subject != subj)
      && !Identity.HasUser(c.db, subj)
      && (forall token :: token in c.db.sessions ==> c.db.sessions[token].userId != subj)
      && (forall token :: token in c.db.resets ==> c.db.resets[token].userId != subj)
  {
    var c := Clean(site, s, subj);
    forall name, id | id in AccessRules.RowsOf(c.tables, name)
      ensures !Theirs(site, subj, name, AccessRules.RowsOf(c.tables, name)[id])
    {
      AccessLaws.ErasureIsExact(site.reg, s.tables, site.order, subj, name, id);
    }
    forall f
      ensures f in c.disk.files ==> f.owner != subj
    {
      FileStorage.CleanIsExact(s.disk, subj, f, f.id);
    }
    forall key | FileStorage.File(key, subj) in s.disk.files
      ensures key !in c.disk.bytes
    {
      FileStorage.CleanIsExact(s.disk, subj, FileStorage.File(key, subj), key);
    }
    forall table, signature | signature in GrantStorage.In(c.grants, table)
      ensures GrantStorage.In(c.grants, table)[signature].subject != subj
    {
      GrantStorage.RevokedEverywhere(s.grants, subj, |GrantStorage.GRANT_TABLES|, table, signature);
    }
    hide AccessRules.Erased, FileStorage.CleanFiles, GrantStorage.RevokedFirst;
  }

  ghost predicate RowsKept(site: Site, a: State, b: State, subj: string) {
    forall name, id ::
      id in AccessRules.RowsOf(a.tables, name) && !Theirs(site, subj, name, AccessRules.RowsOf(a.tables, name)[id]) ==>
        && id in AccessRules.RowsOf(b.tables, name)
        && AccessRules.RowsOf(b.tables, name)[id] == AccessRules.RowsOf(a.tables, name)[id]
  }

  ghost predicate FilesKept(a: State, b: State, subj: string) {
    forall f :: f in a.disk.files && f.owner != subj ==>
      f in b.disk.files && (f.id in a.disk.bytes ==> f.id in b.disk.bytes)
  }

  ghost predicate GrantsKept(a: State, b: State, subj: string) {
    forall table, signature ::
      signature in GrantStorage.In(a.grants, table) && GrantStorage.In(a.grants, table)[signature].subject != subj ==>
        signature in GrantStorage.In(b.grants, table)
        && GrantStorage.In(b.grants, table)[signature] == GrantStorage.In(a.grants, table)[signature]
  }

  ghost predicate AccountsKept(a: State, b: State, subj: string) {
    && (forall email :: email in a.db.users && a.db.users[email].id != subj ==>
          email in b.db.users && b.db.users[email] == a.db.users[email])
    && (forall token :: token in a.db.sessions && a.db.sessions[token].userId != subj ==>
          token in b.db.sessions && b.db.sessions[token] == a.db.sessions[token])
    && (forall token :: token in a.db.resets && a.db.resets[token].userId != subj ==>
          token in b.db.resets && b.db.resets[token] == a.db.resets[token])
  }

  ghost predicate OthersKept(site: Site, a: State, b: State, subj: string)
  {
    RowsKept(site, a, b, subj) && FilesKept(a, b, subj) && GrantsKept(a, b, subj) && AccountsKept(a, b, subj)
  }

  lemma AttemptKeepsRows(site: Site, s: State, subj: string, f: Faults)
    requires Valid(site, s)
    ensures RowsKept(site, s, Attempt(site, s, subj, f).0, subj)
  {
    var after := Attempt(site, s, subj, f).0;
    forall name, id | id in AccessRules.RowsOf(s.tables, name)
      && !Theirs(site, subj, name, AccessRules.RowsOf(s.tables, name)[id])
      ensures id in AccessRules.RowsOf(after.tables, name)
      ensures AccessRules.RowsOf(after.tables, name)[id] == AccessRules.RowsOf(s.tables, name)[id]
    {
      var n := Min(f.rows, |site.order|);
      AccessLaws.ErasedRow(site.reg, s.tables, site.order, subj, n, name, id);
      assert name in site.order[..n] ==> name in site.order;
      assert after.tables == AccessRules.Erased(site.reg, s.tables, site.order, subj, n);
      hide Attempt, AccessRules.Erased, AccessRules.Owned;
    }
  }

  lemma AttemptKeepsFiles(site: Site, s: State, subj: string, f: Faults)
    requires Valid(site, s)
    ensures FilesKept(s, Attempt(site, s, subj, f).0, subj)
  {
    var after := Attempt(site, s, subj, f).0;
    assert after.disk == s.disk || after.disk == FileStorage.ErasedFiles(s.disk, subj, f.files).0;
    forall g | g in s.disk.files && g.owner != subj
      ensures g in after.disk.files && (g.id in s.disk.bytes ==> g.id in after.disk.bytes)
    {
      FileStorage.OthersFilesStay(s.disk, subj, f.files, g);
      hide Attempt, FileStorage.ErasedFiles;
    }
  }

  lemma RevokedKeepsOthers(
      grants: GrantStorage.Store, subj: string, n: nat, table: GrantStorage.Table, signature: string)
    requires signature in GrantStorage.In(grants, table) && GrantStorage.In(grants, table)[signature].subject != subj
    ensures signature in GrantStorage.In(GrantStorage.RevokedFirst(grants, subj, n), table)
    ensures GrantStorage.In(GrantStorage.RevokedFirst(grants, subj, n), table)[signature] ==
            GrantStorage.In(grants, table)[signature]
  {
  }

  lemma AttemptKeepsGrants(site: Site, s: State, subj: string, f: Faults)
    requires Valid(site, s)
    ensures GrantsKept(s, Attempt(site, s, subj, f).0, subj)
  {
    var after := Attempt(site, s, subj, f).0;
    assert after.grants == s.grants || after.grants == GrantStorage.RevokedFirst(s.grants, subj, f.grants);
    hide Attempt, GrantStorage.RevokedFirst, GrantStorage.In;
    forall table, signature
      | signature in GrantStorage.In(s.grants, table) && GrantStorage.In(s.grants, table)[signature].subject != subj
      ensures signature in GrantStorage.In(after.grants, table)
      ensures GrantStorage.In(after.grants, table)[signature] == GrantStorage.In(s.grants, table)[signature]
    {
      RevokedKeepsOthers(s.grants, subj, f.grants, table, signature);
    }
  }

  lemma AttemptKeepsAccounts(site: Site, s: State, subj: string, f: Faults)
    requires Valid(site, s)
    ensures AccountsKept(s, Attempt(site, s, subj, f).0, subj)
  {
    var after := Attempt(site, s, subj, f).0;
    assert after.db == s.db || after.db == Identity.WithoutUser(s.db, subj);
    hide Attempt;
  }

  lemma KeptIsTransitive(site: Site, a: State, b: State, c: State, subj: string)
    requires OthersKept(site, a, b, subj) && OthersKept(site, b, c, subj)
    ensures OthersKept(site, a, c, subj)
  {
    assert RowsKept(site, a, c, subj) by { hide FilesKept, GrantsKept, AccountsKept; }
    assert FilesKept(a, c, subj) by { hide RowsKept, GrantsKept, AccountsKept; }
    assert GrantsKept(a, c, subj) by { hide RowsKept, FilesKept, AccountsKept; }
    assert AccountsKept(a, c, subj) by { hide RowsKept, FilesKept, GrantsKept; }
  }

  /**
   However many attempts fail wherever they may, nobody else loses a row, a file, a
   grant, an account, a session or a reset token.
   */
  lemma {:induction false} OthersAreUntouched(site: Site, s: State, subj: string, fs: seq<Faults>)
    requires Valid(site, s)
    ensures Valid(site, AfterAttempts(site, s, subj, fs))
    ensures OthersKept(site, s, AfterAttempts(site, s, subj, fs), subj)
  {
    if fs == [] {
      SelfKept(site, s, subj);
    } else {
      var front, f := fs[..|fs| - 1], fs[|fs| - 1];
      OthersAreUntouched(site, s, subj, front);
      var before := AfterAttempts(site, s, subj, front);
      AttemptKeepsValid(site, before, subj, f);
      AttemptKeepsRows(site, before, subj, f);
      AttemptKeepsFiles(site, before, subj, f);
      AttemptKeepsGrants(site, before, subj, f);
      AttemptKeepsAccounts(site, before, subj, f);
      hide RowsKept, FilesKept, GrantsKept, AccountsKept;
      hide Attempt, AccessRules.OwnedOrder, FileStorage.Distinct, GrantStorage.AllTables;
      KeptIsTransitive(site, s, before, Attempt(site, before, subj, f).0, subj);
    }
  }

  lemma SelfKept(site: Site, s: State, subj: string)
    ensures OthersKept(site, s, s, subj)
  {
  }
}
