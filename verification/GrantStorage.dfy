/**
 Storage of outstanding OAuth grants (internal/oauth/storage.go): four tables of
 sessions keyed by token signature, and the refresh-token rotation among them.
 */
module GrantStorage {

  datatype Table = Codes | AccessTokens | RefreshTokens | Pkce

  /** A stored session: its grant chain's request id, its client and subject, and whether it is active. */
  datatype Grant = Grant(requestId: string, client: string, subject: string, active: bool)

  type Grants = map<string, Grant>

  type Store = map<Table, Grants>

  datatype Lookup = NotFound | Inactive(grant: Grant) | Found(grant: Grant)

  /** In the order erasure goes through them. */
  const GRANT_TABLES: seq<Table> := [Codes, AccessTokens, RefreshTokens, Pkce]

  // ----- Specification -----------------------------------------------------------

  function Look(grants: Grants, signature: string): Lookup {
    if signature !in grants then NotFound
    else if grants[signature].active then Found(grants[signature])
    else Inactive(grants[signature])
  }

  /** The conditional update that decides which redemption wins. */
  predicate CanRotate(grants: Grants, requestId: string, signature: string) {
    signature in grants && grants[signature].requestId == requestId && grants[signature].active
  }

  function Rotated(grants: Grants, requestId: string, signature: string): Grants {
    if CanRotate(grants, requestId, signature)
    then grants[signature := grants[signature].(active := false)]
    else grants
  }

  function WithoutRequest(grants: Grants, requestId: string): Grants {
    map signature | signature in grants && grants[signature].requestId != requestId :: grants[signature]
  }

  function WithoutSubject(grants: Grants, subject: string): Grants {
    map signature | signature in grants && grants[signature].subject != subject :: grants[signature]
  }

  /** All four tables, the first n of GRANT_TABLES rid of the subject. */
  function RevokedFirst(store: Store, subject: string, n: nat): Store {
    map table | table in store ::
      if table in GRANT_TABLES[..if n < |GRANT_TABLES| then n else |GRANT_TABLES|]
      then WithoutSubject(store[table], subject) else store[table]
  }

  function In(store: Store, table: Table): Grants {
    if table in store then store[table] else map[]
  }

  predicate AllTables(store: Store) {
    store.Keys == {Codes, AccessTokens, RefreshTokens, Pkce}
  }

  // ----- The store -----------------------------------------------------------------

  class Storage {
    var store: Store

    predicate Valid()
      reads this
    {
      AllTables(store)
    }

    constructor ()
      ensures Valid() && forall table :: table in store ==> store[table] == map[]
    {
      store := map[Codes := map[], AccessTokens := map[], RefreshTokens := map[], Pkce := map[]];
    }

    /** The signature is a primary key: inserting one twice fails. */
    method CreateSession(table: Table, signature: string, grant: Grant) returns (ok: bool)
      requires Valid()
      modifies this
      ensures Valid() && (ok <==> signature !in old(store[table]))
      ensures store == if ok then old(store)[table := old(store[table])[signature := grant]] else old(store)
    {
      ok := signature !in store[table];
      if ok {
        store := store[table := store[table][signature := grant]];
      }
    }

    method GetRefreshTokenSession(signature: string) returns (found: Lookup)
      requires Valid()
      ensures found == Look(store[RefreshTokens], signature)
    {
      if signature !in store[RefreshTokens] {
        return NotFound;
      }
      var grant := store[RefreshTokens][signature];
      if !grant.active {
        return Inactive(grant);
      }
      return Found(grant);
    }

    method RotateRefreshToken(requestId: string, signature: string) returns (won: bool)
      requires Valid()
      modifies this
      ensures Valid() && (won <==> CanRotate(old(store[RefreshTokens]), requestId, signature))
      ensures store == old(store)[RefreshTokens := Rotated(old(store[RefreshTokens]), requestId, signature)]
    {
      var grants := store[RefreshTokens];
      won := signature in grants && grants[signature].requestId == requestId && grants[signature].active;
      if won {
        store := store[RefreshTokens := grants[signature := grants[signature].(active := false)]];
      }
    }

    method RevokeByRequest(table: Table, requestId: string)
      requires Valid()
      modifies this
      ensures Valid() && store == old(store)[table := WithoutRequest(old(store[table]), requestId)]
    {
      store := store[table := WithoutRequest(store[table], requestId)];
    }

    /** Table by table, up to the first whose DELETE fails. */
    method RevokeForSubject(subject: string, failAt: nat) returns (ok: bool)
      requires Valid()
      modifies this
      ensures Valid() && (ok <==> |GRANT_TABLES| <= failAt)
      ensures store == RevokedFirst(old(store), subject, failAt)
    {
      ghost var before := store;
      for i := 0 to |GRANT_TABLES|
        invariant i <= failAt && Valid()
        invariant store == RevokedFirst(before, subject, i)
      {
        if i == failAt {
          return false;
        }
        OneMoreTable(before, subject, i);
        store := store[GRANT_TABLES[i] := WithoutSubject(store[GRANT_TABLES[i]], subject)];
      }
      return true;
    }
  }

  lemma OneMoreTable(store: Store, subject: string, i: nat)
    requires AllTables(store) && i < |GRANT_TABLES|
    ensures var before := RevokedFirst(store, subject, i);
      GRANT_TABLES[i] in before &&
      RevokedFirst(store, subject, i + 1) == before[GRANT_TABLES[i] := WithoutSubject(before[GRANT_TABLES[i]], subject)]
  {
    assert GRANT_TABLES[..i + 1] == GRANT_TABLES[..i] + [GRANT_TABLES[i]];
    assert GRANT_TABLES[i] !in GRANT_TABLES[..i];
  }

  /** Codes go first, then access tokens, refresh tokens and PKCE requests. */
  function Place(table: Table): nat {
    match table
    case Codes => 0
    case AccessTokens => 1
    case RefreshTokens => 2
    case Pkce => 3
  }

  /** Stopped after n tables, a revocation has rid those before of the subject and left the others as they were. */
  lemma RevokedInOrder(store: Store, subject: string, n: nat, table: Table, signature: string)
    requires AllTables(store)
    ensures var after := RevokedFirst(store, subject, n);
      && AllTables(after)
      && (n <= Place(table) ==> after[table] == store[table])
      && (Place(table) < n ==>
            (signature in after[table] <==> signature in store[table] && store[table][signature].subject != subject)
            && (signature in after[table] ==> after[table][signature] == store[table][signature]))
  {
    var k := if n < 4 then n else 4;
    assert table in GRANT_TABLES[..k] <==> Place(table) < k by {
      assert GRANT_TABLES[Place(table)] == table;
      assert forall i :: 0 <= i < 4 ==> Place(GRANT_TABLES[i]) == i;
    }
  }

  /** Four tables on, nothing of the subject is left anywhere, and nothing of anyone else is touched. */
  lemma RevokedEverywhere(store: Store, subject: string, n: nat, table: Table, signature: string)
    requires AllTables(store) && |GRANT_TABLES| <= n
    ensures var after := RevokedFirst(store, subject, n);
      && AllTables(after)
      && (signature in In(after, table) <==>
        signature in In(store, table) && store[table][signature].subject != subject)
      && (signature in In(after, table) ==> after[table][signature] == store[table][signature])
  {
    assert table in GRANT_TABLES[..4] by {
      assert GRANT_TABLES[0] == Codes && GRANT_TABLES[1] == AccessTokens
          && GRANT_TABLES[2] == RefreshTokens && GRANT_TABLES[3] == Pkce;
    }
  }
}
