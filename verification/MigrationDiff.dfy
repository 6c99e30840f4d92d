/**
 Drift detection (internal/db/migrate.go): the live tables are compared with
 those of a shadow database that replays the applied migrations on top of the
 embedded schema.
 */
module MigrationDiff {
  import opened Prelude
  import opened Text
  import opened MigrationEngine
  import opened MigrationRuns

  datatype Kind = Unexplained | Missing | Altered

  datatype Drift = Drift(table: string, kind: Kind, liveSql: string, expectedSql: string)

  function LowerChar(c: char): char {
    if 'A' <= c <= 'Z' then (c as int + 32) as char else c
  }

  function Lower(s: string): string {
    if s == "" then "" else [LowerChar(s[0])] + Lower(s[1..])
  }

  /** SQLite's name LIKE 'sqlite_%': case does not matter, and '_' stands for any one character. */
  predicate IsInternal(table: string) {
    |table| > 6 && Lower(table[..6]) == "sqlite"
  }

  function TableDefinitions(schema: Schema): Schema {
    map table | table in schema && !IsInternal(table) :: schema[table]
  }

  /** What Diff is to report about one table, if anything. */
  function DriftAt(reserved: Schema, live: Schema, expected: Schema, table: string): Option<Drift> {
    if table in reserved then None
    else if table in live then
      if table !in expected then Some(Drift(table, Unexplained, live[table], ""))
      else if live[table] != expected[table] then Some(Drift(table, Altered, live[table], expected[table]))
      else None
    else if table in expected then Some(Drift(table, Missing, "", expected[table]))
    else None
  }

  // ----- Sorting by table ----------------------------------------------------

  function Tables(drifts: seq<Drift>): set<string> {
    set d | d in drifts :: d.table
  }

  predicate Increasing(drifts: seq<Drift>) {
    |drifts| < 2 || (Less(drifts[0].table, drifts[1].table) && Increasing(drifts[1..]))
  }

  predicate Distinct(drifts: seq<Drift>) {
    drifts == [] ||
      (drifts[|drifts| - 1].table !in Tables(drifts[..|drifts| - 1]) && Distinct(drifts[..|drifts| - 1]))
  }

  function Insert(d: Drift, sorted: seq<Drift>): (r: seq<Drift>)
    ensures r != [] && (r[0] == d || (sorted != [] && r[0] == sorted[0]))
  {
    if sorted == [] || Less(d.table, sorted[0].table) then [d] + sorted
    else [sorted[0]] + Insert(d, sorted[1..])
  }

  function SortByTable(drifts: seq<Drift>): seq<Drift> {
    if drifts == [] then []
    else Insert(drifts[|drifts| - 1], SortByTable(drifts[..|drifts| - 1]))
  }

  lemma {:induction false} InsertElements(d: Drift, sorted: seq<Drift>, e: Drift)
    ensures e in Insert(d, sorted) <==> e == d || e in sorted
  {
    if sorted != [] && !Less(d.table, sorted[0].table) {
      InsertElements(d, sorted[1..], e);
      assert e in sorted <==> e == sorted[0] || e in sorted[1..];
    }
  }

  lemma {:induction false} InsertKeepsOrder(d: Drift, sorted: seq<Drift>)
    requires Increasing(sorted) && d.table !in Tables(sorted)
    ensures Increasing(Insert(d, sorted))
  {
    if sorted != [] {
      var first := sorted[0];
      assert first in sorted;
      LessTotal(d.table, first.table);
      if Less(d.table, first.table) {
        assert ([d] + sorted)[1..] == sorted;
      } else {
        var rest := sorted[1..];
        assert forall e :: e in rest ==> e in sorted;
        InsertKeepsOrder(d, rest);
        assert ([first] + Insert(d, rest))[1..] == Insert(d, rest);
      }
    }
  }

  lemma {:induction false} SortElements(drifts: seq<Drift>, e: Drift)
    ensures e in SortByTable(drifts) <==> e in drifts
  {
    if drifts != [] {
      var init, last := drifts[..|drifts| - 1], drifts[|drifts| - 1];
      SortElements(init, e);
      InsertElements(last, SortByTable(init), e);
      assert drifts == init + [last];
    }
  }

  lemma {:induction false} SortOrders(drifts: seq<Drift>)
    requires Distinct(drifts)
    ensures Increasing(SortByTable(drifts))
  {
    if drifts != [] {
      var init, last := drifts[..|drifts| - 1], drifts[|drifts| - 1];
      SortOrders(init);
      forall e | e in SortByTable(init)
        ensures e.table != last.table
      {
        SortElements(init, e);
      }
      InsertKeepsOrder(last, SortByTable(init));
    }
  }

  // ----- Diff ----------------------------------------------------------------

  /** Exactly one entry per drifted table, correctly classified, in strictly increasing table order. */
  ghost predicate Exact(drifts: seq<Drift>, reserved: Schema, live: Schema, expected: Schema) {
    && Increasing(drifts)
    && forall d :: d in drifts <==> DriftAt(reserved, live, expected, d.table) == Some(d)
  }

  function AppliedNames(dir: Dir, ledger: Ledger, n: nat): seq<string>
    requires n <= |dir|
  {
    if n == 0 then []
    else if dir[n - 1].name in ledger then AppliedNames(dir, ledger, n - 1) + [dir[n - 1].name]
    else AppliedNames(dir, ledger, n - 1)
  }

  /** Reading the status, and replaying into the shadow database what the live ledger says is applied. */
  function Shadow(env: Env, embedded: Schema, dir: Option<Dir>, w: Weather, ledger: Ledger): Outcome {
    var blank := State(embedded, map[], 0);
    if dir.None? then Outcome(blank, [], None)
    else if StatusFault(dir.value, w, |dir.value|).Some? then Outcome(blank, [], StatusFault(dir.value, w, |dir.value|))
    else ApplyAll(env, dir.value, w, blank, AppliedNames(dir.value, ledger, |dir.value|))
  }

  /** `drifts` reports exactly on the tables in `done`, each once. */
  ghost predicate Covers(drifts: seq<Drift>, reserved: Schema, live: Schema, expected: Schema, done: set<string>) {
    && Distinct(drifts)
    && forall d :: d in drifts <==> DriftAt(reserved, live, expected, d.table) == Some(d) && d.table in done
  }

  lemma CoversNothing(reserved: Schema, live: Schema, expected: Schema)
    ensures Covers([], reserved, live, expected, {})
  {
  }

  lemma CoverOneMore(
      drifts: seq<Drift>, reserved: Schema, live: Schema, expected: Schema, done: set<string>, table: string)
    requires Covers(drifts, reserved, live, expected, done) && table !in done
    ensures var found := DriftAt(reserved, live, expected, table);
      Covers(if found.Some? then drifts + [found.value] else drifts, reserved, live, expected, done + {table})
  {
    var found := DriftAt(reserved, live, expected, table);
    if found.Some? {
      assert (drifts + [found.value])[..|drifts|] == drifts;
    }
  }

  /** The comparison of two sets of table definitions, as the two map loops and the sort make it. */
  method Compare(reserved: Schema, live: Schema, expected: Schema) returns (results: seq<Drift>)
    ensures Exact(results, reserved, live, expected)
  {
    results := [];
    CoversNothing(reserved, live, expected);
    hide Covers, Exact, SortByTable;
    var todo := live.Keys;
    ghost var done: set<string> := {};
    while todo != {}
      invariant done + todo == live.Keys && done !! todo
      invariant Covers(results, reserved, live, expected, done)
      decreases |todo|
    {
      var name :| name in todo;
      CoverOneMore(results, reserved, live, expected, done, name);
      todo, done := todo - {name}, done + {name};
      if name !in reserved {
        if name !in expected {
          results := results + [Drift(name, Unexplained, live[name], "")];
        } else if live[name] != expected[name] {
          results := results + [Drift(name, Altered, live[name], expected[name])];
        }
      }
    }
    assert done == live.Keys;
    results := CompareExpected(results, reserved, live, expected);
    SortIsExact(results, reserved, live, expected);
    results := SortByTable(results);
  }

  /** The second loop: tables that only the replay has. */
  method CompareExpected(found: seq<Drift>, reserved: Schema, live: Schema, expected: Schema)
    returns (results: seq<Drift>)
    requires Covers(found, reserved, live, expected, live.Keys)
    ensures Covers(results, reserved, live, expected, live.Keys + expected.Keys)
  {
    hide Covers, DriftAt;
    results := found;
    var todo := expected.Keys;
    ghost var done := live.Keys;
    while todo != {}
      invariant todo <= expected.Keys
      invariant forall t :: t in done <==> t in live || (t in expected && t !in todo)
      invariant Covers(results, reserved, live, expected, done)
      decreases |todo|
    {
      var name :| name in todo;
      todo := todo - {name};
      if name !in live {
        CoverOneMore(results, reserved, live, expected, done, name);
        done := done + {name};
        MissingDrift(reserved, live, expected, name);
        if name !in reserved {
          results := results + [Drift(name, Missing, "", expected[name])];
        }
      }
    }
    assert done == live.Keys + expected.Keys;
  }

  lemma MissingDrift(reserved: Schema, live: Schema, expected: Schema, table: string)
    requires table !in live && table in expected
    ensures DriftAt(reserved, live, expected, table) ==
      if table in reserved then None else Some(Drift(table, Missing, "", expected[table]))
  {
  }

  lemma SortIsExact(drifts: seq<Drift>, reserved: Schema, live: Schema, expected: Schema)
    requires Covers(drifts, reserved, live, expected, live.Keys + expected.Keys)
    ensures Exact(SortByTable(drifts), reserved, live, expected)
  {
    SortOrders(drifts);
    forall d
      ensures d in SortByTable(drifts) <==> d in drifts
    {
      SortElements(drifts, d);
    }
  }

  /**
   Diff: build the shadow, replay, compare. The live database is only read.
   `unreadable`: the shadow cannot be built, or some table definitions cannot be read.
   */
  method Diff(live: Database, dir: Option<Dir>, embedded: Schema, w: Weather, unreadable: bool)
    returns (r: Result<seq<Drift>, Error>)
    ensures var shadow := Shadow(live.env, embedded, dir, w, live.ledger);
      && (r.Success? <==> shadow.error == None && !unreadable)
      && (r.Success? ==> Exact(r.value, TableDefinitions(embedded), TableDefinitions(live.schema),
                               TableDefinitions(shadow.state.schema)))
  {
    var shadow := new Database(live.env, embedded);
    var reserved := TableDefinitions(shadow.schema);
    if dir.Some? {
      var unread := live.ReadStatus(dir.value, w);
      if unread.Some? {
        return Failure(unread.value);
      }
      var names := [];
      for i := 0 to |dir.value|
        invariant names == AppliedNames(dir.value, live.ledger, i)
      {
        if dir.value[i].name in live.ledger {
          names := names + [dir.value[i].name];
        }
      }
      var _, err := shadow.ApplyEach(dir.value, w, names);
      if err.Some? {
        return Failure(err.value);
      }
    }
    if unreadable {
      return Failure(Unreadable);
    }
    var results := Compare(reserved, TableDefinitions(live.schema), TableDefinitions(shadow.schema));
    return Success(results);
  }

  // ----- Properties ----------------------------------------------------------

  lemma {:induction false} FirstIsLeast(drifts: seq<Drift>, d: Drift)
    requires Increasing(drifts) && d in drifts
    ensures d == drifts[0] || Less(drifts[0].table, d.table)
  {
    if d != drifts[0] {
      assert d in drifts[1..];
      FirstIsLeast(drifts[1..], d);
      if d != drifts[1] {
        LessTransitive(drifts[0].table, drifts[1].table, d.table);
      }
    }
  }

  lemma HasMember(drifts: seq<Drift>)
    requires drifts != []
    ensures exists d :: d in drifts
  {
    assert drifts[0] in drifts;
  }

  /** The report is determined: two exact reports on the same databases are the same sequence. */
  lemma {:induction false} SameEntriesSameReport(a: seq<Drift>, b: seq<Drift>)
    requires Increasing(a) && Increasing(b)
    requires forall d :: d in a <==> d in b
    ensures a == b
  {
    if a == [] {
      if b != [] {
        HasMember(b);
      }
    } else {
      assert a[0] in a && b != [] && b[0] in b;
      FirstIsLeast(a, b[0]);
      FirstIsLeast(b, a[0]);
      if a[0] != b[0] {
        LessAsymmetric(a[0].table, b[0].table);
      } else {
        forall d
          ensures d in a[1..] <==> d in b[1..]
        {
          TailElements(a, d);
          TailElements(b, d);
        }
        SameEntriesSameReport(a[1..], b[1..]);
        assert a == [a[0]] + a[1..] && b == [b[0]] + b[1..];
      }
    }
  }

  lemma TailElements(drifts: seq<Drift>, d: Drift)
    requires drifts != [] && Increasing(drifts)
    ensures d in drifts[1..] <==> d in drifts && d != drifts[0]
  {
    if d in drifts[1..] {
      FirstIsLeast(drifts[1..], d);
      if d != drifts[1] {
        LessTransitive(drifts[0].table, drifts[1].table, d.table);
      }
      LessIrreflexive(d.table);
    }
  }

  /** The tables Diff is about: neither embedded nor SQLite's own. */
  predicate Visible(embedded: Schema, table: string) {
    table !in embedded && !IsInternal(table)
  }

  predicate SameTable(a: Schema, b: Schema, table: string) {
    (table in a <==> table in b) && (table in a ==> a[table] == b[table])
  }

  ghost predicate Agree(embedded: Schema, a: Schema, b: Schema) {
    forall table :: Visible(embedded, table) ==> SameTable(a, b, table)
  }

  lemma DriftIsReported(drifts: seq<Drift>, reserved: Schema, live: Schema, expected: Schema, table: string)
    requires Exact(drifts, reserved, live, expected)
    ensures var d := DriftAt(reserved, live, expected, table); d.Some? ==> d.value.table == table && d.value in drifts
  {
  }

  /** Diff is silent exactly when live and replayed definitions agree on every visible table. */
  lemma SilentExactly(drifts: seq<Drift>, embedded: Schema, live: Schema, expected: Schema)
    requires Exact(drifts, TableDefinitions(embedded), TableDefinitions(live), TableDefinitions(expected))
    ensures drifts == [] <==> Agree(embedded, live, expected)
  {
    hide IsInternal;
    var e, l, x := TableDefinitions(embedded), TableDefinitions(live), TableDefinitions(expected);
    forall table
      ensures DriftAt(e, l, x, table) == None <==> (Visible(embedded, table) ==> SameTable(live, expected, table))
    {
    }
    if drifts == [] {
      forall table | Visible(embedded, table)
        ensures SameTable(live, expected, table)
      {
        DriftIsReported(drifts, e, l, x, table);
      }
    } else {
      assert drifts[0] in drifts;
      assert DriftAt(e, l, x, drifts[0].table) == Some(drifts[0]);
    }
  }

  function TextOf(schema: Schema, table: string): string {
    if table in schema then schema[table] else ""
  }

  /**
   What an entry of the report says is so, in terms of the two schemas alone: an
   unexplained table is live and not replayed, a missing one replayed and not live, an
   altered one both with different text, and the two texts are the ones it has there.
   */
  lemma EntriesAreTrue(drifts: seq<Drift>, embedded: Schema, live: Schema, expected: Schema, d: Drift)
    requires Exact(drifts, TableDefinitions(embedded), TableDefinitions(live), TableDefinitions(expected))
    requires d in drifts
    ensures Visible(embedded, d.table)
    ensures d.kind == Unexplained <==> d.table in live && d.table !in expected
    ensures d.kind == Missing <==> d.table !in live && d.table in expected
    ensures d.kind == Altered <==> d.table in live && d.table in expected && live[d.table] != expected[d.table]
    ensures d.liveSql == TextOf(live, d.table) && d.expectedSql == TextOf(expected, d.table)
  {
    var e, l, x := TableDefinitions(embedded), TableDefinitions(live), TableDefinitions(expected);
    assert DriftAt(e, l, x, d.table) == Some(d);
    hide IsInternal, Exact;
  }

  /** And every visible table on which the schemas differ has its entry: one, in table order. */
  lemma EveryDriftHasItsEntry(drifts: seq<Drift>, embedded: Schema, live: Schema, expected: Schema, table: string)
    requires Exact(drifts, TableDefinitions(embedded), TableDefinitions(live), TableDefinitions(expected))
    ensures Visible(embedded, table) && !SameTable(live, expected, table) <==>
      exists i :: 0 <= i < |drifts| && drifts[i].table == table
    ensures forall i, j :: 0 <= i < j < |drifts| ==> Less(drifts[i].table, drifts[j].table)
  {
    var e, l, x := TableDefinitions(embedded), TableDefinitions(live), TableDefinitions(expected);
    EntryIffDrift(embedded, live, expected, table);
    DriftIsReported(drifts, e, l, x, table);
    forall i | 0 <= i < |drifts| && drifts[i].table == table
      ensures DriftAt(e, l, x, table).Some?
    {
      assert drifts[i] in drifts;
    }
    forall i, j | 0 <= i < j < |drifts|
      ensures Less(drifts[i].table, drifts[j].table)
    {
      IncreasingPair(drifts, i, j);
    }
  }

  lemma EntryIffDrift(embedded: Schema, live: Schema, expected: Schema, table: string)
    ensures DriftAt(TableDefinitions(embedded), TableDefinitions(live), TableDefinitions(expected), table).Some? <==>
      Visible(embedded, table) && !SameTable(live, expected, table)
  {
    hide IsInternal;
  }

  lemma {:induction false} IncreasingPair(drifts: seq<Drift>, i: nat, j: nat)
    requires Increasing(drifts) && i < j < |drifts|
    ensures Less(drifts[i].table, drifts[j].table)
  {
    if i > 0 {
      IncreasingPair(drifts[1..], i - 1, j - 1);
    } else {
      TailElements(drifts, drifts[j]);
      FirstIsLeast(drifts, drifts[j]);
      assert drifts[1..][j - 1] == drifts[j];
    }
  }

  lemma {:induction false} LowerAt(s: string, i: nat)
    requires i < |s|
    ensures |Lower(s)| == |s| && Lower(s)[i] == LowerChar(s[i])
  {
    if i > 0 {
      LowerAt(s[1..], i - 1);
    } else if |s| > 1 {
      LowerAt(s[1..], 0);
    }
  }

  predicate Either(c: char, lower: char, upper: char) {
    c == lower || c == upper
  }

  /** SQLite's own tables, letter by letter: the six letters in any case, and at least one character more. */
  lemma InternalIff(table: string)
    ensures IsInternal(table) <==>
      && |table| >= 7
      && Either(table[0], 's', 'S') && Either(table[1], 'q', 'Q') && Either(table[2], 'l', 'L')
      && Either(table[3], 'i', 'I') && Either(table[4], 't', 'T') && Either(table[5], 'e', 'E')
  {
    if |table| >= 7 {
      var head := table[..6];
      forall i | 0 <= i < 6
        ensures |Lower(head)| == 6 && Lower(head)[i] == LowerChar(table[i])
      {
        LowerAt(head, i);
      }
      var name := "sqlite";
      hide Lower;
      assert forall i :: 0 <= i < 6 ==> (Lower(head)[i] == name[i] <==> LowerChar(table[i]) == name[i]);
      assert Lower(head) == name <==> forall i :: 0 <= i < 6 ==> Lower(head)[i] == name[i];
    }
  }

  /** An application migration neither reads nor changes embedded tables' effect on its own tables. */
  ghost predicate Local(env: Env, embedded: Schema, content: string) {
    forall a: Schema, b: Schema ::
      env.exec(UpSql(content), a).Some? && env.exec(UpSql(content), b).Some? && Agree(embedded, a, b) ==>
        Agree(embedded, env.exec(UpSql(content), a).value, env.exec(UpSql(content), b).value)
  }

  ghost predicate AllLocal(env: Env, embedded: Schema, dir: Dir) {
    forall i :: 0 <= i < |dir| ==> Local(env, embedded, dir[i].content)
  }

  lemma FileIsLocal(env: Env, embedded: Schema, dir: Dir, i: nat, a: Schema, b: Schema)
    requires AllLocal(env, embedded, dir) && i < |dir| && Agree(embedded, a, b)
    requires env.exec(UpSql(dir[i].content), a).Some? && env.exec(UpSql(dir[i].content), b).Some?
    ensures Agree(embedded, env.exec(UpSql(dir[i].content), a).value, env.exec(UpSql(dir[i].content), b).value)
  {
    assert Local(env, embedded, dir[i].content);
    hide Agree, UpSql;
  }

  lemma {:induction false} ReplaysAgree(env: Env, embedded: Schema, a: Schema, b: Schema, dir: Dir, n: nat)
    requires Agree(embedded, a, b) && AllLocal(env, embedded, dir) && n <= |dir|
    requires Replay(env, a, dir[..n]).Some? && Replay(env, b, dir[..n]).Some?
    ensures Agree(embedded, Replay(env, a, dir[..n]).value, Replay(env, b, dir[..n]).value)
  {
    hide Agree, UpSql, AllLocal;
    if n > 0 {
      ReplayStep(env, a, dir, n - 1);
      ReplayStep(env, b, dir, n - 1);
      hide Replay;
      ReplaysAgree(env, embedded, a, b, dir, n - 1);
      FileIsLocal(env, embedded, dir, n - 1, Replay(env, a, dir[..n - 1]).value, Replay(env, b, dir[..n - 1]).value);
    }
  }

  lemma {:induction false} AppliedNamesAreFirst(env: Env, dir: Dir, st: State, k: nat, n: nat)
    requires Tidy(env, dir, st, k) && k <= |dir| && n <= |dir|
    ensures AppliedNames(dir, st.ledger, n) == Range(dir, 0, Min(k, n))
  {
    if n > 0 {
      AppliedExactly(env, dir, st.ledger, st.clock, k, n - 1);
      AppliedNamesAreFirst(env, dir, st, k, n - 1);
      hide Tidy, TidyRows, Ordered, Range;
      if n - 1 < k {
        RangeSnoc(dir, 0, n);
      }
    } else {
      NamesStep(dir, 0, 0);
    }
  }

  /** And it runs on either of two schemas that agree on its tables, or on neither. */
  ghost predicate RunsAlike(env: Env, embedded: Schema, content: string) {
    forall a: Schema, b: Schema ::
      Agree(embedded, a, b) && env.exec(UpSql(content), a).Some? ==> env.exec(UpSql(content), b).Some?
  }

  ghost predicate AllRunAlike(env: Env, embedded: Schema, dir: Dir) {
    forall i :: 0 <= i < |dir| ==> RunsAlike(env, embedded, dir[i].content)
  }

  /** Nothing outside the engine fails. */
  ghost predicate Clear(w: Weather) {
    forall phase, name :: w.fault(phase, name) == None
  }

  lemma {:induction false} ReplayedBefore(env: Env, base: Schema, dir: Dir, j: nat, k: nat)
    requires j <= k <= |dir| && Replay(env, base, dir[..k]).Some?
    ensures Replay(env, base, dir[..j]).Some?
    decreases k - j
  {
    if j < k {
      ReplayStep(env, base, dir, k - 1);
      hide Replay;
      ReplayedBefore(env, base, dir, j, k - 1);
    }
  }

  /** One file of the replay, on a schema that agrees with the live one as it was at that file. */
  lemma ShadowStep(env: Env, base: Schema, embedded: Schema, dir: Dir, w: Weather, st: State, j: nat)
    requires Clear(w) && Tidy(env, dir, st, j) && j < |dir|
    requires AllLocal(env, embedded, dir) && AllRunAlike(env, embedded, dir)
    requires Replay(env, base, dir[..j]).Some? && Replay(env, base, dir[..j + 1]).Some?
    requires Agree(embedded, Replay(env, base, dir[..j]).value, st.schema)
    ensures var first := ApplyOne(env, dir, w, st, dir[j].name);
      first.Success? && Agree(embedded, Replay(env, base, dir[..j + 1]).value, first.value.schema)
  {
    hide Agree, UpSql, Replay, TidyRows, AllLocal;
    ReplayStep(env, base, dir, j);
    AppliedAt(env, dir, st, j, j);
    LookupAt(dir, j);
    assert RunsAlike(env, embedded, dir[j].content);
    FileIsLocal(env, embedded, dir, j, Replay(env, base, dir[..j]).value, st.schema);
  }

  lemma {:induction false} ClearReplaySucceeds(
      env: Env, base: Schema, embedded: Schema, dir: Dir, w: Weather, st: State, j: nat, k: nat)
    requires Clear(w) && Tidy(env, dir, st, j) && j <= k <= |dir|
    requires AllLocal(env, embedded, dir) && AllRunAlike(env, embedded, dir)
    requires Replay(env, base, dir[..k]).Some? && Replay(env, base, dir[..j]).Some?
    requires Agree(embedded, Replay(env, base, dir[..j]).value, st.schema)
    ensures ApplyAll(env, dir, w, st, Range(dir, j, k)).error == None
    decreases k - j
  {
    hide Tidy, Agree, AllLocal, AllRunAlike, Clear, Replay, ApplyOne;
    if j == k {
      NamesStep(dir, j, j);
    } else {
      ReplayedBefore(env, base, dir, j + 1, k);
      ShadowStep(env, base, embedded, dir, w, st, j);
      ApplyNext(env, dir, w, st, j);
      ApplyAllStep(env, dir, w, st, j, k);
      hide Range, ApplyAll;
      ClearReplaySucceeds(env, base, embedded, dir, w, ApplyOne(env, dir, w, st, dir[j].name).value, j + 1, k);
    }
  }

  /**
   After any run that only the engine made, Diff reports nothing, whether the
   database started with the embedded tables, some of them, or none; and it does
   report, rather than fail, when nothing outside it fails and each file runs on
   schemas that agree on its tables alike.
   */
  lemma NoDriftAfterEngineRuns(
      env: Env, base: Schema, embedded: Schema, world: World, ops: seq<Op>, w: Weather, drifts: seq<Drift>)
    requires GoodSum(env) && Sound(env, base, world) && AllAllowed(env, base, world, ops)
    requires Agree(embedded, base, embedded)
    requires AllLocal(env, embedded, Run(env, world, ops).dir)
    ensures var end := Run(env, world, ops);
      var shadow := Shadow(env, embedded, Some(end.dir), w, end.st.ledger);
      var e, l, x := TableDefinitions(embedded), TableDefinitions(end.st.schema), TableDefinitions(shadow.state.schema);
      && (Clear(w) && AllRunAlike(env, embedded, end.dir) ==> shadow.error == None)
      && (shadow.error == None && Exact(drifts, e, l, x) ==> drifts == [])
  {
    RunKeepsSound(env, base, world, ops);
    var end := Run(env, world, ops);
    hide Sound, Exact, Agree, Run, AllAllowed, AllLocal, GoodSum, ApplyAll, AllRunAlike, Clear, Shadow;
    var k := AppliedCount(env, base, end);
    var shadow := Shadow(env, embedded, Some(end.dir), w, end.st.ledger);
    if Clear(w) && AllRunAlike(env, embedded, end.dir) {
      ClearShadowSucceeds(env, base, embedded, end.dir, end.st, k, w);
    }
    if shadow.error == None {
      SoundShadow(env, base, embedded, end.dir, end.st, k, w);
      if Exact(drifts, TableDefinitions(embedded), TableDefinitions(end.st.schema),
               TableDefinitions(shadow.state.schema)) {
        SilentExactly(drifts, embedded, end.st.schema, shadow.state.schema);
      }
    }
  }

  lemma ClearShadowSucceeds(env: Env, base: Schema, embedded: Schema, dir: Dir, st: State, k: nat, w: Weather)
    requires Clear(w) && Tidy(env, dir, st, k) && k <= |dir| && Faithful(env, base, dir, st, k)
    requires Agree(embedded, base, embedded)
    requires AllLocal(env, embedded, dir) && AllRunAlike(env, embedded, dir)
    ensures Shadow(env, embedded, Some(dir), w, st.ledger).error == None
  {
    BlankShadow(env, embedded, dir) by { hide TidyRows; }
    assert dir[..0] == [] && Replay(env, base, dir[..0]) == Some(base);
    hide Tidy, Agree, AllLocal, AllRunAlike, Clear, ApplyAll, Replay, Range, StatusFault, AppliedNames;
    AppliedNamesAreFirst(env, dir, st, k, |dir|);
    ClearStatus(dir, w, |dir|);
    ClearReplaySucceeds(env, base, embedded, dir, w, State(embedded, map[], 0), 0, k);
  }

  lemma {:induction false} ClearStatus(dir: Dir, w: Weather, n: nat)
    requires Clear(w) && n <= |dir|
    ensures StatusFault(dir, w, n) == None
  {
    if n > 0 {
      ClearStatus(dir, w, n - 1);
    }
  }

  /** A shadow before its replay: nothing applied, and the embedded schema. */
  lemma BlankShadow(env: Env, embedded: Schema, dir: Dir)
    requires Ordered(dir)
    ensures var blank := State(embedded, map[], 0);
      Tidy(env, dir, blank, 0) && Faithful(env, embedded, dir, blank, 0)
  {
    assert dir[..0] == [];
  }

  /** Two schemas that replay the same files from agreeing ones agree. */
  lemma FaithfulAgree(env: Env, embedded: Schema, base: Schema, base': Schema, dir: Dir, st: State, st': State, k: nat)
    requires Agree(embedded, base, base') && AllLocal(env, embedded, dir)
    requires Faithful(env, base, dir, st, k) && Faithful(env, base', dir, st', k)
    ensures Agree(embedded, st.schema, st'.schema)
  {
    hide Agree, AllLocal, Replay;
    ReplaysAgree(env, embedded, base, base', dir, k);
  }

  lemma ShadowIsRange(env: Env, embedded: Schema, dir: Dir, st: State, k: nat, w: Weather)
    requires Tidy(env, dir, st, k) && k <= |dir| && Shadow(env, embedded, Some(dir), w, st.ledger).error == None
    ensures Shadow(env, embedded, Some(dir), w, st.ledger) ==
            ApplyAll(env, dir, w, State(embedded, map[], 0), Range(dir, 0, k))
  {
    hide Tidy, ApplyAll, Range, StatusFault, AppliedNames;
    AppliedNamesAreFirst(env, dir, st, k, |dir|);
  }

  lemma SoundShadow(env: Env, base: Schema, embedded: Schema, dir: Dir, st: State, k: nat, w: Weather)
    requires Tidy(env, dir, st, k) && k <= |dir| && Faithful(env, base, dir, st, k)
    requires Agree(embedded, base, embedded) && AllLocal(env, embedded, dir)
    requires Shadow(env, embedded, Some(dir), w, st.ledger).error == None
    ensures Agree(embedded, st.schema, Shadow(env, embedded, Some(dir), w, st.ledger).state.schema)
  {
    BlankShadow(env, embedded, dir) by { hide TidyRows; }
    hide Tidy, Faithful, Agree, AllLocal, ApplyAll, Range, Shadow, StoppedAt;
    ShadowIsRange(env, embedded, dir, st, k, w);
    ApplyRange(env, embedded, dir, w, State(embedded, map[], 0), 0, k);
    FaithfulAgree(env, embedded, base, embedded, dir, st, Shadow(env, embedded, Some(dir), w, st.ledger).state, k);
  }
}
