/**
 The migration engine (internal/db/migrate.go): a ledger of applied files and
 the operations that move a schema forwards and backwards along them.

 A schema maps table names to their CREATE TABLE text. What SQLite makes of a
 piece of SQL is a partial function on schemas: None when the statement fails
 and its transaction rolls back.
 */
module MigrationEngine {
  import opened Prelude
  import opened Text
  import opened MigrationFile
  import opened MigrationNumbers

  type Schema = map<string, string>

  /** One row of schema_migrations; a NULL checksum predates checksums. */
  datatype Row = Row(appliedAt: nat, checksum: Option<string>)

  /** The application rows of schema_migrations, by filename (their "app:" prefix removed). */
  type Ledger = map<string, Row>

  datatype File = File(name: string, content: string)

  /** A migrations directory as os.ReadDir lists it. */
  type Dir = seq<File>

  /** The first n files are strictly increasing in name. */
  predicate OrderedTo(dir: Dir, n: nat)
    requires n <= |dir|
  {
    n < 2 || (Less(dir[n - 2].name, dir[n - 1].name) && OrderedTo(dir, n - 1))
  }

  predicate Ordered(dir: Dir) {
    OrderedTo(dir, |dir|)
  }

  /** SQLite's effect on schemas, and the SHA-256 of a file. */
  datatype Env = Env(exec: (string, Schema) -> Option<Schema>, sum: string -> string)

  datatype Phase = Listing | Applying | Reverting

  /** Where a migration can fail for reasons outside the engine. */
  datatype Stage = Check | Read | NoDown | Begin | Exec | Record | Commit

  datatype Error =
    | Failed(stage: Stage, name: string)
    | BadCount(n: int)
    | NoDirectory
    | NoSuchVersion
    | Unreadable

  /**
   What the environment does during one call: the stage, if any, at which it
   makes each file's transaction fail, and the seconds that pass before each
   file's row is stamped.
   */
  datatype Weather = Weather(fault: (Phase, string) -> Option<Stage>, elapsed: (Phase, string) -> nat)

  datatype State = State(schema: Schema, ledger: Ledger, clock: nat)

  /** How a call ended: the files it got through, and the error that stopped it. */
  datatype Outcome = Outcome(state: State, touched: seq<string>, error: Option<Error>)

  function Lookup(dir: Dir, name: string): Option<string> {
    if dir == [] then None
    else if dir[0].name == name then Some(dir[0].content)
    else Lookup(dir[1..], name)
  }

  function Names(dir: Dir): (names: seq<string>)
    ensures |names| == |dir|
    ensures forall i :: 0 <= i < |dir| ==> names[i] == dir[i].name
  {
    seq(|dir|, i requires 0 <= i < |dir| => dir[i].name)
  }

  function UpSql(content: string): string { SplitSql(content).up }

  function DownSql(content: string): string { SplitSql(content).down }

  // ----- Specification: one file ---------------------------------------------

  /** One transaction that runs a file's Up section and records it. */
  function ApplyOne(env: Env, dir: Dir, w: Weather, st: State, name: string): Result<State, Error> {
    var fault := w.fault(Applying, name);
    var file := Lookup(dir, name);
    if file.None? || fault == Some(Read) then Failure(Failed(Read, name))
    else if fault == Some(Begin) then Failure(Failed(Begin, name))
    else
      var result := env.exec(UpSql(file.value), st.schema);
      if result.None? || fault == Some(Exec) then Failure(Failed(Exec, name))
      else if name in st.ledger || fault == Some(Record) then Failure(Failed(Record, name))
      else if fault == Some(Commit) then Failure(Failed(Commit, name))
      else
        var now := st.clock + w.elapsed(Applying, name);
        Success(State(result.value, st.ledger[name := Row(now, Some(env.sum(file.value)))], now))
  }

  /** One transaction that runs a file's Down section and removes its record. */
  function RevertOne(env: Env, dir: Dir, w: Weather, st: State, name: string): Result<State, Error> {
    var fault := w.fault(Reverting, name);
    var file := Lookup(dir, name);
    if file.None? || fault == Some(Read) then Failure(Failed(Read, name))
    else if !Revertible(file.value) then Failure(Failed(NoDown, name))
    else if fault == Some(Begin) then Failure(Failed(Begin, name))
    else
      var result := env.exec(DownSql(file.value), st.schema);
      if result.None? || fault == Some(Exec) then Failure(Failed(Exec, name))
      else if fault == Some(Record) then Failure(Failed(Record, name))
      else if fault == Some(Commit) then Failure(Failed(Commit, name))
      else Success(State(result.value, st.ledger - {name}, st.clock))
  }

  // ----- Specification: whole calls ------------------------------------------

  /** applyMigrations from the i-th file on. */
  function ApplyPending(env: Env, dir: Dir, w: Weather, st: State, i: nat): Outcome
    requires i <= |dir|
    decreases |dir| - i
  {
    if i == |dir| then Outcome(st, [], None)
    else
      var name := dir[i].name;
      if w.fault(Applying, name) == Some(Check) then Outcome(st, [], Some(Failed(Check, name)))
      else if name in st.ledger then ApplyPending(env, dir, w, st, i + 1)
      else
        match ApplyOne(env, dir, w, st, name)
        case Failure(e) => Outcome(st, [], Some(e))
        case Success(st') =>
          var rest := ApplyPending(env, dir, w, st', i + 1);
          rest.(touched := [name] + rest.touched)
  }

  /** Applying the named files in order, stopping at the first failure. */
  function ApplyAll(env: Env, dir: Dir, w: Weather, st: State, names: seq<string>): Outcome
    decreases |names|
  {
    if names == [] then Outcome(st, [], None)
    else
      match ApplyOne(env, dir, w, st, names[0])
      case Failure(e) => Outcome(st, [], Some(e))
      case Success(st') =>
        var rest := ApplyAll(env, dir, w, st', names[1..]);
        rest.(touched := [names[0]] + rest.touched)
  }

  /** Reverting the named files in order, stopping at the first failure. */
  function RevertAll(env: Env, dir: Dir, w: Weather, st: State, names: seq<string>): Outcome
    decreases |names|
  {
    if names == [] then Outcome(st, [], None)
    else
      match RevertOne(env, dir, w, st, names[0])
      case Failure(e) => Outcome(st, [], Some(e))
      case Success(st') =>
        var rest := RevertAll(env, dir, w, st', names[1..]);
        rest.(touched := [names[0]] + rest.touched)
  }

  /** ORDER BY applied_at DESC, version DESC: `a` is listed before `b`. */
  predicate ListedBefore(ledger: Ledger, a: string, b: string)
    requires a in ledger && b in ledger
  {
    || ledger[a].appliedAt > ledger[b].appliedAt
    || (ledger[a].appliedAt == ledger[b].appliedAt && Less(b, a))
  }

  ghost predicate IsNewest(ledger: Ledger, name: string) {
    name in ledger && forall other :: other in ledger && other != name ==> ListedBefore(ledger, name, other)
  }

  lemma {:induction false} NewestExists(ledger: Ledger)
    requires ledger != map[]
    ensures exists name :: IsNewest(ledger, name)
    decreases |ledger|
  {
    var some :| some in ledger;
    var rest := ledger - {some};
    if rest == map[] {
      assert forall other :: other in ledger && other != some ==> other in rest;
      assert IsNewest(ledger, some);
    } else {
      assert |rest| < |ledger| by {
        assert rest.Keys == ledger.Keys - {some};
      }
      NewestExists(rest);
      var best :| IsNewest(rest, best);
      LessTotal(some, best);
      var newest := if ListedBefore(ledger, some, best) then some else best;
      forall other | other in ledger && other != newest
        ensures ListedBefore(ledger, newest, other)
      {
        if other != some && other != best {
          assert other in rest && ListedBefore(rest, best, other);
          if newest == some && Less(other, best) && Less(best, some) {
            LessTransitive(other, best, some);
          }
        }
      }
      assert IsNewest(ledger, newest);
    }
  }

  lemma NewestIsUnique(ledger: Ledger, a: string, b: string)
    requires IsNewest(ledger, a) && IsNewest(ledger, b)
    ensures a == b
  {
    if a != b {
      assert ListedBefore(ledger, a, b) && ListedBefore(ledger, b, a);
      LessAsymmetric(a, b);
    }
  }

  ghost function Newest(ledger: Ledger): (name: string)
    requires ledger != map[]
    ensures IsNewest(ledger, name)
  {
    NewestExists(ledger);
    var name :| IsNewest(ledger, name);
    name
  }

  /** SELECT version ... ORDER BY applied_at DESC, version DESC LIMIT n. */
  ghost function NewestFirst(ledger: Ledger, n: nat): seq<string> {
    if n == 0 || ledger == map[] then []
    else [Newest(ledger)] + NewestFirst(ledger - {Newest(ledger)}, n - 1)
  }

  function Reverse(names: seq<string>): seq<string> {
    if names == [] then [] else Reverse(names[1..]) + [names[0]]
  }

  ghost function Down(env: Env, dir: Option<Dir>, w: Weather, st: State, n: int): Outcome {
    if n <= 0 then Outcome(st, [], Some(BadCount(n)))
    else if dir.None? then Outcome(st, [], None)
    else RevertAll(env, dir.value, w, st, NewestFirst(st.ledger, n))
  }

  ghost function Redo(env: Env, dir: Option<Dir>, w: Weather, st: State, n: int): Outcome {
    var down := Down(env, dir, w, st, n);
    if down.error.Some? || dir.None? then Outcome(down.state, [], down.error)
    else ApplyAll(env, dir.value, w, down.state, Reverse(down.touched))
  }

  function Up(env: Env, dir: Option<Dir>, w: Weather, st: State): Outcome {
    if dir.None? then Outcome(st, [], None) else ApplyPending(env, dir.value, w, st, 0)
  }

  /** The files among the first n that are not applied, in order. */
  function PendingBelow(dir: Dir, ledger: Ledger, n: nat): seq<string>
    requires n <= |dir|
  {
    if n == 0 then []
    else if dir[n - 1].name in ledger then PendingBelow(dir, ledger, n - 1)
    else PendingBelow(dir, ledger, n - 1) + [dir[n - 1].name]
  }

  /** How many files from the n-th on are applied. */
  function AppliedFrom(dir: Dir, ledger: Ledger, n: nat): nat
    requires n <= |dir|
    decreases |dir| - n
  {
    if n == |dir| then 0
    else (if dir[n].name in ledger then 1 else 0) + AppliedFrom(dir, ledger, n + 1)
  }

  function IndexOf(dir: Dir, name: string): (i: int)
    ensures -1 <= i < |dir|
    ensures i >= 0 ==> dir[i].name == name
  {
    if dir == [] then -1
    else if dir[|dir| - 1].name == name then |dir| - 1
    else IndexOf(dir[..|dir| - 1], name)
  }

  /** Moving to the file at position i, already resolved. */
  ghost function ToIndex(env: Env, dir: Dir, w: Weather, st: State, i: nat): Outcome
    requires i < |dir|
  {
    if dir[i].name in st.ledger then
      var n := AppliedFrom(dir, st.ledger, i + 1);
      if n == 0 then Outcome(st, [], None) else Down(env, Some(dir), w, st, n)
    else ApplyAll(env, dir, w, st, PendingBelow(dir, st.ledger, i + 1))
  }

  /** Position of the file a target resolves to, or -1. */
  function TargetIndex(dir: Dir, target: string): (i: int)
    ensures -1 <= i < |dir|
  {
    match Resolve(Names(dir), target)
    case None => -1
    case Some(name) => IndexOf(dir, name)
  }

  /**
   Status reads every one of the first n files, applied or not, and fails at the first
   that cannot be read or looked up.
   */
  function StatusFault(dir: Dir, w: Weather, n: nat): Option<Error>
    requires n <= |dir|
  {
    if n == 0 then None
    else
      var before := StatusFault(dir, w, n - 1);
      var fault := w.fault(Listing, dir[n - 1].name);
      if before.Some? || fault.None? then before else Some(Failed(fault.value, dir[n - 1].name))
  }

  /** MigrateDirTo. */
  ghost function To(env: Env, dir: Option<Dir>, w: Weather, st: State, target: string): Outcome {
    if dir.None? then Outcome(st, [], Some(NoDirectory))
    else if TargetIndex(dir.value, target) < 0 then Outcome(st, [], Some(NoSuchVersion))
    else if StatusFault(dir.value, w, |dir.value|).Some? then
      Outcome(st, [], StatusFault(dir.value, w, |dir.value|))
    else ToIndex(env, dir.value, w, st, TargetIndex(dir.value, target))
  }

  /** Which way a To goes: "" when it stays, or fails before it knows where to go. */
  function Direction(dir: Option<Dir>, w: Weather, ledger: Ledger, target: string): string {
    if dir.None? || TargetIndex(dir.value, target) < 0 || StatusFault(dir.value, w, |dir.value|).Some? then ""
    else
      var i := TargetIndex(dir.value, target);
      if dir.value[i].name !in ledger then "up"
      else if AppliedFrom(dir.value, ledger, i + 1) == 0 then ""
      else "down"
  }

  /** Status's ChecksumMismatch for an applied file. */
  predicate Mismatch(env: Env, row: Row, content: string) {
    row.checksum.Some? && row.checksum.value != "" && row.checksum.value != env.sum(content)
  }

  /** VerifyChecksums on the first n files. */
  function Mismatches(env: Env, dir: Dir, ledger: Ledger, n: nat): seq<string>
    requires n <= |dir|
  {
    if n == 0 then []
    else
      var f := dir[n - 1];
      var before := Mismatches(env, dir, ledger, n - 1);
      if f.name in ledger && Mismatch(env, ledger[f.name], f.content) then before + [f.name] else before
  }

  lemma {:induction false} FirstStatusFault(dir: Dir, w: Weather, n: nat)
    requires n <= |dir| && StatusFault(dir, w, n).Some?
    ensures StatusFault(dir, w, |dir|) == StatusFault(dir, w, n)
    decreases |dir| - n
  {
    if n < |dir| {
      FirstStatusFault(dir, w, n + 1);
    }
  }

  // ----- The engine ----------------------------------------------------------

  class Database {
    const env: Env
    var schema: Schema
    var ledger: Ledger
    var clock: nat

    ghost function Current(): State
      reads this
    {
      State(schema, ledger, clock)
    }

    constructor (env: Env, schema: Schema)
      ensures this.env == env && Current() == State(schema, map[], 0)
    {
      this.env := env;
      this.schema, ledger, clock := schema, map[], 0;
    }

    /** applyOneMigration: everything between Begin and Commit is private to the transaction. */
    method ApplyOneMigration(dir: Dir, w: Weather, name: string) returns (err: Option<Error>)
      modifies this
      ensures match ApplyOne(env, dir, w, old(Current()), name)
        case Failure(e) => err == Some(e) && Current() == old(Current())
        case Success(st) => err == None && Current() == st
    {
      var fault := w.fault(Applying, name);
      var file := Lookup(dir, name);
      if file.None? || fault == Some(Read) {
        return Some(Failed(Read, name));
      }
      var up, _, _ := SplitMigrationSql(file.value, UP_MARKER, DOWN_MARKER);
      if fault == Some(Begin) {
        return Some(Failed(Begin, name));
      }
      var result := env.exec(up, schema);
      if result.None? || fault == Some(Exec) {
        return Some(Failed(Exec, name));
      }
      if name in ledger || fault == Some(Record) {
        return Some(Failed(Record, name));
      }
      if fault == Some(Commit) {
        return Some(Failed(Commit, name));
      }
      clock := clock + w.elapsed(Applying, name);
      schema, ledger := result.value, ledger[name := Row(clock, Some(env.sum(file.value)))];
      return None;
    }

    method RevertOneMigration(dir: Dir, w: Weather, name: string) returns (err: Option<Error>)
      modifies this
      ensures match RevertOne(env, dir, w, old(Current()), name)
        case Failure(e) => err == Some(e) && Current() == old(Current())
        case Success(st) => err == None && Current() == st
    {
      var fault := w.fault(Reverting, name);
      var file := Lookup(dir, name);
      if file.None? || fault == Some(Read) {
        return Some(Failed(Read, name));
      }
      var _, down, hasDown := SplitMigrationSql(file.value, UP_MARKER, DOWN_MARKER);
      if !hasDown || TrimSpace(down) == "" {
        return Some(Failed(NoDown, name));
      }
      if fault == Some(Begin) {
        return Some(Failed(Begin, name));
      }
      var result := env.exec(down, schema);
      if result.None? || fault == Some(Exec) {
        return Some(Failed(Exec, name));
      }
      if fault == Some(Record) {
        return Some(Failed(Record, name));
      }
      if fault == Some(Commit) {
        return Some(Failed(Commit, name));
      }
      schema, ledger := result.value, ledger - {name};
      return None;
    }

    /** applyMigrations: every file not yet recorded, in filename order. */
    method ApplyMigrations(dir: Dir, w: Weather) returns (applied: seq<string>, err: Option<Error>)
      modifies this
      ensures Outcome(Current(), applied, err) == ApplyPending(env, dir, w, old(Current()), 0)
    {
      applied := [];
      for i := 0 to |dir|
        invariant ApplyPending(env, dir, w, old(Current()), 0) ==
          var rest := ApplyPending(env, dir, w, Current(), i);
          rest.(touched := applied + rest.touched)
      {
        var name := dir[i].name;
        if w.fault(Applying, name) == Some(Check) {
          return applied, Some(Failed(Check, name));
        }
        if name !in ledger {
          err := ApplyOneMigration(dir, w, name);
          if err.Some? {
            return;
          }
          ghost var rest := ApplyPending(env, dir, w, Current(), i + 1).touched;
          assert applied + ([name] + rest) == applied + [name] + rest;
          applied := applied + [name];
        }
      }
      err := None;
    }

    /** MigrateDirApplied: a missing directory is nothing to do. */
    method MigrateDirApplied(dir: Option<Dir>, w: Weather) returns (applied: seq<string>, err: Option<Error>)
      modifies this
      ensures Outcome(Current(), applied, err) == Up(env, dir, w, old(Current()))
    {
      if dir.None? {
        return [], None;
      }
      applied, err := ApplyMigrations(dir.value, w);
    }

    /** The query that lists what Down is to revert. */
    method SelectNewest(n: nat) returns (names: seq<string>)
      ensures names == NewestFirst(ledger, n)
    {
      names := [];
      var rest := ledger;
      while |names| < n && rest != map[]
        invariant |names| <= n
        invariant NewestFirst(ledger, n) == names + NewestFirst(rest, n - |names|)
      {
        var newest := FindNewest(rest);
        ghost var tail := NewestFirst(rest - {newest}, n - |names| - 1);
        assert names + ([newest] + tail) == names + [newest] + tail;
        names, rest := names + [newest], rest - {newest};
      }
      assert NewestFirst(rest, n - |names|) == [];
    }

    method FindNewest(rows: Ledger) returns (newest: string)
      requires rows != map[]
      ensures newest == Newest(rows)
    {
      newest :| newest in rows;
      var todo := rows.Keys - {newest};
      while todo != {}
        invariant newest in rows && newest !in todo && todo <= rows.Keys
        invariant forall name :: name in rows && name !in todo && name != newest ==> ListedBefore(rows, newest, name)
        decreases |todo|
      {
        var name :| name in todo;
        LessTotal(name, newest);
        if ListedBefore(rows, name, newest) {
          forall other | other in rows && other !in todo && other != newest
            ensures ListedBefore(rows, name, other)
          {
            if Less(other, newest) && Less(newest, name) {
              LessTransitive(other, newest, name);
            }
          }
          newest := name;
        }
        todo := todo - {name};
      }
      assert IsNewest(rows, newest);
      NewestIsUnique(rows, newest, Newest(rows));
    }

    /** MigrateDirDown. */
    method MigrateDirDown(dir: Option<Dir>, w: Weather, n: int) returns (reverted: seq<string>, err: Option<Error>)
      modifies this
      ensures Outcome(Current(), reverted, err) == Down(env, dir, w, old(Current()), n)
    {
      hide RevertOne, NewestFirst;
      if n <= 0 {
        return [], Some(BadCount(n));
      }
      if dir.None? {
        return [], None;
      }
      var names := SelectNewest(n);
      reverted := [];
      for i := 0 to |names|
        invariant RevertAll(env, dir.value, w, old(Current()), names) ==
          var rest := RevertAll(env, dir.value, w, Current(), names[i..]);
          rest.(touched := reverted + rest.touched)
      {
        assert names[i..][0] == names[i] && names[i..][1..] == names[i + 1..];
        err := RevertOneMigration(dir.value, w, names[i]);
        if err.Some? {
          return;
        }
        ghost var rest := RevertAll(env, dir.value, w, Current(), names[i + 1..]).touched;
        assert reverted + ([names[i]] + rest) == reverted + [names[i]] + rest;
        reverted := reverted + [names[i]];
      }
      err := None;
    }

    /** The forward loop shared by redo and to. */
    method ApplyEach(dir: Dir, w: Weather, names: seq<string>) returns (applied: seq<string>, err: Option<Error>)
      modifies this
      ensures Outcome(Current(), applied, err) == ApplyAll(env, dir, w, old(Current()), names)
    {
      applied := [];
      for i := 0 to |names|
        invariant ApplyAll(env, dir, w, old(Current()), names) ==
          var rest := ApplyAll(env, dir, w, Current(), names[i..]);
          rest.(touched := applied + rest.touched)
      {
        assert names[i..][0] == names[i] && names[i..][1..] == names[i + 1..];
        err := ApplyOneMigration(dir, w, names[i]);
        if err.Some? {
          return;
        }
        ghost var rest := ApplyAll(env, dir, w, Current(), names[i + 1..]).touched;
        assert applied + ([names[i]] + rest) == applied + [names[i]] + rest;
        applied := applied + [names[i]];
      }
      err := None;
    }

    /** MigrateDirRedo: revert n, then reapply exactly those, oldest first. */
    method MigrateDirRedo(dir: Option<Dir>, w: Weather, n: int) returns (redone: seq<string>, err: Option<Error>)
      modifies this
      ensures Outcome(Current(), redone, err) == Redo(env, dir, w, old(Current()), n)
    {
      var reverted;
      reverted, err := MigrateDirDown(dir, w, n);
      if err.Some? || dir.None? {
        return [], err;
      }
      redone, err := ApplyEach(dir.value, w, Reverse(reverted));
    }

    /** The reads of Status, as far as they can fail. */
    method ReadStatus(dir: Dir, w: Weather) returns (err: Option<Error>)
      ensures err == StatusFault(dir, w, |dir|)
    {
      for i := 0 to |dir|
        invariant StatusFault(dir, w, i) == None
      {
        var fault := w.fault(Listing, dir[i].name);
        if fault.Some? {
          FirstStatusFault(dir, w, i + 1);
          return Some(Failed(fault.value, dir[i].name));
        }
      }
      return None;
    }

    /** MigrateDirTo; the direction is "" for a no-op. */
    method MigrateDirTo(dir: Option<Dir>, w: Weather, target: string)
      returns (touched: seq<string>, direction: string, err: Option<Error>)
      modifies this
      ensures Outcome(Current(), touched, err) == To(env, dir, w, old(Current()), target)
      ensures direction == Direction(dir, w, old(ledger), target)
      ensures direction == "" ==> Current() == old(Current())
    {
      if dir.None? {
        return [], "", Some(NoDirectory);
      }
      var name := ResolveVersion(Names(dir.value), target);
      if name.None? {
        return [], "", Some(NoSuchVersion);
      }
      var i := IndexOf(dir.value, name.value);
      if i < 0 {
        return [], "", Some(NoSuchVersion);
      }
      var unread := ReadStatus(dir.value, w);
      if unread.Some? {
        return [], "", unread;
      }
      if dir.value[i].name in ledger {
        var n := AppliedFrom(dir.value, ledger, i + 1);
        if n == 0 {
          return [], "", None;
        }
        touched, err := MigrateDirDown(dir, w, n);
        direction := "down";
      } else {
        touched, err := ApplyEach(dir.value, w, PendingBelow(dir.value, ledger, i + 1));
        direction := "up";
      }
    }

    /** VerifyChecksums: the applied files whose content is not what was recorded. */
    method VerifyChecksums(dir: Option<Dir>, w: Weather) returns (r: Result<seq<string>, Error>)
      ensures r ==
        if dir.None? then Success([])
        else if StatusFault(dir.value, w, |dir.value|).Some? then Failure(StatusFault(dir.value, w, |dir.value|).value)
        else Success(Mismatches(env, dir.value, ledger, |dir.value|))
    {
      if dir.None? {
        return Success([]);
      }
      var unread := ReadStatus(dir.value, w);
      if unread.Some? {
        return Failure(unread.value);
      }
      var names := [];
      for i := 0 to |dir.value|
        invariant names == Mismatches(env, dir.value, ledger, i)
      {
        var f := dir.value[i];
        if f.name in ledger && Mismatch(env, ledger[f.name], f.content) {
          names := names + [f.name];
        }
      }
      return Success(names);
    }
  }
}
