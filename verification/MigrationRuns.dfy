/**
 What every run of up, down, redo and to keeps, whatever fails on the way
 (internal/db/migrate.go): the applied files are a prefix of the directory, the
 ledger lists them in filename order, and the schema is the replay of their Up
 sections.
 */
module MigrationRuns {
  import opened Prelude
  import opened Text
  import opened MigrationFile
  import opened MigrationNumbers
  import opened MigrationEngine

  /** The schema that the Up sections of `files`, run in order on `base`, produce. */
  function Replay(env: Env, base: Schema, files: Dir): Option<Schema> {
    if files == [] then Some(base)
    else
      match Replay(env, base, files[..|files| - 1])
      case None => None
      case Some(schema) => env.exec(UpSql(files[|files| - 1].content), schema)
  }

  /**
   The ledger holds exactly the first k files, each with the checksum of its
   content, stamped no later than the file after it and the last no later than
   `clock`.
   */
  predicate TidyRows(env: Env, dir: Dir, ledger: Ledger, clock: nat, k: nat) {
    && k <= |dir|
    && if k == 0 then ledger == map[]
       else
         var last := dir[k - 1];
         && last.name in ledger
         && ledger[last.name].checksum == Some(env.sum(last.content))
         && ledger[last.name].appliedAt <= clock
         && TidyRows(env, dir, ledger - {last.name}, ledger[last.name].appliedAt, k - 1)
  }

  predicate Tidy(env: Env, dir: Dir, st: State, k: nat) {
    Ordered(dir) && TidyRows(env, dir, st.ledger, st.clock, k)
  }

  ghost predicate Faithful(env: Env, base: Schema, dir: Dir, st: State, k: nat) {
    k <= |dir| && Replay(env, base, dir[..k]) == Some(st.schema)
  }

  /**
   If the k-th file can be reverted at all, its Down section, where it succeeds on
   what the replay of the files up to it makes, gives back the replay up to there.
   A file without a Down section, or with a blank one, is under no obligation.
   */
  ghost predicate UndoesAt(env: Env, base: Schema, dir: Dir, k: nat)
    requires k < |dir|
  {
    Revertible(dir[k].content) && Replay(env, base, dir[..k]).Some? && Replay(env, base, dir[..k + 1]).Some? ==>
      var back := env.exec(DownSql(dir[k].content), Replay(env, base, dir[..k + 1]).value);
      back.Some? ==> back == Replay(env, base, dir[..k])
  }

  ghost predicate AllUndo(env: Env, base: Schema, dir: Dir) {
    forall k :: 0 <= k < |dir| ==> UndoesAt(env, base, dir, k)
  }

  /** The names of files k-1, k-2, ..., k-m. */
  function LastNames(dir: Dir, k: nat, m: nat): (names: seq<string>)
    requires m <= k <= |dir|
    ensures |names| == m
  {
    if m == 0 then [] else [dir[k - 1].name] + LastNames(dir, k - 1, m - 1)
  }

  /** The names of files k, ..., m-1. */
  function Range(dir: Dir, k: nat, m: nat): (names: seq<string>)
    requires k <= m <= |dir|
    ensures |names| == m - k
    decreases m - k
  {
    if k == m then [] else [dir[k].name] + Range(dir, k + 1, m)
  }

  // ----- One file ------------------------------------------------------------

  lemma {:induction false} OrderedPair(dir: Dir, n: nat, i: nat, j: nat)
    requires n <= |dir| && OrderedTo(dir, n) && i < j < n
    ensures Less(dir[i].name, dir[j].name)
  {
    if j < n - 1 {
      OrderedPair(dir, n - 1, i, j);
    } else if i < n - 2 {
      OrderedPair(dir, n - 1, i, n - 2);
      LessTransitive(dir[i].name, dir[n - 2].name, dir[n - 1].name);
    }
  }

  lemma NamesDistinct(dir: Dir, i: nat, j: nat)
    requires Ordered(dir) && i < |dir| && j < |dir| && i != j
    ensures dir[i].name != dir[j].name
  {
    if i < j {
      OrderedPair(dir, |dir|, i, j);
    } else {
      OrderedPair(dir, |dir|, j, i);
    }
    LessIrreflexive(dir[i].name);
  }

  lemma {:induction false} LookupFrom(dir: Dir, i: nat, j: nat)
    requires Ordered(dir) && j <= i < |dir|
    ensures Lookup(dir[j..], dir[i].name) == Some(dir[i].content)
    decreases i - j
  {
    if j < i {
      NamesDistinct(dir, i, j);
      assert dir[j..][1..] == dir[j + 1..];
      LookupFrom(dir, i, j + 1);
    }
  }

  lemma LookupAt(dir: Dir, i: nat)
    requires Ordered(dir) && i < |dir|
    ensures Lookup(dir, dir[i].name) == Some(dir[i].content)
  {
    LookupFrom(dir, i, 0);
    assert dir[0..] == dir;
  }

  lemma TidyLater(env: Env, dir: Dir, ledger: Ledger, clock: nat, later: nat, k: nat)
    requires TidyRows(env, dir, ledger, clock, k) && clock <= later
    ensures TidyRows(env, dir, ledger, later, k)
  {
  }

  /** Exactly the first k files are recorded. */
  lemma {:induction false} AppliedExactly(env: Env, dir: Dir, ledger: Ledger, clock: nat, k: nat, i: nat)
    requires Ordered(dir) && TidyRows(env, dir, ledger, clock, k) && i < |dir|
    ensures dir[i].name in ledger <==> i < k
  {
    if k > 0 && i != k - 1 {
      NamesDistinct(dir, i, k - 1);
      AppliedExactly(env, dir, ledger - {dir[k - 1].name}, ledger[dir[k - 1].name].appliedAt, k - 1, i);
    }
  }

  lemma {:induction false} TidyCount(env: Env, dir: Dir, ledger: Ledger, clock: nat, k: nat)
    requires TidyRows(env, dir, ledger, clock, k)
    ensures |ledger| == k
  {
    if k > 0 {
      var last := dir[k - 1].name;
      assert (ledger - {last}).Keys == ledger.Keys - {last};
      TidyCount(env, dir, ledger - {last}, ledger[last].appliedAt, k - 1);
    }
  }

  lemma ApplyOneEffect(env: Env, dir: Dir, w: Weather, st: State, k: nat)
    requires Ordered(dir) && k < |dir| && ApplyOne(env, dir, w, st, dir[k].name).Success?
    ensures var st' := ApplyOne(env, dir, w, st, dir[k].name).value;
      && env.exec(UpSql(dir[k].content), st.schema) == Some(st'.schema)
      && dir[k].name !in st.ledger && st'.clock >= st.clock
      && st'.ledger == st.ledger[dir[k].name := Row(st'.clock, Some(env.sum(dir[k].content)))]
  {
    hide UpSql;
    LookupAt(dir, k);
  }

  lemma RevertOneEffect(env: Env, dir: Dir, w: Weather, st: State, k: nat)
    requires Ordered(dir) && k < |dir| && RevertOne(env, dir, w, st, dir[k].name).Success?
    ensures var st' := RevertOne(env, dir, w, st, dir[k].name).value;
      && Revertible(dir[k].content)
      && env.exec(DownSql(dir[k].content), st.schema) == Some(st'.schema)
      && st'.ledger == st.ledger - {dir[k].name} && st'.clock == st.clock
  {
    hide DownSql, Revertible;
    LookupAt(dir, k);
  }

  lemma ApplyNext(env: Env, dir: Dir, w: Weather, st: State, k: nat)
    requires Tidy(env, dir, st, k) && k < |dir|
    requires ApplyOne(env, dir, w, st, dir[k].name).Success?
    ensures Tidy(env, dir, ApplyOne(env, dir, w, st, dir[k].name).value, k + 1)
  {
    hide ApplyOne;
    ApplyOneEffect(env, dir, w, st, k);
    var st' := ApplyOne(env, dir, w, st, dir[k].name).value;
    assert st'.ledger - {dir[k].name} == st.ledger;
    TidyLater(env, dir, st.ledger, st.clock, st'.clock, k);
  }

  lemma ApplyNextReplays(env: Env, base: Schema, dir: Dir, w: Weather, st: State, k: nat)
    requires Tidy(env, dir, st, k) && k < |dir| && Faithful(env, base, dir, st, k)
    requires ApplyOne(env, dir, w, st, dir[k].name).Success?
    ensures Faithful(env, base, dir, ApplyOne(env, dir, w, st, dir[k].name).value, k + 1)
  {
    hide ApplyOne, UpSql;
    ApplyOneEffect(env, dir, w, st, k);
    hide Tidy, Ordered;
    ReplayStep(env, base, dir, k);
  }

  lemma ReplayStep(env: Env, base: Schema, dir: Dir, k: nat)
    requires k < |dir|
    ensures Replay(env, base, dir[..k + 1]) ==
      match Replay(env, base, dir[..k])
      case None => None
      case Some(schema) => env.exec(UpSql(dir[k].content), schema)
  {
    assert dir[..k + 1][..k] == dir[..k];
  }

  lemma RevertLast(env: Env, dir: Dir, w: Weather, st: State, k: nat)
    requires Tidy(env, dir, st, k + 1)
    requires RevertOne(env, dir, w, st, dir[k].name).Success?
    ensures Tidy(env, dir, RevertOne(env, dir, w, st, dir[k].name).value, k)
  {
    hide RevertOne;
    RevertOneEffect(env, dir, w, st, k);
    TidyLater(env, dir, st.ledger - {dir[k].name}, st.ledger[dir[k].name].appliedAt, st.clock, k);
  }

  /**
   Reverting the last applied file keeps the schema the replay of those before it exactly
   if the file undoes itself there.
   */
  lemma RevertLastReplaysIff(env: Env, base: Schema, dir: Dir, w: Weather, st: State, k: nat)
    requires Tidy(env, dir, st, k + 1) && k < |dir| && Faithful(env, base, dir, st, k + 1)
    requires RevertOne(env, dir, w, st, dir[k].name).Success?
    ensures Faithful(env, base, dir, RevertOne(env, dir, w, st, dir[k].name).value, k) <==> UndoesAt(env, base, dir, k)
  {
    hide RevertOne, UpSql, DownSql, Revertible;
    RevertOneEffect(env, dir, w, st, k);
    hide Tidy, Ordered;
    ReplayStep(env, base, dir, k);
    hide Replay;
  }

  lemma {:induction false} RowsBelow(env: Env, dir: Dir, ledger: Ledger, clock: nat, k: nat, name: string)
    requires Ordered(dir) && TidyRows(env, dir, ledger, clock, k) && name in ledger
    ensures k > 0 && ledger[name].appliedAt <= clock
    ensures name == dir[k - 1].name || Less(name, dir[k - 1].name)
  {
    var last := dir[k - 1].name;
    if name != last {
      RowsBelow(env, dir, ledger - {last}, ledger[last].appliedAt, k - 1, name);
      OrderedPair(dir, |dir|, k - 2, k - 1);
      if name != dir[k - 2].name {
        LessTransitive(name, dir[k - 2].name, last);
      }
    }
  }

  lemma NewestIsLast(env: Env, dir: Dir, st: State, k: nat)
    requires Tidy(env, dir, st, k + 1)
    ensures Newest(st.ledger) == dir[k].name
  {
    var last := dir[k].name;
    forall other | other in st.ledger && other != last
      ensures ListedBefore(st.ledger, last, other)
    {
      RowsBelow(env, dir, st.ledger, st.clock, k + 1, other);
      RowsBelow(env, dir, st.ledger - {last}, st.ledger[last].appliedAt, k, other);
    }
    assert IsNewest(st.ledger, last);
    NewestIsUnique(st.ledger, last, Newest(st.ledger));
  }

  /** What Down selects is the tail of the applied files, last one first. */
  lemma {:induction false} NewestFirstIsTail(env: Env, dir: Dir, st: State, k: nat, n: nat)
    requires Tidy(env, dir, st, k)
    ensures NewestFirst(st.ledger, n) == LastNames(dir, k, Min(n, k))
    decreases k
  {
    if n > 0 && k > 0 {
      var last := dir[k - 1].name;
      NewestIsLast(env, dir, st, k - 1);
      NewestFirstIsTail(env, dir, State(st.schema, st.ledger - {last}, st.ledger[last].appliedAt), k - 1, n - 1);
    }
  }

  // ----- Whole calls ---------------------------------------------------------

  /** The call stopped at the named file, if it stopped early. */
  predicate StoppedAt(o: Outcome, name: string) {
    o.error.Some? && o.error.value.Failed? && o.error.value.name == name
  }

  lemma FailureNamesFile(env: Env, dir: Dir, w: Weather, st: State, name: string)
    ensures var r := ApplyOne(env, dir, w, st, name); r.Failure? ==> r.error.Failed? && r.error.name == name
    ensures var r := RevertOne(env, dir, w, st, name); r.Failure? ==> r.error.Failed? && r.error.name == name
  {
    hide UpSql, DownSql, Revertible;
  }

  function Prepend(name: string, o: Outcome): Outcome {
    o.(touched := [name] + o.touched)
  }

  lemma RevertAllStep(env: Env, dir: Dir, w: Weather, st: State, k: nat, m: nat)
    requires 0 < m <= k <= |dir|
    ensures RevertAll(env, dir, w, st, LastNames(dir, k, m)) ==
      match RevertOne(env, dir, w, st, dir[k - 1].name)
      case Failure(e) => Outcome(st, [], Some(e))
      case Success(st') => Prepend(dir[k - 1].name, RevertAll(env, dir, w, st', LastNames(dir, k - 1, m - 1)))
  {
    hide RevertOne;
    assert LastNames(dir, k, m)[1..] == LastNames(dir, k - 1, m - 1);
  }

  lemma ApplyAllStep(env: Env, dir: Dir, w: Weather, st: State, k: nat, m: nat)
    requires k < m <= |dir|
    ensures ApplyAll(env, dir, w, st, Range(dir, k, m)) ==
      match ApplyOne(env, dir, w, st, dir[k].name)
      case Failure(e) => Outcome(st, [], Some(e))
      case Success(st') => Prepend(dir[k].name, ApplyAll(env, dir, w, st', Range(dir, k + 1, m)))
  {
    hide ApplyOne;
    assert Range(dir, k, m)[1..] == Range(dir, k + 1, m);
  }

  lemma NamesStep(dir: Dir, k: nat, m: nat)
    requires k <= |dir|
    ensures 0 < m <= k ==> LastNames(dir, k, m) == [dir[k - 1].name] + LastNames(dir, k - 1, m - 1)
    ensures k < m <= |dir| ==> Range(dir, k, m) == [dir[k].name] + Range(dir, k + 1, m)
    ensures LastNames(dir, k, 0) == [] && Range(dir, k, k) == []
  {
  }

  lemma EachUndoes(env: Env, base: Schema, dir: Dir, k: nat)
    requires AllUndo(env, base, dir) && k < |dir|
    ensures UndoesAt(env, base, dir, k)
  {
  }

  lemma {:induction false} RevertTail(env: Env, base: Schema, dir: Dir, w: Weather, st: State, k: nat, m: nat)
    requires Tidy(env, dir, st, k) && m <= k <= |dir|
    ensures var o := RevertAll(env, dir, w, st, LastNames(dir, k, m));
      var t := |o.touched|;
      && t <= m && o.touched == LastNames(dir, k, t)
      && Tidy(env, dir, o.state, k - t)
      && (o.error == None <==> t == m)
      && (t < m ==> StoppedAt(o, dir[k - 1 - t].name))
      && (AllUndo(env, base, dir) && Faithful(env, base, dir, st, k) ==> Faithful(env, base, dir, o.state, k - t))
    decreases m
  {
    hide Tidy, Faithful, AllUndo, UndoesAt, RevertOne, LastNames;
    NamesStep(dir, k, 0);
    if m > 0 {
      var name := dir[k - 1].name;
      var first := RevertOne(env, dir, w, st, name);
      RevertAllStep(env, dir, w, st, k, m);
      FailureNamesFile(env, dir, w, st, name);
      hide RevertAll;
      if first.Success? {
        RevertLast(env, dir, w, st, k - 1);
        RevertTail(env, base, dir, w, first.value, k - 1, m - 1);
        if AllUndo(env, base, dir) && Faithful(env, base, dir, st, k) {
          EachUndoes(env, base, dir, k - 1);
          RevertLastReplaysIff(env, base, dir, w, st, k - 1);
        }
        NamesStep(dir, k, 1 + |RevertAll(env, dir, w, first.value, LastNames(dir, k - 1, m - 1)).touched|);
      }
    }
  }

  lemma {:induction false} ApplyRange(env: Env, base: Schema, dir: Dir, w: Weather, st: State, k: nat, m: nat)
    requires Tidy(env, dir, st, k) && k <= m <= |dir|
    ensures var o := ApplyAll(env, dir, w, st, Range(dir, k, m));
      var t := |o.touched|;
      && k + t <= m && o.touched == Range(dir, k, k + t)
      && Tidy(env, dir, o.state, k + t)
      && (o.error == None <==> k + t == m)
      && (k + t < m ==> StoppedAt(o, dir[k + t].name))
      && (Faithful(env, base, dir, st, k) ==> Faithful(env, base, dir, o.state, k + t))
    decreases m - k
  {
    hide Tidy, Faithful, ApplyOne, Range;
    NamesStep(dir, k, k);
    if k < m {
      var name := dir[k].name;
      var first := ApplyOne(env, dir, w, st, name);
      ApplyAllStep(env, dir, w, st, k, m);
      FailureNamesFile(env, dir, w, st, name);
      hide ApplyAll;
      if first.Success? {
        ApplyNext(env, dir, w, st, k);
        ApplyRange(env, base, dir, w, first.value, k + 1, m);
        if Faithful(env, base, dir, st, k) {
          ApplyNextReplays(env, base, dir, w, st, k);
        }
        NamesStep(dir, k, k + 1 + |ApplyAll(env, dir, w, first.value, Range(dir, k + 1, m)).touched|);
      }
    }
  }

  /** The query for whether a file is applied answered for each of files i, ..., k-1. */
  predicate CheckPasses(dir: Dir, w: Weather, i: nat, k: nat)
    requires k <= |dir|
    decreases k - i
  {
    i >= k || (w.fault(Applying, dir[i].name) != Some(Check) && CheckPasses(dir, w, i + 1, k))
  }

  lemma {:induction false} SkipApplied(env: Env, dir: Dir, w: Weather, st: State, k: nat, i: nat)
    requires Tidy(env, dir, st, k) && i <= k <= |dir|
    ensures var o := ApplyPending(env, dir, w, st, i);
      if CheckPasses(dir, w, i, k) then o == ApplyPending(env, dir, w, st, k)
      else o.state == st && o.touched == [] && o.error.Some?
    decreases k - i
  {
    if i < k {
      AppliedExactly(env, dir, st.ledger, st.clock, k, i);
      SkipApplied(env, dir, w, st, k, i + 1);
    }
  }

  lemma PendingStep(env: Env, dir: Dir, w: Weather, st: State, k: nat)
    requires Tidy(env, dir, st, k) && k < |dir|
    requires w.fault(Applying, dir[k].name) != Some(Check)
    ensures ApplyPending(env, dir, w, st, k) ==
      match ApplyOne(env, dir, w, st, dir[k].name)
      case Failure(e) => Outcome(st, [], Some(e))
      case Success(st') => Prepend(dir[k].name, ApplyPending(env, dir, w, st', k + 1))
  {
    hide ApplyOne;
    AppliedExactly(env, dir, st.ledger, st.clock, k, k);
  }

  /** Up applies exactly the pending files, in order, or stops at the first that fails. */
  lemma {:induction false} PendingRange(env: Env, base: Schema, dir: Dir, w: Weather, st: State, k: nat)
    requires Tidy(env, dir, st, k) && k <= |dir|
    ensures var o := ApplyPending(env, dir, w, st, k);
      var t := |o.touched|;
      && k + t <= |dir| && o.touched == Range(dir, k, k + t)
      && Tidy(env, dir, o.state, k + t)
      && (o.error == None <==> k + t == |dir|)
      && (k + t < |dir| ==> StoppedAt(o, dir[k + t].name))
      && (Faithful(env, base, dir, st, k) ==> Faithful(env, base, dir, o.state, k + t))
    decreases |dir| - k
  {
    hide Tidy, Faithful, ApplyOne, Range, StoppedAt, Lookup;
    NamesStep(dir, k, k);
    if k < |dir| && w.fault(Applying, dir[k].name) != Some(Check) {
      PendingStep(env, dir, w, st, k);
      hide ApplyPending;
      var first := ApplyOne(env, dir, w, st, dir[k].name);
      if first.Success? {
        ApplyNext(env, dir, w, st, k);
        PendingRange(env, base, dir, w, first.value, k + 1);
        if Faithful(env, base, dir, st, k) {
          ApplyNextReplays(env, base, dir, w, st, k);
        }
        var rest := ApplyPending(env, dir, w, first.value, k + 1);
        NamesStep(dir, k, k + 1 + |rest.touched|);
        if k + 1 + |rest.touched| < |dir| {
          PrependStops(dir[k].name, rest, dir[k + 1 + |rest.touched|].name);
        }
      } else {
        StopsAtFailure(env, dir, w, st, dir[k].name);
      }
    } else if k < |dir| {
      StopsAtCheck(st, dir[k].name);
    }
  }

  lemma StopsAtFailure(env: Env, dir: Dir, w: Weather, st: State, name: string)
    requires ApplyOne(env, dir, w, st, name).Failure?
    ensures StoppedAt(Outcome(st, [], Some(ApplyOne(env, dir, w, st, name).error)), name)
  {
    FailureNamesFile(env, dir, w, st, name);
  }

  lemma PrependStops(first: string, o: Outcome, name: string)
    ensures StoppedAt(Prepend(first, o), name) <==> StoppedAt(o, name)
  {
  }

  lemma StopsAtCheck(st: State, name: string)
    ensures StoppedAt(Outcome(st, [], Some(Failed(Check, name))), name)
  {
  }

  /** Up, from the first file on: the applied ones are skipped, the pending ones applied in order. */
  lemma UpIsForward(env: Env, base: Schema, dir: Dir, w: Weather, st: State, k: nat)
    requires Tidy(env, dir, st, k) && k <= |dir|
    ensures var o := Up(env, Some(dir), w, st);
      var t := |o.touched|;
      && k + t <= |dir| && o.touched == Range(dir, k, k + t)
      && Tidy(env, dir, o.state, k + t)
      && (o.error == None <==> k + t == |dir| && CheckPasses(dir, w, 0, k))
      && (Faithful(env, base, dir, st, k) ==> Faithful(env, base, dir, o.state, k + t))
  {
    hide Tidy, Faithful, ApplyPending, CheckPasses, Range;
    SkipApplied(env, dir, w, st, k, 0);
    NamesStep(dir, k, k);
    PendingRange(env, base, dir, w, st, k);
  }

  /** Down(n) reverts the last n applied files in LIFO order, or stops at the first it cannot revert. */
  lemma DownIsLifo(env: Env, base: Schema, dir: Dir, w: Weather, st: State, k: nat, n: int)
    requires Tidy(env, dir, st, k) && n > 0 && k <= |dir|
    ensures var o := Down(env, Some(dir), w, st, n);
      var t := |o.touched|;
      && t <= Min(n, k) && o.touched == LastNames(dir, k, t)
      && Tidy(env, dir, o.state, k - t)
      && (o.error == None <==> t == Min(n, k))
      && (t < Min(n, k) ==> StoppedAt(o, dir[k - 1 - t].name))
      && (AllUndo(env, base, dir) && Faithful(env, base, dir, st, k) ==> Faithful(env, base, dir, o.state, k - t))
  {
    hide Tidy, Faithful, AllUndo, RevertAll, NewestFirst, LastNames;
    NewestFirstIsTail(env, dir, st, k, n);
    RevertTail(env, base, dir, w, st, k, Min(n, k));
  }

  lemma {:induction false} RangeSnoc(dir: Dir, k: nat, m: nat)
    requires k < m <= |dir|
    ensures Range(dir, k, m) == Range(dir, k, m - 1) + [dir[m - 1].name]
    decreases m - k
  {
    if k + 1 < m {
      RangeSnoc(dir, k + 1, m);
    }
  }

  lemma {:induction false} ReverseTail(dir: Dir, k: nat, m: nat)
    requires m <= k <= |dir|
    ensures Reverse(LastNames(dir, k, m)) == Range(dir, k - m, k)
    decreases m
  {
    if m > 0 {
      assert LastNames(dir, k, m)[1..] == LastNames(dir, k - 1, m - 1);
      ReverseTail(dir, k - 1, m - 1);
      RangeSnoc(dir, k - m, k);
    }
  }

  /**
   A Redo whose reverting half fails reapplies nothing: it leaves applied exactly
   the files before those it did revert, and the last of these is the one it names.
   */
  lemma RedoStopsWithDown(env: Env, base: Schema, dir: Dir, w: Weather, st: State, k: nat, n: int)
    requires Tidy(env, dir, st, k) && k <= |dir| && n > 0 && Down(env, Some(dir), w, st, n).error.Some?
    ensures var o := Redo(env, Some(dir), w, st, n);
      && o.touched == []
      && exists left: nat :: (k - Min(n, k) < left <= k && Tidy(env, dir, o.state, left)
                                && StoppedAt(o, dir[left - 1].name)
        && (AllUndo(env, base, dir) && Faithful(env, base, dir, st, k) ==> Faithful(env, base, dir, o.state, left)))
  {
    hide Tidy, Faithful, AllUndo, Down;
    DownIsLifo(env, base, dir, w, st, k, n);
    var left := k - |Down(env, Some(dir), w, st, n).touched|;
    assert Tidy(env, dir, Redo(env, Some(dir), w, st, n).state, left);
  }

  /** A Redo whose reverting half succeeds walks forward again over exactly the reverted files. */
  lemma RedoRestores(env: Env, base: Schema, dir: Dir, w: Weather, st: State, k: nat, n: int)
    requires Tidy(env, dir, st, k) && k <= |dir| && n > 0 && Down(env, Some(dir), w, st, n).error == None
    ensures var o := Redo(env, Some(dir), w, st, n);
      var first := k - Min(n, k);
      var t := |o.touched|;
      && first + t <= k && o.touched == Range(dir, first, first + t)
      && Tidy(env, dir, o.state, first + t)
      && (o.error == None <==> first + t == k)
      && (o.error == None ==> o.state.ledger.Keys == st.ledger.Keys)
      && (AllUndo(env, base, dir) && Faithful(env, base, dir, st, k) ==> Faithful(env, base, dir, o.state, first + t))
      && (AllUndo(env, base, dir) && Faithful(env, base, dir, st, k) && o.error == None ==> o.state.schema == st.schema)
  {
    hide Tidy, Faithful, AllUndo, Down, ApplyAll, Reverse, LastNames, Range;
    var down := Down(env, Some(dir), w, st, n);
    var t := |down.touched|;
    DownIsLifo(env, base, dir, w, st, k, n);
    ReverseTail(dir, k, t);
    ApplyRange(env, base, dir, w, down.state, k - t, k);
    var o := Redo(env, Some(dir), w, st, n);
    if o.error.None? {
      SameKeys(env, dir, st, o.state, k);
      if AllUndo(env, base, dir) && Faithful(env, base, dir, st, k) {
        SameSchema(env, base, dir, st, o.state, k);
      }
    }
  }

  /** Whatever happens to it, a Redo never leaves a file applied that was pending before. */
  lemma RedoStaysTidy(env: Env, base: Schema, dir: Dir, w: Weather, st: State, k: nat, n: int)
    requires Tidy(env, dir, st, k) && k <= |dir|
    ensures var o := Redo(env, Some(dir), w, st, n);
      exists k': nat :: (k' <= k && Tidy(env, dir, o.state, k')
        && (AllUndo(env, base, dir) && Faithful(env, base, dir, st, k) ==> Faithful(env, base, dir, o.state, k')))
  {
    hide Tidy, Faithful, AllUndo, Down, Redo, Range, ApplyAll, LastNames;
    if n <= 0 {
      NoCountNoRedo(env, dir, w, st, n);
      assert Tidy(env, dir, Redo(env, Some(dir), w, st, n).state, k);
    } else if Down(env, Some(dir), w, st, n).error == None {
      RedoRestores(env, base, dir, w, st, k, n);
      assert Tidy(env, dir, Redo(env, Some(dir), w, st, n).state,
                  k - Min(n, k) + |Redo(env, Some(dir), w, st, n).touched|);
    } else {
      RedoStopsWithDown(env, base, dir, w, st, k, n);
    }
  }

  lemma NoCountNoRedo(env: Env, dir: Dir, w: Weather, st: State, n: int)
    requires n <= 0
    ensures Redo(env, Some(dir), w, st, n) == Outcome(st, [], Some(BadCount(n)))
  {
  }

  lemma SameSchema(env: Env, base: Schema, dir: Dir, a: State, b: State, k: nat)
    requires Faithful(env, base, dir, a, k) && Faithful(env, base, dir, b, k)
    ensures a.schema == b.schema
  {
  }

  lemma SameReplay(env: Env, base: Schema, dir: Dir, dir': Dir, st: State, k: nat)
    requires Faithful(env, base, dir, st, k) && k <= |dir'| && dir'[..k] == dir[..k]
    ensures Faithful(env, base, dir', st, k)
  {
  }

  lemma {:induction false} KeysOfTidy(env: Env, dir: Dir, ledger: Ledger, clock: nat, k: nat)
    requires TidyRows(env, dir, ledger, clock, k)
    ensures ledger.Keys == set f | f in dir[..k] :: f.name
  {
    if k > 0 {
      var last := dir[k - 1].name;
      KeysOfTidy(env, dir, ledger - {last}, ledger[last].appliedAt, k - 1);
      assert dir[..k] == dir[..k - 1] + [dir[k - 1]];
      assert ledger.Keys == (ledger - {last}).Keys + {last};
    }
  }

  lemma SameKeys(env: Env, dir: Dir, a: State, b: State, k: nat)
    requires Tidy(env, dir, a, k) && Tidy(env, dir, b, k)
    ensures a.ledger.Keys == b.ledger.Keys
  {
    KeysOfTidy(env, dir, a.ledger, a.clock, k);
    KeysOfTidy(env, dir, b.ledger, b.clock, k);
  }

  lemma {:induction false} CountApplied(env: Env, dir: Dir, st: State, k: nat, i: nat)
    requires Tidy(env, dir, st, k) && i <= |dir|
    ensures AppliedFrom(dir, st.ledger, i) == if i < k then k - i else 0
    decreases |dir| - i
  {
    if i < |dir| {
      AppliedExactly(env, dir, st.ledger, st.clock, k, i);
      CountApplied(env, dir, st, k, i + 1);
    }
  }

  lemma NothingRanges(dir: Dir, k: nat)
    requires k <= |dir|
    ensures LastNames(dir, k, 0) == [] && Range(dir, k, k) == []
  {
  }

  lemma {:induction false} NonePending(env: Env, dir: Dir, st: State, k: nat, m: nat)
    requires Tidy(env, dir, st, k) && m <= k <= |dir|
    ensures PendingBelow(dir, st.ledger, m) == []
  {
    hide Tidy, PendingBelow;
    PendingBelowStep(dir, st.ledger, m);
    if m > 0 {
      AppliedAt(env, dir, st, k, m - 1);
      NonePending(env, dir, st, k, m - 1);
    }
  }

  lemma {:induction false} PendingIsRange(env: Env, dir: Dir, st: State, k: nat, m: nat)
    requires Tidy(env, dir, st, k) && k <= m <= |dir|
    ensures PendingBelow(dir, st.ledger, m) == Range(dir, k, m)
  {
    hide Tidy, Range, PendingBelow, LastNames;
    if m == k {
      NonePending(env, dir, st, k, m);
      NothingRanges(dir, k);
    } else {
      AppliedAt(env, dir, st, k, m - 1);
      PendingBelowStep(dir, st.ledger, m);
      PendingIsRange(env, dir, st, k, m - 1);
      RangeSnoc(dir, k, m);
    }
  }

  lemma AppliedAt(env: Env, dir: Dir, st: State, k: nat, i: nat)
    requires Tidy(env, dir, st, k) && i < |dir|
    ensures dir[i].name in st.ledger <==> i < k
  {
    AppliedExactly(env, dir, st.ledger, st.clock, k, i);
  }

  lemma PendingBelowStep(dir: Dir, ledger: Ledger, m: nat)
    requires m <= |dir|
    ensures PendingBelow(dir, ledger, m) ==
      if m == 0 then []
      else if dir[m - 1].name in ledger then PendingBelow(dir, ledger, m - 1)
      else PendingBelow(dir, ledger, m - 1) + [dir[m - 1].name]
  {
  }

  /** How many files a To left applied. */
  function AppliedAfterTo(k: nat, i: nat, o: Outcome): int {
    if i < k then k - |o.touched| else k + |o.touched|
  }

  lemma ToIsDown(env: Env, dir: Dir, w: Weather, st: State, k: nat, i: nat)
    requires Tidy(env, dir, st, k) && i < k && k <= |dir|
    ensures ToIndex(env, dir, w, st, i) ==
      if i + 1 == k then Outcome(st, [], None) else Down(env, Some(dir), w, st, k - (i + 1))
  {
    AppliedExactly(env, dir, st.ledger, st.clock, k, i);
    CountApplied(env, dir, st, k, i + 1);
  }

  lemma ToIsUp(env: Env, dir: Dir, w: Weather, st: State, k: nat, i: nat)
    requires Tidy(env, dir, st, k) && k <= i < |dir|
    ensures ToIndex(env, dir, w, st, i) == ApplyAll(env, dir, w, st, Range(dir, k, i + 1))
  {
    AppliedExactly(env, dir, st.ledger, st.clock, k, i);
    PendingIsRange(env, dir, st, k, i + 1);
  }

  lemma ToIndexReaches(env: Env, base: Schema, dir: Dir, w: Weather, st: State, k: nat, i: nat)
    requires Tidy(env, dir, st, k) && i < |dir| && k <= |dir|
    ensures var o := ToIndex(env, dir, w, st, i);
      var k' := AppliedAfterTo(k, i, o);
      && (if i < k then i + 1 <= k' <= k && o.touched == LastNames(dir, k, k - k')
          else k <= k' <= i + 1 && o.touched == Range(dir, k, k'))
      && Tidy(env, dir, o.state, k')
      && (o.error == None <==> k' == i + 1)
      && (AllUndo(env, base, dir) && Faithful(env, base, dir, st, k) ==> Faithful(env, base, dir, o.state, k'))
  {
    hide Tidy, Faithful, AllUndo, ToIndex, Down, ApplyAll, LastNames, Range, StoppedAt;
    NothingRanges(dir, k);
    if i < k {
      ToIsDown(env, dir, w, st, k, i);
      if i + 1 < k {
        DownIsLifo(env, base, dir, w, st, k, k - (i + 1));
      }
    } else {
      ToIsUp(env, dir, w, st, k, i);
      ApplyRange(env, base, dir, w, st, k, i + 1);
    }
  }

  lemma ToIndexIsIdempotent(env: Env, dir: Dir, w1: Weather, w2: Weather, st: State, k: nat, i: nat)
    requires Tidy(env, dir, st, k) && i < |dir|
    requires ToIndex(env, dir, w1, st, i).error == None
    ensures var st1 := ToIndex(env, dir, w1, st, i).state;
      ToIndex(env, dir, w2, st1, i) == Outcome(st1, [], None)
  {
    assert k <= |dir|;
    hide Tidy, ToIndex;
    var st1 := ToIndex(env, dir, w1, st, i).state;
    ToIndexReaches(env, st.schema, dir, w1, st, k, i);
    ToIsDown(env, dir, w2, st1, i + 1, i);
  }

  lemma ToIndexIsPathIndependent(env: Env, base: Schema, dir: Dir, w1: Weather, w2: Weather, w3: Weather,
                            st: State, k: nat, a: nat, b: nat)
    requires Tidy(env, dir, st, k) && Faithful(env, base, dir, st, k) && AllUndo(env, base, dir)
    requires a < |dir| && b < |dir|
    requires ToIndex(env, dir, w1, st, a).error == None
    requires ToIndex(env, dir, w2, ToIndex(env, dir, w1, st, a).state, b).error == None
    requires ToIndex(env, dir, w3, st, b).error == None
    ensures var there := ToIndex(env, dir, w2, ToIndex(env, dir, w1, st, a).state, b).state;
      var direct := ToIndex(env, dir, w3, st, b).state;
      there.ledger.Keys == direct.ledger.Keys && there.schema == direct.schema
  {
    assert k <= |dir|;
    hide Tidy, Faithful, AllUndo, ToIndex, AppliedAfterTo, Range, LastNames, Ordered, TidyRows, Replay;
    var mid := ToIndex(env, dir, w1, st, a).state;
    ToIndexReaches(env, base, dir, w1, st, k, a);
    ToIndexReaches(env, base, dir, w2, mid, a + 1, b);
    ToIndexReaches(env, base, dir, w3, st, k, b);
    var there, direct := ToIndex(env, dir, w2, mid, b).state, ToIndex(env, dir, w3, st, b).state;
    SameKeys(env, dir, there, direct, b + 1);
    SameSchema(env, base, dir, there, direct, b + 1);
  }

  lemma {:induction false} MatchingAreNames(names: seq<string>, n: int, name: string)
    requires name in Matching(names, n)
    ensures name in names
  {
    if name in Matching(names[..|names| - 1], n) {
      MatchingAreNames(names[..|names| - 1], n, name);
    }
  }

  lemma {:induction false} IndexFinds(dir: Dir, name: string)
    requires name in Names(dir)
    ensures IndexOf(dir, name) >= 0
  {
    var j :| 0 <= j < |dir| && dir[j].name == name;
    if j < |dir| - 1 {
      assert Names(dir[..|dir| - 1])[j] == name;
      IndexFinds(dir[..|dir| - 1], name);
    }
  }

  /**
   A target has a position in the directory exactly when it resolves, and then it is that
   of the file it resolves to.
   */
  lemma TargetResolves(dir: Dir, target: string)
    ensures TargetIndex(dir, target) < 0 <==> Resolve(Names(dir), target).None?
    ensures TargetIndex(dir, target) >= 0 ==> Resolve(Names(dir), target) == Some(dir[TargetIndex(dir, target)].name)
  {
    var names := Names(dir);
    if Resolve(names, target).Some? {
      var name := Resolve(names, target).value;
      if target !in names {
        MatchingAreNames(names, Atoi(target).value, name);
      }
      IndexFinds(dir, name);
    }
  }

  /**
   A target that resolves to no file is refused, and so is any target while some file
   cannot be read; neither changes anything. Otherwise To moves straight to that file,
   stays tidy wherever it stops, and succeeds exactly when the files up to it, and no
   others, are applied.
   */
  lemma ToReaches(env: Env, base: Schema, dir: Dir, w: Weather, st: State, k: nat, target: string)
    requires Tidy(env, dir, st, k) && k <= |dir|
    ensures var o := To(env, Some(dir), w, st, target);
      var i := TargetIndex(dir, target);
      if Resolve(Names(dir), target).None? then o == Outcome(st, [], Some(NoSuchVersion))
      else if StatusFault(dir, w, |dir|).Some? then o == Outcome(st, [], StatusFault(dir, w, |dir|))
      else
        && i >= 0 && Resolve(Names(dir), target) == Some(dir[i].name)
        && var k' := AppliedAfterTo(k, i, o);
        && (if i < k then i + 1 <= k' <= k && o.touched == LastNames(dir, k, k - k')
            else k <= k' <= i + 1 && o.touched == Range(dir, k, k'))
        && Tidy(env, dir, o.state, k')
        && (o.error == None <==> k' == i + 1)
        && (AllUndo(env, base, dir) && Faithful(env, base, dir, st, k) ==> Faithful(env, base, dir, o.state, k'))
  {
    TargetResolves(dir, target);
    hide Tidy, Faithful, AllUndo, ToIndex, TargetIndex, Resolve;
    var i := TargetIndex(dir, target);
    if i >= 0 && StatusFault(dir, w, |dir|).None? {
      ToIndexReaches(env, base, dir, w, st, k, i);
    }
  }

  lemma ToSucceedsSomewhere(env: Env, dir: Dir, w: Weather, st: State, target: string)
    requires To(env, Some(dir), w, st, target).error == None
    ensures TargetIndex(dir, target) >= 0 && StatusFault(dir, w, |dir|).None?
    ensures To(env, Some(dir), w, st, target) == ToIndex(env, dir, w, st, TargetIndex(dir, target))
  {
  }

  /**
   Repeating a successful To is a no-op, whatever the weather: nothing touched, nothing
   changed, and no error either unless a file can no longer be read.
   */
  lemma ToIsIdempotent(env: Env, dir: Dir, w1: Weather, w2: Weather, st: State, k: nat, target: string)
    requires Tidy(env, dir, st, k) && To(env, Some(dir), w1, st, target).error == None
    ensures var st1 := To(env, Some(dir), w1, st, target).state;
      To(env, Some(dir), w2, st1, target) == Outcome(st1, [], StatusFault(dir, w2, |dir|))
  {
    ToSucceedsSomewhere(env, dir, w1, st, target);
    hide Tidy, ToIndex, TargetIndex;
    ToIndexIsIdempotent(env, dir, w1, w2, st, k, TargetIndex(dir, target));
  }

  /** To(a) then To(b) ends with the same files applied and the same schema as To(b) alone. */
  lemma ToIsPathIndependent(env: Env, base: Schema, dir: Dir, w1: Weather, w2: Weather, w3: Weather,
                            st: State, k: nat, a: string, b: string)
    requires Tidy(env, dir, st, k) && Faithful(env, base, dir, st, k) && AllUndo(env, base, dir)
    requires To(env, Some(dir), w1, st, a).error == None
    requires To(env, Some(dir), w2, To(env, Some(dir), w1, st, a).state, b).error == None
    requires To(env, Some(dir), w3, st, b).error == None
    ensures var there := To(env, Some(dir), w2, To(env, Some(dir), w1, st, a).state, b).state;
      var direct := To(env, Some(dir), w3, st, b).state;
      there.ledger.Keys == direct.ledger.Keys && there.schema == direct.schema
  {
    ToSucceedsSomewhere(env, dir, w1, st, a);
    ToSucceedsSomewhere(env, dir, w2, To(env, Some(dir), w1, st, a).state, b);
    ToSucceedsSomewhere(env, dir, w3, st, b);
    hide Tidy, Faithful, AllUndo, To, ToIndex, TargetIndex;
    ToIndexIsPathIndependent(env, base, dir, w1, w2, w3, st, k, TargetIndex(dir, a), TargetIndex(dir, b));
  }

  // ----- Edits to the directory ----------------------------------------------

  /** SHA-256 as a collision-free, never empty fingerprint. */
  ghost predicate GoodSum(env: Env) {
    && (forall a, b :: env.sum(a) == env.sum(b) ==> a == b)
    && (forall a :: env.sum(a) != "")
  }

  lemma {:induction false} NoMismatch(env: Env, dir: Dir, ledger: Ledger, n: nat)
    requires n <= |dir|
    ensures Mismatches(env, dir, ledger, n) == [] <==>
      forall i :: 0 <= i < n && dir[i].name in ledger ==> !Mismatch(env, ledger[dir[i].name], dir[i].content)
  {
    if n > 0 {
      NoMismatch(env, dir, ledger, n - 1);
    }
  }

  ghost predicate SortsAfter(ledger: Ledger, name: string) {
    forall applied :: applied in ledger ==> Less(applied, name)
  }

  /** No applied file is gone, and every other file comes after the applied ones. */
  ghost predicate KeepsApplied(ledger: Ledger, dir': Dir) {
    && Ordered(dir')
    && (forall name :: name in ledger ==> IndexOf(dir', name) >= 0)
    && (forall f :: f in dir' && f.name !in ledger ==> SortsAfter(ledger, f.name))
  }

  lemma {:induction false} AppliedIndex(env: Env, dir: Dir, ledger: Ledger, clock: nat, k: nat, name: string)
    returns (i: nat)
    requires TidyRows(env, dir, ledger, clock, k) && name in ledger
    ensures i < k && dir[i].name == name
  {
    var last := dir[k - 1].name;
    if name == last {
      i := k - 1;
    } else {
      i := AppliedIndex(env, dir, ledger - {last}, ledger[last].appliedAt, k - 1, name);
    }
  }

  lemma {:induction false} AppliedNamesStay(env: Env, dir: Dir, st: State, k: nat, dir': Dir, i: nat)
    requires Tidy(env, dir, st, k) && KeepsApplied(st.ledger, dir') && i <= k
    ensures i <= |dir'| && forall j :: 0 <= j < i ==> dir'[j].name == dir[j].name
  {
    hide KeepsApplied;
    if i > 0 {
      AppliedNamesStay(env, dir, st, k, dir', i - 1);
      NextNameStays(env, dir, st, k, dir', i - 1);
    }
  }

  lemma NextNameStays(env: Env, dir: Dir, st: State, k: nat, dir': Dir, i: nat)
    requires Tidy(env, dir, st, k) && KeepsApplied(st.ledger, dir') && i < k
    requires i <= |dir'| && forall j :: 0 <= j < i ==> dir'[j].name == dir[j].name
    ensures i < |dir'| && dir'[i].name == dir[i].name
  {
    AppliedExactly(env, dir, st.ledger, st.clock, k, i);
    var at := IndexOf(dir', dir[i].name);
    if at < i {
      NamesDistinct(dir, at, i);
    } else {
      NothingSlipsIn(env, dir, st, k, dir', i, at);
    }
  }

  lemma NothingSlipsIn(env: Env, dir: Dir, st: State, k: nat, dir': Dir, i: nat, at: nat)
    requires Tidy(env, dir, st, k) && KeepsApplied(st.ledger, dir')
    requires i < k && i <= at < |dir'| && dir'[at].name == dir[i].name
    requires forall j :: 0 <= j < i ==> dir'[j].name == dir[j].name
    ensures at == i
  {
    if i < at {
      var name, there := dir[i].name, dir'[i].name;
      AppliedExactly(env, dir, st.ledger, st.clock, k, i);
      OrderedPair(dir', |dir'|, i, at);
      LessAsymmetric(there, name);
      if there in st.ledger {
        var from := AppliedIndex(env, dir, st.ledger, st.clock, k, there);
        if from < i {
          NamesDistinct(dir', from, i);
        } else if i < from {
          OrderedPair(dir, |dir|, i, from);
        }
      } else {
        LaterSorts(st.ledger, dir', i, name);
        LessAsymmetric(name, there);
      }
    }
  }

  lemma LaterSorts(ledger: Ledger, dir': Dir, i: nat, name: string)
    requires KeepsApplied(ledger, dir') && i < |dir'| && dir'[i].name !in ledger && name in ledger
    ensures Less(name, dir'[i].name)
  {
    assert dir'[i] in dir';
    assert SortsAfter(ledger, dir'[i].name);
  }

  /**
   VerifyChecksums is exact: as long as no applied file is removed and no new
   one sorts before them, it reports nothing exactly when every applied file
   still has the content that was applied.
   */
  lemma VerifyChecksumsIsExact(env: Env, dir: Dir, st: State, k: nat, dir': Dir)
    requires GoodSum(env) && Tidy(env, dir, st, k) && KeepsApplied(st.ledger, dir')
    ensures k <= |dir'|
    ensures Mismatches(env, dir', st.ledger, |dir'|) == [] <==> dir'[..k] == dir[..k]
  {
    AppliedNamesStay(env, dir, st, k, dir', k);
    NoMismatch(env, dir', st.ledger, |dir'|);
    forall j | 0 <= j < k
      ensures dir'[j].name in st.ledger
      ensures Mismatch(env, st.ledger[dir'[j].name], dir'[j].content) <==> dir'[j] != dir[j]
    {
      AppliedChecksum(env, dir, st.ledger, st.clock, k, j);
    }
    forall i | k <= i < |dir'|
      ensures dir'[i].name !in st.ledger
    {
      PendingStays(env, dir, st, k, dir', i);
    }
    SamePrefix(dir', dir, k);
  }

  lemma SamePrefix<T>(a: seq<T>, b: seq<T>, k: nat)
    requires k <= |a| && k <= |b|
    ensures a[..k] == b[..k] <==> forall j :: 0 <= j < k ==> a[j] == b[j]
  {
    if a[..k] == b[..k] {
      assert forall j :: 0 <= j < k ==> a[j] == a[..k][j] == b[..k][j] == b[j];
    }
  }

  lemma PendingStays(env: Env, dir: Dir, st: State, k: nat, dir': Dir, i: nat)
    requires Tidy(env, dir, st, k) && KeepsApplied(st.ledger, dir') && k <= i < |dir'|
    ensures dir'[i].name !in st.ledger
  {
    AppliedNamesStay(env, dir, st, k, dir', k);
    if dir'[i].name in st.ledger {
      var j := AppliedIndex(env, dir, st.ledger, st.clock, k, dir'[i].name);
      NamesDistinct(dir', i, j);
    }
  }

  lemma {:induction false} AppliedChecksum(env: Env, dir: Dir, ledger: Ledger, clock: nat, k: nat, j: nat)
    requires Ordered(dir) && TidyRows(env, dir, ledger, clock, k) && j < k
    ensures dir[j].name in ledger && ledger[dir[j].name].checksum == Some(env.sum(dir[j].content))
  {
    if j < k - 1 {
      var last := dir[k - 1].name;
      NamesDistinct(dir, j, k - 1);
      AppliedChecksum(env, dir, ledger - {last}, ledger[last].appliedAt, k - 1, j);
    }
  }

  lemma {:induction false} TidyPrefix(env: Env, dir: Dir, dir': Dir, ledger: Ledger, clock: nat, k: nat)
    requires TidyRows(env, dir, ledger, clock, k) && k <= |dir'| && dir'[..k] == dir[..k]
    ensures TidyRows(env, dir', ledger, clock, k)
  {
    if k > 0 {
      assert dir'[k - 1] == dir'[..k][k - 1] == dir[..k][k - 1] == dir[k - 1];
      assert dir'[..k - 1] == dir'[..k][..k - 1] == dir[..k][..k - 1] == dir[..k - 1];
      var last := dir[k - 1].name;
      TidyPrefix(env, dir, dir', ledger - {last}, ledger[last].appliedAt, k - 1);
    }
  }

  lemma EditKeepsTidy(env: Env, dir: Dir, st: State, k: nat, dir': Dir)
    requires GoodSum(env) && Tidy(env, dir, st, k) && KeepsApplied(st.ledger, dir')
    requires Mismatches(env, dir', st.ledger, |dir'|) == []
    ensures k <= |dir| && k <= |dir'| && dir'[..k] == dir[..k] && Tidy(env, dir', st, k)
  {
    VerifyChecksumsIsExact(env, dir, st, k, dir');
    TidyPrefix(env, dir, dir', st.ledger, st.clock, k);
  }

  // ----- Runs ----------------------------------------------------------------

  datatype Op =
    | DoUp(w: Weather)
    | DoDown(w: Weather, n: int)
    | DoRedo(w: Weather, n: int)
    | DoTo(w: Weather, target: string)
    | DoEdit(dir: Dir)

  datatype World = World(dir: Dir, st: State)

  ghost function Step(env: Env, world: World, op: Op): World {
    match op
    case DoUp(w) => world.(st := Up(env, Some(world.dir), w, world.st).state)
    case DoDown(w, n) => world.(st := Down(env, Some(world.dir), w, world.st, n).state)
    case DoRedo(w, n) => world.(st := Redo(env, Some(world.dir), w, world.st, n).state)
    case DoTo(w, target) => world.(st := To(env, Some(world.dir), w, world.st, target).state)
    case DoEdit(dir) => world.(dir := dir)
  }

  /** The edits a run may make: applied files stay put, and VerifyChecksums has nothing to report. */
  ghost predicate Allowed(env: Env, base: Schema, world: World, op: Op) {
    op.DoEdit? ==>
      && KeepsApplied(world.st.ledger, op.dir)
      && Mismatches(env, op.dir, world.st.ledger, |op.dir|) == []
      && AllUndo(env, base, op.dir)
  }

  ghost function Run(env: Env, world: World, ops: seq<Op>): World
    decreases |ops|
  {
    if ops == [] then world else Run(env, Step(env, world, ops[0]), ops[1..])
  }

  ghost predicate AllAllowed(env: Env, base: Schema, world: World, ops: seq<Op>)
    decreases |ops|
  {
    ops == [] || (Allowed(env, base, world, ops[0]) && AllAllowed(env, base, Step(env, world, ops[0]), ops[1..]))
  }

  /** The invariant of a database that only the engine has touched. */
  ghost predicate Sound(env: Env, base: Schema, world: World) {
    && AllUndo(env, base, world.dir)
    && exists k: nat :: Tidy(env, world.dir, world.st, k) && Faithful(env, base, world.dir, world.st, k)
  }

  lemma StartsSound(env: Env, base: Schema, dir: Dir)
    requires Ordered(dir) && AllUndo(env, base, dir)
    ensures Sound(env, base, World(dir, State(base, map[], 0)))
  {
    assert dir[..0] == [];
    assert Tidy(env, dir, State(base, map[], 0), 0);
  }

  ghost function AppliedCount(env: Env, base: Schema, world: World): (k: nat)
    requires Sound(env, base, world)
    ensures k <= |world.dir| && Tidy(env, world.dir, world.st, k) && Faithful(env, base, world.dir, world.st, k)
  {
    var k: nat :| Tidy(env, world.dir, world.st, k) && Faithful(env, base, world.dir, world.st, k);
    k
  }

  lemma StepKeepsSound(env: Env, base: Schema, world: World, op: Op)
    requires GoodSum(env) && Sound(env, base, world) && Allowed(env, base, world, op)
    ensures Sound(env, base, Step(env, world, op))
  {
    hide Tidy, Faithful, AllUndo, Redo, RevertAll, ApplyPending, ToIndex, KeepsApplied, Mismatches;
    var dir, st := world.dir, world.st;
    var k := AppliedCount(env, base, world);
    var st' := Step(env, world, op).st;
    match op
    case DoUp(w) =>
      UpIsForward(env, base, dir, w, st, k);
      assert Tidy(env, dir, st', k + |Up(env, Some(dir), w, st).touched|);
    case DoDown(w, n) =>
      if n > 0 {
        DownIsLifo(env, base, dir, w, st, k, n);
        assert Tidy(env, dir, st', k - |Down(env, Some(dir), w, st, n).touched|);
      }
    case DoRedo(w, n) => RedoStaysTidy(env, base, dir, w, st, k, n);
    case DoTo(w, target) =>
      var i := TargetIndex(dir, target);
      if i >= 0 && StatusFault(dir, w, |dir|).None? {
        ToIndexReaches(env, base, dir, w, st, k, i);
        assert Tidy(env, dir, st', AppliedAfterTo(k, i, ToIndex(env, dir, w, st, i)));
      }
    case DoEdit(dir') =>
      EditKeepsTidy(env, dir, st, k, dir');
      SameReplay(env, base, dir, dir', st, k);
      assert Tidy(env, dir', st', k);
  }

  /** Every run of the engine, failing anywhere, leaves a prefix applied and the schema its replay. */
  lemma {:induction false} RunKeepsSound(env: Env, base: Schema, world: World, ops: seq<Op>)
    requires GoodSum(env) && Sound(env, base, world) && AllAllowed(env, base, world, ops)
    ensures Sound(env, base, Run(env, world, ops))
    decreases |ops|
  {
    if ops != [] {
      StepKeepsSound(env, base, world, ops[0]);
      RunKeepsSound(env, base, Step(env, world, ops[0]), ops[1..]);
    }
  }
}
