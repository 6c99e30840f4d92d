/**
 What single calls of the migration engine come to for whoever makes them
 (internal/db/migrate.go): when one file's transaction succeeds and which SQL it
 runs, migrations that cannot be undone, the direction of a To, and what
 VerifyChecksums lists.
 */
module MigrationSteps {
  import opened Prelude
  import opened Text
  import opened MigrationFile
  import opened MigrationNumbers
  import opened MigrationEngine
  import opened MigrationRuns

  // ----- One file's transaction ------------------------------------------------

  const FATAL: set<Stage> := {Read, Begin, Exec, Record, Commit}

  predicate Interrupted(w: Weather, phase: Phase, name: string) {
    w.fault(phase, name).Some? && w.fault(phase, name).value in FATAL
  }

  /**
   A file is applied exactly if it is there, not recorded yet, its Up section runs and
   nothing else fails; the record then carries the checksum of the whole file.
   */
  lemma ApplySucceedsIff(env: Env, dir: Dir, w: Weather, st: State, name: string)
    ensures ApplyOne(env, dir, w, st, name).Success? <==>
      && Lookup(dir, name).Some? && name !in st.ledger && !Interrupted(w, Applying, name)
      && env.exec(UpSql(Lookup(dir, name).value), st.schema).Some?
    ensures ApplyOne(env, dir, w, st, name).Success? ==>
      var content, st' := Lookup(dir, name).value, ApplyOne(env, dir, w, st, name).value;
      && Some(st'.schema) == env.exec(UpSql(content), st.schema)
      && st'.clock == st.clock + w.elapsed(Applying, name)
      && name in st'.ledger && st'.ledger[name] == Row(st'.clock, Some(env.sum(content)))
      && st'.ledger - {name} == st.ledger
  {
    hide UpSql;
    if ApplyOne(env, dir, w, st, name).Success? {
      assert ApplyOne(env, dir, w, st, name).value.ledger - {name} == st.ledger;
    }
  }

  /**
   A file is reverted exactly if it is there, something that is not white space follows
   its last Down marker, that SQL runs, and nothing else fails.
   */
  lemma RevertSucceedsIff(env: Env, dir: Dir, w: Weather, st: State, name: string)
    ensures RevertOne(env, dir, w, st, name).Success? <==>
      && Lookup(dir, name).Some? && HasDownText(Lookup(dir, name).value) && !Interrupted(w, Reverting, name)
      && env.exec(DownSql(Lookup(dir, name).value), st.schema).Some?
    ensures RevertOne(env, dir, w, st, name).Success? ==>
      var content, st' := Lookup(dir, name).value, RevertOne(env, dir, w, st, name).value;
      && Some(st'.schema) == env.exec(DownSql(content), st.schema)
      && st'.ledger == st.ledger - {name} && st'.clock == st.clock
  {
    hide DownSql, HasDownText, Revertible;
    if Lookup(dir, name).Some? {
      RevertibleIff(Lookup(dir, name).value);
    }
  }

  /**
   Of a file as it is laid out, applying runs the Up section, reverting the Down section,
   and neither anything else.
   */
  lemma EachSectionIsRun(
      env: Env, dir: Dir, w: Weather, st: State, name: string, preamble: string, up: string, down: string)
    requires FreeOf(up, UP_MARKER) && FreeOf(down, UP_MARKER) && FreeOf(down, DOWN_MARKER)
    requires Lookup(dir, name) == Some(Print(preamble, up, down))
    ensures ApplyOne(env, dir, w, st, name).Success? ==>
      env.exec(up, st.schema) == Some(ApplyOne(env, dir, w, st, name).value.schema)
    ensures RevertOne(env, dir, w, st, name).Success? ==>
      env.exec(down, st.schema) == Some(RevertOne(env, dir, w, st, name).value.schema)
  {
    SplitInvertsPrint(preamble, up, down);
    ApplySucceedsIff(env, dir, w, st, name);
    RevertSucceedsIff(env, dir, w, st, name);
    hide ApplyOne, RevertOne, Print;
  }

  // ----- Migrations that cannot be undone ----------------------------------------

  /** No Down section, or one that says nothing. */
  ghost predicate OneWay(dir: Dir, name: string) {
    Lookup(dir, name).Some? ==> !HasDownText(Lookup(dir, name).value)
  }

  /** Such a file is refused, by name, and nothing has changed; nothing after it is tried. */
  lemma OneWayIsRefused(env: Env, dir: Dir, w: Weather, st: State, name: string, rest: seq<string>)
    requires OneWay(dir, name)
    ensures var o := RevertAll(env, dir, w, st, [name] + rest);
      && o.state == st && o.touched == []
      && (o.error == Some(Failed(NoDown, name)) || o.error == Some(Failed(Read, name)))
      && (Lookup(dir, name).Some? && w.fault(Reverting, name) != Some(Read) ==> o.error == Some(Failed(NoDown, name)))
  {
    if Lookup(dir, name).Some? {
      RevertibleIff(Lookup(dir, name).value);
    }
    assert ([name] + rest)[0] == name;
    hide Revertible, HasDownText, DownSql;
  }

  lemma BlankIsFree(s: string, marker: string)
    requires Blank(s) && Solid(marker)
    ensures FreeOf(s, marker)
  {
    hide TrimSpace;
    JoinSplit(s);
    BlankLines(Split(s));
    forall line | line in Split(s)
      ensures !IsMarker(line, marker)
    {
      BlankIff(line);
    }
  }

  /**
   A scaffolded file whose Down section was left blank counts as having one, and is
   refused all the same: were its empty SQL run, the file would count as pending again
   with everything it made still there.
   */
  lemma BlankDownIsRefused(
      env: Env, dir: Dir, w: Weather, st: State, name: string, preamble: string, up: string, down: string)
    requires FreeOf(up, UP_MARKER) && Blank(down)
    requires Lookup(dir, name) == Some(Print(preamble, up, down))
    ensures SplitSql(Print(preamble, up, down)).hasDown && OneWay(dir, name)
    ensures RevertOne(env, dir, w, st, name).Failure?
  {
    MarkersAreSolid();
    BlankIsFree(down, UP_MARKER);
    BlankIsFree(down, DOWN_MARKER);
    SplitInvertsPrint(preamble, up, down);
    BlankIff(down);
    RevertibleIff(Print(preamble, up, down));
    RevertSucceedsIff(env, dir, w, st, name);
    hide Print, RevertOne, TrimSpace, HasDownText;
  }

  /** A Down whose newest file is one-way stops right there and names it. */
  lemma DownStopsAtOneWay(env: Env, dir: Dir, w: Weather, st: State, k: nat, n: int)
    requires Tidy(env, dir, st, k) && 0 < k <= |dir| && n > 0 && OneWay(dir, dir[k - 1].name)
    ensures var o := Down(env, Some(dir), w, st, n);
      o.state == st && o.touched == [] && StoppedAt(o, dir[k - 1].name)
  {
    hide Tidy, OneWay, RevertAll;
    NewestFirstIsTail(env, dir, st, k, n);
    NamesStep(dir, k, Min(n, k));
    OneWayIsRefused(env, dir, w, st, dir[k - 1].name, LastNames(dir, k - 1, Min(n, k) - 1));
  }

  lemma {:induction false} RevertAllKeepsOneWay(
      env: Env, dir: Dir, w: Weather, st: State, names: seq<string>, name: string)
    requires name in st.ledger && OneWay(dir, name)
    ensures name in RevertAll(env, dir, w, st, names).state.ledger
    decreases |names|
  {
    if names != [] {
      RevertSucceedsIff(env, dir, w, st, names[0]);
      hide RevertOne, HasDownText;
      if RevertOne(env, dir, w, st, names[0]).Success? {
        RevertAllKeepsOneWay(env, dir, w, RevertOne(env, dir, w, st, names[0]).value, names[1..], name);
      }
    }
  }

  lemma {:induction false} ApplyAllKeeps(env: Env, dir: Dir, w: Weather, st: State, names: seq<string>, name: string)
    requires name in st.ledger
    ensures name in ApplyAll(env, dir, w, st, names).state.ledger
    decreases |names|
  {
    if names != [] {
      ApplySucceedsIff(env, dir, w, st, names[0]);
      hide ApplyOne;
      if ApplyOne(env, dir, w, st, names[0]).Success? {
        ApplyAllKeeps(env, dir, w, ApplyOne(env, dir, w, st, names[0]).value, names[1..], name);
      }
    }
  }

  lemma {:induction false} ApplyPendingKeeps(env: Env, dir: Dir, w: Weather, st: State, i: nat, name: string)
    requires i <= |dir| && name in st.ledger
    ensures name in ApplyPending(env, dir, w, st, i).state.ledger
    decreases |dir| - i
  {
    if i < |dir| {
      ApplySucceedsIff(env, dir, w, st, dir[i].name);
      hide ApplyOne;
      if dir[i].name in st.ledger {
        ApplyPendingKeeps(env, dir, w, st, i + 1, name);
      } else if ApplyOne(env, dir, w, st, dir[i].name).Success? {
        ApplyPendingKeeps(env, dir, w, ApplyOne(env, dir, w, st, dir[i].name).value, i + 1, name);
      }
    }
  }

  lemma DownKeepsOneWay(env: Env, dir: Dir, w: Weather, st: State, n: int, name: string)
    requires name in st.ledger && OneWay(dir, name)
    ensures name in Down(env, Some(dir), w, st, n).state.ledger
  {
    hide OneWay, RevertAll;
    if n > 0 {
      RevertAllKeepsOneWay(env, dir, w, st, NewestFirst(st.ledger, n), name);
    }
  }

  lemma StepKeepsOneWay(env: Env, world: World, op: Op, name: string)
    requires name in world.st.ledger && OneWay(world.dir, name)
    ensures name in Step(env, world, op).st.ledger
  {
    hide OneWay, RevertAll, ApplyAll, ApplyPending, Down;
    var dir, st := world.dir, world.st;
    match op
    case DoUp(w) => ApplyPendingKeeps(env, dir, w, st, 0, name);
    case DoDown(w, n) => DownKeepsOneWay(env, dir, w, st, n, name);
    case DoRedo(w, n) =>
      DownKeepsOneWay(env, dir, w, st, n, name);
      var down := Down(env, Some(dir), w, st, n);
      ApplyAllKeeps(env, dir, w, down.state, Reverse(down.touched), name);
    case DoTo(w, target) =>
      var i := TargetIndex(dir, target);
      if i >= 0 {
        DownKeepsOneWay(env, dir, w, st, AppliedFrom(dir, st.ledger, i + 1), name);
        ApplyAllKeeps(env, dir, w, st, PendingBelow(dir, st.ledger, i + 1), name);
      }
    case DoEdit(_) =>
  }

  /** Once applied, a migration that cannot be undone stays applied over every run that leaves it so. */
  lemma {:induction false} OneWayStaysApplied(env: Env, world: World, ops: seq<Op>, name: string)
    requires name in world.st.ledger && OneWay(world.dir, name)
    requires forall i :: 0 <= i < |ops| && ops[i].DoEdit? ==> OneWay(ops[i].dir, name)
    ensures name in Run(env, world, ops).st.ledger
    decreases |ops|
  {
    hide OneWay;
    if ops != [] {
      StepKeepsOneWay(env, world, ops[0], name);
      OneWayStaysApplied(env, Step(env, world, ops[0]), ops[1..], name);
    }
  }

  // ----- A missing directory, a bad count ----------------------------------------

  /** Without a directory there is nothing to apply or revert, but no version to go to either. */
  lemma WithoutDirectory(env: Env, w: Weather, st: State, n: int, target: string)
    ensures Up(env, None, w, st) == Outcome(st, [], None)
    ensures To(env, None, w, st, target) == Outcome(st, [], Some(NoDirectory))
    ensures Down(env, None, w, st, n) == Outcome(st, [], if n >= 1 then None else Some(BadCount(n)))
    ensures Redo(env, None, w, st, n) == Outcome(st, [], if n >= 1 then None else Some(BadCount(n)))
  {
  }

  /** A count below one is refused before anything is read or changed. */
  lemma CountIsPositive(env: Env, dir: Dir, w: Weather, st: State, n: int)
    requires n < 1
    ensures Down(env, Some(dir), w, st, n) == Outcome(st, [], Some(BadCount(n)))
    ensures Redo(env, Some(dir), w, st, n) == Outcome(st, [], Some(BadCount(n)))
  {
  }

  /** The i-th file is the first whose status cannot be read. */
  predicate FirstUnread(dir: Dir, w: Weather, n: nat, i: nat)
    requires n <= |dir|
  {
    && i < n && w.fault(Listing, dir[i].name).Some?
    && forall j :: 0 <= j < i ==> w.fault(Listing, dir[j].name) == None
  }

  /** The status is read in full if and only if no file fails; otherwise the first that does is named. */
  lemma {:induction false} StatusFaultIff(dir: Dir, w: Weather, n: nat, i: nat)
    requires n <= |dir|
    ensures StatusFault(dir, w, n) == None <==> forall j :: 0 <= j < n ==> w.fault(Listing, dir[j].name) == None
    ensures FirstUnread(dir, w, n, i) ==>
      StatusFault(dir, w, n) == Some(Failed(w.fault(Listing, dir[i].name).value, dir[i].name))
  {
    if n > 0 {
      StatusFaultIff(dir, w, n - 1, i);
    }
  }

  // ----- Which way a To goes -------------------------------------------------------

  lemma {:induction false} SomeAppliedFrom(dir: Dir, ledger: Ledger, n: nat)
    requires n <= |dir|
    ensures AppliedFrom(dir, ledger, n) > 0 <==> exists j :: n <= j < |dir| && dir[j].name in ledger
    decreases |dir| - n
  {
    if n < |dir| {
      SomeAppliedFrom(dir, ledger, n + 1);
    }
  }

  /**
   The direction is "up" exactly if the target's file is not applied, "down" exactly if
   it is and some later file is too, and empty otherwise, refusals included.
   */
  lemma DirectionIff(dir: Dir, w: Weather, ledger: Ledger, target: string)
    ensures var i := TargetIndex(dir, target);
      var way := Direction(Some(dir), w, ledger, target);
      var goes := i >= 0 && StatusFault(dir, w, |dir|).None?;
      && way in {"up", "down", ""}
      && (way == "up" <==> goes && dir[i].name !in ledger)
      && (way == "down" <==>
            goes && dir[i].name in ledger && exists j :: i < j < |dir| && dir[j].name in ledger)
  {
    hide TargetIndex;
    var i := TargetIndex(dir, target);
    if i >= 0 {
      SomeAppliedFrom(dir, ledger, i + 1);
    }
  }

  /** And what was touched went that way: with "up" nothing is reverted, with "down" nothing is applied. */
  lemma DirectionIsKept(env: Env, dir: Dir, w: Weather, st: State, k: nat, target: string)
    requires Tidy(env, dir, st, k) && k <= |dir|
    ensures var o := To(env, Some(dir), w, st, target);
      var way := Direction(Some(dir), w, st.ledger, target);
      && (way == "up" ==> k + |o.touched| <= |dir| && o.touched == Range(dir, k, k + |o.touched|)
                          && Tidy(env, dir, o.state, k + |o.touched|))
      && (way == "down" ==> |o.touched| <= k && o.touched == LastNames(dir, k, |o.touched|)
                            && Tidy(env, dir, o.state, k - |o.touched|))
      && (way == "" ==> o.state == st && o.touched == [])
  {
    hide Tidy, To, Faithful, AllUndo, Direction, TargetIndex, Resolve, Names, StatusFault, LastNames, Range;
    DirectionAt(env, dir, w, st, k, target);
    TargetResolves(dir, target);
    if Direction(Some(dir), w, st.ledger, target) == "" {
      StaysPut(env, dir, w, st, k, target);
    } else {
      ToReaches(env, st.schema, dir, w, st, k, target);
    }
  }

  lemma DirectionAt(env: Env, dir: Dir, w: Weather, st: State, k: nat, target: string)
    requires Tidy(env, dir, st, k)
    ensures var i := TargetIndex(dir, target);
      Direction(Some(dir), w, st.ledger, target) ==
        if i < 0 || StatusFault(dir, w, |dir|).Some? || i + 1 == k then "" else if i < k then "down" else "up"
  {
    hide TargetIndex, StatusFault, TidyRows, Ordered;
    var i := TargetIndex(dir, target);
    if i >= 0 {
      AppliedExactly(env, dir, st.ledger, st.clock, k, i);
      CountApplied(env, dir, st, k, i + 1);
      hide AppliedFrom;
    }
  }

  lemma StaysPut(env: Env, dir: Dir, w: Weather, st: State, k: nat, target: string)
    requires Tidy(env, dir, st, k) && k <= |dir| && Direction(Some(dir), w, st.ledger, target) == ""
    ensures To(env, Some(dir), w, st, target).state == st && To(env, Some(dir), w, st, target).touched == []
  {
    hide Tidy, Direction, TargetIndex, StatusFault, ToIndex;
    DirectionAt(env, dir, w, st, k, target);
    var i := TargetIndex(dir, target);
    if i + 1 == k && i >= 0 {
      ToIsDown(env, dir, w, st, k, i);
    }
  }

  // ----- What VerifyChecksums lists --------------------------------------------------

  /** The file was applied, its checksum recorded, and its content is no longer that. */
  predicate Edited(env: Env, f: File, ledger: Ledger) {
    f.name in ledger && match ledger[f.name].checksum
      case None => false
      case Some(sum) => sum != "" && sum != env.sum(f.content)
  }

  /**
   The names listed are exactly those of the edited files, in filename order and once
   each; a file without a recorded checksum is never among them.
   */
  lemma {:induction false} MismatchesAre(env: Env, dir: Dir, ledger: Ledger, n: nat)
    requires n <= |dir| && Ordered(dir)
    ensures var listed := Mismatches(env, dir, ledger, n);
      && (forall i :: 0 <= i < n ==> (dir[i].name in listed <==> Edited(env, dir[i], ledger)))
      && (forall name :: name in listed ==> exists i :: 0 <= i < n && dir[i].name == name)
      && (forall i, j :: 0 <= i < j < |listed| ==> Less(listed[i], listed[j]))
  {
    hide Ordered, Edited;
    if n > 0 {
      MismatchesAre(env, dir, ledger, n - 1);
      EditedIsMismatch(env, dir[n - 1], ledger);
      forall i | 0 <= i < n - 1
        ensures Less(dir[i].name, dir[n - 1].name) && dir[i].name != dir[n - 1].name
      {
        InOrder(dir, i, n - 1);
      }
      var before := Mismatches(env, dir, ledger, n - 1);
      forall x | 0 <= x < |before|
        ensures Less(before[x], dir[n - 1].name)
      {
        assert before[x] in before;
      }
    }
  }

  lemma InOrder(dir: Dir, i: nat, j: nat)
    requires Ordered(dir) && i < j < |dir|
    ensures Less(dir[i].name, dir[j].name) && dir[i].name != dir[j].name
  {
    OrderedPair(dir, |dir|, i, j);
    LessIrreflexive(dir[i].name);
  }

  lemma EditedIsMismatch(env: Env, f: File, ledger: Ledger)
    ensures Edited(env, f, ledger) <==> f.name in ledger && Mismatch(env, ledger[f.name], f.content)
  {
  }
}
