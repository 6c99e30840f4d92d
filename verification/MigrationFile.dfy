/**
 The marker format of a migration file: one file holds both the SQL that
 applies a migration and the SQL that undoes it (internal/db/migrate.go).
 */
module MigrationFile {
  import opened Text

  const UP_MARKER := "-- +migrate Up"
  const DOWN_MARKER := "-- +migrate Down"

  datatype Sections = Sections(up: string, down: string, hasDown: bool)

  predicate IsMarker(line: string, marker: string) {
    TrimSpace(line) == marker
  }

  /** Position of the last of the first `n` lines that is `marker`, or -1. */
  function LastMarkerBelow(lines: seq<string>, marker: string, n: nat): (i: int)
    requires n <= |lines|
    ensures -1 <= i < n
  {
    if n == 0 then -1
    else if IsMarker(lines[n - 1], marker) then n - 1
    else LastMarkerBelow(lines, marker, n - 1)
  }

  lemma {:induction false} LastMarkerBelowIsLast(lines: seq<string>, marker: string, n: nat)
    requires n <= |lines|
    ensures var i := LastMarkerBelow(lines, marker, n);
      && (i >= 0 ==> IsMarker(lines[i], marker))
      && forall j :: i < j < n ==> !IsMarker(lines[j], marker)
  {
    if n > 0 && !IsMarker(lines[n - 1], marker) {
      LastMarkerBelowIsLast(lines, marker, n - 1);
    }
  }

  function LastMarker(lines: seq<string>, marker: string): (i: int) {
    LastMarkerBelow(lines, marker, |lines|)
  }

  /** The two sections that `lines`, the lines of `content`, hold for markers `up` and `down`. */
  function SectionsOf(content: string, lines: seq<string>, up: string, down: string): Sections {
    var u := LastMarker(lines, up);
    var d := LastMarker(lines, down);
    if u < 0 then Sections(content, "", false)
    else if d <= u then Sections(Join(lines[u + 1..]), "", false)
    else Sections(Join(lines[u + 1..d]), Join(lines[d + 1..]), true)
  }

  function SplitAt(content: string, up: string, down: string): Sections {
    SectionsOf(content, Split(content), up, down)
  }

  /** The sections of a migration file. */
  function SplitSql(content: string): Sections {
    SplitAt(content, UP_MARKER, DOWN_MARKER)
  }

  lemma LastMarkerIs(lines: seq<string>, marker: string, i: int)
    requires -1 <= i < |lines|
    requires i >= 0 ==> IsMarker(lines[i], marker)
    requires forall j :: i < j < |lines| ==> !IsMarker(lines[j], marker)
    ensures LastMarker(lines, marker) == i
  {
    LastMarkerBelowIsLast(lines, marker, |lines|);
  }

  lemma LastMarkerStep(lines: seq<string>, marker: string, i: nat)
    requires i < |lines|
    ensures LastMarkerBelow(lines, marker, i + 1) ==
      if IsMarker(lines[i], marker) then i else LastMarkerBelow(lines, marker, i)
  {
  }

  lemma OneKind(line: string, a: string, b: string)
    requires a != b
    ensures !(IsMarker(line, a) && IsMarker(line, b))
  {
  }

  /** splitMigrationSQL: one pass over the lines remembering the last marker of each kind. */
  method SplitMigrationSql(content: string, upMarker: string, downMarker: string)
    returns (up: string, down: string, hasDown: bool)
    requires upMarker != downMarker
    ensures Sections(up, down, hasDown) == SplitAt(content, upMarker, downMarker)
  {
    var lines := Split(content);
    var upStart, downLine := -1, -1;
    hide IsMarker, Join, Split;
    for i := 0 to |lines|
      invariant upStart ==
        if LastMarkerBelow(lines, upMarker, i) < 0 then -1 else LastMarkerBelow(lines, upMarker, i) + 1
      invariant downLine == LastMarkerBelow(lines, downMarker, i)
    {
      OneKind(lines[i], upMarker, downMarker);
      LastMarkerStep(lines, upMarker, i);
      LastMarkerStep(lines, downMarker, i);
      if IsMarker(lines[i], upMarker) {
        upStart := i + 1;
      } else if IsMarker(lines[i], downMarker) {
        downLine := i;
      }
    }
    if upStart < 0 {
      return content, "", false;
    }
    if downLine < 0 || downLine < upStart {
      return Join(lines[upStart..]), "", false;
    }
    return Join(lines[upStart..downLine]), Join(lines[downLine + 1..]), true;
  }

  // ----- Properties ----------------------------------------------------------

  predicate FreeOf(s: string, marker: string) {
    forall line :: line in Split(s) ==> !IsMarker(line, marker)
  }

  /** Two different lines, each recognised as itself. */
  predicate GoodMarkers(up: string, down: string) {
    && up != down
    && OneLine(up) && IsMarker(up, up)
    && OneLine(down) && IsMarker(down, down)
  }

  lemma MarkersAreGood()
    ensures GoodMarkers(UP_MARKER, DOWN_MARKER)
  {
    assert UP_MARKER[|UP_MARKER| - 1] == 'p' && DOWN_MARKER[|DOWN_MARKER| - 1] == 'n';
  }

  /** A file laid out as a preamble, an Up section and a Down section. */
  function PrintAt(preamble: string, u: string, up: string, d: string, down: string): string {
    preamble + "\n" + (u + "\n" + (up + "\n" + (d + "\n" + down)))
  }

  function Print(preamble: string, up: string, down: string): string {
    PrintAt(preamble, UP_MARKER, up, DOWN_MARKER, down)
  }

  lemma PrintedLines(preamble: string, u: string, up: string, d: string, down: string)
    requires OneLine(u) && OneLine(d)
    ensures Split(PrintAt(preamble, u, up, d, down)) ==
      Split(preamble) + ([u] + (Split(up) + ([d] + Split(down))))
  {
    SplitOneLine(u);
    SplitOneLine(d);
    SplitAcross(d, down);
    SplitAcross(up, d + "\n" + down);
    SplitAcross(u, up + "\n" + (d + "\n" + down));
    SplitAcross(preamble, u + "\n" + (up + "\n" + (d + "\n" + down)));
  }

  lemma SplitAtInvertsPrintAt(preamble: string, u: string, up: string, d: string, down: string)
    requires GoodMarkers(u, d)
    requires FreeOf(up, u) && FreeOf(down, u) && FreeOf(down, d)
    ensures SplitAt(PrintAt(preamble, u, up, d, down), u, d) == Sections(up, down, true)
  {
    PrintedLines(preamble, u, up, d, down);
    SectionsOfLayout(PrintAt(preamble, u, up, d, down), Split(preamble), u, Split(up), d, Split(down));
    JoinSplit(up);
    JoinSplit(down);
  }

  lemma SectionsOfLayout(content: string, p: seq<string>, u: string, a: seq<string>, d: string, b: seq<string>)
    requires GoodMarkers(u, d)
    requires forall line :: line in a || line in b ==> !IsMarker(line, u)
    requires forall line :: line in b ==> !IsMarker(line, d)
    ensures SectionsOf(content, p + ([u] + (a + ([d] + b))), u, d) == Sections(Join(a), Join(b), true)
  {
    hide SectionsOf, IsMarker, Join;
    Layout(p, u, a, d, b);
    SectionsOfPieces(content, p + ([u] + (a + ([d] + b))), u, a, d, b, |p|, |p| + 1 + |a|);
  }

  lemma SectionsOfPieces(
      content: string, lines: seq<string>, u: string, a: seq<string>, d: string, b: seq<string>, i: nat, j: nat)
    requires GoodMarkers(u, d) && i < j < |lines| && lines[i] == u && lines[j] == d
    requires lines[i + 1..j] == a && lines[j + 1..] == b
    requires forall k :: i < k < j ==> lines[k] in a
    requires forall k :: j < k < |lines| ==> lines[k] in b
    requires forall line :: line in a || line in b ==> !IsMarker(line, u)
    requires forall line :: line in b ==> !IsMarker(line, d)
    ensures SectionsOf(content, lines, u, d) == Sections(Join(a), Join(b), true)
  {
    hide Join, SectionsOf, IsMarker;
    OneKind(d, u, d);
    NoneIn(lines, u, i, j, a, b, d);
    NoneIn(lines, d, j, j, a, b, d);
    SectionsOfLines(content, lines, u, d, i, j);
  }

  /** From the i-th line on, all but the j-th of which are lines of `a` or `b`, none is `marker`. */
  lemma NoneIn(lines: seq<string>, marker: string, i: nat, j: nat, a: seq<string>, b: seq<string>, d: string)
    requires i <= j < |lines| && lines[j] == d && (i < j ==> !IsMarker(d, marker))
    requires forall k :: i < k < j ==> lines[k] in a
    requires forall k :: j < k < |lines| ==> lines[k] in b
    requires forall line :: (i < j && line in a) || line in b ==> !IsMarker(line, marker)
    ensures forall k :: i < k < |lines| ==> !IsMarker(lines[k], marker)
  {
    hide IsMarker;
  }

  lemma SectionsOfLines(content: string, lines: seq<string>, u: string, d: string, i: nat, j: nat)
    requires i < j < |lines| && IsMarker(lines[i], u) && IsMarker(lines[j], d)
    requires forall k :: i < k < |lines| ==> !IsMarker(lines[k], u)
    requires forall k :: j < k < |lines| ==> !IsMarker(lines[k], d)
    ensures SectionsOf(content, lines, u, d) == Sections(Join(lines[i + 1..j]), Join(lines[j + 1..]), true)
  {
    hide IsMarker, Join;
    LastMarkerIs(lines, u, i);
    LastMarkerIs(lines, d, j);
  }

  lemma Layout<T>(p: seq<T>, u: T, a: seq<T>, d: T, b: seq<T>)
    ensures var s := p + ([u] + (a + ([d] + b)));
      var i, j := |p|, |p| + 1 + |a|;
      && j < |s| && s[i] == u && s[j] == d
      && s[i + 1..j] == a && s[j + 1..] == b
      && (forall k :: i < k < j ==> s[k] in a)
      && (forall k :: j < k < |s| ==> s[k] in b)
  {
    var s := p + ([u] + (a + ([d] + b)));
    var i, j := |p|, |p| + 1 + |a|;
    forall k | i < k < j
      ensures s[k] in a
    {
      assert s[k] == a[k - i - 1];
    }
    forall k | j < k < |s|
      ensures s[k] in b
    {
      assert s[k] == b[k - j - 1];
    }
  }

  /**
   Splitting inverts printing: whatever stands above the last Up marker, both sections
   come back character for character, the Up section with any Down markers of its own.
   */
  lemma SplitInvertsPrint(preamble: string, up: string, down: string)
    requires FreeOf(up, UP_MARKER) && FreeOf(down, UP_MARKER) && FreeOf(down, DOWN_MARKER)
    ensures SplitSql(Print(preamble, up, down)) == Sections(up, down, true)
  {
    MarkersAreGood();
    SplitAtInvertsPrintAt(preamble, UP_MARKER, up, DOWN_MARKER, down);
  }

  /** Without a Down marker after the last Up marker, all that follows the latter is the Up section. */
  lemma SplitInvertsUpOnly(preamble: string, up: string)
    requires FreeOf(up, UP_MARKER) && FreeOf(up, DOWN_MARKER)
    ensures SplitSql(preamble + "\n" + (UP_MARKER + "\n" + up)) == Sections(up, "", false)
  {
    MarkersAreGood();
    SplitOneLine(UP_MARKER);
    SplitAcross(UP_MARKER, up);
    SplitAcross(preamble, UP_MARKER + "\n" + up);
    UpOnlyLayout(preamble + "\n" + (UP_MARKER + "\n" + up), Split(preamble), UP_MARKER, Split(up), DOWN_MARKER);
    JoinSplit(up);
  }

  lemma UpOnlyLayout(content: string, p: seq<string>, u: string, a: seq<string>, d: string)
    requires GoodMarkers(u, d)
    requires forall line :: line in a ==> !IsMarker(line, u) && !IsMarker(line, d)
    ensures SectionsOf(content, p + ([u] + a), u, d) == Sections(Join(a), "", false)
  {
    var lines := p + ([u] + a);
    assert lines[|p|] == u && lines[|p| + 1..] == a;
    forall k | |p| < k < |lines|
      ensures lines[k] in a
    {
      assert lines[k] == a[k - |p| - 1];
    }
    LastMarkerIs(lines, u, |p|);
    OneKind(u, u, d);
    LastMarkerBelowIsLast(lines, d, |lines|);
    hide Join;
  }

  /**
   A Down section is recognised exactly when some Down marker stands after the
   last Up marker; without any Up marker the whole file is Up SQL.
   */
  lemma HasDownExactly(content: string, up: string, down: string)
    requires up != down
    ensures (forall line :: line in Split(content) ==> !IsMarker(line, up)) ==>
      SplitAt(content, up, down) == Sections(content, "", false)
    ensures var lines := Split(content);
      SplitAt(content, up, down).hasDown <==>
      exists i, j :: 0 <= i < j < |lines| && IsMarker(lines[i], up) && IsMarker(lines[j], down)
        && LastMarker(lines, up) < j
  {
    var lines := Split(content);
    LastMarkerBelowIsLast(lines, up, |lines|);
    LastMarkerBelowIsLast(lines, down, |lines|);
    if SplitAt(content, up, down).hasDown {
      assert IsMarker(lines[LastMarker(lines, up)], up) && IsMarker(lines[LastMarker(lines, down)], down);
    }
  }

  /** The marker alone on its line, but for white space around it. */
  ghost predicate Marks(line: string, marker: string) {
    exists a, b :: Blank(a) && Blank(b) && line == a + marker + b
  }

  lemma MarksIff(line: string, marker: string)
    requires Solid(marker)
    ensures IsMarker(line, marker) <==> Marks(line, marker)
  {
    var a, b := TrimmedApart(line);
    if Marks(line, marker) {
      var a, b :| Blank(a) && Blank(b) && line == a + marker + b;
      TrimSpaceIs(a, marker, b);
    }
    hide TrimSpace, Blank;
  }

  lemma MarkersAreSolid()
    ensures Solid(UP_MARKER) && Solid(DOWN_MARKER) && UP_MARKER != DOWN_MARKER
  {
    assert UP_MARKER[|UP_MARKER| - 1] == 'p' && DOWN_MARKER[|DOWN_MARKER| - 1] == 'n';
  }

  /** MigrateDirDown's own test: a Down marker followed by nothing but white space is refused. */
  predicate Revertible(content: string) {
    SplitSql(content).hasDown && TrimSpace(SplitSql(content).down) != ""
  }

  /** Line k says something below the last Down marker, at j, which is below the last Up marker, at i. */
  ghost predicate SaysDown(lines: seq<string>, i: nat, j: nat, k: nat) {
    && i < j < k < |lines| && !Blank(lines[k])
    && Marks(lines[i], UP_MARKER) && (forall x :: i < x < |lines| ==> !Marks(lines[x], UP_MARKER))
    && Marks(lines[j], DOWN_MARKER) && (forall x :: j < x < |lines| ==> !Marks(lines[x], DOWN_MARKER))
  }

  ghost predicate HasDownText(content: string) {
    exists i, j, k :: SaysDown(Split(content), i, j, k)
  }

  lemma LastMarkIs(lines: seq<string>, marker: string, i: nat)
    requires Solid(marker) && i < |lines|
    ensures Marks(lines[i], marker) && (forall x :: i < x < |lines| ==> !Marks(lines[x], marker)) <==>
      LastMarker(lines, marker) == i
  {
    hide IsMarker, Marks;
    forall x | 0 <= x < |lines|
      ensures IsMarker(lines[x], marker) <==> Marks(lines[x], marker)
    {
      MarksIff(lines[x], marker);
    }
    LastMarkerBelowIsLast(lines, marker, |lines|);
  }

  lemma SaysDownReverts(content: string, i: nat, j: nat, k: nat)
    requires SaysDown(Split(content), i, j, k)
    ensures Revertible(content)
  {
    hide Split, Marks, IsMarker, TrimSpace, Join, Blank, LastMarker;
    var lines := Split(content);
    MarkersAreSolid();
    LastMarkIs(lines, UP_MARKER, i);
    LastMarkIs(lines, DOWN_MARKER, j);
    hide SaysDown;
    BlankIff(SplitSql(content).down);
    BlankLines(lines[j + 1..]);
    assert lines[j + 1..][k - j - 1] == lines[k];
  }

  lemma RevertibleSays(content: string) returns (i: nat, j: nat, k: nat)
    requires Revertible(content)
    ensures SaysDown(Split(content), i, j, k)
  {
    var lines := Split(content);
    hide Split, Marks, IsMarker, TrimSpace, Join, Blank, LastMarkerBelow;
    MarkersAreSolid();
    i, j := LastMarker(lines, UP_MARKER), LastMarker(lines, DOWN_MARKER);
    BlankIff(SplitSql(content).down);
    BlankLines(lines[j + 1..]);
    LastMarkIs(lines, UP_MARKER, i);
    LastMarkIs(lines, DOWN_MARKER, j);
    var x :| 0 <= x < |lines[j + 1..]| && !Blank(lines[j + 1..][x]);
    k := j + 1 + x;
  }

  /** So a file can be reverted exactly if something that is not white space follows its last Down marker. */
  lemma RevertibleIff(content: string)
    ensures Revertible(content) <==> HasDownText(content)
  {
    if Revertible(content) {
      var i, j, k := RevertibleSays(content);
    } else if HasDownText(content) {
      var i, j, k :| SaysDown(Split(content), i, j, k);
      SaysDownReverts(content, i, j, k);
    }
  }
}
