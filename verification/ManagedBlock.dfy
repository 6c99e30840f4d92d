/**
 Refreshing the managed block of a generated document
 (cmd/maubase/updateagentdocs.go). A block runs from a begin marker to the first
 end marker after it, as the pattern (?s)BEGIN.*?END matches it.
 */
module ManagedBlock {
  import opened Prelude

  const BEGIN := "<!-- maubase:begin"
  const END := "<!-- maubase:end -->"

  // ----- The pattern -----------------------------------------------------------------

  predicate At(s: string, part: string, i: nat) {
    i + |part| <= |s| && s[i..i + |part|] == part
  }

  /** The first place from `from` on where `part` occurs. */
  function IndexFrom(s: string, part: string, from: nat): (r: Option<nat>)
    ensures r.Some? ==> from <= r.value && At(s, part, r.value) && forall j :: from <= j < r.value ==> !At(s, part, j)
    ensures r.None? ==> forall j: nat :: from <= j ==> !At(s, part, j)
    decreases if from <= |s| then |s| - from + 1 else 0
  {
    if |s| < from + |part| then None
    else if At(s, part, from) then Some(from)
    else IndexFrom(s, part, from + 1)
  }

  /** Where a block starts and ends. */
  datatype Span = Span(start: nat, end: nat)

  /** The leftmost match. */
  function Match(s: string): (r: Option<Span>)
    ensures r.Some? ==> r.value.start + |BEGIN| + |END| <= r.value.end <= |s|
  {
    var b := IndexFrom(s, BEGIN, 0);
    if b.None? then None
    else
      var e := IndexFrom(s, END, b.value + |BEGIN|);
      if e.None? then None else Some(Span(b.value, e.value + |END|))
  }

  /** FindString: the first block, or nothing. */
  function FindString(s: string): string {
    var m := Match(s);
    if m.None? then "" else s[m.value.start..m.value.end]
  }

  /** ReplaceAllLiteralString: every block replaced, left to right. */
  function ReplaceAll(s: string, block: string): string
    decreases |s|
  {
    var m := Match(s);
    if m.None? then s
    else s[..m.value.start] + block + ReplaceAll(s[m.value.end..], block)
  }

  // ----- The parts of a text ------------------------------------------------------------

  /** The text around the blocks, always one piece more than there are blocks. */
  function Outside(s: string): (r: seq<string>)
    ensures r != []
    decreases |s|
  {
    var m := Match(s);
    if m.None? then [s] else [s[..m.value.start]] + Outside(s[m.value.end..])
  }

  function Blocks(s: string): seq<string>
    decreases |s|
  {
    var m := Match(s);
    if m.None? then [] else [s[m.value.start..m.value.end]] + Blocks(s[m.value.end..])
  }

  function Weave(outside: seq<string>, blocks: seq<string>): string
    requires |outside| == |blocks| + 1
  {
    if blocks == [] then outside[0] else outside[0] + blocks[0] + Weave(outside[1..], blocks[1..])
  }

  function Copies(block: string, n: nat): seq<string> {
    seq(n, _ => block)
  }

  /** A text that is one whole block: a begin marker, and its first end marker ends it. */
  predicate IsBlock(s: string) {
    Match(s) == Some(Span(0, |s|))
  }

  // ----- Updating a file ------------------------------------------------------------------

  datatype Status = Created | Unchanged | Updated | NoTemplateBlock | NoManagedBlock | IoFailed

  /** The file afterwards and the status; `fails` is a read or write that goes wrong. */
  function Update(existing: Option<string>, rendered: string, fails: bool): (Option<string>, Status) {
    var block := FindString(rendered);
    if block == "" then (existing, NoTemplateBlock)
    else if fails then (existing, IoFailed)
    else if existing.None? then (Some(rendered), Created)
    else if Match(existing.value).None? then (existing, NoManagedBlock)
    else if ReplaceAll(existing.value, block) == existing.value then (existing, Unchanged)
    else (Some(ReplaceAll(existing.value, block)), Updated)
  }

  // ----- Markers do not overlap ---------------------------------------------------------

  lemma MarkersOpenOnce()
    ensures BEGIN[0] == '<' && END[0] == '<' && |BEGIN| == 18 && |END| == 20
    ensures forall k :: 0 < k < |BEGIN| ==> BEGIN[k] != '<'
    ensures forall k :: 0 < k < |END| ==> END[k] != '<'
  {
  }

  lemma AtChar(s: string, part: string, i: nat, k: nat)
    requires At(s, part, i) && k < |part|
    ensures i + k < |s| && s[i + k] == part[k]
  {
    assert s[i..i + |part|][k] == part[k];
  }

  lemma AtShift(a: string, s: string, part: string, i: nat)
    ensures At(a + s, part, |a| + i) <==> At(s, part, i)
  {
    if |a| + i + |part| <= |a + s| {
      assert (a + s)[|a| + i..|a| + i + |part|] == s[i..i + |part|];
    }
  }

  lemma AtPrefix(a: string, s: string, part: string, i: nat)
    requires i + |part| <= |a|
    ensures At(a + s, part, i) <==> At(a, part, i)
  {
    assert (a + s)[i..i + |part|] == a[i..i + |part|];
  }

  lemma IndexIs(s: string, part: string, from: nat, i: nat)
    requires from <= i && At(s, part, i) && forall j :: from <= j < i ==> !At(s, part, j)
    ensures IndexFrom(s, part, from) == Some(i)
  {
  }

  /** Text free of begin markers stays so with a new block right after it: none can straddle into it. */
  lemma NoneStraddles(gap: string, was: string, block: string, rest: string, j: nat)
    requires At(was, BEGIN, 0) && At(block, BEGIN, 0) && j < |gap| && !At(gap + was, BEGIN, j)
    ensures !At(gap + (block + rest), BEGIN, j)
  {
    MarkersOpenOnce();
    AtChar(block, BEGIN, 0, 0);
    if j + |BEGIN| <= |gap| {
      AtPrefix(gap, was, BEGIN, j);
      AtPrefix(gap, block + rest, BEGIN, j);
    } else if At(gap + (block + rest), BEGIN, j) {
      AtChar(gap + (block + rest), BEGIN, j, |gap| - j);
    }
  }

  /** A block in place is matched as a whole, and before anything else. */
  lemma MatchInPlace(gap: string, block: string, rest: string)
    requires IsBlock(block) && forall j :: 0 <= j < |gap| ==> !At(gap + (block + rest), BEGIN, j)
    ensures Match(gap + (block + rest)) == Some(Span(|gap|, |gap| + |block|))
  {
    hide At;
    var s := gap + (block + rest);
    AtPrefix(block, rest, BEGIN, 0);
    AtShift(gap, block + rest, BEGIN, 0);
    IndexIs(s, BEGIN, 0, |gap|);
    var e := |block| - |END|;
    forall j | |BEGIN| <= j <= e
      ensures At(s, END, |gap| + j) <==> At(block, END, j)
    {
      AtShift(gap, block + rest, END, j);
      AtPrefix(block, rest, END, j);
    }
    forall j | |gap| + |BEGIN| <= j < |gap| + e
      ensures !At(s, END, j)
    {
      assert At(s, END, |gap| + (j - |gap|)) <==> At(block, END, j - |gap|);
    }
    IndexIs(s, END, |gap| + |BEGIN|, |gap| + e);
  }

  // ----- Finding and replacing ------------------------------------------------------------

  lemma SliceOfSlice<T>(s: seq<T>, b: nat, e: nat, i: nat, j: nat)
    requires b <= e <= |s| && i <= j <= e - b
    ensures s[b..e][i..j] == s[b + i..b + j]
  {
    forall k | 0 <= k < j - i
      ensures s[b..e][i..j][k] == s[b + i..b + j][k]
    {
    }
  }

  lemma AtInside(s: string, b: nat, e: nat, part: string, j: nat)
    requires b <= e <= |s| && b + j + |part| <= e
    ensures At(s[b..e], part, j) <==> At(s, part, b + j)
  {
    SliceOfSlice(s, b, e, j, j + |part|);
  }

  /** Between b and e stand a begin marker and the end marker, the latter with none before it after the former. */
  predicate Spans(s: string, b: nat, e: nat) {
    && b + 38 <= e <= |s| && At(s, "<!-- maubase:begin", b) && At(s, "<!-- maubase:end -->", e - 20)
    && forall j :: b + 18 <= j < e - 20 ==> !At(s, "<!-- maubase:end -->", j)
  }

  /** A match is the leftmost such span, and there is none exactly if there is no such span. */
  lemma MatchIff(s: string, b: nat, e: nat)
    ensures Match(s) == Some(Span(b, e)) <==>
      Spans(s, b, e) && forall j :: 0 <= j < b ==> !At(s, "<!-- maubase:begin", j)
    ensures Match(s) == None ==> !Spans(s, b, e)
  {
    MarkersOpenOnce();
    hide At;
    if Spans(s, b, e) && forall j :: 0 <= j < b ==> !At(s, BEGIN, j) {
      IndexIs(s, BEGIN, 0, b);
      IndexIs(s, END, b + |BEGIN|, e - |END|);
    }
  }

  /** What FindString returns is a whole block. */
  lemma FoundIsBlock(s: string)
    requires Match(s).Some?
    ensures IsBlock(FindString(s))
  {
    hide At;
    var b, e := Match(s).value.start, Match(s).value.end;
    var block := s[b..e];
    AtInside(s, b, e, BEGIN, 0);
    IndexIs(block, BEGIN, 0, 0);
    var last := |block| - |END|;
    AtInside(s, b, e, END, last);
    forall j | |BEGIN| <= j < last
      ensures !At(block, END, j)
    {
      AtInside(s, b, e, END, j);
      assert !At(s, END, b + j);
    }
    IndexIs(block, END, |BEGIN|, last);
  }

  lemma Cut(s: string, b: nat, e: nat)
    requires b <= e <= |s|
    ensures s == s[..b] + (s[b..e] + s[e..])
  {
  }

  /** Nothing before the place of a replaced block begins a block. */
  lemma GapIsClear(s: string, b: nat, block: string, rest: string)
    requires At(s, BEGIN, b) && At(block, BEGIN, 0) && forall j :: 0 <= j < b ==> !At(s, BEGIN, j)
    ensures b <= |s| && forall j :: 0 <= j < b ==> !At(s[..b] + (block + rest), BEGIN, j)
  {
    var gap, was := s[..b], s[b..];
    assert s == gap + was;
    AtShift(gap, was, BEGIN, 0);
    hide At;
    forall j | 0 <= j < b
      ensures !At(gap + (block + rest), BEGIN, j)
    {
      NoneStraddles(gap, was, block, rest, j);
    }
  }

  /** One replacement step, undone by matching: the next text has its first match right where the block went. */
  lemma ReplacedMatches(s: string, block: string, rest: string)
    requires Match(s).Some? && IsBlock(block)
    ensures var b := Match(s).value.start;
      Match(s[..b] + (block + rest)) == Some(Span(b, b + |block|))
  {
    hide At, IndexFrom;
    var b := Match(s).value.start;
    GapIsClear(s, b, block, rest);
    assert |s[..b]| == b;
    hide Match;
    MatchInPlace(s[..b], block, rest);
  }

  lemma Split3(gap: string, block: string, rest: string)
    ensures var s := gap + (block + rest);
      && s == gap + block + rest
      && s[..|gap|] == gap && s[|gap|..|gap| + |block|] == block && s[|gap| + |block|..] == rest
  {
  }

  /**
   After a replacement the text around the blocks is what it was, character for
   character, and there are as many blocks as before, every one of them the new one.
   */
  lemma {:induction false} ReplaceKeepsOutside(s: string, block: string)
    requires IsBlock(block)
    ensures Outside(ReplaceAll(s, block)) == Outside(s)
    ensures Blocks(ReplaceAll(s, block)) == Copies(block, |Blocks(s)|)
    decreases |s|
  {
    if Match(s).Some? {
      var b, e := Match(s).value.start, Match(s).value.end;
      var rest := ReplaceAll(s[e..], block);
      ReplaceKeepsOutside(s[e..], block);
      hide Match, IsBlock;
      ReplacedMatches(s, block, rest);
      Split3(s[..b], block, rest);
      assert ReplaceAll(s, block) == s[..b] + (block + rest);
    }
  }

  /** A text is its outside woven with its blocks. */
  lemma {:induction false} WeaveRestores(s: string)
    ensures |Outside(s)| == |Blocks(s)| + 1 && Weave(Outside(s), Blocks(s)) == s
    decreases |s|
  {
    if Match(s).Some? {
      var b, e := Match(s).value.start, Match(s).value.end;
      WeaveRestores(s[e..]);
      Cut(s, b, e);
      var outside, blocks := Outside(s), Blocks(s);
      assert outside[1..] == Outside(s[e..]) && blocks[1..] == Blocks(s[e..]);
      assert outside[0] + blocks[0] + s[e..] == s;
    }
  }

  /** So a text is determined by its outside and its blocks, and replacing twice is replacing once. */
  lemma ReplaceIsIdempotent(s: string, block: string)
    requires IsBlock(block)
    ensures ReplaceAll(ReplaceAll(s, block), block) == ReplaceAll(s, block)
  {
    var once := ReplaceAll(s, block);
    var twice := ReplaceAll(once, block);
    ReplaceKeepsOutside(s, block);
    ReplaceKeepsOutside(once, block);
    WeaveRestores(once);
    WeaveRestores(twice);
    hide Outside, Blocks, ReplaceAll, IsBlock;
    assert |Copies(block, |Blocks(s)|)| == |Blocks(s)|;
  }

  // ----- Updates -----------------------------------------------------------------------------

  class DocFile {
    var content: Option<string>

    constructor (content: Option<string>)
      ensures this.content == content
    {
      this.content := content;
    }

    method UpdateManagedBlock(rendered: string, fails: bool) returns (status: Status)
      modifies this
      ensures (content, status) == Update(old(content), rendered, fails)
    {
      var newBlock := FindString(rendered);
      if newBlock == "" {
        return NoTemplateBlock;
      }
      if fails {
        return IoFailed;
      }
      if content.None? {
        content := Some(rendered);
        return Created;
      }
      if Match(content.value).None? {
        return NoManagedBlock;
      }
      var updated := ReplaceAll(content.value, newBlock);
      if updated == content.value {
        return Unchanged;
      }
      content := Some(updated);
      return Updated;
    }
  }

  lemma FoundSomething(s: string)
    ensures FindString(s) == "" <==> Match(s).None?
    ensures FindString(s) != "" ==> IsBlock(FindString(s))
  {
    if Match(s).Some? {
      FoundIsBlock(s);
      assert |BEGIN| > 0;
    }
  }

  /**
   What each status tells: the file is written only when it is created, as rendered, or
   updated, and an update differs from what was there only inside its blocks, each of
   which is now the rendering's own; every other status leaves the file as it was.
   */
  lemma StatusTellsWhatHappened(existing: Option<string>, rendered: string, fails: bool)
    ensures var (content, status) := Update(existing, rendered, fails);
      && (status == NoTemplateBlock <==> Match(rendered) == None)
      && (status == IoFailed <==> Match(rendered).Some? && fails)
      && (status == Created <==> Match(rendered).Some? && !fails && existing == None)
      && (status == NoManagedBlock <==>
            Match(rendered).Some? && !fails && existing.Some? && Match(existing.value) == None)
      && (status == Created ==> content == Some(rendered))
      && (status == Updated ==> content != existing)
      && (status in {Updated, Unchanged} ==>
            && existing.Some? && content.Some? && Outside(content.value) == Outside(existing.value)
            && BlocksAre(content.value, FindString(rendered)))
      && (status !in {Created, Updated} ==> content == existing)
  {
    FoundSomething(rendered);
    hide Match, FindString, IsBlock, Outside, ReplaceAll, BlocksAre;
    if existing.Some? && Match(rendered).Some? {
      ReplaceGives(existing.value, ReplaceAll(existing.value, FindString(rendered)), FindString(rendered));
    }
  }

  predicate BlocksAre(s: string, block: string) {
    forall i :: 0 <= i < |Blocks(s)| ==> Blocks(s)[i] == block
  }

  predicate AllBlocksAlike(s: string) {
    BlocksAre(s, FindString(s))
  }

  lemma BlocksAreCopies(s: string, block: string)
    ensures BlocksAre(s, block) <==> Blocks(s) == Copies(block, |Blocks(s)|)
  {
    hide Blocks;
  }

  lemma ReplaceByOwnBlock(s: string)
    requires Match(s).Some?
    ensures ReplaceAll(s, FindString(s)) == s <==> AllBlocksAlike(s)
  {
    var block := FindString(s);
    FoundIsBlock(s);
    ReplaceKeepsOutside(s, block);
    WeaveRestores(s);
    WeaveRestores(ReplaceAll(s, block));
    BlocksAreCopies(s, block);
    hide Outside, Blocks, ReplaceAll, IsBlock, FindString, Match, BlocksAre, Copies;
  }

  /**
   Running twice with the same rendering: after "updated" or "unchanged" the second
   run is "unchanged"; after "created" it is so if and only if the rendering does not
   hold two different blocks.
   */
  lemma SecondRunIsUnchanged(existing: Option<string>, rendered: string)
    ensures var (content, status) := Update(existing, rendered, false);
      var again := Update(content, rendered, false);
      && (status in {Updated, Unchanged} ==> again == (content, Unchanged))
      && (status == Created ==> (again == (content, Unchanged) <==> AllBlocksAlike(rendered)))
      && (status in {NoTemplateBlock, NoManagedBlock} ==> again == (content, status) && content == existing)
  {
    FoundSomething(rendered);
    hide IsBlock, Match, FindString, ReplaceAll, AllBlocksAlike;
    if existing.Some? {
      SecondRunOnFile(existing.value, rendered);
    } else if Match(rendered).Some? {
      ReplaceByOwnBlock(rendered);
    }
  }

  lemma SecondRunOnFile(existing: string, rendered: string)
    ensures var (content, status) := Update(Some(existing), rendered, false);
      var again := Update(content, rendered, false);
      && status != Created
      && (status in {Updated, Unchanged} ==> again == (content, Unchanged))
      && (status in {NoTemplateBlock, NoManagedBlock} ==> again == (content, status) && content == Some(existing))
  {
    FoundSomething(rendered);
    if FindString(rendered) != "" && Match(existing).Some? {
      ReplaceIsIdempotent(existing, FindString(rendered));
      StillMatches(existing, FindString(rendered));
    }
    hide IsBlock, Match, FindString, ReplaceAll;
  }

  lemma StillMatches(s: string, block: string)
    requires Match(s).Some? && IsBlock(block)
    ensures Match(ReplaceAll(s, block)).Some?
  {
    var b, e := Match(s).value.start, Match(s).value.end;
    ReplacedMatches(s, block, ReplaceAll(s[e..], block));
    Split3(s[..b], block, ReplaceAll(s[e..], block));
  }

  /**
   A text is what replacing makes of another exactly when it has the other's outside, and
   the block in every place.
   */
  lemma ReplaceGives(before: string, after: string, block: string)
    requires IsBlock(block)
    ensures ReplaceAll(before, block) == after <==> Outside(before) == Outside(after) && BlocksAre(after, block)
  {
    ReplaceKeepsOutside(before, block);
    WeaveRestores(before);
    WeaveRestores(after);
    WeaveRestores(ReplaceAll(before, block));
    BlocksAreCopies(after, block);
    CopiesCount(block, |Blocks(before)|);
    hide Outside, Blocks, ReplaceAll, IsBlock, Weave, BlocksAre, Copies;
  }

  lemma CopiesCount(block: string, n: nat)
    ensures |Copies(block, n)| == n
  {
  }

  /**
   Refreshing a document with a rendering leaves exactly that rendering if and only
   if the two agree outside their blocks and all blocks of the rendering are alike;
   where the update is refused, if and only if they were the same to begin with.
   What follows the first end marker is outside, and the rendered body quotes an end
   marker (skill.go:181), so what comes after the quotation is never refreshed.
   */
  lemma RefreshIsFaithfulIff(before: string, after: string)
    ensures Update(Some(before), after, false).0 == Some(after) <==>
      if Match(before).None? || Match(after).None? then before == after
      else Outside(before) == Outside(after) && AllBlocksAlike(after)
  {
    FoundSomething(after);
    hide Outside, Blocks, ReplaceAll, IsBlock, FindString, Match, BlocksAre;
    if Match(before).Some? && Match(after).Some? {
      ReplaceGives(before, after, FindString(after));
    }
  }

  /** The block of BEGIN a END b END is cut at the first end marker: b, and what comes after it, is outside. */
  lemma InnerMarkerCuts(a: string, b: string)
    requires forall j :: |BEGIN| <= j < |BEGIN| + |a| ==> !At(BEGIN + a + END + b + END, END, j)
    ensures FindString(BEGIN + a + END + b + END) == BEGIN + a + END
  {
    var s := BEGIN + a + END + b + END;
    var head := BEGIN + a + END;
    assert s == head + (b + END);
    assert At(s, BEGIN, 0) by { assert s[..|BEGIN|] == BEGIN; }
    IndexIs(s, BEGIN, 0, 0);
    assert At(s, END, |BEGIN| + |a|) by { assert s[|BEGIN| + |a|..|head|] == END; }
    IndexIs(s, END, |BEGIN|, |BEGIN| + |a|);
    assert s[..|head|] == head;
  }
}
