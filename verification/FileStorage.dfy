/**
 Uploaded files (internal/storage/server.go): metadata rows in the database and
 bytes in a backend, changed one after the other with no transaction over both.
 */
module FileStorage {
  import opened Prelude

  datatype File = File(id: string, owner: string)

  /** Rows in upload order (created_at, then rowid), and the keys the backend holds bytes under. */
  datatype Disk = Disk(files: seq<File>, bytes: set<string>)

  // ----- Specification -----------------------------------------------------------------

  function Ids(files: seq<File>): set<string> {
    set f | f in files :: f.id
  }

  predicate Distinct(files: seq<File>) {
    forall i, j :: 0 <= i < j < |files| ==> files[i].id != files[j].id
  }

  /** The ids of the subject's files, in upload order. */
  function OwnedIds(files: seq<File>, subj: string): seq<string> {
    if files == [] then []
    else
      var last := files[|files| - 1];
      OwnedIds(files[..|files| - 1], subj) + if last.owner == subj then [last.id] else []
  }

  function SetOf(ids: seq<string>): set<string> {
    set id | id in ids
  }

  function Keep(files: seq<File>, gone: set<string>): seq<File> {
    if files == [] then []
    else
      var last := files[|files| - 1];
      Keep(files[..|files| - 1], gone) + if last.id in gone then [] else [last]
  }

  predicate Owns(files: seq<File>, owner: string, id: string) {
    exists i :: 0 <= i < |files| && files[i].id == id && files[i].owner == owner
  }

  /** Which of an upload's store operations fail; the look-up comes last, when both stores are written. */
  datatype UploadFaults = UploadFaults(put: bool, insert: bool, cleanup: bool, lookup: bool)

  /**
   Bytes first, then the row; if the row cannot be inserted the bytes are taken back, if
   possible. The answer is 201 or 500.
   */
  function Uploaded(d: Disk, id: string, owner: string, fails: UploadFaults): (Disk, int) {
    if fails.put || id in d.bytes then (d, 500)
    else if fails.insert || id in Ids(d.files) then
      (if fails.cleanup then d.(bytes := d.bytes + {id}) else d, 500)
    else (Disk(d.files + [File(id, owner)], d.bytes + {id}), if fails.lookup then 500 else 201)
  }

  /** Which of a deletion's store operations fail: the look-up, then the bytes, then the row. */
  datatype DeleteFaults = DeleteFaults(lookup: bool, bytes: bool, row: bool)

  /**
   Bytes first, then the row; deleting bytes that are already gone is no error. The
   answer is 204, 404 or 500.
   */
  function Deleted(d: Disk, owner: string, id: string, fails: DeleteFaults): (Disk, int) {
    if fails.lookup then (d, 500)
    else if !Owns(d.files, owner, id) then (d, 404)
    else if fails.bytes then (d, 500)
    else if fails.row then (d.(bytes := d.bytes - {id}), 500)
    else (Disk(Keep(d.files, {id}), d.bytes - {id}), 204)
  }

  /**
   The erasure of all the subject's files, of whose store operations (one listing,
   then two per file) only the first `upTo` succeed.
   */
  function ErasedFiles(d: Disk, subj: string, upTo: nat): (Disk, bool) {
    var ids := OwnedIds(d.files, subj);
    if upTo == 0 then (d, false)
    else
      (Partly(d, ids, Min((upTo - 1) / 2, |ids|), Min(upTo / 2, |ids|)), 2 * |ids| < upTo)
  }

  /** The first `rows` of these rows are gone, and the first `bytes` of their bytes. */
  function Partly(d: Disk, ids: seq<string>, rows: nat, bytes: nat): Disk
    requires rows <= |ids| && bytes <= |ids|
  {
    Disk(Keep(d.files, SetOf(ids[..rows])), d.bytes - SetOf(ids[..bytes]))
  }

  function CleanFiles(d: Disk, subj: string): Disk {
    var ids := SetOf(OwnedIds(d.files, subj));
    Disk(Keep(d.files, ids), d.bytes - ids)
  }

  // ----- Lemmas about keeping ---------------------------------------------------------

  lemma {:induction false} KeepNone(files: seq<File>)
    ensures Keep(files, {}) == files
  {
    if files != [] {
      KeepNone(files[..|files| - 1]);
    }
  }

  lemma {:induction false} KeepTwice(files: seq<File>, a: set<string>, b: set<string>)
    ensures Keep(Keep(files, a), b) == Keep(files, a + b)
  {
    if files != [] {
      var front, last := files[..|files| - 1], files[|files| - 1];
      KeepTwice(front, a, b);
      if last.id in a {
        assert Keep(files, a) == Keep(front, a);
      } else {
        KeepSnoc(Keep(front, a), last, b);
      }
    }
  }

  lemma KeepSnoc(files: seq<File>, f: File, gone: set<string>)
    ensures Keep(files + [f], gone) == Keep(files, gone) + if f.id in gone then [] else [f]
  {
    assert (files + [f])[..|files|] == files;
  }

  lemma {:induction false} KeepMembers(files: seq<File>, gone: set<string>, f: File)
    ensures f in Keep(files, gone) <==> f in files && f.id !in gone
  {
    if files != [] {
      KeepMembers(files[..|files| - 1], gone, f);
      assert files == files[..|files| - 1] + [files[|files| - 1]];
    }
  }

  lemma {:induction false} KeepIsDistinct(files: seq<File>, gone: set<string>)
    requires Distinct(files)
    ensures Distinct(Keep(files, gone))
  {
    if files != [] {
      var front, last := files[..|files| - 1], files[|files| - 1];
      KeepIsDistinct(front, gone);
      forall i | 0 <= i < |Keep(front, gone)|
        ensures Keep(front, gone)[i].id != last.id
      {
        KeepMembers(front, gone, Keep(front, gone)[i]);
        var j :| 0 <= j < |front| && front[j] == Keep(front, gone)[i];
        assert files[j].id != last.id;
      }
    }
  }

  lemma {:induction false} OwnedIdsAre(files: seq<File>, subj: string, id: string)
    ensures id in OwnedIds(files, subj) <==> File(id, subj) in files
  {
    if files != [] {
      OwnedIdsAre(files[..|files| - 1], subj, id);
      assert files == files[..|files| - 1] + [files[|files| - 1]];
    }
  }

  lemma OwnedAfterKeep(files: seq<File>, gone: set<string>, subj: string)
    ensures SetOf(OwnedIds(Keep(files, gone), subj)) == SetOf(OwnedIds(files, subj)) - gone
  {
    forall id
      ensures id in OwnedIds(Keep(files, gone), subj) <==> id in OwnedIds(files, subj) && id !in gone
    {
      OwnedIdsAre(Keep(files, gone), subj, id);
      OwnedIdsAre(files, subj, id);
      KeepMembers(files, gone, File(id, subj));
    }
  }

  lemma SetOfSnoc(ids: seq<string>, i: nat)
    requires i < |ids|
    ensures SetOf(ids[..i + 1]) == SetOf(ids[..i]) + {ids[i]}
  {
    assert ids[..i + 1] == ids[..i] + [ids[i]];
  }

  lemma PartlyStep(d: Disk, ids: seq<string>, i: nat)
    requires i < |ids|
    ensures Partly(d, ids, i, i + 1) == Partly(d, ids, i, i).(bytes := Partly(d, ids, i, i).bytes - {ids[i]})
    ensures Partly(d, ids, i + 1, i + 1) ==
      Partly(d, ids, i, i + 1).(files := Keep(Partly(d, ids, i, i + 1).files, {ids[i]}))
  {
    SetOfSnoc(ids, i);
    KeepTwice(d.files, SetOf(ids[..i]), {ids[i]});
  }

  /** What the erasure comes to when it stops before, or inside, the i-th file. */
  lemma StoppedAt(d: Disk, subj: string, upTo: nat, i: nat)
    requires i <= |OwnedIds(d.files, subj)|
    ensures var ids := OwnedIds(d.files, subj);
      && (i < |ids| && upTo == 2 * i + 1 ==> ErasedFiles(d, subj, upTo) == (Partly(d, ids, i, i), false))
      && (i < |ids| && upTo == 2 * i + 2 ==> ErasedFiles(d, subj, upTo) == (Partly(d, ids, i, i + 1), false))
      && (i == |ids| && 2 * i < upTo ==> ErasedFiles(d, subj, upTo) == (Partly(d, ids, i, i), true))
  {
    hide Partly, OwnedIds;
  }

  lemma PartlyNone(d: Disk, ids: seq<string>)
    ensures Partly(d, ids, 0, 0) == d
  {
    KeepNone(d.files);
    assert SetOf(ids[..0]) == {};
  }

  lemma PrefixIsSubset(ids: seq<string>, n: nat)
    requires n <= |ids|
    ensures SetOf(ids[..n]) <= SetOf(ids)
  {
  }

  // ----- The server -----------------------------------------------------------------------

  class FileServer {
    var files: seq<File>
    var bytes: set<string>

    function State(): Disk
      reads this
    {
      Disk(files, bytes)
    }

    constructor ()
      ensures State() == Disk([], {})
    {
      files, bytes := [], {};
    }

    method HandleUpload(id: string, owner: string, fails: UploadFaults) returns (status: int)
      modifies this
      ensures (State(), status) == Uploaded(old(State()), id, owner, fails)
    {
      if fails.put || id in bytes {
        return 500;
      }
      ghost var before := bytes;
      bytes := bytes + {id};
      if fails.insert || id in Ids(files) {
        if !fails.cleanup {
          bytes := bytes - {id};
          assert bytes == before;
        }
        return 500;
      }
      files := files + [File(id, owner)];
      if fails.lookup {
        return 500;
      }
      return 201;
    }

    method HandleDelete(owner: string, id: string, fails: DeleteFaults) returns (status: int)
      modifies this
      ensures (State(), status) == Deleted(old(State()), owner, id, fails)
    {
      if fails.lookup {
        return 500;
      }
      if !Owns(files, owner, id) {
        return 404;
      }
      if fails.bytes {
        return 500;
      }
      bytes := bytes - {id};
      if fails.row {
        return 500;
      }
      files := Keep(files, {id});
      return 204;
    }

    /** The per-file loop of account erasure. */
    method DeleteOwned(subj: string, upTo: nat) returns (ok: bool)
      modifies this
      ensures (State(), ok) == ErasedFiles(old(State()), subj, upTo)
    {
      if upTo == 0 {
        return false;
      }
      ghost var before := State();
      var ids := OwnedIds(files, subj);
      PartlyNone(before, ids);
      StoppedAt(before, subj, upTo, |ids|);
      hide ErasedFiles, Partly, Keep, SetOf, OwnedIds;
      for i := 0 to |ids|
        invariant 2 * i < upTo
        invariant State() == Partly(before, ids, i, i)
      {
        PartlyStep(before, ids, i);
        StoppedAt(before, subj, upTo, i);
        if upTo == 2 * i + 1 {
          return false;
        }
        bytes := bytes - {ids[i]};
        if upTo == 2 * i + 2 {
          return false;
        }
        files := Keep(files, {ids[i]});
      }
      return true;
    }
  }

  // ----- What holds of it ---------------------------------------------------------------

  lemma PartlyLeavesTheRest(d: Disk, subj: string, n: nat, m: nat)
    requires n <= m <= |OwnedIds(d.files, subj)|
    ensures CleanFiles(Partly(d, OwnedIds(d.files, subj), n, m), subj) == CleanFiles(d, subj)
  {
    var ids := OwnedIds(d.files, subj);
    var all, rows, bytes := SetOf(ids), SetOf(ids[..n]), SetOf(ids[..m]);
    PrefixIsSubset(ids, n);
    PrefixIsSubset(ids, m);
    PrefixIsSubset(ids[..m], n);
    assert ids[..m][..n] == ids[..n];
    OwnedAfterKeep(d.files, rows, subj);
    KeepTwice(d.files, rows, all - rows);
    hide SetOf, OwnedIds, Keep;
    assert rows + (all - rows) == all;
    assert d.bytes - bytes - (all - rows) == d.bytes - all;
  }

  /** An attempt that fails anywhere leaves exactly as much to clean as there was; one that succeeds leaves it clean. */
  lemma ErasureConverges(d: Disk, subj: string, upTo: nat)
    ensures var (after, ok) := ErasedFiles(d, subj, upTo);
      CleanFiles(after, subj) == CleanFiles(d, subj) && (ok ==> after == CleanFiles(d, subj))
  {
    if upTo > 0 {
      var ids := OwnedIds(d.files, subj);
      PartlyLeavesTheRest(d, subj, Min((upTo - 1) / 2, |ids|), Min(upTo / 2, |ids|));
      assert ids[..|ids|] == ids;
      hide Keep, OwnedIds, SetOf;
    }
  }

  /** Clean means: none of the subject's rows or bytes, and everything else as it was. */
  lemma CleanIsExact(d: Disk, subj: string, f: File, key: string)
    requires Distinct(d.files)
    ensures f in CleanFiles(d, subj).files <==> f in d.files && f.owner != subj
    ensures key in CleanFiles(d, subj).bytes <==> key in d.bytes && File(key, subj) !in d.files
  {
    var ids := SetOf(OwnedIds(d.files, subj));
    KeepMembers(d.files, ids, f);
    OwnedIdsAre(d.files, subj, f.id);
    OwnedIdsAre(d.files, subj, key);
    if f in d.files && File(f.id, subj) in d.files {
      var i :| 0 <= i < |d.files| && d.files[i] == f;
      var j :| 0 <= j < |d.files| && d.files[j] == File(f.id, subj);
      assert i == j;
    }
  }

  /**
   What an upload that kept its row left, answered 201 or not, its owner can delete,
   which leaves everything as before; nobody else can.
   */
  lemma DeleteUndoesUpload(d: Disk, id: string, owner: string, other: string, fails: UploadFaults)
    requires !fails.put && !fails.insert && id !in d.bytes && id !in Ids(d.files)
    ensures var (uploaded, status) := Uploaded(d, id, owner, fails);
      && (status == 201 <==> !fails.lookup)
      && Deleted(uploaded, owner, id, DeleteFaults(false, false, false)) == (d, 204)
      && (other != owner ==> Deleted(uploaded, other, id, DeleteFaults(false, false, false)) == (uploaded, 404))
  {
    var f := File(id, owner);
    var files := d.files + [f];
    NewestIsOwned(d.files, f);
    if other != owner {
      NewestIsNotOwned(d.files, f, other);
    }
    hide Keep, Owns;
    KeepSnoc(d.files, f, {id});
    assert forall i :: 0 <= i < |d.files| ==> d.files[i].id in Ids(d.files);
    KeepAll(d.files, {id});
    assert Keep(files, {id}) == d.files;
    assert d.bytes + {id} - {id} == d.bytes;
  }

  /**
   How an upload is answered, and what is there then: 201 exactly if nothing failed and
   the key was new, and then row and bytes are both there; otherwise no row has been
   added, unless only the look-up failed, and no bytes unless the clean-up failed too.
   */
  lemma UploadSucceedsIff(d: Disk, id: string, owner: string, fails: UploadFaults)
    ensures var (after, status) := Uploaded(d, id, owner, fails);
      var isNew := id !in d.bytes && forall f :: f in d.files ==> f.id != id;
      var kept := isNew && !fails.put && !fails.insert;
      && status in {201, 500}
      && (status == 201 <==> kept && !fails.lookup)
      && (kept ==> after == Disk(d.files + [File(id, owner)], d.bytes + {id}))
      && (!kept ==> after.files == d.files && d.bytes <= after.bytes <= d.bytes + {id})
      && (!kept && !fails.cleanup ==> after == d)
      && (fails.put ==> after == d)
  {
    assert id in Ids(d.files) <==> exists f :: f in d.files && f.id == id;
  }

  /**
   How a deletion is answered, and what is left: 204 exactly if the file is the owner's
   and nothing fails, and then its row and its bytes are both gone and nothing else is;
   404 if it is not theirs, whether it is someone else's or nobody's, and nothing goes.
   After a failure the row is always still there.
   */
  lemma DeleteSucceedsIff(d: Disk, id: string, owner: string, fails: DeleteFaults, f: File)
    requires Distinct(d.files)
    ensures var (after, status) := Deleted(d, owner, id, fails);
      var theirs := File(id, owner) in d.files;
      && (status == 204 <==> theirs && !fails.lookup && !fails.bytes && !fails.row)
      && (status == 404 <==> !theirs && !fails.lookup)
      && (status == 204 ==> (f in after.files <==> f in d.files && f.id != id) && after.bytes == d.bytes - {id})
      && (status != 204 ==> after.files == d.files && status in {404, 500})
      && (after.bytes == d.bytes || (after.bytes == d.bytes - {id} && theirs))
      && (status == 404 ==> after == d)
  {
    KeepMembers(d.files, {id}, f);
    OwnsIff(d.files, owner, id);
    hide Keep, Owns;
  }

  lemma OwnsIff(files: seq<File>, owner: string, id: string)
    ensures Owns(files, owner, id) <==> File(id, owner) in files
  {
    if Owns(files, owner, id) {
      var i :| 0 <= i < |files| && files[i].id == id && files[i].owner == owner;
      assert files[i] == File(id, owner);
    }
    if File(id, owner) in files {
      var i :| 0 <= i < |files| && files[i] == File(id, owner);
      assert files[i].id == id && files[i].owner == owner;
    }
  }

  lemma NewestIsOwned(files: seq<File>, f: File)
    ensures Owns(files + [f], f.owner, f.id)
  {
    assert (files + [f])[|files|] == f;
  }

  lemma NewestIsNotOwned(files: seq<File>, f: File, other: string)
    requires f.id !in Ids(files) && other != f.owner
    ensures !Owns(files + [f], other, f.id)
  {
    forall i | 0 <= i < |files|
      ensures (files + [f])[i].id != f.id
    {
      assert files[i] in files;
    }
  }

  lemma {:induction false} KeepAll(files: seq<File>, gone: set<string>)
    requires forall i :: 0 <= i < |files| ==> files[i].id !in gone
    ensures Keep(files, gone) == files
  {
    if files != [] {
      KeepAll(files[..|files| - 1], gone);
    }
  }

  /** Even an erasure that fails midway touches nobody else's files. */
  lemma OthersFilesStay(d: Disk, subj: string, upTo: nat, f: File)
    requires Distinct(d.files) && f in d.files && f.owner != subj
    ensures var after := ErasedFiles(d, subj, upTo).0;
      f in after.files && (f.id in d.bytes ==> f.id in after.bytes)
  {
    if upTo > 0 {
      var ids := OwnedIds(d.files, subj);
      CleanIsExact(d, subj, f, f.id);
      OwnedIdsAre(d.files, subj, f.id);
      KeepMembers(d.files, SetOf(ids), f);
      KeepMembers(d.files, SetOf(ids[..Min((upTo - 1) / 2, |ids|)]), f);
    }
  }

  /**
   A failed erasure stops between files or inside one: the files before that one
   are gone altogether, those after it are untouched, and the one itself may have
   lost its bytes and kept its row. (The source's comment says it is untouched.)
   */
  lemma FailedErasureStopsInOneFile(d: Disk, subj: string, upTo: nat, k: nat)
    requires Distinct(d.files) && k < |OwnedIds(d.files, subj)| && !ErasedFiles(d, subj, upTo).1
    ensures var id := OwnedIds(d.files, subj)[k];
      var after := ErasedFiles(d, subj, upTo).0;
      && (2 * k + 2 < upTo ==> id !in Ids(after.files) && id !in after.bytes)
      && (upTo == 2 * k + 2 ==> File(id, subj) in after.files && id !in after.bytes)
      && (upTo < 2 * k + 2 ==> File(id, subj) in after.files && (id in d.bytes ==> id in after.bytes))
  {
    var ids := OwnedIds(d.files, subj);
    DistinctOwned(d.files, subj);
    OwnedIdsAre(d.files, subj, ids[k]);
    if upTo > 0 {
      var n, m := Min((upTo - 1) / 2, |ids|), Min(upTo / 2, |ids|);
      assert ids[k] in ids[..n] <==> k < n;
      assert ids[k] in ids[..m] <==> k < m;
      KeepMembers(d.files, SetOf(ids[..n]), File(ids[k], subj));
      forall f | f in Keep(d.files, SetOf(ids[..n]))
        ensures f.id !in SetOf(ids[..n])
      {
        KeepMembers(d.files, SetOf(ids[..n]), f);
      }
    }
  }

  /** Where the i-th file comes among its owner's. */
  lemma {:induction false} PlaceAmongOwned(files: seq<File>, n: nat, i: nat)
    requires i < n <= |files|
    ensures var ids, k := OwnedIds(files[..n], files[i].owner), |OwnedIds(files[..i], files[i].owner)|;
      k < |ids| && ids[k] == files[i].id
  {
    assert files[..n][..n - 1] == files[..n - 1];
    if i < n - 1 {
      PlaceAmongOwned(files, n - 1, i);
    }
  }

  lemma {:induction false} EarlierAmongOwned(files: seq<File>, subj: string, i: nat, j: nat)
    requires i < j <= |files| && files[i].owner == subj
    ensures |OwnedIds(files[..i], subj)| < |OwnedIds(files[..j], subj)|
    decreases j
  {
    assert files[..j][..j - 1] == files[..j - 1];
    if i < j - 1 {
      EarlierAmongOwned(files, subj, i, j - 1);
    }
  }

  /**
   An erasure goes by upload order: as long as a file keeps its row, every later one of
   the subject's is untouched.
   */
  lemma ErasureGoesInUploadOrder(d: Disk, subj: string, upTo: nat, i: nat, j: nat)
    requires Distinct(d.files) && i < j < |d.files| && d.files[i].owner == d.files[j].owner == subj
    ensures var after := ErasedFiles(d, subj, upTo).0;
      d.files[i] in after.files ==>
        d.files[j] in after.files && (d.files[j].id in d.bytes ==> d.files[j].id in after.bytes)
  {
    var (after, ok) := ErasedFiles(d, subj, upTo);
    assert d.files[..|d.files|] == d.files;
    PlaceAmongOwned(d.files, |d.files|, i);
    PlaceAmongOwned(d.files, |d.files|, j);
    EarlierAmongOwned(d.files, subj, i, j);
    if ok {
      ErasureConverges(d, subj, upTo);
      CleanIsExact(d, subj, d.files[i], d.files[i].id);
    } else {
      FailedErasureStopsInOneFile(d, subj, upTo, |OwnedIds(d.files[..i], subj)|);
      FailedErasureStopsInOneFile(d, subj, upTo, |OwnedIds(d.files[..j], subj)|);
    }
    hide ErasedFiles, OwnedIds, CleanFiles, Distinct;
  }

  lemma {:induction false} DistinctOwned(files: seq<File>, subj: string)
    requires Distinct(files)
    ensures forall i, j :: 0 <= i < j < |OwnedIds(files, subj)| ==> OwnedIds(files, subj)[i] != OwnedIds(files, subj)[j]
  {
    if files != [] {
      var front, last := files[..|files| - 1], files[|files| - 1];
      DistinctOwned(front, subj);
      OwnedIdsAre(front, subj, last.id);
      assert forall i :: 0 <= i < |front| ==> front[i] == files[i] && files[i].id != last.id;
      assert File(last.id, subj) !in front;
    }
  }

  // ----- Bytes without a row --------------------------------------------------------------

  datatype Step =
    | Upload(id: string, owner: string, fails: UploadFaults)
    | Delete(owner: string, id: string, faults: DeleteFaults)
    | Erase(subj: string, upTo: nat)

  function After(d: Disk, step: Step): Disk {
    match step
    case Upload(id, owner, fails) => Uploaded(d, id, owner, fails).0
    case Delete(owner, id, fails) => Deleted(d, owner, id, fails).0
    case Erase(subj, upTo) => ErasedFiles(d, subj, upTo).0
  }

  function Orphans(d: Disk): set<string> {
    d.bytes - Ids(d.files)
  }

  /** Bytes are left without a row in one case only: an upload whose insert fails and whose clean-up fails too. */
  lemma OrphansOnlyFromFailedCleanup(d: Disk, step: Step, key: string)
    requires key in Orphans(After(d, step)) && key !in Orphans(d)
    ensures match step
      case Upload(id, _, fails) => fails.cleanup && id == key && (fails.insert || id in Ids(d.files))
      case Delete(_, _, _) => false
      case Erase(_, _) => false
  {
    match step
    case Upload(id, owner, _) => assert File(id, owner) in d.files + [File(id, owner)];
    case Delete(_, id, _) => KeepsIds(d.files, {id}, key);
    case Erase(subj, upTo) =>
      if upTo > 0 {
        var ids := OwnedIds(d.files, subj);
        var n, m := Min((upTo - 1) / 2, |ids|), Min(upTo / 2, |ids|);
        KeepsIds(d.files, SetOf(ids[..n]), key);
      }
  }

  lemma KeepsIds(files: seq<File>, gone: set<string>, key: string)
    requires key in Ids(files) && key !in gone
    ensures key in Ids(Keep(files, gone))
  {
    var f :| f in files && f.id == key;
    KeepMembers(files, gone, f);
  }
}
