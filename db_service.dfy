/** services/db_service.py: the smallest-free-id allocator and the rule by
    which a resident's files are picked for deletion. The database query and
    the data directory are inputs: the query's result is the id column in
    ascending order, the directory a list of sub-folders with their entries. */
module DbService {
  import opened Basics

  // ---------------------------------------------------------------------
  // get_id

  /** What `order_by(id)` on a primary-key column delivers. */
  predicate Ascending(ids: seq<int>) {
    forall i, j :: 0 <= i < j < |ids| ==> ids[i] < ids[j]
  }

  /** The first integer of [lo, hi] that is not among `ids`. */
  function FirstFree(ids: seq<int>, lo: int, hi: int): (r: Option<int>)
    ensures r.Some? ==> lo <= r.value <= hi && r.value !in ids
    ensures r.Some? ==> forall k :: lo <= k < r.value ==> k in ids
    ensures r.None? ==> forall k :: lo <= k <= hi ==> k in ids
    decreases if lo <= hi then hi - lo + 1 else 0
  {
    if lo > hi then None
    else if lo !in ids then Some(lo)
    else FirstFree(ids, lo + 1, hi)
  }

  /** The id get_id hands out for a column: nothing for an empty column,
      otherwise the least positive integer missing below the last id. */
  function SmallestFree(ids: seq<int>): (r: Option<int>)
    ensures ids == [] ==> r.None?
    ensures r.Some? ==> 1 <= r.value < ids[|ids| - 1] && r.value !in ids
    ensures r.Some? ==> forall k :: 1 <= k < r.value ==> k in ids
    ensures ids != [] && r.None? ==> forall k :: 1 <= k <= ids[|ids| - 1] ==> k in ids
  {
    if ids == [] then None else FirstFree(ids, 1, ids[|ids| - 1])
  }

  /** The for-loop over range(1, last + 1) that stops at the first id
      missing from the column. */
  method GetId(existing: seq<int>) returns (next: Option<int>)
    ensures next == SmallestFree(existing)
  {
    next := None;
    if existing != [] {
      var last := existing[|existing| - 1];
      var expected := 1;
      while expected < last + 1
        invariant 1 <= expected
        invariant last >= 1 ==> expected <= last + 1
        invariant FirstFree(existing, 1, last) == FirstFree(existing, expected, last)
        decreases last + 1 - expected
      {
        if expected !in existing {
          next := Some(expected);
          break;
        }
        expected := expected + 1;
      }
    }
  }

  /** For an ascending column the last id is the largest, so an allocated id
      lies strictly below every id that bounds the column. */
  lemma {:induction false} AllocatedBelowMaximum(ids: seq<int>)
    requires Ascending(ids)
    ensures forall x :: x in ids ==> x <= ids[|ids| - 1]
    ensures SmallestFree(ids).Some? ==>
      forall x :: x in ids && x >= SmallestFree(ids).value ==> x > SmallestFree(ids).value
  {
    forall x | x in ids ensures x <= ids[|ids| - 1] {
      var i :| 0 <= i < |ids| && ids[i] == x;
      if i < |ids| - 1 { assert ids[i] < ids[|ids| - 1]; }
    }
  }

  /** A column that is exactly 1..n has no gap: the allocator answers None,
      never n + 1. */
  lemma {:induction false} NoGapNoId(n: nat)
    ensures SmallestFree(seq(n, i => i + 1)).None?
  {
    var ids := seq(n, i => i + 1);
    if n > 0 {
      forall k | 1 <= k <= n ensures k in ids { assert ids[k - 1] == k; }
    }
  }

  /** The allocator's answer is the unique least missing positive id below
      the last one. */
  lemma SmallestFreeUnique(ids: seq<int>, x: int)
    requires ids != [] && 1 <= x < ids[|ids| - 1] && x !in ids
    requires forall k :: 1 <= k < x ==> k in ids
    ensures SmallestFree(ids) == Some(x)
  {
  }

  /** Ids are reused: {1, 2, 4} yields 3, and deleting 3 from {1, 2, 3, 4}
      yields 3 again, while {1, 2, 3, 4} itself yields nothing. */
  lemma IdReuse()
    ensures SmallestFree([1, 2, 4]) == Some(3)
    ensures SmallestFree([1, 2, 3, 4]) == None
  {
    SmallestFreeUnique([1, 2, 4], 3);
    NoGapNoId(4);
    assert seq(4, i => i + 1) == [1, 2, 3, 4];
  }

  /** The id columns get_id can query. */
  datatype IdColumns = IdColumns(residents: seq<int>, accounts: seq<int>, logs: seq<int>)

  /** get_id(db, table): any other table name leaves `existing_ids` unbound
      and the call raises. */
  method GetIdFor(table: string, db: IdColumns) returns (r: Outcome<Option<int>>)
    ensures table == "residents" ==> r == Done(SmallestFree(db.residents))
    ensures table == "accounts" ==> r == Done(SmallestFree(db.accounts))
    ensures table == "logs" ==> r == Done(SmallestFree(db.logs))
    ensures table !in {"residents", "accounts", "logs"} ==> r == Raised(UnboundName("existing_ids"))
  {
    if table == "residents" {
      var next := GetId(db.residents);
      r := Done(next);
    } else if table == "accounts" {
      var next := GetId(db.accounts);
      r := Done(next);
    } else if table == "logs" {
      var next := GetId(db.logs);
      r := Done(next);
    } else {
      r := Raised(UnboundName("existing_ids"));
    }
  }

  // ---------------------------------------------------------------------
  // delete_resident_image

  /** The two glob patterns: the bare id, and the id followed by ".*". */
  datatype Pattern = Exact(stem: string) | DotStar(stem: string)

  /** glob's match of one directory entry name; `*` matches any run of
      characters, the empty one included. */
  predicate Matches(p: Pattern, name: string) {
    match p
    case Exact(stem) => name == stem
    case DotStar(stem) => StartsWith(name, stem + ".")
  }

  function Patterns(residentId: int): seq<Pattern> {
    [Exact(IntToString(residentId)), DotStar(IntToString(residentId))]
  }

  /** An entry belongs to the resident when either pattern matches it. */
  predicate TargetedBy(name: string, residentId: int) {
    Matches(Exact(IntToString(residentId)), name) || Matches(DotStar(IntToString(residentId)), name)
  }

  /** The part of a name before its first dot. */
  function Stem(name: string): string
    decreases |name|
  {
    if name == [] || name[0] == '.' then [] else [name[0]] + Stem(name[1..])
  }

  /** A dot-free pattern stem that matches a name is that name's stem. */
  lemma {:induction false} MatchedStem(name: string, stem: string)
    requires '.' !in stem
    requires name == stem || StartsWith(name, stem + ".")
    ensures stem == Stem(name)
    decreases |stem|
  {
    if stem != [] {
      assert stem[0] in stem;
      if name == stem {
        assert name[1..] == stem[1..];
      } else {
        var p := stem + ".";
        assert name[..|p|] == p;
        assert name[0] == name[..|p|][0] == stem[0];
        assert p[1..] == stem[1..] + ".";
        assert name[1..][..|p| - 1] == name[..|p|][1..];
        assert StartsWith(name[1..], stem[1..] + ".");
      }
      assert forall c :: c in stem[1..] ==> c in stem;
      MatchedStem(name[1..], stem[1..]);
    } else if name != [] {
      assert name[0] == '.';
    }
  }

  /** No entry name is targeted on behalf of two residents: deleting resident
      3 never touches "31" or "31.jpg". */
  lemma TargetedByOneResident(name: string, a: int, b: int)
    requires TargetedBy(name, a) && TargetedBy(name, b)
    ensures a == b
  {
    IntToStringPlain(a);
    IntToStringPlain(b);
    MatchedStem(name, IntToString(a));
    MatchedStem(name, IntToString(b));
    IntToStringInjective(a, b);
  }

  lemma TargetedByExamples()
    ensures TargetedBy("3", 3) && TargetedBy("3.jpg", 3) && TargetedBy("3.tar.gz", 3)
    ensures !TargetedBy("31", 3) && !TargetedBy("31.jpg", 3) && !TargetedBy("x3.jpg", 3)
  {
    assert IntToString(3) == "3";
    assert IntToString(3) + "." == "3.";
    assert "3.jpg"[..2] == "3.";
    assert "3.tar.gz"[..2] == "3.";
    assert "31.jpg"[..2][1] == '1';
    assert "x3.jpg"[..2][0] == 'x';
  }

  /** Whether os.path.isfile holds for a directory entry. */
  datatype EntryKind = RegularFile | NotAFile

  /** An entry of a data sub-folder; `removable` is whether os.remove (for a
      file) or shutil.rmtree (for anything else) succeeds on it. */
  datatype DataEntry = DataEntry(name: string, kind: EntryKind, removable: bool)

  /** An entry of the data directory; only directories are searched. */
  datatype DataFolder = DataFolder(name: string, isDir: bool, entries: seq<DataEntry>)

  /** The entries one pattern's pass leaves behind. */
  function Kept(es: seq<DataEntry>, p: Pattern): (r: seq<DataEntry>)
    ensures forall e :: e in r <==> e in es && !(Matches(p, e.name) && e.removable)
    decreases |es|
  {
    if es == [] then []
    else
      var last := es[|es| - 1];
      Kept(es[..|es| - 1], p) + (if Matches(p, last.name) && last.removable then [] else [last])
  }

  /** The paths one pattern's pass fails on, in listing order. */
  function Failed(dir: string, es: seq<DataEntry>, p: Pattern): (r: seq<string>)
    decreases |es|
  {
    if es == [] then []
    else
      var last := es[|es| - 1];
      Failed(dir, es[..|es| - 1], p)
        + (if Matches(p, last.name) && !last.removable then [Join(dir, last.name)] else [])
  }

  /** The folder after both passes; non-directories are left alone. */
  function Cleaned(f: DataFolder, residentId: int): DataFolder {
    if f.isDir
    then f.(entries := Kept(Kept(f.entries, Exact(IntToString(residentId))), DotStar(IntToString(residentId))))
    else f
  }

  /** The failures printed for one folder: those of the exact pattern first. */
  function FolderFailures(base: string, f: DataFolder, residentId: int): seq<string> {
    if !f.isDir then []
    else
      var dir := Join(base, f.name);
      var afterExact := Kept(f.entries, Exact(IntToString(residentId)));
      Failed(dir, f.entries, Exact(IntToString(residentId)))
        + Failed(dir, afterExact, DotStar(IntToString(residentId)))
  }

  function AllFailures(base: string, fs: seq<DataFolder>, residentId: int): seq<string>
    decreases |fs|
  {
    if fs == [] then []
    else AllFailures(base, fs[..|fs| - 1], residentId) + FolderFailures(base, fs[|fs| - 1], residentId)
  }

  /** Every folder of the listing after its clean-up. */
  function CleanedAll(fs: seq<DataFolder>, residentId: int): seq<DataFolder>
    decreases |fs|
  {
    if fs == [] then [] else CleanedAll(fs[..|fs| - 1], residentId) + [Cleaned(fs[|fs| - 1], residentId)]
  }

  lemma {:induction false} CleanedAllIndex(fs: seq<DataFolder>, residentId: int)
    ensures |CleanedAll(fs, residentId)| == |fs|
    ensures forall i :: 0 <= i < |fs| ==> CleanedAll(fs, residentId)[i] == Cleaned(fs[i], residentId)
    decreases |fs|
  {
    if fs != [] {
      CleanedAllIndex(fs[..|fs| - 1], residentId);
    }
  }

  lemma AllFailuresPrefix(base: string, fs: seq<DataFolder>, residentId: int, i: int)
    requires 0 <= i < |fs|
    ensures AllFailures(base, fs[..i + 1], residentId)
      == AllFailures(base, fs[..i], residentId) + FolderFailures(base, fs[i], residentId)
    ensures CleanedAll(fs[..i + 1], residentId) == CleanedAll(fs[..i], residentId) + [Cleaned(fs[i], residentId)]
  {
    assert fs[..i + 1][..i] == fs[..i];
    assert CleanedAll(fs[..i + 1], residentId) == CleanedAll(fs[..i], residentId) + [Cleaned(fs[i], residentId)];
  }

  /** After the clean-up an entry of a searched folder survives exactly when
      it is not the resident's or could not be removed; nothing is added. */
  lemma CleanedSurvivors(f: DataFolder, residentId: int, e: DataEntry)
    requires f.isDir
    ensures e in Cleaned(f, residentId).entries <==>
      e in f.entries && !(TargetedBy(e.name, residentId) && e.removable)
  {
  }

  /** One pass of `for path in glob.glob(pattern)`: each matching entry is
      removed, or its path is reported and the loop goes on. */
  method DeletePass(dir: string, es: seq<DataEntry>, p: Pattern)
    returns (left: seq<DataEntry>, failures: seq<string>)
    ensures left == Kept(es, p) && failures == Failed(dir, es, p)
  {
    left, failures := [], [];
    for i := 0 to |es|
      invariant left == Kept(es[..i], p) && failures == Failed(dir, es[..i], p)
    {
      assert es[..i + 1][..i] == es[..i];
      var e := es[i];
      if Matches(p, e.name) {
        if e.removable {
          // os.remove(path) for a file, shutil.rmtree(path) otherwise
        } else {
          failures := failures + [Join(dir, e.name)];
          left := left + [e];
        }
      } else {
        left := left + [e];
      }
    }
    assert es[..|es|] == es;
  }

  /** The two glob passes over one sub-folder, exact pattern first. */
  method CleanFolder(base: string, f: DataFolder, residentId: int)
    returns (g: DataFolder, failures: seq<string>)
    requires f.isDir
    ensures g == Cleaned(f, residentId) && failures == FolderFailures(base, f, residentId)
  {
    var dir := Join(base, f.name);
    var patterns := Patterns(residentId);
    var left, failedExact := DeletePass(dir, f.entries, patterns[0]);
    var rest, failedDotStar := DeletePass(dir, left, patterns[1]);
    g := f.(entries := rest);
    failures := failedExact + failedDotStar;
  }

  /** delete_resident_image: every sub-folder of the data directory loses the
      resident's entries; a missing data directory changes nothing. */
  method DeleteResidentImage(base: string, data: Option<seq<DataFolder>>, residentId: int)
    returns (after: Option<seq<DataFolder>>, failures: seq<string>)
    ensures data.None? ==> after.None? && failures == []
    ensures data.Some? ==> after.Some? && |after.value| == |data.value|
    ensures data.Some? ==> forall i :: 0 <= i < |data.value| ==>
      after.value[i] == Cleaned(data.value[i], residentId)
    ensures data.Some? ==> failures == AllFailures(base, data.value, residentId)
  {
    if data.None? {
      return None, [];
    }
    var folders := data.value;
    var done: seq<DataFolder> := [];
    failures := [];
    for i := 0 to |folders|
      invariant done == CleanedAll(folders[..i], residentId)
      invariant failures == AllFailures(base, folders[..i], residentId)
    {
      AllFailuresPrefix(base, folders, residentId, i);
      var f := folders[i];
      if f.isDir {
        var g, here := CleanFolder(base, f, residentId);
        done := done + [g];
        failures := failures + here;
      } else {
        done := done + [f];
      }
    }
    assert folders[..|folders|] == folders;
    CleanedAllIndex(folders, residentId);
    after := Some(done);
  }
}
