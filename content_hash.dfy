/** calc_md5 of services/service.py: the bytes of every file under a folder,
    directory by directory in walk order and file by file in sorted-name
    order, read in 8192-byte chunks into one MD5 object. MD5 itself is a
    parameter `md5`, the digest-to-hex of the concatenated input. */
module ContentHash {
  import opened Basics

  const ChunkSize: nat := 8192

  // ---------------------------------------------------------------------
  // Python's ordering of str: code point by code point, a prefix first

  predicate NameAtMost(a: string, b: string)
    decreases |a|
  {
    a == [] || (b != [] && (a[0] < b[0] || (a[0] == b[0] && NameAtMost(a[1..], b[1..]))))
  }

  lemma {:induction false} NameAtMostTotal(a: string, b: string)
    ensures NameAtMost(a, b) || NameAtMost(b, a)
    decreases |a|
  {
    if a != [] && b != [] && a[0] == b[0] { NameAtMostTotal(a[1..], b[1..]); }
  }

  lemma {:induction false} NameAtMostAntisymmetric(a: string, b: string)
    requires NameAtMost(a, b) && NameAtMost(b, a)
    ensures a == b
    decreases |a|
  {
    if a != [] {
      NameAtMostAntisymmetric(a[1..], b[1..]);
      assert a == [a[0]] + a[1..] && b == [b[0]] + b[1..];
    }
  }

  lemma {:induction false} NameAtMostTransitive(a: string, b: string, c: string)
    requires NameAtMost(a, b) && NameAtMost(b, c)
    ensures NameAtMost(a, c)
    decreases |a|
  {
    if a != [] && a[0] == b[0] && b[0] == c[0] { NameAtMostTransitive(a[1..], b[1..], c[1..]); }
  }

  // ---------------------------------------------------------------------
  // sorted(files)

  predicate SortedByName(fs: seq<FileItem>) {
    forall i :: 0 < i < |fs| ==> NameAtMost(fs[i - 1].name, fs[i].name)
  }

  predicate DistinctNames(fs: seq<FileItem>) {
    forall i, j :: 0 <= i < j < |fs| ==> fs[i].name != fs[j].name
  }

  function InsertByName(x: FileItem, s: seq<FileItem>): (r: seq<FileItem>)
    requires SortedByName(s)
    ensures SortedByName(r)
    ensures multiset(r) == multiset(s) + multiset{x}
    ensures |r| == |s| + 1
    ensures r[0] == x || (s != [] && r[0] == s[0])
    decreases |s|
  {
    if s == [] || NameAtMost(x.name, s[0].name) then [x] + s
    else
      NameAtMostTotal(x.name, s[0].name);
      var t := InsertByName(x, s[1..]);
      assert s == [s[0]] + s[1..];
      [s[0]] + t
  }

  /** `sorted(files)`: the file listing reordered by name. */
  function SortByName(fs: seq<FileItem>): (r: seq<FileItem>)
    ensures SortedByName(r)
    ensures multiset(r) == multiset(fs)
    decreases |fs|
  {
    if fs == [] then []
    else
      assert fs == [fs[0]] + fs[1..];
      InsertByName(fs[0], SortByName(fs[1..]))
  }

  /** In a sorted listing the first name is the least. */
  lemma {:induction false} SortedHeadLeast(s: seq<FileItem>, k: nat)
    requires SortedByName(s) && k < |s|
    ensures NameAtMost(s[0].name, s[k].name)
    decreases k
  {
    if k == 0 {
      NameAtMostTotal(s[0].name, s[0].name);
    } else {
      SortedHeadLeast(s, k - 1);
      NameAtMostTransitive(s[0].name, s[k - 1].name, s[k].name);
    }
  }

  /** Within the collection no two different files share a name. */
  ghost predicate NameDetermines(m: multiset<FileItem>) {
    forall x, y :: x in m && y in m && x.name == y.name ==> x == y
  }

  lemma SortedTail(s: seq<FileItem>)
    requires SortedByName(s) && s != []
    ensures SortedByName(s[1..])
  {
    forall k | 0 < k < |s| - 1 ensures NameAtMost(s[1..][k - 1].name, s[1..][k].name) {
      assert s[1..][k - 1] == s[k] && s[1..][k] == s[k + 1];
    }
  }

  /** Two sorted orderings of the same files coincide when no two files
      share a name. */
  lemma {:induction false} SortedUnique(s: seq<FileItem>, t: seq<FileItem>)
    requires SortedByName(s) && SortedByName(t) && NameDetermines(multiset(s))
    requires multiset(s) == multiset(t)
    ensures s == t
    decreases |s|
  {
    assert |s| == |multiset(s)| == |multiset(t)| == |t|;
    if s != [] {
      HeadsAgree(s, t);
      TailsShareMultiset(s, t);
      NameDeterminesTail(s);
      SortedTail(s);
      SortedTail(t);
      SortedUnique(s[1..], t[1..]);
      assert s == [s[0]] + s[1..] && t == [t[0]] + t[1..];
    }
  }

  /** Two sorted orderings of the same distinctly named files start alike. */
  lemma HeadsAgree(s: seq<FileItem>, t: seq<FileItem>)
    requires SortedByName(s) && SortedByName(t) && NameDetermines(multiset(s))
    requires multiset(s) == multiset(t) && s != [] && t != []
    ensures s[0] == t[0]
  {
    assert t[0] in multiset(t) && s[0] in multiset(s);
    var i := HeadIndexOf(t[0], s);
    var j := HeadIndexOf(s[0], t);
    SortedHeadLeast(s, i);
    SortedHeadLeast(t, j);
    NameAtMostAntisymmetric(s[0].name, t[0].name);
  }

  /** Equal heads leave equal tails. */
  lemma TailsShareMultiset(s: seq<FileItem>, t: seq<FileItem>)
    requires multiset(s) == multiset(t) && s != [] && t != [] && s[0] == t[0]
    ensures multiset(s[1..]) == multiset(t[1..])
  {
    assert s == [s[0]] + s[1..] && t == [t[0]] + t[1..];
    assert multiset(s[1..]) == multiset(s) - multiset{s[0]};
    assert multiset(t[1..]) == multiset(t) - multiset{t[0]};
  }

  /** Dropping the first file keeps names determining files. */
  lemma NameDeterminesTail(s: seq<FileItem>)
    requires s != [] && NameDetermines(multiset(s))
    ensures NameDetermines(multiset(s[1..]))
  {
    assert s == [s[0]] + s[1..];
    forall x, y | x in multiset(s[1..]) && y in multiset(s[1..]) && x.name == y.name
      ensures x == y
    {
      assert x in multiset(s) && y in multiset(s);
    }
  }

  /** A position at which an element of the sequence's multiset occurs. */
  lemma HeadIndexOf(x: FileItem, s: seq<FileItem>) returns (i: nat)
    requires x in multiset(s)
    ensures i < |s| && s[i] == x
  {
    assert x in s;
    i :| 0 <= i < |s| && s[i] == x;
  }

  /** The order in which a directory lists its files does not matter: any
      two listings of the same distinctly named files sort alike. */
  lemma ListingOrderIrrelevant(fs: seq<FileItem>, gs: seq<FileItem>)
    requires DistinctNames(fs) && multiset(fs) == multiset(gs)
    ensures SortByName(fs) == SortByName(gs)
  {
    assert NameDetermines(multiset(fs)) by {
      forall x, y | x in multiset(fs) && y in multiset(fs) && x.name == y.name ensures x == y {
        var a := HeadIndexOf(x, fs);
        var b := HeadIndexOf(y, fs);
        assert a == b;
      }
    }
    SortedUnique(SortByName(fs), SortByName(gs));
  }

  // ---------------------------------------------------------------------
  // The digest input

  /** The bytes of the given files, one after another. */
  function FilesBytes(fs: seq<FileItem>): seq<byte>
    decreases |fs|
  {
    if fs == [] then [] else FilesBytes(fs[..|fs| - 1]) + fs[|fs| - 1].data
  }

  /** Everything calc_md5 feeds to the digest for a walk of the folder. */
  function WalkBytes(walk: seq<WalkStep>): (r: seq<byte>)
    ensures (forall i :: 0 <= i < |walk| ==> walk[i].files == []) ==> r == []
    decreases |walk|
  {
    if walk == [] then []
    else
      var last := walk[|walk| - 1];
      assert last.files == [] ==> SortByName(last.files) == [];
      WalkBytes(walk[..|walk| - 1]) + StepBytes(last)
  }

  /** What one step of the walk feeds: its files in name order. */
  function StepBytes(st: WalkStep): seq<byte> {
    FilesBytes(SortByName(st.files))
  }

  /** Neither directory names nor the order in which a directory lists its
      files enter the digest: walks that differ only in those feed the same
      bytes. */
  lemma {:induction false} WalkBytesIgnoreNamesAndListing(w1: seq<WalkStep>, w2: seq<WalkStep>)
    requires |w1| == |w2|
    requires forall i :: 0 <= i < |w1| ==>
      DistinctNames(w1[i].files) && multiset(w1[i].files) == multiset(w2[i].files)
    ensures WalkBytes(w1) == WalkBytes(w2)
    decreases |w1|
  {
    if w1 != [] {
      var n := |w1| - 1;
      WalkBytesIgnoreNamesAndListing(w1[..n], w2[..n]);
      ListingOrderIrrelevant(w1[n].files, w2[n].files);
    }
  }

  /** The two listings carry the same bytes, position by position. */
  predicate SameContents(fs: seq<FileItem>, gs: seq<FileItem>) {
    |fs| == |gs| && forall i :: 0 <= i < |fs| ==> fs[i].data == gs[i].data
  }

  lemma {:induction false} FilesBytesSameContents(fs: seq<FileItem>, gs: seq<FileItem>)
    requires SameContents(fs, gs)
    ensures FilesBytes(fs) == FilesBytes(gs)
    decreases |fs|
  {
    if fs != [] {
      var n := |fs| - 1;
      assert SameContents(fs[..n], gs[..n]) by {
        forall i | 0 <= i < n ensures fs[..n][i].data == gs[..n][i].data {
          assert fs[..n][i] == fs[i] && gs[..n][i] == gs[i];
        }
      }
      FilesBytesSameContents(fs[..n], gs[..n]);
    }
  }

  /** Only file contents enter the digest: walks whose directories, once
      sorted, hold the same bytes position by position feed the same input,
      whatever the files and directories are called. */
  lemma {:induction false} WalkBytesOnlyContents(w1: seq<WalkStep>, w2: seq<WalkStep>)
    requires |w1| == |w2|
    requires forall s :: 0 <= s < |w1| ==> SameContents(SortByName(w1[s].files), SortByName(w2[s].files))
    ensures WalkBytes(w1) == WalkBytes(w2)
    decreases |w1|
  {
    if w1 != [] {
      var n := |w1| - 1;
      assert forall s :: 0 <= s < n ==> w1[..n][s] == w1[s] && w2[..n][s] == w2[s];
      WalkBytesOnlyContents(w1[..n], w2[..n]);
      FilesBytesSameContents(SortByName(w1[n].files), SortByName(w2[n].files));
    }
  }

  /** The bytes `part` gives for each item, one item after another: the
      shape shared by FilesBytes and WalkBytes. */
  function Concat<T>(xs: seq<T>, part: T -> seq<byte>): seq<byte>
    decreases |xs|
  {
    if xs == [] then [] else Concat(xs[..|xs| - 1], part) + part(xs[|xs| - 1])
  }

  /** Replacing one item by one whose part is as long keeps the length
      of the whole, and changes the whole when it changes the part. */
  lemma {:induction false} ConcatUpdate<T>(xs: seq<T>, k: int, y: T, part: T -> seq<byte>)
    requires 0 <= k < |xs| && |part(y)| == |part(xs[k])|
    ensures |Concat(xs[k := y], part)| == |Concat(xs, part)|
    ensures part(y) != part(xs[k]) ==> Concat(xs[k := y], part) != Concat(xs, part)
    decreases |xs|
  {
    var ys, n := xs[k := y], |xs| - 1;
    var before, after := Concat(xs[..n], part), Concat(ys[..n], part);
    if k == n {
      assert ys[..n] == xs[..n];
      if part(y) != part(xs[k]) {
        assert (after + part(y))[|after|..] == part(y);
        assert (before + part(xs[k]))[|before|..] == part(xs[k]);
      }
    } else {
      assert ys[..n] == xs[..n][k := y] && ys[n] == xs[n];
      ConcatUpdate(xs[..n], k, y, part);
      if part(y) != part(xs[k]) {
        assert (after + part(xs[n]))[..|after|] == after;
        assert (before + part(xs[n]))[..|before|] == before;
      }
    }
  }

  function Data(f: FileItem): seq<byte> {
    f.data
  }

  lemma {:induction false} FilesBytesIsConcat(fs: seq<FileItem>)
    ensures FilesBytes(fs) == Concat(fs, Data)
    decreases |fs|
  {
    if fs != [] { FilesBytesIsConcat(fs[..|fs| - 1]); }
  }

  lemma {:induction false} WalkBytesIsConcat(w: seq<WalkStep>)
    ensures WalkBytes(w) == Concat(w, StepBytes)
    decreases |w|
  {
    if w != [] { WalkBytesIsConcat(w[..|w| - 1]); }
  }

  /** Replacing the first argument of an insertion by a file of the same
      name replaces it in the result, at the same place. */
  lemma {:induction false} InsertSameNameHead(x: FileItem, y: FileItem, s: seq<FileItem>) returns (k: nat)
    requires SortedByName(s) && y.name == x.name
    ensures k < |s| + 1 && InsertByName(x, s)[k] == x
    ensures InsertByName(y, s) == InsertByName(x, s)[k := y]
    decreases |s|
  {
    if s == [] || NameAtMost(x.name, s[0].name) {
      k := 0;
      assert InsertByName(x, s) == [x] + s && InsertByName(y, s) == [y] + s;
      HeadUpdate(x, s, y);
    } else {
      SortedTail(s);
      var k' := InsertSameNameHead(x, y, s[1..]);
      k := k' + 1;
      var rx := InsertByName(x, s[1..]);
      assert InsertByName(x, s) == [s[0]] + rx;
      assert InsertByName(y, s) == [s[0]] + rx[k' := y];
      ConsUpdate(s[0], rx, k', y);
    }
  }

  /** Updating after the head of a list updates its tail. */
  lemma ConsUpdate(h: FileItem, t: seq<FileItem>, k: nat, y: FileItem)
    requires k < |t|
    ensures ([h] + t)[k + 1 := y] == [h] + t[k := y]
  {
    var l, r := ([h] + t)[k + 1 := y], [h] + t[k := y];
    forall i | 0 <= i < |l| ensures l[i] == r[i] {
      if i > 0 { assert r[i] == t[k := y][i - 1]; }
    }
  }

  /** Replacing one file of a sorted list by a file of the same name
      replaces it in the result of an insertion, at one place. */
  lemma {:induction false} InsertSameNameInner(x: FileItem, s: seq<FileItem>, k: int, y: FileItem) returns (k2: nat)
    requires SortedByName(s) && 0 <= k < |s| && y.name == s[k].name
    ensures SortedByName(s[k := y])
    ensures k2 < |s| + 1 && InsertByName(x, s)[k2] == s[k]
    ensures InsertByName(x, s[k := y]) == InsertByName(x, s)[k2 := y]
    decreases |s|, 1
  {
    UpdateSameNameSorted(s, k, y);
    if NameAtMost(x.name, s[0].name) {
      k2 := k + 1;
      InsertFrontUpdate(x, s, k, y);
    } else if k == 0 {
      k2 := 0;
      InsertPastHeadUpdate(x, s, y);
    } else {
      k2 := InsertDeepUpdate(x, s, k, y);
    }
  }

  lemma UpdateSameNameSorted(s: seq<FileItem>, k: int, y: FileItem)
    requires SortedByName(s) && 0 <= k < |s| && y.name == s[k].name
    ensures SortedByName(s[k := y])
  {
    var t := s[k := y];
    forall i | 0 < i < |t| ensures NameAtMost(t[i - 1].name, t[i].name) {
      assert t[i - 1].name == s[i - 1].name && t[i].name == s[i].name;
    }
  }

  /** x goes before every file: the replaced file moves one place on. */
  lemma InsertFrontUpdate(x: FileItem, s: seq<FileItem>, k: int, y: FileItem)
    requires SortedByName(s) && 0 <= k < |s| && y.name == s[k].name
    requires SortedByName(s[k := y]) && NameAtMost(x.name, s[0].name)
    ensures InsertByName(x, s)[k + 1] == s[k]
    ensures InsertByName(x, s[k := y]) == InsertByName(x, s)[k + 1 := y]
  {
    var t := s[k := y];
    assert t[0].name == s[0].name;
    assert InsertByName(x, s) == [x] + s;
    assert InsertByName(x, t) == [x] + t;
    ConsUpdate(x, s, k, y);
  }

  /** x goes after the first file, which is the one replaced. */
  lemma InsertPastHeadUpdate(x: FileItem, s: seq<FileItem>, y: FileItem)
    requires SortedByName(s) && s != [] && y.name == s[0].name
    requires SortedByName(s[0 := y]) && !NameAtMost(x.name, s[0].name)
    ensures InsertByName(x, s)[0] == s[0]
    ensures InsertByName(x, s[0 := y]) == InsertByName(x, s)[0 := y]
  {
    var t := s[0 := y];
    assert t[0] == y && t[1..] == s[1..];
    assert !NameAtMost(x.name, t[0].name);
    SortedTail(s);
    var rx := InsertByName(x, s[1..]);
    assert InsertByName(x, s) == [s[0]] + rx;
    assert InsertByName(x, t) == [y] + rx;
    HeadUpdate(s[0], rx, y);
  }

  /** Updating the head of a list keeps its tail. */
  lemma HeadUpdate(h: FileItem, t: seq<FileItem>, y: FileItem)
    ensures ([h] + t)[0 := y] == [y] + t
  {
    var l, r := ([h] + t)[0 := y], [y] + t;
    forall i | 0 <= i < |l| ensures l[i] == r[i] {
      if i > 0 { assert l[i] == t[i - 1]; }
    }
  }

  /** x goes after the first file, and the replaced file is further on. */
  lemma {:induction false} InsertDeepUpdate(x: FileItem, s: seq<FileItem>, k: int, y: FileItem) returns (k2: nat)
    requires SortedByName(s) && 0 < k < |s| && y.name == s[k].name
    requires SortedByName(s[k := y]) && !NameAtMost(x.name, s[0].name)
    ensures k2 < |s| + 1 && InsertByName(x, s)[k2] == s[k]
    ensures InsertByName(x, s[k := y]) == InsertByName(x, s)[k2 := y]
    decreases |s|, 0
  {
    SortedTail(s);
    var t := s[k := y];
    assert t[0] == s[0];
    assert t[1..] == s[1..][k - 1 := y];
    var k' := InsertSameNameInner(x, s[1..], k - 1, y);
    k2 := k' + 1;
    var rx := InsertByName(x, s[1..]);
    assert InsertByName(x, s) == [s[0]] + rx;
    assert InsertByName(x, t) == [s[0]] + rx[k' := y];
    ConsUpdate(s[0], rx, k', y);
  }

  /** sorted() looks only at names: giving file i other contents under the
      same name changes the sorted listing at one place only. */
  lemma {:induction false} SortSameName(fs: seq<FileItem>, i: int, f: FileItem) returns (k: nat)
    requires 0 <= i < |fs| && f.name == fs[i].name
    ensures |SortByName(fs)| == |fs| && k < |fs| && SortByName(fs)[k] == fs[i]
    ensures SortByName(fs[i := f]) == SortByName(fs)[k := f]
    decreases |fs|
  {
    var g := fs[i := f];
    assert |multiset(SortByName(fs))| == |multiset(fs)|;
    if i == 0 {
      assert g[1..] == fs[1..];
      k := InsertSameNameHead(fs[0], f, SortByName(fs[1..]));
    } else {
      assert g[1..] == fs[1..][i - 1 := f];
      var k' := SortSameName(fs[1..], i - 1, f);
      k := InsertSameNameInner(fs[0], SortByName(fs[1..]), k', f);
    }
  }

  /** One changed byte in one file changes the digest input. */
  lemma OneByteChangesWalkBytes(w: seq<WalkStep>, s: int, i: int, j: int, b: byte)
    requires 0 <= s < |w| && 0 <= i < |w[s].files| && 0 <= j < |w[s].files[i].data|
    requires b != w[s].files[i].data[j]
    ensures var f := w[s].files[i];
      var changed := w[s := WalkStep(w[s].rel, w[s].files[i := FileItem(f.name, f.data[j := b])])];
      WalkBytes(changed) != WalkBytes(w)
  {
    var f := w[s].files[i];
    var f' := FileItem(f.name, f.data[j := b]);
    var step' := WalkStep(w[s].rel, w[s].files[i := f']);
    var changed := w[s := step'];
    var xs := SortByName(w[s].files);
    var k := SortSameName(w[s].files, i, f');
    var ys := xs[k := f'];
    assert f'.data != f.data by { assert f'.data[j] != f.data[j]; }
    FilesBytesIsConcat(xs);
    FilesBytesIsConcat(ys);
    ConcatUpdate(xs, k, f', Data);
    assert StepBytes(step') == FilesBytes(ys);
    WalkBytesIsConcat(w);
    WalkBytesIsConcat(changed);
    ConcatUpdate(w, s, step', StepBytes);
  }

  /** Sub-directories are not sorted: the order os.walk visits them in is
      part of the digest input. */
  lemma DirectoryOrderMatters()
    ensures var a := WalkStep(["a"], [FileItem("x", [1])]);
      var b := WalkStep(["b"], [FileItem("x", [2])]);
      WalkBytes([WalkStep([], []), a, b]) != WalkBytes([WalkStep([], []), b, a])
  {
    var top := WalkStep([], []);
    var a := WalkStep(["a"], [FileItem("x", [1])]);
    var b := WalkStep(["b"], [FileItem("x", [2])]);
    TopThenOneFile(top, a);
    TopThenOneFile(top, b);
    assert [top, a, b][..2] == [top, a];
    assert [top, b, a][..2] == [top, b];
    assert WalkBytes([top, a, b])[0] == 1;
    assert WalkBytes([top, b, a])[0] == 2;
  }

  /** A file-less top directory followed by a directory of one file feeds
      exactly that file's bytes. */
  lemma TopThenOneFile(top: WalkStep, d: WalkStep)
    requires top.files == [] && |d.files| == 1
    ensures WalkBytes([top, d]) == d.files[0].data
  {
    var f := d.files[0];
    assert d.files == [f];
    assert SortByName([f]) == [f] by {
      assert [f][1..] == [];
    }
    assert FilesBytes([f]) == f.data by {
      assert [f][..0] == [];
    }
    assert WalkBytes([top]) == [] by {
      assert [top][..0] == [];
    }
    assert [top, d][..1] == [top];
  }

  // ---------------------------------------------------------------------
  // The objects calc_md5 works with

  /** A file opened with open(path, 'rb'). */
  class FileReader {
    const content: seq<byte>
    var pos: nat

    ghost predicate Valid() reads this { pos <= |content| }

    constructor Open(data: seq<byte>)
      ensures Valid() && content == data && pos == 0
    {
      content := data;
      pos := 0;
    }

    /** f.read(size): up to `size` bytes from the current position. */
    method Read(size: nat) returns (chunk: seq<byte>)
      requires Valid()
      modifies this
      ensures Valid()
      ensures chunk == content[old(pos)..Min(old(pos) + size, |content|)]
      ensures pos == old(pos) + |chunk|
    {
      var end := Min(pos + size, |content|);
      chunk := content[pos..end];
      pos := end;
    }
  }

  /** The hashlib.md5() object: what matters is the input fed so far. */
  class Digest {
    var fed: seq<byte>

    constructor ()
      ensures fed == []
    {
      fed := [];
    }

    /** md5.update(chunk) */
    method Update(chunk: seq<byte>)
      modifies this
      ensures fed == old(fed) + chunk
    {
      fed := fed + chunk;
    }

    /** md5.hexdigest() */
    function HexDigest(md5: seq<byte> -> string): string
      reads this
    {
      md5(fed)
    }
  }

  /** `while chunk := f.read(8192): md5.update(chunk)`: reading until the
      first empty chunk feeds the whole file. */
  method FeedFile(d: Digest, data: seq<byte>)
    modifies d
    ensures d.fed == old(d.fed) + data
  {
    var f := new FileReader.Open(data);
    var chunk := f.Read(ChunkSize);
    while chunk != []
      invariant fresh(f) && f.Valid() && f.content == data
      invariant d.fed + chunk == old(d.fed) + data[..f.pos]
      invariant chunk == [] ==> f.pos == |data|
      decreases |data| - f.pos + |chunk|
    {
      d.Update(chunk);
      chunk := f.Read(ChunkSize);
    }
    assert data[..|data|] == data;
  }

  /** `for file in sorted(files)`: each file fed whole, in that order. */
  method FeedFiles(d: Digest, files: seq<FileItem>)
    modifies d
    ensures d.fed == old(d.fed) + FilesBytes(files)
  {
    for j := 0 to |files|
      invariant d.fed == old(d.fed) + FilesBytes(files[..j])
    {
      assert files[..j + 1][..j] == files[..j];
      FeedFile(d, files[j].data);
    }
    assert files[..|files|] == files;
  }

  /** calc_md5(folder_path) for the walk of that folder. */
  method CalcMd5(walk: seq<WalkStep>, md5: seq<byte> -> string) returns (hex: string)
    ensures hex == md5(WalkBytes(walk))
  {
    var d := new Digest();
    for s := 0 to |walk|
      invariant d.fed == WalkBytes(walk[..s])
    {
      assert walk[..s + 1][..s] == walk[..s];
      FeedFiles(d, SortByName(walk[s].files));
    }
    assert walk[..|walk|] == walk;
    hex := d.HexDigest(md5);
  }

  /** Two calls on an unchanged folder yield the same hex string, and a
      folder without files yields the digest of empty input. */
  method CalcMd5Twice(walk: seq<WalkStep>, md5: seq<byte> -> string) returns (first: string, second: string)
    ensures first == second
    ensures (forall i :: 0 <= i < |walk| ==> walk[i].files == []) ==> first == md5([])
  {
    first := CalcMd5(walk, md5);
    second := CalcMd5(walk, md5);
  }
}
