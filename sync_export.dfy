/** routes/service.py: the enrollment route (save, extract, preprocess,
    encode, in that order, the first failure fixing the answer), the sync
    manifest of the embed folder, and the export of one resident's folder
    as a zip archive. The resident table is a map from id to name; the
    binary codec is represented only by its outcome. */
module SyncService {
  import opened Basics
  import opened ContentHash
  import opened ServiceSteps
  import opened Preprocessing

  // ---------------------------------------------------------------------
  // POST /embed

  datatype EnrollReply = EnrollReply(ok: bool, message: string, processedFolder: Option<string>)

  function Failure(message: string): EnrollReply { EnrollReply(false, message, None) }

  /** `f"{folder_id}"` for the optional query parameter: "None" when absent. */
  function FolderIdText(folderId: Option<int>): string {
    match folderId
    case None => "None"
    case Some(i) => IntToString(i)
  }

  /** The enrollment route. `saveOk`: writing the upload succeeded;
      `archiveOpens`: zipfile can extract it; `setupRaises`: creating the
      output folder or loading the detector raised; `rawWalk` and `src`:
      what the preprocessing step reads; `codec`: what
      save_embedding_with_header_auto_embed returned (None: it raised). */
  method Enroll(folderId: Option<int>, saveOk: bool, archiveOpens: bool, setupRaises: bool,
                rawWalk: seq<WalkStep>, src: ImageSource, residents: map<int, string>, codec: Option<bool>)
    returns (reply: EnrollReply)
    ensures !saveOk ==> reply == Failure("error save zip")
    ensures saveOk && !archiveOpens ==> reply == Failure("error process_zip")
    ensures saveOk && archiveOpens && setupRaises ==> reply == Failure("error preprocessing")
    ensures saveOk && archiveOpens && !setupRaises ==>
      var folder := FolderIdText(folderId);
      var out := PreprocessSpec(Join(Join("data", "pics"), folder), Join(Join("data", "processed_pics"), folder),
                                rawWalk, src);
      && (out.fault.Some? ==> reply == Failure("error preprocessing"))
      && (out.fault.None? ==>
            if folderId.Some? && folderId.value in residents && codec == Some(true)
            then reply == EnrollReply(true, "done", Some(folder))
            else reply == Failure("error process_embedding"))
    ensures reply.ok ==> (folderId.Some? && folderId.value in residents
                          && reply.processedFolder == Some(IntToString(folderId.value)))
  {
    var zipFolder := Join("data", "zips");
    var rawPicFolder := Join("data", "pics");
    var processedPicFolder := Join("data", "processed_pics");
    var zipFilename := FolderIdText(folderId) + ".zip";
    if !saveOk {
      return Failure("error save zip");
    }
    var extracted := ProcessZip(zipFolder, rawPicFolder, zipFilename, true, archiveOpens);
    if extracted.None? || extracted.value == "" {
      return Failure("error process_zip");
    }
    FolderIdExtracted(zipFolder, rawPicFolder, folderId);
    var folder := extracted.value;
    if setupRaises {
      return Failure("error preprocessing");
    }
    var out := PreprocessImages(Join(rawPicFolder, folder), Join(processedPicFolder, folder), rawWalk, src);
    if out.fault.Some? {
      return Failure("error preprocessing");
    }
    if folderId.None? || folderId.value !in residents {
      // int(None) or `None.name` raises inside the handler
      return Failure("error process_embedding");
    }
    if codec != Some(true) {
      return Failure("error process_embedding");
    }
    reply := EnrollReply(true, "done", Some(folder));
  }

  /** The saved "<folder_id>.zip" always extracts into "<folder_id>", which
      is never empty, so the falsy check never fires on a successful
      extraction; without an id the folder is "None". */
  lemma FolderIdExtracted(zipFolder: string, picFolder: string, folderId: Option<int>)
    ensures ProcessZip(zipFolder, picFolder, FolderIdText(folderId) + ".zip", true, true)
      == Some(FolderIdText(folderId))
    ensures FolderIdText(folderId) != ""
  {
    match folderId
    case Some(i) =>
      ProcessZipOfId(zipFolder, picFolder, i);
      IntToStringPlain(i);
    case None =>
      SplitExtOfZip("None");
      assert "None" + ".zip" == "None.zip";
  }

  // ---------------------------------------------------------------------
  // GET /sync-metadata

  /** An entry of `os.listdir("data/embeds")`. */
  datatype EmbedFolder = EmbedFolder(name: string, isDir: bool, walk: seq<WalkStep>)

  datatype ManifestEntry = ManifestEntry(id: string, name: string, md5: string)

  /** A folder enters the manifest when its name is all digits, it is a
      directory, and a resident has that number. */
  predicate InManifest(f: EmbedFolder, residents: map<int, string>) {
    IsDigits(f.name) && f.isDir && DigitsValue(f.name) in residents
  }

  function EntryFor(f: EmbedFolder, residents: map<int, string>, md5: seq<byte> -> string): ManifestEntry
    requires InManifest(f, residents)
  {
    ManifestEntry(f.name, residents[DigitsValue(f.name)], md5(WalkBytes(f.walk)))
  }

  /** The manifest, in listing order. */
  function Manifest(folders: seq<EmbedFolder>, residents: map<int, string>, md5: seq<byte> -> string)
    : seq<ManifestEntry>
    decreases |folders|
  {
    if folders == [] then []
    else
      var f := folders[|folders| - 1];
      Manifest(folders[..|folders| - 1], residents, md5) + (if InManifest(f, residents) then [EntryFor(f, residents, md5)] else [])
  }

  /** An entry is in the manifest exactly when a qualifying folder gave it:
      the folder's own name, the resident's name, and the digest of its
      bytes. */
  lemma {:induction false} ManifestMembership(folders: seq<EmbedFolder>, residents: map<int, string>,
                                              md5: seq<byte> -> string, m: ManifestEntry)
    ensures m in Manifest(folders, residents, md5) <==>
      exists i :: 0 <= i < |folders| && InManifest(folders[i], residents) && m == EntryFor(folders[i], residents, md5)
    decreases |folders|
  {
    if folders != [] {
      var prefix := folders[..|folders| - 1];
      assert forall i :: 0 <= i < |prefix| ==> prefix[i] == folders[i];
      ManifestMembership(prefix, residents, md5, m);
    }
  }

  /** The manifest keeps the listing's order: it distributes over
      concatenation of listings. */
  lemma {:induction false} ManifestAppend(a: seq<EmbedFolder>, b: seq<EmbedFolder>,
                                          residents: map<int, string>, md5: seq<byte> -> string)
    ensures Manifest(a + b, residents, md5) == Manifest(a, residents, md5) + Manifest(b, residents, md5)
    decreases |b|
  {
    if b == [] {
      assert a + b == a;
    } else {
      assert (a + b)[..|a + b| - 1] == a + b[..|b| - 1];
      ManifestAppend(a, b[..|b| - 1], residents, md5);
    }
  }

  /** The id is the folder's own spelling: "007" is listed as "007" under
      resident 7, and a folder named "7a" is left out. */
  lemma ManifestKeepsSpelling(residents: map<int, string>, md5: seq<byte> -> string)
    requires 7 in residents
    ensures Manifest([EmbedFolder("007", true, []), EmbedFolder("7a", true, [])], residents, md5)
      == [ManifestEntry("007", residents[7], md5([]))]
  {
    var fs := [EmbedFolder("007", true, []), EmbedFolder("7a", true, [])];
    assert IsDigits("007");
    assert DigitsValue("007") == 7 by {
      assert "007"[..2] == "00" && "00"[..1] == "0" && "0"[..0] == "";
    }
    assert !IsAsciiDigit("7a"[1]);
    assert WalkBytes([]) == [];
    assert fs[..1] == [fs[0]] && fs[..1][..0] == [];
  }

  /** The loop of get_sync_metadata. */
  method GetSyncMetadata(folders: seq<EmbedFolder>, residents: map<int, string>, md5: seq<byte> -> string)
    returns (result: seq<ManifestEntry>)
    ensures result == Manifest(folders, residents, md5)
  {
    result := [];
    for i := 0 to |folders|
      invariant result == Manifest(folders[..i], residents, md5)
    {
      assert folders[..i + 1][..i] == folders[..i];
      var folder := folders[i];
      if IsDigits(folder.name) {
        if folder.isDir {
          var id := DigitsValue(folder.name);
          if id in residents {
            var hash := CalcMd5(folder.walk, md5);
            result := result + [ManifestEntry(folder.name, residents[id], hash)];
          }
        }
      }
    }
    assert folders[..|folders|] == folders;
  }

  // ---------------------------------------------------------------------
  // GET /download-embeds/{id}

  datatype ZipEntry = ZipEntry(arcname: string, data: seq<byte>)

  /** The three error answers and the archive. A plain file where the folder
      should be makes copytree raise, which the framework turns into a 500. */
  datatype ExportReply = NotFound(detail: string) | ServerError | Archive(filename: string, entries: seq<ZipEntry>)

  /** `f"{id}_[{resident.name}]"`. */
  function FolderName(id: int, name: string): string {
    IntToString(id) + "_[" + name + "]"
  }

  /** `os.path.relpath` of a file below the copied folder. */
  function RelPath(rel: seq<string>, name: string): string {
    JoinAll("", rel + [name])
  }

  /** The entries of one directory of the copy. */
  function DirEntries(folderName: string, rel: seq<string>, files: seq<FileItem>): seq<ZipEntry> {
    seq(|files|, i requires 0 <= i < |files| => ZipEntry(Join(folderName, RelPath(rel, files[i].name)), files[i].data))
  }

  /** Every entry of the archive, in walk order. */
  function ArcEntries(folderName: string, walk: seq<WalkStep>): seq<ZipEntry>
    decreases |walk|
  {
    if walk == [] then []
    else
      var last := walk[|walk| - 1];
      ArcEntries(folderName, walk[..|walk| - 1]) + DirEntries(folderName, last.rel, last.files)
  }

  /** The number of files a walk lists. */
  function FileCount(walk: seq<WalkStep>): nat
    decreases |walk|
  {
    if walk == [] then 0 else FileCount(walk[..|walk| - 1]) + |walk[|walk| - 1].files|
  }

  /** The archive holds one entry per file of the copy, in walk order, each
      with that file's bytes. */
  lemma {:induction false} ArchiveHoldsEveryFile(folderName: string, walk: seq<WalkStep>)
    ensures |ArcEntries(folderName, walk)| == FileCount(walk)
    ensures forall s, i :: 0 <= s < |walk| && 0 <= i < |walk[s].files| ==>
      ZipEntry(Join(folderName, RelPath(walk[s].rel, walk[s].files[i].name)), walk[s].files[i].data)
        in ArcEntries(folderName, walk)
    decreases |walk|
  {
    if walk != [] {
      var prefix := walk[..|walk| - 1];
      ArchiveHoldsEveryFile(folderName, prefix);
      assert forall s :: 0 <= s < |prefix| ==> prefix[s] == walk[s];
      var last := walk[|walk| - 1];
      var ds := DirEntries(folderName, last.rel, last.files);
      var all := ArcEntries(folderName, walk);
      assert all == ArcEntries(folderName, prefix) + ds;
      forall s, i | 0 <= s < |walk| && 0 <= i < |walk[s].files|
        ensures ZipEntry(Join(folderName, RelPath(walk[s].rel, walk[s].files[i].name)), walk[s].files[i].data) in all
      {
        if s < |prefix| {
          assert prefix[s] == walk[s];
        } else {
          assert ds[i] in ds;
        }
      }
    }
  }

  /** download_single_embed(id) as a value; `baseExists` and `isDir` are the
      tests on data/embeds/<id>, `walk` is os.walk of its copy. */
  function ExportSpec(id: int, baseExists: bool, isDir: bool, residents: map<int, string>, walk: seq<WalkStep>)
    : (r: ExportReply)
    ensures !baseExists ==> r == NotFound("Embed folder not found")
    ensures baseExists && id !in residents ==> r == NotFound("Resident not found")
    ensures r.Archive? <==> baseExists && id in residents && isDir
    ensures r.Archive? ==> r.filename == FolderName(id, residents[id]) + ".zip"
  {
    if !baseExists then NotFound("Embed folder not found")
    else if id !in residents then NotFound("Resident not found")
    else if !isDir then ServerError
    else Archive(FolderName(id, residents[id]) + ".zip", ArcEntries(FolderName(id, residents[id]), walk))
  }

  /** The archive and its inner folder: id 7 of "An" gives "7_[An].zip". */
  lemma ExportNameExample()
    ensures FolderName(7, "An") + ".zip" == "7_[An].zip"
  {
    assert NatToString(7) == "7";
  }

  /** os.walk's names: no component or file name is empty or holds a separator. */
  predicate PlainWalk(walk: seq<WalkStep>) {
    forall s :: 0 <= s < |walk| ==>
      (forall c :: c in walk[s].rel ==> c != "" && '/' !in c)
      && forall i :: 0 <= i < |walk[s].files| ==> walk[s].files[i].name != "" && '/' !in walk[s].files[i].name
  }

  /** Joining plain components onto a base keeps the base as a prefix. */
  lemma {:induction false} JoinAllExtends(base: string, comps: seq<string>)
    requires forall c :: c in comps ==> c != "" && '/' !in c
    ensures StartsWith(JoinAll(base, comps), base)
    decreases |comps|
  {
    if comps != [] {
      var c := comps[0];
      assert c in comps;
      assert c[0] in c;
      assert !StartsWith(c, "/") by { assert c[..1][0] == c[0]; }
      var next := Join(base, c);
      assert StartsWith(next, base) by {
        if base == "" || EndsWith(base, "/") {
          assert next == base + c;
        } else {
          assert next == base + "/" + c;
        }
      }
      assert forall x :: x in comps[1..] ==> x in comps;
      JoinAllExtends(next, comps[1..]);
      assert JoinAll(base, comps) == JoinAll(next, comps[1..]);
    }
  }

  /** A relative path of plain names is not empty and does not start with
      a separator. */
  lemma RelPathPlain(rel: seq<string>, name: string)
    requires forall c :: c in rel ==> c != "" && '/' !in c
    requires name != "" && '/' !in name
    ensures RelPath(rel, name) != "" && RelPath(rel, name)[0] != '/'
  {
    var comps := rel + [name];
    var c := comps[0];
    assert c in comps;
    assert forall x :: x in comps ==> x != "" && '/' !in x;
    assert JoinAll("", comps) == JoinAll(Join("", c), comps[1..]);
    assert Join("", c) == c by { assert !StartsWith(c, "/") by { assert c[..1][0] == c[0]; assert c[0] in c; } }
    assert forall x :: x in comps[1..] ==> x in comps;
    JoinAllExtends(c, comps[1..]);
    assert c[0] in c;
  }

  /** Every entry of the archive lies under "<id>_[<name>]/". */
  lemma {:induction false} EntriesUnderFolder(id: int, name: string, walk: seq<WalkStep>)
    requires PlainWalk(walk)
    ensures forall e :: e in ArcEntries(FolderName(id, name), walk) ==> StartsWith(e.arcname, FolderName(id, name) + "/")
    decreases |walk|
  {
    var folderName := FolderName(id, name);
    if walk != [] {
      var prefix := walk[..|walk| - 1];
      var last := walk[|walk| - 1];
      assert forall s :: 0 <= s < |prefix| ==> prefix[s] == walk[s];
      EntriesUnderFolder(id, name, prefix);
      var ds := DirEntries(folderName, last.rel, last.files);
      forall e | e in ds
        ensures StartsWith(e.arcname, folderName + "/")
      {
        var i :| 0 <= i < |ds| && ds[i] == e;
        RelPathPlain(last.rel, last.files[i].name);
        var rp := RelPath(last.rel, last.files[i].name);
        assert folderName[|folderName| - 1] == ']';
        JoinPlain(folderName, rp);
        assert e.arcname == folderName + "/" + rp;
        assert (folderName + "/" + rp)[..|folderName + "/"|] == folderName + "/";
      }
    }
  }

  /** The inner loop over one directory of the copy. */
  method ArchiveDirectory(folderName: string, rel: seq<string>, files: seq<FileItem>) returns (entries: seq<ZipEntry>)
    ensures entries == DirEntries(folderName, rel, files)
  {
    entries := [];
    for j := 0 to |files|
      invariant entries == DirEntries(folderName, rel, files[..j])
    {
      var relPath := RelPath(rel, files[j].name);
      entries := entries + [ZipEntry(Join(folderName, relPath), files[j].data)];
    }
    assert files[..|files|] == files;
  }

  /** download_single_embed: the checks in order, then the zip loop. */
  method DownloadSingleEmbed(id: int, baseExists: bool, isDir: bool, residents: map<int, string>, walk: seq<WalkStep>)
    returns (reply: ExportReply)
    ensures reply == ExportSpec(id, baseExists, isDir, residents, walk)
  {
    if !baseExists {
      return NotFound("Embed folder not found");
    }
    if id !in residents {
      return NotFound("Resident not found");
    }
    var folderName := FolderName(id, residents[id]);
    if !isDir {
      return ServerError;
    }
    var entries: seq<ZipEntry> := [];
    for s := 0 to |walk|
      invariant entries == ArcEntries(folderName, walk[..s])
    {
      assert walk[..s + 1][..s] == walk[..s];
      var dirEntries := ArchiveDirectory(folderName, walk[s].rel, walk[s].files);
      entries := entries + dirEntries;
    }
    assert walk[..|walk|] == walk;
    reply := Archive(folderName + ".zip", entries);
  }
}
