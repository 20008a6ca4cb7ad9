/** routes/collectdata.py: batch ingestion. process_zip extracts every
    archive of the zip folder, process_embedding embeds every new folder of
    the picture folder, and the /embed route chains the two. Directory
    listings are inputs, in listing order; whether zipfile can open an
    archive is a flag on the entry. */
module CollectData {
  import opened Basics
  import opened ExtractEmbedding
  import opened ServiceSteps

  // ---------------------------------------------------------------------
  // process_zip(zip_folder, pic_folder)

  /** An entry of `os.listdir(zip_folder)`; `opens` says whether zipfile
      can open and extract it. */
  datatype Archive = Archive(name: string, opens: bool)

  /** The returned dictionary: the extracted names, the names that raised
      (their messages are not modelled), and where each extracted archive
      went. */
  datatype ZipReport = ZipReport(processedFiles: seq<string>, errors: seq<string>, extractedTo: seq<string>)

  predicate IsZipName(name: string) { EndsWith(name, ".zip") }

  /** The names of the ".zip" entries whose extraction succeeds (`opens`
      true) or raises (`opens` false), in listing order. */
  function ZipNames(listing: seq<Archive>, opens: bool): seq<string>
    decreases |listing|
  {
    if listing == [] then []
    else
      var last := listing[|listing| - 1];
      ZipNames(listing[..|listing| - 1], opens) + (if IsZipName(last.name) && last.opens == opens then [last.name] else [])
  }

  /** A name is reported exactly when a ".zip" entry of that name had that
      outcome. */
  lemma {:induction false} ZipNamesMembership(listing: seq<Archive>, opens: bool, name: string)
    ensures name in ZipNames(listing, opens) <==>
      exists i :: 0 <= i < |listing| && listing[i].name == name && IsZipName(name) && listing[i].opens == opens
    decreases |listing|
  {
    if listing != [] {
      var prefix := listing[..|listing| - 1];
      assert forall i :: 0 <= i < |prefix| ==> prefix[i] == listing[i];
      ZipNamesMembership(prefix, opens, name);
    }
  }

  /** The number of ".zip" entries of a listing. */
  function ZipCount(listing: seq<Archive>): nat
    decreases |listing|
  {
    if listing == [] then 0
    else ZipCount(listing[..|listing| - 1]) + (if IsZipName(listing[|listing| - 1].name) then 1 else 0)
  }

  /** Every ".zip" entry is counted once, as extracted or as an error. */
  lemma {:induction false} ZipCountsAddUp(listing: seq<Archive>)
    ensures |ZipNames(listing, true)| + |ZipNames(listing, false)| == ZipCount(listing)
    decreases |listing|
  {
    if listing != [] {
      ZipCountsAddUp(listing[..|listing| - 1]);
    }
  }

  /** With distinct names (as a directory listing has), a ".zip" entry is
      in exactly one of the two lists, and any other entry in neither. */
  lemma EachArchiveOnce(listing: seq<Archive>, i: int)
    requires 0 <= i < |listing|
    requires forall j, k :: 0 <= j < k < |listing| ==> listing[j].name != listing[k].name
    ensures var name := listing[i].name;
      if IsZipName(name) then
        (name in ZipNames(listing, true) <==> listing[i].opens)
        && (name in ZipNames(listing, false) <==> !listing[i].opens)
      else name !in ZipNames(listing, true) && name !in ZipNames(listing, false)
  {
    var name := listing[i].name;
    ZipNamesMembership(listing, true, name);
    ZipNamesMembership(listing, false, name);
    assert forall j :: 0 <= j < |listing| && listing[j].name == name ==> j == i;
  }

  /** `os.path.join(pic_folder, os.path.splitext(zip_file)[0])` for each
      extracted name. */
  function ExtractPaths(picFolder: string, names: seq<string>): (r: seq<string>)
    ensures |r| == |names|
    ensures forall i :: 0 <= i < |names| ==> r[i] == Join(picFolder, SplitExt(names[i]).0)
  {
    seq(|names|, i requires 0 <= i < |names| => Join(picFolder, SplitExt(names[i]).0))
  }

  /** "<stem>.zip" is extracted into pic_folder/<stem> when the stem holds a
      character other than a dot; ".zip" itself has no extension and is
      extracted into pic_folder/.zip. */
  lemma {:induction false} ZipStem(name: string)
    requires IsZipName(name) && '/' !in name
    requires exists k :: 0 <= k < |name| - 4 && name[k] != '.'
    ensures SplitExt(name) == (name[..|name| - 4], ".zip")
  {
    var n := |name|;
    assert name[n - 4..] == ".zip";
    assert name[n - 4] == '.';
    assert forall j :: n - 4 < j < n ==> name[j] != '.' by {
      assert forall j :: n - 4 < j < n ==> name[j] == ".zip"[j - (n - 4)];
    }
    assert RFind(name, '.') == n - 4 by {
      var d := RFind(name, '.');
      assert d >= n - 4;
    }
    assert RFind(name, '/') == -1;
  }

  lemma DotZipHasNoStem()
    ensures SplitExt(".zip") == (".zip", "")
  {
    assert RFind(".zip", '/') == -1;
    assert RFind(".zip", '.') == 0;
  }

  /** The loop of process_zip. */
  method ProcessZips(zipFolder: string, picFolder: string, zipFolderExists: bool, listing: seq<Archive>)
    returns (r: Option<ZipReport>)
    ensures !zipFolderExists ==> r.None?
    ensures zipFolderExists ==>
      r == Some(ZipReport(ZipNames(listing, true), ZipNames(listing, false),
                          ExtractPaths(picFolder, ZipNames(listing, true))))
  {
    if !zipFolderExists {
      return None;
    }
    var processed: seq<string> := [];
    var errors: seq<string> := [];
    var extracted: seq<string> := [];
    for i := 0 to |listing|
      invariant processed == ZipNames(listing[..i], true)
      invariant errors == ZipNames(listing[..i], false)
      invariant extracted == ExtractPaths(picFolder, processed)
    {
      assert listing[..i + 1][..i] == listing[..i];
      var zipFile := listing[i].name;
      if EndsWith(zipFile, ".zip") {
        if listing[i].opens {
          var subfolder := SplitExt(zipFile).0;
          extracted := extracted + [Join(picFolder, subfolder)];
          processed := processed + [zipFile];
        } else {
          errors := errors + [zipFile];
        }
      }
    }
    assert listing[..|listing|] == listing;
    r := Some(ZipReport(processed, errors, extracted));
  }

  // ---------------------------------------------------------------------
  // process_embedding(base_folder, embed_folder)

  /** An entry of `os.listdir(base_folder)`: whether it is a directory, and
      what os.walk yields below it. */
  datatype BaseEntry = BaseEntry(name: string, isDir: bool, walk: seq<WalkStep>)

  /** Where one entry lands. */
  datatype Fate = Processed(writes: seq<JsonWrite>) | Skipped | Failed

  /** One iteration: a directory not in the snapshot of the embed folder is
      embedded (its names and embeddings dumped under embed_folder/<name>);
      one whose embedding raises is an error; anything else is skipped. */
  function FateOf(baseFolder: string, embedFolder: string, existing: set<string>,
                  e: BaseEntry, model: Model): (f: Fate)
    ensures f.Skipped? <==> !e.isDir || e.name in existing
    ensures f.Failed? <==> e.isDir && e.name !in existing && EmbedSpec(Join(baseFolder, e.name), e.walk, model).Raised?
  {
    if e.isDir && e.name !in existing then
      match EmbedSpec(Join(baseFolder, e.name), e.walk, model)
      case Raised(_) => Failed
      case Done(x) => Processed(JsonWrites(Join(embedFolder, e.name), x.results, x.files))
    else Skipped
  }

  /** The three lists the printed report holds, and every JSON file written. */
  datatype FolderRun = FolderRun(processed: seq<string>, skipped: seq<string>, errors: seq<string>,
                                 writes: seq<JsonWrite>)

  function EmbedRun(baseFolder: string, embedFolder: string, existing: set<string>,
                    entries: seq<BaseEntry>, model: Model): (r: FolderRun)
    ensures |r.processed| + |r.skipped| + |r.errors| == |entries|
    decreases |entries|
  {
    if entries == [] then FolderRun([], [], [], [])
    else
      var e := entries[|entries| - 1];
      Record(EmbedRun(baseFolder, embedFolder, existing, entries[..|entries| - 1], model), e.name,
             FateOf(baseFolder, embedFolder, existing, e, model))
  }

  /** The run so far with one more entry's fate recorded. */
  function Record(r: FolderRun, name: string, fate: Fate): FolderRun {
    match fate
    case Processed(ws) => FolderRun(r.processed + [name], r.skipped, r.errors, r.writes + ws)
    case Skipped => FolderRun(r.processed, r.skipped + [name], r.errors, r.writes)
    case Failed => FolderRun(r.processed, r.skipped, r.errors + [name], r.writes)
  }

  lemma EmbedRunPrefix(baseFolder: string, embedFolder: string, existing: set<string>,
                       entries: seq<BaseEntry>, model: Model, i: int)
    requires 0 <= i < |entries|
    ensures EmbedRun(baseFolder, embedFolder, existing, entries[..i + 1], model)
      == Record(EmbedRun(baseFolder, embedFolder, existing, entries[..i], model), entries[i].name,
                FateOf(baseFolder, embedFolder, existing, entries[i], model))
  {
    assert entries[..i + 1][..i] == entries[..i];
  }

  /** The report's list of processed (0), skipped (1) or failed (2) names. */
  function Listed(r: FolderRun, kind: int): seq<string> {
    if kind == 0 then r.processed else if kind == 1 then r.skipped else r.errors
  }

  /** Whether a fate belongs in list `kind`. */
  predicate FateIs(f: Fate, kind: int) {
    if kind == 0 then f.Processed? else if kind == 1 then f.Skipped? else f.Failed?
  }

  /** A name is in a list exactly when an entry of that name had that fate. */
  lemma {:induction false} EmbedRunMembership(baseFolder: string, embedFolder: string, existing: set<string>,
                                              entries: seq<BaseEntry>, model: Model, name: string, kind: int)
    ensures name in Listed(EmbedRun(baseFolder, embedFolder, existing, entries, model), kind) <==>
      (exists i :: 0 <= i < |entries| && entries[i].name == name
        && FateIs(FateOf(baseFolder, embedFolder, existing, entries[i], model), kind))
    decreases |entries|
  {
    if entries != [] {
      var prefix := entries[..|entries| - 1];
      var last := entries[|entries| - 1];
      EmbedRunMembership(baseFolder, embedFolder, existing, prefix, model, name, kind);
      EmbedRunStep(baseFolder, embedFolder, existing, entries, model, kind);
      var f := FateOf(baseFolder, embedFolder, existing, last, model);
      var before := Listed(EmbedRun(baseFolder, embedFolder, existing, prefix, model), kind);
      if name in before {
        var i :| 0 <= i < |prefix| && prefix[i].name == name
          && FateIs(FateOf(baseFolder, embedFolder, existing, prefix[i], model), kind);
        assert entries[i] == prefix[i];
      } else if FateIs(f, kind) && name == last.name {
        assert entries[|entries| - 1] == last;
      } else {
        forall i | 0 <= i < |entries| && entries[i].name == name
          ensures !FateIs(FateOf(baseFolder, embedFolder, existing, entries[i], model), kind)
        {
          if i < |prefix| {
            assert entries[i] == prefix[i];
          }
        }
      }
    }
  }

  /** The last entry adds its name to the list of its fate, and to no other. */
  lemma EmbedRunStep(baseFolder: string, embedFolder: string, existing: set<string>,
                     entries: seq<BaseEntry>, model: Model, kind: int)
    requires entries != []
    ensures var last := entries[|entries| - 1];
      Listed(EmbedRun(baseFolder, embedFolder, existing, entries, model), kind)
      == Listed(EmbedRun(baseFolder, embedFolder, existing, entries[..|entries| - 1], model), kind)
        + (if FateIs(FateOf(baseFolder, embedFolder, existing, last, model), kind) then [last.name] else [])
  {
  }

  /** With distinct names, every entry of the base folder is in exactly one
      of processed, skipped and errors; a folder already in the embed folder
      and a plain file are skipped, never embedded. */
  lemma EachFolderOnce(baseFolder: string, embedFolder: string, existing: set<string>,
                       entries: seq<BaseEntry>, model: Model, i: int)
    requires 0 <= i < |entries|
    requires forall j, k :: 0 <= j < k < |entries| ==> entries[j].name != entries[k].name
    ensures var r := EmbedRun(baseFolder, embedFolder, existing, entries, model);
      var name := entries[i].name;
      && ((name in r.processed) || (name in r.skipped) || (name in r.errors))
      && !(name in r.processed && name in r.skipped)
      && !(name in r.processed && name in r.errors)
      && !(name in r.skipped && name in r.errors)
      && (name in existing || !entries[i].isDir ==> name in r.skipped)
  {
    var name := entries[i].name;
    EmbedRunMembership(baseFolder, embedFolder, existing, entries, model, name, 0);
    EmbedRunMembership(baseFolder, embedFolder, existing, entries, model, name, 1);
    EmbedRunMembership(baseFolder, embedFolder, existing, entries, model, name, 2);
    assert forall j :: 0 <= j < |entries| && entries[j].name == name ==> j == i;
  }

  /** The report process_embedding prints (it returns None). */
  datatype FolderReport = FolderReport(info: string, processed: seq<string>, skipped: seq<string>,
                                       errors: seq<string>, savedTo: string, timestamp: string)

  /** The loop of process_embedding. `existing` is the set of names in the
      embed folder taken before the loop; `timestamp` is the formatted clock. */
  method ProcessEmbeddings(baseFolder: string, embedFolder: string, baseExists: bool, existing: set<string>,
                           entries: seq<BaseEntry>, model: Model, timestamp: string)
    returns (printed: Option<FolderReport>, writes: seq<JsonWrite>)
    ensures !baseExists ==> printed.None? && writes == []
    ensures baseExists ==>
      var run := EmbedRun(baseFolder, embedFolder, existing, entries, model);
      && writes == run.writes
      && printed == Some(FolderReport("Processed new subfolders in '" + baseFolder + "'.",
                                      run.processed, run.skipped, run.errors, embedFolder, timestamp))
  {
    writes := [];
    if !baseExists {
      return None, writes;
    }
    var processed: seq<string> := [];
    var skipped: seq<string> := [];
    var errors: seq<string> := [];
    for i := 0 to |entries|
      invariant EmbedRun(baseFolder, embedFolder, existing, entries[..i], model)
        == FolderRun(processed, skipped, errors, writes)
    {
      EmbedRunPrefix(baseFolder, embedFolder, existing, entries, model, i);
      var subfolder := entries[i].name;
      if entries[i].isDir && subfolder !in existing {
        var out := EmbedImages(Join(baseFolder, subfolder), entries[i].walk, model);
        assert out.Raised? <==> FateOf(baseFolder, embedFolder, existing, entries[i], model).Failed?;
        if out.Raised? {
          errors := errors + [subfolder];
        } else {
          var ws := WriteJsonFiles(Join(embedFolder, subfolder), out.value.results, out.value.files);
          writes := writes + ws;
          processed := processed + [subfolder];
        }
      } else {
        skipped := skipped + [subfolder];
      }
    }
    assert entries[..|entries|] == entries;
    printed := Some(FolderReport("Processed new subfolders in '" + baseFolder + "'.",
                                 processed, skipped, errors, embedFolder, timestamp));
  }

  // ---------------------------------------------------------------------
  // POST /embed

  datatype Reply = Reply(ok: bool, message: string)

  /** The /embed route. `saveOk` says whether writing the upload succeeded;
      `zipListing` is the zip folder after the save (the route creates the
      folder, so it exists); `embedStepRaises` says whether process_embedding
      raised outside its own per-folder handler. */
  method EmbedRoute(saveOk: bool, zipListing: seq<Archive>, embedStepRaises: bool,
                    picExists: bool, existing: set<string>, picEntries: seq<BaseEntry>,
                    model: Model, timestamp: string)
    returns (reply: Reply)
    ensures !saveOk ==> reply == Reply(false, "error save zip")
    ensures saveOk && ZipNames(zipListing, false) != [] ==> reply == Reply(false, "error process_zip")
    ensures saveOk && ZipNames(zipListing, false) == [] && embedStepRaises ==>
      reply == Reply(false, "error process_embedding")
    ensures reply.ok <==> saveOk && ZipNames(zipListing, false) == [] && !embedStepRaises
    ensures reply.ok ==> reply.message == "done"
  {
    var zipFolder := Join("data", "zips");
    var picFolder := Join("data", "pics");
    var embedFolder := Join("data", "embeds");
    if !saveOk {
      return Reply(false, "error save zip");
    }
    var zipResult := ProcessZips(zipFolder, picFolder, true, zipListing);
    if zipResult.None? || zipResult.value.errors != [] {
      return Reply(false, "error process_zip");
    }
    if embedStepRaises {
      return Reply(false, "error process_embedding");
    }
    var _, _ := ProcessEmbeddings(picFolder, embedFolder, picExists, existing, picEntries, model, timestamp);
    reply := Reply(true, "done");
  }

  /** A broken archive left in the zip folder by an earlier upload fails
      every later upload with "error process_zip", however sound the new
      archive is. */
  lemma StaleArchiveFailsUpload(upload: string, stale: string)
    requires IsZipName(upload) && IsZipName(stale)
    ensures ZipNames([Archive(stale, false), Archive(upload, true)], false) == [stale]
  {
    var l := [Archive(stale, false), Archive(upload, true)];
    assert l[..1] == [Archive(stale, false)];
    assert l[..1][..0] == [];
    assert ZipNames(l[..1], false) == [stale];
  }

  /** An upload whose name does not end in ".zip" is never extracted, yet
      nothing fails: the route answers "done" when the folder holds no other
      broken archive. */
  lemma NonZipUploadIsIgnored(upload: string)
    requires !IsZipName(upload)
    ensures ZipNames([Archive(upload, true)], true) == [] && ZipNames([Archive(upload, true)], false) == []
  {
    assert [Archive(upload, true)][..0] == [];
  }
}
