/** services/service.py, process_zip and process_embedding: the two
    single-folder pipeline steps built on extract_zip and embed_images. */
module ServiceSteps {
  import opened Basics
  import opened ExtractEmbedding

  /** process_zip(zip_folder, pic_folder, zip_filename): None when the zip
      folder is missing or the extraction raises, otherwise the name of the
      folder the archive was extracted into. */
  function ProcessZip(zipFolder: string, picFolder: string, zipFilename: string,
                      zipFolderExists: bool, opens: bool): (r: Option<string>)
    ensures r.None? <==> !zipFolderExists || !opens
    ensures r.Some? ==> r.value + SplitExt(zipFilename).1 == zipFilename
    ensures r.Some? ==> (ExtractZip(Join(zipFolder, zipFilename), zipFilename, picFolder, opens)
      == Done(Extraction(r.value, Join(picFolder, r.value))))
  {
    if !zipFolderExists then None
    else
      match ExtractZip(Join(zipFolder, zipFilename), zipFilename, picFolder, opens)
      case Raised(_) => None
      case Done(x) => Some(x.subfolder)
  }

  /** An uploaded "<id>.zip" comes back as the folder name "<id>". */
  lemma ProcessZipOfId(zipFolder: string, picFolder: string, id: int)
    ensures ProcessZip(zipFolder, picFolder, IntToString(id) + ".zip", true, true) == Some(IntToString(id))
  {
    ExtractZipOfId(Join(zipFolder, IntToString(id) + ".zip"), picFolder, id);
  }

  /** One json.dump of an embedding into the file at `path`. */
  datatype JsonWrite = JsonWrite(path: string, embedding: Embedding)

  /** The report process_embedding returns; the timestamp is the caller's
      clock reading, already formatted. */
  datatype EmbedReport = EmbedReport(info: string, processedFolder: string,
                                     embeddingsSavedTo: string, timestamp: string)

  /** The files written by `for embedding, file in zip(embeddings, files)`:
      one "<file>.json" per pair, as many as the shorter list. */
  function JsonWrites(dir: string, es: seq<Embedding>, names: seq<string>): (ws: seq<JsonWrite>)
    ensures |ws| == Min(|es|, |names|)
    ensures forall i :: 0 <= i < |ws| ==> ws[i] == JsonWrite(Join(dir, names[i] + ".json"), es[i])
    decreases Min(|es|, |names|)
  {
    var n := Min(|es|, |names|);
    if n == 0 then []
    else JsonWrites(dir, es[..n - 1], names[..n - 1]) + [JsonWrite(Join(dir, names[n - 1] + ".json"), es[n - 1])]
  }

  /** The files written for the first `i` pairs extend to those for `i + 1`. */
  lemma JsonWritesStep(dir: string, es: seq<Embedding>, names: seq<string>, i: int)
    requires 0 <= i < Min(|es|, |names|)
    ensures JsonWrites(dir, es[..i + 1], names[..i + 1])
      == JsonWrites(dir, es[..i], names[..i]) + [JsonWrite(Join(dir, names[i] + ".json"), es[i])]
  {
    assert es[..i + 1][..i] == es[..i];
    assert names[..i + 1][..i] == names[..i];
  }

  /** The loop `for embedding, file in zip(embeddings, files)` that dumps
      each embedding into "<file>.json" under `dir`. */
  method WriteJsonFiles(dir: string, es: seq<Embedding>, names: seq<string>) returns (writes: seq<JsonWrite>)
    ensures writes == JsonWrites(dir, es, names)
  {
    writes := [];
    for i := 0 to Min(|es|, |names|)
      invariant writes == JsonWrites(dir, es[..i], names[..i])
    {
      JsonWritesStep(dir, es, names, i);
      writes := writes + [JsonWrite(Join(dir, names[i] + ".json"), es[i])];
    }
    WritesOfPrefix(dir, es, names);
  }

  /** process_embedding(base_folder, embed_folder, specific_folder). The
      existence tests of the two folders are the flags; `walk` is what
      os.walk yields for base_folder/specific_folder. */
  method ProcessEmbedding(baseFolder: string, embedFolder: string, specific: string,
                          baseExists: bool, isDir: bool, walk: seq<WalkStep>, model: Model,
                          timestamp: string)
    returns (report: Option<EmbedReport>, writes: seq<JsonWrite>)
    ensures !baseExists || !isDir ==> report.None? && writes == []
    ensures baseExists && isDir ==>
      match EmbedSpec(Join(baseFolder, specific), walk, model)
      case Raised(_) => report.None? && writes == []
      case Done(e) =>
        writes == JsonWrites(Join(embedFolder, specific), e.results, e.files)
        && report == Some(EmbedReport("Processed folder '" + specific + "'.", specific, embedFolder, timestamp))
  {
    writes := [];
    if !baseExists {
      return None, writes;
    }
    if !isDir {
      return None, writes;
    }
    var out := EmbedImages(Join(baseFolder, specific), walk, model);
    if out.Raised? {
      return None, writes;
    }
    writes := WriteJsonFiles(Join(embedFolder, specific), out.value.results, out.value.files);
    report := Some(EmbedReport("Processed folder '" + specific + "'.", specific, embedFolder, timestamp));
  }

  /** Cutting both lists to the shorter length writes the same files. */
  lemma WritesOfPrefix(dir: string, es: seq<Embedding>, names: seq<string>)
    ensures var n := Min(|es|, |names|);
      JsonWrites(dir, es[..n], names[..n]) == JsonWrites(dir, es, names)
  {
  }

  /** No more JSON files are written than images were embedded. */
  lemma WritesBoundedByImages(baseFolder: string, embedFolder: string, specific: string,
                                   walk: seq<WalkStep>, model: Model, e: Embedded)
    requires EmbedSpec(Join(baseFolder, specific), walk, model) == Done(e)
    ensures |JsonWrites(Join(embedFolder, specific), e.results, e.files)| <= |AcceptedImages(Join(baseFolder, specific), walk)|
  {
  }

  /** Because the names paired with the embeddings are those of the last
      directory, unfiltered, the embedding of "a.jpg" lands in
      "main.jpg.json" when the folder lists "main.jpg" first. */
  lemma EmbeddingWrittenUnderSkippedName(model: Model, e: Embedding)
    requires model("top/a.jpg") == Some(e)
    ensures var walk := [WalkStep([], [FileItem("main.jpg", []), FileItem("a.jpg", [])])];
      var out := EmbedSpec("top", walk, model);
      out.Done? && JsonWrites("embeds/top", out.value.results, out.value.files)
        == [JsonWrite("embeds/top/main.jpg.json", e)]
  {
    ReturnedNamesAreNotTheEmbeddedOnes(model, e);
    WriteUnderMainName(e);
  }

  /** One embedding paired with the names "main.jpg", "a.jpg" is written to
      "main.jpg.json". */
  lemma WriteUnderMainName(e: Embedding)
    ensures JsonWrites("embeds/top", [e], ["main.jpg", "a.jpg"]) == [JsonWrite("embeds/top/main.jpg.json", e)]
  {
    var names := ["main.jpg", "a.jpg"];
    var ws := JsonWrites("embeds/top", [e], names);
    assert |ws| == 1;
    assert ws[0] == JsonWrite(Join("embeds/top", names[0] + ".json"), e);
    MainJsonPath();
    assert ws == [ws[0]];
  }

  /** Where "main.jpg"'s JSON file goes under "embeds/top". */
  lemma MainJsonPath()
    ensures Join("embeds/top", "main.jpg" + ".json") == "embeds/top/main.jpg.json"
  {
    assert "main.jpg" + ".json" == "main.jpg.json";
    JoinPlain("embeds/top", "main.jpg.json");
    assert "embeds/top" + "/" + "main.jpg.json" == "embeds/top/main.jpg.json";
  }
}
