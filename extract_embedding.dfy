/** services/extract_embedding.py: where an archive is extracted, and which
    images of a folder are handed to the embedding model. The model is the
    parameter `model` (None: the call raised); zipfile's success is a flag. */
module ExtractEmbedding {
  import opened Basics

  /** The folder an archive was extracted into. */
  datatype Extraction = Extraction(subfolder: string, path: string)

  /** extract_zip(zip_path, zip_filename, pic_folder): the archive name loses
      its last extension and names the folder under pic_folder; `opens` says
      whether zipfile can open and extract the archive at zip_path. */
  function ExtractZip(zipPath: string, zipFilename: string, picFolder: string, opens: bool)
    : (r: Outcome<Extraction>)
    ensures r.Done? <==> opens
    ensures r.Done? ==> r.value.subfolder + SplitExt(zipFilename).1 == zipFilename
    ensures r.Done? ==> r.value.path == Join(picFolder, r.value.subfolder)
    ensures r.Raised? ==> r.fault == ArchiveUnreadable(zipPath)
  {
    var subfolder := SplitExt(zipFilename).0;
    if opens then Done(Extraction(subfolder, Join(picFolder, subfolder)))
    else Raised(ArchiveUnreadable(zipPath))
  }

  /** "<id>.zip" is extracted into a folder named "<id>"; "42.zip" into "42". */
  lemma ExtractZipOfId(zipPath: string, picFolder: string, id: int)
    ensures ExtractZip(zipPath, IntToString(id) + ".zip", picFolder, true)
      == Done(Extraction(IntToString(id), Join(picFolder, IntToString(id))))
  {
    IntToStringPlain(id);
    SplitExtOfZip(IntToString(id));
  }

  // ---------------------------------------------------------------------
  // embed_images

  /** An embedding vector; its numbers are opaque to the model. */
  type Embedding = seq<real>

  /** EmbeddingModel().embed(image_path); None when the call raises. */
  type Model = string -> Option<Embedding>

  /** The file filter: a case-sensitive image suffix, and not "main.*". */
  predicate Embeddable(name: string) {
    (EndsWith(name, ".png") || EndsWith(name, ".jpg") || EndsWith(name, ".jpeg"))
    && !StartsWith(name, "main.")
  }

  /** The paths of the accepted images among one directory's files. */
  function ImagePaths(dir: string, files: seq<FileItem>): seq<string>
    decreases |files|
  {
    if files == [] then []
    else
      var last := files[|files| - 1];
      ImagePaths(dir, files[..|files| - 1]) + (if Embeddable(last.name) then [Join(dir, last.name)] else [])
  }

  /** The accepted image paths of a whole walk, in walk order. */
  function AcceptedImages(top: string, walk: seq<WalkStep>): seq<string>
    decreases |walk|
  {
    if walk == [] then []
    else
      var last := walk[|walk| - 1];
      AcceptedImages(top, walk[..|walk| - 1]) + ImagePaths(JoinAll(top, last.rel), last.files)
  }

  lemma {:induction false} ImagePathsAppend(dir: string, a: seq<FileItem>, b: seq<FileItem>)
    ensures ImagePaths(dir, a + b) == ImagePaths(dir, a) + ImagePaths(dir, b)
    decreases |b|
  {
    if b == [] {
      assert a + b == a;
    } else {
      var init := b[..|b| - 1];
      var last := b[|b| - 1];
      var own := if Embeddable(last.name) then [Join(dir, last.name)] else [];
      assert (a + b)[..|a + b| - 1] == a + init;
      assert (a + b)[|a + b| - 1] == last;
      assert ImagePaths(dir, a + b) == ImagePaths(dir, a + init) + own;
      ImagePathsAppend(dir, a, init);
      assert ImagePaths(dir, a) + (ImagePaths(dir, init) + own) == (ImagePaths(dir, a) + ImagePaths(dir, init)) + own;
    }
  }

  lemma {:induction false} AcceptedImagesAppend(top: string, a: seq<WalkStep>, b: seq<WalkStep>)
    ensures AcceptedImages(top, a + b) == AcceptedImages(top, a) + AcceptedImages(top, b)
    decreases |b|
  {
    if b == [] {
      assert a + b == a;
    } else {
      var init := b[..|b| - 1];
      var last := b[|b| - 1];
      var own := ImagePaths(JoinAll(top, last.rel), last.files);
      assert (a + b)[..|a + b| - 1] == a + init;
      assert (a + b)[|a + b| - 1] == last;
      assert AcceptedImages(top, a + b) == AcceptedImages(top, a + init) + own;
      assert AcceptedImages(top, b) == AcceptedImages(top, init) + own;
      AcceptedImagesAppend(top, a, init);
      assert AcceptedImages(top, a) + (AcceptedImages(top, init) + own) == (AcceptedImages(top, a) + AcceptedImages(top, init)) + own;
    }
  }

  /** The model raises on `paths[k]` and on no path before it. */
  predicate FirstFailure(paths: seq<string>, model: Model, k: int) {
    0 <= k < |paths| && model(paths[k]).None? && forall j :: 0 <= j < k ==> model(paths[j]).Some?
  }

  /** The model applied to every path in order; the first call that raises
      ends the run with that fault. */
  function EmbedAll(paths: seq<string>, model: Model): (r: Outcome<seq<Embedding>>)
    ensures r.Done? <==> forall i :: 0 <= i < |paths| ==> model(paths[i]).Some?
    ensures r.Done? ==> (|r.value| == |paths|
      && forall i :: 0 <= i < |paths| ==> model(paths[i]) == Some(r.value[i]))
    ensures r.Raised? ==> exists k :: FirstFailure(paths, model, k) && r.fault == ModelFailed(paths[k])
    decreases |paths|
  {
    if paths == [] then Done([])
    else
      var prefix := paths[..|paths| - 1];
      var last := paths[|paths| - 1];
      assert forall i :: 0 <= i < |prefix| ==> prefix[i] == paths[i];
      match EmbedAll(prefix, model)
      case Raised(f) =>
        assert exists k :: FirstFailure(prefix, model, k) && f == ModelFailed(prefix[k]);
        var k :| FirstFailure(prefix, model, k) && f == ModelFailed(prefix[k]);
        assert FirstFailure(paths, model, k);
        Raised(f)
      case Done(es) =>
        match model(last)
        case None =>
          assert FirstFailure(paths, model, |paths| - 1);
          Raised(ModelFailed(last))
        case Some(e) =>
          assert forall i :: 0 <= i < |prefix| ==> (es + [e])[i] == es[i];
          Done(es + [e])
  }

  /** Once a run has raised, more paths do not change its outcome. */
  lemma {:induction false} EmbedAllRaisedStays(ps: seq<string>, qs: seq<string>, model: Model)
    requires EmbedAll(ps, model).Raised?
    ensures EmbedAll(ps + qs, model) == EmbedAll(ps, model)
    decreases |qs|
  {
    if qs == [] {
      assert ps + qs == ps;
    } else {
      assert (ps + qs)[..|ps + qs| - 1] == ps + qs[..|qs| - 1];
      EmbedAllRaisedStays(ps, qs[..|qs| - 1], model);
    }
  }

  /** What embed_images returns: `results`, and `files`, the file names of
      the last directory the walk visited, unfiltered. */
  datatype Embedded = Embedded(results: seq<Embedding>, files: seq<string>)

  /** embed_images(extracted_dir) as a value: the model is called once per
      accepted image in walk order; a walk that yields nothing leaves `files`
      unbound and the return raises. */
  function EmbedSpec(top: string, walk: seq<WalkStep>, model: Model): (r: Outcome<Embedded>)
    ensures r.Done? ==> walk != []
    ensures r.Done? ==> (|r.value.results| == |AcceptedImages(top, walk)|
      && forall i :: 0 <= i < |r.value.results| ==>
        model(AcceptedImages(top, walk)[i]) == Some(r.value.results[i]))
    ensures r.Done? ==> r.value.files == Names(walk[|walk| - 1].files)
    ensures r.Raised? <==> (walk == [] ||
      exists i :: 0 <= i < |AcceptedImages(top, walk)| && model(AcceptedImages(top, walk)[i]).None?)
  {
    match EmbedAll(AcceptedImages(top, walk), model)
    case Raised(f) => Raised(f)
    case Done(es) =>
      if walk == [] then Raised(UnboundName("files"))
      else Done(Embedded(es, Names(walk[|walk| - 1].files)))
  }

  /** A folder without accepted images embeds nothing. */
  lemma NoImagesNoResults(top: string, walk: seq<WalkStep>, model: Model)
    requires walk != [] && AcceptedImages(top, walk) == []
    ensures EmbedSpec(top, walk, model) == Done(Embedded([], Names(walk[|walk| - 1].files)))
  {
  }

  /** The returned `files` are not the embedded images: for a folder holding
      "main.jpg" and "a.jpg", the one embedding (of a.jpg) comes back beside
      the name "main.jpg" first. */
  lemma ReturnedNamesAreNotTheEmbeddedOnes(model: Model, e: Embedding)
    requires model("top/a.jpg") == Some(e)
    ensures var walk := [WalkStep([], [FileItem("main.jpg", []), FileItem("a.jpg", [])])];
      EmbedSpec("top", walk, model) == Done(Embedded([e], ["main.jpg", "a.jpg"]))
  {
    var files := [FileItem("main.jpg", []), FileItem("a.jpg", [])];
    var walk := [WalkStep([], files)];
    var paths := ["top/a.jpg"];
    assert AcceptedImages("top", walk) == paths by {
      OneDirectoryWalk("top", walk);
      MainSkippedAKept(files);
    }
    EmbedOne(paths, model, e);
    SpecDone("top", walk, model, [e]);
    assert Names(files) == ["main.jpg", "a.jpg"];
  }

  /** A walk of one directory at the top accepts that directory's images. */
  lemma OneDirectoryWalk(top: string, walk: seq<WalkStep>)
    requires |walk| == 1 && walk[0].rel == []
    ensures AcceptedImages(top, walk) == ImagePaths(top, walk[0].files)
  {
    assert walk[..0] == [];
  }

  /** A run of one path the model embeds. */
  lemma EmbedOne(paths: seq<string>, model: Model, e: Embedding)
    requires |paths| == 1 && model(paths[0]) == Some(e)
    ensures EmbedAll(paths, model) == Done([e])
  {
    assert paths[..0] == [];
    assert EmbedAll(paths[..0], model) == Done([]);
    assert [] + [e] == [e];
  }

  /** A completed run over a non-empty walk is what embed_images returns. */
  lemma SpecDone(top: string, walk: seq<WalkStep>, model: Model, es: seq<Embedding>)
    requires walk != [] && EmbedAll(AcceptedImages(top, walk), model) == Done(es)
    ensures EmbedSpec(top, walk, model) == Done(Embedded(es, Names(walk[|walk| - 1].files)))
  {
  }

  /** Of "main.jpg" and "a.jpg" under "top", only "top/a.jpg" is accepted. */
  lemma MainSkippedAKept(files: seq<FileItem>)
    requires files == [FileItem("main.jpg", []), FileItem("a.jpg", [])]
    ensures ImagePaths("top", files) == ["top/a.jpg"]
  {
    MainJpgSkipped();
    AJpgAccepted();
    JoinPlain("top", "a.jpg");
    assert "top" + "/" + "a.jpg" == "top/a.jpg";
    var first := files[..1];
    assert first[..0] == [];
    assert ImagePaths("top", first) == [];
    assert files[..|files| - 1] == first;
  }

  /** "main.jpg" is left out by the "main." rule. */
  lemma MainJpgSkipped()
    ensures !Embeddable("main.jpg")
  {
    assert "main.jpg"[..5] == "main.";
  }

  /** "a.jpg" has an image suffix and does not start with "main.". */
  lemma AJpgAccepted()
    ensures Embeddable("a.jpg")
  {
    assert "a.jpg"[..5][0] == 'a';
    assert "a.jpg"[1..] == ".jpg";
  }

  /** One more file extends a directory's image paths by at most its own path. */
  lemma ImagePathsStep(root: string, files: seq<FileItem>, j: int)
    requires 0 <= j < |files|
    ensures ImagePaths(root, files[..j + 1]) == ImagePaths(root, files[..j])
      + (if Embeddable(files[j].name) then [Join(root, files[j].name)] else [])
  {
    assert files[..j + 1][..j] == files[..j];
  }

  /** One more path after a run that has not raised. */
  lemma EmbedAllSnoc(ps: seq<string>, p: string, model: Model, es: seq<Embedding>)
    requires EmbedAll(ps, model) == Done(es)
    ensures EmbedAll(ps + [p], model)
      == if model(p).None? then Raised(ModelFailed(p)) else Done(es + [model(p).value])
  {
    assert (ps + [p])[..|ps|] == ps;
  }

  /** The image paths of a directory's files cut at n. */
  lemma ImagePathsSplit(root: string, files: seq<FileItem>, n: int)
    requires 0 <= n <= |files|
    ensures ImagePaths(root, files) == ImagePaths(root, files[..n]) + ImagePaths(root, files[n..])
  {
    ImagePathsAppend(root, files[..n], files[n..]);
    assert files[..n] + files[n..] == files;
  }

  /** A directory whose run raised at file j raises the same way overall. */
  lemma DirectoryRaised(prior: seq<string>, root: string, files: seq<FileItem>, j: int, model: Model)
    requires 0 <= j < |files|
    requires EmbedAll(prior + ImagePaths(root, files[..j + 1]), model).Raised?
    ensures EmbedAll(prior + ImagePaths(root, files), model)
      == EmbedAll(prior + ImagePaths(root, files[..j + 1]), model)
  {
    var head := ImagePaths(root, files[..j + 1]);
    var tail := ImagePaths(root, files[j + 1..]);
    ImagePathsSplit(root, files, j + 1);
    assert prior + (head + tail) == (prior + head) + tail;
    EmbedAllRaisedStays(prior + head, tail, model);
  }

  /** The inner loop of embed_images over one directory's files, continuing
      a run whose paths so far are `prior`; `collected` is the list the source
      calls files_, which grows with the results and is never returned. */
  method EmbedDirectory(root: string, files: seq<FileItem>, model: Model,
                        ghost prior: seq<string>, results: seq<Embedding>, collected: seq<string>)
    returns (out: Outcome<seq<Embedding>>, collectedOut: seq<string>)
    requires EmbedAll(prior, model) == Done(results)
    requires |collected| == |results|
    ensures out == EmbedAll(prior + ImagePaths(root, files), model)
    ensures out.Done? ==> |collectedOut| == |out.value|
  {
    var acc := results;
    collectedOut := collected;
    assert prior + ImagePaths(root, files[..0]) == prior;
    for j := 0 to |files|
      invariant EmbedAll(prior + ImagePaths(root, files[..j]), model) == Done(acc)
      invariant |collectedOut| == |acc|
    {
      var file := files[j].name;
      ImagePathsStep(root, files, j);
      ghost var prev := prior + ImagePaths(root, files[..j]);
      if EndsWith(file, ".png") || EndsWith(file, ".jpg") || EndsWith(file, ".jpeg") {
        if StartsWith(file, "main.") {
          assert prior + ImagePaths(root, files[..j + 1]) == prev;
          continue;
        }
        var path := Join(root, file);
        var e := model(path);
        assert prior + ImagePaths(root, files[..j + 1]) == prev + [path];
        EmbedAllSnoc(prev, path, model, acc);
        if e.None? {
          DirectoryRaised(prior, root, files, j, model);
          return Raised(ModelFailed(path)), collectedOut;
        }
        acc := acc + [e.value];
        collectedOut := collectedOut + [file];
      } else {
        assert prior + ImagePaths(root, files[..j + 1]) == prev;
      }
    }
    assert files[..|files|] == files;
    out := Done(acc);
  }

  /** One more directory of the walk extends the accepted images by its own. */
  lemma AcceptedImagesStep(top: string, walk: seq<WalkStep>, s: int)
    requires 0 <= s < |walk|
    ensures AcceptedImages(top, walk[..s + 1])
      == AcceptedImages(top, walk[..s]) + ImagePaths(JoinAll(top, walk[s].rel), walk[s].files)
  {
    assert walk[..s + 1][..s] == walk[..s];
  }

  /** A run that raised in directory s raises the same way for the whole walk. */
  lemma WalkRaised(top: string, walk: seq<WalkStep>, s: int, model: Model)
    requires 0 <= s < |walk|
    requires EmbedAll(AcceptedImages(top, walk[..s + 1]), model).Raised?
    ensures EmbedSpec(top, walk, model) == Raised(EmbedAll(AcceptedImages(top, walk[..s + 1]), model).fault)
  {
    var ps := AcceptedImages(top, walk[..s + 1]);
    var qs := AcceptedImages(top, walk[s + 1..]);
    AcceptedImagesSplit(top, walk, s + 1);
    EmbedAllRaisedStays(ps, qs, model);
    SpecRaised(top, walk, model);
  }

  /** The accepted images of a walk cut at n. */
  lemma AcceptedImagesSplit(top: string, walk: seq<WalkStep>, n: int)
    requires 0 <= n <= |walk|
    ensures AcceptedImages(top, walk) == AcceptedImages(top, walk[..n]) + AcceptedImages(top, walk[n..])
  {
    AcceptedImagesAppend(top, walk[..n], walk[n..]);
    assert walk[..n] + walk[n..] == walk;
  }

  /** A raised run is what embed_images raises. */
  lemma SpecRaised(top: string, walk: seq<WalkStep>, model: Model)
    requires EmbedAll(AcceptedImages(top, walk), model).Raised?
    ensures EmbedSpec(top, walk, model) == Raised(EmbedAll(AcceptedImages(top, walk), model).fault)
  {
  }

  /** The walk loop of embed_images. */
  method EmbedImages(top: string, walk: seq<WalkStep>, model: Model) returns (r: Outcome<Embedded>)
    ensures r == EmbedSpec(top, walk, model)
  {
    var results: seq<Embedding> := [];
    var collected: seq<string> := [];
    var lastFiles: Option<seq<string>> := None;
    for s := 0 to |walk|
      invariant EmbedAll(AcceptedImages(top, walk[..s]), model) == Done(results)
      invariant |collected| == |results|
      invariant s == 0 <==> lastFiles.None?
      invariant s > 0 ==> lastFiles == Some(Names(walk[s - 1].files))
    {
      var step := walk[s];
      var root := JoinAll(top, step.rel);
      AcceptedImagesStep(top, walk, s);
      ghost var before := AcceptedImages(top, walk[..s]);
      var out;
      out, collected := EmbedDirectory(root, step.files, model, before, results, collected);
      if out.Raised? {
        WalkRaised(top, walk, s, model);
        return Raised(out.fault);
      }
      results := out.value;
      lastFiles := Some(Names(step.files));
    }
    assert walk[..|walk|] == walk;
    if lastFiles.None? {
      return Raised(UnboundName("files"));
    }
    r := Done(Embedded(results, lastFiles.value));
  }
}
