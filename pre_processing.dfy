/** services/pre_processing.py, the decisions of the quality gate: the
    detector's score filter and rescaling, the brightness and sharpness
    window, the box-area ratio, which accepted box is left on disk, and where
    each raw image's chip goes. The network, OpenCV's measurements and image
    decoding are parameters. */
module Preprocessing {
  import opened Basics

  // ---------------------------------------------------------------------
  // Thresholds

  /** The Preprocessor's constructor arguments. */
  datatype Thresholds = Thresholds(minBrightness: real, maxBrightness: real,
                                   minSharpness: real, minBoxRatio: real)

  /** Preprocessor's defaults: min_brightness 50, max_brightness 200,
      min_sharpness 10.0, min_box_ratio 0.3. */
  const DefaultThresholds := Thresholds(50.0, 200.0, 10.0, 0.3)

  /** preprocess_images passes 50, 200 and 10.0 and keeps the default ratio. */
  const PipelineThresholds := Thresholds(50.0, 200.0, 10.0, DefaultThresholds.minBoxRatio)

  /** FaceDetectionModel's default detection_threshold. */
  const DefaultDetectionThreshold: real := 0.99

  /** The detection_threshold preprocess_images constructs its detector with. */
  const PipelineDetectionThreshold: real := 0.95

  /** The side of the square the detector sees its input resized to. */
  const DetectorSide: real := 320.0

  // ---------------------------------------------------------------------
  // is_quality_acceptable

  /** The brightness (a mean) and the sharpness (a Laplacian variance) that
      OpenCV measures on a grey crop. */
  datatype Measure = Measure(brightness: real, sharpness: real)

  datatype Quality = Accepted | BrightnessOutOfRange | SharpnessTooLow

  /** The verdict of is_quality_acceptable: brightness is tested first, and
      all three bounds are inclusive. */
  function Judge(m: Measure, th: Thresholds): (q: Quality)
    ensures q == Accepted <==>
      th.minBrightness <= m.brightness <= th.maxBrightness && th.minSharpness <= m.sharpness
    ensures q == BrightnessOutOfRange <==> m.brightness < th.minBrightness || th.maxBrightness < m.brightness
  {
    if m.brightness < th.minBrightness || m.brightness > th.maxBrightness then BrightnessOutOfRange
    else if m.sharpness < th.minSharpness then SharpnessTooLow
    else Accepted
  }

  /** A sharper crop of the same brightness is never rejected when a blurrier
      one was accepted; brightness outside the window wins over sharpness. */
  lemma {:induction false} JudgeMonotoneInSharpness(m: Measure, s: real, th: Thresholds)
    requires Judge(m, th) == Accepted && m.sharpness <= s
    ensures Judge(Measure(m.brightness, s), th) == Accepted
    ensures forall t: real :: Judge(Measure(m.brightness, t), th) != BrightnessOutOfRange
  {
  }

  /** The default window: 50 and 200 pass, just outside them fails, and a
      sharpness of exactly 10.0 passes. */
  lemma DefaultWindowEdges()
    ensures Judge(Measure(50.0, 10.0), DefaultThresholds) == Accepted
    ensures Judge(Measure(200.0, 10.0), DefaultThresholds) == Accepted
    ensures Judge(Measure(49.99, 1000.0), DefaultThresholds) == BrightnessOutOfRange
    ensures Judge(Measure(200.01, 1000.0), DefaultThresholds) == BrightnessOutOfRange
    ensures Judge(Measure(300.0, 0.0), DefaultThresholds) == BrightnessOutOfRange
    ensures Judge(Measure(100.0, 9.99), DefaultThresholds) == SharpnessTooLow
  {
  }

  // ---------------------------------------------------------------------
  // detect_faces: the score mask and the rescaling

  datatype RealBox = RealBox(x1: real, y1: real, x2: real, y2: real)

  /** One output of the network, in the 320 x 320 frame it was run on. */
  datatype Detection = Detection(box: RealBox, score: real)

  /** x coordinates scale by orig_width / 320, y coordinates by orig_height / 320. */
  function Scale(b: RealBox, width: int, height: int): RealBox {
    var sx := width as real / DetectorSide;
    var sy := height as real / DetectorSide;
    RealBox(b.x1 * sx, b.y1 * sy, b.x2 * sx, b.y2 * sy)
  }

  /** detect_faces' post-processing of the network's boxes and scores. */
  function DetectFaces(raw: seq<Detection>, threshold: real, width: int, height: int): (r: seq<RealBox>)
    ensures |r| <= |raw|
    decreases |raw|
  {
    if raw == [] then []
    else
      var last := raw[|raw| - 1];
      DetectFaces(raw[..|raw| - 1], threshold, width, height)
        + (if threshold <= last.score then [Scale(last.box, width, height)] else [])
  }

  /** Exactly the boxes scoring at least the threshold survive, rescaled;
      none surviving gives the empty list. */
  lemma {:induction false} DetectFacesKeeps(raw: seq<Detection>, threshold: real, width: int, height: int)
    ensures var r := DetectFaces(raw, threshold, width, height);
      && (forall b :: b in r ==> exists d :: d in raw && threshold <= d.score && b == Scale(d.box, width, height))
      && (forall d :: d in raw && threshold <= d.score ==> Scale(d.box, width, height) in r)
      && (r == [] <==> forall d :: d in raw ==> d.score < threshold)
    decreases |raw|
  {
    if raw != [] {
      var prefix := raw[..|raw| - 1];
      var last := raw[|raw| - 1];
      assert raw == prefix + [last];
      assert forall d :: d in raw <==> d in prefix || d == last;
      DetectFacesKeeps(prefix, threshold, width, height);
    }
  }

  /** The filter keeps the network's order: it distributes over
      concatenation. */
  lemma {:induction false} DetectFacesAppend(a: seq<Detection>, b: seq<Detection>, threshold: real,
                                             width: int, height: int)
    ensures DetectFaces(a + b, threshold, width, height)
      == DetectFaces(a, threshold, width, height) + DetectFaces(b, threshold, width, height)
    decreases |b|
  {
    if b == [] {
      assert a + b == a;
    } else {
      assert (a + b)[..|a + b| - 1] == a + b[..|b| - 1];
      DetectFacesAppend(a, b[..|b| - 1], threshold, width, height);
    }
  }

  /** A 640 x 480 image doubles x and scales y by 1.5; a 0.97 score passes
      the pipeline's 0.95 but not the default 0.99. */
  lemma DetectFacesExample()
    ensures var raw := [Detection(RealBox(10.0, 20.0, 30.0, 40.0), 0.97)];
      DetectFaces(raw, PipelineDetectionThreshold, 640, 480) == [RealBox(20.0, 30.0, 60.0, 60.0)]
      && DetectFaces(raw, DefaultDetectionThreshold, 640, 480) == []
  {
    var raw := [Detection(RealBox(10.0, 20.0, 30.0, 40.0), 0.97)];
    assert raw[..0] == [];
  }

  // ---------------------------------------------------------------------
  // crop_and_save_faces

  /** `int(x)` on a float: truncation toward zero. */
  function Trunc(x: real): int {
    if 0.0 <= x then x.Floor else -((-x).Floor)
  }

  /** Truncation drops the fraction and keeps the sign: it moves toward zero
      by less than one. */
  lemma TruncTowardZero(x: real)
    ensures 0.0 <= x ==> Trunc(x) as real <= x < Trunc(x) as real + 1.0
    ensures x < 0.0 ==> Trunc(x) as real - 1.0 < x <= Trunc(x) as real
  {
  }

  datatype IntBox = IntBox(x1: int, y1: int, x2: int, y2: int)

  /** `map(int, box)`. */
  function TruncBox(b: RealBox): IntBox {
    IntBox(Trunc(b.x1), Trunc(b.y1), Trunc(b.x2), Trunc(b.y2))
  }

  /** `(x2 - x1) * (y2 - y1)` on the truncated corners. */
  function Area(b: IntBox): int { (b.x2 - b.x1) * (b.y2 - b.y1) }

  /** The height and width of a decoded image (`image.shape[:2]`). */
  datatype Dims = Dims(height: int, width: int)

  /** The area gate: a box is skipped exactly when its truncated area is
      below min_box_ratio times the image area. */
  predicate BoxTooSmall(ib: IntBox, dims: Dims, th: Thresholds) {
    (Area(ib) as real) < th.minBoxRatio * ((dims.width * dims.height) as real)
  }

  /** On a 100 x 100 image the default ratio asks for 3000 pixels: a
      60 x 50 box passes, a 59 x 50 box does not, and the corners are
      truncated toward zero first. */
  lemma AreaGateExamples()
    ensures !BoxTooSmall(IntBox(0, 0, 60, 50), Dims(100, 100), DefaultThresholds)
    ensures BoxTooSmall(IntBox(0, 0, 59, 50), Dims(100, 100), DefaultThresholds)
    ensures TruncBox(RealBox(-0.5, 0.9, 59.99, 50.5)) == IntBox(0, 0, 59, 50)
  {
  }

  /** The fate of one detected box. */
  datatype BoxVerdict = TooSmall | Unmeasurable | PoorQuality(q: Quality) | Save(box: IntBox)

  /** One iteration of the loop of crop_and_save_faces; `measure` is OpenCV
      on the image cropped to a box, None when it raises. */
  function JudgeBox(b: RealBox, dims: Dims, measure: IntBox -> Option<Measure>, th: Thresholds): (v: BoxVerdict)
    ensures v == TooSmall <==> BoxTooSmall(TruncBox(b), dims, th)
    ensures v.Unmeasurable? <==> !v.TooSmall? && measure(TruncBox(b)).None?
    ensures v.Save? <==> (!v.TooSmall? && measure(TruncBox(b)).Some?
      && Judge(measure(TruncBox(b)).value, th) == Accepted)
    ensures v.Save? ==> v.box == TruncBox(b)
  {
    var ib := TruncBox(b);
    if BoxTooSmall(ib, dims, th) then TooSmall
    else
      match measure(ib)
      case None => Unmeasurable
      case Some(m) => if Judge(m, th) == Accepted then Save(ib) else PoorQuality(Judge(m, th))
  }

  /** What a run leaves behind: what it has saved so far (`disk`), and the
      fault that ended it (`fault`, None when it ran to the end). A raise
      propagates out of the loop but does not undo a file already saved. */
  datatype Written<T> = Written(disk: T, fault: Option<Fault>)

  /** The box loop of crop_and_save_faces: the chip last saved at the
      output path (None: none), and the fault that ended the loop. */
  function CropRun(imgPath: string, boxes: seq<RealBox>, dims: Dims,
                   measure: IntBox -> Option<Measure>, th: Thresholds): (r: Written<Option<IntBox>>)
    ensures r.fault.Some? ==> r.fault.value == MeasureFailed(imgPath)
    decreases |boxes|
  {
    if boxes == [] then Written(None, None)
    else
      var n := |boxes| - 1;
      var prev := CropRun(imgPath, boxes[..n], dims, measure, th);
      if prev.fault.Some? then prev
      else
        match JudgeBox(boxes[n], dims, measure, th)
        case Unmeasurable => Written(prev.disk, Some(MeasureFailed(imgPath)))
        case Save(ib) => Written(Some(ib), None)
        case _ => prev
  }

  /** boxes[f] is the first box that passes the area gate but cannot be
      measured. */
  predicate FirstUnmeasurable(boxes: seq<RealBox>, dims: Dims, measure: IntBox -> Option<Measure>,
                              th: Thresholds, f: int) {
    0 <= f < |boxes| && JudgeBox(boxes[f], dims, measure, th).Unmeasurable?
    && forall j :: 0 <= j < f ==> !JudgeBox(boxes[j], dims, measure, th).Unmeasurable?
  }

  /** After the first e boxes the output path holds the last accepted box
      among them, or nothing this image wrote when none was accepted. */
  predicate LeftAfter(boxes: seq<RealBox>, e: int, dims: Dims, measure: IntBox -> Option<Measure>,
                      th: Thresholds, chip: Option<IntBox>) {
    0 <= e <= |boxes| &&
    match chip
    case Some(ib) =>
      exists k :: 0 <= k < e && JudgeBox(boxes[k], dims, measure, th) == Save(ib)
        && forall j :: k < j < e ==> !JudgeBox(boxes[j], dims, measure, th).Save?
    case None => forall k :: 0 <= k < e ==> !JudgeBox(boxes[k], dims, measure, th).Save?
  }

  /** The loop runs to the end exactly when every box that passes the area
      gate can be measured, and then the chip left is that of the last
      accepted box. Otherwise it stops at the first unmeasurable box, and
      the chip left is that of the last box accepted before it: every
      accepted box is saved over the previous one at once. */
  lemma {:induction false} CropRunMeaning(imgPath: string, boxes: seq<RealBox>, dims: Dims,
                                          measure: IntBox -> Option<Measure>, th: Thresholds)
    ensures var r := CropRun(imgPath, boxes, dims, measure, th);
      && (r.fault.None? <==> forall k :: 0 <= k < |boxes| ==> !JudgeBox(boxes[k], dims, measure, th).Unmeasurable?)
      && (r.fault.None? ==> LeftAfter(boxes, |boxes|, dims, measure, th, r.disk))
      && (r.fault.Some? ==> exists f :: FirstUnmeasurable(boxes, dims, measure, th, f)
                                        && LeftAfter(boxes, f, dims, measure, th, r.disk))
    decreases |boxes|
  {
    if boxes != [] {
      var n := |boxes| - 1;
      var prefix := boxes[..n];
      assert forall k :: 0 <= k < n ==> boxes[k] == prefix[k];
      CropRunMeaning(imgPath, prefix, dims, measure, th);
      var prev := CropRun(imgPath, prefix, dims, measure, th);
      if prev.fault.Some? {
        var f :| FirstUnmeasurable(prefix, dims, measure, th, f) && LeftAfter(prefix, f, dims, measure, th, prev.disk);
        LeftAfterPrefix(boxes, n, f, dims, measure, th, prev.disk);
        assert FirstUnmeasurable(boxes, dims, measure, th, f);
      } else {
        LeftAfterPrefix(boxes, n, n, dims, measure, th, prev.disk);
        match JudgeBox(boxes[n], dims, measure, th) {
          case Unmeasurable =>
            assert FirstUnmeasurable(boxes, dims, measure, th, n);
          case Save(ib) =>
            assert LeftAfter(boxes, |boxes|, dims, measure, th, Some(ib));
          case _ =>
            LeftAfterExtend(boxes, n, dims, measure, th, prev.disk);
        }
      }
    }
  }

  /** LeftAfter only looks at the first e boxes. */
  lemma LeftAfterPrefix(boxes: seq<RealBox>, n: int, e: int, dims: Dims, measure: IntBox -> Option<Measure>,
                        th: Thresholds, chip: Option<IntBox>)
    requires 0 <= e <= n <= |boxes|
    ensures LeftAfter(boxes[..n], e, dims, measure, th, chip) == LeftAfter(boxes, e, dims, measure, th, chip)
  {
    assert forall k :: 0 <= k < n ==> boxes[..n][k] == boxes[k];
  }

  /** A box that is not accepted leaves the chip as it was. */
  lemma LeftAfterExtend(boxes: seq<RealBox>, e: int, dims: Dims, measure: IntBox -> Option<Measure>,
                        th: Thresholds, chip: Option<IntBox>)
    requires 0 <= e < |boxes| && LeftAfter(boxes, e, dims, measure, th, chip)
    requires !JudgeBox(boxes[e], dims, measure, th).Save?
    ensures LeftAfter(boxes, e + 1, dims, measure, th, chip)
  {
    if chip.Some? {
      var k :| 0 <= k < e && JudgeBox(boxes[k], dims, measure, th) == Save(chip.value)
        && forall j :: k < j < e ==> !JudgeBox(boxes[j], dims, measure, th).Save?;
      assert forall j :: k < j < e + 1 ==> !JudgeBox(boxes[j], dims, measure, th).Save?;
    }
  }

  /** crop_and_save_faces(img_path, output_path): an unreadable image
      (`image` None) returns at once and writes nothing. */
  function CropSpec(imgPath: string, image: Option<Dims>, raw: seq<Detection>, detThreshold: real,
                    measure: IntBox -> Option<Measure>, th: Thresholds): (r: Written<Option<IntBox>>)
    ensures image.None? ==> r == Written(None, None)
  {
    match image
    case None => Written(None, None)
    case Some(dims) => CropRun(imgPath, DetectFaces(raw, detThreshold, dims.width, dims.height), dims, measure, th)
  }

  /** Two boxes that both pass the gate leave only the second on disk. */
  lemma {:induction false} LastAcceptedBoxWins(imgPath: string, b1: RealBox, b2: RealBox, dims: Dims,
                                               measure: IntBox -> Option<Measure>, th: Thresholds)
    requires JudgeBox(b1, dims, measure, th).Save? && JudgeBox(b2, dims, measure, th).Save?
    ensures CropRun(imgPath, [b1, b2], dims, measure, th) == Written(Some(TruncBox(b2)), None)
  {
    assert [b1, b2][..1] == [b1];
    assert [b1][..0] == [];
    assert CropRun(imgPath, [b1], dims, measure, th) == Written(Some(TruncBox(b1)), None);
  }

  /** An accepted box stays on disk when a later box cannot be measured:
      the raise ends the loop but does not undo the save. */
  lemma {:induction false} RaiseKeepsSavedChip(imgPath: string, b1: RealBox, b2: RealBox, dims: Dims,
                                               measure: IntBox -> Option<Measure>, th: Thresholds)
    requires JudgeBox(b1, dims, measure, th).Save? && JudgeBox(b2, dims, measure, th).Unmeasurable?
    ensures CropRun(imgPath, [b1, b2], dims, measure, th)
      == Written(Some(TruncBox(b1)), Some(MeasureFailed(imgPath)))
  {
    assert [b1, b2][..1] == [b1];
    assert [b1][..0] == [];
    assert CropRun(imgPath, [b1], dims, measure, th) == Written(Some(TruncBox(b1)), None);
  }

  /** The loop of crop_and_save_faces. It returns the chip it left at the
      output path; a measurement that raises ends it with that fault, the
      chip saved before it staying where it is. */
  method CropAndSaveFaces(imgPath: string, image: Option<Dims>, raw: seq<Detection>, detThreshold: real,
                          measure: IntBox -> Option<Measure>, th: Thresholds)
    returns (r: Written<Option<IntBox>>)
    ensures r == CropSpec(imgPath, image, raw, detThreshold, measure, th)
  {
    if image.None? {
      return Written(None, None);
    }
    var dims := image.value;
    var boxes := DetectFaces(raw, detThreshold, dims.width, dims.height);
    var saved: Option<IntBox> := None;
    for i := 0 to |boxes|
      invariant CropRun(imgPath, boxes[..i], dims, measure, th) == Written(saved, None)
    {
      CropRunStep(imgPath, boxes, i, dims, measure, th, saved);
      ghost var verdict := JudgeBox(boxes[i], dims, measure, th);
      var ib := TruncBox(boxes[i]);
      if BoxTooSmall(ib, dims, th) {
        assert verdict == TooSmall;
        continue;
      }
      var m := measure(ib);
      if m.None? {
        assert verdict == Unmeasurable;
        NoRecoveryAfterRaise(imgPath, boxes, i + 1, dims, measure, th);
        return Written(saved, Some(MeasureFailed(imgPath)));
      }
      if Judge(m.value, th) != Accepted {
        assert verdict.PoorQuality?;
        continue;
      }
      assert verdict == Save(ib);
      saved := Some(ib);
    }
    assert boxes[..|boxes|] == boxes;
    r := Written(saved, None);
  }

  /** One more box after a run that has not raised. */
  lemma CropRunStep(imgPath: string, boxes: seq<RealBox>, i: int, dims: Dims,
                    measure: IntBox -> Option<Measure>, th: Thresholds, saved: Option<IntBox>)
    requires 0 <= i < |boxes|
    requires CropRun(imgPath, boxes[..i], dims, measure, th) == Written(saved, None)
    ensures CropRun(imgPath, boxes[..i + 1], dims, measure, th)
      == match JudgeBox(boxes[i], dims, measure, th)
         case Unmeasurable => Written(saved, Some(MeasureFailed(imgPath)))
         case Save(ib) => Written(Some(ib), None)
         case _ => Written(saved, None)
  {
    assert boxes[..i + 1][..i] == boxes[..i];
  }

  /** Once the loop has raised, the remaining boxes are never looked at. */
  lemma {:induction false} NoRecoveryAfterRaise(imgPath: string, boxes: seq<RealBox>, i: int, dims: Dims,
                                                measure: IntBox -> Option<Measure>, th: Thresholds)
    requires 0 <= i <= |boxes|
    requires CropRun(imgPath, boxes[..i], dims, measure, th).fault.Some?
    ensures CropRun(imgPath, boxes, dims, measure, th) == CropRun(imgPath, boxes[..i], dims, measure, th)
    decreases |boxes| - i
  {
    if i < |boxes| {
      assert boxes[..i + 1][..i] == boxes[..i];
      NoRecoveryAfterRaise(imgPath, boxes, i + 1, dims, measure, th);
    } else {
      assert boxes[..i] == boxes;
    }
  }

  // ---------------------------------------------------------------------
  // preprocess_images: which files are taken and where their chips go

  /** `file.lower().endswith(('.jpg', '.jpeg', '.png'))`. */
  predicate Selected(name: string) {
    var low := LowerAscii(name);
    EndsWith(low, ".jpg") || EndsWith(low, ".jpeg") || EndsWith(low, ".png")
  }

  /** `str(Path(root) / file)` for a file `rel` below the input folder. */
  function ImagePath(inputDir: string, rel: seq<string>, name: string): string {
    JoinAll(inputDir, rel + [name])
  }

  /** `output_dir / rel_path.with_suffix('.jpg')`: the same relative
      directory, the last suffix of the name replaced by ".jpg". */
  function OutputPath(outputDir: string, rel: seq<string>, name: string): string {
    JoinAll(outputDir, rel + [WithSuffix(name, ".jpg")])
  }

  /** Every output path names a ".jpg" file: the source's name with its
      last suffix replaced. */
  lemma OutputPathIsJpg(outputDir: string, rel: seq<string>, name: string)
    ensures var p := OutputPath(outputDir, rel, name);
      EndsWith(p, WithSuffix(name, ".jpg")) && EndsWith(p, ".jpg")
  {
    var chip := WithSuffix(name, ".jpg");
    JoinAllEndsWithLast(outputDir, rel + [chip]);
    WithSuffixMeaning(name, ".jpg");
    EndsWithTrans(OutputPath(outputDir, rel, name), chip, ".jpg");
  }

  /** Upper case suffixes are taken and a non-image is not. */
  lemma SelectedIgnoresCase()
    ensures Selected("A.PNG") && Selected("b.jpeg") && !Selected("c.gif")
  {
    UpperPngSelected();
    JpegSelected();
    GifNotSelected();
  }

  lemma UpperPngSelected()
    ensures Selected("A.PNG")
  {
    var low := LowerAscii("A.PNG");
    assert low[1] == '.' && low[2] == 'p' && low[3] == 'n' && low[4] == 'g';
    assert low[1..] == ".png";
  }

  lemma JpegSelected()
    ensures Selected("b.jpeg")
  {
    var low := LowerAscii("b.jpeg");
    assert low[1] == '.' && low[2] == 'j' && low[3] == 'p' && low[4] == 'e' && low[5] == 'g';
    assert low[1..] == ".jpeg";
  }

  lemma GifNotSelected()
    ensures !Selected("c.gif")
  {
    var low := LowerAscii("c.gif");
    assert low[4] == 'f' && low[1] == '.';
    assert low[1..] != ".jpg" && low[1..] != ".png";
    assert low[0..] != ".jpeg" by { assert low[0] == 'c'; }
  }

  /** Names map as pathlib's with_suffix does: the last suffix is replaced,
      whatever its case, and a dot-file keeps its whole name. */
  lemma OutputNames()
    ensures WithSuffix("a.png", ".jpg") == "a.jpg"
    ensures WithSuffix("b.JPEG", ".jpg") == "b.jpg"
    ensures WithSuffix(".png", ".jpg") == ".png.jpg"
  {
    assert RFind("a.png", '.') == 1;
    assert RFind("b.JPEG", '.') == 1;
    assert RFind(".png", '.') == 0;
  }

  /** "a.png" and "a.jpg" of one folder share one output path. */
  lemma SamePathForSameStem(outputDir: string, rel: seq<string>)
    ensures OutputPath(outputDir, rel, "a.png") == OutputPath(outputDir, rel, "a.jpg")
  {
    assert RFind("a.png", '.') == 1;
    assert RFind("a.jpg", '.') == 1;
    assert WithSuffix("a.png", ".jpg") == "a.jpg";
    assert WithSuffix("a.jpg", ".jpg") == "a.jpg";
  }

  /** A chip written during the run: which raw file it came from, and the box. */
  datatype Chip = Chip(rel: seq<string>, name: string, box: IntBox)

  /** What the opaque collaborators report for each raw image path: its
      decoded size (None: unreadable), the network's detections, and OpenCV's
      measurement of a crop (None: it raised). */
  datatype ImageSource = ImageSource(decode: string -> Option<Dims>,
                                     detect: string -> seq<Detection>,
                                     measure: (string, IntBox) -> Option<Measure>)

  /** Every chip sits at the output path of the file it came from, and that
      file was a selected one. */
  ghost predicate ChipsConsistent(outputDir: string, chips: map<string, Chip>) {
    forall p :: p in chips ==> p == OutputPath(outputDir, chips[p].rel, chips[p].name) && Selected(chips[p].name)
  }

  /** The crop step for one raw image, as preprocess_images calls it. */
  function CropFile(inputDir: string, rel: seq<string>, name: string, src: ImageSource): Written<Option<IntBox>> {
    var path := ImagePath(inputDir, rel, name);
    CropSpec(path, src.decode(path), src.detect(path), PipelineDetectionThreshold,
             ib => src.measure(path, ib), PipelineThresholds)
  }

  /** One file of the walk: skipped unless selected; otherwise the chip its
      crop saved, if any, replaces whatever was at its output path, and a
      fault of the crop propagates. */
  function PreprocessFile(inputDir: string, outputDir: string, rel: seq<string>, name: string,
                          src: ImageSource, chips: map<string, Chip>): (r: Written<map<string, Chip>>)
    ensures !Selected(name) ==> r == Written(chips, None)
    ensures Selected(name) ==> r.fault == CropFile(inputDir, rel, name, src).fault
    ensures Selected(name) && CropFile(inputDir, rel, name, src).disk.None? ==> r.disk == chips
    ensures Selected(name) && CropFile(inputDir, rel, name, src).disk.Some? ==>
      r.disk == chips[OutputPath(outputDir, rel, name) := Chip(rel, name, CropFile(inputDir, rel, name, src).disk.value)]
    ensures r.disk != chips ==>
      Selected(name) && OutputPath(outputDir, rel, name) in r.disk
      && r.disk == chips[OutputPath(outputDir, rel, name) := r.disk[OutputPath(outputDir, rel, name)]]
    ensures ChipsConsistent(outputDir, chips) ==> ChipsConsistent(outputDir, r.disk)
  {
    Place(outputDir, FileRef(rel, name), CropFile(inputDir, rel, name, src), chips)
  }

  /** One file of the walk: its directory below the input folder and its name. */
  datatype FileRef = FileRef(rel: seq<string>, name: string)

  /** What one file does to the chips, given what its crop step did: an
      unselected file is never cropped; otherwise the chip it saved, if
      any, replaces whatever was at the file's output path, and its fault
      is passed on. */
  function Place(outputDir: string, r: FileRef, crop: Written<Option<IntBox>>, chips: map<string, Chip>)
    : Written<map<string, Chip>>
  {
    if !Selected(r.name) then Written(chips, None)
    else if crop.disk.Some? then
      Written(chips[OutputPath(outputDir, r.rel, r.name) := Chip(r.rel, r.name, crop.disk.value)], crop.fault)
    else Written(chips, crop.fault)
  }

  /** The files of one directory, in listing order; the first raise ends it. */
  function PreprocessDir(inputDir: string, outputDir: string, rel: seq<string>, files: seq<FileItem>,
                         src: ImageSource, chips: map<string, Chip>): (r: Written<map<string, Chip>>)
    ensures ChipsConsistent(outputDir, chips) ==> ChipsConsistent(outputDir, r.disk)
    decreases |files|
  {
    if files == [] then Written(chips, None)
    else
      var prev := PreprocessDir(inputDir, outputDir, rel, files[..|files| - 1], src, chips);
      if prev.fault.Some? then prev
      else PreprocessFile(inputDir, outputDir, rel, files[|files| - 1].name, src, prev.disk)
  }

  /** preprocess_images(input_dir, output_dir) as a value: the chips the run
      writes under output_dir, keyed by path, and the fault that ended it,
      if any. */
  function PreprocessSpec(inputDir: string, outputDir: string, walk: seq<WalkStep>, src: ImageSource)
    : (r: Written<map<string, Chip>>)
    ensures ChipsConsistent(outputDir, r.disk)
    decreases |walk|
  {
    if walk == [] then Written(map[], None)
    else
      var last := walk[|walk| - 1];
      var prev := PreprocessSpec(inputDir, outputDir, walk[..|walk| - 1], src);
      if prev.fault.Some? then prev
      else PreprocessDir(inputDir, outputDir, last.rel, last.files, src, prev.disk)
  }

  // ---------------------------------------------------------------------
  // The walk as one sequence of files: which files leave chips, and where

  /** One directory's files, in listing order. */
  function DirFiles(rel: seq<string>, files: seq<FileItem>): (r: seq<FileRef>)
    ensures |r| == |files|
    ensures forall i :: 0 <= i < |files| ==> r[i] == FileRef(rel, files[i].name)
  {
    seq(|files|, i requires 0 <= i < |files| => FileRef(rel, files[i].name))
  }

  /** Every file of the walk, in the order preprocess_images visits them. */
  function WalkFiles(walk: seq<WalkStep>): seq<FileRef>
    decreases |walk|
  {
    if walk == [] then []
    else WalkFiles(walk[..|walk| - 1]) + DirFiles(walk[|walk| - 1].rel, walk[|walk| - 1].files)
  }

  /** The visit order lists exactly the files of the walk. */
  lemma {:induction false} WalkFilesMembership(walk: seq<WalkStep>, r: FileRef)
    ensures r in WalkFiles(walk) <==>
      exists s, i :: 0 <= s < |walk| && 0 <= i < |walk[s].files| && r == FileRef(walk[s].rel, walk[s].files[i].name)
    decreases |walk|
  {
    if walk != [] {
      var init := walk[..|walk| - 1];
      var last := walk[|walk| - 1];
      var own := DirFiles(last.rel, last.files);
      WalkFilesMembership(init, r);
      assert r in WalkFiles(walk) <==> r in WalkFiles(init) || r in own;
      if r in WalkFiles(init) {
        var s, i :| 0 <= s < |init| && 0 <= i < |init[s].files| && r == FileRef(init[s].rel, init[s].files[i].name);
        assert init[s] == walk[s];
      } else if r in own {
        var i :| 0 <= i < |own| && own[i] == r;
        assert r == FileRef(walk[|walk| - 1].rel, walk[|walk| - 1].files[i].name);
      } else {
        forall s, i | 0 <= s < |walk| && 0 <= i < |walk[s].files|
          ensures r != FileRef(walk[s].rel, walk[s].files[i].name)
        {
          if s < |init| {
            assert init[s] == walk[s];
          } else {
            assert own[i] == FileRef(walk[s].rel, walk[s].files[i].name);
          }
        }
      }
    }
  }

  /** What the crop step does for each file of the walk. */
  type Crops = FileRef -> Written<Option<IntBox>>

  /** The crop step of preprocess_images for each raw image. */
  function CropsOf(inputDir: string, src: ImageSource): Crops {
    (r: FileRef) => CropFile(inputDir, r.rel, r.name, src)
  }

  /** The files of `refs` handled in order from the chips `chips`, each as
      Place does with what its crop did; the first raise ends the run. */
  function ApplyFiles(outputDir: string, refs: seq<FileRef>, crop: Crops, chips: map<string, Chip>)
    : Written<map<string, Chip>>
    decreases |refs|
  {
    if refs == [] then Written(chips, None)
    else
      var prev := ApplyFiles(outputDir, refs[..|refs| - 1], crop, chips);
      if prev.fault.Some? then prev
      else Place(outputDir, refs[|refs| - 1], crop(refs[|refs| - 1]), prev.disk)
  }

  lemma {:induction false} DirIsApply(inputDir: string, outputDir: string, rel: seq<string>, files: seq<FileItem>,
                                      src: ImageSource, chips: map<string, Chip>)
    ensures PreprocessDir(inputDir, outputDir, rel, files, src, chips)
      == ApplyFiles(outputDir, DirFiles(rel, files), CropsOf(inputDir, src), chips)
    decreases |files|
  {
    if files != [] {
      var init := files[..|files| - 1];
      DirIsApply(inputDir, outputDir, rel, init, src, chips);
      assert DirFiles(rel, files)[..|files| - 1] == DirFiles(rel, init);
    }
  }

  lemma {:induction false} ApplyAppend(outputDir: string, a: seq<FileRef>, b: seq<FileRef>, crop: Crops,
                                       chips: map<string, Chip>)
    ensures ApplyFiles(outputDir, a + b, crop, chips)
      == var first := ApplyFiles(outputDir, a, crop, chips);
         if first.fault.Some? then first else ApplyFiles(outputDir, b, crop, first.disk)
    decreases |b|
  {
    if b == [] {
      assert a + b == a;
    } else {
      var init := b[..|b| - 1];
      assert (a + b)[..|a + b| - 1] == a + init;
      assert (a + b)[|a + b| - 1] == b[|b| - 1];
      ApplyAppend(outputDir, a, init, crop, chips);
    }
  }

  /** The walk's nested loops handle the files of WalkFiles one by one. */
  lemma {:induction false} SpecIsApply(inputDir: string, outputDir: string, walk: seq<WalkStep>, src: ImageSource)
    ensures PreprocessSpec(inputDir, outputDir, walk, src)
      == ApplyFiles(outputDir, WalkFiles(walk), CropsOf(inputDir, src), map[])
    decreases |walk|
  {
    if walk != [] {
      var init := walk[..|walk| - 1];
      var last := walk[|walk| - 1];
      var crop := CropsOf(inputDir, src);
      SpecIsApply(inputDir, outputDir, init, src);
      ApplyAppend(outputDir, WalkFiles(init), DirFiles(last.rel, last.files), crop, map[]);
      var first := ApplyFiles(outputDir, WalkFiles(init), crop, map[]);
      if first.fault.None? {
        DirIsApply(inputDir, outputDir, last.rel, last.files, src, first.disk);
      }
    }
  }

  /** A selected file whose crop raised. */
  predicate CropRaises(r: FileRef, crop: Crops) {
    Selected(r.name) && crop(r).fault.Some?
  }

  /** A selected file whose crop saved a box (before any fault it raised),
      and whose output path is p. */
  predicate SavesAt(outputDir: string, r: FileRef, crop: Crops, p: string) {
    Selected(r.name) && crop(r).disk.Some? && OutputPath(outputDir, r.rel, r.name) == p
  }

  /** The chip a file whose crop saved a box leaves. */
  function SavedChip(r: FileRef, crop: Crops): Chip
    requires crop(r).disk.Some?
  {
    Chip(r.rel, r.name, crop(r).disk.value)
  }

  /** refs[k] is the last file of refs that saves at p. */
  predicate LastSaveAt(outputDir: string, refs: seq<FileRef>, crop: Crops, p: string, k: int) {
    0 <= k < |refs| && SavesAt(outputDir, refs[k], crop, p)
    && forall j :: k < j < |refs| ==> !SavesAt(outputDir, refs[j], crop, p)
  }

  /** refs[k] is the first file of refs whose crop raised. */
  predicate FirstRaise(refs: seq<FileRef>, crop: Crops, k: int) {
    0 <= k < |refs| && CropRaises(refs[k], crop)
    && forall j :: 0 <= j < k ==> !CropRaises(refs[j], crop)
  }

  /** No file but possibly the last raises: the run handles every file. */
  predicate NoEarlyRaise(refs: seq<FileRef>, crop: Crops) {
    forall j :: 0 <= j < |refs| - 1 ==> !CropRaises(refs[j], crop)
  }

  /** m holds exactly the chips the files of refs saved: a path holds one
      exactly when some file saved at it, and then the last such file's. */
  ghost predicate Leaves(outputDir: string, refs: seq<FileRef>, crop: Crops, m: map<string, Chip>) {
    (forall p :: p in m <==> exists k :: 0 <= k < |refs| && SavesAt(outputDir, refs[k], crop, p))
    && (forall p, k :: LastSaveAt(outputDir, refs, crop, p, k) ==> p in m && m[p] == SavedChip(refs[k], crop))
  }

  /** A run raises exactly when some selected file's crop raises, and then
      with the fault of the first one. */
  lemma {:induction false} ApplyRaised(outputDir: string, refs: seq<FileRef>, crop: Crops, chips: map<string, Chip>)
    ensures ApplyFiles(outputDir, refs, crop, chips).fault.Some? <==>
      exists k :: 0 <= k < |refs| && CropRaises(refs[k], crop)
    ensures ApplyFiles(outputDir, refs, crop, chips).fault.Some? ==>
      exists k :: (FirstRaise(refs, crop, k) && ApplyFiles(outputDir, refs, crop, chips).fault == crop(refs[k]).fault)
    decreases |refs|
  {
    if refs != [] {
      var init := refs[..|refs| - 1];
      var last := refs[|refs| - 1];
      ApplyRaised(outputDir, init, crop, chips);
      assert forall j :: 0 <= j < |init| ==> init[j] == refs[j];
      var prev := ApplyFiles(outputDir, init, crop, chips);
      if prev.fault.Some? {
        var k :| FirstRaise(init, crop, k) && prev.fault == crop(init[k]).fault;
        assert FirstRaise(refs, crop, k);
      } else if CropRaises(last, crop) {
        assert FirstRaise(refs, crop, |refs| - 1);
      } else {
        forall k | 0 <= k < |refs| ensures !CropRaises(refs[k], crop) {
          if k < |init| {
            assert !CropRaises(init[k], crop);
          }
        }
      }
    }
  }

  /** A run that raised at its first raising file is the run of the files
      up to and including that one: the rest are never looked at. */
  lemma {:induction false} ApplyStopsAtFirstRaise(outputDir: string, refs: seq<FileRef>, crop: Crops,
                                                  chips: map<string, Chip>, k: int)
    requires FirstRaise(refs, crop, k)
    ensures ApplyFiles(outputDir, refs, crop, chips) == ApplyFiles(outputDir, refs[..k + 1], crop, chips)
    decreases |refs|
  {
    if |refs| == k + 1 {
      assert refs[..k + 1] == refs;
    } else {
      var init := refs[..|refs| - 1];
      assert forall j :: 0 <= j <= k ==> init[j] == refs[j];
      assert FirstRaise(init, crop, k);
      ApplyStopsAtFirstRaise(outputDir, init, crop, chips, k);
      assert init[..k + 1] == refs[..k + 1];
      ApplyRaised(outputDir, refs[..k + 1], crop, chips);
      assert CropRaises(refs[..k + 1][k], crop);
    }
  }

  /** The last file of a run: its own path changes exactly when it saves,
      and no other path changes. */
  lemma PlaceDisk(outputDir: string, last: FileRef, crop: Crops, before: map<string, Chip>, p: string)
    ensures var m := Place(outputDir, last, crop(last), before).disk;
      && (p in m <==> p in before || SavesAt(outputDir, last, crop, p))
      && (SavesAt(outputDir, last, crop, p) ==> m[p] == SavedChip(last, crop))
      && (p in before && !SavesAt(outputDir, last, crop, p) ==> m[p] == before[p])
  {
  }

  /** Some element of xs has property P exactly when one before the last
      does, or the last does. */
  lemma ExistsSnoc<T>(xs: seq<T>, init: seq<T>, P: T -> bool)
    requires xs != [] && init == xs[..|xs| - 1]
    ensures (exists k :: 0 <= k < |xs| && P(xs[k])) <==>
      ((exists k :: 0 <= k < |init| && P(init[k])) || P(xs[|xs| - 1]))
  {
    if exists k :: 0 <= k < |init| && P(init[k]) {
      var k :| 0 <= k < |init| && P(init[k]);
      assert init[k] == xs[k];
    }
    if exists k :: 0 <= k < |xs| && P(xs[k]) {
      var k :| 0 <= k < |xs| && P(xs[k]);
      if k < |init| {
        assert init[k] == xs[k];
      }
    }
  }

  /** A run in which only the last file may raise handles every file: all
      but the last complete, and the last file's Place ends it. */
  lemma ApplyLastStep(outputDir: string, refs: seq<FileRef>, crop: Crops, chips: map<string, Chip>)
    requires refs != [] && NoEarlyRaise(refs, crop)
    ensures ApplyFiles(outputDir, refs[..|refs| - 1], crop, chips).fault.None?
    ensures NoEarlyRaise(refs[..|refs| - 1], crop)
    ensures ApplyFiles(outputDir, refs, crop, chips)
      == Place(outputDir, refs[|refs| - 1], crop(refs[|refs| - 1]),
               ApplyFiles(outputDir, refs[..|refs| - 1], crop, chips).disk)
  {
    var init := refs[..|refs| - 1];
    assert forall j :: 0 <= j < |init| ==> init[j] == refs[j];
    ApplyRaised(outputDir, init, crop, chips);
  }

  /** After a run that handled every file, a path holds a chip exactly when
      it held one before or some file saved at it. */
  lemma {:induction false} ApplyKeys(outputDir: string, refs: seq<FileRef>, crop: Crops,
                                     chips: map<string, Chip>, p: string)
    requires NoEarlyRaise(refs, crop)
    ensures p in ApplyFiles(outputDir, refs, crop, chips).disk <==>
      (p in chips || exists k :: 0 <= k < |refs| && SavesAt(outputDir, refs[k], crop, p))
    decreases |refs|
  {
    if refs != [] {
      var init := refs[..|refs| - 1];
      ApplyLastStep(outputDir, refs, crop, chips);
      ApplyKeys(outputDir, init, crop, chips, p);
      PlaceDisk(outputDir, refs[|refs| - 1], crop, ApplyFiles(outputDir, init, crop, chips).disk, p);
      ExistsSnoc(refs, init, (r: FileRef) => SavesAt(outputDir, r, crop, p));
    }
  }

  /** After a run that handled every file, a path some file saved at holds
      the chip of the last such file. */
  lemma {:induction false} ApplyChip(outputDir: string, refs: seq<FileRef>, crop: Crops,
                                     chips: map<string, Chip>, p: string, k: int)
    requires NoEarlyRaise(refs, crop)
    requires LastSaveAt(outputDir, refs, crop, p, k)
    ensures var m := ApplyFiles(outputDir, refs, crop, chips).disk;
      p in m && m[p] == SavedChip(refs[k], crop)
    decreases |refs|
  {
    var init := refs[..|refs| - 1];
    var last := refs[|refs| - 1];
    ApplyLastStep(outputDir, refs, crop, chips);
    var before := ApplyFiles(outputDir, init, crop, chips).disk;
    PlaceDisk(outputDir, last, crop, before, p);
    if k < |init| {
      LastSaveBeforeLast(outputDir, refs, crop, p, k);
      ApplyChip(outputDir, init, crop, chips, p, k);
    } else {
      assert SavesAt(outputDir, last, crop, p);
    }
  }

  /** A last saving file before the end of refs is the last one of its
      prefix, and the final file does not save there. */
  lemma LastSaveBeforeLast(outputDir: string, refs: seq<FileRef>, crop: Crops, p: string, k: int)
    requires LastSaveAt(outputDir, refs, crop, p, k) && k < |refs| - 1
    ensures LastSaveAt(outputDir, refs[..|refs| - 1], crop, p, k)
    ensures !SavesAt(outputDir, refs[|refs| - 1], crop, p)
    ensures refs[..|refs| - 1][k] == refs[k]
  {
    var init := refs[..|refs| - 1];
    forall j | k < j < |init| ensures !SavesAt(outputDir, init[j], crop, p) {
      assert init[j] == refs[j];
    }
  }

  /** A run from no chips that handled every file leaves exactly the chips
      its files saved. */
  lemma ApplyLeaves(outputDir: string, refs: seq<FileRef>, crop: Crops)
    requires NoEarlyRaise(refs, crop)
    ensures Leaves(outputDir, refs, crop, ApplyFiles(outputDir, refs, crop, map[]).disk)
  {
    var m := ApplyFiles(outputDir, refs, crop, map[]).disk;
    forall p ensures p in m <==> exists k :: 0 <= k < |refs| && SavesAt(outputDir, refs[k], crop, p) {
      ApplyKeys(outputDir, refs, crop, map[], p);
    }
    forall p, k | LastSaveAt(outputDir, refs, crop, p, k) ensures p in m && m[p] == SavedChip(refs[k], crop) {
      ApplyChip(outputDir, refs, crop, map[], p, k);
    }
  }

  /** A run of files from no chips raises exactly when some selected
      file's crop raises, with the fault of the first one, and then leaves
      the chips of the files up to and including that one; otherwise it
      leaves the chips of all of them. */
  lemma ApplyMeaning(outputDir: string, refs: seq<FileRef>, crop: Crops)
    ensures var r := ApplyFiles(outputDir, refs, crop, map[]);
      && (r.fault.Some? <==> exists k :: 0 <= k < |refs| && CropRaises(refs[k], crop))
      && (r.fault.Some? ==> exists k :: (FirstRaise(refs, crop, k) && r.fault == crop(refs[k]).fault
                                         && Leaves(outputDir, refs[..k + 1], crop, r.disk)))
      && (r.fault.None? ==> Leaves(outputDir, refs, crop, r.disk))
  {
    ApplyRaised(outputDir, refs, crop, map[]);
    var r := ApplyFiles(outputDir, refs, crop, map[]);
    if r.fault.Some? {
      var k :| FirstRaise(refs, crop, k) && r.fault == crop(refs[k]).fault;
      ApplyStopsAtFirstRaise(outputDir, refs, crop, map[], k);
      var run := refs[..k + 1];
      assert forall j :: 0 <= j <= k ==> run[j] == refs[j];
      assert NoEarlyRaise(run, crop);
      ApplyLeaves(outputDir, run, crop);
      assert FirstRaise(refs, crop, k) && r.fault == crop(refs[k]).fault && Leaves(outputDir, run, crop, r.disk);
    } else {
      assert NoEarlyRaise(refs, crop);
      ApplyLeaves(outputDir, refs, crop);
    }
  }

  /** What preprocess_images leaves, over the files of the walk in visit
      order. It raises exactly when some selected image's crop raises, with
      the fault of the first one; the chips on disk are then those of the
      files up to and including that one, the failing image's own being
      the last box it accepted before the fault. Otherwise an output path
      holds a chip exactly when some selected image saved a box there, and
      that chip is the one of the last such image. */
  lemma PreprocessSpecMeaning(inputDir: string, outputDir: string, walk: seq<WalkStep>, src: ImageSource)
    ensures var refs := WalkFiles(walk);
      var crop := CropsOf(inputDir, src);
      var r := PreprocessSpec(inputDir, outputDir, walk, src);
      && (r.fault.Some? <==> exists k :: 0 <= k < |refs| && CropRaises(refs[k], crop))
      && (r.fault.Some? ==> exists k :: (FirstRaise(refs, crop, k) && r.fault == crop(refs[k]).fault
                                         && Leaves(outputDir, refs[..k + 1], crop, r.disk)))
      && (r.fault.None? ==> Leaves(outputDir, refs, crop, r.disk))
  {
    SpecIsApply(inputDir, outputDir, walk, src);
    ApplyMeaning(outputDir, WalkFiles(walk), CropsOf(inputDir, src));
  }

  /** Some selected file `walk[s].files[i]` of the walk saved a box at p. */
  predicate SavedInWalk(outputDir: string, walk: seq<WalkStep>, crop: Crops, p: string) {
    exists s, i :: 0 <= s < |walk| && 0 <= i < |walk[s].files|
      && SavesAt(outputDir, FileRef(walk[s].rel, walk[s].files[i].name), crop, p)
  }

  /** In the walk's own coordinates: after a completed run, the output paths
      holding chips are exactly those where a selected file of the walk
      saved a box. */
  lemma EverySavedImageLeavesChip(inputDir: string, outputDir: string, walk: seq<WalkStep>, src: ImageSource,
                                  m: map<string, Chip>)
    requires PreprocessSpec(inputDir, outputDir, walk, src) == Written(m, None)
    ensures forall p :: p in m <==> SavedInWalk(outputDir, walk, CropsOf(inputDir, src), p)
  {
    var refs := WalkFiles(walk);
    var crop := CropsOf(inputDir, src);
    PreprocessSpecMeaning(inputDir, outputDir, walk, src);
    assert Leaves(outputDir, refs, crop, m);
    forall p ensures p in m <==> SavedInWalk(outputDir, walk, crop, p) {
      if p in m {
        var k :| 0 <= k < |refs| && SavesAt(outputDir, refs[k], crop, p);
        WalkFilesMembership(walk, refs[k]);
        var s, i :| 0 <= s < |walk| && 0 <= i < |walk[s].files| && refs[k] == FileRef(walk[s].rel, walk[s].files[i].name);
        assert SavesAt(outputDir, FileRef(walk[s].rel, walk[s].files[i].name), crop, p);
      }
      if SavedInWalk(outputDir, walk, crop, p) {
        var s, i :| 0 <= s < |walk| && 0 <= i < |walk[s].files|
          && SavesAt(outputDir, FileRef(walk[s].rel, walk[s].files[i].name), crop, p);
        var r := FileRef(walk[s].rel, walk[s].files[i].name);
        WalkFilesMembership(walk, r);
        var k :| 0 <= k < |refs| && refs[k] == r;
        assert SavesAt(outputDir, refs[k], crop, p);
      }
    }
  }

  /** A run over a walk without selected files writes nothing. */
  lemma {:induction false} NoImagesNoChips(inputDir: string, outputDir: string, walk: seq<WalkStep>, src: ImageSource)
    requires forall s, i :: 0 <= s < |walk| && 0 <= i < |walk[s].files| ==> !Selected(walk[s].files[i].name)
    ensures PreprocessSpec(inputDir, outputDir, walk, src) == Written(map[], None)
    decreases |walk|
  {
    if walk != [] {
      var prefix := walk[..|walk| - 1];
      assert forall s :: 0 <= s < |prefix| ==> prefix[s] == walk[s];
      NoImagesNoChips(inputDir, outputDir, prefix, src);
      var last := walk[|walk| - 1];
      NoSelectedDirUnchanged(inputDir, outputDir, last.rel, last.files, src, map[]);
    }
  }

  lemma {:induction false} NoSelectedDirUnchanged(inputDir: string, outputDir: string, rel: seq<string>,
                                                  files: seq<FileItem>, src: ImageSource, chips: map<string, Chip>)
    requires forall i :: 0 <= i < |files| ==> !Selected(files[i].name)
    ensures PreprocessDir(inputDir, outputDir, rel, files, src, chips) == Written(chips, None)
    decreases |files|
  {
    if files != [] {
      var prefix := files[..|files| - 1];
      assert forall i :: 0 <= i < |prefix| ==> prefix[i] == files[i];
      NoSelectedDirUnchanged(inputDir, outputDir, rel, prefix, src, chips);
    }
  }

  /** The inner loop of preprocess_images over one directory's files. A
      crop that raises ends it, the chip that crop saved first written. */
  method PreprocessDirectory(inputDir: string, outputDir: string, rel: seq<string>, files: seq<FileItem>,
                             src: ImageSource, chips: map<string, Chip>)
    returns (r: Written<map<string, Chip>>)
    ensures r == PreprocessDir(inputDir, outputDir, rel, files, src, chips)
  {
    var current := chips;
    for j := 0 to |files|
      invariant PreprocessDir(inputDir, outputDir, rel, files[..j], src, chips) == Written(current, None)
    {
      DirStep(inputDir, outputDir, rel, files, j, src, chips, current);
      var name := files[j].name;
      if !Selected(name) {
        continue;
      }
      var path := ImagePath(inputDir, rel, name);
      var out := CropAndSaveFaces(path, src.decode(path), src.detect(path), PipelineDetectionThreshold,
                                  ib => src.measure(path, ib), PipelineThresholds);
      assert out == CropFile(inputDir, rel, name, src);
      if out.disk.Some? {
        current := current[OutputPath(outputDir, rel, name) := Chip(rel, name, out.disk.value)];
      }
      if out.fault.Some? {
        DirRaisedStays(inputDir, outputDir, rel, files, j + 1, src, chips);
        return Written(current, out.fault);
      }
    }
    assert files[..|files|] == files;
    r := Written(current, None);
  }

  /** One more file after a part of the directory that has not raised. */
  lemma DirStep(inputDir: string, outputDir: string, rel: seq<string>, files: seq<FileItem>, j: int,
                src: ImageSource, chips: map<string, Chip>, current: map<string, Chip>)
    requires 0 <= j < |files|
    requires PreprocessDir(inputDir, outputDir, rel, files[..j], src, chips) == Written(current, None)
    ensures PreprocessDir(inputDir, outputDir, rel, files[..j + 1], src, chips)
      == PreprocessFile(inputDir, outputDir, rel, files[j].name, src, current)
  {
    assert files[..j + 1][..j] == files[..j];
  }

  lemma {:induction false} DirRaisedStays(inputDir: string, outputDir: string, rel: seq<string>, files: seq<FileItem>,
                                          i: int, src: ImageSource, chips: map<string, Chip>)
    requires 0 <= i <= |files|
    requires PreprocessDir(inputDir, outputDir, rel, files[..i], src, chips).fault.Some?
    ensures PreprocessDir(inputDir, outputDir, rel, files, src, chips)
      == PreprocessDir(inputDir, outputDir, rel, files[..i], src, chips)
    decreases |files| - i
  {
    if i < |files| {
      assert files[..i + 1][..i] == files[..i];
      DirRaisedStays(inputDir, outputDir, rel, files, i + 1, src, chips);
    } else {
      assert files[..i] == files;
    }
  }

  lemma {:induction false} WalkRaisedStays(inputDir: string, outputDir: string, walk: seq<WalkStep>,
                                           i: int, src: ImageSource)
    requires 0 <= i <= |walk|
    requires PreprocessSpec(inputDir, outputDir, walk[..i], src).fault.Some?
    ensures PreprocessSpec(inputDir, outputDir, walk, src) == PreprocessSpec(inputDir, outputDir, walk[..i], src)
    decreases |walk| - i
  {
    if i < |walk| {
      assert walk[..i + 1][..i] == walk[..i];
      WalkRaisedStays(inputDir, outputDir, walk, i + 1, src);
    } else {
      assert walk[..i] == walk;
    }
  }

  /** preprocess_images: the walk loop. A fault (OpenCV raising on a crop)
      propagates out, as in the source, where nothing catches it; the chips
      written before it stay. */
  method PreprocessImages(inputDir: string, outputDir: string, walk: seq<WalkStep>, src: ImageSource)
    returns (r: Written<map<string, Chip>>)
    ensures r == PreprocessSpec(inputDir, outputDir, walk, src)
    ensures ChipsConsistent(outputDir, r.disk)
  {
    var chips: map<string, Chip> := map[];
    for s := 0 to |walk|
      invariant PreprocessSpec(inputDir, outputDir, walk[..s], src) == Written(chips, None)
    {
      assert walk[..s + 1][..s] == walk[..s];
      var out := PreprocessDirectory(inputDir, outputDir, walk[s].rel, walk[s].files, src, chips);
      if out.fault.Some? {
        WalkRaisedStays(inputDir, outputDir, walk, s + 1, src);
        return out;
      }
      chips := out.disk;
    }
    assert walk[..|walk|] == walk;
    r := Written(chips, None);
  }
}
