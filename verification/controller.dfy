/**
 * The controller's decisions: which chosen paths are processed, how the file
 * name is shown, the order of the prediction pipeline, and how the
 * classifier's score becomes a label and a confidence. Widgets are reduced
 * to the state they display.
 */
module Controller {
  import opened Outcomes
  import opened Images
  import Segmentation

  /** Side of the square display image every prediction starts from. */
  const Side: nat := 512
  /** A path of this many characters or fewer is ignored. */
  const IgnoredPathLength: nat := 3
  /** File names longer than this are truncated for display. */
  const MaxNameLength: nat := 20
  /** Characters of a long file name kept before the ellipsis. */
  const KeptNameLength: nat := 10
  /** Classification threshold; only scores strictly above it are positive. */
  const Threshold: real := 0.5

  // ---------------------------------------------------------------------------
  // File name shown to the user
  // ---------------------------------------------------------------------------

  /** The last '/'-separated segment of a path: the text after its last '/', or the whole path if it has none. */
  function LastSegment(path: string): (name: string)
    ensures '/' !in name
    ensures |name| <= |path| && path[|path| - |name|..] == name
    ensures name == path || path[|path| - |name| - 1] == '/'
    decreases |path|
  {
    if |path| == 0 then ""
    else if path[|path| - 1] == '/' then ""
    else
      var init := path[..|path| - 1];
      assert path == init + [path[|path| - 1]];
      LastSegment(init) + [path[|path| - 1]]
  }

  /**
   * The three properties of `LastSegment` pin it down: any slash-free suffix
   * that is the whole path or follows a '/' is the last segment.
   */
  lemma LastSegmentUnique(path: string, s: string)
    requires '/' !in s
    requires |s| <= |path| && path[|path| - |s|..] == s
    requires s == path || path[|path| - |s| - 1] == '/'
    ensures s == LastSegment(path)
  {
    var n := LastSegment(path);
    if |s| < |n| {
      assert false;
    } else if |n| < |s| {
      assert false;
    }
  }

  /** Long names are cut to their first 10 characters plus "..."; short ones are kept. */
  function ShortName(name: string): (shown: string)
    ensures |shown| <= MaxNameLength
    ensures shown == name <==> |name| <= MaxNameLength
    ensures |name| > MaxNameLength ==>
      |shown| == KeptNameLength + 3 && shown[..KeptNameLength] == name[..KeptNameLength] && shown[KeptNameLength..] == "..."
  {
    if |name| > MaxNameLength then name[..KeptNameLength] + "..." else name
  }

  /** Shortening an already shortened name changes nothing. */
  lemma ShortNameIdempotent(name: string)
    ensures ShortName(ShortName(name)) == ShortName(name)
  {
  }

  /** Shortening never introduces a character the name did not have, other than '.'. */
  lemma ShortNameKeepsCharacters(name: string)
    ensures forall c :: c in ShortName(name) ==> c in name || c == '.'
  {
    if |name| > MaxNameLength {
      var head := name[..KeptNameLength];
      assert ShortName(name) == head + "...";
      assert forall c :: c in head ==> c in name;
    }
  }

  /** The name shown for a chosen path: its last segment, shortened. */
  function DisplayName(path: string): (shown: string)
    ensures '/' !in shown
    ensures |shown| <= MaxNameLength
    ensures |LastSegment(path)| <= MaxNameLength ==> shown == LastSegment(path)
    ensures |LastSegment(path)| > MaxNameLength ==>
      |shown| == KeptNameLength + 3 && shown[..KeptNameLength] == LastSegment(path)[..KeptNameLength] && shown[KeptNameLength..] == "..."
  {
    ShortNameKeepsCharacters(LastSegment(path));
    ShortName(LastSegment(path))
  }

  /** Start of the upload label's text. */
  const UploadPrefix: string := "Uploaded File : "

  /**
   * Text of the upload label once a file is accepted: the prefix, then the
   * file's last path segment, cut to 10 characters and "..." when longer than 20.
   */
  function UploadCaption(path: string): (caption: string)
    ensures |UploadPrefix| <= |caption| <= |UploadPrefix| + MaxNameLength
    ensures caption[..|UploadPrefix|] == UploadPrefix
    ensures '/' !in caption[|UploadPrefix|..]
    ensures |LastSegment(path)| <= MaxNameLength ==> caption[|UploadPrefix|..] == LastSegment(path)
    ensures |LastSegment(path)| > MaxNameLength ==>
      |caption| == |UploadPrefix| + KeptNameLength + 3 &&
      caption[|UploadPrefix|..][..KeptNameLength] == LastSegment(path)[..KeptNameLength] &&
      caption[|UploadPrefix|..][KeptNameLength..] == "..."
  {
    var name := DisplayName(path);
    assert (UploadPrefix + name)[|UploadPrefix|..] == name;
    UploadPrefix + name
  }

  // ---------------------------------------------------------------------------
  // Label and confidence
  // ---------------------------------------------------------------------------

  datatype Diagnosis = Positive | Negative

  /** The probability the score gives to a label. */
  function ProbabilityOf(d: Diagnosis, tb: real): real {
    if d == Positive then tb else 1.0 - tb
  }

  /** The label other than `d`. */
  function Other(d: Diagnosis): Diagnosis {
    if d == Positive then Negative else Positive
  }

  /**
   * The label for a classifier score: the strictly more likely one, so a
   * tie at 0.5 goes to Negative.
   */
  function Classify(tb: real): (d: Diagnosis)
    ensures d == Positive <==> ProbabilityOf(Positive, tb) > ProbabilityOf(Negative, tb)
    ensures ProbabilityOf(d, tb) >= ProbabilityOf(Other(d), tb)
  {
    if tb > Threshold then Positive else Negative
  }

  /** The percentage shown next to the label: the score when Positive, its complement when Negative. */
  function Confidence(tb: real): (c: real)
    ensures c == 100.0 * ProbabilityOf(Classify(tb), tb)
    ensures 0.0 <= tb <= 1.0 ==> 50.0 <= c <= 100.0
  {
    if tb > Threshold then tb * 100.0 else (1.0 - tb) * 100.0
  }

  /** Worked examples at and around the threshold. */
  lemma ThresholdExamples()
    ensures Classify(0.5) == Negative && Confidence(0.5) == 50.0
    ensures Classify(0.5000001) == Positive
    ensures Classify(0.9) == Positive && Confidence(0.9) == 90.0
    ensures Classify(0.2) == Negative && Confidence(0.2) == 80.0
  {
  }

  // ---------------------------------------------------------------------------
  // The prediction pipeline
  // ---------------------------------------------------------------------------

  /** What one prediction cycle puts on screen. */
  datatype Insight = Insight(original: Image, mask: Image, overlay: Image, diagnosis: Diagnosis, confidence: real)

  /**
   * Classification `predict`: the same preprocessing as segmentation, then
   * the network's squeezed score. It fails only on an image without pixels.
   */
  function ClassifierScore(img: Image, net: Segmentation.Tensor -> real, gray: Pixel -> byte): (r: Result<real, ImageError>)
    ensures r.Success? <==> HasPixels(img)
    ensures r.Failure? ==> r.error == EmptyImage
    ensures r.Success? ==> r.value == net(Segmentation.Preprocess(img, gray).value)
  {
    var t :- Segmentation.Preprocess(img, gray);
    Success(net(t))
  }

  /**
   * Both networks see one and the same input: the tensor holding, under a
   * batch axis of one, each pixel's grayscale value divided by 255. Any
   * tensor with that shape and those values is the one they are given.
   */
  lemma NetworksSeeScaledGrey(img: Image, segNet: Segmentation.Tensor -> seq<seq<real>>,
                              clfNet: Segmentation.Tensor -> real, gray: Pixel -> byte, t: Segmentation.Tensor)
    requires HasPixels(img) && |t| == 1 && SameShape(t[0], img)
    requires forall i, j :: 0 <= i < |img| && 0 <= j < |img[i]| ==> t[0][i][j] * 255.0 == gray(img[i][j]) as real
    ensures ClassifierScore(img, clfNet, gray) == Success(clfNet(t))
    ensures Segmentation.Infer(img, segNet, gray) == segNet(t)
  {
    var u := Segmentation.Preprocess(img, gray).value;
    GridsEqual(t[0], u[0]);
    assert t == [t[0]];
  }

  /** The classifier sees the image only through its grayscale values. */
  lemma ClassifierSeesOnlyGrey(a: Image, b: Image, net: Segmentation.Tensor -> real, gray: Pixel -> byte)
    requires SameShape(a, b)
    requires forall i, j :: 0 <= i < |a| && 0 <= j < |a[i]| ==> gray(a[i][j]) == gray(b[i][j])
    ensures ClassifierScore(a, net, gray) == ClassifierScore(b, net, gray)
  {
    if HasPixels(a) {
      var t := Segmentation.Preprocess(a, gray).value;
      NetworksSeeScaledGrey(b, _ => [], net, gray, t);
    }
  }

  /** The assumption about the segmentation network: on this image it yields probabilities. */
  predicate SegmentationBehaves(img: Image, segNet: Segmentation.Tensor -> seq<seq<real>>, gray: Pixel -> byte) {
    HasPixels(img) ==> Segmentation.Probabilities(Segmentation.Infer(img, segNet, gray))
  }

  /**
   * `loadInsight`: `display` is the decoded image already resized to
   * 512 x 512 (absent when decoding failed). Both networks see that same
   * image; the overlay is built from it and from the segmentation mask.
   * The pipeline fails when the file could not be decoded, when the
   * network's mask has no pixels, or when it does not match the image's size.
   */
  function LoadInsight(display: Option<Image>, segNet: Segmentation.Tensor -> seq<seq<real>>,
                       clfNet: Segmentation.Tensor -> real, gray: Pixel -> byte, round: real -> int)
    : (r: Result<Insight, ImageError>)
    requires display.Some? ==> IsSquare(display.value, Side) && SegmentationBehaves(display.value, segNet, gray)
    ensures display.None? ==> r == Failure(DecodeFailed)
    ensures display.Some? ==>
      (r.Success? <==> SameShape(display.value, Segmentation.Infer(display.value, segNet, gray)))
    ensures display.Some? && r.Failure? ==>
      r.error == (if HasPixels(Segmentation.Infer(display.value, segNet, gray)) then SizeMismatch else EmptyImage)
    ensures r.Success? ==> r.value.original == display.value
    ensures r.Success? ==> r.value.mask == Segmentation.Predict(display.value, segNet, gray).value
    ensures r.Success? ==> IsSquare(r.value.mask, Side) && IsSquare(r.value.overlay, Side)
    ensures r.Success? ==>
      r.value.confidence == 100.0 * ProbabilityOf(r.value.diagnosis, ClassifierScore(display.value, clfNet, gray).value)
    ensures r.Success? ==>
      (r.value.diagnosis == Positive <==> ClassifierScore(display.value, clfNet, gray).value > Threshold)
  {
    match display
    case None => Failure(DecodeFailed)
    case Some(img) =>
      var mask :- Segmentation.Predict(img, segNet, gray);
      // cannot fail here: it fails only on an image without pixels, where `Predict` already did
      var tb := ClassifierScore(img, clfNet, gray).value;
      var overlay :- Segmentation.ColoredMask(img, mask, Segmentation.Highlight, gray, round);
      Success(Insight(img, mask, overlay, Classify(tb), Confidence(tb)))
  }

  /**
   * End to end: the displayed mask is grey, non-zero exactly where the
   * network's probability reaches 1/255, and the overlay highlights exactly
   * those pixels of the display image.
   */
  lemma LoadInsightHighlights(img: Image, segNet: Segmentation.Tensor -> seq<seq<real>>,
                              clfNet: Segmentation.Tensor -> real, gray: Pixel -> byte, round: real -> int)
    requires IsSquare(img, Side) && SegmentationBehaves(img, segNet, gray) && KeepsGrey(gray)
    requires SameShape(img, Segmentation.Infer(img, segNet, gray))
    ensures var r := LoadInsight(Some(img), segNet, clfNet, gray, round);
      var probs := Segmentation.Infer(img, segNet, gray);
      r.Success? &&
      forall i, j :: 0 <= i < Side && 0 <= j < Side ==>
        r.value.mask[i][j] == Grey(r.value.mask[i][j].c0) &&
        (r.value.mask[i][j].c0 != 0 <==> probs[i][j] * 255.0 >= 1.0) &&
        r.value.overlay[i][j] == Segmentation.Blend(img[i][j],
          if probs[i][j] * 255.0 >= 1.0 then Segmentation.Highlight else Black, round)
  {
    var probs := Segmentation.Infer(img, segNet, gray);
    Segmentation.HighlightIffProbabilityReachesOneLevel(img, probs, Segmentation.Highlight, gray, round);
  }

  // ---------------------------------------------------------------------------
  // The upload callback
  // ---------------------------------------------------------------------------

  /** Text of the loading label. */
  datatype Status = Idle | Loading | Finished

  /** What the home view displays: upload caption, loading label, last results, error dialogs raised. */
  datatype Screen = Screen(caption: string, status: Status, shown: Option<Insight>, errorDialogs: nat)

  /**
   * `browseFile` once a path has been chosen. A path of three characters or
   * fewer (a cancelled dialog gives "") changes nothing.
   * Otherwise the caption and the loading label are updated before the
   * pipeline runs; on success the results are shown and the label reads
   * "Finished"; on failure one error dialog is raised, the previous results
   * stay, and the loading label keeps reading "Loading...".
   */
  function BrowseFile(s: Screen, path: string, display: Option<Image>,
                      segNet: Segmentation.Tensor -> seq<seq<real>>, clfNet: Segmentation.Tensor -> real,
                      gray: Pixel -> byte, round: real -> int): (s': Screen)
    requires display.Some? ==> IsSquare(display.value, Side) && SegmentationBehaves(display.value, segNet, gray)
    ensures |path| <= IgnoredPathLength ==> s' == s
    ensures |path| > IgnoredPathLength ==> s'.caption == UploadCaption(path)
    ensures |path| > IgnoredPathLength ==>
      var r := LoadInsight(display, segNet, clfNet, gray, round);
      if r.Success? then s'.status == Finished && s'.shown == Some(r.value) && s'.errorDialogs == s.errorDialogs
      else s'.status == Loading && s'.shown == s.shown && s'.errorDialogs == s.errorDialogs + 1
  {
    if |path| <= IgnoredPathLength then s
    else
      var busy := s.(caption := UploadCaption(path), status := Loading);
      match LoadInsight(display, segNet, clfNet, gray, round)
      case Success(insight) => busy.(status := Finished, shown := Some(insight))
      case Failure(_) => busy.(errorDialogs := s.errorDialogs + 1)
  }

  /** A file that cannot be decoded never yields results, whatever the networks. */
  lemma UndecodableFileKeepsResults(s: Screen, path: string, segNet: Segmentation.Tensor -> seq<seq<real>>,
                                    clfNet: Segmentation.Tensor -> real, gray: Pixel -> byte, round: real -> int)
    requires |path| > IgnoredPathLength
    ensures var s' := BrowseFile(s, path, None, segNet, clfNet, gray, round);
      s'.shown == s.shown && s'.status == Loading && s'.errorDialogs == s.errorDialogs + 1
  {
  }
}
