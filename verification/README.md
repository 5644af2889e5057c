# LungSight core, modelled in Dafny

LungSight is a desktop application that takes a chest X-ray and shows a lung
segmentation mask, a coloured overlay of that mask, and a tuberculosis
Positive/Negative label with a confidence. This project models the logic
around the two neural networks. The networks, OpenCV and the GUI are left out.

- `images.dfy` (module `Images`): 8-bit three-channel pixels, grids stored row
  by row, and the two OpenCV operations the pipeline uses. Grayscale conversion is a
  parameter `gray`, and the only thing assumed of it is `KeepsGrey`: a pixel
  (v, v, v) converts to v. `addWeighted` is a rounding parameter `round`
  followed by saturation to 0..255.
- `segmentation.dfy` (module `Segmentation`): the preprocessing done before
  inference (grayscale, divide by 255, batch axis), the post-processing of
  probabilities into a grey byte mask, and `getColoredMask`. The `np.where`
  call and the fancy-index write are modelled as written: a list of
  coordinates with one entry per non-zero channel, painted in order.
- `metrics.dfy` (module `Metrics`): the smoothed Jaccard index and Dice
  coefficient over the flattened tensors, as reals. A zero denominator gives
  `None`, standing for the non-finite result of float division.
- `controller.dfy` (module `Controller`): the path guard and file-name
  truncation of `browseFile`, the pipeline order of `loadInsight`, and the
  strict 0.5 threshold with its confidence. The screen is reduced to its
  caption, loading label, shown results and error dialogs.
- `outcomes.dfy` (module `Outcomes`): `Option` and `Result`; a failed step
  passes its error on through `:-`.

The networks are function parameters. The segmentation network is assumed
to return probabilities in [0, 1] on the image it is given. The classifier
is typed as returning one real number; what happens when it does not is
listed under "## Left out".

OpenCV raises on an image without pixels, so `Preprocess`, `PostProcess`,
`Predict` and `ColoredMask` fail with `EmptyImage` rather than demanding a
non-empty input. The guard `HasPixels` asks for a row and a non-empty first
row. Numpy arrays are rectangular, and on a rectangular grid this is the same
as holding a pixel (`Images.HasPixelsOnRectangular`); ragged sequences do not
arise from the source.

`browseFile` sets the upload caption and the "Loading..." label
(controller/MainController.py:82-84) before it calls `loadInsight`. When
`loadInsight` raises, `stopLoading` (controller/MainController.py:90) is
skipped. So the caption shows the new file name and the loading label keeps
reading "Loading..." while the old results stay on screen.
`BrowseFile` and `UndecodableFileKeepsResults` state this behaviour.

## Model

| member | source | states |
|---|---|---|
| Segmentation.Normalize | model/SegmentationModel.py:70-71 | the result has a batch axis of length 1 and the image's shape; every value lies in [0,1], and multiplying by 255 gives back the original byte |
| Segmentation.Preprocess | model/SegmentationModel.py:68-71 | fails with EmptyImage iff the image has no rows or an empty first row; otherwise the network input has shape (1, rows, cols), values in [0,1], each equal to the pixel's grayscale value over 255 |
| Segmentation.ToByte | model/SegmentationModel.py:77 | a probability becomes the greatest byte not above 255·p, so it lies in 0..255 |
| Segmentation.PostProcess | model/SegmentationModel.py:77-78 | fails with EmptyImage iff the probabilities have no rows or an empty first row; otherwise the mask has their shape and each pixel has three equal channels, holding floor(255·p) |
| Segmentation.Predict | model/SegmentationModel.py:67-80 | succeeds iff both the image and the network output pass the `HasPixels` guard, failing otherwise with EmptyImage; the mask has the network output's shape, every pixel is grey, and its value is floor(255·p) of the network's probability at that position |
| Segmentation.Suppress | model/SegmentationModel.py:111-114 | every pixel either keeps its mask value or turns black, and it is non-black exactly when it was non-black with a non-zero grayscale value |
| Segmentation.SuppressKeepsGreyMasks | model/SegmentationModel.py:111-114 | on a mask of grey pixels, with a conversion that keeps grey, suppression changes nothing |
| Segmentation.SuppressIdempotent | model/SegmentationModel.py:111-114 | when black converts to 0, suppressing a second time changes nothing |
| Segmentation.GridHitsExact | model/SegmentationModel.py:117 | the coordinates `np.where` lists over the channels are exactly the non-black pixels |
| Segmentation.NonBlackCoords | model/SegmentationModel.py:117 | every listed coordinate is inside the mask, and a position is listed iff its pixel is not black |
| Segmentation.Paint | model/SegmentationModel.py:120 | writing the colour at the listed coordinates keeps the shape; a pixel becomes the colour iff its position is listed, and is otherwise unchanged |
| Segmentation.PaintIdempotent | model/SegmentationModel.py:117-120 | painting the same coordinates again changes nothing |
| Segmentation.PaintSeesOnlyPositions | model/SegmentationModel.py:117-120 | repeated or reordered coordinates paint the same image |
| Segmentation.ColoredMask | model/SegmentationModel.py:110-125 | fails iff the mask has no rows or an empty first row (EmptyImage) or image and mask differ in shape (SizeMismatch); otherwise each output pixel is 0.6·image + 0.4·(colour if the mask pixel's gray is non-zero and it is not black, else black), rounded and saturated |
| Segmentation.PaintedExactlyWhereGrayNonZero | model/SegmentationModel.py:111-120 | when grey pixels convert to their own value, a mask pixel is painted exactly when its grayscale value is non-zero |
| Segmentation.OverlayWithinOneLevel | model/SegmentationModel.py:111-123 | under any rounding within one unit, each channel of an overlay pixel is within one unit of 0.6·image + 0.4·(colour where the mask is painted, else black) |
| Segmentation.EmptyMaskDimsImage | model/SegmentationModel.py:114-123 | an all-black mask gives 0.6·image per channel, with no highlight colour |
| Segmentation.FullMaskTintsImage | model/SegmentationModel.py:111-123 | a mask that is foreground everywhere gives 0.6·image + 0.4·colour per channel |
| Segmentation.BlendWithinOneLevel | model/SegmentationModel.py:123 | for any rounding within one unit, each output channel is within one unit of 0.6·image + 0.4·mask, so saturation never clips |
| Segmentation.HighlightIffProbabilityReachesOneLevel | model/SegmentationModel.py:77-120 | after post-processing, a pixel is highlighted exactly when 255·p ≥ 1; there is no 0.5 cut-off |
| Segmentation.OverlayIsPerPixel | model/SegmentationModel.py:123 | an overlay pixel depends only on the image pixel and the mask pixel at its own position |
| Metrics.JaccardIndex | common_libs.py:87-111 | undefined (None) exactly when the denominator sum(t)+sum(p)−dot+smooth is zero; otherwise the value times that denominator is dot+smooth |
| Metrics.DiceCoefficient | common_libs.py:115-138 | undefined (None) exactly when sum(t)+sum(p)+smooth is zero; otherwise the value times that denominator is 2·dot+smooth |
| Metrics.JaccardSymmetric | common_libs.py:109-111 | the Jaccard index is unchanged when its two arguments are swapped |
| Metrics.DiceSymmetric | common_libs.py:137-138 | the Dice coefficient is unchanged when its two arguments are swapped |
| Metrics.JaccardInUnitInterval | common_libs.py:109-111 | with elements in [0,1] and smooth > 0, the denominator is at least smooth, so no division by zero, and the index lies in (0,1] |
| Metrics.DiceInUnitInterval | common_libs.py:137-138 | with elements in [0,1] and smooth > 0, the denominator is at least smooth and the coefficient lies in (0,1] |
| Metrics.MetricsOfZeroMasks | common_libs.py:107-138 | two all-zero inputs score exactly 1 on both metrics, for any non-zero smoothing |
| Metrics.MetricsOfIdenticalBinaryMasks | common_libs.py:107-138 | a 0/1 mask compared with itself scores exactly 1 on both metrics, for any positive smoothing |
| Metrics.DefaultsNeverDivideByZero | common_libs.py:87-138 | with the default smoothing constants 100 and 1, inputs in [0,1] never divide by zero |
| Controller.LastSegment | controller/MainController.py:75 | the shown name contains no '/', is a suffix of the path, and is either the whole path or comes right after a '/' |
| Controller.LastSegmentUnique | controller/MainController.py:75 | any slash-free suffix that is the whole path or follows a '/' is the last segment, so the three properties pin it down |
| Controller.ShortName | controller/MainController.py:78-79 | a name of 20 or fewer characters is unchanged; a longer one becomes its first 10 characters plus "..." (13 characters) |
| Controller.ShortNameIdempotent | controller/MainController.py:78-79 | shortening a shortened name changes nothing |
| Controller.ShortNameKeepsCharacters | controller/MainController.py:78-79 | shortening adds no character other than '.' |
| Controller.DisplayName | controller/MainController.py:75-79 | the displayed name is the path's last segment when that has at most 20 characters, and otherwise its first 10 characters followed by "..."; either way it has no '/' and at most 20 characters |
| Controller.UploadCaption | controller/MainController.py:75-82 | the caption is "Uploaded File : " followed by the path's last segment, or by its first 10 characters and "..." when the segment is longer than 20 |
| Controller.Classify | controller/MainController.py:138 | the label is Positive iff its probability strictly exceeds Negative's, so a tie at 0.5 goes to Negative, and the label shown is never the less likely one |
| Controller.Confidence | controller/MainController.py:139 | the confidence is 100 times the probability of the displayed label; for scores in [0,1] it lies in [50,100] |
| Controller.ThresholdExamples | controller/MainController.py:138-139 | 0.5 gives Negative with 50; 0.5000001 gives Positive; 0.9 gives Positive with 90; 0.2 gives Negative with 80 |
| Controller.ClassifierScore | model/ClassificationModel.py:66-83 | fails with EmptyImage iff the image has no rows or an empty first row, and otherwise yields the network's score |
| Controller.NetworksSeeScaledGrey | model/ClassificationModel.py:66-78 | the classifier and the segmentation network are both given exactly the tensor holding each pixel's grayscale value over 255 under a batch axis of one |
| Controller.ClassifierSeesOnlyGrey | model/ClassificationModel.py:69-78 | two images of the same shape with the same grayscale values get the same classifier result |
| Controller.LoadInsight | controller/MainController.py:116-139 | an undecodable file fails with a decode error; otherwise the pipeline succeeds iff the network's mask matches the image's shape, failing with EmptyImage or SizeMismatch; the results carry the same display image, the predicted 512×512 mask, an overlay of the same size, the label Positive iff the score exceeds 0.5, and a confidence that belongs to that label |
| Controller.LoadInsightHighlights | controller/MainController.py:116-125 | end to end, the mask is grey and non-zero exactly where 255·p ≥ 1, and the overlay highlights exactly those pixels of the display image |
| Controller.BrowseFile | controller/MainController.py:61-94 | a path of 3 or fewer characters changes nothing; otherwise the caption shows the file name; success shows the results and "Finished"; failure raises one error dialog, keeps the old results and leaves "Loading..." |
| Controller.UndecodableFileKeepsResults | controller/MainController.py:82-94 | a file that cannot be decoded never replaces the shown results and leaves the loading label on |

## Left out

- The GUI is not modelled: window, widgets, theme and font constants. Images are not converted to `PhotoImage`, and the error dialog's text is not modelled. None of these contain logic that can be stated.
- Keras model loading and custom-object registration are left out. Inference is a function parameter. Only the segmentation output on the given image is assumed to lie in [0,1]. The classifier's score is not clamped, as in the code.
- Controller.LoadInsight: the classifier is typed as returning a single real. A network whose squeezed output has more than one element makes the comparison at controller/MainController.py:138 raise after the three images were already shown at lines 133-135; that partial screen update is not modelled.
- Segmentation.Preprocess: an image without pixels makes `cv2.resize` or `cv2.cvtColor` raise; the model folds every such error into the single `EmptyImage` failure and does not distinguish which call raised.
- `model/ClassificationModel.py` is modelled only as `Controller.ClassifierScore`: the same preprocessing, then the network's squeezed score.
- `cv2.imread` and `cv2.resize` are I/O and interpolation. `LoadInsight` receives the decoded image already resized to 512×512, or nothing when decoding failed. Inside `predict`, resizing an image that is already 512×512 leaves it unchanged, so `Preprocess` omits it.
- The luma weights of `COLOR_BGR2GRAY` are not modelled. Only `KeepsGrey` is assumed.
- The rounding mode of `addWeighted` is a parameter. `BlendWithinOneLevel` assumes only that it rounds to within one unit.
- Float32/float64 rounding is not modelled: all arithmetic is on exact reals. The `.2f` formatting of the confidence is also left out.
- The metrics are defined on the flattened vectors. So they depend only on the flat element sequence, whatever the tensor shape. Reshaping itself is not modelled.
- The metrics require both vectors to have the same length. Numpy-style broadcasting of a length-1 tensor is not modelled.
- `getColoredMask` takes its `color` as a pixel of bytes. A colour tuple outside 0..255 is not modelled.
- Squeezing the network output to a 2-D grid is folded into the network parameter.
