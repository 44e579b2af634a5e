/**
 Model of the aspect-aware preprocessor: resize an image along its shorter
 side, crop the other axis, and resize the crop to a fixed (width, height).

 The two external resizes (`imutils.resize` with one side given, and
 `cv2.resize` with both) are function values in a `Resizers` record; their
 pixels are floating-point interpolation and are not modelled, so they are
 specified only by the dimensions of what they return. The integer
 arithmetic between them (branch choice, crop deltas, slice bounds) is
 modelled exactly as the code computes it.
 */
module AspectAwarePreprocessor {
  import opened PyOps

  /** OpenCV interpolation flags the constructor may be given. */
  datatype Inter = Nearest | Linear | Cubic | Area | Lanczos4

  /** One pixel: its channel values. */
  type Pixel = seq<int>

  /** An image of `Height()` rows of `width` pixels each (NumPy shape `(h, w, ...)`).
      The width is stored because a crop may keep no rows at all. */
  datatype Image = Image(width: nat, rows: seq<seq<Pixel>>) {
    function Height(): nat {
      |rows|
    }

    predicate Valid() {
      forall r :: 0 <= r < |rows| ==> |rows[r]| == width
    }

    /** What a decoded image is, and what `cv2.resize` accepts: at least one pixel. */
    predicate NonEmpty() {
      Valid() && width >= 1 && Height() >= 1
    }
  }

  /** A configured stage: target width, target height, interpolation. */
  datatype Preprocessor = Preprocessor(width: int, height: int, inter: Inter)

  /** The constructor keeps its arguments as given; interpolation defaults to area. */
  function New(width: int, height: int, inter: Inter := Area): (p: Preprocessor)
    ensures p.width == width && p.height == height && p.inter == inter
  {
    Preprocessor(width, height, inter)
  }

  lemma DefaultInterpolationIsArea(width: int, height: int)
    ensures New(width, height).inter == Area
  {
  }

  // ---------------------------------------------------------------------------
  // External resizes, specified by output dimensions only
  // ---------------------------------------------------------------------------

  datatype Resizers = Resizers(
    toWidth: (Image, nat, Inter) -> Image,    // imutils.resize(image, width=t, inter=...)
    toHeight: (Image, nat, Inter) -> Image,   // imutils.resize(image, height=t, inter=...)
    toSize: (Image, nat, nat, Inter) -> Image // cv2.resize(image, (width, height), ...)
  ) {
    ghost predicate Faithful() {
      AnchorsWidth(toWidth) && AnchorsHeight(toHeight) && ResizesExactly(toSize)
    }
  }

  /** Resizing a portrait image to width t gives width t and, the aspect ratio being
      kept, a height of at least t. */
  ghost predicate AnchorsWidth(f: (Image, nat, Inter) -> Image) {
    forall img: Image, t: nat, inter: Inter ::
      img.NonEmpty() && img.width < img.Height() && t >= 1 ==>
        f(img, t, inter).Valid() && f(img, t, inter).width == t && f(img, t, inter).Height() >= t
  }

  /** Resizing a square or landscape image to height t gives height t and a width of
      at least t. */
  ghost predicate AnchorsHeight(f: (Image, nat, Inter) -> Image) {
    forall img: Image, t: nat, inter: Inter ::
      img.NonEmpty() && img.Height() <= img.width && t >= 1 ==>
        f(img, t, inter).Valid() && f(img, t, inter).Height() == t && f(img, t, inter).width >= t
  }

  /** `cv2.resize(image, (w, h))` of a non-empty image has h rows of w pixels. */
  ghost predicate ResizesExactly(f: (Image, nat, nat, Inter) -> Image) {
    forall img: Image, w: nat, h: nat, inter: Inter ::
      img.NonEmpty() && w >= 1 && h >= 1 ==>
        f(img, w, h, inter).Valid() && f(img, w, h, inter).width == w && f(img, w, h, inter).Height() == h
  }

  // ---------------------------------------------------------------------------
  // The preprocess pipeline
  // ---------------------------------------------------------------------------

  /** Which side the first resize fixes. */
  datatype Branch = ByWidth | ByHeight

  /** The width is the anchor iff it is strictly the shorter side; a square image is
      resized by height. Either way the anchored side is never the longer one. */
  function ChooseBranch(h: nat, w: nat): (b: Branch)
    ensures b == ByWidth <==> w < h
    ensures b == ByWidth ==> w <= h
    ensures b == ByHeight ==> h <= w
  {
    if w < h then ByWidth else ByHeight
  }

  /** The first resize, along the side `ChooseBranch` picks. */
  function FirstResize(p: Preprocessor, img: Image, rs: Resizers): Image
    requires p.width >= 1 && p.height >= 1
  {
    match ChooseBranch(img.Height(), img.width)
    case ByWidth => rs.toWidth(img, p.width, p.inter)
    case ByHeight => rs.toHeight(img, p.height, p.inter)
  }

  /** Crop deltas: `dh` rows off each end, `dw` columns off each end. */
  datatype Deltas = Deltas(dh: int, dw: int)

  /** The deltas as the code computes them. Only the branch's own delta is assigned,
      the other stays 0, and both subtract the ORIGINAL height h0, halving toward
      zero: from the resized width in the width branch, from the resized height in
      the height branch. */
  function CropDeltas(b: Branch, resized: Image, h0: nat): (d: Deltas)
    ensures b == ByWidth ==> d.dw == 0 && IsTruncHalf(resized.width - h0, d.dh)
    ensures b == ByHeight ==> d.dh == 0 && IsTruncHalf(resized.Height() - h0, d.dw)
  {
    match b
    case ByWidth => Deltas(TruncHalf(resized.width - h0), 0)
    case ByHeight => Deltas(0, TruncHalf(resized.Height() - h0))
  }

  /** `image[dh:h - dh, dw:w - dw]` with Python's slice normalisation on both axes. */
  function Crop(img: Image, d: Deltas): Image {
    var kept := Slice(img.rows, d.dh, img.Height() - d.dh);
    Image(SliceLength(img.width, d.dw, img.width - d.dw),
          seq(|kept|, r requires 0 <= r < |kept| => Slice(kept[r], d.dw, img.width - d.dw)))
  }

  /** The resized image after its crop. */
  function Cropped(p: Preprocessor, img: Image, rs: Resizers): Image
    requires p.width >= 1 && p.height >= 1
  {
    var resized := FirstResize(p, img, rs);
    Crop(resized, CropDeltas(ChooseBranch(img.Height(), img.width), resized, img.Height()))
  }

  /** `preprocess(image)`: whatever the input's aspect ratio, the output has exactly
      `height` rows of `width` pixels. The final resize never sees an empty crop. */
  function Preprocess(p: Preprocessor, img: Image, rs: Resizers): (out: Image)
    requires p.width >= 1 && p.height >= 1
    requires img.NonEmpty()
    requires rs.Faithful()
    ensures out.Valid()
    ensures out.width == p.width && out.Height() == p.height
  {
    CropNeverEmpty(p, img, rs);
    rs.toSize(Cropped(p, img, rs), p.width, p.height, p.inter)
  }

  // ---------------------------------------------------------------------------
  // Properties
  // ---------------------------------------------------------------------------

  /** Row i of the crop is the kept part of row top + i of the image. One of the parts
      of `CropWindow`, proved separately so that each proof stays small. */
  lemma CropRowsAreSlices(img: Image, d: Deltas)
    ensures var c := Crop(img, d);
            var top := NormIndex(d.dh, img.Height());
            && c.Height() == KeptLength(img.Height(), d.dh)
            && c.width == KeptLength(img.width, d.dw)
            && top + c.Height() <= img.Height()
            && forall i :: 0 <= i < c.Height() ==>
                 c.rows[i] == Slice(img.rows[top + i], d.dw, img.width - d.dw)
  {
    CropWindow1D(img.rows, d.dh);
    CropSliceLength(img.width, d.dw);
  }

  /** The crop is a window of the image: rows [top, top + kept rows) and columns
      [left, left + kept columns), with the kept lengths of `KeptLength`. */
  lemma CropWindow(img: Image, d: Deltas)
    requires img.Valid()
    ensures var c := Crop(img, d);
            var top := NormIndex(d.dh, img.Height());
            var left := NormIndex(d.dw, img.width);
            && c.Valid()
            && c.Height() == KeptLength(img.Height(), d.dh)
            && c.width == KeptLength(img.width, d.dw)
            && top + c.Height() <= img.Height()
            && left + c.width <= img.width
            && (d.dh == 0 ==> top == 0 && c.Height() == img.Height())
            && (d.dw == 0 ==> left == 0 && c.width == img.width)
            && forall i, j :: 0 <= i < c.Height() && 0 <= j < c.width ==>
                 c.rows[i][j] == img.rows[top + i][left + j]
  {
    CropRowsAreSlices(img, d);
    CropRowsRectangular(img, d);
    CropPixels(img, d);
  }

  /** Every row of the crop of a rectangular image has the crop's width (a part of
      `CropWindow`). */
  lemma CropRowsRectangular(img: Image, d: Deltas)
    requires img.Valid()
    ensures var c := Crop(img, d);
            forall i :: 0 <= i < c.Height() ==> |c.rows[i]| == c.width
  {
    var c := Crop(img, d);
    var top := NormIndex(d.dh, img.Height());
    CropRowsAreSlices(img, d);
    forall i | 0 <= i < c.Height()
      ensures |c.rows[i]| == c.width
    {
      CropWindow1D(img.rows[top + i], d.dw);
    }
  }

  /** Pixel (i, j) of the crop is pixel (top + i, left + j) of the image (a part of
      `CropWindow`). */
  lemma CropPixels(img: Image, d: Deltas)
    requires img.Valid()
    ensures var c := Crop(img, d);
            var top := NormIndex(d.dh, img.Height());
            var left := NormIndex(d.dw, img.width);
            && top + c.Height() <= img.Height()
            && left + c.width <= img.width
            && forall i :: 0 <= i < c.Height() ==> forall j :: 0 <= j < c.width ==>
                 c.rows[i][j] == img.rows[top + i][left + j]
  {
    var c := Crop(img, d);
    CropWindow1D(img.rows, d.dh);
    CropSliceLength(img.width, d.dw);
    forall i | 0 <= i < c.Height() {
      CropRowPixels(img, d, i);
    }
  }

  /** Row i of the crop holds pixels left, left + 1, ... of image row top + i: one row
      of `CropPixels`. */
  lemma CropRowPixels(img: Image, d: Deltas, i: nat)
    requires img.Valid()
    requires i < Crop(img, d).Height()
    ensures var c := Crop(img, d);
            var top := NormIndex(d.dh, img.Height());
            var left := NormIndex(d.dw, img.width);
            && top + i < img.Height()
            && forall j :: 0 <= j < c.width ==>
                 left + j < img.width && c.rows[i][j] == img.rows[top + i][left + j]
  {
    var top := NormIndex(d.dh, img.Height());
    CropRowsAreSlices(img, d);
    CropWindow1D(img.rows[top + i], d.dw);
  }

  /** The first resize fixes the shorter side (the height of a square image) to its
      target and leaves the other side at least that long. */
  lemma FirstResizeAnchorsShorterSide(p: Preprocessor, img: Image, rs: Resizers)
    requires p.width >= 1 && p.height >= 1
    requires img.NonEmpty()
    requires AnchorsWidth(rs.toWidth) && AnchorsHeight(rs.toHeight)
    ensures var resized := FirstResize(p, img, rs);
            && resized.Valid()
            && (img.width < img.Height() ==> resized.width == p.width && resized.Height() >= p.width)
            && (img.Height() <= img.width ==> resized.Height() == p.height && resized.width >= p.height)
  {
  }

  /** The deltas come from the anchored target and the original height h0: a delta
      is negative exactly when h0 exceeds that target by 2 or more. */
  lemma DeltasFromOriginalHeight(p: Preprocessor, img: Image, rs: Resizers)
    requires p.width >= 1 && p.height >= 1
    requires img.NonEmpty()
    requires AnchorsWidth(rs.toWidth) && AnchorsHeight(rs.toHeight)
    ensures var b := ChooseBranch(img.Height(), img.width);
            var d := CropDeltas(b, FirstResize(p, img, rs), img.Height());
            && (b == ByWidth ==>
                  d.dw == 0 && IsTruncHalf(p.width - img.Height(), d.dh)
                  && (d.dh < 0 <==> img.Height() >= p.width + 2))
            && (b == ByHeight ==>
                  d.dh == 0 && IsTruncHalf(p.height - img.Height(), d.dw)
                  && (d.dw < 0 <==> img.Height() >= p.height + 2))
  {
    var b := ChooseBranch(img.Height(), img.width);
    if b == ByWidth {
      TruncHalfSign(p.width - img.Height());
    } else {
      TruncHalfSign(p.height - img.Height());
    }
  }

  /** Under the dimension specs of the first resize, the crop keeps at least one row
      and one column. The anchored axis (delta 0) is kept whole; the other keeps
      `KeptLength` of its resized length. */
  lemma CropNeverEmpty(p: Preprocessor, img: Image, rs: Resizers)
    requires p.width >= 1 && p.height >= 1
    requires img.NonEmpty()
    requires AnchorsWidth(rs.toWidth) && AnchorsHeight(rs.toHeight)
    ensures Cropped(p, img, rs).NonEmpty()
    ensures var b := ChooseBranch(img.Height(), img.width);
            var resized := FirstResize(p, img, rs);
            var d := CropDeltas(b, resized, img.Height());
            var c := Cropped(p, img, rs);
            && (b == ByWidth ==> c.width == p.width && c.Height() == KeptLength(resized.Height(), d.dh))
            && (b == ByHeight ==> c.Height() == p.height && c.width == KeptLength(resized.width, d.dw))
  {
    var b := ChooseBranch(img.Height(), img.width);
    var resized := FirstResize(p, img, rs);
    var d := CropDeltas(b, resized, img.Height());
    CropWindow(resized, d);
  }

  /** For a photo much taller than the target (h0 >= 2n + target, n the resized length
      of the cropped axis) the negative delta reaches past the start of the axis, and
      the crop keeps the whole resized image. */
  lemma LargeImagesAreNotCropped(p: Preprocessor, img: Image, rs: Resizers)
    requires p.width >= 1 && p.height >= 1
    requires img.NonEmpty()
    requires AnchorsWidth(rs.toWidth) && AnchorsHeight(rs.toHeight)
    requires var resized := FirstResize(p, img, rs);
             match ChooseBranch(img.Height(), img.width)
             case ByWidth => img.Height() >= 2 * resized.Height() + p.width
             case ByHeight => img.Height() >= 2 * resized.width + p.height
    ensures Cropped(p, img, rs) == FirstResize(p, img, rs)
  {
    var b := ChooseBranch(img.Height(), img.width);
    var resized := FirstResize(p, img, rs);
    var d := CropDeltas(b, resized, img.Height());
    var c := Cropped(p, img, rs);
    CropWindow(resized, d);
    assert c.Height() == resized.Height() && c.width == resized.width;
    forall i | 0 <= i < c.Height()
      ensures c.rows[i] == resized.rows[i]
    {
    }
    assert c.rows == resized.rows;
  }

  // ---------------------------------------------------------------------------
  // The deltas the crop evidently means: excess of the resized side over its target
  // ---------------------------------------------------------------------------

  /** Centred-crop deltas: half the excess of the resized non-anchored side over its
      own target. */
  function CenteredDeltas(b: Branch, resized: Image, p: Preprocessor): (d: Deltas)
    ensures b == ByWidth ==> d.dw == 0 && IsTruncHalf(resized.Height() - p.height, d.dh)
    ensures b == ByHeight ==> d.dh == 0 && IsTruncHalf(resized.width - p.width, d.dw)
  {
    match b
    case ByWidth => Deltas(TruncHalf(resized.Height() - p.height), 0)
    case ByHeight => Deltas(0, TruncHalf(resized.width - p.width))
  }

  /** With centred deltas, a resized image whose non-anchored side is at least its
      target is cropped to the target (or one more, for an odd excess), removing the
      same amount from both ends. */
  lemma CenteredCropKeepsTarget(b: Branch, resized: Image, p: Preprocessor)
    requires p.width >= 1 && p.height >= 1
    requires resized.Valid()
    requires b == ByWidth ==> resized.width == p.width && resized.Height() >= p.height
    requires b == ByHeight ==> resized.Height() == p.height && resized.width >= p.width
    ensures var d := CenteredDeltas(b, resized, p);
            var c := Crop(resized, d);
            var top := NormIndex(d.dh, resized.Height());
            var left := NormIndex(d.dw, resized.width);
            && p.width <= c.width <= p.width + 1
            && p.height <= c.Height() <= p.height + 1
            && top == resized.Height() - (top + c.Height())
            && left == resized.width - (left + c.width)
  {
    var d := CenteredDeltas(b, resized, p);
    CropWindow(resized, d);
  }

  /** A 200-row, 100-column photo, target 64 x 64: the width branch resizes it to
      128 rows of 64. As written, dh = int((64 - 200) / 2.0) = -68, so the crop keeps
      the LAST 68 rows (from row 60), not a centred 64; centred deltas keep rows
      32..95. */
  lemma AsWrittenCropOffCentre()
    ensures var resized := Image(64, seq(128, _ => seq(64, _ => [0])));
            var p := New(64, 64);
            var asWritten := CropDeltas(ChooseBranch(200, 100), resized, 200);
            var centred := CenteredDeltas(ChooseBranch(200, 100), resized, p);
            && asWritten == Deltas(-68, 0)
            && Crop(resized, asWritten).Height() == 68
            && NormIndex(asWritten.dh, 128) == 60
            && centred == Deltas(32, 0)
            && Crop(resized, centred).Height() == 64
            && NormIndex(centred.dh, 128) == 32
  {
  }
}
