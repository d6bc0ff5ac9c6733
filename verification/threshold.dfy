/** Fixed-level thresholding of a grayscale image (the `threshold_fixed`
    module): an automatically estimated level is scaled by a correction
    factor, clamped into a range, and pixels strictly above it become
    foreground. The estimator (Otsu's method) is an input here. */
module ThresholdFixed {
  import opened Grids

  /** An optional argument: `None` stands for Python's `None` default. */
  datatype Option<T> = None | Some(value: T)

  /** `np.max` / `np.min` raise on an array without samples. */
  datatype Error = EmptyImage

  datatype Result<T> = Ok(value: T) | Err(error: Error)

  /** The range the corrected level is clamped into. */
  datatype Bounds = Bounds(lo: real, hi: real)

  /** The foreground mask and the level it was cut at. */
  datatype Output = Output(mask: Grid<bool>, level: real)

  /** `np.max` over a non-empty sequence of samples. */
  function MaxOf(s: seq<int>): (m: int)
    requires |s| > 0
    ensures m in s
    ensures forall x :: x in s ==> x <= m
  {
    if |s| == 1 then s[0]
    else
      var rest := MaxOf(s[1..]);
      assert forall x :: x in s ==> x == s[0] || x in s[1..];
      if s[0] >= rest then s[0] else rest
  }

  /** `np.min` over a non-empty sequence of samples. */
  function MinOf(s: seq<int>): (m: int)
    requires |s| > 0
    ensures m in s
    ensures forall x :: x in s ==> m <= x
  {
    if |s| == 1 then s[0]
    else
      var rest := MinOf(s[1..]);
      assert forall x :: x in s ==> x == s[0] || x in s[1..];
      if s[0] <= rest then s[0] else rest
  }

  /** `v` is the largest sample of `image`. */
  ghost predicate IsImageMax(image: Grid<int>, v: real) {
    && (exists r, c :: InBounds(image, r, c) && image[r][c] as real == v)
    && (forall r, c :: InBounds(image, r, c) ==> image[r][c] as real <= v)
  }

  /** `v` is the smallest sample of `image`. */
  ghost predicate IsImageMin(image: Grid<int>, v: real) {
    && (exists r, c :: InBounds(image, r, c) && image[r][c] as real == v)
    && (forall r, c :: InBounds(image, r, c) ==> v <= image[r][c] as real)
  }

  /** An omitted maximum defaults to the largest sample, an omitted minimum
      to the smallest; the defaults fail on an image without samples. */
  function ResolveBounds(image: Grid<int>, minThreshold: Option<real>, maxThreshold: Option<real>)
    : (r: Result<Bounds>)
    ensures r.Err? <==> |Flatten(image)| == 0 && (minThreshold.None? || maxThreshold.None?)
    ensures r.Ok? && maxThreshold.Some? ==> r.value.hi == maxThreshold.value
    ensures r.Ok? && minThreshold.Some? ==> r.value.lo == minThreshold.value
    ensures r.Ok? && maxThreshold.None? ==> IsImageMax(image, r.value.hi)
    ensures r.Ok? && minThreshold.None? ==> IsImageMin(image, r.value.lo)
  {
    var samples := Flatten(image);
    if |samples| == 0 && (minThreshold.None? || maxThreshold.None?) then Err(EmptyImage)
    else
      var hi := if maxThreshold.Some? then maxThreshold.value else MaxOf(samples) as real;
      var lo := if minThreshold.Some? then minThreshold.value else MinOf(samples) as real;
      Ok(Bounds(lo, hi))
  }

  /** The ordered clamp: the "above the maximum" test runs first, so with
      crossed bounds (`lo > hi`) a level above `hi` still ends at `hi`, and
      only a level not above `hi` but below `lo` is raised to `lo`. */
  function Clamp(level: real, b: Bounds): (r: real)
    ensures level > b.hi ==> r == b.hi
    ensures level <= b.hi && level < b.lo ==> r == b.lo
    ensures b.lo <= level <= b.hi ==> r == level
    ensures b.lo <= b.hi ==> b.lo <= r <= b.hi
    ensures r == level || r == b.lo || r == b.hi
  {
    if level > b.hi then b.hi
    else if level < b.lo then b.lo
    else level
  }

  /** The strict `image > level` mask. */
  function Binarize(image: Grid<int>, level: real): (mask: Grid<bool>)
    ensures SameShape(mask, image)
    ensures forall r, c :: InBounds(image, r, c) ==> (mask[r][c] <==> image[r][c] as real > level)
  {
    seq(|image|, r requires 0 <= r < |image| =>
      seq(|image[r]|, c requires 0 <= c < |image[r]| => image[r][c] as real > level))
  }

  /** The whole stage before hole filling: resolve the bounds, scale the
      estimated level by the correction factor, clamp, and cut. */
  function Threshold(image: Grid<int>, otsu: int, correctionFactor: real,
                     minThreshold: Option<real>, maxThreshold: Option<real>): (r: Result<Output>)
    ensures r.Err? <==> ResolveBounds(image, minThreshold, maxThreshold).Err?
    ensures r.Ok? ==>
      var b := ResolveBounds(image, minThreshold, maxThreshold).value;
      var corrected := otsu as real * correctionFactor;
      && (corrected > b.hi ==> r.value.level == b.hi)
      && (corrected <= b.hi && corrected < b.lo ==> r.value.level == b.lo)
      && (b.lo <= corrected <= b.hi ==> r.value.level == corrected)
      && (b.lo <= b.hi ==> b.lo <= r.value.level <= b.hi)
      && SameShape(r.value.mask, image)
      && forall y, x :: InBounds(image, y, x) ==> (r.value.mask[y][x] <==> image[y][x] as real > r.value.level)
  {
    match ResolveBounds(image, minThreshold, maxThreshold)
    case Err(e) => Err(e)
    case Ok(b) =>
      var level := Clamp(otsu as real * correctionFactor, b);
      Ok(Output(Binarize(image, level), level))
  }

  /** Default bounds are never crossed: the smallest sample is at most the
      largest, so the clamped level lies between them. */
  lemma DefaultBoundsOrdered(image: Grid<int>, otsu: int, correctionFactor: real)
    requires |Flatten(image)| > 0
    ensures
      var r := Threshold(image, otsu, correctionFactor, None, None);
      && r.Ok?
      && IsImageMin(image, ResolveBounds(image, None, None).value.lo)
      && IsImageMax(image, ResolveBounds(image, None, None).value.hi)
      && ResolveBounds(image, None, None).value.lo <= r.value.level <= ResolveBounds(image, None, None).value.hi
  {
  }

  /** Raising the level can only remove foreground pixels. */
  lemma BinarizeAntitone(image: Grid<int>, level1: real, level2: real)
    requires level1 <= level2
    ensures forall r, c :: InBounds(image, r, c) && Binarize(image, level2)[r][c] ==> Binarize(image, level1)[r][c]
  {
  }

  /** With the default maximum, a corrected level at or above the largest
      sample leaves nothing in the mask (before hole filling). */
  lemma DefaultMaxEmptiesMask(image: Grid<int>, otsu: int, correctionFactor: real,
                              minThreshold: Option<real>)
    requires |Flatten(image)| > 0
    requires forall r, c :: InBounds(image, r, c) ==> image[r][c] as real <= otsu as real * correctionFactor
    ensures
      var out := Threshold(image, otsu, correctionFactor, minThreshold, None);
      out.Ok? && forall r, c :: InBounds(image, r, c) ==> !out.value.mask[r][c]
  {
  }
}
