/** Expansion of labelled objects into the background (the `expand_objects`
    module): every background pixel closer than `n` to the foreground takes
    the label of its nearest foreground pixel. The Euclidean distance
    transform of the background is an input here. */
module ExpandObjects {
  import opened Grids

  /** The distance transform of the background with index return: at each
      pixel, the distance to the nearest foreground pixel and that pixel's
      row and column. */
  datatype DistanceMaps = DistanceMaps(distance: Grid<real>, nearestRow: Grid<int>, nearestCol: Grid<int>)

  /** The three maps have the label image's shape. */
  predicate Aligned(labels: Grid<int>, maps: DistanceMaps) {
    && SameShape(maps.distance, labels)
    && SameShape(maps.nearestRow, labels)
    && SameShape(maps.nearestCol, labels)
  }

  /** The pixels that are overwritten: background closer than `n`. */
  predicate Masked(labels: Grid<int>, maps: DistanceMaps, n: int, r: int, c: int)
    requires Aligned(labels, maps) && InBounds(labels, r, c)
  {
    labels[r][c] == 0 && maps.distance[r][c] < n as real
  }

  /** Every masked pixel's nearest index addresses a pixel of the image, so
      the fancy-indexed read of the label image is defined. */
  ghost predicate MaskedIndicesInRange(labels: Grid<int>, maps: DistanceMaps, n: int)
    requires Aligned(labels, maps)
  {
    forall r, c :: InBounds(labels, r, c) && Masked(labels, maps, n, r, c) ==>
      InBounds(labels, maps.nearestRow[r][c], maps.nearestCol[r][c])
  }

  /** What the distance transform promises: distances are non-negative and
      every background pixel's index points at a foreground pixel. */
  ghost predicate TransformValid(labels: Grid<int>, maps: DistanceMaps)
    requires Aligned(labels, maps)
  {
    forall r, c :: InBounds(labels, r, c) ==>
      && 0.0 <= maps.distance[r][c]
      && (labels[r][c] == 0 ==>
            && InBounds(labels, maps.nearestRow[r][c], maps.nearestCol[r][c])
            && labels[maps.nearestRow[r][c]][maps.nearestCol[r][c]] != 0)
  }

  /** The label a pixel ends with. */
  function ExpandedAt(labels: Grid<int>, maps: DistanceMaps, n: int, r: int, c: int): int
    requires Aligned(labels, maps) && MaskedIndicesInRange(labels, maps, n) && InBounds(labels, r, c)
  {
    if Masked(labels, maps, n, r, c) then labels[maps.nearestRow[r][c]][maps.nearestCol[r][c]]
    else labels[r][c]
  }

  /** A copy of `labels` in which each masked pixel takes the label at its
      nearest foreground index; the labels are read from the input, not
      from the copy being written. */
  function Expanded(labels: Grid<int>, maps: DistanceMaps, n: int): (out: Grid<int>)
    requires Aligned(labels, maps) && MaskedIndicesInRange(labels, maps, n)
    ensures SameShape(out, labels)
    ensures forall r, c :: InBounds(labels, r, c) && labels[r][c] != 0 ==> out[r][c] == labels[r][c]
    ensures forall r, c :: InBounds(labels, r, c) && labels[r][c] == 0 && maps.distance[r][c] >= n as real ==>
      out[r][c] == 0
    ensures forall r, c :: InBounds(labels, r, c) && labels[r][c] == 0 && maps.distance[r][c] < n as real ==>
      out[r][c] == labels[maps.nearestRow[r][c]][maps.nearestCol[r][c]]
  {
    seq(|labels|, r requires 0 <= r < |labels| =>
      seq(|labels[r]|, c requires 0 <= c < |labels[r]| => ExpandedAt(labels, maps, n, r, c)))
  }

  /** The stage as the source writes it: copy the label image, then assign
      the masked pixels, row by row. */
  method Expand(labels: Grid<int>, maps: DistanceMaps, n: int) returns (out: Grid<int>)
    requires Aligned(labels, maps) && MaskedIndicesInRange(labels, maps, n)
    ensures out == Expanded(labels, maps, n)
    ensures SameShape(out, labels)
    ensures forall r, c :: InBounds(labels, r, c) && labels[r][c] != 0 ==> out[r][c] == labels[r][c]
  {
    out := [];
    var r := 0;
    while r < |labels|
      invariant 0 <= r <= |labels|
      invariant |out| == r
      invariant forall y :: 0 <= y < r ==> out[y] == Expanded(labels, maps, n)[y]
    {
      var row := labels[r];
      var c := 0;
      while c < |row|
        invariant 0 <= c <= |row| == |labels[r]|
        invariant forall x :: 0 <= x < c ==> row[x] == ExpandedAt(labels, maps, n, r, x)
        invariant forall x :: c <= x < |row| ==> row[x] == labels[r][x]
      {
        if labels[r][c] == 0 && maps.distance[r][c] < n as real {
          row := row[c := labels[maps.nearestRow[r][c]][maps.nearestCol[r][c]]];
        }
        c := c + 1;
      }
      out := out + [row];
      r := r + 1;
    }
  }

  /** Only labels already present are written: every value of the output
      occurs in the input. */
  lemma NoNewIds(labels: Grid<int>, maps: DistanceMaps, n: int)
    requires Aligned(labels, maps) && MaskedIndicesInRange(labels, maps, n)
    ensures forall r, c :: InBounds(labels, r, c) ==>
      exists y, x :: InBounds(labels, y, x) && labels[y][x] == Expanded(labels, maps, n)[r][c]
  {
  }

  /** With non-negative distances, a radius of zero or less changes nothing. */
  lemma NonPositiveRadiusIsIdentity(labels: Grid<int>, maps: DistanceMaps, n: int)
    requires Aligned(labels, maps)
    requires forall r, c :: InBounds(labels, r, c) ==> 0.0 <= maps.distance[r][c]
    requires n <= 0
    ensures MaskedIndicesInRange(labels, maps, n)
    ensures Expanded(labels, maps, n) == labels
  {
    var out := Expanded(labels, maps, n);
    forall r | 0 <= r < |labels|
      ensures out[r] == labels[r]
    {
      forall c | 0 <= c < |labels[r]|
        ensures out[r][c] == labels[r][c]
      {
        assert 0.0 <= maps.distance[r][c];
      }
    }
  }

  /** When the transform is valid, every background pixel closer than `n`
      ends in the foreground: the expansion actually grows the objects. */
  lemma CloseBackgroundJoinsObject(labels: Grid<int>, maps: DistanceMaps, n: int)
    requires Aligned(labels, maps) && TransformValid(labels, maps)
    ensures MaskedIndicesInRange(labels, maps, n)
    ensures forall r, c :: InBounds(labels, r, c) && maps.distance[r][c] < n as real ==>
      Expanded(labels, maps, n)[r][c] != 0
  {
  }

  /** Growing the radius keeps every labelled pixel of the smaller
      expansion, with the same label. */
  lemma MonotoneInRadius(labels: Grid<int>, maps: DistanceMaps, n1: int, n2: int)
    requires Aligned(labels, maps) && MaskedIndicesInRange(labels, maps, n2)
    requires n1 <= n2
    ensures MaskedIndicesInRange(labels, maps, n1)
    ensures forall r, c :: InBounds(labels, r, c) && Expanded(labels, maps, n1)[r][c] != 0 ==>
      Expanded(labels, maps, n2)[r][c] == Expanded(labels, maps, n1)[r][c]
  {
  }
}
