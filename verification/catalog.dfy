/** Saving a segmentation as an object catalog (the `save_segmentation`
    module): object ids are enumerated from a label image, each object's
    outline pixels are collected from an outline image, and the per-object
    columns are written under `objects/<name>/...`, but only when the image
    holds at least one object. The outline image, the border flags and the
    centroids come from library routines and are inputs here; the dataset
    writer is an append-only log of keyed writes. */
module SaveSegmentation {
  import opened Grids

  /** Each element is smaller than every later one (sorted, no repeats). */
  predicate StrictlyAscending(s: seq<int>) {
    forall i, j :: 0 <= i < j < |s| ==> s[i] < s[j]
  }

  /** Every element of `s` is `v`. */
  predicate Repeats(s: seq<int>, v: int) {
    forall i :: 0 <= i < |s| ==> s[i] == v
  }

  /** `v` labels at least one pixel of `g`. */
  ghost predicate Occurs(g: Grid<int>, v: int) {
    exists r, c :: InBounds(g, r, c) && g[r][c] == v
  }

  /** Insert `v` into a strictly ascending sequence, keeping it so. */
  function Insert(s: seq<int>, v: int): (r: seq<int>)
    requires StrictlyAscending(s)
    ensures StrictlyAscending(r)
    ensures forall x :: x in r <==> x in s || x == v
  {
    if |s| == 0 then [v]
    else if v < s[0] then [v] + s
    else if v == s[0] then s
    else
      var tail := Insert(s[1..], v);
      assert forall x :: x in s[1..] ==> s[0] < x;
      assert forall x :: x in tail ==> s[0] < x;
      var r := [s[0]] + tail;
      assert forall j :: 0 < j < |r| ==> r[j] == tail[j - 1];
      assert forall j :: 0 < j < |r| ==> r[j] in tail;
      r
  }

  /** The distinct non-zero values of `s` in ascending order. */
  function DistinctNonZero(s: seq<int>): (r: seq<int>)
    ensures StrictlyAscending(r)
    ensures forall x :: x in r <==> x in s && x != 0
  {
    if |s| == 0 then []
    else
      var init := DistinctNonZero(s[..|s| - 1]);
      assert forall x :: x in s <==> x in s[..|s| - 1] || x == s[|s| - 1];
      if s[|s| - 1] == 0 then init else Insert(init, s[|s| - 1])
  }

  /** The object ids of a label image: its non-zero labels, ascending and
      without repeats, each one present in the image. */
  function ObjectIds(labeled: Grid<int>): (ids: seq<int>)
    ensures StrictlyAscending(ids)
    ensures forall v :: v in ids <==> v != 0 && Occurs(labeled, v)
  {
    DistinctNonZero(Flatten(labeled))
  }

  /** Position `(r1, c1)` comes before `(r2, c2)` in row-major order. */
  predicate RowMajorBefore(r1: int, c1: int, r2: int, c2: int) {
    r1 < r2 || (r1 == r2 && c1 < c2)
  }

  /** `(ys, xs)` lists, in row-major order and without repeats, exactly the
      positions of `g` whose sample is `k`. */
  ghost predicate ListsPositionsOf(g: Grid<int>, k: int, ys: seq<int>, xs: seq<int>) {
    && |ys| == |xs|
    && (forall t :: 0 <= t < |ys| ==> InBounds(g, ys[t], xs[t]) && g[ys[t]][xs[t]] == k)
    && (forall s, t :: 0 <= s < t < |ys| ==> RowMajorBefore(ys[s], xs[s], ys[t], xs[t]))
    && (forall r, c :: InBounds(g, r, c) && g[r][c] == k ==>
          exists t :: 0 <= t < |ys| && ys[t] == r && xs[t] == c)
  }

  /** The numpy `where` of the test `g == k`: the row indices and the column indices of the
      samples equal to `k`, as two parallel lists in row-major order. */
  method Where(g: Grid<int>, k: int) returns (ys: seq<int>, xs: seq<int>)
    ensures ListsPositionsOf(g, k, ys, xs)
  {
    ys, xs := [], [];
    var r := 0;
    while r < |g|
      invariant 0 <= r <= |g|
      invariant |ys| == |xs|
      invariant forall t :: 0 <= t < |ys| ==> InBounds(g, ys[t], xs[t]) && g[ys[t]][xs[t]] == k && ys[t] < r
      invariant forall s, t :: 0 <= s < t < |ys| ==> RowMajorBefore(ys[s], xs[s], ys[t], xs[t])
      invariant forall y, x :: 0 <= y < r && InBounds(g, y, x) && g[y][x] == k ==>
        exists t :: 0 <= t < |ys| && ys[t] == y && xs[t] == x
    {
      var c := 0;
      while c < |g[r]|
        invariant 0 <= c <= |g[r]|
        invariant |ys| == |xs|
        invariant forall t :: 0 <= t < |ys| ==>
          InBounds(g, ys[t], xs[t]) && g[ys[t]][xs[t]] == k && RowMajorBefore(ys[t], xs[t], r, c)
        invariant forall s, t :: 0 <= s < t < |ys| ==> RowMajorBefore(ys[s], xs[s], ys[t], xs[t])
        invariant forall y, x :: InBounds(g, y, x) && g[y][x] == k && RowMajorBefore(y, x, r, c) ==>
          exists t :: 0 <= t < |ys| && ys[t] == y && xs[t] == x
      {
        if g[r][c] == k {
          ghost var ys0, xs0 := ys, xs;
          ys, xs := ys + [r], xs + [c];
          assert forall t :: 0 <= t < |ys0| ==> ys[t] == ys0[t] && xs[t] == xs0[t];
          assert ys[|ys| - 1] == r && xs[|xs| - 1] == c;
        }
        c := c + 1;
      }
      r := r + 1;
    }
  }

  /** The outline image keeps the label image's id on every outline pixel
      (`keep_ids=True`). */
  ghost predicate KeepsIds(labeled: Grid<int>, outline: Grid<int>)
    requires SameShape(outline, labeled)
  {
    forall r, c :: InBounds(labeled, r, c) && outline[r][c] != 0 ==> outline[r][c] == labeled[r][c]
  }

  /** The columns the catalog stores for one object set. */
  datatype ObjectSet = ObjectSet(
    objectIds: seq<int>,
    isBorder: seq<bool>,
    siteIds: seq<int>,
    height: nat,
    width: nat,
    outlineY: seq<seq<int>>,
    outlineX: seq<seq<int>>,
    centroidY: seq<real>,
    centroidX: seq<real>)

  /** Enumerate the objects of `labeled` and collect their outline
      coordinates from `outline`; border flags and centroids are carried
      through as computed by their library routines. */
  method BuildObjectSet(labeled: Grid<int>, outline: Grid<int>, jobId: int,
                        borderFlags: seq<bool>, centroidY: seq<real>, centroidX: seq<real>)
    returns (objs: ObjectSet)
    requires IsRect(labeled) && SameShape(outline, labeled)
    ensures objs.objectIds == ObjectIds(labeled)
    ensures |objs.siteIds| == |objs.objectIds| && Repeats(objs.siteIds, jobId)
    ensures objs.height == |labeled| && objs.width == Width(labeled)
    ensures |objs.outlineY| == |objs.outlineX| == |objs.objectIds|
    ensures forall k :: 0 <= k < |objs.objectIds| ==>
      ListsPositionsOf(outline, objs.objectIds[k], objs.outlineY[k], objs.outlineX[k])
    ensures KeepsIds(labeled, outline) ==>
      forall k, t :: 0 <= k < |objs.objectIds| && 0 <= t < |objs.outlineY[k]| && t < |objs.outlineX[k]| ==>
        InBounds(labeled, objs.outlineY[k][t], objs.outlineX[k][t])
        && labeled[objs.outlineY[k][t]][objs.outlineX[k][t]] == objs.objectIds[k]
    ensures objs.isBorder == borderFlags && objs.centroidY == centroidY && objs.centroidX == centroidX
  {
    var ids := ObjectIds(labeled);
    var ys: seq<seq<int>> := [];
    var xs: seq<seq<int>> := [];
    var i := 0;
    while i < |ids|
      invariant 0 <= i <= |ids|
      invariant |ys| == |xs| == i
      invariant forall k :: 0 <= k < i ==> ListsPositionsOf(outline, ids[k], ys[k], xs[k])
    {
      var y, x := Where(outline, ids[i]);
      ys, xs := ys + [y], xs + [x];
      i := i + 1;
    }
    objs := ObjectSet(ids, borderFlags, seq(|ids|, _ => jobId), |labeled|, Width(labeled),
                      ys, xs, centroidY, centroidX);
    if KeepsIds(labeled, outline) {
      forall k, t | 0 <= k < |ids| && 0 <= t < |ys[k]|
        ensures InBounds(labeled, ys[k][t], xs[k][t]) && labeled[ys[k][t]][xs[k][t]] == ids[k]
      {
        assert outline[ys[k][t]][xs[k][t]] == ids[k];
        assert ids[k] in ids;
      }
    }
  }

  /** What a dataset holds: an id column, a flag column, one scalar, a
      ragged column of per-object lists, or a float column. */
  datatype Data =
    | Ints(ints: seq<int>)
    | Flags(flags: seq<bool>)
    | Scalar(scalar: int)
    | Ragged(lists: seq<seq<int>>)
    | Reals(reals: seq<real>)

  /** One `DatasetWriter.write(key, data=...)` call. */
  datatype Write = Write(key: string, data: Data)

  /** The key namespace of object set `name`. */
  function Prefix(name: string): string {
    "objects/" + name + "/"
  }

  /** The nine dataset paths below the prefix, in the order they are written. */
  const Layout: seq<string> := [
    "object_ids",
    "is_border",
    "site_ids",
    "segmentation/image_dimensions/y",
    "segmentation/image_dimensions/x",
    "segmentation/outlines/y",
    "segmentation/outlines/x",
    "segmentation/centroids/y",
    "segmentation/centroids/x"
  ]

  /** The nine writes for one object set. */
  function Writes(name: string, objs: ObjectSet): (ws: seq<Write>)
    ensures |ws| == |Layout| == 9
    ensures forall i :: 0 <= i < |ws| ==> ws[i].key == Prefix(name) + Layout[i]
    ensures forall i :: 0 <= i < |ws| ==> |Prefix(name)| <= |ws[i].key| && ws[i].key[..|Prefix(name)|] == Prefix(name)
    ensures ws[0].data == Ints(objs.objectIds) && ws[1].data == Flags(objs.isBorder)
    ensures ws[2].data == Ints(objs.siteIds)
    ensures ws[3].data == Scalar(objs.height) && ws[4].data == Scalar(objs.width)
    ensures ws[5].data == Ragged(objs.outlineY) && ws[6].data == Ragged(objs.outlineX)
    ensures ws[7].data == Reals(objs.centroidY) && ws[8].data == Reals(objs.centroidX)
  {
    var p := Prefix(name);
    [ Write(p + Layout[0], Ints(objs.objectIds)),
      Write(p + Layout[1], Flags(objs.isBorder)),
      Write(p + Layout[2], Ints(objs.siteIds)),
      Write(p + Layout[3], Scalar(objs.height)),
      Write(p + Layout[4], Scalar(objs.width)),
      Write(p + Layout[5], Ragged(objs.outlineY)),
      Write(p + Layout[6], Ragged(objs.outlineX)),
      Write(p + Layout[7], Reals(objs.centroidY)),
      Write(p + Layout[8], Reals(objs.centroidX)) ]
  }

  /** No two of the nine writes share a key, so none overwrites another. */
  lemma WriteKeysDistinct(name: string, objs: ObjectSet)
    ensures forall i, j :: 0 <= i < j < 9 ==> Writes(name, objs)[i].key != Writes(name, objs)[j].key
  {
  }

  /** The whole module: append the catalog of `labeled` to `log`, or leave
      `log` as it is when the image holds no object. */
  method Save(labeled: Grid<int>, outline: Grid<int>, name: string, jobId: int,
              borderFlags: seq<bool>, centroidY: seq<real>, centroidX: seq<real>,
              log: seq<Write>)
    returns (log': seq<Write>)
    requires IsRect(labeled) && SameShape(outline, labeled)
    ensures |log| <= |log'| && log'[..|log|] == log
    ensures log' == log <==> (forall r, c :: InBounds(labeled, r, c) ==> labeled[r][c] == 0)
    ensures log' != log ==> |log'| == |log| + 9
    ensures log' != log ==>
      forall i :: 0 <= i < 9 ==> log'[|log| + i].key == Prefix(name) + Layout[i]
    ensures log' != log ==>
      && log'[|log|].data.Ints?
      && StrictlyAscending(log'[|log|].data.ints)
      && (forall v :: v in log'[|log|].data.ints <==> v != 0 && Occurs(labeled, v))
    ensures log' != log ==>
      && log'[|log| + 2].data.Ints?
      && |log'[|log| + 2].data.ints| == |log'[|log|].data.ints|
      && Repeats(log'[|log| + 2].data.ints, jobId)
    ensures log' != log ==>
      && log'[|log| + 1].data == Flags(borderFlags)
      && log'[|log| + 7].data == Reals(centroidY)
      && log'[|log| + 8].data == Reals(centroidX)
    ensures log' != log ==>
      log'[|log| + 3].data == Scalar(|labeled|) && log'[|log| + 4].data == Scalar(Width(labeled))
    ensures log' != log ==>
      && log'[|log| + 5].data.Ragged? && log'[|log| + 6].data.Ragged?
      && |log'[|log| + 5].data.lists| == |log'[|log| + 6].data.lists| == |log'[|log|].data.ints|
      && forall k :: 0 <= k < |log'[|log|].data.ints| ==>
           ListsPositionsOf(outline, log'[|log|].data.ints[k],
                            log'[|log| + 5].data.lists[k], log'[|log| + 6].data.lists[k])
  {
    var objs := BuildObjectSet(labeled, outline, jobId, borderFlags, centroidY, centroidX);
    if |objs.objectIds| > 0 {
      log' := log + Writes(name, objs);
      assert log'[|log|..] == Writes(name, objs);
      assert objs.objectIds[0] in objs.objectIds;
    } else {
      log' := log;
      forall r, c | InBounds(labeled, r, c)
        ensures labeled[r][c] == 0
      {
        assert Occurs(labeled, labeled[r][c]);
      }
    }
  }
}
