# TissueMAPS segmentation stages in Dafny

This project models three array-to-array stages of the TissueMAPS image
segmentation pipeline and proves properties about them. In each stage the
Python code makes the decisions and calls libraries for the heavy numerics.
The model keeps the decisions and takes the library results as inputs.

- **Fixed thresholding** (`threshold_fixed.main`), module `ThresholdFixed` in
  `threshold.dfy`. Omitted bounds default to the image's largest and smallest
  sample. The Otsu level is multiplied by the correction factor. The result is
  clamped with the "above maximum" test first. A pixel is foreground iff its
  value is strictly greater than the final level. The Otsu level is an integer
  parameter. Levels, bounds and the factor are exact `real`s.
- **Object expansion** (`expand_objects.main`), module `ExpandObjects` in
  `expand.dfy`. The output is a copy of the label image. Each background pixel
  with distance `< n` takes the input label at its nearest-foreground index.
  The Euclidean distance transform is an input, `DistanceMaps`: a distance map
  plus row and column index maps. `Expanded` is the functional definition.
  `Expand` is the loop that copies each row and overwrites its masked pixels.
- **Object catalog** (`save_segmentation`), module `SaveSegmentation` in
  `catalog.dfy`. Object ids are the sorted distinct non-zero labels. Each
  object's outline coordinates are read from the outline image as parallel
  row and column lists (`np.where`). Site ids are the job id repeated once per
  object. The nine datasets are written under `objects/<name>/…` only when at
  least one object exists. The `DatasetWriter` is an append-only log of
  `Write(key, data)` events. The outline image, the border flags and the
  centroids are inputs.

Grids are `seq<seq<T>>` (module `Grids` in `grid.dfy`). Images are values, so
a stage can never modify its input. In the source, `expand_objects` gets the
same guarantee by working on `label_image.copy()`.

`src/python/jtmodules/expand_objects.py:40` calls `distance_transform_edt`
unqualified, while line 14 imports only `scipy.ndimage as ndi`, so `main`
raises `NameError` as written. The model implements the intended logic of
lines 39–43, with the distance transform's results as inputs.

## Model

| member | source | states |
|---|---|---|
| Grids.Flatten | modules/save_segmentation.py:25 | sample list of the image: every pixel value is in it and everything in it is some pixel value |
| ThresholdFixed.MaxOf | src/python/jtmodules/threshold_fixed.py:58 | `np.max`: the result is a sample and no sample exceeds it |
| ThresholdFixed.MinOf | src/python/jtmodules/threshold_fixed.py:62 | `np.min`: the result is a sample and no sample is below it |
| ThresholdFixed.ResolveBounds | src/python/jtmodules/threshold_fixed.py:57-63 | a given bound is kept; an omitted maximum is the image's largest sample and an omitted minimum its smallest; it fails exactly when a default is needed and the image has no samples |
| ThresholdFixed.Clamp | src/python/jtmodules/threshold_fixed.py:72-77 | a level above the maximum becomes the maximum, even with crossed bounds; otherwise a level below the minimum becomes the minimum; a level inside the bounds is unchanged; with `lo <= hi` the result lies in `[lo, hi]`; the result is always the level or one of the bounds |
| ThresholdFixed.Binarize | src/python/jtmodules/threshold_fixed.py:80 | the mask has the image's shape and a pixel is true iff its value is strictly greater than the level |
| ThresholdFixed.Threshold | src/python/jtmodules/threshold_fixed.py:57-80 | fails only when resolving the bounds fails; otherwise the level is the clamped `otsu * correction_factor` (maximum when above it, else minimum when below it, unchanged inside the bounds, within the bounds when they are ordered) and the mask is the strict cut at that level |
| ThresholdFixed.DefaultBoundsOrdered | src/python/jtmodules/threshold_fixed.py:57-63 | with both bounds omitted on a non-empty image, the bounds are the image's min and max, and the final level lies between them |
| ThresholdFixed.BinarizeAntitone | src/python/jtmodules/threshold_fixed.py:80 | raising the level can only turn foreground pixels into background |
| ThresholdFixed.DefaultMaxEmptiesMask | src/python/jtmodules/threshold_fixed.py:57-80 | with the default maximum and a corrected level at or above every sample, the mask before hole filling is entirely false |
| ExpandObjects.Expanded | src/python/jtmodules/expand_objects.py:39-43 | same shape as the input; labelled pixels keep their label; background at distance `>= n` stays 0; background at distance `< n` takes the input label at its nearest index |
| ExpandObjects.Expand | src/python/jtmodules/expand_objects.py:41-43 | the copy-then-assign loop produces exactly `Expanded`: same shape, labelled pixels untouched |
| ExpandObjects.NoNewIds | src/python/jtmodules/expand_objects.py:40-43 | every output value already occurs somewhere in the input label image |
| ExpandObjects.NonPositiveRadiusIsIdentity | src/python/jtmodules/expand_objects.py:42 | with non-negative distances and `n <= 0`, the output equals the input, also for an image without foreground |
| ExpandObjects.CloseBackgroundJoinsObject | src/python/jtmodules/expand_objects.py:39-43 | when every background index points at a foreground pixel, each background pixel closer than `n` ends with a non-zero label |
| ExpandObjects.MonotoneInRadius | src/python/jtmodules/expand_objects.py:42-43 | for `n1 <= n2`, every non-zero pixel of the `n1` result has the same value in the `n2` result |
| SaveSegmentation.Insert | modules/save_segmentation.py:25 | inserting into a strictly ascending list keeps it strictly ascending and adds exactly the new value |
| SaveSegmentation.DistinctNonZero | modules/save_segmentation.py:25 | strictly ascending, and its elements are exactly the non-zero values of the input |
| SaveSegmentation.ObjectIds | modules/save_segmentation.py:25 | object ids are strictly ascending and are exactly the non-zero labels present in the image |
| SaveSegmentation.Where | modules/save_segmentation.py:32-34 | parallel row/column lists of equal length that list exactly the positions holding `k`, each once, in row-major order |
| SaveSegmentation.BuildObjectSet | modules/save_segmentation.py:25-45 | one outline row-list and column-list per object id, aligned by index, each listing exactly that id's outline pixels; site ids are the job id once per object; dimensions are the label image's row and column counts; with `keep_ids`, every outline coordinate of object k is a pixel of object k |
| SaveSegmentation.Writes | modules/save_segmentation.py:49-67 | exactly nine writes in the fixed key order, every key starting with `objects/<name>/`, each carrying its column of the object set |
| SaveSegmentation.WriteKeysDistinct | modules/save_segmentation.py:50-67 | the nine keys are pairwise distinct |
| SaveSegmentation.Save | modules/save_segmentation.py:25-67 | the log only grows; nothing is written iff the label image has no non-zero pixel; otherwise nine writes are appended with the layout keys, ascending ids equal to the non-zero labels, one job id per object, the given border flags, the image's dimensions, the per-object outline lists and the given centroid columns |

## Left out

- Otsu's level estimator (`mh.otsu`) is a parameter. Hole filling (`mh.close_holes`, `fill=True`) is not modelled, so `Threshold` returns the mask before hole filling.
- ThresholdFixed.Threshold: levels are exact reals, so floating-point rounding of `otsu * correction_factor` and of float bounds is not modelled.
- The Euclidean distance transform with index return is an input, `DistanceMaps`. `Expand` requires only that the nearest index of each masked pixel is in range, because those are the only indices the source reads. Numpy's negative-index wrap-around is not modelled.
- The outline image (`segment.compute_outlines_numpy`), the border flags (`find_border_objects`) and the centroids (`measure.regionprops`) are inputs. They are written through unchanged, and their own algorithms are not modelled.
- The `DatasetWriter` is an append-only list of writes. Opening and closing the HDF5 file, the `data_file` argument and the actual HDF5 encoding are not modelled.
- Plotting branches, random outline colouring and figure saving are not modelled. In the source, `np.random.randint(1, n_objects)` raises when there is exactly one object (`modules/save_segmentation.py:74`), and only on the plotting path.
- Logging is not modelled.
- `src/tmlib/source.py` is filesystem plumbing (directory listing, directory creation, HDF5 and JSON reads). It depends on helpers that are not part of this model.
- `src/python/jtmodules/combine_channels.py` is float rescaling through `mh.stretch`. Its shape and dtype checks refer to an undefined `image02`.
- `src/python/jtmodules/label.py` is a one-line wrapper around a connected-component labeller that is not part of this model, and its connectivity is not specified.
