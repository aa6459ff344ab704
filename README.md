# M6 pupil records, modelled in Dafny

This project models `pupill.py` from the `runout` package. The module holds two classes:

- `M6Pupill` is one image of the M6 pupil. It has a header carrying the telescope position (`at`), the azimuth (`az`) and the derotator angle (`derot`). Its detection threshold and pupil region come from a per-`at` lookup table unless a setter overrides them. Its detection mask is the product of five element-wise comparisons over a pixel grid. From the mask it can synthesize a flat pupil image: masked pixels take a flux value and every other pixel takes a background value.
- `M6PupillList` is an ordered list of such records. It can group them by a header key, sort them stably by a key, look a record up by `(az, derot)`, and be indexed or sliced.

The project has five modules:

- `Results` (results.dfy) holds `Option`, `Result` and the error kinds that stand for the Python exceptions.
- `Headers` (headers.dfy) holds the header defaults and the `dict(base, **over)` merges of the constructor.
- `Masks` (masks.dfy) holds the mask, pixel counts and sums, the masked mean and the flat image. These are pure functions over `seq<seq<real>>` grids.
- `Pupils` (pupil.dfy) holds `class Pupil`. Its image, header and file are `const` fields. The two setter-backed overrides are `var` fields. The flat image is built in place in an `array2` copy of the image.
- `Grouping` (grouping.dfy) and `PupilLists` (pupil_list.dfy) hold the specification functions for grouping, stable sorting and Python indexing. They also hold `class PupilList`, whose `lst` field is the list the methods update. `byKey` is a loop that creates one fresh `PupilList` per key value and appends to it.

Modelling choices:

- Header values are `real`. The lookup table `config.atConfLoockup` is a parameter of type `map<real, AtConfig>`.
- Exceptions are `Err` values:
  - `HeaderKeyError` for a `KeyError` on a header.
  - `ConfigKeyError` for a `KeyError` on the lookup.
  - `NoData` for a record without an image.
  - `NameError` for an unbound name.
  - `IndexError`.
  - `EmptyMask` for a mean over no pixels.
- Reading a FITS file is an input: the constructor receives a `FitsRead` value holding the path, the image and the header that were read.

The code as written fails on every call of `find` over a non-empty list and on every `synthesize` without an explicit flux that reaches the flux default, that is, whose mask selects some pixel and whose centre computation returns (see Findings). The model carries each of these twice: once as written, and once as evidently intended, and the rest of the model uses the intended one. For the intended flux default, the mean of the masked pixels, the model raises `EmptyMask` when the mask selects nothing; numpy would instead give NaN there (see Left out).

## Model

| member | source | states |
|---|---|---|
| Headers.Defaults | pupill.py:25 | the starting header holds exactly `az` = -999.99, `derot` = -999.99 and `at` = 0 |
| Headers.Merge | pupill.py:31 | `dict(base, **over)` has the keys of both; `over`'s value wins and `base`'s value is kept for the other keys |
| Headers.InitHeader | pupill.py:25-35 | the header's keys are the defaults' keys plus the caller's plus the file's; precedence is file, then caller, then defaults |
| Headers.InitHeaderOfHeader | pupill.py:94 | rebuilding a record from a copy of a complete header gives back that same header |
| Pupils.Pupil.constructor | pupill.py:24-35 | with a file: the image, path and merged header come from what was read; otherwise the given data is kept; no override is set; with neither file nor header, `at` is 0 and `az` and `derot` are -999.99 |
| Pupils.Pupil.At | pupill.py:37-39 | the `at` property never raises, since every header holds `at`; it is the header's value |
| Pupils.Pupil.Az | pupill.py:41-43 | the `az` property never raises, since every header holds `az`; it is the header's value |
| Pupils.Pupil.Derot | pupill.py:45-47 | the `derot` property never raises, since every header holds `derot`; it is the header's value |
| Pupils.Pupil.FluxTreshold | pupill.py:49-51 | the override if set; else the lookup entry of `at`; else a key error on `at` |
| Pupils.Pupil.PupLocation | pupill.py:53-55 | the override if set; else the lookup entry of `at`; else a key error on `at` |
| Pupils.Pupil.SetPupLocation | pupill.py:57-59 | the region override becomes the given one, which the getter then returns for every lookup; the threshold is unchanged |
| Pupils.Pupil.SetFluxTreshold | pupill.py:61-63 | the threshold override becomes the given one, which the getter then returns for every lookup; the region is unchanged |
| Masks.MeshX | pupill.py:71 | the X grid of `meshgrid`: `h` rows of width `w`, each pixel holding its column index |
| Masks.MeshY | pupill.py:71 | the Y grid of `meshgrid`: each pixel holding its row index |
| Masks.Above | pupill.py:72-75 | element-wise `a > c`, with the shape of `a` |
| Masks.Below | pupill.py:74-76 | element-wise `a < c`, with the shape of `a` |
| Masks.Times | pupill.py:72-76 | the element-wise product of two boolean masks is their conjunction |
| Masks.Mask | pupill.py:68-76 | the mask has the image's shape; a pixel is set exactly when its value exceeds the threshold and it lies strictly inside the region |
| Masks.MaskExcludesEdges | pupill.py:73-76 | a pixel on any region border is never selected |
| Masks.MaskAntitone | pupill.py:72 | raising the threshold can only deselect pixels |
| Masks.MaskCountAntitone | pupill.py:72 | raising the threshold never increases the number of selected pixels |
| Masks.CountMonotone | pupill.py:72-76 | a mask contained in another selects no more pixels |
| Masks.MaskedSumAbove | pupill.py:88 | when every selected pixel exceeds `t` and some pixel is selected, their sum exceeds `t` times their count |
| Masks.MaskedMean | pupill.py:88 | `img[mask].mean()` exists exactly when some pixel is selected, and times the count it gives the selected sum |
| Masks.MaskedMeanAboveThreshold | pupill.py:88 | the mean over a non-empty mask at threshold `t` exceeds `t` |
| Masks.Flat | pupill.py:90-92 | the flat image has the mask's shape; masked pixels hold the flux and the others the background |
| Masks.FlatRedetected | pupill.py:90-92 | when background <= t < flux, masking the flat image at the same `t` and region gives the original mask back |
| Pupils.Pupil.GetMask | pupill.py:68-76 | fails with `NoData` without data, and with the threshold's or else the region's `KeyError` on `at` when that cannot be resolved; succeeds exactly otherwise, as `Mask` at the effective threshold and region |
| Pupils.FluxDefaultAsWritten | pupill.py:88 | as written, an explicit flux is used and a missing one raises `NameError` on `p` |
| Pupils.FluxDefaultAsWrittenFails | pupill.py:88 | as written, a call without a flux fails even when the mask selects pixels, where the intended mean exists and exceeds the threshold |
| Pupils.FluxDefault | pupill.py:88 | as intended: an explicit flux is used; otherwise the masked mean, which fails (with `EmptyMask`) exactly when the mask is empty |
| Pupils.CopyInto | pupill.py:90 | `img.copy()` into the array: every element takes the image's value |
| Pupils.FillWhere | pupill.py:91-92 | `a[mask] = v` / `a[~mask] = v`: exactly the pixels whose mask value matches take `v`, and the rest keep their value |
| Pupils.BuildFlat | pupill.py:90-92 | the copy filled in two passes equals `Flat` of the mask, flux and background |
| Pupils.Pupil.FlatImage | pupill.py:78-92 | succeeds exactly when the mask resolves and a flux is given or the mask selects some pixel; otherwise propagates the mask's error, or raises `EmptyMask`; masked pixels hold the given flux or else the intended default `FluxDefault` (the masked mean); the rest hold the given background or else `0.95 * threshold` |
| Pupils.Pupil.FlatImageRedetected | pupill.py:87-92 | with default flux and background and a non-negative threshold, the flat image is detected again as exactly the source mask |
| Pupils.Pupil.SynthesizeFlat | pupill.py:78-94 | fails exactly when and as `FlatImage` does, so with the intended flux default `FluxDefault`; otherwise a fresh record holding that flat image, an equal header, no file and no overrides |
| PupilLists.PupilList.constructor | pupill.py:97-98 | the list holds the given records |
| PupilLists.PupilList.Length | pupill.py:150-151 | `len` is the number of records |
| PupilLists.PupilList.Append | pupill.py:100-101 | the record is added at the end; the earlier records are unchanged |
| PupilLists.PupilList.Extend | pupill.py:103-104 | the records are added at the end in order; the earlier records are unchanged |
| PupilLists.PupilList.Partition | pupill.py:107-109 | fails exactly when a record lacks the key; otherwise one fresh, distinct list per key value, holding that value's records in order |
| PupilLists.PupilList.ByKey | pupill.py:106-112 | as `Partition`, keeping only the key values with at least `nMin` records |
| PupilLists.PupilList.ByAt | pupill.py:114-115 | one group for every `at` value present |
| PupilLists.PupilList.ByAz | pupill.py:117-118 | the groups of the `az` values with at least two records |
| PupilLists.PupilList.ByDerot | pupill.py:120-121 | the groups of the `derot` values with at least two records |
| Grouping.GroupAppend | pupill.py:108-109 | appending a record extends its value's group by it and leaves every other group unchanged |
| Grouping.GroupConcat | pupill.py:108-109 | the group of a concatenation is the concatenation of the groups |
| Grouping.InGroupIff | pupill.py:109 | a record is in `v`'s group exactly when it is in the list with key value `v` |
| Grouping.GroupAtPositions | pupill.py:108-109 | a group consists of the list's records at increasing positions, which are exactly those with that value |
| Grouping.KeySetIff | pupill.py:109 | a value is a dictionary key exactly when its group is non-empty |
| Grouping.KeptAll | pupill.py:110-112 | with `nMin <= 1` no key is dropped |
| Grouping.KeyOrderKeys | pupill.py:107-109 | the dictionary's key order lists every key value once |
| Grouping.GroupSizesSum | pupill.py:108-109 | the groups together hold every record exactly once (their sizes sum to the list's length) |
| Grouping.GroupingExample | pupill.py:106-112 | `at` values 1, 1, 2, 2, 2 with `nMin` 3 keep only the group of 2, holding the last three records in order |
| Grouping.Insert | pupill.py:124 | insertion into a sorted list is a permutation of the list plus the record |
| Grouping.SortByKey | pupill.py:124 | the sort is a permutation of its input |
| Grouping.InsertSorted | pupill.py:124 | insertion keeps a list sorted by the key |
| Grouping.SortSorted | pupill.py:124 | the result is ordered by the key |
| Grouping.SortStable | pupill.py:124 | the sort is stable: the records sharing a key value keep their relative order |
| Grouping.SortedStableUnique | pupill.py:124 | two sorted, stable permutations of the same records are equal |
| Grouping.StableSortIsSortByKey | pupill.py:124 | any sorted, stable permutation of the list (what Python's `sorted` returns) is `SortByKey` |
| PupilLists.PupilList.IncreasingKey | pupill.py:123-124 | fails exactly when a record lacks the key; otherwise a fresh list holding the stable sort by it |
| PupilLists.PupilList.IncreasingAz | pupill.py:126-127 | a fresh list, stably sorted by `az` |
| PupilLists.PupilList.IncreasingDerot | pupill.py:129-130 | a fresh list, stably sorted by `derot` |
| PupilLists.PupilList.FindAsWritten | pupill.py:132-136 | as written: none for an empty list, otherwise `NameError` on `p` |
| PupilLists.FindAsWrittenMisses | pupill.py:132-136 | as written, `find` raises on every list holding a matching record, which the intended search finds |
| PupilLists.FirstMatchIsFirst | pupill.py:132-136 | the intended result is none exactly when no record matches; otherwise it is a matching record preceded by no match |
| PupilLists.PupilList.Find | pupill.py:132-136 | the loop returns `FirstMatch`: none exactly when nothing matches, else the first match |
| Grouping.ElementAt | pupill.py:145 | `lst[i]` succeeds exactly for `-len <= i < len`, giving the element; it raises `IndexError` otherwise |
| Grouping.ElementAtNegative | pupill.py:145 | a negative index counts from the end |
| Grouping.SliceOf | pupill.py:145 | a step-1 slice with Python's clamping of its bounds |
| Grouping.SliceSplit | pupill.py:145 | `lst[:k] + lst[k:]` is the whole list for every `k` |
| Grouping.SliceAll | pupill.py:145 | `lst[:]` is the whole list |
| Grouping.SliceOfOne | pupill.py:145 | `lst[i:i+1]` is the one-element list of `lst[i]` |
| PupilLists.PupilList.GetItem | pupill.py:144-148 | an index gives the record or `IndexError`; a slice gives a fresh list holding the slice |

## Left out

- Reading FITS files (`io.readFitsData`, line 29) is I/O: its result is the `FitsRead` parameter of the constructor.
- `config.atConfLoockup` is a parameter. The module-level `confLoockup` table (lines 12-18) is never read by the code and is not modelled.
- `getCenter`, `getCenters` and `compute.center` (lines 65-66, 138-139) call code outside this file. Their result on an empty mask is not visible here.
- Pupils.Pupil.SynthesizeFlat: the `scipy` `shift` by `(dy, dx)` towards `center` (lines 80-84, 93) is foreign and floating-point heavy. The method yields the unshifted flat image and takes no `center`.
- `fromGlob` (lines 153-155) lists files on disk, which is I/O.
- `__iter__` (lines 141-142) only exposes `lst`, which the model makes a field.
- The image is taken to be a floating-point array. `img.copy()` keeps the image's dtype, so for an integer image the stores `flatImg[mask] = flux` and `flatImg[~mask] = bckg` would truncate (a background of `0.95 * 1550 = 1472.5` stored as 1472). That truncation is not modelled, and Pupils.Pupil.FlatImageRedetected holds only for a floating-point image.
- Floating point is modelled by exact reals. -999.99 is exact, there is no NaN, and comparisons are exact.
- Header values are numbers only. A header value of another type, such as a string card read from a FITS file, is not modelled, and neither is grouping or sorting by such a key.
- The order of the keys of the dictionary `byKey` returns is stated separately as `Grouping.KeyOrder`. The returned `map` has no order.
- Pupils.Pupil.SynthesizeFlat: the new record's header is equal to the original but not a separate object. Aliasing of a Python dict is not modelled.
- Pupils.Pupil.FlatImageRedetected: this needs a non-negative threshold. For a negative one, the default background `0.95 * t` exceeds `t` and the flat background is itself detected.
- Grouping.SliceOf: slices with a step, and subscripts that are neither an integer nor a slice, are not modelled.
- Pupils.FluxDefault: for a missing flux over an empty mask, numpy's `mean` of an empty array gives NaN with a warning; the corrected model raises `EmptyMask` instead.

## Findings

| source | as written | input that shows it | evidently intended | confidence | as-written member | corrected member |
|---|---|---|---|---|---|---|
| pupill.py:132-136 | the loop binds `P`, but the body reads `p`, which is bound nowhere in `find` | any non-empty list, including one whose record matches `(az, derot)`: `NameError` | return the first record whose `az` and `derot` match, else `None` | not executed | PupilLists.FindAsWrittenMisses | PupilLists.PupilList.Find |
| pupill.py:88 | the flux default is `p.mean(img[mask])`, and `p` is bound nowhere (`np.mean` was meant) | `synthesize(center)` with no `flux`, on a record whose mask selects at least one pixel and on which `compute.center` returns: `NameError` | the mean of the masked pixels | not executed | Pupils.FluxDefaultAsWrittenFails | Pupils.FluxDefault |
