# Damage-assessment inference: geo-referencing and result shaping

This project models, in Dafny, the core of a web back end for assessing
building damage from pairs of satellite images. The back end pairs each
tile's pre-disaster and post-disaster images. It uploads them, sends them
to a damage classifier, stores one detail row per tile and renders a page.
It also turns a tile's geo-transform metadata into a latitude/longitude
for every pixel.

The model has four parts:

- `PixelGeo` (`pixel_geo.dfy`) covers `transform_pixel_to_geo`. It reads
  the six affine coefficients from the first metadata entry and fills a
  height × width `array2` of `(lat, lon)` cell by cell in a nested loop. It
  returns that matrix and its centre cell. Every Python exception the
  function can raise is an explicit `GeoError`: missing entry, value not
  subscriptable, empty list, wrong number of coefficients, non-numeric
  coefficient, negative size, or centre index out of range.
- `Inference` (`inference.dfy`) covers the data shaping of the `inference`
  view:
  - the pairing/upload loop (`UploadPairs`, specified by `Pairing`), which
    returns at the first missing file or failed upload;
  - the detail-row loop (`BuildDetailRows`). It runs a generic loop
    (`RunSteps`) over the indices of the base names, one `DetailRowAt` per
    index, and yields what `Collect` defines: every row in order, or the
    exception of the first row that cannot be built;
  - the choice between the single-tile page and the upload summary
    (`ResultPage`).
- `PyDict` (`py_dict.dfy`) models Python's insertion-ordered dict: a
  sequence of entries where key assignment replaces in place or appends.
- `Text` (`text.dfy`) models Python's substring test `p in s`.
  `FirstContaining` models "the first key containing a marker", which is
  what `[k for k in d if m in k][0]` yields.

The file upload is a parameter `upload: string -> UploadOutcome`, and the
set of uploaded file names is a parameter `present`. The classifier's
response, the metadata JSON, the header id and the mask-name function are
fields of `RowInputs`. The image lookup comes in two versions. The one as
written (`SubstringMatch`) takes the first key that contains the tile's
marker. The corrected one (`ExactName`) takes the key equal to the tile's
file name. Every row property is proved for both, and the difference is
recorded under Findings.

## Model

| member | source | states |
|---|---|---|
| PixelGeo.TransformPixelToGeo | rest_app/utils.py:15-34 | Fails exactly when the metadata or the size cannot be used, with the same error as `Preflight`. On success, the matrix is height × width and every cell `[y, x]` holds the affine image of pixel `(x, y)`. The centre is the cell `[height/2, width/2]` (floor division). |
| PixelGeo.PixelToGeo | rest_app/utils.py:25-26 | Definition of the latitude and longitude of one pixel; pinned down by `OriginCell`, `ColumnStep`, `RowStep` and `Affine`, and used cell by cell by `TransformPixelToGeo`. |
| PixelGeo.FirstParams | rest_app/utils.py:16 | Definition of the first element of the first key's value, with the IndexError/TypeError/KeyError of line 16; pinned down by `PreflightSucceedsIff` and `OnlyFirstEntryMatters`. |
| PixelGeo.Arity | rest_app/utils.py:18 | Definition of how many values unpacking yields (items of a list, characters of a string, keys of a dict), None when the value is not iterable; used by `Unpack`'s contract. |
| PixelGeo.Unpack | rest_app/utils.py:18 | A value that is not iterable fails as not unpackable. An iterable one succeeds iff it yields exactly six values, and otherwise fails with `WrongArity` of its length. A list's success is its own items, a string's its six characters, a dict's its six keys. |
| PixelGeo.AsCoefficients | rest_app/utils.py:18-26 | Definition of the six coefficients, present only when all six unpacked values are numbers; pinned down by `PreflightSucceedsIff` and `MetadataRoundTrip`. |
| PixelGeo.Preflight | rest_app/utils.py:15-32 | Definition of the first error the function raises in source order, or the coefficients its loop uses; pinned down by `PreflightSucceedsIff`, `WrongArityFails`, `EmptyImageFails` and `MetadataRoundTrip`, and tied to the method by `TransformPixelToGeo`'s contract. |
| PixelGeo.PreflightSucceedsIff | rest_app/utils.py:15-32 | The transform succeeds iff the image has at least one row and one column and the first entry's value is a non-empty list whose first element is a list of six numbers. |
| PixelGeo.MetadataRoundTrip | rest_app/utils.py:16-18 | Coefficients written in the metadata layout (a list of the six numbers and then the spatial reference) under the first key are read back unchanged, whatever follows. |
| PixelGeo.OnlyFirstEntryMatters | rest_app/utils.py:16 | Only the first key of the geo-transform dict is consulted; the other entries never change the outcome. |
| PixelGeo.WrongArityFails | rest_app/utils.py:18 | A coefficient list whose length is not six fails with that length (the unpacking ValueError). |
| PixelGeo.EmptyImageFails | rest_app/utils.py:21-32 | Valid coefficients with a zero or negative width or height still fail: with a negative size as the ValueError of allocating the matrix (line 21), otherwise as the IndexError of the missing centre cell (line 32). |
| PixelGeo.OriginCell | rest_app/utils.py:25-26 | Pixel (0, 0) maps to the top-left latitude and longitude. |
| PixelGeo.ColumnStep | rest_app/utils.py:25-26 | One column to the right adds `rotation_y` to the latitude and `pixel_width` to the longitude. |
| PixelGeo.RowStep | rest_app/utils.py:25-26 | One row down adds `pixel_height` to the latitude and `rotation_x` to the longitude. |
| PixelGeo.Affine | rest_app/utils.py:25-26 | The pixel-to-geo map is affine: the image of a sum of offsets is the sum of the images less the origin. |
| PyDict.Keys | rest_app/views/home_views.py:84-85 | Helper: the keys of a dict in entry order, as iterating the dict at lines 84-85 yields them. That assignments keep this order is stated by `SetLaws`. |
| PyDict.Find | rest_app/views/home_views.py:96-98 | Definition of the position of a key among the entries; pinned down by `FindFirst`. |
| PyDict.Get | rest_app/views/home_views.py:96-98 | Definition of the value stored under a key, or None; pinned down by `GetEntry` and `SetLaws`. |
| PyDict.Set | rest_app/views/home_views.py:57-58 | Definition of `d[k] = v` on an insertion-ordered dict; pinned down by `SetLaws` and `SetEntries`. |
| PyDict.FindFirst | rest_app/views/home_views.py:96-98 | Key lookup finds the first entry holding the key, and nothing exactly when no entry holds it. |
| PyDict.GetEntry | rest_app/views/home_views.py:96-98 | In a dict with distinct keys, subscripting the key of an entry yields the value stored in that entry. |
| PyDict.SetLaws | rest_app/views/home_views.py:57-58 | Assigning a key keeps the key order (appending a new key at the end), stores the value under the key, leaves every other key's value unchanged and keeps the keys distinct. |
| PyDict.SetEntries | rest_app/views/home_views.py:57-58 | After an assignment, every entry is the new one or was already there. |
| Text.Contains | rest_app/views/home_views.py:84-85 | Definition of Python's substring test `p in s`; pinned down in both directions by `ContainsSound` and `ContainsComplete`. |
| Text.FirstContaining | rest_app/views/home_views.py:84-85 | Definition of the index of the first key containing the marker, None when none does; pinned down by `FirstContainingSpec`. |
| Text.ContainsSound | rest_app/views/home_views.py:84-85 | When the substring test holds, the pattern occurs at some position of the text. |
| Text.ContainsComplete | rest_app/views/home_views.py:84-85 | When the pattern occurs at some position, the substring test holds. |
| Text.ContainsPrefix | rest_app/views/home_views.py:84-85 | A text contains every one of its prefixes. |
| Text.FirstContainingSpec | rest_app/views/home_views.py:84-85 | The comprehension's first element is the first key containing the marker, and the comprehension is empty exactly when no key contains it. |
| Inference.Marker | rest_app/views/home_views.py:84-85 | Definition of the text the row loop searches for, `{base}_pre_disaster` or `{base}_post_disaster`; related to file names by `FileNameHoldsMarker` and `SuffixHoldsMarker`. |
| Inference.FileName | rest_app/views/home_views.py:46-47 | Definition of a tile's uploaded file name; pinned down by `PreAndPostNamesDiffer`, `FileNameInjective` and `FileNameHoldsMarker`. |
| Inference.UploadName | rest_app/views/home_views.py:51-57 | Definition of one pass of the inner loop: the missing-file error, the upload error, or the URL; used by `UploadPairs` and pinned down by `PairingSucceedsIff` and `PairingFailsAtFirst`. |
| Inference.UploadBase | rest_app/views/home_views.py:50-58 | Definition of both passes for one base name, the pre-disaster file first; pinned down by `PairingSucceedsIff`, `PairingFailsAtFirst` and `PairDictOfUpload`. |
| Inference.AddPair | rest_app/views/home_views.py:57-60 | Definition of the state after one base name: its pair dict appended and both names set in the mapping; pinned down by `PairingPayload` and `PairingMapping`. |
| Inference.Pairing | rest_app/views/home_views.py:45-60 | Definition of the pairing loop's outcome, base name by base name; the loop `UploadPairs` is proved equal to it, and `PairingSucceedsIff`, `PairingFailsAtFirst`, `PairingPayload` and `PairingMapping` state what it promises. |
| Inference.Dedup | rest_app/views/home_views.py:58 | Definition of the names in first-visit order without repeats, the key order a dict keeps; pinned down by `DedupMembers` and `DedupDistinct`. |
| Inference.PairDictOfUpload | rest_app/views/home_views.py:48-58 | The pair dict of a base name whose uploads succeed holds its pre then its post file name, each beside its upload's URL. |
| Inference.PreAndPostNamesDiffer | rest_app/views/home_views.py:46-47 | A pre-disaster file name never equals a post-disaster one, whatever the two base names. |
| Inference.FileNameInjective | rest_app/views/home_views.py:46-47 | Different base names give different file names of the same phase. |
| Inference.FileNameHoldsMarker | rest_app/views/home_views.py:84-85 | A tile's file name contains the marker the row loop searches for. |
| Inference.AllNames | rest_app/views/home_views.py:45-50 | Helper: the names the pairing loop visits, pre then post per base name (the count is only bookkeeping; which names are visited is stated by `AllNamesHas`, and what the mapping keeps of them by `PairingMapping`). |
| Inference.AllNamesHas | rest_app/views/home_views.py:45-50 | Both file names of every base name are among the names the loop visits. |
| Inference.DedupMembers | rest_app/views/home_views.py:57-58 | Recording each name once keeps exactly the names visited. |
| Inference.PairingStep | rest_app/views/home_views.py:45-60 | Helper: `Pairing` unfolded by one base name, used in the induction proofs (the promises are stated by `PairingSucceedsIff`, `PairingFailsAtFirst` and `FailureIsFinal`). |
| Inference.FailureIsFinal | rest_app/views/home_views.py:51-55 | After the first failure, later base names do not change the outcome (the early return). |
| Inference.FailureExtends | rest_app/views/home_views.py:51-55 | Helper: one step of `Pairing` after a failure, used by `FailureIsFinal` (which states the early-return promise). |
| Inference.UploadPairs | rest_app/views/home_views.py:45-60 | The loop returns exactly what `Pairing` defines: the first error, or the payload and the mapping. |
| Inference.PairingSucceedsIff | rest_app/views/home_views.py:45-60 | Pairing succeeds iff every base name has both files present and both uploads succeed. |
| Inference.PairingFailsAtFirst | rest_app/views/home_views.py:51-55 | A failure is the error of the first base name whose files are missing or whose upload fails; all earlier base names succeed. |
| Inference.PairingPayload | rest_app/views/home_views.py:48-60 | On success, the payload has one dict per base name. Each dict holds the pre then the post file name, each mapped to its uploaded URL. |
| Inference.PayloadKeepsEarlier | rest_app/views/home_views.py:60 | Appending a later base name's pair leaves the earlier payload dicts as they were. |
| Inference.PairingMapping | rest_app/views/home_views.py:57-58 | On success, the mapping's keys are the visited names in first-visit order without repeats. Every entry maps a name to its upload's URL. |
| Inference.MappingStep | rest_app/views/home_views.py:58 | Setting one more uploaded name keeps the mapping a repeat-free record of the names visited, each beside its upload's URL. |
| Inference.PairedNamesAreKeys | rest_app/views/home_views.py:57-58 | On success, both file names of every base name are keys of the mapping. |
| Inference.ImageName | rest_app/views/home_views.py:84-85 | Definition of a row's image name under either lookup, with the IndexError of an empty match; pinned down by `ImageNameSpec`, `PairedImagesAreFound`, `LookupsAgreeWhenUnambiguous` and `SubstringLookupPicksNeighbour`. |
| Inference.UrlOf | rest_app/views/home_views.py:96-98 | Definition of `cloudinary_mapping[name]`, with its KeyError; `ImageNameSpec` shows the KeyError never happens for a found name. |
| Inference.GetOrNone | rest_app/views/home_views.py:86-87 | Definition of `d.get(key)`; pinned down by `RowCarriesMasks`. |
| Inference.CountOrZero | rest_app/views/home_views.py:103-106 | Definition of `d.get(key, 0)`; pinned down by `RowCarriesDamageCounts`. |
| Inference.GeoParams | rest_app/views/home_views.py:90-91 | Definition of the first element of a list metadata value, None otherwise, and the IndexError of an empty list; pinned down by `StoredGeoParamsMatchTransform` and `RowSucceedsAfterPairing`. |
| Inference.DetailRowAt | rest_app/views/home_views.py:83-108 | Definition of the row built for one base name, raising in the order of lines 84-98; pinned down by `RowFields`, `RowImagesAreUploads`, `RowCarriesMasks`, `RowCarriesDamageCounts`, `StoredGeoParamsMatchTransform` and `RowSucceedsAfterPairing`. |
| Inference.Collect | rest_app/views/home_views.py:82-108 | Definition of a loop that appends one value per step and raises at the first failing step; pinned down by `CollectSucceedsIff`, `CollectFailsAtFirst` and `CollectFailureIsFinal`. |
| Inference.ImageNameSpec | rest_app/views/home_views.py:84-85 | A found image name is a key of the mapping, so the subscripts of lines 96 and 98 cannot raise for it; an empty match raises the IndexError for the tile's marker. |
| Inference.CollectFailureIsFinal | rest_app/views/home_views.py:83-108 | Once a row raises, later base names do not change the outcome of the loop. |
| Inference.CollectSucceedsIff | rest_app/views/home_views.py:83-108 | The loop completes iff every row can be built. It then yields one row per base name, in order, each the row of that base name. |
| Inference.CollectFailsAtFirst | rest_app/views/home_views.py:83-108 | When the loop raises, the exception is that of the first base name whose row cannot be built; all earlier rows were built. |
| Inference.RunSteps | rest_app/views/home_views.py:82-108 | Running the steps in order and stopping at the first exception gives exactly `Collect` of the step outcomes. |
| Inference.RowOutcomeAt | rest_app/views/home_views.py:83-108 | Helper: `RowOutcomes` taken at one index, used to apply `CollectSucceedsIff` to the rows (the promise is stated by `RowsSucceedAfterPairing` and `BuildDetailRows`). |
| Inference.BuildDetailRows | rest_app/views/home_views.py:82-108 | The detail-row loop yields `Collect` of the per-base-name rows, so it has the three properties above: rows of every base name in order, or the first exception. |
| Inference.PairedImagesAreFound | rest_app/views/home_views.py:84-85 | After a successful pairing, both image lookups find an image for every base name. |
| Inference.RowSucceedsAfterPairing | rest_app/views/home_views.py:84-98 | After a successful pairing, a base name's row is built when the classifier returned its mask and damage entries and no metadata entry is an empty list. |
| Inference.RowsSucceedAfterPairing | rest_app/views/home_views.py:82-108 | After a successful pairing, the whole loop completes when the classifier returned entries for every base name and no metadata entry is an empty list. |
| Inference.RowFields | rest_app/views/home_views.py:84-98 | Helper: the image fields of a built row, unfolded from `DetailRowAt`, used by `RowImagesAreUploads` (which states the promise). |
| Inference.RowImagesAreUploads | rest_app/views/home_views.py:84-98 | A row's image URLs are the URLs their uploads returned. The exact lookup names the tile's own files; the lookup as written names files that contain the tile's marker. |
| Inference.ImageIsUpload | rest_app/views/home_views.py:84-98 | In a mapping of uploaded names, a found image has a URL, and that URL is the one its upload returned. |
| Inference.LookupsAgreeWhenUnambiguous | rest_app/views/home_views.py:84-85 | The two lookups agree when the tile's own file name is the only key containing its marker. |
| Inference.DedupDistinct | rest_app/views/home_views.py:57-58 | A list of distinct names is recorded unchanged. |
| Inference.SuffixHoldsMarker | rest_app/views/home_views.py:84-85 | The file name of base name `x + b` contains the marker of `b`. |
| Inference.NeighbourNames | rest_app/views/home_views.py:45-58 | For base names `x + b` and then `b` (`x` non-empty), the mapping records four distinct names: the pre and post names of `x + b`, then those of `b`. |
| Inference.SubstringLookupPicksNeighbour | rest_app/views/home_views.py:84-85 | For base names `x + b` and then `b` (`x` non-empty), the lookup as written gives `b` the pre-disaster image of `x + b`, while the exact lookup gives `b` its own; the two names differ. |
| Inference.RowCarriesMasks | rest_app/views/home_views.py:86-87 | A row stores the header id. Its mask URLs are the classifier's entries for its two image names, or None when absent. |
| Inference.RowDamageFields | rest_app/views/home_views.py:88-106 | Helper: the four count fields of a built row, unfolded from `DetailRowAt`, used by `RowCarriesDamageCounts` (which states the promise). |
| Inference.RowCarriesDamageCounts | rest_app/views/home_views.py:88-106 | For every damage class, the row stores the classifier's count when it reported that class and 0 when it did not. |
| Inference.StoredGeoParamsMatchTransform | rest_app/views/home_views.py:90-91 | A row's geo parameters are what the pixel transform extracts from a one-entry dict of the pre-disaster image's metadata when that metadata is a list, and None otherwise. |
| Inference.ResultPage | rest_app/views/home_views.py:118-137 | Definition of the page rendered once the report exists, with the KeyError of a missing mask; pinned down by `SingleTileMatchesRow`. |
| Inference.SingleTileMatchesRow | rest_app/views/home_views.py:118-137 | Any number of base names other than one (none included) gives the upload summary. A single base name's page shows the image and mask URLs its row stored, and it fails only when the row stored None for a mask. |

## Left out

- `transform_five_reference_coords` and the reference coordinates on the single-tile page are not part of this model.
- The request validation (`validate_uploaded_images`, `validate_json_structure`) is not modelled: the loops start from the base names it yields.
- The mask file names (`split_filename_and_extension`) are an uninterpreted function `maskName` in `RowInputs`.
- File storage, the classifier HTTP call, the database inserts, the PDF report and the rendering are I/O. Their results are inputs: `upload`, `present`, `ClassifierResponse`, `headerId` and the report URL.
- The upload helper in the repository returns its URL under `url`, while the view reads `secure_url`. The upload is abstracted as a function returning the URL the view reads, so this mismatch is not modelled.
- The classifier response is assumed to have the `mask_image_urls` and `damage_severities` keys, holding lists of dicts; a malformed response is not modelled.
- Floating-point arithmetic is modelled with exact reals, and numbers are JSON numbers of type `real`.
- PixelGeo.Preflight: any coefficient that is not a JSON number fails as `NonNumericCoefficient`. Python would accept some string, list or boolean operands (string and list repetition and concatenation, `True` as 1) and fail later or not at all; coefficients that are all lists, for instance, give list-valued cells where the model fails.
- PixelGeo.TransformPixelToGeo: does not state that the matrix is freshly allocated. The unwritten cells of `np.empty(..., dtype=object)` are `None` in Python; here they are `(0.0, 0.0)` until written, and every cell is written before the method returns.
- Inference.UploadPairs: the inner loop over the two names of a base name is written out as two consecutive steps.
- Inference.UploadPairs: the upload is a deterministic function of the file name (`upload: string -> UploadOutcome`). A base name listed twice therefore gets the same outcome from both of its uploads. In the repository each upload is a separate network call with `overwrite` set; the second call can fail, or return a URL that the mapping keeps while the first pair dict keeps the first URL. So `PairingSucceedsIff`, `PairingPayload` and `PairingMapping` are stated only for this deterministic upload.
- The subscripts `cloudinary_mapping[pre_img]` and `[post_img]` are modelled with their KeyError (`NoUrlFor`); `ImageNameSpec` shows that it can never be raised for a name the lookup found.

## Findings

| source | as written | input that shows it | evidently intended | confidence | as-written member | corrected member |
|---|---|---|---|---|---|---|
| rest_app/views/home_views.py:84-85 | A tile's image is the first uploaded name that contains `{base}_pre_disaster` (resp. `_post_disaster`) as a substring. | Base names "xa" and "a", both uploaded: the row for "a" gets pre image "xa_pre_disaster.png" and its URL. | The image named exactly `{base}_pre_disaster.png` (resp. `_post_disaster.png`), the name the pairing loop uploaded for that tile. | medium, not executed | Inference.SubstringLookupPicksNeighbour | Inference.RowImagesAreUploads |
