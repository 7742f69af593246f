# Page normalisation for OCR ingestion — a Dafny model

The split-pages handler takes one scanned document (a TIFF, possibly with
several frames) from object storage and prepares its pages for the OCR
engine. For each frame it runs three compliance checks in this order:

1. **Mode.** A bilevel (`"1"`) page becomes RGB.
2. **Dimension.** A page whose longer side exceeds 10000 pixels is scaled so that this side is exactly 10000.
3. **Memory.** A page whose TIFF encoding exceeds 10485760 bytes shrinks once, on both sides, by `0.95·sqrt(budget/size)`.

Pages of a multi-page document are re-keyed as
`<key before the first .tif>_SPLITPAGE_<n>.tif`. A single page keeps its key.
A page the handler counts as modified is written back to the bucket, and that
write triggers the handler again. Every other page is reported as ready for
OCR. Keys containing `.DS_Store` are ignored.

The model has four modules:

- `Raster` (`raster.dfy`). An image is the record `{width, height, mode}`; pixel data is not modelled.
- `Checks` (`checks.dfy`). This module holds the three checks as functions. It also has an integer square root, so the memory fix can be stated in exact arithmetic: `floor(0.95·sqrt(m/B)·w) = ISqrt(9025·m·w² div (10000·B))`.
- `SplitKeys` (`split_keys.dfy`). This module models Python's case-insensitive `\.tif(?:f)?` split, `str()` of the page number, and the split key.
- `Handler` (`handler.dfy`). `LambdaHandler` is the imperative per-page loop. It keeps the source's sticky `bool_modified` flag and returns the report and the log of writes. It is proved equal to the specification `Outcome`/`Report`. These fold `Run` over the pages' output keys (`PageKeys`) and the pages' check outcomes (`FixAll`). The page properties are lemmas about `Run`.

The TIFF encoder is a parameter, `encode: Image -> nat`. It gives the size of the TIFF encoding that `im.save(..., format="tiff")` produces for a page. That encoding's compression is whatever Pillow takes from the page's own info, and the model leaves it uninterpreted.

Two behaviours of the code are kept as written:

- **Dimension-only fixes are not saved.** The dimension check's result is never folded into the modified flag. A single page that needs only a dimension fix is reported unmodified under its original key, and nothing is written (`DimensionOnlyFixIsDropped`).
- **Only the page number tells split pages apart.** The stem drops everything from the first `.tif` on. So `a.tif` and `a.TIFF` get the same split keys.

Facts about the code (two of them differ from what the repository's tests expect):

- The checks run in the order mode, then dimension, then memory (split_pages/app.py:288-297).
- The memory budget is 10485760 bytes (split_pages/app.py:141). It is measured on the TIFF that `im.save(buffer, format="tiff")` produces. The tests use a different helper (tests/unit/test_handler.py:31-35): it measures a JPEG-compressed TIFF against 10380902 bytes.
- The memory fix does not clamp a side to at least one pixel (split_pages/app.py:160-161).
- An output key is either the split key or the source key (split_pages/app.py:277-286). The tests expect keys with a `_MODIFIED` marker (tests/unit/test_handler.py:132, 147). The code never produces such a key.
- A dimension fix does not make a page modified (split_pages/app.py:293-294).

## Model

| member | source | states |
|---|---|---|
| Checks.CheckImgMode | split_pages/app.py:96-138 | reports a change exactly when the mode is `"1"`; the result is RGB in that case and the same image otherwise; the result is never bilevel and keeps its size |
| Checks.ModeFixIdempotent | split_pages/app.py:106-138 | the mode check applied to its own output reports no change and returns that output |
| Checks.ScaleSide | split_pages/app.py:57-64 | the proportional side is the whole part of `other·10000/longer`, and it is at most both the old side and 10000 |
| Checks.CheckOversizedDimen | split_pages/app.py:41-72 | reports a change exactly when `max(width, height) > 10000`, otherwise returns the image untouched; when it resizes, the longer side (the width on a tie) becomes exactly 10000 and the other side is the truncated proportional value; both sides end up at most 10000 and never grow; the mode is kept |
| Checks.DimenFixIdempotent | split_pages/app.py:49-54 | the dimension check applied to its own output reports no change |
| Checks.ISqrt | split_pages/app.py:160-161 | the result is the integer square root: `r² ≤ x < (r+1)²` |
| Checks.ScaledSide | split_pages/app.py:157-161 | the new side is exactly `floor(0.95·sqrt(budget/size)·old)` (stated without reals), and it is strictly smaller than a positive old side |
| Checks.CheckOversizedMem | split_pages/app.py:141-172 | raises division by zero exactly when the encoding is over budget and the area is zero; otherwise reports a change exactly when the encoded size exceeds the budget, returns the image unchanged when it does not, and shrinks both sides strictly by the 0.95·sqrt factor (no clamp, no second check) when it does |
| SplitKeys.FirstTif | split_pages/app.py:278 | returns the first index at or after `from` where a case-insensitive `.tif` starts, or none when there is no such index |
| SplitKeys.Stem | split_pages/app.py:278 | the first piece of `re.split`: a prefix of the key with no match before its end; it is the whole key exactly when the key has no match, and otherwise a match starts right after it |
| SplitKeys.DecimalString | split_pages/app.py:279 | `str(n)` is a non-empty run of decimal digits with no leading zero |
| SplitKeys.DecimalRoundTrip | split_pages/app.py:279 | reading the decimal string of `n` back gives `n` |
| SplitKeys.SplitKey | split_pages/app.py:277-279 | the split key is the stem of the source key, then `_SPLITPAGE_`, then exactly `str(n)` of the page number (`DecimalString`, so no leading zero), then `.tif`; that trailing `.tif` is its only case-insensitive match |
| SplitKeys.SplitKeyInjective | split_pages/app.py:277-279 | two page numbers that give the same split key of one source key are equal |
| Handler.ContainsIff | split_pages/app.py:256 | `Contains(key, t)`, Python's `t in key`, holds exactly when some suffix of the key starts with `t` |
| Handler.FixPage | split_pages/app.py:288-299 | the mode, dimension and memory checks are chained on each other's output. The memory check measures the page after the mode and dimension fixes: the call raises ZeroDivisionError exactly when that page is over budget and has a zero side, `memFixed` holds exactly when it is over budget, and without a memory fix the result is that page. The result is never bilevel, is within 10000 on both sides and never larger than the frame; a memory fix leaves it strictly smaller; if no check fired it is the frame itself |
| Handler.FixPageMemoryFix | split_pages/app.py:296-297 | after a memory fix on the chained page, the result keeps that page's mode and each side is that page's side scaled by 0.95 times the square root of the budget over its encoded size, rounded down (`SafetyScaled`, the arithmetic of app.py:157-163) |
| Handler.PageKeys | split_pages/app.py:277-286 | one output key per frame: `SplitKey(key, i+1)` for page `i+1` of a multi-page document, and the document's own key when it has a single page |
| Handler.StickyFlagIsPageIsModified | split_pages/app.py:268-299 | the source's `bool_modified` is set by a multi-page document or by a mode or memory fix on any page so far, and is never cleared; at every page that did not raise it agrees with the per-page rule `PageIsModified` (several pages, or a mode or memory fix on this page), and the handler's loop asserts at each such page that its flag equals `StickyFlag` |
| Handler.Run | split_pages/app.py:268-321 | after `k` pages the two lists hold at most `k` pages between them, and exactly `k` when nothing raised; there is one write per modified page (the contents of the lists and writes are stated by the lemmas below) |
| Handler.Outcome | split_pages/app.py:268-321 | for a whole document: the loop stops with an exception exactly when some page's checks raise; otherwise every page is in one of the two lists; a multi-page document has no unmodified page; there is one write per modified page |
| Handler.Report | split_pages/app.py:427-438 | the handler raises exactly when some page's checks raise; otherwise it reports the bucket, the original key and `page_count` equal to the number of frames, with `len(modified_pages) + len(pages) == page_count` and at most one unmodified page |
| Handler.LambdaHandler | split_pages/app.py:256-321 | a `.DS_Store` key returns the empty answer with no write; otherwise the loop (sticky flag, per-page checks, list appends, one write per modified page, early exit on an exception) returns exactly `Report` and the write log of the specification `Outcome` |
| Handler.RunFaultPersists | split_pages/app.py:296-297 | once a page's memory check has raised, no later page is processed |
| Handler.RunFaultIff | split_pages/app.py:273-299 | the loop stops with an exception exactly when the checks raise on one of the pages processed |
| Handler.RunPartitionsPages | split_pages/app.py:268-321 | without an exception, each page number `1..k` appears in exactly one of the modified and unmodified lists; both lists are in increasing page order and their lengths sum to `k` |
| Handler.RunWritesModifiedPages | split_pages/app.py:301-308 | writes happen exactly for the modified pages, in the same order and under the same references; each write stores the page that page's checks produced |
| Handler.WrittenPagesCompliant | split_pages/app.py:288-308 | every page written is not bilevel, is within 10000 on both sides and is no larger than its frame |
| Handler.RunKeysPages | split_pages/app.py:277-286 | every reported page carries the source bucket and the output key of its page number |
| Handler.MultiPageAllSplit | split_pages/app.py:277-283 | with more than one frame, nothing is unmodified; the i-th modified page is page `i+1` under the i-th output key; without an exception every page is modified |
| Handler.MultiPageKeys | split_pages/app.py:277-283 | with more than one frame, nothing is unmodified and the i-th modified page is page `i+1` under `SplitKey(key, i+1)` |
| Handler.ModifiedKeysDistinct | split_pages/app.py:277-308 | no two pages written for one document share a key |
| Handler.SinglePage | split_pages/app.py:284-299 | a single-frame document keeps its key and is modified (and written) exactly when the mode or memory check fired; a dimension fix alone does not count |
| Handler.DimensionOnlyFixIsDropped | split_pages/app.py:293-299 | a 20000×500 grayscale page whose resized encoding fits the budget has its dimensions fixed, yet it is reported unmodified under its original key and nothing is written |
| Handler.WrittenPageConverges | split_pages/app.py:301-321 | a written page that the handler processes again is passed through unmodified and not rewritten, provided its encoding now fits the budget |

## Left out

- Event decoding (`Records` versus EventBridge shapes) and `urllib.parse.unquote_plus` (split_pages/app.py:237-245). The handler takes the decoded bucket and key as parameters.
- The object fetch, `Image.open`, `n_frames`, `seek` and `copy` (split_pages/app.py:265-283). The document is given as its sequence of frame records, so aliasing between `im` and `page_im` is not modelled.
- `put_tif_buffer` and `s3.put_object` (split_pages/app.py:203-220). A write is a `Put` appended to the returned log. The handler discards the put's return value, so a failed put is not modelled.
- `sleep_if_needed` and `time.time()` (split_pages/app.py:222-229). These only pace the writes against the wall clock.
- Pillow internals: `convert`, LANCZOS `resize`, and the TIFF encoder (an uninterpreted `encode` parameter). Pillow's own refusal of a zero-sized resize is also left out, as are decode errors and store errors.
- The re-encoding after a memory fix (split_pages/app.py:165-168). It is only printed, and it does not affect the result.
- All `print` output.
- Commented-out code: the old `split_tiff` and the in-place overwrite branches.
- CheckOversizedDimen: computes the shorter side as the exact quotient rounded down. Python computes it in floating point, which can come out one pixel lower.
- ScaledSide: computes `0.95·sqrt(budget/size)·side` in exact arithmetic. Python's floating-point `sqrt` and products can differ from it by one pixel.
- CheckOversizedMem: the budget is a natural number. The source never passes anything but the default.
