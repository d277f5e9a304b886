# reCAPTCHA image-challenge loop, modelled in Dafny

This project models the decision logic of the content script `src/recaptcha.js`. The script watches a reCAPTCHA widget frame and its image-challenge frame, reads the challenge grid, asks a classifier which tiles show the requested object, clicks those tiles and decides whether to press the verify button. The page is abstracted into a snapshot. That snapshot holds:

- the instruction text;
- the table cells, each with an optional image carrying an optional `src` and a `naturalWidth`, plus a selected flag;
- the banner and button states as booleans.

The networks are abstracted into a score function from a model key and a picture to a vector of integer scores.

Modules, in dependency order:

- `Wrappers`: `Option` for `undefined`/`null`, and `Result` for a thrown `TypeError`.
- `Text`: the JavaScript string operations the script relies on.
  - `trim` with the ECMAScript whitespace set.
  - `replace(/\s+/g, rep)`.
  - `split('\n')` and `join`.
  - `indexOf`, and `replace` with a string pattern, which replaces the first occurrence only.
  - `toLowerCase` on ASCII letters.
- `Task`:
  - `get_task`;
  - the hard-mode flag;
  - the label canonicalisation chain;
  - the `label_cv` synonym table.
- `Grid`: the cell snapshot and one poll tick of `on_task_ready`, with its width rules, its fingerprint deduplication and its `for…of` scan written as a loop. Also the live-cell filter and the grid size `n`.
- `Arith` and `Tiling`: the crop rectangles cut from a background picture, with the row-major index arithmetic.
- `Selection`:
  - argmax and the match decision;
  - the click loop;
  - the submit condition.
- `History`: the nine-entry `solved_urls` FIFO.
- `Round`: the pictures of a round, the verdict loop, and how verdicts line up with clickable cells.
- `ContentScript`:
  - the class `Session`, which holds the script's module-level variables `last_urls_hash`, `was_solved`, `was_incorrect` and `solved_urls`;
  - the methods that update those variables: the poll tick, the widget-frame tick, the head of the image-frame tick, the history loop and a solving round;
  - the frame dispatch of the driver loop.
- `Tensor`: the RGBA-to-planar de-interleave of `imageDataToTensor`, and its mean/deviation normalisation in exact real arithmetic (see Findings).

Behaviour of the code worth knowing, each point stated as the model has it:

- **The history records `urls`, the per-cell list, never the background URL.** In background mode that list is all nulls, so a background round leaves the history holding nulls only (`History.NullRoundClearsUrls`). A background URL is therefore never filtered in a later round, even when the same background comes back.
- **A grid can have neither a background nor a per-cell URL.** No cell is 100 pixels wide and none is at least 300. The tick still resolves, with `background_url` null and every `urls` entry null, so the round classifies nothing. Having a background and having per-cell URLs are exclusive, but a grid may have neither (`Grid.ReadyUrlsByWidth`).
- **An incorrect-answer banner empties the history only on alternate ticks.** It empties it only when `was_incorrect` was clear (`ContentScript.IncorrectAlternates`). A banner that stays up for two ticks empties the history on the first and keeps it on the second.
- **A single-line instruction text makes `get_task` call `join` on `null`.** A missing instruction element makes it read `length` of `undefined`. Both throw, and the model reports them as `Threw`, each with its own error (`Grid.TickThrowsIff`). Because the throw happens inside the interval callback, the re-entrancy flag of the real poller stays set, and that poll never resolves. The model does not carry that flag (see Left out).
- **Multi-word task labels come out underscored, which no key of `label_cv` is.** Examples are `fire_hydrant`, `palm_trees` and `traffic_lights`. The classifier path then names `undefined` and loading it fails. So the fire-hydrant, palm-tree and traffic-light classifiers are unreachable (`Task.MultiWordModelsUnreachable`). The model reports such a round as `UnknownLabel` with no clicks and no history change.

## Model

| member | source | states |
|---|---|---|
| Text.Trim | src/recaptcha.js:128 | the result has whitespace at neither end; it is empty exactly when the input is all whitespace; an already-trimmed string is returned unchanged |
| Text.TrimIsSlice | src/recaptcha.js:128 | trimming keeps the slice of the input between a whitespace prefix and a whitespace suffix, and that slice has whitespace at neither end |
| Text.TrimKeepsText | src/recaptcha.js:128 | trimming removes whitespace only: the visible characters stay, in order |
| Text.TrimStartSplits | src/recaptcha.js:376 | the whitespace eaten after a leading article is a whitespace prefix, and what remains is the rest of the string |
| Text.Collapse | src/recaptcha.js:136 | text without whitespace is unchanged; with a whitespace-free replacement the result has no whitespace; a leading non-space character is kept |
| Text.CollapseSingleSpaced | src/recaptcha.js:136 | after replacing whitespace runs by one space, every whitespace character is a plain space followed by a non-space |
| Text.CollapseKeepsText | src/recaptcha.js:136 | replacing whitespace runs by whitespace keeps the visible (non-whitespace) characters in order |
| Text.CollapseSplit | src/recaptcha.js:136 | a whitespace run between two stretches of text becomes exactly one copy of the replacement, and each side is collapsed on its own |
| Text.WordsAppend | src/recaptcha.js:136 | the words of two texts separated by whitespace are the words of the first followed by the words of the second |
| Text.TidyWords | src/recaptcha.js:135-136 | collapsing whitespace runs to one space and trimming gives the words of the text joined by single spaces |
| Text.Split | src/recaptcha.js:158 | splitting at a separator yields one more piece than there are separators, and no piece holds the separator |
| Text.Join | src/recaptcha.js:135 | joining keeps the parts in order with one separator between neighbours: the first part starts the result, and its length is the parts' lengths plus one separator fewer than there are parts |
| Text.JoinSplit | src/recaptcha.js:158 | joining the split pieces with the separator gives back the original text |
| Text.IndexOf | src/recaptcha.js:373 | the result is the first position where the pattern occurs, or absent exactly when it occurs nowhere |
| Text.ReplaceFirst | src/recaptcha.js:373-374 | a string-pattern replace leaves the text unchanged when the pattern does not occur |
| Text.ReplaceFirstAt | src/recaptcha.js:373-374 | when the occurrence right after `x` is the first one, a string-pattern replace turns it into the replacement and keeps everything after it, later occurrences included |
| Text.LowerChar | src/recaptcha.js:378 | an upper-case ASCII letter becomes the lower-case letter at the same place in the alphabet; any other character is kept |
| Text.ToLower | src/recaptcha.js:378 | lower-casing keeps the length, maps each character as `LowerChar` does, leaves no upper-case ASCII letter, keeps whitespace-freeness and fixes lower-case text |
| Text.ToLowerAppend | src/recaptcha.js:378 | lower-casing works character by character, so it distributes over concatenation |
| Task.GetTask | src/recaptcha.js:131-144 | it throws exactly when the lines are undefined or fewer than two, with the `undefined` error exactly for undefined lines; a returned task is non-empty, trimmed and single-spaced |
| Task.BlankTask | src/recaptcha.js:135-142 | the task is `null` exactly when both of the first two instruction lines are blank |
| Task.IsHard | src/recaptcha.js:165 | a challenge with three instruction lines is hard, and its lines never make `get_task` throw |
| Task.GetTaskWords | src/recaptcha.js:131-144 | the task is the words of the first two lines joined by single spaces, and `null` when there are none |
| Task.GetTaskKeepsText | src/recaptcha.js:131-144 | a returned task holds exactly the visible characters of the first two lines, in order |
| Task.HardIffTwoLineFeeds | src/recaptcha.js:165 | the challenge is hard exactly when the instruction text holds two line feeds, and the split lines join back into the text |
| Task.StripArticle | src/recaptcha.js:376 | dropping the leading article leaves a suffix of the input, and whitespace-free text is left alone |
| Task.StripArticleDrops | src/recaptcha.js:376 | "a" or "an", in any case, followed by whitespace is removed together with all of that whitespace |
| Task.StripArticleIff | src/recaptcha.js:376 | the text is left alone exactly when it does not start with an article followed by whitespace |
| Task.NoArticleKept | src/recaptcha.js:376 | two words whose first is not "a" or "an", in any case, pass the article removal unchanged |
| Task.CanonicalLabel | src/recaptcha.js:372-378 | a canonical label contains no whitespace and no upper-case letter |
| Task.CanonicalFixesCleanNames | src/recaptcha.js:372-378 | a lower-case name without whitespace is its own canonical label |
| Task.CanonicalOfOneWord | src/recaptcha.js:372-378 | when the prefixes leave one word once trimmed, the label is that word lower-cased |
| Task.CanonicalLabelIdempotent | src/recaptcha.js:372-378 | canonicalising a canonical label changes nothing |
| Task.ModelKey | src/recaptcha.js:343-366 | a label the table knows selects a model named by the label itself or by the label without a final `s` or `es` |
| Task.SpacedKeysNeedSpacedNames | src/recaptcha.js:343-366 | a name without whitespace never selects the fire-hydrant, palm-tree or traffic-light model |
| Task.UnderscoredLabelUnmapped | src/recaptcha.js:343-366 | a label containing an underscore has no table entry |
| Task.MultiWordModelsUnreachable | src/recaptcha.js:343-378 | no task text ever selects the fire-hydrant, palm-tree or traffic-light model |
| Task.BicyclesExample | src/recaptcha.js:343-378 | "Select all images with Bicycles" canonicalises to `bicycles`, which selects the `bicycle` model |
| Task.ImagesArticleTwoWords | src/recaptcha.js:372-378 | "Select all images with a `w1` `w2`", for any two non-empty words without whitespace and the article in any case, canonicalises to `w1` and `w2` lower-cased and joined by `_` |
| Task.SquaresTwoWords | src/recaptcha.js:372-378 | "Select all squares with `w1` `w2`", for any two non-empty words without whitespace whose first is not "a" or "an" in any case, canonicalises to `w1` and `w2` lower-cased and joined by `_`; a first word "a" or "an" is dropped as an article instead (`Task.StripArticleDrops`) |
| Task.FireHydrantExample | src/recaptcha.js:343-378 | "Select all images with a fire hydrant" canonicalises to `fire_hydrant`, which has no table entry |
| Task.TrafficLightsExample | src/recaptcha.js:343-378 | "Select all squares with traffic lights" canonicalises to `traffic_lights`, which has no table entry |
| Grid.CellUrl | src/recaptcha.js:179-189 | a cell's URL, when present, is non-empty and trimmed, and comes from an image with a `src` |
| Grid.CellUrlIsTrimmedSrc | src/recaptcha.js:127-129 | a cell's URL is its trimmed `src`, present exactly when there is an image whose `src` is not all whitespace |
| Grid.PerCellUrls | src/recaptcha.js:174-196 | `urls` has one entry per cell, that cell's URL when its image is 100 pixels wide and null otherwise |
| Grid.LastWideIndex | src/recaptcha.js:191-192 | the index found is the last cell at least 300 pixels wide, or there is no such cell |
| Grid.ScanCell | src/recaptcha.js:191-196 | one cell of the scan: a wide image becomes the background, a 100-pixel image records its URL at its index and marks a secondary image, and nothing else changes |
| Grid.ScanCells | src/recaptcha.js:173-203 | the scan completes exactly when every cell has an image with a non-empty URL, and then returns the background and per-cell URLs of the width rules |
| Grid.Tick | src/recaptcha.js:156-214 | a tick that throws or finds nothing keeps the fingerprint; a resolving tick carries the task `get_task` returned for the instruction lines, is hard exactly when the text has three lines (two line feeds), has 9 or 16 cells all with URLs and stores a new fingerprint made of its background and URLs |
| Grid.TickReadyIff | src/recaptcha.js:156-214 | a tick resolves exactly when there is a task, 9 or 16 cells all with URLs, and a fingerprint different from the last one |
| Grid.TickThrowsIff | src/recaptcha.js:131-139 | a tick throws exactly when the instructions element is missing or its text has no line feed; the error is the `undefined` read exactly in the first case and the `join` on `null` exactly in the second |
| Grid.TickTwiceNothingNew | src/recaptcha.js:205-210 | a second tick on an unchanged snapshot resolves nothing and keeps the fingerprint |
| Grid.ReadyUrlsByWidth | src/recaptcha.js:191-203 | only 100-pixel cells get a URL entry; any of them nulls the background; otherwise the background is the last wide cell's URL, if any; a background excludes all per-cell URLs |
| Grid.BackgroundIsLastWide | src/recaptcha.js:191-203 | a background URL is the URL of the last cell at least 300 pixels wide on a grid without 100-pixel images, so no cell then has a per-cell URL; when every cell has a URL, there is a background exactly when no image is 100 pixels wide and some image is at least 300 wide |
| Grid.FingerprintIgnoresSelection | src/recaptcha.js:205-210 | two grids holding the same images have the same fingerprint whichever tiles are selected, so clicking tiles never makes a grid look new |
| Grid.GridSize | src/recaptcha.js:327 | `n` is 3 exactly for 9 cells, and `n * n` is the cell count for 9 and 16 cells |
| Grid.LiveIndices | src/recaptcha.js:329-337 | the live cells are exactly the indices whose URL is present and not in the history, in increasing order |
| Grid.LiveUrls | src/recaptcha.js:329-337 | `image_urls` holds the URL of each live cell, aligned with the live indices |
| Grid.FilterLive | src/recaptcha.js:326-341 | per-cell mode yields the live indices and their URLs; background mode yields the background URL and every cell |
| Tiling.CropSize | src/recaptcha.js:390 | the crop size is non-negative and `n` crops span the picture width |
| Tiling.Crops | src/recaptcha.js:392-396 | there are `n * n` crops |
| Tiling.CropOrder | src/recaptcha.js:392-396 | crop `i * n + j` is the square in row `i` and column `j`: the crops come row by row |
| Tiling.CropsInside | src/recaptcha.js:390-394 | every crop is a square of side `width / n` lying inside the picture's top-left `width` square |
| Tiling.TileCrops | src/recaptcha.js:389-396 | the nested crop loops produce exactly the row-major crops |
| Selection.Argmax | src/recaptcha.js:415 | the result is the first index of a largest score, or -1 for an empty output |
| Selection.IsMatch | src/recaptcha.js:415-416 | a tile matches only when the output has at least two classes and class 1 scores strictly above class 0 |
| Selection.MatchIff | src/recaptcha.js:415-416 | a tile matches exactly when class 1 beats class 0 strictly and no later class beats class 1, so a tie is no match |
| Selection.CountTrue | src/recaptcha.js:421-426 | the count is at most the number of verdicts, and zero exactly when nothing matched |
| Selection.ClickTrace | src/recaptcha.js:428-432 | the loop clicks no more cells than there are matches |
| Selection.ClickedIff | src/recaptcha.js:421-433 | a cell is clicked exactly when a matching tile maps to it and it was unselected; no other cell is touched |
| Selection.ClickedWereUnselected | src/recaptcha.js:429-430 | a clicked cell was not selected before the round |
| Selection.ClickMatches | src/recaptcha.js:421-433 | the loop counts every match and clicks exactly the traced cells |
| Selection.ShouldSubmit | src/recaptcha.js:442-446 | only 3 by 3 and 4 by 4 rounds submit, and a 4 by 4 round always does |
| Selection.SubmitTable | src/recaptcha.js:442-446 | a 4 by 4 round always submits; a 3 by 3 round submits unless it is hard and clicked something or found the images not ready |
| History.Push | src/recaptcha.js:436-439 | one push keeps the history within nine entries, ends with the new entry, and only appends below the cap |
| History.PushKeepsLast | src/recaptcha.js:436-439 | pushing onto the last `m` entries gives the last `min(9, m + 1)` entries of the extended sequence |
| History.RecordAll | src/recaptcha.js:435-440 | after recording, the history ends with the round's last entry, and while it stays within nine entries every old and new entry is kept in order |
| History.RecordKeepsLastNine | src/recaptcha.js:435-440 | from at most nine entries, recording yields exactly the last `min(9, old + new)` entries of the old history followed by the round's URLs |
| History.RecordBounded | src/recaptcha.js:435-440 | the history never exceeds nine entries |
| History.LongRoundReplacesHistory | src/recaptcha.js:435-440 | a round with at least nine entries leaves exactly its last nine, whatever came before |
| History.NullRoundClearsUrls | src/recaptcha.js:435-440 | a round of nine or more nulls leaves nine nulls, so no URL is filtered afterwards |
| Round.Clickable | src/recaptcha.js:326-341 | the clickable cells are distinct and in grid order, and when the URL list has one entry per cell each is a cell of the grid |
| Round.SubImagesOf | src/recaptcha.js:380-397 | per-cell mode has one picture per live cell; background mode has `n * n` pictures |
| Round.CollectSubImages | src/recaptcha.js:380-397 | the read and crop loops produce exactly the round's pictures |
| Round.Verdicts | src/recaptcha.js:404-417 | there is one verdict per picture, true exactly when the picture's scores match |
| Round.Classify | src/recaptcha.js:404-417 | the inference loop produces exactly the verdicts |
| Round.PicturesMatchCells | src/recaptcha.js:326-341 | on a grid the tick accepted there is one picture per clickable cell, so verdicts and cells stay aligned |
| Round.PictureOfClickableCell | src/recaptcha.js:326-397 | picture `k` is the image at clickable cell `k`'s own URL, or, in background mode, the square in row `k / n` and column `k % n`, clickable cell `k` being cell `k` |
| Round.LiveAreFreshSecondaries | src/recaptcha.js:329-337 | in per-cell mode a cell is live exactly when its image is 100 pixels wide and its URL is not in the history |
| Round.ClickedCellsMatched | src/recaptcha.js:421-433 | every clicked cell is an unselected clickable cell whose picture matched |
| Round.TwoMatchesScenario | src/recaptcha.js:421-446 | a 3 by 3 grid matching tiles 1 and 4 clicks cells 1 and 4, counts two clicks and submits when easy |
| ContentScript.Gate | src/recaptcha.js:289-320 | an image-frame tick goes on to solve exactly when it is not rate limited, not solved, shows no select-more error and its images loaded |
| ContentScript.GateWaitsQuietly | src/recaptcha.js:289-297 | while rate limited or solved a tick changes nothing |
| ContentScript.GateFlags | src/recaptcha.js:299-313 | `was_incorrect` becomes set exactly when the banner shows and it was clear; the history is emptied exactly then or on a select-more error |
| ContentScript.IncorrectAlternates | src/recaptcha.js:299-305 | while the incorrect banner stays up the flag flips every tick, and each tick that sets it empties the history |
| ContentScript.Dispatch | src/recaptcha.js:513-517 | the widget handler runs whenever the frame is a widget frame; the image handler only otherwise |
| ContentScript.Session.constructor | src/recaptcha.js:503-505 | the session starts with no fingerprint, both flags clear and an empty history |
| ContentScript.Session.WidgetFrame | src/recaptcha.js:271-279 | `was_solved` ends equal to the solved state, and the image frame is opened exactly when unsolved |
| ContentScript.Session.ImageFrameGate | src/recaptcha.js:289-320 | the head of the image-frame tick updates the flag and history as the gate says and changes nothing else |
| ContentScript.Session.PollTick | src/recaptcha.js:156-214 | the imperative tick returns the tick's outcome and stores its fingerprint, leaving the other variables alone |
| ContentScript.Session.RecordUrls | src/recaptcha.js:435-440 | the push/shift loop leaves exactly the history that recording the round's entries one by one specifies, and keeps it within nine entries |
| ContentScript.Session.SolveRound | src/recaptcha.js:326-447 | an unmapped label stops the round with nothing changed; otherwise the round clicks the traced cells, counts the matches, records the round's URLs and submits per the table |
| Tensor.Plane | src/recaptcha.js:33-37 | plane `c` holds channel `c` of every pixel in pixel order |
| Tensor.Deinterleave | src/recaptcha.js:29-40 | the push loop yields the red, green and blue planes concatenated |
| Tensor.PlanarLayout | src/recaptcha.js:39-40 | planar entry `c * P + p` is channel `c` of pixel `p` |
| Tensor.DeinterleaveDropsOnlyAlpha | src/recaptcha.js:33-40 | two buffers give the same planar data exactly when they agree on every red, green and blue value |
| Tensor.NormalizeAsWritten | src/recaptcha.js:48-50 | entry `i` is normalised with the statistics of channel `i % 3` |
| Tensor.Normalize | src/recaptcha.js:43-50 | the in-place loop produces the as-written normalisation |
| Tensor.NormalizeMixesChannels | src/recaptcha.js:48-50 | on a two-pixel image, the red value of the second pixel is normalised with the green statistics, so the output differs from per-channel normalisation |
| Tensor.NormalizeByChannel | src/recaptcha.js:45-50 | per-channel normalisation keeps the length |
| Tensor.ByChannelUsesOwnChannel | src/recaptcha.js:45-50 | per-channel normalisation scales every channel value with its own channel's mean and deviation |

## Left out

- DOM reads are not modelled. The snapshot and the boolean signals stand for `querySelector`, `innerText`, `classList`, `style`, `tabIndex`, `disabled` and `aria-checked`. So the internals of `is_solved`, `got_solve_incorrect`, `got_solve_error` and `is_cell_selected` are not modelled, and neither are the frame predicates.
- Clicks are outputs, not DOM events. A click is a cell index in the round's output, and opening the image frame is a boolean result.
- Timers are not modelled: `setInterval`, `Time.sleep`, `Time.random_sleep` and `Date.now`.
  - The 15-second wait of `on_images_ready` becomes a boolean input.
  - The repeated polling of `on_task_ready` is one tick per call.
- The `checking` re-entrancy flag is not modelled. After a tick throws, the real poller stays blocked and the round never starts. In the model, a throwing tick simply returns `Threw` (`Grid.TickThrowsIff` says exactly when).
- Image decoding, resizing and cropping pixels (Jimp) are not modelled, and neither is running the networks (ONNX). A failed decode or model load rejects the promise, which ends the driver loop. The model keeps the pictures as URLs or crop rectangles, and represents the networks by the score function.
- ContentScript.Session.SolveRound: an unmapped label is reported as the `UnknownLabel` outcome. In the source, loading the `undefined` model rejects, and that ends the driver loop. That termination is not modelled.
- The infinite driver loop is not modelled beyond its dispatch order.
- `check_image_frame_visibility` and `check_widget_frame_visibility` are not modelled: their calls are commented out, and `BG` does not exist.
- `console.log` is not modelled, and neither is the build configuration.
- The `JSON.stringify` fingerprint becomes the pair itself. Two pairs are equal exactly when their JSON strings are.
- Tiling.CropSize: the crop size is an exact real, and Jimp's rounding of fractional crop coordinates and its clipping at the picture's edge are not modelled.
- Selection.Argmax: scores are integers. Float32 outputs, `NaN` and `-0` are not modelled.
- Tensor.Normalize: the arithmetic is exact over the reals, not `Float32Array` rounding.
- Tensor.Deinterleave: the buffer length must be a multiple of four, as it is for Jimp's RGBA bitmaps. The `undefined` reads of a ragged buffer are not modelled.
- Text.ToLower: only ASCII letters are lower-cased. Non-ASCII upper-case letters are left as they are.
- Text.Split: the separator is a single character, which is all the script uses.

## Findings

| source | as written | input that shows it | evidently intended | confidence | as-written member | corrected member |
|---|---|---|---|---|---|---|
| src/recaptcha.js:48-50 | the planar data (all red, then all green, then all blue) is normalised with `mean[i % 3]` and `std[i % 3]`, which cycle by entry, not by channel | a two-pixel image: planar index 1 is the second pixel's red value, but it is normalised with the green mean and deviation | each value normalised with its own channel's statistics, channel `i / P` for `P` pixels | high; not executed | Tensor.NormalizeAsWritten, Tensor.NormalizeMixesChannels | Tensor.NormalizeByChannel, Tensor.ByChannelUsesOwnChannel |
