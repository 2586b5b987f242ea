# WebP Converter core — crop geometry and file-name generator, in Dafny

This project models two parts of the desktop WebP converter `webp_converter.py`:

* **The interactive crop widget (`CropWidget`)**. Its selection rectangle is kept in
  original-image pixels. The model covers these operations:
  - the boundary clamp (`_constrain_crop`);
  - the per-event drag rule of the nine handles with its minimum-size rejection
    (`mouseMoveEvent`);
  - the aspect-ratio correction during a drag;
  - the aspect re-projection when a ratio is chosen (`set_aspect_ratio`,
    `_apply_aspect_ratio`);
  - the numeric resize (`set_crop_size`);
  - loading an image and resetting (`set_image`, `reset_crop`);
  - the hit test that picks a handle under the pointer (`_get_handle_at`) and the
    cursor shown for it (`_get_cursor_for_handle`);
  - press and release.

  The widget as a whole is a state machine over these inputs (`CropWidget.Run`). It is
  proved never to leave the image once one is loaded.
* **The name generator (`NameGenerator`)**. Covered:
  - keyword clean-up;
  - the modifier pool of 31 vocabulary words minus the keywords;
  - `generate(count)`: four enumeration phases (orderings of the keywords, a modifier
    before them, after them, and two different modifiers around them), each with
    separators `-` then `_`, skipping repeats and returning as soon as `count` names
    exist, followed by the numbered fallback `keywords_1`, `keywords_2`, …;
  - `estimate_combinations`.

The model is written as pure functions over immutable datatypes. Files:

| file | module | content |
|---|---|---|
| `wrappers.dfy` | `Wrappers` | `Option` |
| `ints.dfy` | `Ints` | `min` and `max` on integers |
| `seqs.dfy` | `Seqs` | sequences without repeats, order-keeping selections |
| `rects.dfy` | `Rects` | points, `QRect` with Qt's `right()`, `bottom()`, `contains()` |
| `handles.dfy` | `Handles` | handle zones, hit test, cursor shapes |
| `crop.dfy` | `Crop` | clamp, drag rules, ratio lock, re-projection, numeric resize |
| `crop_widget.dfy` | `CropWidget` | the widget state, its input events, the safety invariant |
| `decimal.dfy` | `Decimal` | `str(n)` for `n >= 0` and its inverse |
| `permutations.dfy` | `Permutations` | `itertools.permutations` order and count |
| `words.dfy` | `Words` | `join`, `split`, `strip`, `lower`, keyword clean-up |
| `name_generator.dfy` | `NameGenerator` | vocabulary, pool, phases 1–5, estimate |

Modelling choices:

* `int(a / b)` with float `a / b` becomes `Crop.TruncDiv`, an exact integer quotient that
  truncates toward zero. A ratio comparison `w / h > rw / rh` becomes
  `w * rh > h * rw`. Python's `// 2` is floor division, the same as Dafny's `/` by 2 for
  every sign.
* `QRect(x, y, w, h).contains(p)` follows Qt 6:
  - a span of non-negative length `len` from `start` covers `start .. start + len - 1`;
  - a span of negative length covers `start + len .. start - 1`;
  - `right()` is `x + w - 1`.

  This matters because the edge bands of the hit test have length `w - 20`, which is
  negative for a small selection on screen.
* The widget's "no pixmap" state is `image == None`. `_constrain_crop` returns
  immediately without an image, so a drag before any image is loaded is not clamped.
* The generator's `_generated` set always equals the set of names emitted so far, so
  membership in the emitted sequence stands for it.
* Each candidate of phases 1–4 is a `Candidate(pre, ordering, post, sep)`: the words
  before the keyword ordering, the ordering, the words after it, and the separator.
  `Text` spells it out as `sep.join(pre + ordering + post)`. `Plan(g)` lists the candidates
  in loop order and `Candidates(g)` their texts.
* The behaviour of `generate` is stated against a reference order, `Dedup(Candidates(g), [])`:
  every candidate of phases 1–4 that has not appeared before, in order. A scan that
  returns early is a prefix of it.
* `estimate_combinations` is not strictly increasing in the keyword count: it gives
  1986 for both 0 and 1 keywords, because `0! == 1!`. `NameGenerator.EstimateMonotone`
  states equality at 0 and 1 and strict growth from 1 on.
* The screen and the float view transform are inputs. The pointer
  displacement `(dx, dy)` arrives already in image pixels, and the selection as drawn
  on screen (`view`) arrives already computed.

## Model

| member | source | states |
|---|---|---|
| Rects.SpanContains | webp_converter.py:491-511 | one axis of Qt 6 `QRect::contains`, the definition that the lemmas `ContainsNormalised` and `NegativeSpan` characterise: `start .. start + len - 1` for `len >= 0`, `start + len .. start - 1` for `len < 0` |
| Rects.Contains | webp_converter.py:491-511 | `QRect(x, y, w, h).contains(p)`: both axes contain the point |
| Rects.ContainsNormalised | webp_converter.py:511 | for a rectangle of non-negative extent, `contains` is the half-open box test |
| Rects.NegativeSpan | webp_converter.py:500-507 | a span of negative length (an edge band of a selection shorter than 20 on screen) covers exactly the points from `start + len` up to `start - 1` |
| Rects.EmptyContainsNothing | webp_converter.py:501-508 | a zone of zero width or height (an edge band of a 20-unit selection) contains no point |
| Handles.PriorityListsEveryHandle | webp_converter.py:485-514 | the hit test tries each of the nine handles exactly once |
| Handles.Zone | webp_converter.py:490-511 | the rectangle tested for each handle: corner boxes of side `2 * 10` around each corner, edge bands of thickness 20 between the corner boxes (length `w - 20` or `h - 20`), the selection itself for `MOVE`; `HandleAt` states the first-match rule over these zones |
| Handles.HandleAt | webp_converter.py:485-514 | the chosen handle's zone contains the pointer; every zone earlier in the order (four corners, four edges, interior) does not; `NoHandle` exactly when no zone contains it |
| Handles.CornerWinsAndNoneMeansOutside | webp_converter.py:485-514 | a pointer in the top-left box always grabs that corner; the result is `NONE` iff the pointer is outside the rectangle and every resize zone |
| Handles.CursorFor | webp_converter.py:516-529 | diagonal cursors exactly for the corners along each diagonal; vertical and horizontal arrows exactly for handles that change only the height or only the width; the move cursor for `MOVE`; the arrow for `NONE` |
| Crop.TruncDiv | webp_converter.py:347-353 | `int(a / b)` for `b > 0`: for `a >= 0` the result `q` has `q * b <= a < (q + 1) * b`; for `a < 0` it has `(q - 1) * b < a <= q * b`, so it rounds toward zero for both signs |
| Crop.QuotientAtLeast | webp_converter.py:620-624 | the truncated quotient reaches a positive bound exactly when the dividend reaches bound times divisor |
| Crop.Constrain | webp_converter.py:456-483 | the result lies inside the image with each side in `[min(50, dim), dim]`; each side is the admissible value nearest the request, and the origin is the admissible value nearest the request given the new size |
| Crop.ConstrainFixesExactlyFits | webp_converter.py:456-483 | the clamp changes nothing exactly when the rectangle already fits |
| Crop.ConstrainIdempotent | webp_converter.py:456-483 | clamping twice equals clamping once |
| Crop.ApplyHandle | webp_converter.py:550-614 | `MOVE` translates the start rectangle; an accepted resize moves the grabbed edges by the displacement and keeps the opposite edges and the untouched axis; a resize that would make a changed side shorter than 50 leaves the current rectangle unchanged |
| Crop.CursorMatchesDragAxes | webp_converter.py:550-614 | a handle shown with the horizontal arrow never changes `y`/`h`; one shown with the vertical arrow never changes `x`/`w` |
| Crop.LockRatio | webp_converter.py:616-625 | keeps the origin; when the width's height reaches 50 the width stays and the height is the width under the ratio rounded down; otherwise the height is 50 and the width follows it |
| Crop.CutWidth | webp_converter.py:347-350 | for a too-wide rectangle the new width is the height's width under the ratio, strictly narrower than before |
| Crop.CutHeight | webp_converter.py:351-354 | for a rectangle that is not too wide the new height is the width's height under the ratio, never taller than before |
| Crop.AspectProject | webp_converter.py:333-362 | the centre (by `// 2`) is kept; a too-wide rectangle keeps its height and is cut to the ratio; otherwise the width is kept and the height is cut to the ratio |
| Crop.DragStep | webp_converter.py:537-629 | with no active handle the rectangle is unchanged; with an image loaded every drag event leaves a rectangle that fits |
| Crop.RejectedDragKeepsRect | webp_converter.py:555-614 | with no ratio locked, a resize drag refused by the minimum-size rule leaves a fitting rectangle exactly as it was |
| Crop.MoveKeepsSize | webp_converter.py:550-554 | dragging the interior of a fitting rectangle keeps its size; each coordinate goes to the in-image position nearest the requested one |
| Crop.ResizeCentred | webp_converter.py:370-381 | each side is the value in `[50, image side]` nearest the request, or 50 when the image side is below 50; the centre (by `// 2`) is kept |
| Crop.SetCropSize | webp_converter.py:364-384 | the result fits; each side is the admissible value nearest the request; the centre is kept whenever the re-centred rectangle lies inside the image |
| Crop.FullImage | webp_converter.py:392-396 | the whole image fits, and no fitting rectangle is wider or taller |
| CropWidget.Initial | webp_converter.py:300-323 | a fresh widget has no image, no ratio and no active handle |
| CropWidget.SetImage | webp_converter.py:386-398 | loading an image selects exactly all of it, keeps the ratio and the drag state |
| CropWidget.ResetCrop | webp_converter.py:446-454 | without an image nothing changes; with one, only the selection changes, to the whole image |
| CropWidget.SetAspectRatio | webp_converter.py:325-331 | the ratio is stored; image, active handle and drag start are kept; the selection changes only when a ratio is set and an image is loaded, and then it fits |
| CropWidget.ChosenRatioIsKept | webp_converter.py:325-362 | when the re-projection of the selection to the chosen ratio already lies inside the image, the clamp leaves it alone: the stored selection is exactly the re-projection, and so has the chosen ratio (the cut side is the other side under the ratio, rounded down) |
| CropWidget.SetSize | webp_converter.py:364-368 | a no-op without an image; otherwise the selection fits and image, ratio, active handle and drag start are unchanged |
| CropWidget.Press | webp_converter.py:531-535 | the active handle is the hit test's result and the drag start is the current selection; the selection, image and ratio are unchanged |
| CropWidget.Drag | webp_converter.py:537-629 | with no active handle the widget is unchanged; a drag changes only the selection: image, ratio, active handle and drag start are kept |
| CropWidget.Release | webp_converter.py:631-633 | the drag ends; the selection, image, ratio and drag start are kept |
| CropWidget.Step | webp_converter.py:325-633 | the widget's response to one input (load, reset, ratio, typed size, press, move, release); every input keeps a loaded image's selection inside it with admissible sides |
| CropWidget.Run | webp_converter.py:325-633 | a session: the inputs applied one after another from a starting widget; `RunKeepsValid` states what it keeps |
| CropWidget.RunKeepsValid | webp_converter.py:325-633 | any sequence of inputs from a valid state keeps the selection valid |
| CropWidget.AnySessionStaysInside | webp_converter.py:300-633 | from a fresh widget, no sequence of inputs produces a selection outside the image |
| CropWidget.CollapsingDragIsIgnored | webp_converter.py:555-614 | with no ratio, a press on a resize handle followed by a too-small drag leaves the selection as it was |
| Decimal.Show | webp_converter.py:168 | the rendering of the fallback counter is non-empty, all digits, no leading zero |
| Decimal.ParseShow | webp_converter.py:168 | reading the rendering back gives the number |
| Decimal.ShowInjective | webp_converter.py:168 | different counters render differently |
| Permutations.Perms | webp_converter.py:104-107 | `itertools.permutations(words)` as a list: for each position `i` in turn, `s[i]` in front of every ordering of the others; `PermsArePermutations`, `PermsComplete`, `PermsDistinct` and `PermsCount` state its count and contents; the order is the definition's |
| Permutations.PermsFrom | webp_converter.py:104-107 | the orderings whose first element comes from position `i` or later, in itertools order |
| Permutations.PermsCount | webp_converter.py:104-107 | `n` keywords have `n!` orderings |
| Permutations.PermsStartWithIdentity | webp_converter.py:104-107 | the first ordering is the keywords as given |
| Permutations.PermsArePermutations | webp_converter.py:104-107 | every listed ordering has exactly the keywords, with multiplicity |
| Permutations.PermsComplete | webp_converter.py:104-107 | every rearrangement of the keywords, with multiplicity, is listed |
| Permutations.PermsDistinct | webp_converter.py:104-107 | for keywords without repeats no ordering is listed twice |
| Permutations.PermsOfTwo | webp_converter.py:104-107 | two keywords `a, b` give `[a, b]` then `[b, a]` |
| Words.Join | webp_converter.py:109-111 | joining no word gives `""`, one word gives the word |
| Words.JoinAppend | webp_converter.py:109-111 | joining a concatenation puts the separator between the two joins |
| Words.SplitJoin | webp_converter.py:109-111 | words free of the separator character are recovered by splitting their join |
| Words.Strip | webp_converter.py:92 | the result is a slice `s[i..j]` with only whitespace before `i` and after `j`, and none at its own ends; it is empty iff the word is all whitespace; a word without surrounding whitespace is unchanged |
| Words.Lower | webp_converter.py:92 | same length, no capital left, each capital shifted to its lower-case letter, every other character kept |
| Words.CleanOne | webp_converter.py:92 | one word contributes its stripped lower-case form exactly when the stripped form is non-empty; a clean word contributes itself |
| Words.Normalize | webp_converter.py:92 | the result is an order-keeping selection: at increasing positions, exactly those whose stripped form is non-empty, it holds the stripped lower-case form; every result is non-empty, stripped and lower case; already-clean keywords are kept as given |
| Words.NormalizeCleansAt | webp_converter.py:92 | the cleaned keywords are, position by position, the stripped lower-case forms of the non-blank input words in input order |
| Words.NormalizeIdempotent | webp_converter.py:92 | cleaning the cleaned keywords changes nothing |
| NameGenerator.VocabularyFacts | webp_converter.py:61-75 | the vocabulary has 31 pairwise different, lower-case words |
| NameGenerator.VocabularyLowerCase | webp_converter.py:99 | every vocabulary word is its own lower-case form, so `mod.lower()` is `mod` |
| NameGenerator.CategoriesDisjoint | webp_converter.py:61-75 | no word is in two categories |
| NameGenerator.Keep | webp_converter.py:96-100 | the result is the order-keeping selection of the words whose lower-case form is not a keyword: an increasing list of positions, exactly those words, and the result holds the word at each; so membership is iff, and distinctness is kept |
| NameGenerator.ModifierPool | webp_converter.py:95-100 | the pool is the vocabulary (adjectives, then states, then SEO suffixes) with the keywords taken out, in vocabulary order at increasing positions; pairwise different, at most 31; the whole vocabulary when no keyword is a vocabulary word |
| NameGenerator.New | webp_converter.py:90-102 | the keywords are the clean-up `Normalize` of the given words, all clean, and the modifiers are the pool for them |
| NameGenerator.Variants | webp_converter.py:120-122 | two candidates per ordering |
| NameGenerator.Texts | webp_converter.py:122 | one text per candidate, each the candidate's `sep.join(pre + ordering + post)` |
| NameGenerator.VariantsAt | webp_converter.py:120-122 | for ordering `i`, candidate `2i` is its `-` join and candidate `2i + 1` its `_` join, with the given words before and after |
| NameGenerator.Prefixed | webp_converter.py:130-133 | phase 2 offers `2 * orderings` candidates per modifier |
| NameGenerator.PrefixedSplit | webp_converter.py:130-133 | phase 2 is the block of modifiers before `i`, then modifier `i` in front of every ordering, then the modifiers after `i` |
| NameGenerator.PrefixedAt | webp_converter.py:130-133 | entry `i * 2p + x` of phase 2 is entry `x` of modifier `i` in front of the orderings; with `VariantsAt` this is the `x / 2`-th ordering with `[mod] + perm`, `-` for even `x` and `_` for odd |
| NameGenerator.PrefixedNames | webp_converter.py:130-133 | with `p` orderings, the candidate at `i * 2p + 2j` is `[mods[i]] + perms[j]` joined by `-`, and the next one the same joined by `_` |
| NameGenerator.Suffixed | webp_converter.py:141-144 | phase 3 offers `2 * orderings` candidates per modifier |
| NameGenerator.SuffixedSplit | webp_converter.py:141-144 | phase 3 is the block of modifiers before `i`, then modifier `i` after every ordering, then the modifiers after `i` |
| NameGenerator.SuffixedAt | webp_converter.py:141-144 | entry `i * 2p + x` of phase 3 is entry `x` of modifier `i` after the orderings, `perm + [mod]` |
| NameGenerator.SuffixedNames | webp_converter.py:141-144 | with `p` orderings, the candidate at `i * 2p + 2j` is `perms[j] + [mods[i]]` joined by `-`, and the next one the same joined by `_` |
| NameGenerator.Around | webp_converter.py:153-157 | phase 4's inner loop for one `mod1`: for each `mod2` in pool order with `mod2 != mod1`, the two candidates of `[mod1] + perm + [mod2]` per ordering; `AroundNames` and `AroundCount` state its content and size |
| NameGenerator.Doubled | webp_converter.py:151-162 | phase 4: the inner loop for each `mod1` in pool order; `DoubledAt` and `DoubledCount` state its content and size |
| NameGenerator.Plan | webp_converter.py:113-162 | the candidates of phases 1–4 in the order they are tried, repeats included; `CandidatesCount` gives their number and the `...Names` lemmas their positions |
| NameGenerator.Candidates | webp_converter.py:113-162 | the candidate names of phases 1–4, each the text of the planned candidate at the same position |
| NameGenerator.AroundSplit | webp_converter.py:153-157 | for a first modifier `mod1`, the inner loop is the pairs before `mod2 = mods[k]`, then `mod1` before and `mods[k]` after every ordering, then the pairs after; needs `mods[k] != mod1` |
| NameGenerator.AroundAt | webp_converter.py:153-157 | the `x`-th candidate after the block of `mods[..k]` is entry `x` of `[mod1] + perm + [mods[k]]` over the orderings |
| NameGenerator.AroundNames | webp_converter.py:153-157 | for `mod1` and a different `mod2 = mods[k]`, the candidate `2j` after the pairs with earlier second modifiers is `[mod1] + perms[j] + [mod2]` joined by `-`, and the next one the same joined by `_` |
| NameGenerator.DoubledSplit | webp_converter.py:152-157 | phase 4 is the block of first modifiers before `a`, then the inner loop of `mods[a]`, then the rest |
| NameGenerator.DoubledAt | webp_converter.py:152-157 | the `y`-th candidate after the block of first modifiers before `a` is the inner loop's `y`-th candidate for `mod1 = mods[a]`; chained with `AroundNames` it names every phase 4 candidate |
| NameGenerator.Dedup | webp_converter.py:113-162 | the reference order starts with the names already emitted, repeats nothing, holds every candidate and nothing else |
| NameGenerator.DedupInOrder | webp_converter.py:120-162 | after the names already emitted, the reference order lists the candidates at the positions where a name occurs for the first time and was not emitted before, in increasing position order, so in the order the loops try them |
| NameGenerator.Scan | webp_converter.py:118-162 | phases 1–4 with early return: the names already emitted stay in front, nothing is repeated, and only candidates are added |
| NameGenerator.ScanIsPrefixOfDedup | webp_converter.py:113-162 | phases 1–4 with early return give the first `max(count, 1)` entries of the reference order, or all of it |
| NameGenerator.Numbered | webp_converter.py:168 | the fallback name `f"{base}_{counter}"`: the base, `_`, then digits that read back as the counter |
| NameGenerator.NumberedInjective | webp_converter.py:168 | different counters give different fallback names |
| NameGenerator.PendingShrinks | webp_converter.py:167-172 | a taken counter value uses up one of the finitely many collisions, so the fallback loop ends |
| NameGenerator.Fallback | webp_converter.py:164-172 | phase 5 completes the list to exactly `count` names, keeps what was there, adds only numbered names with counter at least the start, and repeats nothing; `FallbackInOrder` fixes which counters and in what order |
| NameGenerator.FreeNames | webp_converter.py:166-171 | reference order for phase 5: the numbered names of a counter range that are not already taken, in increasing counter order |
| NameGenerator.FreeNamesContents | webp_converter.py:166-171 | a name is among a range's free names exactly when a counter in the range produces it and it is not already taken |
| NameGenerator.FreeNamesSound | webp_converter.py:166-171 | every free name of a counter range is untaken and produced by a counter in the range |
| NameGenerator.FreeNamesComplete | webp_converter.py:166-171 | every counter of the range whose name is untaken contributes that name |
| NameGenerator.FreeNamesBelow | webp_converter.py:168-169 | a counter past the range produces none of its free names, so the loop's own appends never block a later counter |
| NameGenerator.FallbackFrom | webp_converter.py:166-172 | the loop, resumed after it has appended the free names of the counters so far, ends with the free names of a longer range |
| NameGenerator.FallbackInOrder | webp_converter.py:164-172 | phase 5 appends the free names from the start counter on, in counter order: every counter is used unless its name is already taken |
| NameGenerator.Generate | webp_converter.py:113-174 | `generate(count)`: the names returned are pairwise different, and asking for `count >= 1` names returns exactly `count` |
| NameGenerator.GenerateNoneAsked | webp_converter.py:118-127 | asking for `count <= 0` names returns the single name `"-".join(keywords)`, because the check `len(names) >= count` comes after the first append |
| NameGenerator.FirstCandidate | webp_converter.py:119-122 | the first candidate is the keywords in their given order joined by `-` |
| NameGenerator.GenerateFollowsEnumeration | webp_converter.py:113-174 | the output is the first `max(count, 1)` entries of the reference order when there are that many, otherwise all of them followed by the numbered names for counters 1, 2, ... in order, skipping only names already produced |
| NameGenerator.PhaseOneAt | webp_converter.py:118-127 | candidate `2i` is ordering `i` joined by `-` and candidate `2i + 1` the same ordering joined by `_` |
| NameGenerator.PhaseOneFirst | webp_converter.py:118-127 | the candidates start with, for each ordering, its `-` join and then its `_` join |
| NameGenerator.EstimateCombinations | webp_converter.py:176-190 | `estimate_combinations(n)` is `1986 * n!` (the 31 vocabulary words give `2 * (1 + 31 + 31 + 31 * 30) == 1986`) |
| NameGenerator.EstimateMonotone | webp_converter.py:176-190 | the estimate is equal for 0 and 1 keywords and strictly increasing from 1 on |
| NameGenerator.AroundCountAbsent | webp_converter.py:152-157 | a first modifier outside the pool pairs with every pool word |
| NameGenerator.AroundCount | webp_converter.py:152-157 | a first modifier in a pool without repeats pairs with every other pool word |
| NameGenerator.DoubledCount | webp_converter.py:151-162 | phase 4 offers `m * (m - 1) * 2 * orderings` candidates for a pool of `m` different words |
| NameGenerator.CandidatesCount | webp_converter.py:113-162 | phases 1–4 offer `2p + 2pm + 2pm + 2pm(m - 1)` candidates, with `p` orderings and `m` modifiers |
| NameGenerator.EstimateCountsCandidates | webp_converter.py:176-190 | the estimate bounds the candidates of phases 1–4 from above, with equality when no keyword is a vocabulary word |
| NameGenerator.DedupFreshPrefix | webp_converter.py:123-127 | candidates that are new and pairwise different come out unchanged at the front of the reference order |
| NameGenerator.TwoKeywordsPhaseOne | webp_converter.py:118-127 | for keywords `a, b` the first four candidates are `a-b`, `a_b`, `b-a`, `b_a` |
| NameGenerator.GenerateFreshPrefix | webp_converter.py:113-127 | when the first `n` candidates are pairwise different, asking for `n` names returns exactly them |
| NameGenerator.TwoKeywordsDistinct | webp_converter.py:118-127 | for different keywords free of `-` and `_` the four phase 1 names differ |
| NameGenerator.TwoKeywordsFirstNames | webp_converter.py:113-127 | asking for four names with two different keywords free of `-` and `_` returns `a-b`, `a_b`, `b-a`, `b_a` |

## Left out

- The float view transform (`_update_scale`, `_original_to_widget`, `_widget_to_original`, `_get_crop_rect_widget`) is left out. The drag displacement in image pixels and the on-screen selection are inputs.
- Crop.LockRatio and Crop.AspectProject compute `w / (rw / rh)` exactly, as `w * rh / rw` truncated. Python uses a float quotient, which can differ by one when the ratio has no exact binary form (`16 / 9`).
- Painting, signals (`crop_changed`), `update()`, `resizeEvent` and `setCursor` are left out. They are display and notification and change no geometry.
- The left-button filter of press and release is left out. The events in the model are left-button events.
- `CropDialog`, `RenameDialog`, `ImageProcessor`, `ConversionWorker` and the rest of the application are not part of this model.
- Words.Strip and Words.Lower cover ASCII only. `str.strip()` and `str.lower()` also act on Unicode whitespace and letters.
- NameGenerator.EstimateCombinations takes a natural number. Python's `factorial` raises an error on a negative count, and that error path is left out.
- Permutations.PermsOfTwo: the itertools order is proved in general only through the definition `Perms`/`PermsFrom`. The worked instance is for two elements.
- NameGenerator.TwoKeywordsFirstNames is stated for a generator whose keywords are two words. That `New` keeps clean keywords unchanged is the separate ensures of `Words.Normalize`.
