# Lightbox Gallery: a verified model

This project models the two pieces of logic in the Lightbox Gallery WordPress
plugin.

- **The front-end lightbox viewer** (`lightbox.js`) opens an overlay over a
  gallery of figures and shows one figure at a time. It takes the rest of the
  page out of the tab order while it is open, and navigates with buttons and the
  Escape/ArrowLeft/ArrowRight keys. On close it fades out and gives focus back to
  the figure's link.
- **The editor side of the gallery block** (`index.js`):
  - turns a media-library selection into `core/image` inner blocks;
  - merges a later selection into the existing blocks, stably sorted by
    selection position;
  - lists the ids handed back to the media library as its preselection;
  - normalises the `layout` and `allowResize` attributes;
  - tracks the selected block, so the duotone toolbar group is hidden for images
    inside a gallery.

## Modules

| file | module | what it holds |
|---|---|---|
| `wrappers.dfy` | `Wrappers` | `Option` |
| `strings.dfy` | `Strings` | the caption `trim` and the first-occurrence `replace` of the alt text |
| `focus_trap.dfy` | `FocusTrap` | page elements, the focusable selector as flags, and `trapFocus`/`restoreFocus` as functions over the element list and the tabindex store |
| `lightbox.dfy` | `Lightbox` | the page state (elements, store, body overflow, overlay, key handlers, focus) and one pure transition per operation of `lightbox.js` |
| `lightbox_properties.dfy` | `LightboxProperties` | the invariant every transition keeps, and what navigation, closing and whole sessions do |
| `viewer.dfy` | `LightboxScript` | the imperative script: class `Viewer`, whose fields are the page state and whose methods change them in place and are proved to equal the pure transitions; and the gallery link binding loop |
| `sorting.dfy` | `StableSort` | stable insertion sort on sequences (the specification) and in place on an array |
| `editor.dfy` | `GalleryEditor` | `onSelectImages`, `onAddImages` (the function and the method with the `reduce` loop and the in-place sort), the MediaUpload value, and the two effects |
| `editor_properties.dfy` | `GalleryEditorProperties` | what the merge and the effects guarantee |
| `selection.dfy` | `SelectionWatch` | the `subscribe` listener as a class with one field, and its behaviour over sequences of notifications |

Modelling choices:

- **DOM elements.** A DOM element is a record of flags:
  - tag;
  - `tabindex` (`None` when the attribute is absent);
  - aria-hidden;
  - disabled;
  - inside the overlay;
  - inside the admin bar.

  Elements are identified by their position in document order. The
  `tabindexStore` Map becomes a `map<nat, Option<string>>`, where `None` stands
  for the stored `null`.
- **Figures and handlers.** A gallery is a sequence of figures, and a figure is
  named by gallery and index. `prev()`/`next()` are the neighbouring indices of
  the same gallery. Bound handlers are recorded as the action they perform: close
  at figure `f`, or show figure `f`.
- **Animations.** jQuery's animation queue is a sequence of pending effects. A
  fade-out's completion callback runs when `CompleteAnimation` is called. A
  completed fade-out removes the overlay, and with it the rest of its queue, its
  buttons and its click handlers. It then focuses the figure's link, when the
  figure has one.
- **A missing alt attribute.** When the figure's `<img>` has no alt attribute,
  `$img.attr('alt').replace` throws. `setSlide` then stops before any change, and
  the methods return `thrown`. When this happens inside `openLightbox`, the
  fade-in is never queued.
- **Editor calls.** A call to `replaceInnerBlocks` is a `Some(blocks)` result and
  no call is `None`. A call to `setAttributes` is the update it would make.
- **`Infinity`.** The sort key `Infinity` is encoded as the selection's length,
  which is above every position. `Infinity - Infinity` is NaN, which the sort
  treats as equal, and the encoding gives the same tie.

Behaviour of the code as written, which the model keeps:

- **Background-click handlers accumulate.** The background-click handler
  (`lightbox.js:87-91`) is added by every `setSlide` and never removed. A
  background click therefore runs `closeLightbox` once per `setSlide` call on
  this overlay that did not throw, so a slide shown twice counts twice. The first fade-out queued is for the first slide shown, so focus lands
  on that slide's link, not on the current one. See
  `LightboxProperties.BackgroundClickFocusesFirstShown` and
  `LightboxProperties.BackgroundClickDiffersFromEscape`. The close button and
  Escape focus the slide on display.
- **A figure without alt text strands the page.** An open whose figure lacks alt
  text leaves the overlay appended, scrolling locked and focus trapped, with no
  close button. On the page's first open no key handler is bound either. See
  `LightboxProperties.OpenWithoutAltStrandsPage`. After an earlier session the
  Escape handler it left behind still closes the overlay, because
  `closeLightbox` never unbinds keys and the throw comes before the old handlers
  are replaced. See `LightboxProperties.StaleEscapeClosesStrandedPage`.
- **Old key handlers stay bound.** `keydown.lightbox` handlers survive a close.
  Once the overlay is gone they only rebind keys, and they never reopen it. See
  `LightboxProperties.StaleKeysAreInert`.
- **The focusable selector follows its last clause.** Because of
  `[tabindex]:not([tabindex="-1"])`, any element with a tabindex attribute other
  than `"-1"` and without aria-hidden matches. That includes a disabled button
  with a tabindex and a negative value such as `"-5"`. The model follows this
  code rather than a "non-negative tabindex" reading.
- **Blocks without an id are dropped.** `onAddImages` drops blocks that have no
  id, such as images inserted by URL. See
  `GalleryEditorProperties.AddDropsBlocksWithoutId`.

## Model

| member | source | states |
|---|---|---|
| `FocusTrap.MatchesFocusable` | lightbox.js:6-12 | decides every element: tabindex "-1" and aria-hidden never match; otherwise a link with an href, an enabled button, input, select or textarea, any summary, and any element with a tabindex attribute match, while a disabled control, a link without an href or any other element, each without a tabindex attribute, does not |
| `FocusTrap.Trappable` | lightbox.js:26-33 | an element `trapFocus` may take out of the tab order: matched by the selector and inside neither the overlay nor the admin bar; `FocusTrap.TrapSkipsExcluded` and `FocusTrap.TrapLeavesNothingTrappable` state what trapping does with it |
| `FocusTrap.RecordsNow` | lightbox.js:31-35 | trapping records element i now exactly when it is trappable and not already in the store; `FocusTrap.TrapIdempotent` states that a second pass records nothing |
| `FocusTrap.Trapped` | lightbox.js:25-44 | keeps the number of elements; that exactly the newly recorded elements get tabindex "-1" and nothing else changes is stated by `FocusTrap.RecordedExactlyChanged`, `FocusTrap.TrapSkipsExcluded` and `FocusTrap.TrapLeavesNothingTrappable` |
| `FocusTrap.TrappedStore` | lightbox.js:37-39 | no contract of its own; `FocusTrap.TrapRecords` states that it holds the old entries plus each newly recorded element mapped to its original tabindex (`None` when the attribute is missing), and `FocusTrap.RecordedExactlyChanged` that an element is recorded iff trapping changes it |
| `FocusTrap.Restored` | lightbox.js:47-57 | keeps the number of elements; that it gives each stored element its saved tabindex back and so undoes a trap is stated by `FocusTrap.TrapRestoreRoundTrip`, `FocusTrap.TrapKeepsRestoreTarget` and `FocusTrap.RestoreEmpty` |
| `FocusTrap.Consistent` | lightbox.js:37-42 | every stored element currently has tabindex "-1"; kept by `FocusTrap.TrapKeepsConsistent` |
| `FocusTrap.TrapRecords` | lightbox.js:25-44 | after `trapFocus`, an element is in the store iff it was already there or is matched, outside overlay and admin bar, and new; old entries keep their saved value; new ones save the original tabindex (`None` for null) |
| `FocusTrap.TrapSkipsExcluded` | lightbox.js:30-35 | an element with tabindex "-1", aria-hidden, or inside the overlay or admin bar is neither recorded nor changed |
| `FocusTrap.RecordedExactlyChanged` | lightbox.js:37-42 | an element not stored before is recorded exactly when its tabindex is changed |
| `FocusTrap.TrapLeavesNothingTrappable` | lightbox.js:25-44 | after trapping, no element outside overlay and admin bar is still focusable |
| `FocusTrap.TrapKeepsConsistent` | lightbox.js:25-44 | every stored element stays out of the tab order |
| `FocusTrap.TrapIdempotent` | lightbox.js:31 | a second `trapFocus` changes neither the elements nor the store, so no saved original is overwritten |
| `FocusTrap.TrapKeepsRestoreTarget` | lightbox.js:25-57 | trapping does not change what a later restore yields |
| `FocusTrap.TrapRestoreRoundTrip` | lightbox.js:25-57 | trap then restore from an empty store gives back every element unchanged |
| `FocusTrap.RestoreEmpty` | lightbox.js:47-57 | restoring with an empty store changes nothing |
| `Strings.Trim` | lightbox.js:72 | the result is no longer than the input and neither starts nor ends with whitespace |
| `Strings.TrimCutsOnlyWhitespace` | lightbox.js:72 | the trimmed caption is a slice of the text with only whitespace cut on either side |
| `Strings.WhitespaceOnlyTrimsToEmpty` | lightbox.js:72 | the caption is empty exactly when the figcaption text is all whitespace |
| `Strings.TrimIdempotent` | lightbox.js:72 | trimming twice equals trimming once |
| `Strings.IsWhitespace` | lightbox.js:72 | the characters `trim` removes: the ECMAScript white space and line terminators |
| `Strings.IndexOf` | lightbox.js:70 | returns the first occurrence of the pattern, or `None` when there is none |
| `Strings.RemoveFirst` | lightbox.js:70 | with no occurrence the alt is unchanged; otherwise exactly one pattern's length is removed |
| `Strings.RemoveFirstStripsPrefix` | lightbox.js:70 | a leading "View image: " is stripped |
| `Strings.RemoveFirstKeepsLaterOccurrences` | lightbox.js:70 | only the first occurrence goes, wherever it is, and everything else stays in place |
| `Lightbox.PrevOf` | lightbox.js:61 | the previous sibling, when there is one, is a figure of the page; that it is the same gallery's index minus one and absent exactly for the first figure is stated by `LightboxProperties.SlideAffordances` and `LightboxProperties.SiblingsAreAdjacent` |
| `Lightbox.NextOf` | lightbox.js:62 | the next sibling, when there is one, is a figure of the page; that it is the same gallery's index plus one and absent exactly for the last figure is stated by `LightboxProperties.SlideAffordances` and `LightboxProperties.SiblingsAreAdjacent` |
| `Lightbox.Lookup` | lightbox.js:94-127 | finds the action bound to a key, if any |
| `Lightbox.ShownAlt` | lightbox.js:70 | the alt text with the first "View image: " removed; its contents are stated by `Strings.RemoveFirst`, `Strings.RemoveFirstStripsPrefix` and `Strings.RemoveFirstKeepsLaterOccurrences` |
| `Lightbox.SlideControls` | lightbox.js:80-121 | the buttons `setSlide` appends: close, then prev and next where a sibling exists; their counts and actions are stated by `LightboxProperties.SlideAffordances` and `LightboxProperties.ButtonsMatchKeys` |
| `Lightbox.SlideKeys` | lightbox.js:94-127 | the `keydown.lightbox` handlers `setSlide` binds: Escape, then ArrowLeft and ArrowRight where a sibling exists; what each key does and that no key is bound twice is stated by `LightboxProperties.SlideAffordances` |
| `Lightbox.Rendered` | lightbox.js:67-91 | no contract of its own; `LightboxProperties.SetSlideKeepsValid` states that the overlay then displays the figure (see `LightboxProperties.Displays`), and `LightboxProperties.RenderedValid` that the fx queue is untouched and exactly one background handler, for the figure, is added |
| `Lightbox.AfterOffset` | lightbox.js:15-22 | no change when the admin bar or overlay is missing; otherwise the overlay's top becomes the admin bar's bottom and nothing else changes |
| `Lightbox.AfterTrap` | lightbox.js:25-44 | trapping keeps the restore target and the store's consistency and touches only elements and store |
| `Lightbox.AfterRestore` | lightbox.js:47-57 | every saved tabindex is put back (removed for `null`) and the store is empty |
| `Lightbox.AfterSetSlide` | lightbox.js:60-129 | throws iff the image has no alt, and then changes nothing; otherwise the key handlers are replaced by the figure's own and the overlay shows the figure with exactly the new buttons; tab order, overflow and focus are untouched |
| `Lightbox.AfterOpen` | lightbox.js:132-145 | overflow hidden, elements trapped, overlay fresh and placed; without a throw it shows the figure with a fade-in queued; with a throw the key handlers are unchanged and no fade-in is queued |
| `Lightbox.AfterClose` | lightbox.js:148-157 | tabindices restored, store empty and overflow cleared at once; the overlay stays with a fade-out queued; focus is not moved yet |
| `Lightbox.AfterAnimation` | lightbox.js:144-156 | a completed fade-in only leaves the queue; a completed fade-out removes the overlay and focuses the figure's link, if it has one |
| `Lightbox.AfterKey` | lightbox.js:77-127 | a key with no `keydown.lightbox` handler changes nothing |
| `Lightbox.AfterAction` | lightbox.js:82-127 | no contract of its own; a close handler runs `closeLightbox` and a prev or next handler runs `setSlide`; `LightboxProperties.ActionKeepsValid` states that either keeps the invariant and the restore target |
| `Lightbox.AfterControlClick` | lightbox.js:80-121 | no contract of its own; `LightboxProperties.ButtonsMatchKeys` states that each button does what its key does, `LightboxProperties.PrevThenNextReturns` that prev then next returns, and `LightboxProperties.ControlClickKeepsValid` that the invariant is kept |
| `Lightbox.CloseEach` | lightbox.js:87-91 | no contract of its own; `LightboxProperties.CloseEachEffect` states that closing at several figures restores the tab order once, unlocks scrolling and queues one fade-out per figure, in order |
| `Lightbox.AfterBackgroundClick` | lightbox.js:87-91 | no contract of its own; `LightboxProperties.BackgroundClickKeepsValid` states that the invariant is kept, and `LightboxProperties.BackgroundClickFocusesFirstShown` that focus goes to the first slide shown |
| `LightboxProperties.SlideAffordances` | lightbox.js:74-128 | after `setSlide`: one close button and Escape closes; a prev button and ArrowLeft iff a previous sibling exists; a next button and ArrowRight iff a next one exists; no key is bound twice |
| `LightboxProperties.SingleFigureHasNoNavigation` | lightbox.js:100-128 | a one-figure gallery gets only the close button and Escape |
| `LightboxProperties.SiblingsAreAdjacent` | lightbox.js:61-62 | the previous of the next is the figure itself and vice versa; no wraparound at either end |
| `LightboxProperties.SlideHandlersValid` | lightbox.js:80-127 | every button and key handler `setSlide` adds names a figure of the page |
| `LightboxProperties.Displays` | lightbox.js:67-127 | what `setSlide(f)` leaves: the overlay holds f's buttons, its alt after `Lightbox.ShownAlt`, its trimmed caption and its src when the img has one, and the key handlers are f's |
| `LightboxProperties.RenderedValid` | lightbox.js:67-91 | the overlay `setSlide` renders names only figures of the page, keeps its fx queue and gains exactly one background handler, for the figure shown |
| `LightboxProperties.SetSlideKeepsValid` | lightbox.js:60-129 | `setSlide` keeps the page invariant and, with an overlay and no throw, displays the figure |
| `LightboxProperties.CloseKeepsValid` | lightbox.js:148-157 | `closeLightbox` keeps the page invariant |
| `LightboxProperties.ActionKeepsValid` | lightbox.js:82-127 | running any bound handler keeps the invariant and the restore target |
| `LightboxProperties.KeyKeepsValid` | lightbox.js:94-127 | any keydown keeps the invariant and the restore target |
| `LightboxProperties.ControlClickKeepsValid` | lightbox.js:80-121 | any button click keeps the invariant and the restore target |
| `LightboxProperties.AnimationKeepsValid` | lightbox.js:144-156 | completing an animation keeps the invariant |
| `LightboxProperties.OffsetKeepsValid` | lightbox.js:15-22 | `updateOverlayOffset` keeps the invariant |
| `LightboxProperties.OpenKeepsValid` | lightbox.js:132-145 | opening keeps the invariant, restores later to the page as it was, displays the figure unless it throws, and places the overlay at the admin bar's bottom |
| `LightboxProperties.FadeInKeepsValid` | lightbox.js:144 | queuing the fade-in on an overlay with an empty animation queue keeps the invariant and what the overlay displays |
| `LightboxProperties.CloseEachEffect` | lightbox.js:87-91 | closing at several figures in turn keeps the invariant, empties the store and queues one fade-out per figure in order |
| `LightboxProperties.BackgroundClickKeepsValid` | lightbox.js:87-91 | a background click keeps the invariant |
| `LightboxProperties.ButtonsMatchKeys` | lightbox.js:80-127 | the close, prev and next buttons do exactly what Escape, ArrowLeft and ArrowRight do |
| `LightboxProperties.PrevThenNextReturns` | lightbox.js:101-128 | ArrowLeft then ArrowRight shows the same figure again with the same buttons and keys |
| `LightboxProperties.NextThenPrevReturns` | lightbox.js:101-128 | ArrowRight then ArrowLeft shows the same figure again with the same buttons and keys |
| `LightboxProperties.CloseCompletesOnFadeOut` | lightbox.js:148-157 | on close the overlay stays and focus does not move; after the fade-out the overlay is gone and the figure's link is focused |
| `LightboxProperties.CloseDuringFadeInWaits` | lightbox.js:144-156 | a close during the fade-in removes the overlay only after the fade-in and then the fade-out complete |
| `LightboxProperties.SessionRestoresTabOrder` | lightbox.js:132-157 | open then close (at any figure) leaves every element's tabindex as before and the store empty |
| `LightboxProperties.BackgroundClickFocusesFirstShown` | lightbox.js:87-91 | a background click queues fade-outs for every slide shown; the first to complete focuses the first slide shown |
| `LightboxProperties.EscapeFocusesCurrent` | lightbox.js:94-98 | Escape queues a fade-out for the figure on display, which ends with that figure's link focused |
| `LightboxProperties.BackgroundClickDiffersFromEscape` | lightbox.js:87-98 | once another slide was shown first, a background click and Escape focus different figures |
| `LightboxProperties.OpenWithoutAltStrandsPage` | lightbox.js:132-145 | opening a figure without alt throws, leaving scrolling locked, focus trapped and an overlay with no buttons; on the page's first open (no key handler bound yet) no key or click closes it |
| `LightboxProperties.StaleEscapeClosesStrandedPage` | lightbox.js:132-145 | on a later open of a figure without alt, the Escape handler left by an earlier slide still closes: scrolling unlocked, the trap undone and the fade-out queued |
| `LightboxProperties.StaleKeysAreInert` | lightbox.js:77-127 | with the overlay gone, old key handlers never bring it back, lock scrolling or change the tab order |
| `LightboxScript.Viewer.constructor` | lightbox.js:5 | a page without overlay, with an empty store and no key handlers |
| `LightboxScript.Viewer.UpdateOverlayOffset` | lightbox.js:15-22 | the new state is `AfterOffset` of the old one, and the invariant is kept |
| `LightboxScript.Viewer.TrapFocus` | lightbox.js:25-44 | the `.each` loop leaves the state `AfterTrap` of the old one, and the invariant is kept |
| `LightboxScript.Viewer.RestoreFocus` | lightbox.js:47-57 | the `forEach` loop and `clear` leave the state `AfterRestore` of the old one, with every element as before the session |
| `LightboxScript.Viewer.SetSlide` | lightbox.js:60-129 | the buttons and key handlers rebuilt step by step give `AfterSetSlide`'s state, and it reports the throw |
| `LightboxScript.Viewer.OpenLightbox` | lightbox.js:132-145 | the state is `AfterOpen` of the old one, and the throw is reported |
| `LightboxScript.Viewer.CloseLightbox` | lightbox.js:148-157 | the state is `AfterClose` of the old one, with every element as before the session |
| `LightboxScript.Viewer.CompleteAnimation` | lightbox.js:144-156 | the state is `AfterAnimation` of the old one |
| `LightboxScript.Viewer.RunAction` | lightbox.js:82-127 | a handler runs `CloseLightbox` or `SetSlide`; the new state is `AfterAction` of the old one, the throw is reported, and the invariant is kept |
| `LightboxScript.Viewer.KeyDown` | lightbox.js:94-127 | the state is `AfterKey` of the old one |
| `LightboxScript.Viewer.ClickControl` | lightbox.js:80-121 | the state is `AfterControlClick` of the old one |
| `LightboxScript.Viewer.ClickBackground` | lightbox.js:87-91 | running every bound background handler in turn gives `AfterBackgroundClick` |
| `LightboxScript.BindGalleryLinks` | lightbox.js:160-169 | exactly the figures with a link get an open handler, once each, in document order |
| `StableSort.InsertPoint` | index.js:118-122 | the insertion slot has only greater keys after it and a key at most `x`'s before it |
| `StableSort.InsertKeepsSorted` | index.js:118-122 | inserting into a sorted list keeps it sorted |
| `StableSort.InsertStable` | index.js:118-122 | insertion puts `x` after every element with its key and keeps their order |
| `StableSort.InsertSorted` | index.js:118-122 | one element longer; that it keeps a sorted list sorted and puts x after the elements with its key is stated by `StableSort.InsertKeepsSorted` and `StableSort.InsertStable` |
| `StableSort.SortBy` | index.js:118-122 | keeps the length; that it is the stable sort by key is stated by `StableSort.SortPermutes`, `StableSort.SortSorted` and `StableSort.SortStable` |
| `StableSort.SortPermutes` | index.js:118 | the sort is a permutation of its input |
| `StableSort.SortKeepsMembers` | index.js:118 | the sort neither adds nor loses elements |
| `StableSort.SortSorted` | index.js:118-122 | the result is ordered by the key |
| `StableSort.SortStable` | index.js:118-122 | for every key, elements with that key keep their relative order |
| `StableSort.SortOfSortedIsIdentity` | index.js:118-122 | a list already ordered by the key comes out unchanged |
| `StableSort.InsertInPlace` | index.js:118 | shifting greater elements right and dropping `a[i]` in gives the sequence insertion; the rest of the array is untouched |
| `StableSort.InsertionSort` | index.js:118 | the array is sorted in place into exactly `SortBy` of its old contents |
| `GalleryEditor.SizeSlugOr` | index.js:77 | never empty; the gallery's size slug when set and non-empty, else "large" |
| `GalleryEditor.AltOrEmpty` | index.js:76 | the image's alt text, or "" when absent |
| `GalleryEditor.CreateBlock` | index.js:106-112 | one image block: the image's id and url, its alt or "", and the size slug or "large"; `GalleryEditor.CreateBlocks` states that each image gets this block, in order |
| `GalleryEditor.CreateBlocks` | index.js:72-79 | one block per image, in order |
| `GalleryEditor.OnSelectImages` | index.js:68-81 | no replacement iff the selection is missing or empty; otherwise one block per image in order, with its id, url, alt or "", and the size slug or "large" |
| `GalleryEditor.Selected` | index.js:93-95 | the block has an id and some selected image carries it; `GalleryEditor.KeptBlocks` keeps exactly these blocks and `GalleryEditorProperties.AddDropsBlocksWithoutId` drops the id-less ones |
| `GalleryEditor.KeptBlocks` | index.js:92-96 | a block is kept iff it is an existing block whose id is selected |
| `GalleryEditor.KeptBlocksCounts` | index.js:92-96 | a selected block is kept as often as it occurs among the existing blocks, and an unselected one never |
| `GalleryEditor.KeptBlocksSingle` | index.js:92-96 | one block is kept exactly when its id is selected |
| `GalleryEditor.KeptBlocksConcat` | index.js:92-96 | the kept blocks of a then b are those of a followed by those of b, so the blocks' order is kept |
| `GalleryEditor.Carried` | index.js:100-102 | some kept block has the image's id; `GalleryEditor.NewImages` keeps exactly the images not carried and `GalleryEditorProperties.NoIdKeptAndAdded` states that no id is both kept and new |
| `GalleryEditor.NewImages` | index.js:99-103 | an image is new iff it is selected and no kept block carries its id |
| `GalleryEditor.NewImagesCounts` | index.js:99-103 | a new image appears as often as it is selected, and an image whose id is carried never |
| `GalleryEditor.NewImagesSingle` | index.js:99-103 | one image is new exactly when no kept block carries its id |
| `GalleryEditor.NewImagesConcat` | index.js:99-103 | the new images of a then b are those of a followed by those of b, so the selection's order is kept |
| `GalleryEditor.OrderMap` | index.js:86-89 | maps exactly the selected ids, each to a position holding it, the last such position |
| `GalleryEditor.BuildOrderMap` | index.js:86-89 | the `reduce` loop builds `OrderMap` |
| `GalleryEditor.OrderMapExtend` | index.js:86-89 | one step of the `reduce`: writing the last image's index over the prefix's map gives the map of the whole selection, with the last position winning |
| `GalleryEditor.Rank` | index.js:119-120 | a block's position in the order map, or the stand-in for `Infinity` when its id is missing or not mapped; `GalleryEditorProperties.AddRanksBySelectionPosition` states that no block of the result takes the stand-in |
| `GalleryEditor.RankBy` | index.js:119-121 | the comparator's key as a function of a block, for a given order map and `Infinity` stand-in |
| `GalleryEditor.SelectionRank` | index.js:118-122 | the key `onAddImages` sorts by; `GalleryEditorProperties.AddRanksBySelectionPosition` states that it is each result block's last selection index and `GalleryEditorProperties.AddOrdersBySelection` that the result is ordered by it |
| `GalleryEditor.AddImages` | index.js:84-125 | no contract of its own; `GalleryEditorProperties.AddNothingOnlyForEmptySelection` states when it is `None`, `GalleryEditorProperties.AddPermutesMerge` that it permutes the kept blocks plus the new ones, `GalleryEditorProperties.AddOrdersBySelection` that it is ordered by selection position, `GalleryEditorProperties.AddIsStable` that equal positions keep the merged order, and `GalleryEditorProperties.AddRepresentsEverySelectedId` that every selected id is present |
| `GalleryEditor.OnAddImages` | index.js:84-125 | the order-map loop and the in-place sort give exactly `AddImages` |
| `GalleryEditor.MediaUploadValue` | index.js:183-185 | no longer than the blocks; holds exactly the blocks' nonzero ids |
| `GalleryEditor.MediaUploadValueSingle` | index.js:183-185 | one block gives its id when present and nonzero, and nothing otherwise |
| `GalleryEditor.MediaUploadValueConcat` | index.js:183-185 | the list of blocks a then b is the list of a followed by the list of b, so block order and repeats are kept |
| `GalleryEditor.LayoutUpdate` | index.js:46-55 | no update iff the layout is flex and horizontal; an update is `{type: flex, orientation: horizontal}` |
| `GalleryEditor.IsFlexHorizontal` | index.js:47 | the condition under which the layout effect leaves the layout alone: present, of type "flex" and oriented "horizontal" |
| `GalleryEditor.LayoutOrientation` | index.js:58 | never empty; the layout's orientation when set and non-empty; "horizontal" when the layout or its orientation is missing or the orientation is "" |
| `GalleryEditor.AllowResizeUpdate` | index.js:39-43 | no update iff allowResize is already false; an update sets false |
| `GalleryEditor.AfterEffects` | index.js:39-55 | the effects leave the size slug alone |
| `GalleryEditorProperties.SelectThenPreselectRoundTrip` | index.js:183-185 | after selecting images with nonzero ids, the MediaUpload value is exactly their ids in order |
| `GalleryEditorProperties.CreatedIdsListed` | index.js:72-79 | for images with nonzero ids, the MediaUpload value of the blocks made for them is their ids in order |
| `GalleryEditorProperties.AddNothingOnlyForEmptySelection` | index.js:116-124 | `replaceInnerBlocks` is skipped iff the selection is empty |
| `GalleryEditorProperties.NoIdKeptAndAdded` | index.js:99-113 | no id is carried by both a kept and a new block |
| `GalleryEditorProperties.AddRepresentsEverySelectedId` | index.js:92-117 | every selected id is carried by some block of the result |
| `GalleryEditorProperties.AddPermutesMerge` | index.js:116-118 | the result is a permutation of the kept blocks followed by the new ones |
| `GalleryEditorProperties.AddKeepsSelectedBlocks` | index.js:92-96 | an existing block whose id is selected is in the result |
| `GalleryEditorProperties.AddHoldsOnlyKeptOrNew` | index.js:92-117 | every block of the result is an existing selected block or a new one for a selected image not yet carried |
| `GalleryEditorProperties.AddRanksBySelectionPosition` | index.js:119-121 | every block in the result has its id in the order map, so the `Infinity` fallback never applies |
| `GalleryEditorProperties.AddOrdersBySelection` | index.js:117-122 | the result is ordered by (last) selection position |
| `GalleryEditorProperties.AddIsStable` | index.js:117-122 | blocks with equal position keep their order: kept ones first, then new ones, each in its original order (that order is the filters' own, by `GalleryEditor.KeptBlocksConcat` and `GalleryEditor.NewImagesConcat`) |
| `GalleryEditorProperties.AddDropsBlocksWithoutId` | index.js:92-96 | a block without id never survives the merge |
| `GalleryEditorProperties.AllSelectedAreKept` | index.js:92-96 | when every block is selected, the filter keeps them all, in order |
| `GalleryEditorProperties.AllCarriedLeaveNothingNew` | index.js:99-103 | when every selected image is carried by a kept block, there is no new image |
| `GalleryEditorProperties.NonzeroIdsListed` | index.js:183-185 | for blocks with nonzero ids, the value is their ids in order |
| `GalleryEditorProperties.DistinctIdsRankByPosition` | index.js:86-89 | with distinct ids, each id maps to its own position |
| `GalleryEditorProperties.MatchingBlocksInSelectionOrder` | index.js:119-121 | blocks that match the selection position by position are already in sort order |
| `GalleryEditorProperties.MatchingSelectionKeepsBlocks` | index.js:84-125 | a selection matching the blocks one to one gives back the blocks unchanged |
| `GalleryEditorProperties.ConfirmingPreselectionKeepsBlocks` | index.js:84-125 | confirming the preselected ids unchanged gives back the same blocks in the same order |
| `GalleryEditorProperties.EffectsSettle` | index.js:39-58 | after both effects run, neither updates again, they are idempotent, allowResize is false and the orientation "horizontal" |
| `GalleryEditorProperties.LayoutKeptOnlyWhenFlexHorizontal` | index.js:46-55 | a flex horizontal layout is left as is (extra keys too); any other is replaced whole |
| `SelectionWatch.React` | index.js:227-251 | on deselect the previous id resets to null without hiding; a repeat changes nothing; otherwise the previous id becomes the selected block's; a hide needs a new image block |
| `SelectionWatch.IsNewSelection` | index.js:231 | a block is selected and its client id differs from the one seen last |
| `SelectionWatch.InLightboxGallery` | index.js:241-245 | some ancestor the editor returns is a lightbox gallery block; a null ancestor never is |
| `SelectionWatch.GalleryImage` | index.js:240-245 | an image block inside a lightbox gallery; `SelectionWatch.HidesExactlyForNewGalleryImage` states that the hide happens exactly for a new one |
| `SelectionWatch.SelectionTracker.constructor` | index.js:215 | the previous id starts as null |
| `SelectionWatch.SelectionTracker.OnChange` | index.js:227-251 | the field and the hide agree with `React` |
| `SelectionWatch.Run` | index.js:227-251 | no more hides than notifications |
| `SelectionWatch.HidesExactlyForNewGalleryImage` | index.js:238-250 | the group is hidden iff the selection is new and an image block with a lightbox-gallery ancestor |
| `SelectionWatch.RepeatsAreIgnored` | index.js:231-236 | notifications repeating the block seen last change nothing and hide nothing |
| `SelectionWatch.SteadySelectionHidesAtMostOnce` | index.js:231-250 | while one block stays selected, the group is hidden at most once |
| `SelectionWatch.DeselectResets` | index.js:231-238 | after a deselect, reselecting the same block is handled as new |

## Left out

- `getBoundingClientRect` pixel arithmetic: `updateOverlayOffset` takes the admin bar's bottom as an optional integer parameter (`None` when there is no admin bar). The `resize` listener (`lightbox.js:172`) only calls `updateOverlayOffset`.
- Fade timing (300 ms): an animation is a queued effect, completed by `CompleteAnimation`.
- CSS selector matching and jQuery's `closest`: an element's tag, attributes and whether it sits inside the overlay or admin bar are flags.
- The click's `e.preventDefault()` and the event-target test of the background handler are not modelled. A click is either on a button (`ClickControl`) or on the background (`ClickBackground`), and clicks on the image or caption do nothing.
- `LightboxScript.Viewer.OpenLightbox`: requires that no overlay exists, so two cases of a second open are not modelled. The first is a re-open while the overlay is on screen: nothing moves focus into the overlay, so Enter on the still-focused gallery link runs its click handler (lightbox.js:164-167) again and appends a second overlay with the same id. The second is a re-open while a fade-out is still running, which would interleave asynchronous callbacks on two overlays with the same id.
- `LightboxScript.Viewer.TrapFocus`: requires that no fade-out is queued. The script only traps from `openLightbox`, where that holds.
- Real JavaScript `Map` identity and element identity: elements are positions in document order.
- The duotone DOM query (`hideDuotoneToolbarGroup`) and `requestAnimationFrame`: a hide is the boolean `OnChange` returns.
- `getSelectedBlock`, `getBlockParents` and `getBlock`: their answers are the `Selected` value passed in, which carries the parents' names (`None` for a parent that is not found).
- `createBlock`'s client ids and any block attribute other than id, url, alt and sizeSlug.
- `registerBlockType`, `save`, the SVG icon, the React render trees and the hooks themselves: only the effects' attribute updates are modelled.
- `lightbox-gallery.php` and `render.php`: hook registration, script enqueueing and HTML rewriting through WordPress library calls are not part of this model.
