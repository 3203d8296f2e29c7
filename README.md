# youtube-multiview: a Dafny model of the page logic

youtube-multiview is a single web page that shows several YouTube players in
one CSS grid. The user pastes URLs or bare video IDs. Each ID becomes a *video
stack*: a player plus a transparent overlay. In edit mode, a *position
selector* with one button per stack lets the user swap a stack with the one in
another grid slot. The grid takes a number of columns from a size selector
("fitall" or a fixed count). The container is made tall enough for every row.

This project models the core of `js/script.js`, module by module:

- `VideoIds`: `extractYouTubeID` and `extractVideoIDs` as pure functions on
  strings. The regular-expression split, the first-whitespace-run
  replacement and `split(',')` are written out character by character.
- `SlotOrder`: the slot dictionary `videoStackOrder` as a value. It covers
  the swap done by `swapGridElementOrders` and the append done by
  `appendVideoStacksforIds`.
- `Layout`: the integers computed by `updateGridColAndRows` and
  `updateGridHeight`. These are the ceiling square root, the columns, the
  rows and the container height. `None` stands for a NaN or invalid style
  value, which the browser ignores.
- `Picker`: the buttons `moveVideoSelector` builds, as values.
- `MultiView`: the page state that the operations update in place.
  - A `VideoStack` class holds the mutable `style.order` and overlay
    visibility.
  - A `Page` class holds the dictionary, the attached stacks, the edit
    label, the size value, the selector and the grid styles.
  - Its methods are the source's functions. Each is proved against the
    functions of the modules above.
  - Each method keeps the page invariant `Valid`:
    - the dictionary keys are exactly the slots `0 .. N-1`;
    - each stack's order equals its key;
    - the attached stacks are distinct and each is stored under its order,
      so they are exactly the stored ones (`Page.StoredAreAttached`);
    - the selector sits on a stored stack;
    - the label is "Edit" or "Done";
    - overlays are visible exactly in edit mode.

`window.onload` corresponds to `Page.constructor` followed by
`Page.LoadVideoParam` and `Page.UpdateGrid`. `window.onresize` and the size
selector's change handler are `Page.UpdateGrid` and `Page.SelectSize`. The
URL button and the Enter key are `Page.ProcessUrlInput`. A click on the
edit button is `Page.ToggleEditMode`. A mouse move over an overlay is
`Page.MouseMoveOverStack`. It rebuilds the selector through
`Page.MoveVideoSelector` only when the selector is not already on that
stack. A click on a selector button is
`Page.ClickSelectorButton`. The screen height and the `v` query parameter
are parameters of the methods that read them.

The model follows the code in these details:

- A bare ID is returned exactly as it is, not trimmed (`js/script.js:23`).
  Only the first whitespace run becomes a comma (`js/script.js:31`), so a
  second run stays inside a piece.
- After a selector click, the selector is rebuilt on the same stack that was
  clicked from, now at its new slot (`js/script.js:142`). It is not rebuilt
  on the stack that moved into the old slot.
- The button of the current slot is still clickable. Its swap is a no-op
  (`js/script.js:154-156`).
- There is no removal of single stacks and no compaction of slots, and
  nothing is written back to the URL. The code has none of this.

## Model

| member | source | states |
|---|---|---|
| VideoIds.MarkerAt | js/script.js:22 | a positive length means one of the five markers (`vi/`, `v=`, `/v/`, `youtu.be/`, `/embed/`) starts at the position and has that length; zero means no marker starts there |
| VideoIds.MarkersExclusive | js/script.js:22 | no two markers match at one position, so the order of the alternation never decides what is matched |
| VideoIds.FindMarker | js/script.js:22 | the split point found is a marker occurrence with no marker before it; `None` means the text has no marker at all |
| VideoIds.FindMarkerIsFirst | js/script.js:22 | the first marker occurrence is exactly the one the search finds |
| VideoIds.TakeIdChars | js/script.js:23 | the piece kept is a prefix of the text, consists only of `[0-9A-Za-z_-]` characters, and stops at the end or at the first other character |
| VideoIds.PieceEnd | js/script.js:22-23 | the piece after a marker runs to the next marker occurrence or to the end of the text, with no marker inside |
| VideoIds.ExtractYouTubeId | js/script.js:21-24 | the ID is never longer than the input |
| VideoIds.IdAfterMarker | js/script.js:22-23 | the ID taken after the marker at `q` is a prefix of the text following the marker, made of ID characters only |
| VideoIds.IdAfterMarkerIsIdAt | js/script.js:22-23 | the ID taken after a marker is exactly the piece's ID as `VideoIds.IsIdAt` describes it |
| VideoIds.ExtractWithoutMarker | js/script.js:23 | text with no marker is returned unchanged, untrimmed |
| VideoIds.ExtractAfterFirstMarker | js/script.js:21-24 | with the first marker at `q`, the ID is what stands after that marker: ID characters only, no marker inside, ending at the end, at the next marker or before the first non-ID character |
| VideoIds.IsIdAtUnique | js/script.js:23 | that description allows a single string, so it determines the ID completely |
| VideoIds.FirstWhitespace | js/script.js:31 | finds the first character of the ECMAScript `\s` class, with none before it |
| VideoIds.RunEnd | js/script.js:31 | the greedy `\s+` run extends over whitespace only and stops at the end or before a non-whitespace character |
| VideoIds.ReplaceFirstWhitespaceRun | js/script.js:31 | text without whitespace is unchanged |
| VideoIds.ReplaceFirstRunCharacterized | js/script.js:31 | the first maximal whitespace run, and only that one, becomes a single comma |
| VideoIds.IndexOf | js/script.js:31 | the first comma's position: a comma with none before it |
| VideoIds.SplitOnComma | js/script.js:31 | `split(',')` gives at least one piece and no piece contains a comma |
| VideoIds.JoinSplit | js/script.js:31 | joining the pieces with commas gives back the text |
| VideoIds.SplitJoin | js/script.js:31 | splitting a comma-join of comma-free pieces gives back those pieces |
| VideoIds.SplitCount | js/script.js:31 | there is one piece more than there are commas |
| VideoIds.CountAppend | js/script.js:31 | counting commas distributes over concatenation |
| VideoIds.Pieces | js/script.js:31 | the pieces of the text after the whitespace replacement: at least one, none containing a comma, and joined with commas they give back that text |
| VideoIds.ExtractVideoIds | js/script.js:28-33 | one ID per comma-separated piece, in order, each the piece's `extractYouTubeID` |
| VideoIds.ExtractVideoIdsCount | js/script.js:31-32 | the list is never empty: one more ID than commas after the first run's replacement |
| VideoIds.ExtractVideoIdsOfEmpty | js/script.js:31-32 | empty text gives the one-element list `[""]` |
| SlotOrder.Swap | js/script.js:149-168 | same slots; equal or unpopulated slots leave the dictionary as it was; otherwise the two entries are exchanged and every other entry is kept |
| SlotOrder.SwapTwice | js/script.js:149-168 | swapping the same two slots twice restores the dictionary |
| SlotOrder.SwapKeepsSlots | js/script.js:158-166 | a swap keeps the keys exactly `0 .. N-1` |
| SlotOrder.Append | js/script.js:54-57 | the dictionary after `videoStackOrder[N + i] = stack_i` for each new stack in turn; what it holds is stated by `SlotOrder.AppendEntries` and `SlotOrder.AppendSlots` |
| SlotOrder.AppendEntries | js/script.js:54-57 | storing k stacks from slot N on gives a dictionary whose keys are the old keys and `N .. N+k-1`, whose slot N+i holds stack i, and whose other entries are the old ones |
| SlotOrder.AppendSnoc | js/script.js:54-57 | each further new stack is stored right after the ones before it |
| SlotOrder.DenseExtend | js/script.js:57 | storing under key N next to keys `0 .. N-1` gives keys `0 .. N` |
| SlotOrder.AppendSlots | js/script.js:54-57 | appending k stacks to slots `0 .. N-1` stores them under `N .. N+k-1` in input order, keeps the old entries, and the keys are then exactly `0 .. N+k-1` |
| SlotOrder.DistinctWithin | js/script.js:54-57 | pigeonhole: distinct slots drawn from a set are no more than the set holds |
| SlotOrder.DistinctKeysCoverAll | js/script.js:54-57 | N distinct keys of a dictionary with keys `0 .. N-1` are all of its keys |
| Layout.CeilDiv | js/script.js:211 | `ceil(n / d)`: the least q with `q * d >= n` |
| Layout.CeilSqrt | js/script.js:208 | `ceil(sqrt(n))`: the least c with `c * c >= n` |
| Layout.CeilSqrtFrom | js/script.js:208 | the search from a lower bound finds that least c |
| Layout.ColumnsOnScreen | js/script.js:207-209 | "fitall" gives the ceiling square root; otherwise the leading digit; `None` when the value has no leading digit |
| Layout.Shape | js/script.js:205-216 | no grid style exactly when the column count is invalid or zero (the browser ignores `repeat(NaN, 1fr)` and `repeat(0, 1fr)`); otherwise the columns are the column count on screen |
| Layout.StyleAfter | js/script.js:213-216 | a valid computed style value replaces the old one; an invalid one leaves it as it was |
| Layout.ContainerHeight | js/script.js:223-237 | a height exactly when the grid shape is valid, and then `floor(H / cols)` times the rows of that shape |
| Layout.FixedModeColumns | js/script.js:207-209 | a fixed size value 1-9 gives that many columns whatever the number of stacks |
| Layout.FitAllEmpty | js/script.js:207-211 | "fitall" with no stacks gives no valid grid shape and no height, for every screen height (`ceil(0/0)` is NaN) |
| Layout.FitAllSquare | js/script.js:207-211 | "fitall" with stacks gives a square grid of the least side that holds them all |
| Layout.ShapeHoldsAll | js/script.js:205-216 | at least one column, at least as many rows as columns, room for every stack, and no more rows than that: either exactly as many rows as columns or one row fewer would not hold them all |
| Layout.ContainerHeightFits | js/script.js:223-235 | the height is `floor(H / c)` times the row count: at least one screen of rows, tall enough for every row of stacks, and no taller than the screen when the stacks fit on it |
| Picker.Buttons | js/script.js:133-145 | one button per attached stack; button i swaps the active slot with slot i; only the active slot's button is marked current |
| Picker.ExactlyOneCurrent | js/script.js:136-138 | exactly one button is current when the active slot is in range, none otherwise |
| MultiView.Editing | js/script.js:52 | the label "Done" means edit mode and "Edit" means not |
| MultiView.Toggled | js/script.js:189-190 | the new label is "Edit" or "Done", and it is in edit mode exactly when the old label was not |
| MultiView.ToggledTwice | js/script.js:189-190 | two toggles restore the label |
| MultiView.VideoStack.constructor | js/script.js:54-59 | a new stack has its ID, its order and its overlay visibility |
| MultiView.Page.constructor | js/script.js:278-282 | the page starts with no stacks, the label "Edit", size "fitall", no selector and no grid styles, and satisfies the page invariant |
| MultiView.Page.AppendVideoStacksForIds | js/script.js:51-69 | fresh stacks with the given IDs are attached in order, the dictionary becomes `SlotOrder.Append` of the old one at slot N, the page invariant holds, and in "fitall" mode the grid style is recomputed |
| MultiView.Page.CreateStacks | js/script.js:54-61 | stack i gets ID i, order N+i, dictionary slot N+i and an overlay visible exactly in edit mode |
| MultiView.Page.AppendKeepsValid | js/script.js:54-63 | stacks with orders `N ..` stored under those slots and attached after the old ones, overlays visible exactly in edit mode, keep the page invariant |
| MultiView.Page.AppendedDistinct | js/script.js:54-63 | new stacks with orders `N ..` appended after distinct stacks with orders below N keep the attached stacks distinct |
| MultiView.Page.StoredAreAttached | js/script.js:54-63 | under the placement invariant every stack stored in the dictionary is an attached stack |
| MultiView.Page.SwapGridElementOrders | js/script.js:149-168 | the dictionary becomes `SlotOrder.Swap` of the old one, the two stacks' orders are exchanged exactly when the swap applies, and the page invariant holds |
| MultiView.Page.MoveVideoSelector | js/script.js:121-146 | the selector sits on the given stack and holds `Picker.Buttons` for the attached stacks and the stack's slot |
| MultiView.Page.MouseMoveOverStack | js/script.js:79-83 | the selector ends on the stack; its buttons are kept when it was already there and rebuilt as `Picker.Buttons` for the stack's slot otherwise |
| MultiView.Page.ClickSelectorButton | js/script.js:140-143 | the captured swap is applied to the dictionary, and the selector is rebuilt on the same stack. A click from the stack's own slot to a populated slot moves that stack to the target slot |
| MultiView.Page.ToggleEditMode | js/script.js:188-198 | the label toggles; entering edit mode with stacks opens the selector on the first attached stack; every overlay is visible exactly in edit mode |
| MultiView.Page.SetOverlaysVisible | js/script.js:196-198 | every attached stack's overlay gets the given visibility |
| MultiView.Page.UpdateGridColAndRows | js/script.js:205-219 | the grid style takes `Layout.Shape` of the attached count and size value, or keeps its value when that is invalid |
| MultiView.Page.UpdateGridHeight | js/script.js:223-237 | the container height takes `Layout.ContainerHeight`, or keeps its value when that is NaN |
| MultiView.Page.UpdateGrid | js/script.js:261-264 | columns and rows, then height |
| MultiView.Page.SelectSize | js/script.js:282-283 | the new size value, then both grid styles recomputed for it |
| MultiView.Page.ProcessUrlInput | js/script.js:176-186 | empty input changes nothing; otherwise fresh stacks for `ExtractVideoIds` of the input are attached and stored at slots `N ..`, and the grid style and container height take `Layout.Shape` and `Layout.ContainerHeight` of the new count, each kept when invalid |
| MultiView.Page.LoadVideoParam | js/script.js:40-48 | an absent or empty `v` changes nothing; otherwise stacks for its IDs are attached and stored at slots `N ..`, and in "fitall" mode the grid style takes `Layout.Shape` of the new count |

## Left out

- DOM construction, iframes, events and styling are not modelled. This
  includes iframe `src`/`srcdoc`, debug colours, the edit button's background
  and width, and the selector's visibility. They carry no logic beyond the
  state modelled here.
- Reading the query string (`URLSearchParams`) is left out. The `debug`
  flag and console logging are also left out. `v` is a parameter of
  `Page.LoadVideoParam`.
- Clearing `urlInput.value` after processing is left out. It is a DOM side
  effect with no effect on the modelled state.
- The selector's pixel width and height in `updateGridHeight`
  (`js/script.js:240-258`) are left out. They are floating-point ratios with
  the 1/3 size factor.
- `removeAllVideoStacks` is left out. Nothing in the code calls it.
- Layout.CeilSqrt: is exact; it does not model the floating-point
  `Math.sqrt`, which can be off for counts above 2^52.
- The `typeof` check in `swapGridElementOrders` is left out. It only logs,
  and the model's slots are integers.
- The screen height `html.clientHeight` is a parameter. The page width is
  not modelled, because it only feeds the selector dimensions.
- The first whitespace run is replaced as the code does. A second run
  stays inside a piece, and bare IDs are not trimmed.
- Layout.Shape and Layout.ContainerHeight: a leading `0` in a fixed size value is modelled
  as `None`. In the browser it gives an infinite or NaN row count and an
  invalid `repeat(0, 1fr)`, so the styles are not updated.
- MultiView.Page.constructor: the edit label is assumed to start as
  "Edit". The page markup that sets it is not part of this model.
