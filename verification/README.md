# Animated demo pages: a Dafny model of their state logic

The repository is a set of animated marketing pages. Five of them hold small
pieces of sequential state logic, and this project models that logic as pure
transition functions over immutable state. Timers and DOM callbacks become
explicit events. The five pieces are:

- **To-do list** (`src/app/anime-9/page.tsx`, module `Todo`). Toggling an item
  by id. The re-sort, 600 ms later, that moves completed items to the bottom.
  Appending and resetting. The add-task dialog's trim-guarded submit and its
  cancel.
- **Search bar** (`src/app/anime-4/page.tsx`, module `Search`). The
  case-insensitive suggestion filter capped at `maxSuggestions`. Wrap-around
  ArrowDown/ArrowUp selection. Enter, Escape, selection, clearing and clicks
  outside. The segmentation `highlightMatch` performs.
- **Add-to-cart buttons** (`src/app/anime-5/page.tsx`, module `Cart`). The
  `idle -> loading -> success -> idle` machine driven by its 800 ms and
  1500 ms timers. The floating "+1" animations and their 1000 ms removal. The
  page's shared cart counter and its badge. The underlying button is disabled
  exactly when the `disabled` prop is set or the state is not idle (line 153);
  `Click` uses that same condition as its guard.
- **Cursor image trail** (`src/app/page.tsx`, module `Trail`). The spawn gate
  on distance (compared on squared integers) and elapsed time. The last-spawn
  trackers. The cursor follower. The deferred removal by id.
- **Spending cards** (`src/app/anime-3/page.tsx`, module `Spending`). The
  counter step `min(current + 50, 1586)`. The first-match lookup of a
  calendar day's transaction.

Shared helpers are in module `Text`: JavaScript `trim` whitespace, ASCII
lower-casing and the leftmost-occurrence scan. Module `Wrappers` holds `Option`.

The trail's cursor moves on every pointer event, even when nothing spawns, so a
move that does not spawn still changes the state. The trail uses a distance threshold of 140, a time threshold of 150 ms and a lifetime of
1500 ms.

## Model

| member | source | states |
|---|---|---|
| `Todo.Toggle` | src/app/anime-9/page.tsx:425-429 | same length; id, text and colour of every item unchanged; `completed` flips exactly on the items whose id matches |
| `Todo.ToggleInvolution` | src/app/anime-9/page.tsx:427-429 | toggling the same id twice gives back the original list |
| `Todo.Incomplete` | src/app/anime-9/page.tsx:435 | the incomplete filter returns only incomplete items, no more than the input |
| `Todo.Completed` | src/app/anime-9/page.tsx:434 | the completed filter returns only completed items, no more than the input |
| `Todo.GroupsArePermutation` | src/app/anime-9/page.tsx:434-436 | the two filtered groups together are a permutation of the list |
| `Todo.ResortSpec` | src/app/anime-9/page.tsx:433-437 | the re-sort `Todo.Resort` (the delayed timer callback) puts every incomplete item before every completed one, is a permutation, keeps the length, and keeps the relative order inside each group (stable) |
| `Todo.PartitionedIsFixpoint` | src/app/anime-9/page.tsx:433-437 | an already partitioned list is left unchanged by the re-sort |
| `Todo.ResortFixpointIff` | src/app/anime-9/page.tsx:433-437 | the re-sort leaves a list unchanged if and only if the list is already partitioned |
| `Todo.ResortIdempotent` | src/app/anime-9/page.tsx:433-437 | re-sorting the re-sort's output changes nothing |
| `Todo.ResortKeepsCount` | src/app/anime-9/page.tsx:433-458 | the re-sort does not change the completed count |
| `Todo.AddTodo` | src/app/anime-9/page.tsx:444-452 | exactly one item is appended at the end with the given id, text and colour and `completed = false`; the earlier items are untouched |
| `Todo.CompletedCount` | src/app/anime-9/page.tsx:458-459 | the completed count never exceeds the total count |
| `Todo.CompletedCountAppend` | src/app/anime-9/page.tsx:458 | the completed count of a concatenation is the sum of the parts' counts |
| `Todo.ListStep` | src/app/anime-9/page.tsx:423-456 | only reset can shorten the list, and reset restores the initial todos; a toggle applies `Todo.Toggle` and schedules one re-sort; a pending re-sort timer applies `Todo.Resort`, leaving the list partitioned; with none pending nothing happens; an added task is `Todo.AddTodo`; a reorder installs the new order; a reset keeps the pending re-sorts |
| `Todo.AtLeastInitialSize` | src/app/anime-9/page.tsx:423-459 | from any list of at least five items, and so from the initial one, every admissible event sequence leaves at least five items, and the completed count stays within the total |
| `Todo.FromInitialList` | src/app/anime-9/page.tsx:423-459 | every admissible event sequence from the page's initial five todos leaves at least five items |
| `Todo.Submit` | src/app/anime-9/page.tsx:223-231 | a blank text changes nothing and adds nothing; otherwise the trimmed, non-empty text is requested with the selected colour, and the dialog closes with empty text and the first palette colour |
| `Todo.Cancel` | src/app/anime-9/page.tsx:233-237 | resets the text to empty and the colour to the first palette entry, closes, and requests nothing |
| `Todo.SubmitThenSameAsCancel` | src/app/anime-9/page.tsx:223-237 | a successful submit leaves the dialog in exactly the state a cancel does |
| `Todo.SubmittedTextTrimmed` | src/app/anime-9/page.tsx:225-226 | a text handed to the list is never blank and has no white space at either end |
| `Text.TrimStart` | src/app/anime-9/page.tsx:225 | the result is the suffix of the input after its leading white space, and starts with a non-space |
| `Text.TrimEnd` | src/app/anime-9/page.tsx:225 | the result is the prefix of the input before its trailing white space, and ends with a non-space |
| `Text.TrimCutsOnlySpace` | src/app/anime-9/page.tsx:225-226 | the input is all-space leading text, then the trimmed result, then all-space trailing text |
| `Text.Trim` | src/app/anime-4/page.tsx:81 | the trimmed text is empty or starts and ends with a non-space, and is no longer than the input |
| `Text.BlankIffAllSpace` | src/app/anime-4/page.tsx:81 | a string trims to empty exactly when every character is white space |
| `Text.Lower` | src/app/anime-4/page.tsx:89 | ASCII upper-case letters map to lower case; every other character is unchanged |
| `Text.LowerStr` | src/app/anime-4/page.tsx:89 | lower-casing keeps the length and lower-cases each character in place |
| `Text.FindFrom` | src/app/anime-4/page.tsx:178-183 | returns the leftmost occurrence at or after the start index, or reports that there is none |
| `Search.MatchingIn` | src/app/anime-4/page.tsx:86-92 | a suggestion is in the result exactly when it is in the input and its title, description or category contains the query, ignoring case |
| `Search.MatchingInAppend` | src/app/anime-4/page.tsx:86-92 | filtering distributes over concatenation, so the matches keep their catalogue order and multiplicity, which decides what the later `slice` keeps |
| `Search.FilterSuggestions` | src/app/anime-4/page.tsx:79-96 | a blank query gives nothing; otherwise the result is a prefix of the order-preserving match list, has at most `maxSuggestions` entries, contains only matching suggestions, has exactly `min(maxSuggestions, matches)` entries, and is the whole match list when that fits |
| `Search.DroppedOnlyWhenFull` | src/app/anime-4/page.tsx:86-93 | a matching suggestion is missing from the result only when the result already holds `maxSuggestions` entries |
| `Search.NextIndex` | src/app/anime-4/page.tsx:133-137 | ArrowDown gives an index in `[0, len-1]` from any index of at least -1; for in-range starts (and -1) it is `(prev + 1) mod len` |
| `Search.PrevIndex` | src/app/anime-4/page.tsx:140-144 | ArrowUp gives an index in `[0, len-1]` from any index in `[-1, len]`; from -1 it is the last entry; for in-range starts it is `(prev - 1) mod len` |
| `Search.UpDownInverse` | src/app/anime-4/page.tsx:135-144 | on an in-range index, ArrowUp undoes ArrowDown and ArrowDown undoes ArrowUp |
| `Search.SelectSuggestion` | src/app/anime-4/page.tsx:161-166 | the query becomes the suggestion's title, the list collapses, the index becomes -1, and `onSelect` receives the suggestion; nothing else changes |
| `Search.ClearSearch` | src/app/anime-4/page.tsx:168-173 | the query becomes empty, the list collapses and the index becomes -1; nothing else changes |
| `Search.KeyDown` | src/app/anime-4/page.tsx:124-159 | with the list hidden or empty, no state changes and only Enter on a non-blank query has an effect (search for the query); ArrowDown/ArrowUp change only the index, to `NextIndex`/`PrevIndex`, and land in range; Enter selects `filtered[selected]` exactly when the index is in range and otherwise does nothing, as does any other key; Escape only collapses |
| `Search.KeyDownAsWritten` | src/app/anime-4/page.tsx:147-151 | the handler as written throws exactly when the list is shown, the key is Enter and the index is at or past the end of the list |
| `Search.KeyDownAgreesUnlessStale` | src/app/anime-4/page.tsx:124-159 | wherever the handler as written does not throw, the corrected handler behaves identically |
| `Search.Handle` | src/app/anime-4/page.tsx:232-276 | typing replaces the query and expands the list but keeps the index; a click outside collapses and resets the index; a key goes to `KeyDown`; a click on a shown suggestion selects it, a hover on one sets the index to it, and the clear button clears a non-empty query; anything else does nothing; the index never drops below -1; a selected suggestion is always one on display |
| `Search.BarStep` | src/app/anime-4/page.tsx:100-102 | each event has exactly `Search.Handle`'s effect and bar, with the suggestion list then refiltered for the new query; a selected suggestion is one of the configured suggestions and matches the query |
| `Search.SelectionAtLeastMinusOne` | src/app/anime-4/page.tsx:69-173 | over any event sequence the selection index stays at least -1 |
| `Search.StaleSelectionCrashes` | src/app/anime-4/page.tsx:147-151 | typing that narrows the list under a selected later entry makes Enter throw as written, while the corrected handler ignores it |
| `Search.Split` | src/app/anime-4/page.tsx:178-183 | the parts concatenate back to the text; their count is odd; odd parts equal the query ignoring case; even parts contain no occurrence of it, and no occurrence starts inside an even part, so every match is taken as early as possible |
| `Search.CutUnique` | src/app/anime-4/page.tsx:178-183 | two cuts of the same text into gaps and case-insensitive occurrences, neither with an occurrence starting inside a gap, are equal |
| `Search.SplitUnique` | src/app/anime-4/page.tsx:178-183 | any cut of the text into gaps and occurrences in which no occurrence starts inside a gap is exactly the split, so the split is the unique leftmost cut |
| `Search.HighlightMatch` | src/app/anime-4/page.tsx:175-192 | a blank query returns the text unchanged; otherwise the segments concatenate to the text and alternate between query-free stretches and literal, case-insensitive occurrences of the query, with no occurrence starting inside a stretch |
| `Search.HighlightUnique` | src/app/anime-4/page.tsx:175-192 | for a non-blank query the segments are the only leftmost alternating cut of the text |
| `Cart.Click` | src/app/anime-5/page.tsx:91-94 | a button whose `disabled` attribute is set ignores the click; that attribute, `Cart.ButtonDisabled` at line 153, is the `disabled` prop or any non-idle state; otherwise it goes to loading and gains exactly one 800 ms timer |
| `Cart.RemoveAnimation` | src/app/anime-5/page.tsx:116-120 | removes exactly the animations with that id and keeps the rest; it is a no-op when the id is absent |
| `Cart.RemoveAnimationAppend` | src/app/anime-5/page.tsx:117-119 | removal distributes over concatenation, so the animations that stay keep their order |
| `Cart.RemoveAnimationIdempotent` | src/app/anime-5/page.tsx:117-119 | removing the same id twice is the same as removing it once |
| `Cart.RemoveUndoesAppend` | src/app/anime-5/page.tsx:114-119 | removing a freshly appended animation by its id gives back the earlier list |
| `Cart.FireTimer` | src/app/anime-5/page.tsx:96-127 | `onAddToCart` is called exactly when the 800 ms timer fires, which leads to success; the animation is appended only when the cart target was found; the 1500 ms timer leads to idle and leaves the animations alone; the removal timer only filters animations; the fired timer leaves the pending list, and the 800 ms one adds the removal timer (when animating) and the 1500 ms timer |
| `Cart.ClickConsistent` | src/app/anime-5/page.tsx:91-97 | a click keeps exactly one 800 ms timer pending while loading and one 1500 ms timer while in success |
| `Cart.FireTimerTransitions` | src/app/anime-5/page.tsx:94-127 | on a consistent button the only state changes are loading to success (with its one notification) and success to idle; consistency is preserved |
| `Cart.PageStep` | src/app/anime-5/page.tsx:452-454 | the cart count rises by exactly one per notification and never otherwise; a notification happens exactly when a button's 800 ms timer fires; a click is accepted exactly when the button is enabled and idle; only the addressed button changes, by `Click` or `FireTimer`; an out-of-range button changes nothing |
| `Cart.PageStepInvariant` | src/app/anime-5/page.tsx:91-127 | each page step keeps every button consistent, and cart count plus loading buttons grows by one per accepted click |
| `Cart.CartCountsAcceptedClicks` | src/app/anime-5/page.tsx:96-98 | over any event sequence, cart count plus loading buttons equals the starting value plus the accepted clicks, and the count never decreases |
| `Cart.FromInitialPage` | src/app/anime-5/page.tsx:273 | starting from an empty cart, the count never exceeds the accepted clicks, and the badge (`Cart.BadgeShown`, count > 0) appears only after an accepted click |
| `Trail.MouseMove` | src/app/page.tsx:87-120 | the cursor always follows the pointer; when the gate `Trail.ShouldSpawn` opens (`Trail.FarEnough`: squared distance above 140 squared, the same test as distance above 140; and more than 150 ms since the last spawn), exactly one image with the current time as id is appended at the pointer, the trackers move to the pointer and time, and a removal is scheduled; otherwise nothing else changes |
| `Trail.RemoveImage` | src/app/page.tsx:116-118 | removes exactly the images with that id, keeps the rest, and is a no-op when the id is gone |
| `Trail.RemovalFires` | src/app/page.tsx:116-118 | the oldest pending removal drops its image and nothing else changes |
| `Trail.MouseMoveValid` | src/app/page.tsx:101-114 | a move keeps the images equal to the pending removals, with spawn times more than 150 ms apart |
| `Trail.RemovalFiresValid` | src/app/page.tsx:116-118 | a removal keeps the images equal to the pending removals, with spaced spawn times |
| `Trail.RunValid` | src/app/page.tsx:80-119 | every event sequence from a valid state, the initial one included, stays valid |
| `Trail.InitialValid` | src/app/page.tsx:80-85 | the initial trail (no images, trackers at the origin and time 0) is valid |
| `Trail.DistinctIds` | src/app/page.tsx:105-114 | the images on screen have strictly increasing, hence distinct, ids |
| `Trail.DrainEmpties` | src/app/page.tsx:116-118 | once every pending removal has fired, no image remains |
| `Trail.SpawnFromOrigin` | src/app/page.tsx:93-111 | from the initial state, a move to (200, 0) at any time later than 150 ms spawns exactly one image there |
| `Trail.ShortMoveSuppressed` | src/app/page.tsx:93-102 | from the initial state, a 60-pixel move never spawns |
| `Spending.Tick` | src/app/anime-3/page.tsx:10-17 | below the target the amount strictly grows by at most 50 and never passes the target; at or above the target it is unchanged |
| `Spending.TicksClosedForm` | src/app/anime-3/page.tsx:12-13 | after n firings the amount is `min(start + 50 n, 1586)` |
| `Spending.TicksMonotone` | src/app/anime-3/page.tsx:12-13 | the amount never decreases over time and never exceeds the target |
| `Spending.TargetIsFixed` | src/app/anime-3/page.tsx:12 | once at the target, further firings leave it there |
| `Spending.ReachesTargetIn32` | src/app/anime-3/page.tsx:7-13 | from 0 the total reaches exactly 1586 after 32 firings, and not before |
| `Spending.FindDay` | src/app/anime-3/page.tsx:288 | returns the index of the first transaction on that day, or reports that none has that day |
| `Spending.TransactionFor` | src/app/anime-3/page.tsx:288 | `find` returns a transaction on that day with no earlier one on that day, and returns nothing exactly when no transaction has that day |
| `Spending.CalendarLookup` | src/app/anime-3/page.tsx:239-252 | on the page's two calendar weeks, the 28th, 1st, 2nd, 5th, 7th, 8th and 9th find a transaction, and only the 2nd, 7th, 8th and 9th show an amount |

## Left out

- Rendering: every `motion.*` prop, easing, spring, variant, hover and tap effect, and the `AnimatePresence` enter and exit lifecycles. The animation library does this work and it holds no state logic.
- Real time: `setTimeout` delays (600, 800, 1000, 1500 and 50 ms) are not clock arithmetic here. Each timer firing is an event.
- Cart.FireTimer: any pending timer of a button may fire at any moment. This over-approximates the fixed delays, and the properties hold for every order.
- Trail.RemovalFires: removals fire oldest first. With one fixed lifetime that is the order the timers fire in. The model has no clock for "exactly 1500 ms after spawning".
- Trail.MouseMove: takes one clock reading per move. The source calls `Date.now()` three times in one handler, at lines 103, 106 and 114.
- DOM work: `getBoundingClientRect` and `querySelector` become the `target` parameter of the 800 ms timer event. Focus, blur and `isFocused` only style the search box and are left out. The document mousedown listener is the `ClickedOutside` event.
- `Math.random` image choice and rotation, and the floating-particle components: decoration with no state.
- Floating point: `Math.sqrt` becomes an exact comparison of squared integer distances. Pointer coordinates are integers. Transaction amounts are integer cents. The progress percentage and `toLocaleString` formatting are left out.
- Drag reordering (`Reorder.Group onReorder`): treated as an arbitrary caller-supplied permutation of the list.
- Unicode `toLowerCase` and the regular expression's case folding: only ASCII letters are folded.
- The global-flag `regex.test` `lastIndex` behaviour that decides which segments get a `<mark>`. Only the segmentation is modelled, and the escaped query is modelled as a literal match.
- `Date.now()` ids for to-dos and floating animations are caller-supplied parameters, so possible collisions are not modelled.
- Search.FilterSuggestions: `maxSuggestions` is a natural number. The negative-argument behaviour of `slice` is not modelled.
- React development-mode double invocation of state updaters, which could schedule the re-sort timer twice, is not modelled.
- Pages with no state logic beyond library transforms: src/app/anime-2/page.tsx, src/app/anime-8/page.tsx, src/app/anime-10/page.tsx and src/app/comos/page.tsx. The static `calendarData` of the spending card has no logic either.

## Findings

| source | as written | input that shows it | evidently intended | confidence | as-written member | corrected member |
|---|---|---|---|---|---|---|
| src/app/anime-4/page.tsx:147-151 | Enter checks only `selectedIndex >= 0`. Typing narrows `filteredSuggestions` without resetting `selectedIndex`, so `filteredSuggestions[selectedIndex]` can be `undefined`, and `suggestion.title` then throws a TypeError. | Catalogue with titles "x" and "xy": type "x", press ArrowDown twice, type "xy", press Enter. With the page's own catalogue the same happens after typing "e", pressing ArrowDown four times, then typing "er". | Enter selects only when `0 <= selectedIndex < filteredSuggestions.length` | high; not executed | `Search.KeyDownAsWritten` (shown by `Search.StaleSelectionCrashes`) | `Search.KeyDown` |
