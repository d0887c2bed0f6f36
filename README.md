# PMS list engine and log console, modelled in Dafny

This project models two in-memory components of PMS (Practical Music Search),
a console client for the MPD music daemon:

- the **list engine** (`List` in `src/list.h`, `ListItem` in
  `src/listitem.cpp`): an ordered sequence of items with a cursor, a viewport
  (top position and height) and a lazily rebuilt cache of the selected items;
- the **log console** (`src/console.c`): a fixed number of slots used as a
  circular buffer of log lines, with a window that follows the newest line.

Files:

- `items.dfy` — `Wrappers.Option` (a pointer that may be NULL) and module
  `Items`: the item value `Item(id, selected)`, the base pattern test, and
  `Keep(s, want)`, the items of `s` whose flag is `want` in index order, with
  its lemmas (order preservation, partition, emptiness and fullness
  characterisations, idempotence).
- `search.dfy` — module `Search`: the first match in an inclusive index range
  and the wrap-around search, as functions with their characterising
  contracts.
- `list.dfy` — module `Viewport` (clamping to the nearest in-bounds position)
  and module `ListEngine`: the class `List` with fields `items`, `selection`,
  `cacheValid`, `top`, `cursor` and `height`, and `Valid()` stating the
  viewport bounds, the cursor bounds and "a valid cache holds exactly the
  selected items".
- `console.dfy` — module `ConsoleLog`: the ring invariant over slot values,
  the lemma that an append keeps it, and the class `Console` with the slot
  array, `lineCursor`, `firstLine`, `full`, `lineLimit` and the window's
  `numLines`, `position` and `height`.

Modelling choices:

- An item's `selected()` accessor is the field `Item.selected`; reading it
  changes nothing. `ListItem::set_selected` calls back into its owner list to
  clear `selection_cache_valid_`; here the list owns that path, as
  `List.SetSelected(index, state)`, so an item needs no back pointer and the
  non-null owner required by the `ListItem` constructor is the list holding
  the item.
- `id` stands for an item's identity and for the content of the concrete
  item kinds (songs, outputs, bindings, files). Their field-specific pattern
  tests are a parameter `m: Matcher` of the searches.
- Only the header of `List` is part of this model; `list.cpp` is not, so the
  bodies of `List`'s methods follow the header's doc comments. Where those
  are silent the model chooses, and says so here:
  - `match(pattern, from, to, flags)` searches `from..to` inclusive, clipped
    to the list, and returns the first match;
  - `match_wrap_around` is `match(from + 1, size - 1)` followed by
    `match(0, from)`;
  - the cursor of an empty list is 0;
  - `remove_local` moves a cursor at or after the removed position up one row
    (not above row 0) and pulls the viewport back inside the list;
  - `add_local`, `remove_local` and `clear` mark the cache stale, while
    `crop_to_selection` and `remove_selection` leave it valid and exact;
  - `crop_to_selection` and `remove_selection` erase their items one at a
    time from the back with the mechanics of `remove_local`, so the cursor
    moves up one row for each removed item at or above it (not above row 0),
    a cursor on a kept item stays on that item, and the top is pulled back
    to `max_top_position()` when it lies beyond it;
  - `first()` and `last()` return no item (NULL) on an empty list;
  - `min_top_position()` is 0 whatever the list and viewport size.
- `scroll_window` and `set_viewport_position` return false exactly when the
  requested top position lies outside `[min_top_position(), max_top_position()]`,
  as the header says; the position is clamped either way. An alternative
  reading, false only when the top did not move (so `scroll_window(0)` would
  return false), is not modelled.
- The console's `window_scroll` is not part of this model: it is a parameter
  of type `WindowScroll` giving the new position and the redraw count.
  `console_scroll` is modelled as written: a positive count redraws rows
  `height - changed .. height`, which is `changed + 1` rows ending at row
  `height`, even though the comment of `window_scroll` in `src/window.h`
  describes a positive count as "draw from top".

## Model

| member | source | states |
|---|---|---|
| `Items.NewItem` | src/listitem.cpp:24-29 | a new item starts unselected |
| `Items.NewItemKeepsSelection` | src/listitem.cpp:24-29 | appending a freshly constructed item leaves the selected items unchanged |
| `Items.BaseMatch` | src/listitem.cpp:51-55 | the base pattern test is false for every item, term and flags |
| `Search.BaseMatchFindsNothing` | src/listitem.cpp:51-55 | with the base test, neither a range search nor a wrap-around search finds an item |
| `Items.Keep` | src/list.h:51-56 | the kept items all carry the wanted flag and are no more than the items |
| `Items.KeepAppend` | src/list.h:51-56 | the selection of a concatenation is the concatenation of the selections: index order is preserved |
| `Items.KeepPartition` | src/list.h:133-145 | the selected and the unselected items together are exactly the items, as a multiset |
| `Items.KeepCount` | src/list.h:140-145 | the numbers of selected and unselected items add up to the list's size |
| `Items.KeepEmptyIff` | src/list.h:133-145 | the selection is empty if and only if no item is selected |
| `Items.KeepAllIff` | src/list.h:133-138 | the selection is the whole list if and only if no item is unselected |
| `Items.KeepIdempotent` | src/list.h:133-145 | after cropping every item is selected, and after removing the selection no item is |
| `Search.FirstMatchFrom` | src/list.h:153-158 | the result is the first matching index in the range; None only when no item in the range matches |
| `Search.WrapAroundIndex` | src/list.h:160-166 | the result matches; None if and only if no item matches; items after `from` are searched first, then the start up to and including `from` |
| `Search.WrapAroundEndsAtStart` | src/list.h:160-166 | an item at `from` that is the only match is found, at the end of the wrap |
| `Viewport.Clamp` | src/list.h:180-218 | the clamped position is in bounds and nearest the requested one |
| `ListEngine.ShiftedCursor` | src/list.h:84-87 | the cursor after removing every item with a flag, one at a time from the back by `remove_local`; it is at most the starting cursor, since the cursor only moves up |
| `ListEngine.RemovedBetween` | src/list.h:84-87 | the number of removed items from `i` down to the cursor is at most the number of rows between them |
| `ListEngine.ItemsStep` | src/list.h:84-87 | removing from the back, the item at `i` is erased exactly when it carries the flag; the items before it are untouched |
| `ListEngine.CursorStep` | src/list.h:84-87 | removing the item at `i` moves the cursor by `remove_local`'s rule, which is one more step of `ShiftedCursor` |
| `ListEngine.CursorStaysOnItem` | src/list.h:84-87 | a cursor on an item that is kept ends on that same item among the kept items |
| `ListEngine.List.RemoveWhere` | src/list.h:84-87 | erasing back to front with `remove_local` every item with the flag leaves exactly the items with the other flag, in order; the cursor is `ShiftedCursor`, the top is pulled back within bounds |
| `ListEngine.List.constructor` | src/list.h:90-92 | a new list is empty and valid, top and cursor 0 |
| `ListEngine.List.Size` | src/list.h:121-124 | the number of items |
| `ListEngine.List.ItemAt` | src/list.h:116-124 | the item at `index`, None exactly when `index >= size()` |
| `ListEngine.List.First` | src/list.h:264-267 | the first item, None exactly when the list is empty |
| `ListEngine.List.Last` | src/list.h:269-272 | the last item, None exactly when the list is empty |
| `ListEngine.List.AddLocal` | src/list.h:106-109 | the item is appended at the end, success is reported, the cache is stale, the invariant holds |
| `ListEngine.List.Clear` | src/list.h:111-114 | every item is gone, size 0, top and cursor 0, the cache is stale |
| `ListEngine.List.RemoveLocal` | src/list.h:84-87 | the item at `position` is erased, the others keep their order; cursor and top stay in bounds |
| `ListEngine.List.BuildSelectionCache` | src/list.h:73-77 | afterwards the cache is valid and holds exactly the selected items in index order |
| `ListEngine.List.SelectionCacheValid` | src/list.h:79-82 | when it reports the cache valid, the cache holds exactly the selected items |
| `ListEngine.List.SetSelectionCacheValid` | src/list.h:147-151 | sets the cache status; false forces a rebuild on the next selection request |
| `ListEngine.List.Selection` | src/list.h:274-284 | rebuilds a stale cache; returns exactly the selected items in index order; the cache is then valid |
| `ListEngine.List.SelectionReversed` | src/list.h:286-296 | rebuilds a stale cache; returns the selected items in reverse index order |
| `ListEngine.List.SetSelected` | src/listitem.cpp:35-49 | setting the current value changes nothing, not even the cache status; a new value is stored and makes the cache stale |
| `ListEngine.List.CropToSelection` | src/list.h:133-138 | false, changing no item, unless some item is selected and some is not; otherwise only the selected items remain, in order, the cache is valid and exact, and cursor and top move as `remove_local` moves them for each removed item |
| `ListEngine.List.RemoveSelection` | src/list.h:140-145 | false, changing no item, when nothing is selected; otherwise exactly the unselected items remain, in order, the cache is valid and empty, and cursor and top move as `remove_local` moves them for each removed item |
| `ListEngine.List.Match` | src/list.h:153-158 | returns the first matching item of `from..to`, None only when no item there matches |
| `ListEngine.List.MatchWrapAround` | src/list.h:160-166 | returns the wrap-around search's item; None if and only if no item matches |
| `ListEngine.List.TopPosition` | src/list.h:168-172 | the top position lies within `[min_top_position(), max_top_position()]` |
| `ListEngine.List.MinTopPosition` | src/list.h:180-184 | the smallest top position is 0; the header says it depends on list and viewport size, the model fixes it at 0 |
| `ListEngine.List.MaxTopPosition` | src/list.h:186-190 | 0 when the list fits the viewport, otherwise the top that shows the last item in the bottom row |
| `ListEngine.List.BottomPosition` | src/list.h:174-178 | a valid index when the list is non-empty and the viewport has a row, at most `height - 1` rows below the top, and the last item when the top is at its maximum |
| `ListEngine.List.SetViewportPosition` | src/list.h:199-204 | false exactly when the position is out of bounds; the top becomes the nearest in-bounds position |
| `ListEngine.List.ScrollWindow` | src/list.h:192-197 | false exactly when top plus delta is out of bounds; the top becomes the nearest in-bounds position |
| `ListEngine.List.SetCursor` | src/list.h:213-218 | false exactly when the position is not an item index; the cursor becomes the nearest item |
| `ListEngine.List.MoveCursor` | src/list.h:206-211 | false exactly when cursor plus delta is not an item index; the cursor becomes the nearest item |
| `ListEngine.List.CursorItem` | src/list.h:220-223 | the item beneath the cursor, None exactly when the list is empty |
| `ListEngine.List.AdjustCursorToViewport` | src/list.h:225-231 | the cursor moves to the nearest visible row; true if and only if it moved |
| `ListEngine.List.AdjustViewportToCursor` | src/list.h:233-239 | the viewport scrolls the least distance that shows the cursor; true if and only if it moved |
| `ConsoleLog.Console.Init` | src/console.c:39-60 | `line_limit` is `max_lines`, every slot is empty, the window holds no lines |
| `ConsoleLog.Console.GetLine` | src/console.c:62-65 | logical line `n` (slot `(n + first_line) % line_limit`) is the `n`-th oldest line held; slots past the held lines are empty |
| `ConsoleLog.AppendKeepsRing` | src/console.c:89-111 | storing at the cursor and advancing the cursor (and, when full, the oldest slot) keeps the ring invariant: `num_lines <= line_limit`, `full` implies `first_line == line_cursor` |
| `ConsoleLog.Console.Append` | src/console.c:89-116 | the line takes the cursor's slot; when full the oldest line is evicted and `first_line` advances, otherwise `num_lines` grows; the cursor advances, wrapping and setting `full`; the window scrolls by one exactly when `num_lines < height` or `position + height + 1 >= num_lines` |
| `ConsoleLog.Console.Scroll` | src/console.c:144-157 | returns the window scroll's count and the redraw range for it |
| `ConsoleLog.RedrawRange` | src/console.c:148-153 | positive: `changed + 1` rows ending at row `height`; negative: `-changed` rows from row 0; zero: the single row `num_lines - 1` |

## Left out

- The remote `remove`, `draw`, `set_column_size`, `set_bounding_box` and the
  bounding box itself (`height` stands for its height), `title`/`set_title`,
  the undocumented `move`, the raw `begin`/`end` iterators, the constructor's
  bounding-box argument and the destructor: rendering, remote storage and
  memory ownership, none with list logic of its own.
- `ListEngine.List.SetSelectionCacheValid`: requires the cache to be exact when it
  is marked valid; the source lets a caller mark a stale cache valid, which
  would break the cache invariant.
- `ListEngine.List.AdjustCursorToViewport`: on an empty list or a zero-height
  viewport no row is visible, so nothing changes and false is returned; of the
  scroll modes the header mentions only the plain one (nearest visible row)
  is modelled.
- `ListEngine.List.AdjustViewportToCursor`: on an empty list or a zero-height
  viewport nothing changes and false is returned; of the scroll modes the
  header mentions only the plain one (least scroll) is modelled.
- `ConsoleLog.Console.GetLine`: states the result only for `n < line_limit`; the
  wrap-around of the unsigned sum `n + first_line` is not modelled.
- 32-bit integer widths of positions, cursor and counters: all are unbounded
  integers, so overflow of `top + delta`, `cursor + delta` or `from + 1` is not
  modelled.
- Item identity: two entries with the same `id` may carry different flags,
  whereas two pointers to one `ListItem` share one flag.
- Console: the mutex, `malloc`/`realloc` and `fatal`, message formatting,
  timestamps, `free_logline` (a released slot is simply overwritten), the
  ncurses drawing of `console_draw_lines`, and re-initialisation (only a
  single `console_init` is modelled; the terminal height `LINES - 2` is a
  parameter). `window_scroll`'s body is not part of this model.
- `src/conn.cpp`: the connection lifecycle wrapper over libmpdclient.
