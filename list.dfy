/** Viewport arithmetic shared by the list's cursor and scroll window. */
module Viewport {

  /** The distance between two positions. */
  function Distance(a: int, b: int): nat
  {
    if a < b then b - a else a - b
  }

  /** The position in lo..hi nearest to x. */
  function Clamp(x: int, lo: int, hi: int): (r: int)
    requires lo <= hi
    ensures lo <= r <= hi
    ensures forall y :: lo <= y <= hi ==> Distance(r, x) <= Distance(y, x)
  {
    if x < lo then lo else if x > hi then hi else x
  }
}

/**
 * The list engine: an ordered sequence of items with a cursor, a viewport
 * onto the items and a lazily rebuilt cache of the selected items.
 */
module ListEngine {
  import opened Wrappers
  import opened Items
  import opened Search
  import opened Viewport

  /**
   * How many items carrying `flag` sit at indices `i..c` of `s`, that is
   * from `i` down to the cursor `c`.
   */
  function RemovedBetween(s: seq<Item>, i: nat, c: nat, flag: bool): (n: nat)
    requires i <= |s|
    ensures n <= (if c + 1 <= i then 0 else c + 1 - i)
  {
    var k := if c + 1 < |s| then c + 1 else |s|;
    if i < k then |Keep(s[i..k], flag)| else 0
  }

  /** The cursor `c` moved up `n` rows, not above row 0. */
  function Lowered(c: nat, n: nat): nat
  {
    if n <= c then c - n else 0
  }

  /**
   * Where the cursor `c` ends up once every item of `s` carrying `flag` has
   * been removed, one at a time by `RemoveLocal`, from the back: it moves up
   * one row for each removed item at or above it, and not above row 0.
   */
  function ShiftedCursor(s: seq<Item>, c: nat, flag: bool): (r: nat)
    ensures r <= c
  {
    Lowered(c, RemovedBetween(s, 0, c, flag))
  }

  /** One step of removing from the back: the item at `i` goes exactly when it carries `flag`. */
  lemma ItemsStep(s: seq<Item>, i: nat, flag: bool)
    requires i < |s|
    ensures s[..i] + Keep(s[i..], !flag)
         == (if s[i].selected == flag then s[..i] else s[..i + 1]) + Keep(s[i + 1..], !flag)
  {
    assert s[i..] == [s[i]] + s[i + 1..];
    KeepCons(s[i], s[i + 1..], !flag);
    assert s[..i + 1] == s[..i] + [s[i]];
  }

  /** One step of removing from the back: the cursor follows `RemoveLocal`'s rule. */
  lemma CursorStep(s: seq<Item>, i: nat, c: nat, flag: bool, cur: nat)
    requires i < |s| && (c < |s| || c == 0)
    requires cur == Lowered(c, RemovedBetween(s, i + 1, c, flag))
    ensures Lowered(c, RemovedBetween(s, i, c, flag))
         == if s[i].selected == flag && cur >= i && cur > 0 then cur - 1 else cur
  {
    var k := if c + 1 < |s| then c + 1 else |s|;
    var before := RemovedBetween(s, i + 1, c, flag);
    if i < k {
      assert s[i..k] == [s[i]] + s[i + 1..k];
      KeepCons(s[i], s[i + 1..k], flag);
      assert RemovedBetween(s, i, c, flag) == (if s[i].selected == flag then 1 else 0) + before;
      assert before <= c - i;
    } else {
      assert RemovedBetween(s, i, c, flag) == 0 == before;
      assert cur == c < i;
    }
  }

  /** A cursor on an item that is not removed stays on that same item. */
  lemma CursorStaysOnItem(s: seq<Item>, c: nat, flag: bool)
    requires c < |s| && s[c].selected != flag
    ensures ShiftedCursor(s, c, flag) < |Keep(s, !flag)|
    ensures Keep(s, !flag)[ShiftedCursor(s, c, flag)] == s[c]
  {
    var before, after := s[..c], s[c + 1..];
    assert s[0..c + 1] == s[..c + 1];
    assert s[..c + 1] == before + [s[c]];
    assert s == before + [s[c]] + after;
    KeepAppend(before, [s[c]], flag);
    KeepAppend(before + [s[c]], after, !flag);
    KeepAppend(before, [s[c]], !flag);
    assert [s[c]] == [s[c]] + [];
    KeepCons(s[c], [], flag);
    KeepCons(s[c], [], !flag);
    KeepCount(before);
    assert |Keep(before, flag)| + |Keep(before, !flag)| == c;
  }

  class List {
    /** Every item of the list, in order. */
    var items: seq<Item>
    /** The cached selection; meaningful only while `cacheValid` holds. */
    var selection: seq<Item>
    /** Whether `selection` is up to date. */
    var cacheValid: bool
    /** Index of the item in the top row of the viewport. */
    var top: int
    /** Index of the item beneath the cursor; 0 when the list is empty. */
    var cursor: int
    /** Number of rows of the viewport (the height of its bounding box). */
    var height: nat

    /** The list's invariant: viewport and cursor in bounds, a valid cache is exact. */
    ghost predicate Valid()
      reads this
    {
      && MinTopPosition() <= top <= MaxTopPosition()
      && (if |items| == 0 then cursor == 0 else 0 <= cursor < |items|)
      && (cacheValid ==> selection == Keep(items, true))
    }

    constructor (height: nat)
      ensures Valid()
      ensures items == [] && selection == [] && !cacheValid
      ensures top == 0 && cursor == 0 && this.height == height
    {
      items := [];
      selection := [];
      cacheValid := false;
      top := 0;
      cursor := 0;
      this.height := height;
    }

    /** The number of items. */
    function Size(): (n: nat)
      reads this
      ensures n == |items|
    {
      |items|
    }

    /** The item at `index`, or None when `index` is past the end. */
    function ItemAt(index: nat): (r: Option<Item>)
      reads this
      ensures r.None? <==> index >= Size()
      ensures r.Some? ==> r.value == items[index]
    {
      if index < |items| then Some(items[index]) else None
    }

    /** The first item, or None in an empty list. */
    function First(): (r: Option<Item>)
      reads this
      ensures r.None? <==> items == []
      ensures r.Some? ==> r.value == items[0]
    {
      ItemAt(0)
    }

    /** The last item, or None in an empty list. */
    function Last(): (r: Option<Item>)
      reads this
      ensures r.None? <==> items == []
      ensures r.Some? ==> r.value == items[|items| - 1]
    {
      if items == [] then None else Some(items[|items| - 1])
    }

    /** Append an item at the end of the list. */
    method AddLocal(it: Item) returns (ok: bool)
      requires Valid()
      modifies this
      ensures Valid() && ok
      ensures items == old(items) + [it] && !cacheValid
      ensures selection == old(selection) && top == old(top) && cursor == old(cursor) && height == old(height)
    {
      items := items + [it];
      cacheValid := false;
      ok := true;
    }

    /** Delete every item. */
    method Clear()
      requires Valid()
      modifies this
      ensures Valid()
      ensures items == [] && selection == [] && !cacheValid
      ensures top == 0 && cursor == 0 && height == old(height)
    {
      items := [];
      selection := [];
      cacheValid := false;
      top := 0;
      cursor := 0;
    }

    /**
     * Delete the item at `position`. A cursor at or after it moves up one
     * row (not above the first row) and the viewport is pulled back inside
     * the shorter list.
     */
    method RemoveLocal(position: nat)
      requires Valid() && position < |items|
      modifies this
      ensures Valid()
      ensures items == old(items[..position] + items[position + 1..])
      ensures !cacheValid && selection == old(selection) && height == old(height)
      ensures cursor == if old(cursor) >= position && old(cursor) > 0 then old(cursor) - 1 else old(cursor)
      ensures top == if old(top) <= MaxTopPosition() then old(top) else MaxTopPosition()
    {
      items := items[..position] + items[position + 1..];
      cacheValid := false;
      if cursor >= position && cursor > 0 {
        cursor := cursor - 1;
      }
      if top > MaxTopPosition() {
        top := MaxTopPosition();
      }
    }

    /** Rebuild the selection cache from the items' flags. */
    method BuildSelectionCache()
      requires Valid()
      modifies this
      ensures Valid() && cacheValid && selection == Keep(items, true)
      ensures items == old(items) && top == old(top) && cursor == old(cursor) && height == old(height)
    {
      var selected: seq<Item> := [];
      var i := 0;
      while i < |items|
        invariant 0 <= i <= |items|
        invariant selected == Keep(items[..i], true)
      {
        assert items[..i + 1][..i] == items[..i];
        if items[i].selected {
          selected := selected + [items[i]];
        }
        i := i + 1;
      }
      assert items[..|items|] == items;
      selection := selected;
      cacheValid := true;
    }

    /** Whether the selection cache is up to date. */
    function SelectionCacheValid(): (r: bool)
      reads this
      requires Valid()
      ensures r ==> selection == Keep(items, true)
    {
      cacheValid
    }

    /**
     * Set the cache status. Marking it invalid forces a rebuild on the next
     * request for the selection; marking it valid is allowed only when it is.
     */
    method SetSelectionCacheValid(state: bool)
      requires Valid() && (state ==> selection == Keep(items, true))
      modifies this
      ensures Valid() && cacheValid == state
      ensures items == old(items) && selection == old(selection)
      ensures top == old(top) && cursor == old(cursor) && height == old(height)
    {
      cacheValid := state;
    }

    /** The selected items in index order, rebuilding the cache if it is stale. */
    method Selection() returns (s: seq<Item>)
      requires Valid()
      modifies this
      ensures Valid() && cacheValid && s == selection == Keep(items, true)
      ensures old(cacheValid) ==> selection == old(selection)
      ensures items == old(items) && top == old(top) && cursor == old(cursor) && height == old(height)
    {
      if !cacheValid {
        BuildSelectionCache();
      }
      s := selection;
    }

    /** The selected items in reverse index order, rebuilding the cache if it is stale. */
    method SelectionReversed() returns (s: seq<Item>)
      requires Valid()
      modifies this
      ensures Valid() && cacheValid && selection == Keep(items, true)
      ensures |s| == |selection| && forall k :: 0 <= k < |s| ==> s[k] == selection[|selection| - 1 - k]
      ensures items == old(items) && top == old(top) && cursor == old(cursor) && height == old(height)
    {
      var forward := Selection();
      s := [];
      var i := |forward|;
      while i > 0
        invariant 0 <= i <= |forward|
        invariant |s| == |forward| - i
        invariant forall k :: 0 <= k < |s| ==> s[k] == forward[|forward| - 1 - k]
      {
        i := i - 1;
        s := s + [forward[i]];
      }
    }

    /** Changes the flag of the item at `index`; a real change makes the cache stale. */
    method SetSelected(index: nat, state: bool)
      requires Valid() && index < |items|
      modifies this
      ensures Valid() && |items| == |old(items)| && items[index].selected == state
      ensures old(items[index].selected) == state ==> items == old(items) && cacheValid == old(cacheValid)
      ensures old(items[index].selected) != state ==>
        items == old(items)[index := old(items[index]).(selected := state)] && !cacheValid
      ensures selection == old(selection) && top == old(top) && cursor == old(cursor) && height == old(height)
    {
      if state == items[index].selected {
        return;
      }
      items := items[index := items[index].(selected := state)];
      cacheValid := false;
    }

    /**
     * Remove, one at a time from the back, every item whose flag is `flag`,
     * with the mechanics of `RemoveLocal`.
     */
    method RemoveWhere(flag: bool)
      requires Valid()
      modifies this
      ensures Valid() && height == old(height) && selection == old(selection)
      ensures items == Keep(old(items), !flag)
      ensures cursor == ShiftedCursor(old(items), old(cursor), flag)
      ensures top == if old(top) <= MaxTopPosition() then old(top) else MaxTopPosition()
    {
      ghost var s, c0: nat, t0 := items, cursor, top;
      var i := |items|;
      while i > 0
        invariant 0 <= i <= |s|
        invariant Valid() && height == old(height) && selection == old(selection)
        invariant items == s[..i] + Keep(s[i..], !flag)
        invariant cursor == Lowered(c0, RemovedBetween(s, i, c0, flag))
        invariant top == if t0 <= MaxTopPosition() then t0 else MaxTopPosition()
      {
        i := i - 1;
        ItemsStep(s, i, flag);
        CursorStep(s, i, c0, flag, cursor);
        assert items[i] == s[i];
        if items[i].selected == flag {
          assert items[..i] == s[..i];
          RemoveLocal(i);
        }
      }
      assert s[0..] == s;
    }

    /**
     * Keep only the selected items. Refused, with nothing removed, when the
     * selection is empty or is the whole list; otherwise the unselected items
     * are removed with the mechanics of `RemoveLocal`.
     */
    method CropToSelection() returns (ok: bool)
      requires Valid()
      modifies this
      ensures Valid() && cacheValid && selection == Keep(items, true) && height == old(height)
      ensures ok <==> AnyWith(old(items), true) && AnyWith(old(items), false)
      ensures !ok ==> items == old(items) && top == old(top) && cursor == old(cursor)
      ensures ok ==> items == Keep(old(items), true)
      ensures ok ==> cursor == ShiftedCursor(old(items), old(cursor), false)
      ensures ok ==> top == if old(top) <= MaxTopPosition() then old(top) else MaxTopPosition()
    {
      var selected := Selection();
      KeepCount(items);
      KeepEmptyIff(items, true);
      KeepEmptyIff(items, false);
      if |selected| == 0 || |selected| == |items| {
        return false;
      }
      KeepIdempotent(items, true);
      RemoveWhere(false);
      selection := items;
      cacheValid := true;
      ok := true;
    }

    /**
     * Remove the selected items, with the mechanics of `RemoveLocal`.
     * Refused, with nothing removed, when the selection is empty; afterwards
     * nothing is selected.
     */
    method RemoveSelection() returns (ok: bool)
      requires Valid()
      modifies this
      ensures Valid() && cacheValid && selection == [] == Keep(items, true) && height == old(height)
      ensures ok <==> AnyWith(old(items), true)
      ensures !ok ==> items == old(items) && top == old(top) && cursor == old(cursor)
      ensures ok ==> items == Keep(old(items), false)
      ensures ok ==> |items| == |old(items)| - |Keep(old(items), true)|
      ensures ok ==> cursor == ShiftedCursor(old(items), old(cursor), true)
      ensures ok ==> top == if old(top) <= MaxTopPosition() then old(top) else MaxTopPosition()
    {
      var selected := Selection();
      KeepEmptyIff(items, true);
      if |selected| == 0 {
        return false;
      }
      KeepCount(items);
      KeepIdempotent(items, false);
      RemoveWhere(true);
      selection := [];
      cacheValid := true;
      ok := true;
    }

    /** Index of the first item in from..to (inclusive, clipped to the list) that matches, as an item. */
    method Match(pattern: string, from: int, to: int, flags: int, m: Matcher) returns (r: Option<Item>)
      ensures r == Lookup(items, FirstMatchFrom(items, RangeStart(from), to, pattern, flags, m))
    {
      var i := RangeStart(from);
      while i < |items| && i <= to
        invariant RangeStart(from) <= i
        invariant FirstMatchFrom(items, i, to, pattern, flags, m) == FirstMatchFrom(items, RangeStart(from), to, pattern, flags, m)
        decreases |items| - i
      {
        if m(items[i], pattern, flags) {
          return Some(items[i]);
        }
        i := i + 1;
      }
      return None;
    }

    /**
     * Search from the item after `from` to the end, then wrap to the start
     * and search up to and including the item at `from`.
     */
    method MatchWrapAround(pattern: string, from: int, flags: int, m: Matcher) returns (r: Option<Item>)
      ensures r == Lookup(items, WrapAroundIndex(items, from, pattern, flags, m))
      ensures r.None? <==> forall j :: 0 <= j < |items| ==> !m(items[j], pattern, flags)
    {
      r := Match(pattern, from + 1, |items| - 1, flags, m);
      if r.None? {
        r := Match(pattern, 0, from, flags, m);
      }
    }

    /** Index of the item in the top row of the viewport. */
    function TopPosition(): (r: int)
      reads this
      requires Valid()
      ensures MinTopPosition() <= r <= MaxTopPosition()
    {
      top
    }

    /** The smallest top position, fixed at 0 whatever the list and viewport size. */
    function MinTopPosition(): (r: int)
      ensures r == 0
    {
      0
    }

    /** The largest top position: the one that shows the last item in the bottom row. */
    function MaxTopPosition(): (r: int)
      reads this
      ensures r >= MinTopPosition()
      ensures |items| <= height ==> r == 0
      ensures |items| > height ==> r + height == |items|
    {
      if |items| > height then |items| - height else 0
    }

    /** Index of the item in the bottom row of the viewport. */
    function BottomPosition(): (r: int)
      reads this
      requires Valid()
      ensures r < |items|
      ensures r == |items| - 1 || r == top + height - 1
      ensures |items| > 0 && height > 0 ==> top <= r && r - top < height
      ensures top == MaxTopPosition() ==> r == |items| - 1
    {
      if top + height < |items| then top + height - 1 else |items| - 1
    }

    /** Move the viewport's top to `position`, clamped; false when it was out of bounds. */
    method SetViewportPosition(position: int) returns (ok: bool)
      requires Valid()
      modifies this
      ensures Valid()
      ensures ok <==> MinTopPosition() <= position <= MaxTopPosition()
      ensures top == Clamp(position, MinTopPosition(), MaxTopPosition())
      ensures items == old(items) && selection == old(selection) && cacheValid == old(cacheValid)
      ensures cursor == old(cursor) && height == old(height)
    {
      if position < MinTopPosition() {
        top := MinTopPosition();
        ok := false;
      } else if position > MaxTopPosition() {
        top := MaxTopPosition();
        ok := false;
      } else {
        top := position;
        ok := true;
      }
    }

    /** Scroll the viewport by `delta` rows, clamped; false when that went out of bounds. */
    method ScrollWindow(delta: int) returns (ok: bool)
      requires Valid()
      modifies this
      ensures Valid()
      ensures ok <==> MinTopPosition() <= old(top) + delta <= MaxTopPosition()
      ensures top == Clamp(old(top) + delta, MinTopPosition(), MaxTopPosition())
      ensures items == old(items) && selection == old(selection) && cacheValid == old(cacheValid)
      ensures cursor == old(cursor) && height == old(height)
    {
      ok := SetViewportPosition(top + delta);
    }

    /** Move the cursor to `position`, clamped to the items; false when it was out of bounds. */
    method SetCursor(position: int) returns (ok: bool)
      requires Valid()
      modifies this
      ensures Valid()
      ensures ok <==> 0 <= position < |items|
      ensures |items| > 0 ==> cursor == Clamp(position, 0, |items| - 1)
      ensures items == old(items) && selection == old(selection) && cacheValid == old(cacheValid)
      ensures top == old(top) && height == old(height)
    {
      if |items| == 0 {
        return false;
      }
      ok := 0 <= position < |items|;
      cursor := Clamp(position, 0, |items| - 1);
    }

    /** Move the cursor by `delta` rows, clamped to the items; false when that went out of bounds. */
    method MoveCursor(delta: int) returns (ok: bool)
      requires Valid()
      modifies this
      ensures Valid()
      ensures ok <==> 0 <= old(cursor) + delta < |items|
      ensures |items| > 0 ==> cursor == Clamp(old(cursor) + delta, 0, |items| - 1)
      ensures items == old(items) && selection == old(selection) && cacheValid == old(cacheValid)
      ensures top == old(top) && height == old(height)
    {
      ok := SetCursor(cursor + delta);
    }

    /** The item beneath the cursor, or None when the list is empty. */
    function CursorItem(): (r: Option<Item>)
      reads this
      requires Valid()
      ensures r.None? <==> items == []
      ensures r.Some? ==> r.value == items[cursor]
    {
      if items == [] then None else Some(items[cursor])
    }

    /** The cursor is on a row of the viewport. */
    ghost predicate CursorVisible()
      reads this
      requires Valid()
    {
      top <= cursor <= BottomPosition()
    }

    /**
     * Bring the cursor onto the viewport, to the nearest visible row; true
     * when the cursor moved.
     */
    method AdjustCursorToViewport() returns (changed: bool)
      requires Valid()
      modifies this
      ensures Valid()
      ensures changed <==> cursor != old(cursor)
      ensures |items| > 0 && height > 0 ==> CursorVisible()
      ensures |items| > 0 && height > 0 ==> cursor == Clamp(old(cursor), top, BottomPosition())
      ensures |items| == 0 || height == 0 ==> !changed
      ensures items == old(items) && selection == old(selection) && cacheValid == old(cacheValid)
      ensures top == old(top) && height == old(height)
    {
      if |items| == 0 || height == 0 {
        return false;
      }
      var bottom := BottomPosition();
      var previous := cursor;
      cursor := Clamp(cursor, top, bottom);
      changed := cursor != previous;
    }

    /**
     * Scroll the viewport the least distance that shows the cursor; true
     * when the viewport moved.
     */
    method AdjustViewportToCursor() returns (changed: bool)
      requires Valid()
      modifies this
      ensures Valid()
      ensures changed <==> top != old(top)
      ensures |items| > 0 && height > 0 ==> CursorVisible()
      ensures |items| > 0 && height > 0 ==>
        forall t :: MinTopPosition() <= t <= MaxTopPosition() && t <= cursor < t + height ==>
          Distance(top, old(top)) <= Distance(t, old(top))
      ensures |items| == 0 || height == 0 ==> !changed
      ensures items == old(items) && selection == old(selection) && cacheValid == old(cacheValid)
      ensures cursor == old(cursor) && height == old(height)
    {
      if |items| == 0 || height == 0 {
        return false;
      }
      var previous := top;
      if cursor < top {
        top := cursor;
      } else if cursor > BottomPosition() {
        top := cursor - height + 1;
      }
      changed := top != previous;
    }
  }
}
