/** Option stands for a pointer that may be NULL. */
module Wrappers {
  datatype Option<+T> = None | Some(value: T)
}

/**
 * The item capability set of a list: a selection flag and a pattern test,
 * and the selected/unselected views of a sequence of items.
 */
module Items {

  /**
   * A list item. `id` stands for the item's identity (its address) together
   * with whatever content a concrete item kind carries; `selected` is the
   * item's selection flag. Reading `selected` is the `selected()` accessor.
   */
  datatype Item = Item(id: nat, selected: bool)

  /**
   * The pattern test of a concrete item kind: item, search term, flags.
   * Concrete kinds (songs, outputs, bindings, files) are not modelled, so
   * searches take the test as a parameter.
   */
  type Matcher = (Item, string, int) -> bool

  /** A freshly constructed item: it starts unselected. */
  function NewItem(id: nat): (it: Item)
    ensures it.id == id && !it.selected
  {
    Item(id, false)
  }

  /** The base pattern test: an item of no particular kind matches nothing. */
  function BaseMatch(it: Item, term: string, flags: int): (r: bool)
    ensures !r
  {
    false
  }

  /** Some item of `s` has its flag equal to `want`. */
  ghost predicate AnyWith(s: seq<Item>, want: bool)
  {
    exists i :: 0 <= i < |s| && s[i].selected == want
  }

  /** The items of `s` whose flag equals `want`, in index order. */
  function Keep(s: seq<Item>, want: bool): (r: seq<Item>)
    ensures |r| <= |s|
    ensures forall i :: 0 <= i < |r| ==> r[i].selected == want
  {
    if s == [] then []
    else
      var init, last := s[..|s| - 1], s[|s| - 1];
      Keep(init, want) + (if last.selected == want then [last] else [])
  }

  /** Keeping distributes over concatenation: order is preserved. */
  lemma {:induction false} KeepAppend(a: seq<Item>, b: seq<Item>, want: bool)
    ensures Keep(a + b, want) == Keep(a, want) + Keep(b, want)
  {
    if b == [] {
      assert a + b == a;
    } else {
      var init, last := b[..|b| - 1], b[|b| - 1];
      assert (a + b)[..|a + b| - 1] == a + init;
      assert (a + b)[|a + b| - 1] == last;
      KeepAppend(a, init, want);
    }
  }

  /** Keeping from a sequence that starts with `x`. */
  lemma KeepCons(x: Item, t: seq<Item>, want: bool)
    ensures Keep([x] + t, want) == (if x.selected == want then [x] else []) + Keep(t, want)
  {
    KeepAppend([x], t, want);
    assert [x][..0] == [];
  }

  /** The selected and the unselected items together are all the items. */
  lemma {:induction false} KeepPartition(s: seq<Item>)
    ensures multiset(Keep(s, true)) + multiset(Keep(s, false)) == multiset(s)
  {
    if s != [] {
      var init, last := s[..|s| - 1], s[|s| - 1];
      assert s == init + [last];
      KeepPartition(init);
      var t, f := Keep(init, true), Keep(init, false);
      if last.selected {
        assert Keep(s, true) == t + [last];
        assert Keep(s, false) == f;
        assert multiset(t + [last]) == multiset(t) + multiset{last};
      } else {
        assert Keep(s, true) == t;
        assert Keep(s, false) == f + [last];
        assert multiset(f + [last]) == multiset(f) + multiset{last};
      }
      assert multiset(s) == multiset(init) + multiset{last};
    }
  }

  /** The selected and the unselected items together are as many as the items. */
  lemma KeepCount(s: seq<Item>)
    ensures |Keep(s, true)| + |Keep(s, false)| == |s|
  {
    KeepPartition(s);
    assert |multiset(Keep(s, true)) + multiset(Keep(s, false))| == |multiset(s)|;
  }

  /** Nothing is kept exactly when no item has the wanted flag. */
  lemma {:induction false} KeepEmptyIff(s: seq<Item>, want: bool)
    ensures Keep(s, want) == [] <==> !AnyWith(s, want)
  {
    if s != [] {
      var init, last := s[..|s| - 1], s[|s| - 1];
      KeepEmptyIff(init, want);
      if AnyWith(init, want) {
        var i :| 0 <= i < |init| && init[i].selected == want;
        assert s[i] == init[i];
      }
      if AnyWith(s, want) && last.selected != want {
        var i :| 0 <= i < |s| && s[i].selected == want;
        assert init[i] == s[i];
      }
    }
  }

  /** Everything is kept exactly when no item has the other flag. */
  lemma {:induction false} KeepAllIff(s: seq<Item>, want: bool)
    ensures Keep(s, want) == s <==> !AnyWith(s, !want)
  {
    KeepCount(s);
    KeepEmptyIff(s, !want);
    if Keep(s, want) == s {
      assert |Keep(s, !want)| == 0;
    } else if !AnyWith(s, !want) {
      KeepAllWhenNoneOther(s, want);
    }
  }

  lemma {:induction false} KeepAllWhenNoneOther(s: seq<Item>, want: bool)
    requires forall i :: 0 <= i < |s| ==> s[i].selected == want
    ensures Keep(s, want) == s
  {
    if s != [] {
      var init, last := s[..|s| - 1], s[|s| - 1];
      assert s == init + [last];
      KeepAllWhenNoneOther(init, want);
    }
  }

  /** Keeping twice is keeping once; keeping the other flag afterwards keeps nothing. */
  lemma KeepIdempotent(s: seq<Item>, want: bool)
    ensures Keep(Keep(s, want), want) == Keep(s, want)
    ensures Keep(Keep(s, want), !want) == []
  {
    var r := Keep(s, want);
    KeepAllIff(r, want);
    KeepEmptyIff(r, !want);
  }

  /** Appending a freshly constructed item leaves the selected items as they were. */
  lemma NewItemKeepsSelection(s: seq<Item>, id: nat)
    ensures Keep(s + [NewItem(id)], true) == Keep(s, true)
  {
    KeepAppend(s, [NewItem(id)], true);
    assert [NewItem(id)] == [] + [NewItem(id)];
  }
}
