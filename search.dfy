/**
 * Pattern search over a sequence of items: the first match in an index
 * range, and the wrap-around search that starts after a given position.
 */
module Search {
  import opened Wrappers
  import opened Items

  /** The first index a range starting at `from` can visit. */
  function RangeStart(from: int): nat
  {
    if from < 0 then 0 else from
  }

  /** The item an optional index denotes, or None. */
  function Lookup(items: seq<Item>, i: Option<nat>): (r: Option<Item>)
    ensures r.Some? <==> i.Some? && i.value < |items|
  {
    if i.Some? && i.value < |items| then Some(items[i.value]) else None
  }

  /**
   * The index of the first item at positions k..last (both inclusive, and
   * below |items|) that passes the pattern test, or None.
   */
  function FirstMatchFrom(items: seq<Item>, k: nat, last: int, pattern: string, flags: int, m: Matcher): (r: Option<nat>)
    ensures r.Some? ==> k <= r.value <= last && r.value < |items| && m(items[r.value], pattern, flags)
    ensures r.Some? ==> forall j :: k <= j < r.value ==> !m(items[j], pattern, flags)
    ensures r.None? ==> forall j :: k <= j <= last && j < |items| ==> !m(items[j], pattern, flags)
    decreases |items| - k
  {
    if k >= |items| || k > last then None
    else if m(items[k], pattern, flags) then Some(k)
    else FirstMatchFrom(items, k + 1, last, pattern, flags, m)
  }

  /**
   * The wrap-around search from `from`: first the items after `from` up to
   * the end, then the items from the start up to and including `from`.
   */
  function WrapAroundIndex(items: seq<Item>, from: int, pattern: string, flags: int, m: Matcher): (r: Option<nat>)
    ensures r.Some? ==> r.value < |items| && m(items[r.value], pattern, flags)
    ensures r.None? <==> forall j :: 0 <= j < |items| ==> !m(items[j], pattern, flags)
    ensures r.Some? && r.value > from ==> forall j :: 0 <= j && from < j < r.value ==> !m(items[j], pattern, flags)
    ensures r.Some? && r.value <= from ==>
      (forall j :: from < j < |items| ==> !m(items[j], pattern, flags)) &&
      (forall j :: 0 <= j < r.value ==> !m(items[j], pattern, flags))
  {
    var after := FirstMatchFrom(items, RangeStart(from + 1), |items| - 1, pattern, flags, m);
    if after.Some? then after
    else
      var before := FirstMatchFrom(items, 0, from, pattern, flags, m);
      assert before.None? ==> forall j :: 0 <= j < |items| ==> !m(items[j], pattern, flags) by {
        if before.None? {
          forall j | 0 <= j < |items| ensures !m(items[j], pattern, flags) {
            if j <= from {
            } else {
              assert RangeStart(from + 1) <= j;
            }
          }
        }
      }
      before
  }

  /**
   * When the only matching item is the one at `from`, the wrap-around search
   * finds it, at the very end of a full pass over the list.
   */
  lemma WrapAroundEndsAtStart(items: seq<Item>, from: int, pattern: string, flags: int, m: Matcher)
    requires 0 <= from < |items| && m(items[from], pattern, flags)
    requires forall j :: 0 <= j < |items| && j != from ==> !m(items[j], pattern, flags)
    ensures WrapAroundIndex(items, from, pattern, flags, m) == Some(from)
  {
    var r := WrapAroundIndex(items, from, pattern, flags, m);
    assert r.Some?;
  }

  /** With the base pattern test no range and no wrap-around search finds anything. */
  lemma BaseMatchFindsNothing(items: seq<Item>, from: int, to: int, pattern: string, flags: int)
    ensures FirstMatchFrom(items, RangeStart(from), to, pattern, flags, BaseMatch) == None
    ensures WrapAroundIndex(items, from, pattern, flags, BaseMatch) == None
  {
  }
}
