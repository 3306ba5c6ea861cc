/** A list of items with a current selection that wraps around at both
    ends. */
module Selector {
  import opened Common

  /** The index after `i` in a list of `n` items, wrapping from the last to
      the first; unchanged in an empty list. */
  function NextIndex(i: nat, n: nat): (r: nat)
    ensures n == 0 ==> r == i
    ensures 0 < n && i < n ==> r < n && r == (i + 1) % n
  {
    if n == 0 then i else if i + 1 >= n then 0 else i + 1
  }

  /** The index before `i`, wrapping from the first to the last. */
  function PrevIndex(i: nat, n: nat): (r: nat)
    ensures n == 0 ==> r == i
    ensures 0 < n && i < n ==> r < n && (r + 1) % n == i
  {
    if n == 0 then i else if i > 0 then i - 1 else n - 1
  }

  /** Moving back undoes moving forward, and the other way round. */
  lemma NextPrevRoundTrip(i: nat, n: nat)
    requires i < n
    ensures PrevIndex(NextIndex(i, n), n) == i
    ensures NextIndex(PrevIndex(i, n), n) == i
  {
  }

  /** `k` moves forward from `i`. */
  function Advance(i: nat, n: nat, k: nat): nat
  {
    if k == 0 then i else NextIndex(Advance(i, n, k - 1), n)
  }

  /** `k` moves forward in a non-empty list count modulo its length, so
      `n` of them come back to the start. */
  lemma {:induction false} AdvanceModular(i: nat, n: nat, k: nat)
    requires i < n
    ensures Advance(i, n, k) == (i + k) % n
  {
    if k > 0 {
      AdvanceModular(i, n, k - 1);
      NextOfModular(i + k - 1, n);
    }
  }

  /** One move forward from the residue of `x` gives the residue of `x + 1`. */
  lemma NextOfModular(x: nat, n: nat)
    requires n > 0
    ensures NextIndex(x % n, n) == (x + 1) % n
  {
    var a := x % n;
    var q := x / n;
    if a + 1 == n {
      DivModUnique(x + 1, n, q + 1, 0);
    } else {
      DivModUnique(x + 1, n, q, a + 1);
    }
  }

  lemma AdvanceFullCircle(i: nat, n: nat)
    requires i < n
    ensures Advance(i, n, n) == i
  {
    AdvanceModular(i, n, n);
    DivModUnique(i + n, n, 1, i);
  }

  class CircularListSelector<T> {
    var items: seq<T>
    var currIndex: nat

    /** The selection is inside the list, or the list is empty and the
        index 0. */
    ghost predicate Valid()
      reads this
    {
      currIndex < |items| || (items == [] && currIndex == 0)
    }

    constructor ()
      ensures Valid() && items == [] && currIndex == 0
    {
      items := [];
      currIndex := 0;
    }

    /** Appends `item`; the selection stays where it was. */
    method AddItem(item: T)
      requires Valid()
      modifies this
      ensures Valid() && items == old(items) + [item] && currIndex == old(currIndex)
    {
      items := items + [item];
    }

    function IsEmpty(): (r: bool)
      reads this
      ensures r <==> NumItems() == 0
    {
      |items| == 0
    }

    function NumItems(): (r: nat)
      reads this
      ensures r == |items|
    {
      |items|
    }

    function GetItem(index: nat): (r: T)
      reads this
      requires index < |items|
      ensures r == items[index]
    {
      items[index]
    }

    /** Selects `index` when it is inside the list; otherwise does nothing. */
    method SelectItem(index: nat)
      requires Valid()
      modifies this
      ensures Valid() && items == old(items)
      ensures currIndex == if index < |items| then index else old(currIndex)
    {
      if index < |items| {
        currIndex := index;
      }
    }

    function GetSelectedItem(): (r: T)
      reads this
      requires Valid() && items != []
      ensures r == items[currIndex]
    {
      items[currIndex]
    }

    /** Selects the next item, wrapping to the first. */
    method MoveNext()
      requires Valid()
      modifies this
      ensures Valid() && items == old(items)
      ensures currIndex == NextIndex(old(currIndex), |items|)
    {
      if items != [] {
        currIndex := currIndex + 1;
        if currIndex >= |items| {
          currIndex := 0;
        }
      }
    }

    /** Selects the previous item, wrapping to the last. */
    method MovePrev()
      requires Valid()
      modifies this
      ensures Valid() && items == old(items)
      ensures currIndex == PrevIndex(old(currIndex), |items|)
    {
      if items != [] {
        if currIndex > 0 {
          currIndex := currIndex - 1;
        } else {
          currIndex := |items| - 1;
        }
      }
    }
  }
}
