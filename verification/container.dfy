/** One block of the deque (the inner class `Container`): an array of five
    slots, an element counter and the handles of the neighbouring blocks.
    The operations here touch a single block; those that borrow from the
    next block live in module Arenas. */
module Containers {
  import opened Outcomes

  /** `CONTAINER_SIZE`: the number of slots of every block. */
  const ContainerSize: nat := 5

  /** A slot array; `None` is an empty (null) slot. */
  type Slots<E> = seq<Option<E>>

  /** A block. `next` and `previous` are handles into the arena of blocks;
      `None` is a null link. */
  datatype Container<E> = Container(
    slots: Slots<E>,
    elementsCount: int,
    next: Option<int>,
    previous: Option<int>)

  /** `new Container()`: five empty slots, no elements, no links. */
  function NewContainer<E>(): Container<E>
  {
    Container([None, None, None, None, None], 0, None, None)
  }

  /** The shape every block keeps: five slots and at most five counted elements. */
  predicate Sized<E>(c: Container<E>)
  {
    |c.slots| == ContainerSize && c.elementsCount <= ContainerSize
  }

  /** `isFull` */
  predicate IsFull<E>(c: Container<E>)
  {
    c.elementsCount == |c.slots|
  }

  /** `isEmpty` */
  predicate IsEmpty<E>(c: Container<E>)
  {
    c.elementsCount == 0
  }

  // ---------------------------------------------------------------------
  // Packing shapes

  /** The occupied slots of `a` are exactly those in [lo, lo + n). */
  ghost predicate Run<E>(a: Slots<E>, lo: int, n: int)
  {
    0 <= lo && 0 <= n && lo + n <= |a| &&
    forall i :: 0 <= i < |a| ==> (a[i].Some? <==> lo <= i < lo + n)
  }

  /** Built by back insertion: the elements occupy the lowest slots. */
  ghost predicate LeftAligned<E>(c: Container<E>)
  {
    |c.slots| == ContainerSize && Run(c.slots, 0, c.elementsCount)
  }

  /** Built by front insertion: the elements occupy the highest slots. */
  ghost predicate RightAligned<E>(c: Container<E>)
  {
    |c.slots| == ContainerSize && Run(c.slots, ContainerSize - c.elementsCount, c.elementsCount)
  }

  /** The values of the run [lo, lo + n), front to back. */
  ghost function RunValues<E>(a: Slots<E>, lo: int, n: int): (s: seq<E>)
    requires Run(a, lo, n)
    ensures |s| == n
    ensures forall i :: 0 <= i < n ==> a[lo + i] == Some(s[i])
  {
    seq(n, i requires 0 <= i < n => a[lo + i].value)
  }

  /** The elements of a left-aligned block, front to back. */
  ghost function Elems<E>(c: Container<E>): seq<E>
    requires LeftAligned(c)
  {
    RunValues(c.slots, 0, c.elementsCount)
  }

  // ---------------------------------------------------------------------
  // Slot scans

  /** Where the scan of `addFirst` stops: the highest empty slot, or -1. */
  function LastFree<E>(a: Slots<E>): (i: int)
    ensures -1 <= i < |a|
    ensures i >= 0 ==> a[i].None?
    ensures forall j :: i < j < |a| ==> a[j].Some?
  {
    if |a| == 0 then -1
    else if a[|a| - 1].None? then |a| - 1
    else LastFree(a[..|a| - 1])
  }

  /** Where the scans of `removeLast`/`getLast` stop: the highest occupied slot, or -1. */
  function LastUsed<E>(a: Slots<E>): (i: int)
    ensures -1 <= i < |a|
    ensures i >= 0 ==> a[i].Some?
    ensures forall j :: i < j < |a| ==> a[j].None?
  {
    if |a| == 0 then -1
    else if a[|a| - 1].Some? then |a| - 1
    else LastUsed(a[..|a| - 1])
  }

  /** Where the scans of `removeFirst`/`getFirst` stop: the lowest occupied
      slot, or |a| when there is none. */
  function FirstUsed<E>(a: Slots<E>): (i: nat)
    ensures i <= |a|
    ensures i < |a| ==> a[i].Some?
    ensures forall j :: 0 <= j < i ==> a[j].None?
  {
    if |a| == 0 then 0
    else if a[0].Some? then 0
    else 1 + FirstUsed(a[1..])
  }

  // ---------------------------------------------------------------------
  // Specifications of the single-block operations

  /** The slots after the shifting loop of `addFirst` with free slot `f`:
      every slot in [1, f] takes the value of its lower neighbour. */
  function ShiftedUp<E>(a: Slots<E>, f: int): (r: Slots<E>)
  {
    seq(|a|, i requires 0 <= i < |a| => if 0 < i <= f then a[i - 1] else a[i])
  }

  /** The slots after the shifting loop of `removeByIndex(index)` on a block
      of `n` elements: every slot in [index, n - 1) takes the value of its
      upper neighbour. */
  function ShiftedDown<E>(a: Slots<E>, index: int, n: int): Slots<E>
  {
    seq(|a|, j requires 0 <= j < |a| => if index <= j < n - 1 && j + 1 < |a| then a[j + 1] else a[j])
  }

  /** What `removeByIndex(index)` does to the block itself before it
      borrows: close the gap, clear slot `elementsCount - 1` and decrement
      the counter. */
  function IndexClosed<E>(c: Container<E>, index: int): Container<E>
    requires 1 <= c.elementsCount <= |c.slots|
  {
    var n := c.elementsCount;
    c.(slots := ShiftedDown(c.slots, index, n)[n - 1 := None], elementsCount := n - 1)
  }

  /** `addFirst(e)`: write `e` into the highest empty slot after shifting the
      slots below it up by one; with no empty slot the write fails. */
  function AddFirstResult<E>(c: Container<E>, e: E): (r: Outcome<Container<E>>)
    ensures r.Throws? <==> forall i :: 0 <= i < |c.slots| ==> c.slots[i].Some?
    ensures r.Throws? ==> r.ex == IndexOutOfBounds
    ensures r.Ok? ==> |r.value.slots| == |c.slots| && Some(e) in r.value.slots
    ensures r.Ok? ==> r.value.elementsCount == c.elementsCount + 1
    ensures r.Ok? ==> r.value.next == c.next && r.value.previous == c.previous
  {
    var f := LastFree(c.slots);
    if f < 0 then Throws(IndexOutOfBounds)
    else
      var slots := ShiftedUp(c.slots, f)[f := Some(e)];
      assert slots[f] == Some(e);
      Ok(c.(slots := slots, elementsCount := c.elementsCount + 1))
  }

  /** `addLast(e)`: write `e` at index `elementsCount`. */
  function AddLastResult<E>(c: Container<E>, e: E): (r: Outcome<Container<E>>)
    ensures r.Throws? <==> !(0 <= c.elementsCount < |c.slots|)
    ensures r.Throws? ==> r.ex == IndexOutOfBounds
    ensures r.Ok? ==> |r.value.slots| == |c.slots| && r.value.slots[c.elementsCount] == Some(e)
    ensures r.Ok? ==> forall i :: 0 <= i < |c.slots| && i != c.elementsCount ==> r.value.slots[i] == c.slots[i]
    ensures r.Ok? ==> r.value.elementsCount == c.elementsCount + 1
    ensures r.Ok? ==> r.value.next == c.next && r.value.previous == c.previous
  {
    if 0 <= c.elementsCount < |c.slots| then
      Ok(c.(slots := c.slots[c.elementsCount := Some(e)], elementsCount := c.elementsCount + 1))
    else
      Throws(IndexOutOfBounds)
  }

  /** `removeLast()`: clear the highest occupied slot and return its value;
      without an occupied slot the read of index -1 fails. The counter is
      decremented without any check. */
  function RemoveLastResult<E>(c: Container<E>): (r: Outcome<(Container<E>, E)>)
    ensures r.Throws? <==> forall i :: 0 <= i < |c.slots| ==> c.slots[i].None?
    ensures r.Ok? ==> Some(r.value.1) in c.slots
    ensures r.Ok? ==> r.value.0.elementsCount == c.elementsCount - 1
    ensures r.Ok? ==> r.value.0.next == c.next && r.value.0.previous == c.previous
  {
    var i := LastUsed(c.slots);
    if i < 0 then Throws(IndexOutOfBounds)
    else Ok((c.(slots := c.slots[i := None], elementsCount := c.elementsCount - 1), c.slots[i].value))
  }

  /** `getFirst()`: the value of the lowest occupied slot, or null. */
  function GetFirstResult<E>(c: Container<E>): Option<E>
  {
    var i := FirstUsed(c.slots);
    if i < |c.slots| then c.slots[i] else None
  }

  /** `getLast()`: the value of the highest occupied slot, or null. */
  function GetLastResult<E>(c: Container<E>): Option<E>
  {
    var i := LastUsed(c.slots);
    if i >= 0 then c.slots[i] else None
  }

  // ---------------------------------------------------------------------
  // The single-block operations, with the source's loops

  /** `Container.addFirst` */
  method AddFirst<E>(c: Container<E>, e: E) returns (r: Outcome<Container<E>>)
    ensures r == AddFirstResult(c, e)
  {
    var slots := c.slots;
    var freeIndex := |slots| - 1;
    while freeIndex >= 0 && slots[freeIndex].Some?
      invariant -1 <= freeIndex < |slots|
      invariant forall j :: freeIndex < j < |slots| ==> slots[j].Some?
    {
      freeIndex := freeIndex - 1;
    }
    LastFreeUnique(slots, freeIndex);
    if freeIndex > 0 {
      var i := freeIndex;
      while i > 0
        invariant 0 <= i <= freeIndex
        invariant |slots| == |c.slots|
        invariant forall j {:trigger slots[j]} :: 0 <= j < |slots| ==>
                    slots[j] == if i < j <= freeIndex then c.slots[j - 1] else c.slots[j]
      {
        assert slots[i - 1] == c.slots[i - 1];
        slots := slots[i := slots[i - 1]];
        i := i - 1;
      }
    }
    assert slots == ShiftedUp(c.slots, freeIndex);
    if freeIndex < 0 {
      return Throws(IndexOutOfBounds);
    }
    slots := slots[freeIndex := Some(e)];
    r := Ok(c.(slots := slots, elementsCount := c.elementsCount + 1));
  }

  /** The part of `Container.removeByIndex` that touches only its own block:
      the shifting loop, the clearing of slot `elementsCount - 1` (which
      fails on a block whose counter is below one) and the decrement. */
  method CloseGap<E>(c: Container<E>, index: int) returns (r: Outcome<Container<E>>)
    requires Sized(c) && 0 <= index
    ensures c.elementsCount < 1 ==> r == Throws(IndexOutOfBounds)
    ensures c.elementsCount >= 1 ==> r == Ok(IndexClosed(c, index))
  {
    var slots := c.slots;
    var i := index;
    while i < c.elementsCount - 1
      invariant index <= i && (i == index || i <= c.elementsCount - 1)
      invariant |slots| == |c.slots|
      invariant forall j {:trigger slots[j]} :: 0 <= j < |slots| ==>
                  slots[j] == if index <= j < i then c.slots[j + 1] else c.slots[j]
    {
      assert slots[i + 1] == c.slots[i + 1];
      slots := slots[i := slots[i + 1]];
      i := i + 1;
    }
    assert slots == ShiftedDown(c.slots, index, c.elementsCount);
    if c.elementsCount - 1 < 0 {
      return Throws(IndexOutOfBounds);
    }
    slots := slots[c.elementsCount - 1 := None];
    r := Ok(c.(slots := slots, elementsCount := c.elementsCount - 1));
  }

  /** `Container.removeLast` */
  method RemoveLast<E>(c: Container<E>) returns (r: Outcome<(Container<E>, E)>)
    ensures r == RemoveLastResult(c)
  {
    var lastIndex := |c.slots| - 1;
    while lastIndex >= 0 && c.slots[lastIndex].None?
      invariant -1 <= lastIndex < |c.slots|
      invariant forall j :: lastIndex < j < |c.slots| ==> c.slots[j].None?
    {
      lastIndex := lastIndex - 1;
    }
    LastUsedUnique(c.slots, lastIndex);
    if lastIndex < 0 {
      return Throws(IndexOutOfBounds);
    }
    var e := c.slots[lastIndex].value;
    r := Ok((c.(slots := c.slots[lastIndex := None], elementsCount := c.elementsCount - 1), e));
  }

  /** `Container.getFirst` */
  method GetFirst<E>(c: Container<E>) returns (r: Option<E>)
    ensures r.Some? <==> exists i :: 0 <= i < |c.slots| && c.slots[i].Some?
    ensures r == GetFirstResult(c)
  {
    for i := 0 to |c.slots|
      invariant forall j :: 0 <= j < i ==> c.slots[j].None?
    {
      if c.slots[i].Some? {
        FirstUsedUnique(c.slots, i);
        return c.slots[i];
      }
    }
    FirstUsedUnique(c.slots, |c.slots|);
    return None;
  }

  /** `Container.getLast` */
  method GetLast<E>(c: Container<E>) returns (r: Option<E>)
    ensures r.Some? <==> exists i :: 0 <= i < |c.slots| && c.slots[i].Some?
    ensures r == GetLastResult(c)
  {
    var i := |c.slots| - 1;
    while i >= 0
      invariant -1 <= i < |c.slots|
      invariant forall j :: i < j < |c.slots| ==> c.slots[j].None?
    {
      if c.slots[i].Some? {
        LastUsedUnique(c.slots, i);
        return c.slots[i];
      }
      i := i - 1;
    }
    LastUsedUnique(c.slots, -1);
    return None;
  }

  // ---------------------------------------------------------------------
  // The scans' results are determined by their contracts

  lemma LastFreeUnique<E>(a: Slots<E>, i: int)
    requires -1 <= i < |a| && (i >= 0 ==> a[i].None?)
    requires forall j :: i < j < |a| ==> a[j].Some?
    ensures LastFree(a) == i
  {
  }

  lemma LastUsedUnique<E>(a: Slots<E>, i: int)
    requires -1 <= i < |a| && (i >= 0 ==> a[i].Some?)
    requires forall j :: i < j < |a| ==> a[j].None?
    ensures LastUsed(a) == i
  {
  }

  lemma FirstUsedUnique<E>(a: Slots<E>, i: nat)
    requires i <= |a| && (i < |a| ==> a[i].Some?)
    requires forall j :: 0 <= j < i ==> a[j].None?
    ensures FirstUsed(a) == i
  {
  }

  // ---------------------------------------------------------------------
  // What the single-block operations mean on packed blocks

  /** Front insertion into a right-aligned block that is not full puts the
      element immediately before the run: the block stays right-aligned and
      its elements gain `e` at the front. */
  lemma AddFirstRightAligned<E>(c: Container<E>, e: E)
    requires RightAligned(c) && c.elementsCount < ContainerSize
    ensures AddFirstResult(c, e).Ok?
    ensures var c' := AddFirstResult(c, e).value;
      RightAligned(c') && c'.elementsCount == c.elementsCount + 1 &&
      RunValues(c'.slots, ContainerSize - c'.elementsCount, c'.elementsCount)
        == [e] + RunValues(c.slots, ContainerSize - c.elementsCount, c.elementsCount)
  {
    var n := c.elementsCount;
    var f := ContainerSize - n - 1;
    LastFreeUnique(c.slots, f);
    var c' := AddFirstResult(c, e).value;
    assert forall i :: 0 <= i < |c'.slots| ==> c'.slots[i] == if i == f then Some(e) else c.slots[i];
    assert Run(c'.slots, f, n + 1);
    var old_ := RunValues(c.slots, ContainerSize - n, n);
    var new_ := RunValues(c'.slots, f, n + 1);
    assert new_ == [e] + old_ by {
      forall i | 0 <= i < n + 1 ensures new_[i] == ([e] + old_)[i] {
        if i > 0 { assert c'.slots[f + i] == c.slots[ContainerSize - n + i - 1]; }
      }
    }
  }

  /** Front insertion into a block built by back insertion (a defect kept
      from the source): the shift copies slot 0 into slot 1, so the first
      element is duplicated and the new element lands at the top, leaving a
      gap. */
  lemma AddFirstOnLeftAlignedDuplicates<E>(x: E, e: E)
    ensures AddFirstResult(Container([Some(x), None, None, None, None], 1, None, None), e)
         == Ok(Container([Some(x), Some(x), None, None, Some(e)], 2, None, None))
  {
    var a: Slots<E> := [Some(x), None, None, None, None];
    LastFreeUnique(a, 4);
    assert ShiftedUp(a, 4)[4 := Some(e)] == [Some(x), Some(x), None, None, Some(e)];
  }

  /** Back insertion into a left-aligned block that is not full appends. */
  lemma AddLastLeftAligned<E>(c: Container<E>, e: E)
    requires LeftAligned(c) && !IsFull(c)
    ensures AddLastResult(c, e).Ok?
    ensures var c' := AddLastResult(c, e).value;
      LeftAligned(c') && Elems(c') == Elems(c) + [e] &&
      c'.next == c.next && c'.previous == c.previous
  {
    var c' := AddLastResult(c, e).value;
    assert Elems(c') == Elems(c) + [e];
  }

  /** Back removal from a non-empty left-aligned block takes its last element. */
  lemma RemoveLastLeftAligned<E>(c: Container<E>)
    requires LeftAligned(c) && c.elementsCount > 0
    ensures RemoveLastResult(c).Ok?
    ensures var (c', v) := RemoveLastResult(c).value;
      LeftAligned(c') && v == Elems(c)[c.elementsCount - 1] &&
      Elems(c') == Elems(c)[..c.elementsCount - 1]
  {
    LastUsedUnique(c.slots, c.elementsCount - 1);
    var (c', v) := RemoveLastResult(c).value;
    assert Elems(c') == Elems(c)[..c.elementsCount - 1];
  }

  /** Closing the gap at `index` in a left-aligned block removes exactly
      the element at `index` and keeps the block left-aligned. */
  lemma IndexClosedLeftAligned<E>(c: Container<E>, index: int)
    requires LeftAligned(c) && 0 <= index < c.elementsCount
    ensures LeftAligned(IndexClosed(c, index))
    ensures Elems(IndexClosed(c, index)) == Elems(c)[..index] + Elems(c)[index + 1..]
  {
    var n := c.elementsCount;
    var c' := IndexClosed(c, index);
    assert forall j :: 0 <= j < |c'.slots| ==>
      c'.slots[j] == if j >= n - 1 then None else if j >= index then c.slots[j + 1] else c.slots[j];
    assert Run(c'.slots, 0, n - 1);
    var e, e' := Elems(c), Elems(c');
    forall j | 0 <= j < n - 1 ensures e'[j] == (e[..index] + e[index + 1..])[j] {
      if j >= index {
        assert c'.slots[j] == c.slots[j + 1];
      }
    }
  }

  /** On a left-aligned block both peeks see the ends of its elements, and
      on an empty one they see null. */
  lemma PeeksLeftAligned<E>(c: Container<E>)
    requires LeftAligned(c)
    ensures c.elementsCount == 0 ==> GetFirstResult(c) == None && GetLastResult(c) == None
    ensures c.elementsCount > 0 ==> GetFirstResult(c) == Some(Elems(c)[0])
    ensures c.elementsCount > 0 ==> GetLastResult(c) == Some(Elems(c)[c.elementsCount - 1])
  {
    if c.elementsCount == 0 {
      FirstUsedUnique(c.slots, |c.slots|);
      LastUsedUnique(c.slots, -1);
    } else {
      FirstUsedUnique(c.slots, 0);
      LastUsedUnique(c.slots, c.elementsCount - 1);
    }
  }
}
