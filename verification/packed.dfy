/** The packed regime: the shape a chain keeps while elements enter only at
    the back and leave at the front, or at the back while the links match
    both ways. Every block of the forward walk is left-aligned (its
    elements fill slots [0, elementsCount)), and every
    block but the final one is full. The final block may be empty. Under
    this shape the chain spells out a sequence of elements, and the block
    operations act on that sequence as a queue does. */
module Packing {
  import opened Outcomes
  import opened Containers
  import opened Arenas
  import opened Chains

  ghost predicate PackedFrom<E>(arena: Arena<E>, k: int)
    requires Linked(arena) && k in arena
    decreases |Above(arena, k)|
  {
    LeftAligned(arena[k]) &&
    (arena[k].next.Some? ==>
       IsFull(arena[k]) &&
       (AboveShrinks(arena, arena, k, arena[k].next.value);
        PackedFrom(arena, arena[k].next.value)))
  }

  /** The elements of a packed chain from `k`, front to back. */
  ghost function Values<E>(arena: Arena<E>, k: int): seq<E>
    requires Linked(arena) && k in arena && PackedFrom(arena, k)
    decreases |Above(arena, k)|
  {
    var c := arena[k];
    if c.next.None? then Elems(c)
    else
      AboveShrinks(arena, arena, k, c.next.value);
      Elems(c) + Values(arena, c.next.value)
  }

  /** The block where the forward walk from `k` ends. */
  ghost function ChainEnd<E>(arena: Arena<E>, k: int): (e: int)
    requires Linked(arena) && k in arena
    ensures e in arena && k <= e && arena[e].next.None?
    decreases |Above(arena, k)|
  {
    if arena[k].next.None? then k
    else
      AboveShrinks(arena, arena, k, arena[k].next.value);
      ChainEnd(arena, arena[k].next.value)
  }

  /** In a packed chain an empty block ends the chain and spells nothing. */
  lemma EmptyBlockEndsChain<E>(arena: Arena<E>, k: int)
    requires Linked(arena) && k in arena && PackedFrom(arena, k) && IsEmpty(arena[k])
    ensures arena[k].next.None? && Values(arena, k) == []
  {
  }

  /** A packed chain spells its first block's elements first. */
  lemma ValuesFront<E>(arena: Arena<E>, k: int)
    requires Linked(arena) && k in arena && PackedFrom(arena, k)
    ensures Values(arena, k)[..arena[k].elementsCount] == Elems(arena[k])
    ensures |Values(arena, k)| >= arena[k].elementsCount
  {
  }

  /** Only the blocks of the walk matter: a chain whose blocks from `k`
      onwards are unchanged keeps its shape, its elements and its end. */
  lemma {:induction false} PackedFrame<E>(a: Arena<E>, b: Arena<E>, k: int)
    requires Linked(a) && Linked(b) && k in a && PackedFrom(a, k)
    requires forall m :: m in a && m >= k ==> m in b && b[m] == a[m]
    ensures k in b && PackedFrom(b, k) && Values(b, k) == Values(a, k)
    ensures ChainEnd(b, k) == ChainEnd(a, k)
    decreases |Above(a, k)|
  {
    var c := a[k];
    if c.next.Some? {
      var j := c.next.value;
      AboveShrinks(a, a, k, j);
      PackedFrame(a, b, j);
    }
  }

  /** Removing the front element of each part of a joined sequence. */
  lemma DropAt<T>(x: seq<T>, y: seq<T>, i: nat)
    requires i < |x|
    ensures (x + y)[..i] + (x + y)[i + 1..] == x[..i] + x[i + 1..] + y
  {
    assert (x + y)[..i] == x[..i];
    assert (x + y)[i + 1..] == x[i + 1..] + y;
  }

  /** `removeByIndex(index)` on the first block of a packed chain removes
      the element at `index` from the chain's sequence and keeps the chain
      packed. */
  lemma {:induction false} RemoveByIndexPacked<E>(arena: Arena<E>, k: int, index: int)
    requires Wellformed(arena) && k in arena && PackedFrom(arena, k)
    requires 0 <= index < arena[k].elementsCount
    ensures var r := RemoveByIndexResult(arena, k, index);
      r.out == Ok(()) && k in r.arena && PackedFrom(r.arena, k) &&
      Values(r.arena, k) == Values(arena, k)[..index] + Values(arena, k)[index + 1..]
    decreases |Above(arena, k)|, 1
  {
    var c := arena[k];
    if c.next.Some? && !IsEmpty(arena[c.next.value]) {
      BorrowPacked(arena, k, index);
    } else {
      NoBorrowPacked(arena, k, index);
    }
  }

  /** The case of `RemoveByIndexPacked` where there is nothing to borrow. */
  lemma NoBorrowPacked<E>(arena: Arena<E>, k: int, index: int)
    requires Wellformed(arena) && k in arena && PackedFrom(arena, k)
    requires 0 <= index < arena[k].elementsCount
    requires arena[k].next.None? || IsEmpty(arena[arena[k].next.value])
    ensures var r := RemoveByIndexResult(arena, k, index);
      r.out == Ok(()) && k in r.arena && PackedFrom(r.arena, k) &&
      Values(r.arena, k) == Values(arena, k)[..index] + Values(arena, k)[index + 1..]
  {
    var c := arena[k];
    var c1 := IndexClosed(c, index);
    IndexClosedLeftAligned(c, index);
    var arena1 := arena[k := c1];
    ReplaceBlock(arena, k, c1);
    if c.next.None? {
      assert Values(arena1, k) == Elems(c1);
    } else {
      var j := c.next.value;
      AboveShrinks(arena, arena, k, j);
      EmptyBlockEndsChain(arena, j);
      assert Values(arena, k) == Elems(c);
      assert Values(UnlinkDrained(arena1, k), k) == Elems(c1);
    }
  }

  /** The case of `RemoveByIndexPacked` where the next block lends its
      front element. */
  lemma {:induction false} BorrowPacked<E>(arena: Arena<E>, k: int, index: int)
    requires Wellformed(arena) && k in arena && PackedFrom(arena, k)
    requires 0 <= index < arena[k].elementsCount
    requires arena[k].next.Some? && !IsEmpty(arena[arena[k].next.value])
    ensures var r := RemoveByIndexResult(arena, k, index);
      r.out == Ok(()) && k in r.arena && PackedFrom(r.arena, k) &&
      Values(r.arena, k) == Values(arena, k)[..index] + Values(arena, k)[index + 1..]
    decreases |Above(arena, k)|, 0
  {
    var c := arena[k];
    var c1 := IndexClosed(c, index);
    var arena1 := arena[k := c1];
    ReplaceBlock(arena, k, c1);
    var j := c.next.value;
    AboveShrinks(arena, arena, k, j);
    PackedFrame(arena, arena1, j);
    AboveShrinks(arena, arena1, k, j);
    ValuesFront(arena, j);
    RemoveFirstPacked(arena1, j);
    FinishBorrow(arena, k, index, RemoveFirstResult(arena1, j));
  }

  /** What is left of `BorrowPacked` once the borrowed element is known to
      be the next block's front element. */
  lemma FinishBorrow<E>(arena: Arena<E>, k: int, index: int, b: Step<E, Option<E>>)
    requires Wellformed(arena) && k in arena && PackedFrom(arena, k)
    requires 0 <= index < arena[k].elementsCount
    requires arena[k].next.Some? && !IsEmpty(arena[arena[k].next.value])
    requires PackedFrom(arena, arena[k].next.value)
    requires Wellformed(arena[k := IndexClosed(arena[k], index)])
    requires b == RemoveFirstResult(arena[k := IndexClosed(arena[k], index)], arena[k].next.value)
    requires Values(arena, arena[k].next.value) != []
    requires b.out == Ok(Some(Values(arena, arena[k].next.value)[0]))
    requires arena[k].next.value in b.arena && PackedFrom(b.arena, arena[k].next.value)
    requires Values(b.arena, arena[k].next.value) == Values(arena, arena[k].next.value)[1..]
    ensures var r := RemoveByIndexResult(arena, k, index);
      r.out == Ok(()) && k in r.arena && PackedFrom(r.arena, k) &&
      Values(r.arena, k) == Values(arena, k)[..index] + Values(arena, k)[index + 1..]
  {
    var c := arena[k];
    var n := c.elementsCount;
    var c1 := IndexClosed(c, index);
    var j := c.next.value;
    AboveShrinks(arena, arena, k, j);
    var W := Values(arena, j);
    assert Values(arena, k) == Elems(c) + W;
    DropAt(Elems(c), W, index);
    Refilled(c, index, W[0]);
    var c2 := c1.(slots := c1.slots[n - 1 := b.out.value], elementsCount := n);
    BorrowUnfold(arena, k, index, b);
    assert LinkOk(arena, j) && k < j;
    assert b.arena[k] == c1;
    RefilledFront(b.arena, k, c2);
    HeadBack(Elems(c)[..index] + Elems(c)[index + 1..], W);
  }

  /** Moving the head of `y` to the back of `x` keeps `x + y`. */
  lemma HeadBack<T>(x: seq<T>, y: seq<T>)
    requires y != []
    ensures x + [y[0]] + y[1..] == x + y
  {
    assert [y[0]] + y[1..] == y;
  }

  /** The block of a borrow: a full left-aligned block closes the gap at
      `index` and takes `x` into its last slot, and is full and
      left-aligned again. */
  lemma Refilled<E>(c: Container<E>, index: int, x: E)
    requires LeftAligned(c) && IsFull(c) && 0 <= index < c.elementsCount
    ensures var n := c.elementsCount;
      var c1 := IndexClosed(c, index);
      var c2 := c1.(slots := c1.slots[n - 1 := Some(x)], elementsCount := n);
      LeftAligned(c2) && IsFull(c2) && Sized(c2) &&
      c2.previous == c.previous && c2.next == c.next &&
      Elems(c2) == Elems(c)[..index] + Elems(c)[index + 1..] + [x]
  {
    var c1 := IndexClosed(c, index);
    IndexClosedLeftAligned(c, index);
    AddLastLeftAligned(c1, x);
  }

  /** A full left-aligned block put in front of a packed chain, with its
      successor unlinked if that is drained, heads a packed chain spelling
      the block's elements and then the chain's. */
  lemma RefilledFront<E>(arena: Arena<E>, k: int, c: Container<E>)
    requires Wellformed(arena) && k in arena && Sized(c)
    requires c.previous == arena[k].previous && c.next == arena[k].next
    requires c.next.Some? && c.next.value in arena && PackedFrom(arena, c.next.value)
    requires LeftAligned(c) && IsFull(c)
    ensures Wellformed(arena[k := c])
    ensures PackedFrom(UnlinkDrained(arena[k := c], k), k)
    ensures Values(UnlinkDrained(arena[k := c], k), k) == Elems(c) + Values(arena, c.next.value)
  {
    ReplaceBlock(arena, k, c);
    var j := c.next.value;
    assert LinkOk(arena, k);
    PackedFrame(arena, arena[k := c], j);
    UnlinkPacked(arena[k := c], k);
  }

  /** The borrowing branch of `removeByIndex`, once the borrow succeeded. */
  lemma BorrowUnfold<E>(arena: Arena<E>, k: int, index: int, b: Step<E, Option<E>>)
    requires Wellformed(arena) && k in arena && 0 <= index < ContainerSize
    requires 1 <= arena[k].elementsCount
    requires arena[k].next.Some? && !IsEmpty(arena[arena[k].next.value])
    requires Wellformed(arena[k := IndexClosed(arena[k], index)])
    requires b == RemoveFirstResult(arena[k := IndexClosed(arena[k], index)], arena[k].next.value)
    requires b.out.Ok?
    ensures var c1 := IndexClosed(arena[k], index);
      var c2 := c1.(slots := c1.slots[arena[k].elementsCount - 1 := b.out.value],
                    elementsCount := arena[k].elementsCount);
      k in b.arena && Wellformed(b.arena[k := c2]) &&
      RemoveByIndexResult(arena, k, index) == Step(UnlinkDrained(b.arena[k := c2], k), Ok(()))
  {
    var c1 := IndexClosed(arena[k], index);
    var c2 := c1.(slots := c1.slots[arena[k].elementsCount - 1 := b.out.value],
                  elementsCount := arena[k].elementsCount);
    ReplaceBlock(b.arena, k, c2);
  }

  /** Unlinking a drained successor from a full left-aligned block in
      front of a packed chain leaves a packed chain spelling the block's
      elements followed by the successor's. */
  lemma UnlinkPacked<E>(arena: Arena<E>, k: int)
    requires Wellformed(arena) && k in arena && arena[k].next.Some?
    requires LeftAligned(arena[k]) && IsFull(arena[k])
    requires arena[k].next.value in arena && PackedFrom(arena, arena[k].next.value)
    ensures PackedFrom(UnlinkDrained(arena, k), k)
    ensures Values(UnlinkDrained(arena, k), k) ==
      Elems(arena[k]) + Values(arena, arena[k].next.value)
  {
    var j := arena[k].next.value;
    AboveShrinks(arena, arena, k, j);
    if IsEmpty(arena[j]) {
      EmptyBlockEndsChain(arena, j);
      assert Values(UnlinkDrained(arena, k), k) == Elems(arena[k]);
    }
  }

  /** `Container.removeFirst()` on the first block of a non-empty packed
      chain returns the chain's front element and removes it. */
  lemma {:induction false} RemoveFirstPacked<E>(arena: Arena<E>, j: int)
    requires Wellformed(arena) && j in arena && PackedFrom(arena, j) && Values(arena, j) != []
    ensures var r := RemoveFirstResult(arena, j);
      r.out == Ok(Some(Values(arena, j)[0])) && j in r.arena && PackedFrom(r.arena, j) &&
      Values(r.arena, j) == Values(arena, j)[1..]
    decreases |Above(arena, j)|, 2
  {
    var c := arena[j];
    if c.elementsCount == 0 {
      EmptyBlockEndsChain(arena, j);
    }
    ValuesFront(arena, j);
    FirstUsedUnique(c.slots, 0);
    RemoveByIndexPacked(arena, j, 0);
  }

  // ---------------------------------------------------------------------
  // Occurrences

  /** The first index of `v` in `s`, or |s|. */
  function FirstIndexOf<E(==)>(s: seq<E>, v: E): (i: nat)
    ensures i <= |s| && (i < |s| ==> s[i] == v)
    ensures forall m :: 0 <= m < i ==> s[m] != v
  {
    if |s| == 0 then 0
    else if s[0] == v then 0
    else 1 + FirstIndexOf(s[1..], v)
  }

  lemma FirstIndexOfUnique<E>(s: seq<E>, v: E, i: nat)
    requires i <= |s| && (i < |s| ==> s[i] == v)
    requires forall m :: 0 <= m < i ==> s[m] != v
    ensures FirstIndexOf(s, v) == i
  {
  }

  /** The counted slots of a left-aligned block are its elements, each
      wrapped as a non-null slot. */
  lemma CountedLeftAligned<E>(c: Container<E>)
    requires LeftAligned(c)
    ensures |Counted(c)| == |Elems(c)|
    ensures forall i :: 0 <= i < |Counted(c)| ==> Counted(c)[i] == Some(Elems(c)[i])
  {
  }

  /** On a left-aligned block the scan of `removeAsFromFirst` stops at the
      first occurrence among the block's elements, and null is never met. */
  lemma IndexOfLeftAligned<E>(c: Container<E>, o: Option<E>)
    requires LeftAligned(c)
    ensures o in Counted(c) <==> o.Some? && o.value in Elems(c)
    ensures o.Some? ==> IndexOf(Counted(c), o) == FirstIndexOf(Elems(c), o.value)
  {
    CountedLeftAligned(c);
    if o.Some? {
      IndexOfUnique(Counted(c), o, FirstIndexOf(Elems(c), o.value));
    }
  }

  /** On a left-aligned block a value sits in some slot exactly when it is
      among the block's elements. */
  lemma HeldLeftAligned<E>(c: Container<E>, v: E)
    requires LeftAligned(c)
    ensures Some(v) in c.slots <==> v in Elems(c)
  {
    IndexOfLeftAligned(c, Some(v));
    if Some(v) in c.slots {
      var w :| 0 <= w < |c.slots| && c.slots[w] == Some(v);
      assert Counted(c)[w] == Some(v);
    }
  }

  /** Removing position `|x| + i` of `x + y` removes position `i` of `y`. */
  lemma DropAfter<T>(x: seq<T>, y: seq<T>, i: nat)
    requires i < |y|
    ensures (x + y)[..|x| + i] + (x + y)[|x| + i + 1..] == x + (y[..i] + y[i + 1..])
  {
    assert (x + y)[..|x| + i] == x + y[..i];
    assert (x + y)[|x| + i + 1..] == y[i + 1..];
  }

  /** `contains(o)` on a packed chain: true exactly for the non-null values
      the chain spells. */
  lemma {:induction false} ContainsPacked<E>(arena: Arena<E>, k: int, o: Option<E>)
    requires Wellformed(arena) && k in arena && PackedFrom(arena, k)
    ensures ContainsFrom(arena, k, o) <==> o.Some? && o.value in Values(arena, k)
    decreases |Above(arena, k)|
  {
    var c := arena[k];
    IndexOfLeftAligned(c, o);
    if c.next.Some? {
      AboveShrinks(arena, arena, k, c.next.value);
      ContainsPacked(arena, c.next.value, o);
    }
  }

  /** `removeFirstOccurrence(o)` on a packed chain removes the first
      occurrence of `o` from the sequence the chain spells and keeps it
      packed; when `o` is null or absent nothing changes. */
  lemma {:induction false} RemoveFirstOccurrencePacked<E>(arena: Arena<E>, k: int, o: Option<E>)
    requires Wellformed(arena) && k in arena && PackedFrom(arena, k)
    ensures var r := RemoveFirstOccurrenceFrom(arena, k, o);
      var V := Values(arena, k);
      if o.Some? && o.value in V then
        var i := FirstIndexOf(V, o.value);
        r.out == Ok(true) && k in r.arena && PackedFrom(r.arena, k) &&
        Values(r.arena, k) == V[..i] + V[i + 1..]
      else
        r == Step(arena, Ok(false))
    decreases |Above(arena, k)|, 1
  {
    var c := arena[k];
    if o.Some? && o.value in Elems(c) {
      FoundHere(arena, k, o.value);
    } else if c.next.Some? {
      OccurrenceFurtherOn(arena, k, o);
    } else {
      IndexOfLeftAligned(c, o);
    }
  }

  /** The case of `RemoveFirstOccurrencePacked` where the first block holds
      `v`: its first `v` is the first of the chain, and it is removed by
      index. */
  lemma FoundHere<E>(arena: Arena<E>, k: int, v: E)
    requires Wellformed(arena) && k in arena && PackedFrom(arena, k) && v in Elems(arena[k])
    ensures v in Values(arena, k)
    ensures var r := RemoveFirstOccurrenceFrom(arena, k, Some(v));
      var V := Values(arena, k);
      var i := FirstIndexOf(V, v);
      r.out == Ok(true) && k in r.arena && PackedFrom(r.arena, k) &&
      Values(r.arena, k) == V[..i] + V[i + 1..]
  {
    var c := arena[k];
    var i := FirstIndexOf(Elems(c), v);
    IndexOfLeftAligned(c, Some(v));
    ValuesFront(arena, k);
    FirstIndexOfUnique(Values(arena, k), v, i);
    RemoveByIndexPacked(arena, k, i);
    WalkStopsHere(arena, k, Some(v));
  }

  /** A block that counts `o` ends the walk: `o` is removed there by
      index. */
  lemma WalkStopsHere<E>(arena: Arena<E>, k: int, o: Option<E>)
    requires Wellformed(arena) && k in arena && o in Counted(arena[k])
    ensures var s := RemoveByIndexResult(arena, k, IndexOf(Counted(arena[k]), o));
      RemoveFirstOccurrenceFrom(arena, k, o) == Step(s.arena, Then(s.out, true))
  {
    var s := RemoveByIndexResult(arena, k, IndexOf(Counted(arena[k]), o));
    assert RemoveAsFromFirstResult(arena, k, o) == Step(s.arena, Then(s.out, true));
  }

  /** The case of `RemoveFirstOccurrencePacked` where the first block does
      not hold `o` and the walk goes on. */
  lemma {:induction false} OccurrenceFurtherOn<E>(arena: Arena<E>, k: int, o: Option<E>)
    requires Wellformed(arena) && k in arena && PackedFrom(arena, k)
    requires !(o.Some? && o.value in Elems(arena[k])) && arena[k].next.Some?
    ensures var r := RemoveFirstOccurrenceFrom(arena, k, o);
      var V := Values(arena, k);
      if o.Some? && o.value in V then
        var i := FirstIndexOf(V, o.value);
        r.out == Ok(true) && k in r.arena && PackedFrom(r.arena, k) &&
        Values(r.arena, k) == V[..i] + V[i + 1..]
      else
        r == Step(arena, Ok(false))
    decreases |Above(arena, k)|, 0
  {
    var j := arena[k].next.value;
    assert LinkOk(arena, k);
    AboveShrinks(arena, arena, k, j);
    RemoveFirstOccurrencePacked(arena, j, o);
    if o.Some? && o.value in Values(arena, j) {
      FoundFurtherOn(arena, k, o.value);
    } else {
      AbsentFurtherOn(arena, k, o);
    }
  }

  /** A block that does not count `o` passes the walk on to its successor. */
  lemma WalkOn<E>(arena: Arena<E>, k: int, o: Option<E>)
    requires Wellformed(arena) && k in arena && o !in Counted(arena[k]) && arena[k].next.Some?
    ensures arena[k].next.value in arena
    ensures RemoveFirstOccurrenceFrom(arena, k, o) ==
      RemoveFirstOccurrenceFrom(arena, arena[k].next.value, o)
  {
    assert LinkOk(arena, k);
  }

  /** `OccurrenceFurtherOn` when the successor chain holds `v`: the walk
      from `k` removes the first `v` of the whole chain, which is the first
      `v` after the block at `k`. */
  lemma FoundFurtherOn<E>(arena: Arena<E>, k: int, v: E)
    requires Wellformed(arena) && k in arena && PackedFrom(arena, k) && arena[k].next.Some?
    requires v !in Elems(arena[k])
    requires arena[k].next.value in arena && PackedFrom(arena, arena[k].next.value)
    requires v in Values(arena, arena[k].next.value)
    requires var j := arena[k].next.value;
      var r := RemoveFirstOccurrenceFrom(arena, j, Some(v));
      var W := Values(arena, j);
      var i := FirstIndexOf(W, v);
      r.out == Ok(true) && j in r.arena && PackedFrom(r.arena, j) &&
      Values(r.arena, j) == W[..i] + W[i + 1..]
    ensures v in Values(arena, k)
    ensures var r := RemoveFirstOccurrenceFrom(arena, k, Some(v));
      var V := Values(arena, k);
      var i := FirstIndexOf(V, v);
      r.out == Ok(true) && k in r.arena && PackedFrom(r.arena, k) &&
      Values(r.arena, k) == V[..i] + V[i + 1..]
  {
    var c := arena[k];
    var j := c.next.value;
    var W := Values(arena, j);
    var i := FirstIndexOf(W, v);
    var r := RemoveFirstOccurrenceFrom(arena, j, Some(v));
    ValuesStep(arena, k);
    DropFirstAfter(Elems(c), W, v);
    IndexOfLeftAligned(c, Some(v));
    WalkOn(arena, k, Some(v));
    KeptInFront(arena, k, r);
    assert Values(r.arena, k) == Elems(c) + (W[..i] + W[i + 1..]);
  }

  /** A packed chain with a successor spells its first block's elements
      and then the successor's chain. */
  lemma ValuesStep<E>(arena: Arena<E>, k: int)
    requires Linked(arena) && k in arena && PackedFrom(arena, k) && arena[k].next.Some?
    ensures arena[k].next.value in arena && PackedFrom(arena, arena[k].next.value)
    ensures Values(arena, k) == Elems(arena[k]) + Values(arena, arena[k].next.value)
  {
    assert LinkOk(arena, k);
  }

  /** A walk from the successor of a packed block leaves that block in
      front of what the walk left. */
  lemma KeptInFront<E>(arena: Arena<E>, k: int, r: Step<E, bool>)
    requires Wellformed(arena) && k in arena && PackedFrom(arena, k) && arena[k].next.Some?
    requires arena[k].next.value in arena
    requires Wellformed(r.arena) && LinksCut(arena, r.arena)
    requires forall m :: m in arena && m < arena[k].next.value ==> r.arena[m] == arena[m]
    requires PackedFrom(r.arena, arena[k].next.value)
    ensures k in r.arena && PackedFrom(r.arena, k)
    ensures Values(r.arena, k) == Elems(arena[k]) + Values(r.arena, arena[k].next.value)
  {
    var j := arena[k].next.value;
    assert LinkOk(arena, j) && k < j;
    assert r.arena[k] == arena[k];
    AboveShrinks(r.arena, r.arena, k, j);
  }

  /** Removing the first `v` of `x + y`, when `x` does not hold it, removes
      the first `v` of `y`. */
  lemma DropFirstAfter<T>(x: seq<T>, y: seq<T>, v: T)
    requires v !in x && v in y
    ensures v in x + y && FirstIndexOf(x + y, v) == |x| + FirstIndexOf(y, v)
    ensures var i := FirstIndexOf(y, v);
      (x + y)[..|x| + i] + (x + y)[|x| + i + 1..] == x + (y[..i] + y[i + 1..])
  {
    var i := FirstIndexOf(y, v);
    FirstIndexOfUnique(x + y, v, |x| + i);
    DropAfter(x, y, i);
  }

  /** `OccurrenceFurtherOn` when the successor chain does not hold `o`:
      neither does the chain from `k`, and the walk changes nothing. */
  lemma AbsentFurtherOn<E>(arena: Arena<E>, k: int, o: Option<E>)
    requires Wellformed(arena) && k in arena && PackedFrom(arena, k) && arena[k].next.Some?
    requires !(o.Some? && o.value in Elems(arena[k]))
    requires arena[k].next.value in arena && PackedFrom(arena, arena[k].next.value)
    requires !(o.Some? && o.value in Values(arena, arena[k].next.value))
    requires RemoveFirstOccurrenceFrom(arena, arena[k].next.value, o) == Step(arena, Ok(false))
    ensures !(o.Some? && o.value in Values(arena, k))
    ensures RemoveFirstOccurrenceFrom(arena, k, o) == Step(arena, Ok(false))
  {
    IndexOfLeftAligned(arena[k], o);
    WalkOn(arena, k, o);
    assert Values(arena, k) == Elems(arena[k]) + Values(arena, arena[k].next.value);
  }

  /** The final block of a packed chain heads a packed chain of its own. */
  lemma {:induction false} PackedEnd<E>(arena: Arena<E>, k: int)
    requires Linked(arena) && k in arena && PackedFrom(arena, k)
    ensures PackedFrom(arena, ChainEnd(arena, k))
    decreases |Above(arena, k)|
  {
    if arena[k].next.Some? {
      AboveShrinks(arena, arena, k, arena[k].next.value);
      PackedEnd(arena, arena[k].next.value);
    }
  }

  // ---------------------------------------------------------------------
  // Growing the back of the chain

  /** Changing only the final block of a packed chain (and what follows it)
      changes only the end of the sequence it spells. */
  lemma {:induction false} ReplaceTail<E>(a: Arena<E>, b: Arena<E>, k: int, tail: seq<E>)
    requires Linked(a) && Linked(b) && k in a && PackedFrom(a, k) && PackedFrom(a, ChainEnd(a, k))
    requires forall m :: m in a && k <= m < ChainEnd(a, k) ==> m in b && b[m] == a[m]
    requires ChainEnd(a, k) in b && PackedFrom(b, ChainEnd(a, k))
    requires Values(b, ChainEnd(a, k)) == Elems(a[ChainEnd(a, k)]) + tail
    ensures k in b && PackedFrom(b, k) && Values(b, k) == Values(a, k) + tail
    ensures ChainEnd(b, k) == ChainEnd(b, ChainEnd(a, k))
    decreases |Above(a, k)|
  {
    var c := a[k];
    if c.next.Some? {
      var j := c.next.value;
      AboveShrinks(a, a, k, j);
      PackedEnd(a, j);
      ReplaceTail(a, b, j, tail);
      AboveShrinks(b, b, k, j);
      assert b[k] == c;
      assert Values(b, k) == Elems(c) + Values(b, j);
    }
  }

  /** `addLast(x)` on the final block of a packed chain, when that block is
      not full, appends `x` to the sequence the chain spells. */
  lemma AppendAtEnd<E>(arena: Arena<E>, k: int, x: E)
    requires Wellformed(arena) && k in arena && PackedFrom(arena, k)
    requires !IsFull(arena[ChainEnd(arena, k)])
    ensures var e := ChainEnd(arena, k);
      AddLastResult(arena[e], x).Ok? &&
      var b := arena[e := AddLastResult(arena[e], x).value];
      Wellformed(b) && PackedFrom(b, k) && Values(b, k) == Values(arena, k) + [x] &&
      ChainEnd(b, k) == e
  {
    var e := ChainEnd(arena, k);
    var c := arena[e];
    PackedEnd(arena, k);
    AddLastLeftAligned(c, x);
    var b := arena[e := AddLastResult(c, x).value];
    ReplaceBlock(arena, e, AddLastResult(c, x).value);
    ReplaceTail(arena, b, k, [x]);
  }

  /** The blocks after `offerLast` grows the chain: the full final block
      `e` is linked forwards to a new block `h` holding `x`, which is
      linked back to `e`. */
  function Grown<E>(arena: Arena<E>, e: int, h: int, x: E): Arena<E>
    requires e in arena
  {
    arena[e := arena[e].(next := Some(h))]
         [h := Container([Some(x), None, None, None, None], 1, None, Some(e))]
  }

  /** Growing a packed chain whose final block is full, with a handle above
      every handle in use, appends `x` to the sequence it spells and makes
      the new block the end of the chain. */
  lemma ExtendEnd<E>(arena: Arena<E>, k: int, h: int, x: E)
    requires Wellformed(arena) && k in arena && PackedFrom(arena, k)
    requires IsFull(arena[ChainEnd(arena, k)])
    requires forall m :: m in arena ==> m < h
    ensures var b := Grown(arena, ChainEnd(arena, k), h, x);
      Wellformed(b) && PackedFrom(b, k) && Values(b, k) == Values(arena, k) + [x] &&
      ChainEnd(b, k) == h
  {
    var e := ChainEnd(arena, k);
    var b := Grown(arena, e, h, x);
    PackedEnd(arena, k);
    forall m | m in b ensures LinkOk(b, m) && Sized(b[m]) {
      if m != h && m != e {
        assert LinkOk(arena, m);
      }
    }
    assert Values(b, h) == [x];
    AboveShrinks(b, b, e, h);
    assert Elems(b[e]) == Elems(arena[e]);
    assert Values(b, e) == Elems(b[e]) + Values(b, h);
    ReplaceTail(arena, b, k, [x]);
  }

  // ---------------------------------------------------------------------
  // The back of the chain

  /** The elements of a packed chain before its final block. */
  ghost function Prefix<E>(arena: Arena<E>, k: int): seq<E>
    requires Linked(arena) && k in arena && PackedFrom(arena, k)
    decreases |Above(arena, k)|
  {
    var c := arena[k];
    if c.next.None? then []
    else
      AboveShrinks(arena, arena, k, c.next.value);
      Elems(c) + Prefix(arena, c.next.value)
  }

  /** A packed chain spells the elements before its final block and then
      the final block's elements. */
  lemma {:induction false} ValuesLast<E>(arena: Arena<E>, k: int)
    requires Linked(arena) && k in arena && PackedFrom(arena, k)
    ensures PackedFrom(arena, ChainEnd(arena, k))
    ensures Values(arena, k) == Prefix(arena, k) + Elems(arena[ChainEnd(arena, k)])
    decreases |Above(arena, k)|
  {
    PackedEnd(arena, k);
    var c := arena[k];
    if c.next.Some? {
      var j := c.next.value;
      AboveShrinks(arena, arena, k, j);
      ValuesLast(arena, j);
      assert Elems(c) + (Prefix(arena, j) + Elems(arena[ChainEnd(arena, j)])) ==
        (Elems(c) + Prefix(arena, j)) + Elems(arena[ChainEnd(arena, j)]);
    }
  }

  /** Replacing the final block of a packed chain by another left-aligned
      block without a successor keeps the chain packed, with the same end
      and the same elements before it. */
  lemma {:induction false} ReplaceEnd<E>(a: Arena<E>, b: Arena<E>, k: int)
    requires Linked(a) && Linked(b) && k in a && PackedFrom(a, k)
    requires forall m :: m in a && k <= m < ChainEnd(a, k) ==> m in b && b[m] == a[m]
    requires ChainEnd(a, k) in b && b[ChainEnd(a, k)].next.None? && LeftAligned(b[ChainEnd(a, k)])
    ensures k in b && PackedFrom(b, k) && ChainEnd(b, k) == ChainEnd(a, k)
    ensures Prefix(b, k) == Prefix(a, k)
    decreases |Above(a, k)|
  {
    var c := a[k];
    if c.next.Some? {
      var j := c.next.value;
      AboveShrinks(a, a, k, j);
      ReplaceEnd(a, b, j);
      assert b[k] == c;
      AboveShrinks(b, b, k, j);
    }
  }

  /** Along the forward walk from `k`, every block's successor links back
      to it. */
  ghost predicate BackLinkedFrom<E>(arena: Arena<E>, k: int)
    requires Linked(arena) && k in arena
    decreases |Above(arena, k)|
  {
    arena[k].next.Some? ==>
      arena[arena[k].next.value].previous == Some(k) &&
      (AboveShrinks(arena, arena, k, arena[k].next.value);
       BackLinkedFrom(arena, arena[k].next.value))
  }

  /** On a back-linked walk that goes beyond `k`, the final block links
      back to the block whose successor it is. */
  lemma {:induction false} EndLinksBack<E>(arena: Arena<E>, k: int)
    requires Linked(arena) && k in arena && BackLinkedFrom(arena, k) && arena[k].next.Some?
    ensures var e := ChainEnd(arena, k);
      arena[e].previous.Some? && k <= arena[e].previous.value < e &&
      arena[e].previous.value in arena && arena[arena[e].previous.value].next == Some(e)
    decreases |Above(arena, k)|
  {
    var j := arena[k].next.value;
    AboveShrinks(arena, arena, k, j);
    if arena[j].next.Some? {
      EndLinksBack(arena, j);
    }
  }

  /** Changing blocks behind the walk, keeping the links of every block up
      to the final one, keeps the walk back-linked. */
  lemma {:induction false} BackLinkedKept<E>(a: Arena<E>, b: Arena<E>, k: int)
    requires Linked(a) && Linked(b) && k in a && BackLinkedFrom(a, k)
    requires forall m :: m in a && k <= m < ChainEnd(a, k) ==>
      m in b && b[m].next == a[m].next && b[m].previous == a[m].previous
    requires ChainEnd(a, k) in b && b[ChainEnd(a, k)].previous == a[ChainEnd(a, k)].previous
    requires BackLinkedFrom(b, ChainEnd(a, k))
    ensures k in b && BackLinkedFrom(b, k)
    decreases |Above(a, k)|
  {
    if a[k].next.Some? {
      var j := a[k].next.value;
      AboveShrinks(a, a, k, j);
      BackLinkedKept(a, b, j);
      AboveShrinks(b, b, k, j);
    }
  }

  /** Cutting the link into the final block of a packed, back-linked walk
      leaves a packed, back-linked walk that ends at the block before, and
      spells what came before the final block. */
  lemma {:induction false} CutEnd<E>(a: Arena<E>, b: Arena<E>, k: int, p: int)
    requires Linked(a) && Linked(b) && k in a && PackedFrom(a, k) && BackLinkedFrom(a, k)
    requires a[k].next.Some? && a[ChainEnd(a, k)].previous == Some(p)
    requires forall m :: m in a && k <= m < p ==> m in b && b[m] == a[m]
    requires p in a && p in b && b[p] == a[p].(next := None)
    ensures k in b && PackedFrom(b, k) && BackLinkedFrom(b, k) && ChainEnd(b, k) == p
    ensures Values(b, k) == Prefix(a, k)
    decreases |Above(a, k)|
  {
    EndLinksBack(a, k);
    var j := a[k].next.value;
    AboveShrinks(a, a, k, j);
    if a[j].next.None? {
      assert p == k;
      assert Elems(b[k]) == Elems(a[k]);
    } else {
      EndLinksBack(a, j);
      CutEnd(a, b, j, p);
      assert b[k] == a[k];
      AboveShrinks(b, b, k, j);
    }
  }

  /** The position of the last `v` in `s`, or -1 when there is none. */
  function LastIndexOfValue<E(==)>(s: seq<E>, v: E): (i: int)
    ensures -1 <= i < |s| && (i >= 0 ==> s[i] == v)
    ensures forall m :: i < m < |s| ==> s[m] != v
  {
    if |s| == 0 then -1
    else if s[|s| - 1] == v then |s| - 1
    else LastIndexOfValue(s[..|s| - 1], v)
  }

  lemma LastIndexOfValueUnique<E>(s: seq<E>, v: E, i: int)
    requires -1 <= i < |s| && (i >= 0 ==> s[i] == v)
    requires forall m :: i < m < |s| ==> s[m] != v
    ensures LastIndexOfValue(s, v) == i
  {
  }

  /** On a left-aligned block the scan of `removeAsFromLast` stops at the
      last occurrence among the block's elements, and null is never met. */
  lemma LastIndexOfLeftAligned<E>(c: Container<E>, o: Option<E>)
    requires LeftAligned(c)
    ensures o in Counted(c) <==> o.Some? && o.value in Elems(c)
    ensures o.Some? ==> LastIndexOf(Counted(c), o) == LastIndexOfValue(Elems(c), o.value)
    ensures o.None? ==> LastIndexOf(Counted(c), o) == -1
  {
    CountedLeftAligned(c);
    if o.Some? {
      LastIndexOfUnique(Counted(c), o, LastIndexOfValue(Elems(c), o.value));
    } else {
      LastIndexOfUnique(Counted(c), o, -1);
    }
  }

  /** `removeAsFromLast(o)` on the first block of a packed chain: when the
      block holds `o`, its last occurrence in the block leaves the sequence
      the chain spells and the chain stays packed; otherwise nothing
      changes. */
  lemma RemoveAsFromLastPacked<E>(arena: Arena<E>, k: int, o: Option<E>)
    requires Wellformed(arena) && k in arena && PackedFrom(arena, k)
    ensures var r := RemoveAsFromLastResult(arena, k, o);
      var V := Values(arena, k);
      if o.Some? && o.value in Elems(arena[k]) then
        var i := LastIndexOfValue(Elems(arena[k]), o.value);
        0 <= i < |V| && V[i] == o.value &&
        r.out == Ok(true) && k in r.arena && PackedFrom(r.arena, k) &&
        Values(r.arena, k) == V[..i] + V[i + 1..]
      else
        r == Step(arena, Ok(false))
  {
    LastIndexOfLeftAligned(arena[k], o);
    if o.Some? && o.value in Elems(arena[k]) {
      RemoveAsFromLastFound(arena, k, o.value);
    }
  }

  /** The case of `RemoveAsFromLastPacked` where the block holds `v`. */
  lemma RemoveAsFromLastFound<E>(arena: Arena<E>, k: int, v: E)
    requires Wellformed(arena) && k in arena && PackedFrom(arena, k) && v in Elems(arena[k])
    ensures var r := RemoveAsFromLastResult(arena, k, Some(v));
      var V := Values(arena, k); var i := LastIndexOfValue(Elems(arena[k]), v);
      0 <= i < |V| && V[i] == v &&
      r.out == Ok(true) && k in r.arena && PackedFrom(r.arena, k) &&
      Values(r.arena, k) == V[..i] + V[i + 1..]
  {
    var c := arena[k];
    LastIndexOfLeftAligned(c, Some(v));
    var i := LastIndexOfValue(Elems(c), v);
    ValuesFront(arena, k);
    RemoveByIndexPacked(arena, k, i);
    var s := RemoveByIndexResult(arena, k, i);
    assert RemoveAsFromLastResult(arena, k, Some(v)) == Step(s.arena, Then(s.out, true));
  }

  /** In a packed chain of two blocks or more whose links match both ways,
      the block before the end is full. */
  lemma {:induction false} BeforeEndFull<E>(arena: Arena<E>, k: int)
    requires Linked(arena) && k in arena && PackedFrom(arena, k) && BackLinkedFrom(arena, k)
    requires arena[k].next.Some?
    ensures var e := ChainEnd(arena, k);
      arena[e].previous.Some? && arena[e].previous.value in arena &&
      IsFull(arena[arena[e].previous.value])
    decreases |Above(arena, k)|
  {
    var j := arena[k].next.value;
    AboveShrinks(arena, arena, k, j);
    if arena[j].next.Some? {
      BeforeEndFull(arena, j);
    }
  }

  /** The last occurrence of `v` in `x + y`, when `v` occurs in `y`, is
      the last occurrence in `y` moved past `x`. */
  lemma LastIndexAfter<E>(x: seq<E>, y: seq<E>, v: E)
    requires v in y
    ensures LastIndexOfValue(x + y, v) == |x| + LastIndexOfValue(y, v)
  {
    var i := LastIndexOfValue(y, v);
    assert (x + y)[|x| + i] == v;
    forall m | |x| + i < m < |x + y| ensures (x + y)[m] != v {
      assert (x + y)[m] == y[m - |x|];
    }
    LastIndexOfValueUnique(x + y, v, |x| + i);
  }

  /** Removing the last occurrence of `v` from the `y` part of `x + y`
      removes the last occurrence of `v` from the whole. */
  lemma DropLastOccurrence<E>(x: seq<E>, y: seq<E>, v: E, whole: seq<E>, rest: seq<E>)
    requires v in y && whole == x + y
    requires var i := LastIndexOfValue(y, v); rest == x + (y[..i] + y[i + 1..])
    ensures var j := LastIndexOfValue(whole, v);
      |x| <= j < |whole| && whole[j] == v && rest == whole[..j] + whole[j + 1..]
  {
    LastIndexAfter(x, y, v);
    DropAfter(x, y, LastIndexOfValue(y, v));
  }

  /** `removeAsFromLast(v)` on the block that ends a packed chain, for a
      value that block holds: the last occurrence of `v` in the sequence the
      chain spells leaves it, the rest keeping their order, and the chain
      stays packed with the same end. */
  lemma RemoveAsFromEndPacked<E>(arena: Arena<E>, k: int, v: E)
    requires Wellformed(arena) && k in arena && PackedFrom(arena, k)
    requires Some(v) in arena[ChainEnd(arena, k)].slots
    ensures var e := ChainEnd(arena, k); var s := RemoveAsFromLastResult(arena, e, Some(v));
      var V := Values(arena, k); var j := LastIndexOfValue(V, v);
      v in V && s.out == Ok(true) && k in s.arena && PackedFrom(s.arena, k) &&
      ChainEnd(s.arena, k) == e && Values(s.arena, k) == V[..j] + V[j + 1..]
  {
    var e := ChainEnd(arena, k);
    var s := RemoveAsFromLastResult(arena, e, Some(v));
    RemoveAsFromEndBlock(arena, k, v);
    var E := Elems(arena[e]);
    DropLastOccurrence(Prefix(arena, k), E, v, Values(arena, k), Values(s.arena, k));
  }

  /** The block-level part of `RemoveAsFromEndPacked`: the end block loses
      its last occurrence of `v` and the blocks before it are kept. */
  lemma RemoveAsFromEndBlock<E>(arena: Arena<E>, k: int, v: E)
    requires Wellformed(arena) && k in arena && PackedFrom(arena, k)
    requires Some(v) in arena[ChainEnd(arena, k)].slots
    ensures var e := ChainEnd(arena, k);
      LeftAligned(arena[e]) && v in Elems(arena[e]) &&
      var s := RemoveAsFromLastResult(arena, e, Some(v));
      var E := Elems(arena[e]); var i := LastIndexOfValue(E, v);
      s.out == Ok(true) && k in s.arena && PackedFrom(s.arena, k) && ChainEnd(s.arena, k) == e &&
      Values(arena, k) == Prefix(arena, k) + E &&
      Values(s.arena, k) == Prefix(arena, k) + (E[..i] + E[i + 1..])
  {
    var e := ChainEnd(arena, k);
    ValuesLast(arena, k);
    HeldLeftAligned(arena[e], v);
    RemoveAsFromLastAtEnd(arena, e, v);
    var s := RemoveAsFromLastResult(arena, e, Some(v));
    ReplaceEnd(arena, s.arena, k);
    ValuesLast(s.arena, k);
  }

  /** `removeAsFromLast(v)` on a block that ends a chain and holds `v`:
      the block loses its last `v` and still ends the chain. */
  lemma RemoveAsFromLastAtEnd<E>(arena: Arena<E>, e: int, v: E)
    requires Wellformed(arena) && e in arena && PackedFrom(arena, e)
    requires arena[e].next.None? && v in Elems(arena[e])
    ensures var s := RemoveAsFromLastResult(arena, e, Some(v));
      var E := Elems(arena[e]); var i := LastIndexOfValue(E, v);
      0 <= i < |E| && s.out == Ok(true) && e in s.arena && s.arena[e].next.None? &&
      LeftAligned(s.arena[e]) && Elems(s.arena[e]) == E[..i] + E[i + 1..]
  {
    RemoveAsFromLastFound(arena, e, v);
    var s := RemoveAsFromLastResult(arena, e, Some(v));
    assert Values(arena, e) == Elems(arena[e]);
    assert s.arena[e].next.None?;
    assert Values(s.arena, e) == Elems(s.arena[e]);
  }

  /** Replacing the block that ends a packed chain whose links match both
      ways by a left-aligned block with the same links keeps the chain
      packed, its links matched and its end, and changes only the last part
      of the sequence it spells. */
  lemma ShrinkEnd<E>(a: Arena<E>, b: Arena<E>, k: int)
    requires Linked(a) && Linked(b) && k in a && PackedFrom(a, k) && BackLinkedFrom(a, k)
    requires forall m :: m in a && k <= m < ChainEnd(a, k) ==> m in b && b[m] == a[m]
    requires var e := ChainEnd(a, k);
      e in b && b[e].next.None? && b[e].previous == a[e].previous && LeftAligned(b[e])
    ensures var e := ChainEnd(a, k);
      LeftAligned(a[e]) && k in b && PackedFrom(b, k) && BackLinkedFrom(b, k) && ChainEnd(b, k) == e &&
      Values(a, k) == Prefix(a, k) + Elems(a[e]) && Values(b, k) == Prefix(a, k) + Elems(b[e])
  {
    var e := ChainEnd(a, k);
    ValuesLast(a, k);
    ReplaceEnd(a, b, k);
    ValuesLast(b, k);
    assert BackLinkedFrom(b, e);
    BackLinkedKept(a, b, k);
  }

  /** Dropping the last element of the `y` part of `x + y`. */
  lemma DropLastOf<T>(x: seq<T>, y: seq<T>, whole: seq<T>)
    requires |y| > 0 && whole == x + y
    ensures whole[|whole| - 1] == y[|y| - 1] && whole[..|whole| - 1] == x + y[..|y| - 1]
  {
    assert whole[..|whole| - 1] == x + y[..|y| - 1];
  }

  /** The last `v` of `x + y`, when `y` does not hold `v`, is the last `v`
      of `x`. */
  lemma LastIndexBefore<T>(x: seq<T>, y: seq<T>, v: T)
    requires v !in y
    ensures LastIndexOfValue(x + y, v) == LastIndexOfValue(x, v)
  {
    var i := LastIndexOfValue(x, v);
    if i >= 0 {
      assert (x + y)[i] == v;
    }
    forall m | i < m < |x + y| ensures (x + y)[m] != v {
      if m >= |x| {
        assert (x + y)[m] == y[m - |x|];
      }
    }
    LastIndexOfValueUnique(x + y, v, i);
  }

  /** The walk of `removeLastOccurrence(o)` steps back past a left-aligned
      block that does not hold `o`, changing nothing. */
  lemma StepBack<E>(arena: Arena<E>, m: int, o: Option<E>)
    requires Wellformed(arena) && m in arena && LeftAligned(arena[m])
    requires !(o.Some? && o.value in Elems(arena[m]))
    ensures var s := RemoveAsFromLastResult(arena, m, o); s == Step(arena, Ok(false))
    ensures arena[m].previous.Some? ==>
      arena[m].previous.value in arena &&
      RemoveLastOccurrenceFrom(arena, m, o) == RemoveLastOccurrenceFrom(arena, arena[m].previous.value, o)
    ensures arena[m].previous.None? ==> RemoveLastOccurrenceFrom(arena, m, o) == Step(arena, Ok(false))
  {
    assert LinkOk(arena, m);
    LastIndexOfLeftAligned(arena[m], o);
  }

  /** Started at the end of a packed chain whose links match both ways, the
      walk of `removeLastOccurrence(o)` passes every block from `m` onwards
      when none of them holds `o`, and goes on at the block before `m`. */
  lemma {:induction false} PassesBack<E>(arena: Arena<E>, m: int, p: int, o: Option<E>)
    requires Wellformed(arena) && m in arena && PackedFrom(arena, m) && BackLinkedFrom(arena, m)
    requires arena[m].previous == Some(p) && !(o.Some? && o.value in Values(arena, m))
    ensures p in arena
    ensures RemoveLastOccurrenceFrom(arena, ChainEnd(arena, m), o) == RemoveLastOccurrenceFrom(arena, p, o)
    decreases |Above(arena, m)|
  {
    var c := arena[m];
    if c.next.Some? {
      var n := c.next.value;
      ValuesStep(arena, m);
      AboveShrinks(arena, arena, m, n);
      PassesBack(arena, n, m, o);
    }
    StepBack(arena, m, o);
  }

  /** On a packed chain whose links match both ways and whose first block
      has no predecessor, the walk of `removeLastOccurrence(o)` from the end
      returns false and changes nothing when `o` is null or absent. */
  lemma NotFoundBack<E>(arena: Arena<E>, k: int, o: Option<E>)
    requires Wellformed(arena) && k in arena && PackedFrom(arena, k) && BackLinkedFrom(arena, k)
    requires arena[k].previous.None? && !(o.Some? && o.value in Values(arena, k))
    ensures RemoveLastOccurrenceFrom(arena, ChainEnd(arena, k), o) == Step(arena, Ok(false))
  {
    var c := arena[k];
    if c.next.Some? {
      var j := c.next.value;
      ValuesStep(arena, k);
      PassesBack(arena, j, k, o);
      assert ChainEnd(arena, k) == ChainEnd(arena, j);
    }
    StepBack(arena, k, o);
  }

  /** `removeLastOccurrence(v)` started at the end of a packed chain whose
      links match both ways removes the last `v` of the sequence the chain
      spells, whichever block holds it: the rest keep their order, the chain
      stays packed and the blocks before `k` are untouched. */
  lemma {:induction false} RemoveLastOccurrencePacked<E>(arena: Arena<E>, k: int, v: E)
    requires Wellformed(arena) && k in arena && PackedFrom(arena, k) && BackLinkedFrom(arena, k)
    requires v in Values(arena, k)
    ensures var r := RemoveLastOccurrenceFrom(arena, ChainEnd(arena, k), Some(v));
      var V := Values(arena, k); var j := LastIndexOfValue(V, v);
      r.out == Ok(true) && k in r.arena && PackedFrom(r.arena, k) &&
      Values(r.arena, k) == V[..j] + V[j + 1..] &&
      forall m :: m in arena && m < k ==> r.arena[m] == arena[m]
    decreases |Above(arena, k)|, 1
  {
    var c := arena[k];
    assert LinkOk(arena, k);
    if c.next.Some? && v in Values(arena, c.next.value) {
      LastFoundFurtherOn(arena, k, v);
    } else {
      LastFoundHere(arena, k, v);
    }
  }

  /** The case of `RemoveLastOccurrencePacked` where the chain after `k`
      holds `v`: the walk stops beyond `k`, and `k`'s block stays in
      front. */
  lemma {:induction false} LastFoundFurtherOn<E>(arena: Arena<E>, k: int, v: E)
    requires Wellformed(arena) && k in arena && PackedFrom(arena, k) && BackLinkedFrom(arena, k)
    requires arena[k].next.Some? && arena[k].next.value in arena
    requires PackedFrom(arena, arena[k].next.value) && v in Values(arena, arena[k].next.value)
    ensures v in Values(arena, k)
    ensures var r := RemoveLastOccurrenceFrom(arena, ChainEnd(arena, k), Some(v));
      var V := Values(arena, k); var j := LastIndexOfValue(V, v);
      r.out == Ok(true) && k in r.arena && PackedFrom(r.arena, k) &&
      Values(r.arena, k) == V[..j] + V[j + 1..] &&
      forall m :: m in arena && m < k ==> r.arena[m] == arena[m]
    decreases |Above(arena, k)|, 0
  {
    var j := arena[k].next.value;
    AboveShrinks(arena, arena, k, j);
    RemoveLastOccurrencePacked(arena, j, v);
    assert ChainEnd(arena, k) == ChainEnd(arena, j);
    LastKeptInFront(arena, k, v, RemoveLastOccurrenceFrom(arena, ChainEnd(arena, j), Some(v)));
  }

  /** A removal of the last `v` from the successor's chain that leaves the
      blocks before the successor untouched is a removal of the last `v`
      from the chain at `k`. */
  lemma LastKeptInFront<E>(arena: Arena<E>, k: int, v: E, r: Step<E, bool>)
    requires Wellformed(arena) && k in arena && PackedFrom(arena, k) && arena[k].next.Some?
    requires arena[k].next.value in arena && PackedFrom(arena, arena[k].next.value)
    requires v in Values(arena, arena[k].next.value)
    requires Wellformed(r.arena) && LinksCut(arena, r.arena)
    requires var j := arena[k].next.value;
      var W := Values(arena, j); var i := LastIndexOfValue(W, v);
      PackedFrom(r.arena, j) && Values(r.arena, j) == W[..i] + W[i + 1..] &&
      forall m :: m in arena && m < j ==> r.arena[m] == arena[m]
    ensures var V := Values(arena, k); var j := LastIndexOfValue(V, v);
      v in V && k in r.arena && PackedFrom(r.arena, k) &&
      Values(r.arena, k) == V[..j] + V[j + 1..] &&
      forall m :: m in arena && m < k ==> r.arena[m] == arena[m]
  {
    var c := arena[k];
    var j := c.next.value;
    ValuesStep(arena, k);
    KeptInFront(arena, k, r);
    DropLastOccurrence(Elems(c), Values(arena, j), v, Values(arena, k), Values(r.arena, k));
  }

  /** The case of `RemoveLastOccurrencePacked` where the chain after `k`
      does not hold `v`: the walk comes back to `k`, whose block holds the
      last `v`. */
  lemma LastFoundHere<E>(arena: Arena<E>, k: int, v: E)
    requires Wellformed(arena) && k in arena && PackedFrom(arena, k) && BackLinkedFrom(arena, k)
    requires v in Values(arena, k)
    requires arena[k].next.Some? ==> arena[k].next.value in arena && v !in Values(arena, arena[k].next.value)
    ensures var r := RemoveLastOccurrenceFrom(arena, ChainEnd(arena, k), Some(v));
      var V := Values(arena, k); var j := LastIndexOfValue(V, v);
      r.out == Ok(true) && k in r.arena && PackedFrom(r.arena, k) &&
      Values(r.arena, k) == V[..j] + V[j + 1..] &&
      forall m :: m in arena && m < k ==> r.arena[m] == arena[m]
  {
    var c := arena[k];
    if c.next.Some? {
      var j := c.next.value;
      ValuesStep(arena, k);
      PassesBack(arena, j, k, Some(v));
      assert ChainEnd(arena, k) == ChainEnd(arena, j);
      LastIndexBefore(Elems(c), Values(arena, j), v);
    } else {
      assert Values(arena, k) == Elems(c);
    }
    RemoveAsFromLastFound(arena, k, v);
  }
}
