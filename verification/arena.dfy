/** The chain of blocks. A block's identity (a Java reference) is an integer
    handle into an arena of blocks. New blocks get a handle below every
    handle in use when they are put in front of the chain and above every
    handle in use when they are put behind it, so a `next` link always leads
    to a larger handle and a `previous` link to a smaller one. That ordering
    is what makes every walk along the chain, and the recursive borrow of
    `removeByIndex`, terminate. */
module Arenas {
  import opened Outcomes
  import opened Containers

  type Arena<E> = map<int, Container<E>>

  /** The arena after a call, with the call's outcome. When the outcome is
      an exception the arena keeps the changes made before it was thrown,
      as the Java objects do. */
  datatype Step<E, T> = Step(arena: Arena<E>, out: Outcome<T>)

  /** The outcome `v` once a call that returns nothing has succeeded. */
  function Then<T>(o: Outcome<()>, v: T): Outcome<T>
  {
    if o.Ok? then Ok(v) else Throws(o.ex)
  }

  // ---------------------------------------------------------------------
  // Well-formed arenas

  /** The links of block `m` lead to blocks of the arena, forwards to a
      larger handle and backwards to a smaller one. */
  predicate LinkOk<E>(arena: Arena<E>, m: int)
    requires m in arena
  {
    (arena[m].next.Some? ==> arena[m].next.value in arena && m < arena[m].next.value) &&
    (arena[m].previous.Some? ==> arena[m].previous.value in arena && arena[m].previous.value < m)
  }

  predicate Linked<E>(arena: Arena<E>)
  {
    forall m :: m in arena ==> LinkOk(arena, m)
  }

  predicate AllSized<E>(arena: Arena<E>)
  {
    forall m :: m in arena ==> Sized(arena[m])
  }

  predicate Wellformed<E>(arena: Arena<E>)
  {
    Linked(arena) && AllSized(arena)
  }

  /** `b` is `a` with some `next` links set to null and nothing else
      relinked. */
  ghost predicate LinksCut<E>(a: Arena<E>, b: Arena<E>)
  {
    a.Keys == b.Keys &&
    forall m :: m in a ==>
      b[m].previous == a[m].previous && (b[m].next == a[m].next || b[m].next == None)
  }

  lemma LinksCutTrans<E>(a: Arena<E>, b: Arena<E>, c: Arena<E>)
    requires LinksCut(a, b) && LinksCut(b, c)
    ensures LinksCut(a, c)
  {
  }

  /** The handles above `k`: what a forward walk from `k` can still visit. */
  ghost function Above<E>(arena: Arena<E>, k: int): set<int>
  {
    set m | m in arena && m > k
  }

  /** The handles below `k`: what a backward walk from `k` can still visit. */
  ghost function Below<E>(arena: Arena<E>, k: int): set<int>
  {
    set m | m in arena && m < k
  }

  lemma AboveShrinks<E>(a: Arena<E>, b: Arena<E>, k: int, j: int)
    requires a.Keys == b.Keys && j in a && j > k
    ensures |Above(b, j)| < |Above(a, k)|
  {
    var x, y := Above(b, j), Above(a, k);
    assert x <= y;
    assert j in y - x;
    assert y == x + (y - x);
  }

  lemma BelowShrinks<E>(a: Arena<E>, b: Arena<E>, k: int, j: int)
    requires a.Keys == b.Keys && j in a && j < k
    ensures |Below(b, j)| < |Below(a, k)|
  {
    var x, y := Below(b, j), Below(a, k);
    assert x <= y;
    assert j in y - x;
    assert y == x + (y - x);
  }

  // ---------------------------------------------------------------------
  // Specifications of the block operations that reach along the chain

  /** The last step of `removeByIndex`: a drained successor is unlinked
      (only the `next` link is cleared). */
  function UnlinkDrained<E>(arena: Arena<E>, k: int): Arena<E>
    requires Linked(arena) && k in arena
  {
    var c := arena[k];
    if c.next.Some? && IsEmpty(arena[c.next.value]) then arena[k := c.(next := None)] else arena
  }

  /** Replacing one block with a sized block that keeps its links (or cuts
      its `next` link) keeps the arena well-formed. */
  lemma ReplaceBlock<E>(a: Arena<E>, k: int, c: Container<E>)
    requires Wellformed(a) && k in a && Sized(c)
    requires c.previous == a[k].previous && (c.next == a[k].next || c.next == None)
    ensures Wellformed(a[k := c]) && LinksCut(a, a[k := c])
  {
    var b := a[k := c];
    forall m | m in b ensures LinkOk(b, m) {
      assert LinkOk(a, m);
    }
  }

  lemma UnlinkDrainedWellformed<E>(a: Arena<E>, k: int)
    requires Wellformed(a) && k in a
    ensures Wellformed(UnlinkDrained(a, k)) && LinksCut(a, UnlinkDrained(a, k))
    ensures forall m :: m in a && m != k ==> UnlinkDrained(a, k)[m] == a[m]
    ensures UnlinkDrained(a, k)[k] == a[k] || UnlinkDrained(a, k)[k] == a[k].(next := None)
  {
    var c := a[k];
    if c.next.Some? && IsEmpty(a[c.next.value]) {
      ReplaceBlock(a, k, c.(next := None));
    }
  }

  /** `removeByIndex(index)` on block `k`: close the gap, clear slot
      `elementsCount - 1`, decrement the counter, borrow the first element
      of a non-empty successor into the new top slot, and unlink the
      successor if it is now empty. */
  function RemoveByIndexResult<E>(arena: Arena<E>, k: int, index: int): (r: Step<E, ()>)
    requires Wellformed(arena) && k in arena && 0 <= index < ContainerSize
    ensures Wellformed(r.arena) && LinksCut(arena, r.arena)
    ensures forall m :: m in arena && m < k ==> r.arena[m] == arena[m]
    ensures arena[k].elementsCount < 1 ==> r == Step(arena, Throws(IndexOutOfBounds))
    ensures r.out.Throws? ==> r.out.ex == IndexOutOfBounds
    decreases |Above(arena, k)|, 0
  {
    var c := arena[k];
    var n := c.elementsCount;
    if n < 1 then Step(arena, Throws(IndexOutOfBounds))
    else
      var c1 := IndexClosed(c, index);
      var arena1 := arena[k := c1];
      ReplaceBlock(arena, k, c1);
      if c.next.Some? && !IsEmpty(arena1[c.next.value]) then
        var j := c.next.value;
        AboveShrinks(arena, arena1, k, j);
        var b := RemoveFirstResult(arena1, j);
        LinksCutTrans(arena, arena1, b.arena);
        if b.out.Throws? then Step(b.arena, Throws(b.out.ex))
        else
          var c2 := c1.(slots := c1.slots[n - 1 := b.out.value], elementsCount := n);
          var arena2 := b.arena[k := c2];
          ReplaceBlock(b.arena, k, c2);
          LinksCutTrans(arena, b.arena, arena2);
          UnlinkDrainedWellformed(arena2, k);
          LinksCutTrans(arena, arena2, UnlinkDrained(arena2, k));
          Step(UnlinkDrained(arena2, k), Ok(()))
      else
        UnlinkDrainedWellformed(arena1, k);
        LinksCutTrans(arena, arena1, UnlinkDrained(arena1, k));
        Step(UnlinkDrained(arena1, k), Ok(()))
  }

  /** `Container.removeFirst()` on block `j`: remove the lowest occupied
      slot by index and return its value, or return null when every slot
      is empty. */
  function RemoveFirstResult<E>(arena: Arena<E>, j: int): (r: Step<E, Option<E>>)
    requires Wellformed(arena) && j in arena
    ensures Wellformed(r.arena) && LinksCut(arena, r.arena)
    ensures forall m :: m in arena && m < j ==> r.arena[m] == arena[m]
    ensures r.out.Throws? ==> r.out.ex == IndexOutOfBounds
    ensures r.out.Ok? && r.out.value.Some? ==> r.out.value in arena[j].slots
    decreases |Above(arena, j)|, 1
  {
    var c := arena[j];
    var i := FirstUsed(c.slots);
    if i == |c.slots| then Step(arena, Ok(None))
    else
      var s := RemoveByIndexResult(arena, j, i);
      Step(s.arena, Then(s.out, c.slots[i]))
  }

  /** The first index of `s` holding `o`, or |s|. */
  function IndexOf<E(==)>(s: Slots<E>, o: Option<E>): (i: nat)
    ensures i <= |s|
    ensures i < |s| ==> s[i] == o
    ensures forall j :: 0 <= j < i ==> s[j] != o
  {
    if |s| == 0 then 0
    else if s[0] == o then 0
    else 1 + IndexOf(s[1..], o)
  }

  /** The last index of `s` holding `o`, or -1. */
  function LastIndexOf<E(==)>(s: Slots<E>, o: Option<E>): (i: int)
    ensures -1 <= i < |s|
    ensures i >= 0 ==> s[i] == o
    ensures forall j :: i < j < |s| ==> s[j] != o
  {
    if |s| == 0 then -1
    else if s[|s| - 1] == o then |s| - 1
    else LastIndexOf(s[..|s| - 1], o)
  }

  /** The counted prefix of a block's slots, [0, elementsCount). */
  function Counted<E>(c: Container<E>): Slots<E>
    requires Sized(c)
  {
    if c.elementsCount < 0 then [] else c.slots[..c.elementsCount]
  }

  /** `removeAsFromFirst(o)` on block `k`: remove, by index, the lowest
      counted slot equal to `o` (null included). */
  function RemoveAsFromFirstResult<E(==)>(arena: Arena<E>, k: int, o: Option<E>): (r: Step<E, bool>)
    requires Wellformed(arena) && k in arena
    ensures Wellformed(r.arena) && LinksCut(arena, r.arena)
    ensures forall m :: m in arena && m < k ==> r.arena[m] == arena[m]
    ensures r.out == Ok(false) <==> o !in Counted(arena[k])
    ensures r.out == Ok(false) ==> r.arena == arena
    ensures r.out.Throws? ==> r.out.ex == IndexOutOfBounds
  {
    var i := IndexOf(Counted(arena[k]), o);
    if i == |Counted(arena[k])| then Step(arena, Ok(false))
    else
      var s := RemoveByIndexResult(arena, k, i);
      Step(s.arena, Then(s.out, true))
  }

  /** `removeAsFromLast(o)` on block `k`: remove, by index, the highest
      counted slot equal to `o` (null included). */
  function RemoveAsFromLastResult<E(==)>(arena: Arena<E>, k: int, o: Option<E>): (r: Step<E, bool>)
    requires Wellformed(arena) && k in arena
    ensures Wellformed(r.arena) && LinksCut(arena, r.arena)
    ensures forall m :: m in arena && m < k ==> r.arena[m] == arena[m]
    ensures r.out == Ok(false) <==> o !in Counted(arena[k])
    ensures r.out == Ok(false) ==> r.arena == arena
    ensures r.out.Throws? ==> r.out.ex == IndexOutOfBounds
  {
    var i := LastIndexOf(Counted(arena[k]), o);
    if i < 0 then Step(arena, Ok(false))
    else
      var s := RemoveByIndexResult(arena, k, i);
      Step(s.arena, Then(s.out, true))
  }

  // ---------------------------------------------------------------------
  // The block operations, with the source's loops and recursion

  /** `Container.removeByIndex` */
  method RemoveByIndex<E>(arena: Arena<E>, k: int, index: int) returns (r: Step<E, ()>)
    requires Wellformed(arena) && k in arena && 0 <= index < ContainerSize
    ensures r == RemoveByIndexResult(arena, k, index)
    decreases |Above(arena, k)|, 0
  {
    var c := arena[k];
    var closed := CloseGap(c, index);
    if closed.Throws? {
      return Step(arena, Throws(closed.ex));
    }
    var c1 := closed.value;
    var current := arena[k := c1];
    ReplaceBlock(arena, k, c1);
    if c.next.Some? && !IsEmpty(current[c.next.value]) {
      AboveShrinks(arena, current, k, c.next.value);
      var b := RemoveFirst(current, c.next.value);
      if b.out.Throws? {
        return Step(b.arena, Throws(b.out.ex));
      }
      var c2 := c1.(slots := c1.slots[c1.elementsCount := b.out.value], elementsCount := c1.elementsCount + 1);
      current := b.arena[k := c2];
    }
    if c.next.Some? && IsEmpty(current[c.next.value]) {
      current := current[k := current[k].(next := None)];
    }
    r := Step(current, Ok(()));
  }

  /** `Container.removeFirst` */
  method RemoveFirst<E>(arena: Arena<E>, j: int) returns (r: Step<E, Option<E>>)
    requires Wellformed(arena) && j in arena
    ensures r == RemoveFirstResult(arena, j)
    decreases |Above(arena, j)|, 1
  {
    var c := arena[j];
    for i := 0 to |c.slots|
      invariant forall m :: 0 <= m < i ==> c.slots[m].None?
    {
      if c.slots[i].Some? {
        var toRemove := c.slots[i];
        FirstUsedUnique(c.slots, i);
        var s := RemoveByIndex(arena, j, i);
        return Step(s.arena, Then(s.out, toRemove));
      }
    }
    FirstUsedUnique(c.slots, |c.slots|);
    return Step(arena, Ok(None));
  }

  /** `Container.removeAsFromFirst` */
  method RemoveAsFromFirst<E(==)>(arena: Arena<E>, k: int, o: Option<E>) returns (r: Step<E, bool>)
    requires Wellformed(arena) && k in arena
    ensures r == RemoveAsFromFirstResult(arena, k, o)
  {
    var c := arena[k];
    var i := 0;
    while i < c.elementsCount
      invariant 0 <= i && (i <= c.elementsCount || i == 0)
      invariant forall j :: 0 <= j < i ==> c.slots[j] != o
    {
      if c.slots[i] == o {
        IndexOfUnique(Counted(c), o, i);
        var s := RemoveByIndex(arena, k, i);
        return Step(s.arena, Then(s.out, true));
      }
      i := i + 1;
    }
    IndexOfUnique(Counted(c), o, |Counted(c)|);
    return Step(arena, Ok(false));
  }

  /** `Container.removeAsFromLast` */
  method RemoveAsFromLast<E(==)>(arena: Arena<E>, k: int, o: Option<E>) returns (r: Step<E, bool>)
    requires Wellformed(arena) && k in arena
    ensures r == RemoveAsFromLastResult(arena, k, o)
  {
    var c := arena[k];
    assert Sized(c);
    var i := c.elementsCount - 1;
    while i >= 0
      invariant i < c.elementsCount
      invariant forall j :: 0 <= j && i < j < c.elementsCount ==> c.slots[j] != o
    {
      if c.slots[i] == o {
        LastIndexOfUnique(Counted(c), o, i);
        var s := RemoveByIndex(arena, k, i);
        return Step(s.arena, Then(s.out, true));
      }
      i := i - 1;
    }
    LastIndexOfUnique(Counted(c), o, -1);
    return Step(arena, Ok(false));
  }

  lemma IndexOfUnique<E>(s: Slots<E>, o: Option<E>, i: nat)
    requires i <= |s| && (i < |s| ==> s[i] == o)
    requires forall j :: 0 <= j < i ==> s[j] != o
    ensures IndexOf(s, o) == i
  {
  }

  lemma LastIndexOfUnique<E>(s: Slots<E>, o: Option<E>, i: int)
    requires -1 <= i < |s| && (i >= 0 ==> s[i] == o)
    requires forall j :: i < j < |s| ==> s[j] != o
    ensures LastIndexOf(s, o) == i
  {
  }
}
