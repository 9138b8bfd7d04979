/** The deque's walks along the chain of blocks: forwards from `first`
    along `next` (removeFirstOccurrence, contains, clear) and backwards
    from `last` along `previous` (removeLastOccurrence). A walk ends at a
    null link. */
module Chains {
  import opened Outcomes
  import opened Containers
  import opened Arenas

  /** The blocks of the forward walk from `k` count `o` in their counted
      slots: the nested loops of `contains`. */
  function ContainsFrom<E(==)>(arena: Arena<E>, k: int, o: Option<E>): (r: bool)
    requires Wellformed(arena) && k in arena
    ensures o in Counted(arena[k]) ==> r
    ensures r ==> exists m :: m in arena && k <= m && o in Counted(arena[m])
    decreases |Above(arena, k)|
  {
    var c := arena[k];
    if o in Counted(c) then true
    else if c.next.None? then false
    else
      AboveShrinks(arena, arena, k, c.next.value);
      ContainsFrom(arena, c.next.value, o)
  }

  /** The blocks of the backward walk from `k` count `o` in their counted
      slots. */
  ghost predicate OccursBackFrom<E>(arena: Arena<E>, k: int, o: Option<E>)
    requires Wellformed(arena) && k in arena
    decreases |Below(arena, k)|
  {
    var c := arena[k];
    if o in Counted(c) then true
    else if c.previous.None? then false
    else
      BelowShrinks(arena, arena, k, c.previous.value);
      OccursBackFrom(arena, c.previous.value, o)
  }

  /** The walk of `removeFirstOccurrence(o)` from block `k`: the first block
      whose `removeAsFromFirst(o)` succeeds (or throws) ends the walk. */
  function RemoveFirstOccurrenceFrom<E(==)>(arena: Arena<E>, k: int, o: Option<E>): (r: Step<E, bool>)
    requires Wellformed(arena) && k in arena
    ensures Wellformed(r.arena) && LinksCut(arena, r.arena)
    ensures forall m :: m in arena && m < k ==> r.arena[m] == arena[m]
    ensures r.out == Ok(false) <==> !ContainsFrom(arena, k, o)
    ensures r.out == Ok(false) ==> r.arena == arena
    ensures r.out.Throws? ==> r.out.ex == IndexOutOfBounds
    decreases |Above(arena, k)|
  {
    var s := RemoveAsFromFirstResult(arena, k, o);
    if s.out != Ok(false) || arena[k].next.None? then s
    else
      AboveShrinks(arena, arena, k, arena[k].next.value);
      RemoveFirstOccurrenceFrom(arena, arena[k].next.value, o)
  }

  /** The walk of `removeLastOccurrence(o)` from block `k` along the
      `previous` links. */
  function RemoveLastOccurrenceFrom<E(==)>(arena: Arena<E>, k: int, o: Option<E>): (r: Step<E, bool>)
    requires Wellformed(arena) && k in arena
    ensures Wellformed(r.arena) && LinksCut(arena, r.arena)
    ensures r.out == Ok(false) <==> !OccursBackFrom(arena, k, o)
    ensures r.out == Ok(false) ==> r.arena == arena
    ensures r.out.Throws? ==> r.out.ex == IndexOutOfBounds
    decreases |Below(arena, k)|
  {
    var s := RemoveAsFromLastResult(arena, k, o);
    if s.out != Ok(false) || arena[k].previous.None? then s
    else
      BelowShrinks(arena, arena, k, arena[k].previous.value);
      RemoveLastOccurrenceFrom(arena, arena[k].previous.value, o)
  }

  /** Clearing both links of one block keeps the arena well-formed. */
  lemma DetachBlock<E>(a: Arena<E>, k: int)
    requires Wellformed(a) && k in a
    ensures Wellformed(a[k := a[k].(next := None, previous := None)])
  {
    var b := a[k := a[k].(next := None, previous := None)];
    forall m | m in b ensures LinkOk(b, m) {
      assert LinkOk(a, m);
    }
  }

  /** The loop of `clear`: every block of the forward walk from `k` loses
      both links; the slots and counters stay as they are. */
  function DetachFrom<E>(arena: Arena<E>, k: int): (r: Arena<E>)
    requires Wellformed(arena) && k in arena
    ensures Wellformed(r) && r.Keys == arena.Keys
    ensures r[k].next == None && r[k].previous == None
    ensures forall m :: m in arena && m < k ==> r[m] == arena[m]
    ensures forall m :: m in arena ==>
      r[m].slots == arena[m].slots && r[m].elementsCount == arena[m].elementsCount
    decreases |Above(arena, k)|
  {
    var c := arena[k];
    var a1 := arena[k := c.(next := None, previous := None)];
    DetachBlock(arena, k);
    if c.next.None? then a1
    else
      AboveShrinks(arena, a1, k, c.next.value);
      DetachFrom(a1, c.next.value)
  }
}
