/** `TripletDeque`: the deque object whose fields the operations update in
    place. Its blocks live in an arena keyed by integer handles (see module
    Arenas); `first` and `last` are handles into it. Every method is proved
    to leave the object in the state, and to return or throw what, the
    matching function of module DequeModel gives. */
module Triplet {
  import opened Outcomes
  import opened Containers
  import opened Arenas
  import opened Chains
  import opened DequeModel

  class TripletDeque<E(==)> {
    var blocks: Arena<E>
    var first: int
    var last: int
    var queueSize: int
    var maxQueueSize: int
    /** The lowest and highest handles handed out: a new front block is
        put below `lowest`, a new back block above `highest`. */
    var lowest: int
    var highest: int

    /** The fields as a value of the model. */
    function Model(): Deque<E>
      reads this
    {
      Deque(blocks, first, last, queueSize, maxQueueSize, lowest, highest)
    }

    predicate Valid()
      reads this
    {
      DequeModel.Valid(Model())
    }

    /** `new TripletDeque(maxQueueSize)` */
    constructor (maxQueueSize: int)
      ensures Valid() && Model() == Fresh(maxQueueSize)
    {
      blocks := map[0 := NewContainer()];
      first := 0;
      last := 0;
      queueSize := 0;
      this.maxQueueSize := maxQueueSize;
      lowest := 0;
      highest := 0;
    }

    /** `new TripletDeque()`, with capacity `DEFAULT_QUEUE_SIZE`. */
    constructor Default()
      ensures Valid() && Model() == Fresh(DefaultQueueSize)
    {
      blocks := map[0 := NewContainer()];
      first := 0;
      last := 0;
      queueSize := 0;
      maxQueueSize := DefaultQueueSize;
      lowest := 0;
      highest := 0;
    }

    // -------------------------------------------------------------------
    // Insertion

    method OfferFirst(e: Option<E>) returns (r: Outcome<bool>)
      requires Valid()
      modifies this
      ensures Model() == OfferFirstResult(old(Model()), e).state
      ensures r == OfferFirstResult(old(Model()), e).out
      ensures Valid()
    {
      if e.None? {
        return Throws(NullPointer);
      }
      if queueSize >= maxQueueSize {
        return Ok(false);
      }
      if IsFull(blocks[first]) {
        ghost var grown := GrowFront(Model());
        var h := lowest - 1;
        blocks := blocks[h := NewContainer().(next := Some(first))];
        blocks := blocks[first := blocks[first].(previous := Some(h))];
        first := h;
        lowest := h;
        assert Model() == grown;
      }
      var res := AddFirst(blocks[first], e.value);
      if res.Throws? {
        return Throws(res.ex);
      }
      blocks := blocks[first := res.value];
      queueSize := queueSize + 1;
      return Ok(true);
    }

    method OfferLast(e: Option<E>) returns (r: Outcome<bool>)
      requires Valid()
      modifies this
      ensures Model() == OfferLastResult(old(Model()), e).state
      ensures r == OfferLastResult(old(Model()), e).out
      ensures Valid()
    {
      if e.None? {
        return Throws(NullPointer);
      }
      if queueSize >= maxQueueSize {
        return Ok(false);
      }
      if IsFull(blocks[last]) {
        ghost var grown := GrowBack(Model());
        var h := highest + 1;
        blocks := blocks[h := NewContainer().(previous := Some(last))];
        blocks := blocks[last := blocks[last].(next := Some(h))];
        last := h;
        highest := h;
        assert Model() == grown;
      }
      var res := AddLastResult(blocks[last], e.value);
      if res.Throws? {
        return Throws(res.ex);
      }
      blocks := blocks[last := res.value];
      queueSize := queueSize + 1;
      return Ok(true);
    }

    // -------------------------------------------------------------------
    // Removal and inspection at the ends

    method RemoveFirst() returns (r: Outcome<Option<E>>)
      requires Valid()
      modifies this
      ensures Model() == DequeModel.RemoveFirstResult(old(Model())).state
      ensures r == DequeModel.RemoveFirstResult(old(Model())).out
      ensures Valid()
    {
      if queueSize == 0 {
        return Throws(NoSuchElement);
      }
      var s := Arenas.RemoveFirst(blocks, first);
      var arena := s.arena;
      if s.out.Throws? {
        blocks := arena;
        return Throws(s.out.ex);
      }
      var f := arena[first];
      if Containers.IsEmpty(f) && f.next.Some? {
        var j := f.next.value;
        blocks, first := arena[j := arena[j].(previous := None)], j;
      } else {
        blocks := arena;
      }
      queueSize := queueSize - 1;
      return s.out;
    }

    method RemoveLast() returns (r: Outcome<Option<E>>)
      requires Valid()
      modifies this
      ensures Model() == DequeModel.RemoveLastResult(old(Model())).state
      ensures r == DequeModel.RemoveLastResult(old(Model())).out
      ensures Valid()
    {
      if queueSize == 0 {
        return Throws(NoSuchElement);
      }
      var res := Containers.RemoveLast(blocks[last]);
      if res.Throws? {
        return Throws(res.ex);
      }
      var (c, v) := res.value;
      blocks := blocks[last := c];
      queueSize := queueSize - 1;
      if Containers.IsEmpty(c) && c.previous.Some? {
        last := c.previous.value;
        blocks := blocks[last := blocks[last].(next := None)];
      }
      return Ok(Some(v));
    }

    method PollFirst() returns (r: Outcome<Option<E>>)
      requires Valid()
      modifies this
      ensures Model() == PollFirstResult(old(Model())).state
      ensures r == PollFirstResult(old(Model())).out
      ensures Valid()
    {
      r := RemoveFirst();
      if r == Throws(NoSuchElement) {
        r := Ok(None);
      }
    }

    method PollLast() returns (r: Outcome<Option<E>>)
      requires Valid()
      modifies this
      ensures Model() == PollLastResult(old(Model())).state
      ensures r == PollLastResult(old(Model())).out
      ensures Valid()
    {
      r := RemoveLast();
      if r == Throws(NoSuchElement) {
        r := Ok(None);
      }
    }

    method GetFirst() returns (r: Outcome<Option<E>>)
      requires Valid()
      ensures r == DequeModel.GetFirstResult(Model())
    {
      if queueSize == 0 {
        return Throws(NoSuchElement);
      }
      var v := Containers.GetFirst(blocks[first]);
      return Ok(v);
    }

    method GetLast() returns (r: Outcome<Option<E>>)
      requires Valid()
      ensures r == DequeModel.GetLastResult(Model())
    {
      if queueSize == 0 {
        return Throws(NoSuchElement);
      }
      var v := Containers.GetLast(blocks[last]);
      return Ok(v);
    }

    method PeekFirst() returns (r: Option<E>)
      requires Valid()
      ensures r == PeekFirstResult(Model())
    {
      var g := GetFirst();
      r := if g.Ok? then g.value else None;
    }

    method PeekLast() returns (r: Option<E>)
      requires Valid()
      ensures r == PeekLastResult(Model())
    {
      var g := GetLast();
      r := if g.Ok? then g.value else None;
    }

    // -------------------------------------------------------------------
    // Occurrences, size, clear

    /** `removeFirstOccurrence(o)`: the walk from `first` (ScanFirstOccurrence)
        and, on a removal, the decrement of `queueSize`. The first block
        whose `removeAsFromFirst` finds `o` ends it. */
    method RemoveFirstOccurrence(o: Option<E>) returns (r: Outcome<bool>)
      requires Valid()
      modifies this
      ensures Model() == RemoveFirstOccurrenceResult(old(Model()), o).state
      ensures r == RemoveFirstOccurrenceResult(old(Model()), o).out
      ensures Valid()
    {
      var s := ScanFirstOccurrence(blocks, first, o);
      blocks, queueSize := s.arena, if s.out == Ok(true) then queueSize - 1 else queueSize;
      r := s.out;
    }

    /** `removeLastOccurrence(o)`: the walk from `last` (ScanLastOccurrence)
        and, on a removal, the decrement of `queueSize`. The first
        block whose `removeAsFromLast` finds `o` ends it. */
    method RemoveLastOccurrence(o: Option<E>) returns (r: Outcome<bool>)
      requires Valid()
      modifies this
      ensures Model() == RemoveLastOccurrenceResult(old(Model()), o).state
      ensures r == RemoveLastOccurrenceResult(old(Model()), o).out
      ensures Valid()
    {
      var s := ScanLastOccurrence(blocks, last, o);
      blocks, queueSize := s.arena, if s.out == Ok(true) then queueSize - 1 else queueSize;
      r := s.out;
    }

    /** The nested loops of `contains`: the blocks from `first` along
        `next`, and in each block its counted slots. */
    method Contains(o: Option<E>) returns (r: bool)
      requires Valid()
      ensures r == ContainsResult(Model(), o)
    {
      var container := Some(first);
      while container.Some?
        invariant container.Some? ==> container.value in blocks
        invariant ContainsResult(Model(), o) == (container.Some? && ContainsFrom(blocks, container.value, o))
        decreases if container.Some? then |Above(blocks, container.value)| + 1 else 0
      {
        var c := blocks[container.value];
        var i := 0;
        while i < c.elementsCount
          invariant 0 <= i <= ContainerSize && (c.elementsCount >= 0 ==> i <= c.elementsCount)
          invariant o !in c.slots[..i]
        {
          if o == c.slots[i] {
            return true;
          }
          i := i + 1;
        }
        assert o !in Counted(c);
        var k := container.value;
        container := c.next;
        if container.Some? {
          AboveShrinks(blocks, blocks, k, container.value);
        }
      }
      return false;
    }

    method Size() returns (r: int)
      ensures r == Model().queueSize
    {
      return queueSize;
    }

    method IsEmpty() returns (r: bool)
      ensures r <==> Model().queueSize == 0
    {
      return queueSize == 0;
    }

    /** The loop of `clear` over the blocks from `first` along `next`,
        unlinking each, then a new empty block as both `first` and `last`. */
    method Clear()
      requires Valid()
      modifies this
      ensures Model() == ClearResult(old(Model()))
      ensures Valid()
    {
      ghost var d := Model();
      var arena, current := blocks, Some(first);
      while current.Some?
        invariant Model() == d
        invariant Wellformed(arena) && arena.Keys == d.blocks.Keys
        invariant current.Some? ==> current.value in arena
        invariant current.Some? ==>
          DetachFrom(d.blocks, d.first) == DetachFrom(arena, current.value)
        invariant current.None? ==> DetachFrom(d.blocks, d.first) == arena
        decreases if current.Some? then |Above(arena, current.value)| + 1 else 0
      {
        var k := current.value;
        var next := arena[k].next;
        DetachBlock(arena, k);
        ghost var before := arena;
        arena := arena[k := arena[k].(next := None, previous := None)];
        if next.Some? {
          AboveShrinks(before, arena, k, next.value);
        }
        current := next;
      }
      blocks := arena;
      var h := highest + 1;
      blocks := blocks[h := NewContainer()];
      first := h;
      last := h;
      highest := h;
      queueSize := 0;
    }
  }

  /** The loop of `removeFirstOccurrence`: the blocks from `k` along `next`
      are asked in turn to `removeAsFromFirst(o)`; the first one that does
      not answer `false` (a removal or an exception) ends the walk. */
  method ScanFirstOccurrence<E(==)>(arena: Arena<E>, k: int, o: Option<E>) returns (s: Step<E, bool>)
    requires Wellformed(arena) && k in arena
    ensures s == RemoveFirstOccurrenceFrom(arena, k, o)
  {
    var container := Some(k);
    while container.Some?
      invariant container.Some? ==> container.value in arena
      invariant container.Some? ==>
        RemoveFirstOccurrenceFrom(arena, container.value, o) == RemoveFirstOccurrenceFrom(arena, k, o)
      invariant container.None? ==> RemoveFirstOccurrenceFrom(arena, k, o) == Step(arena, Ok(false))
      decreases if container.Some? then |Above(arena, container.value)| + 1 else 0
    {
      var j := container.value;
      s := RemoveAsFromFirst(arena, j, o);
      if s.out != Ok(false) {
        return;
      }
      container := arena[j].next;
      if container.Some? {
        AboveShrinks(arena, arena, j, container.value);
      }
    }
    s := Step(arena, Ok(false));
  }

  /** The loop of `removeLastOccurrence`: the blocks from `k` along
      `previous` are asked in turn to `removeAsFromLast(o)`; the first one
      that does not answer `false` ends the walk. */
  method ScanLastOccurrence<E(==)>(arena: Arena<E>, k: int, o: Option<E>) returns (s: Step<E, bool>)
    requires Wellformed(arena) && k in arena
    ensures s == RemoveLastOccurrenceFrom(arena, k, o)
  {
    var container := Some(k);
    while container.Some?
      invariant container.Some? ==> container.value in arena
      invariant container.Some? ==>
        RemoveLastOccurrenceFrom(arena, container.value, o) == RemoveLastOccurrenceFrom(arena, k, o)
      invariant container.None? ==> RemoveLastOccurrenceFrom(arena, k, o) == Step(arena, Ok(false))
      decreases if container.Some? then |Below(arena, container.value)| + 1 else 0
    {
      var j := container.value;
      s := RemoveAsFromLast(arena, j, o);
      if s.out != Ok(false) {
        return;
      }
      container := arena[j].previous;
      if container.Some? {
        BelowShrinks(arena, arena, j, container.value);
      }
    }
    s := Step(arena, Ok(false));
  }
}
