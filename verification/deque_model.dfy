/** The deque as a value: its arena of blocks and the fields of
    `TripletDeque`, with one function per public operation giving the state
    after the call and what the call returns or throws. The class
    `TripletDeque` in module Triplet is proved against these functions. */
module DequeModel {
  import opened Outcomes
  import opened Containers
  import opened Arenas
  import opened Chains
  import opened Packing

  /** `DEFAULT_QUEUE_SIZE`, the capacity of `new TripletDeque()`. */
  const DefaultQueueSize: int := 1000

  /** The state of a deque: the arena holding its blocks, the handles of the
      `first` and `last` blocks, `queueSize`, `maxQueueSize`, and the lowest
      and highest handles handed out so far (where the next block in front
      and the next block behind will be put). */
  datatype Deque<E> = Deque(
    blocks: Arena<E>,
    first: int,
    last: int,
    queueSize: int,
    maxQueueSize: int,
    lowest: int,
    highest: int)

  /** The state after a call and the call's outcome. */
  datatype Call<E, T> = Call(state: Deque<E>, out: Outcome<T>)

  /** What every reachable state satisfies. */
  predicate Valid<E>(d: Deque<E>)
  {
    Wellformed(d.blocks) && d.first in d.blocks && d.last in d.blocks &&
    forall m :: m in d.blocks ==> d.lowest <= m <= d.highest
  }

  /** `new TripletDeque(maxQueueSize)`: one empty block, both `first` and
      `last`. */
  function Fresh<E>(maxQueueSize: int): (d: Deque<E>)
    ensures Valid(d) && d.first == d.last && d.blocks[d.first] == NewContainer()
    ensures d.queueSize == 0 && d.maxQueueSize == maxQueueSize
  {
    Deque(map[0 := NewContainer()], 0, 0, 0, maxQueueSize, 0, 0)
  }

  /** Installing a block whose links lead to blocks of the arena, forwards
      to a larger handle and backwards to a smaller one, keeps the arena
      well-formed. */
  lemma Relink<E>(a: Arena<E>, k: int, c: Container<E>)
    requires Wellformed(a) && Sized(c)
    requires c.next.Some? ==> c.next.value in a && k < c.next.value
    requires c.previous.Some? ==> c.previous.value in a && c.previous.value < k
    ensures Wellformed(a[k := c])
  {
    var b := a[k := c];
    forall m | m in b ensures LinkOk(b, m) {
      if m != k {
        assert LinkOk(a, m);
      }
    }
  }

  // ---------------------------------------------------------------------
  // Insertion

  /** The new front block of `offerFirst`: linked forwards to the old
      `first`, which is linked back to it. */
  function GrowFront<E>(d: Deque<E>): (r: Deque<E>)
    requires Valid(d)
    ensures Valid(r) && r.first == d.lowest - 1 && r.first !in d.blocks
    ensures r.blocks[r.first] == NewContainer().(next := Some(d.first))
    ensures r.blocks[d.first] == d.blocks[d.first].(previous := Some(r.first))
    ensures r.blocks.Keys == d.blocks.Keys + {r.first}
    ensures forall m :: m in d.blocks && m != d.first ==> r.blocks[m] == d.blocks[m]
    ensures r.last == d.last && r.queueSize == d.queueSize && r.maxQueueSize == d.maxQueueSize
  {
    var h := d.lowest - 1;
    var b1 := d.blocks[h := NewContainer().(next := Some(d.first))];
    Relink(d.blocks, h, NewContainer().(next := Some(d.first)));
    assert LinkOk(b1, d.first);
    Relink(b1, d.first, b1[d.first].(previous := Some(h)));
    d.(blocks := b1[d.first := b1[d.first].(previous := Some(h))], first := h, lowest := h)
  }

  /** The new back block of `offerLast`: linked back to the old `last`,
      which is linked forwards to it. */
  function GrowBack<E>(d: Deque<E>): (r: Deque<E>)
    requires Valid(d)
    ensures Valid(r) && r.last == d.highest + 1 && r.last !in d.blocks
    ensures r.blocks[r.last] == NewContainer().(previous := Some(d.last))
    ensures r.blocks[d.last] == d.blocks[d.last].(next := Some(r.last))
    ensures r.blocks.Keys == d.blocks.Keys + {r.last}
    ensures forall m :: m in d.blocks && m != d.last ==> r.blocks[m] == d.blocks[m]
    ensures r.first == d.first && r.queueSize == d.queueSize && r.maxQueueSize == d.maxQueueSize
  {
    var h := d.highest + 1;
    var b1 := d.blocks[h := NewContainer().(previous := Some(d.last))];
    Relink(d.blocks, h, NewContainer().(previous := Some(d.last)));
    assert LinkOk(b1, d.last);
    Relink(b1, d.last, b1[d.last].(next := Some(h)));
    d.(blocks := b1[d.last := b1[d.last].(next := Some(h))], last := h, highest := h)
  }

  /** `offerFirst(e)`: null is refused with an exception and a full deque
      with false, before anything changes; a full front block gets a new
      block in front of it; then the front block's `addFirst` stores `e`
      and `queueSize` grows by one. */
  function OfferFirstResult<E>(d: Deque<E>, e: Option<E>): (r: Call<E, bool>)
    requires Valid(d)
    ensures Valid(r.state)
    ensures e.None? ==> r == Call(d, Throws(NullPointer))
    ensures e.Some? && d.queueSize >= d.maxQueueSize ==> r == Call(d, Ok(false))
    ensures r.out == Ok(true) <==> e.Some? && d.queueSize < d.maxQueueSize && r.out.Ok?
    ensures r.out == Ok(true) ==> r.state.queueSize == d.queueSize + 1
    ensures r.out != Ok(true) ==> r.state.queueSize == d.queueSize
    ensures r.out == Ok(true) ==> Some(e.value) in r.state.blocks[r.state.first].slots
    ensures r.out == Ok(true) ==> (r.state.first != d.first <==> IsFull(d.blocks[d.first]))
    ensures r.state.first != d.first ==>
      r.state.first !in d.blocks && r.state.blocks[r.state.first].next == Some(d.first) &&
      r.state.blocks[d.first].previous == Some(r.state.first)
    ensures r.out == Throws(IndexOutOfBounds) ==> r.state == d
    ensures r.state.last == d.last && r.state.maxQueueSize == d.maxQueueSize
  {
    if e.None? then Call(d, Throws(NullPointer))
    else if d.queueSize >= d.maxQueueSize then Call(d, Ok(false))
    else
      var d1 := if IsFull(d.blocks[d.first]) then GrowFront(d) else d;
      var res := AddFirstResult(d1.blocks[d1.first], e.value);
      if res.Throws? then
        Call(d1, Throws(res.ex))
      else
        ReplaceBlock(d1.blocks, d1.first, res.value);
        Call(d1.(blocks := d1.blocks[d1.first := res.value], queueSize := d.queueSize + 1), Ok(true))
  }

  /** `offerLast(e)`: as `offerFirst`, at the back, with `addLast`. */
  function OfferLastResult<E>(d: Deque<E>, e: Option<E>): (r: Call<E, bool>)
    requires Valid(d)
    ensures Valid(r.state)
    ensures e.None? ==> r == Call(d, Throws(NullPointer))
    ensures e.Some? && d.queueSize >= d.maxQueueSize ==> r == Call(d, Ok(false))
    ensures r.out == Ok(true) <==> e.Some? && d.queueSize < d.maxQueueSize && r.out.Ok?
    ensures r.out == Ok(true) ==> r.state.queueSize == d.queueSize + 1
    ensures r.out != Ok(true) ==> r.state.queueSize == d.queueSize
    ensures r.out == Ok(true) ==> Some(e.value) in r.state.blocks[r.state.last].slots
    ensures r.out == Ok(true) ==> (r.state.last != d.last <==> IsFull(d.blocks[d.last]))
    ensures r.state.last != d.last ==>
      r.state.last !in d.blocks && r.state.blocks[r.state.last].previous == Some(d.last) &&
      r.state.blocks[d.last].next == Some(r.state.last)
    ensures r.out == Throws(IndexOutOfBounds) ==> r.state == d
    ensures r.state.first == d.first && r.state.maxQueueSize == d.maxQueueSize
  {
    if e.None? then Call(d, Throws(NullPointer))
    else if d.queueSize >= d.maxQueueSize then Call(d, Ok(false))
    else
      var d1 := if IsFull(d.blocks[d.last]) then GrowBack(d) else d;
      var c := d1.blocks[d1.last];
      var res := AddLastResult(c, e.value);
      if res.Throws? then
        Call(d1, Throws(res.ex))
      else
        assert res.value.slots[c.elementsCount] == Some(e.value);
        ReplaceBlock(d1.blocks, d1.last, res.value);
        Call(d1.(blocks := d1.blocks[d1.last := res.value], queueSize := d.queueSize + 1), Ok(true))
  }

  // ---------------------------------------------------------------------
  // Removal and inspection at the ends

  /** `removeFirst()`: an empty deque (by `queueSize`) throws
      NoSuchElementException; otherwise the front block's `removeFirst`
      gives the element (null when that block holds no element),
      `queueSize` shrinks by one, and a front block left empty with a
      successor is replaced by that successor. */
  function RemoveFirstResult<E>(d: Deque<E>): (r: Call<E, Option<E>>)
    requires Valid(d)
    ensures Valid(r.state)
    ensures r.out == Throws(NoSuchElement) <==> d.queueSize == 0
    ensures d.queueSize == 0 ==> r.state == d
    ensures r.out.Ok? ==> r.state.queueSize == d.queueSize - 1
    ensures r.out.Throws? ==> r.state.queueSize == d.queueSize
    ensures r.out.Ok? && r.out.value.Some? ==> r.out.value in d.blocks[d.first].slots
    ensures r.state.blocks.Keys == d.blocks.Keys
    ensures r.out.Ok? ==>
      (r.state.first != d.first <==>
         IsEmpty(r.state.blocks[d.first]) && r.state.blocks[d.first].next.Some?)
    ensures r.state.first != d.first ==>
      r.state.blocks[d.first].next == Some(r.state.first) &&
      r.state.blocks[r.state.first].previous == None
    ensures r.state.last == d.last && r.state.maxQueueSize == d.maxQueueSize
  {
    if d.queueSize == 0 then Call(d, Throws(NoSuchElement))
    else
      var s := Arenas.RemoveFirstResult(d.blocks, d.first);
      if s.out.Throws? then Call(d.(blocks := s.arena), Throws(s.out.ex))
      else
        var d1 := d.(blocks := s.arena, queueSize := d.queueSize - 1);
        var f := s.arena[d.first];
        if IsEmpty(f) && f.next.Some? then
          var j := f.next.value;
          assert LinkOk(s.arena, d.first) && LinkOk(s.arena, j);
          Relink(s.arena, j, s.arena[j].(previous := None));
          Call(d1.(blocks := s.arena[j := s.arena[j].(previous := None)], first := j), s.out)
        else
          Call(d1, s.out)
  }

  /** `removeLast()`: an empty deque throws NoSuchElementException; a
      back block with no element throws on index -1 before anything
      changes; otherwise its highest element is taken, `queueSize` shrinks
      by one, and a back block left empty with a predecessor is replaced by
      that predecessor, whose `next` link is cleared. */
  function RemoveLastResult<E>(d: Deque<E>): (r: Call<E, Option<E>>)
    requires Valid(d)
    ensures Valid(r.state)
    ensures r.out == Throws(NoSuchElement) <==> d.queueSize == 0
    ensures r.out.Throws? ==> r.state == d
    ensures r.out.Ok? ==> r.state.queueSize == d.queueSize - 1
    ensures r.out.Ok? ==> r.out.value.Some? && r.out.value in d.blocks[d.last].slots
    ensures r.state.blocks.Keys == d.blocks.Keys
    ensures r.out.Ok? ==>
      Containers.RemoveLastResult(d.blocks[d.last]).Ok? &&
      r.state.blocks[d.last] == Containers.RemoveLastResult(d.blocks[d.last]).value.0
    ensures r.out.Ok? ==>
      (r.state.last != d.last <==>
         IsEmpty(r.state.blocks[d.last]) && r.state.blocks[d.last].previous.Some?)
    ensures r.state.last != d.last ==>
      d.blocks[d.last].previous == Some(r.state.last) &&
      r.state.blocks[r.state.last].next == None
    ensures r.state.first == d.first && r.state.maxQueueSize == d.maxQueueSize
  {
    if d.queueSize == 0 then Call(d, Throws(NoSuchElement))
    else
      var res := Containers.RemoveLastResult(d.blocks[d.last]);
      if res.Throws? then Call(d, Throws(res.ex))
      else
        var (c, v) := res.value;
        ReplaceBlock(d.blocks, d.last, c);
        var b := d.blocks[d.last := c];
        var d1 := d.(blocks := b, queueSize := d.queueSize - 1);
        if IsEmpty(c) && c.previous.Some? then
          var p := c.previous.value;
          assert LinkOk(b, d.last) && LinkOk(b, p);
          Relink(b, p, b[p].(next := None));
          Call(d1.(blocks := b[p := b[p].(next := None)], last := p), Ok(Some(v)))
        else
          Call(d1, Ok(Some(v)))
  }

  /** `pollFirst()`: `removeFirst()` with NoSuchElementException turned
      into null. */
  function PollFirstResult<E>(d: Deque<E>): (r: Call<E, Option<E>>)
    requires Valid(d)
    ensures Valid(r.state)
    ensures d.queueSize == 0 ==> r == Call(d, Ok(None))
    ensures d.queueSize != 0 ==> r == RemoveFirstResult(d)
  {
    var r := RemoveFirstResult(d);
    if r.out == Throws(NoSuchElement) then Call(r.state, Ok(None)) else r
  }

  /** `pollLast()`: `removeLast()` with NoSuchElementException turned into
      null. */
  function PollLastResult<E>(d: Deque<E>): (r: Call<E, Option<E>>)
    requires Valid(d)
    ensures Valid(r.state)
    ensures d.queueSize == 0 ==> r == Call(d, Ok(None))
    ensures d.queueSize != 0 ==> r == RemoveLastResult(d)
  {
    var r := RemoveLastResult(d);
    if r.out == Throws(NoSuchElement) then Call(r.state, Ok(None)) else r
  }

  /** `getFirst()`: NoSuchElementException on an empty deque, otherwise
      the front block's `getFirst`. */
  function GetFirstResult<E>(d: Deque<E>): (r: Outcome<Option<E>>)
    requires Valid(d)
    ensures r.Throws? <==> d.queueSize == 0
    ensures r.Throws? ==> r.ex == NoSuchElement
    ensures r.Ok? && r.value.Some? ==> r.value in d.blocks[d.first].slots
  {
    if d.queueSize == 0 then Throws(NoSuchElement)
    else
      var v := Containers.GetFirstResult(d.blocks[d.first]);
      assert v.Some? ==> v == d.blocks[d.first].slots[FirstUsed(d.blocks[d.first].slots)];
      Ok(v)
  }

  /** `getLast()`: NoSuchElementException on an empty deque, otherwise
      the back block's `getLast`. */
  function GetLastResult<E>(d: Deque<E>): (r: Outcome<Option<E>>)
    requires Valid(d)
    ensures r.Throws? <==> d.queueSize == 0
    ensures r.Throws? ==> r.ex == NoSuchElement
    ensures r.Ok? && r.value.Some? ==> r.value in d.blocks[d.last].slots
  {
    if d.queueSize == 0 then Throws(NoSuchElement)
    else
      var v := Containers.GetLastResult(d.blocks[d.last]);
      assert v.Some? ==> v == d.blocks[d.last].slots[LastUsed(d.blocks[d.last].slots)];
      Ok(v)
  }

  /** `peekFirst()`: `getFirst()` with NoSuchElementException turned into
      null. */
  function PeekFirstResult<E>(d: Deque<E>): (r: Option<E>)
    requires Valid(d)
    ensures d.queueSize == 0 ==> r == None
    ensures d.queueSize != 0 ==> Ok(r) == GetFirstResult(d)
  {
    match GetFirstResult(d)
    case Ok(v) => v
    case Throws(_) => None
  }

  /** `peekLast()`: `getLast()` with NoSuchElementException turned into
      null. */
  function PeekLastResult<E>(d: Deque<E>): (r: Option<E>)
    requires Valid(d)
    ensures d.queueSize == 0 ==> r == None
    ensures d.queueSize != 0 ==> Ok(r) == GetLastResult(d)
  {
    match GetLastResult(d)
    case Ok(v) => v
    case Throws(_) => None
  }

  // ---------------------------------------------------------------------
  // Occurrences, size, clear

  /** `removeFirstOccurrence(o)`: the forward walk from `first`; a removal
      decrements `queueSize`. */
  function RemoveFirstOccurrenceResult<E(==)>(d: Deque<E>, o: Option<E>): (r: Call<E, bool>)
    requires Valid(d)
    ensures Valid(r.state)
    ensures r.out == Ok(false) <==> !ContainsResult(d, o)
    ensures r.out == Ok(false) ==> r.state == d
    ensures r.state.queueSize == if r.out == Ok(true) then d.queueSize - 1 else d.queueSize
    ensures r.out.Throws? ==> r.out.ex == IndexOutOfBounds
    ensures r.state.first == d.first && r.state.last == d.last
    ensures r.state.maxQueueSize == d.maxQueueSize
  {
    var s := RemoveFirstOccurrenceFrom(d.blocks, d.first, o);
    Call(d.(blocks := s.arena, queueSize := if s.out == Ok(true) then d.queueSize - 1 else d.queueSize), s.out)
  }

  /** `removeLastOccurrence(o)`: the backward walk from `last`; a removal
      decrements `queueSize`. */
  function RemoveLastOccurrenceResult<E(==)>(d: Deque<E>, o: Option<E>): (r: Call<E, bool>)
    requires Valid(d)
    ensures Valid(r.state)
    ensures r.out == Ok(false) <==> !OccursBackFrom(d.blocks, d.last, o)
    ensures r.out == Ok(false) ==> r.state == d
    ensures r.state.queueSize == if r.out == Ok(true) then d.queueSize - 1 else d.queueSize
    ensures r.out.Throws? ==> r.out.ex == IndexOutOfBounds
    ensures r.state.first == d.first && r.state.last == d.last
    ensures r.state.maxQueueSize == d.maxQueueSize
  {
    var s := RemoveLastOccurrenceFrom(d.blocks, d.last, o);
    Call(d.(blocks := s.arena, queueSize := if s.out == Ok(true) then d.queueSize - 1 else d.queueSize), s.out)
  }

  /** `contains(o)`: some block of the forward walk from `first` counts
      `o`. */
  function ContainsResult<E(==)>(d: Deque<E>, o: Option<E>): (r: bool)
    requires Valid(d)
    ensures o in Counted(d.blocks[d.first]) ==> r
    ensures r ==> exists m :: m in d.blocks && d.first <= m && o in Counted(d.blocks[m])
  {
    ContainsFrom(d.blocks, d.first, o)
  }

  /** `clear()`: every block of the forward walk from `first` loses its
      links; a new empty block becomes both `first` and `last`, and
      `queueSize` is reset. */
  function ClearResult<E>(d: Deque<E>): (r: Deque<E>)
    requires Valid(d)
    ensures Valid(r) && r.first == r.last && r.first !in d.blocks
    ensures r.blocks[r.first] == NewContainer()
    ensures r.queueSize == 0 && r.maxQueueSize == d.maxQueueSize
  {
    var b := DetachFrom(d.blocks, d.first);
    var h := d.highest + 1;
    Relink(b, h, NewContainer());
    Deque(b[h := NewContainer()], h, h, 0, d.maxQueueSize, d.lowest, h)
  }
}
