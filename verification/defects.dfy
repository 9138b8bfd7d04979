/** Concrete call sequences on which `TripletDeque` departs from the
    `java.util.Deque` contract it implements. Each sequence stays within
    one block; the step lemmas follow it call by call. */
module Defects {
  import opened Outcomes
  import opened Containers
  import Arenas
  import opened DequeModel

  /** A deque of capacity `DEFAULT_QUEUE_SIZE` made of the single block 0. */
  function OneBlock(slots: Slots<int>, count: int, size: int): (d: Deque<int>)
    requires |slots| == ContainerSize && count <= ContainerSize
    ensures Valid(d) && d.first == 0 && d.last == 0
  {
    Deque(map[0 := Container(slots, count, None, None)], 0, 0, size, DefaultQueueSize, 0, 0)
  }

  const Empty: Slots<int> := [None, None, None, None, None]

  lemma FreshIsOneBlock()
    ensures Fresh<int>(DefaultQueueSize) == OneBlock(Empty, 0, 0)
  {
  }

  // ---------------------------------------------------------------------
  // Steps

  lemma OfferFirst1()
    ensures OfferFirstResult(OneBlock(Empty, 0, 0), Some(1)) ==
      Call(OneBlock([None, None, None, None, Some(1)], 1, 1), Ok(true))
  {
    LastFreeUnique(Empty, 4);
    assert ShiftedUp(Empty, 4)[4 := Some(1)] == [None, None, None, None, Some(1)];
  }

  lemma OfferFirst2()
    ensures OfferFirstResult(OneBlock([None, None, None, None, Some(1)], 1, 1), Some(2)) ==
      Call(OneBlock([None, None, None, Some(2), Some(1)], 2, 2), Ok(true))
  {
    var a := [None, None, None, None, Some(1)];
    LastFreeUnique(a, 3);
    assert ShiftedUp(a, 3)[3 := Some(2)] == [None, None, None, Some(2), Some(1)];
  }

  lemma RemoveLast1()
    ensures DequeModel.RemoveLastResult(OneBlock([None, None, None, Some(2), Some(1)], 2, 2)) ==
      Call(OneBlock([None, None, None, Some(2), None], 1, 1), Ok(Some(1)))
  {
    var a: Slots<int> := [None, None, None, Some(2), Some(1)];
    LastUsedUnique(a, 4);
    assert a[4 := None] == [None, None, None, Some(2), None];
  }

  lemma OfferFirst4()
    ensures OfferFirstResult(OneBlock([None, None, None, Some(2), None], 1, 1), Some(4)) ==
      Call(OneBlock([None, None, None, None, Some(4)], 2, 2), Ok(true))
  {
    var a := [None, None, None, Some(2), None];
    LastFreeUnique(a, 4);
    assert ShiftedUp(a, 4)[4 := Some(4)] == [None, None, None, None, Some(4)];
  }

  lemma RemoveLast4()
    ensures DequeModel.RemoveLastResult(OneBlock([None, None, None, None, Some(4)], 2, 2)) ==
      Call(OneBlock(Empty, 1, 1), Ok(Some(4)))
  {
    var a: Slots<int> := [None, None, None, None, Some(4)];
    LastUsedUnique(a, 4);
    assert a[4 := None] == Empty;
  }

  lemma RemoveFirstNothing()
    ensures DequeModel.RemoveFirstResult(OneBlock(Empty, 1, 1)) ==
      Call(OneBlock(Empty, 1, 0), Ok(None))
  {
    FirstUsedUnique(Empty, 5);
  }

  lemma RemoveNullOccurrence()
    ensures RemoveFirstOccurrenceResult(OneBlock(Empty, 1, 0), None) ==
      Call(OneBlock(Empty, 0, -1), Ok(true))
  {
    var d := OneBlock(Empty, 1, 0);
    var c := d.blocks[0];
    assert Arenas.Counted(c) == [None];
    Arenas.IndexOfUnique(Arenas.Counted(c), None, 0);
    assert ShiftedDown(Empty, 0, 1)[0 := None] == Empty;
    assert IndexClosed(c, 0) == Container(Empty, 0, None, None);
    assert Arenas.RemoveByIndexResult(d.blocks, 0, 0) == Arenas.Step(OneBlock(Empty, 0, 0).blocks, Ok(()));
  }

  lemma TwoLost()
    ensures !ContainsResult(OneBlock([None, None, None, None, Some(4)], 2, 2), Some(2))
  {
    var d := OneBlock([None, None, None, None, Some(4)], 2, 2);
    assert Arenas.Counted(d.blocks[0]) == [None, None];
  }

  lemma PollFront2()
    ensures PollFirstResult(OneBlock([None, None, None, Some(2), Some(1)], 2, 2)) ==
      Call(OneBlock([None, None, None, Some(2), Some(1)], 1, 1), Ok(Some(2)))
  {
    var d := OneBlock([None, None, None, Some(2), Some(1)], 2, 2);
    var b := d.blocks[0];
    FirstUsedUnique(b.slots, 3);
    assert ShiftedDown(b.slots, 3, 2)[1 := None] == b.slots;
    assert Arenas.RemoveByIndexResult(d.blocks, 0, 3) == Arenas.Step(OneBlock(b.slots, 1, 0).blocks, Ok(()));
  }

  lemma PollFront2Again()
    ensures PollFirstResult(OneBlock([None, None, None, Some(2), Some(1)], 1, 1)) ==
      Call(OneBlock([None, None, None, Some(2), Some(1)], 0, 0), Ok(Some(2)))
  {
    var d := OneBlock([None, None, None, Some(2), Some(1)], 1, 1);
    var b := d.blocks[0];
    FirstUsedUnique(b.slots, 3);
    assert ShiftedDown(b.slots, 3, 1)[0 := None] == b.slots;
    assert Arenas.RemoveByIndexResult(d.blocks, 0, 3) == Arenas.Step(OneBlock(b.slots, 0, 0).blocks, Ok(()));
  }

  /** `offerLast(x)` into a single block that is not full. */
  lemma OfferLastInto(slots: Slots<int>, n: int, x: int)
    requires |slots| == ContainerSize && 0 <= n < ContainerSize
    ensures OfferLastResult(OneBlock(slots, n, n), Some(x)) ==
      Call(OneBlock(slots[n := Some(x)], n + 1, n + 1), Ok(true))
  {
  }

  const Five: Slots<int> := [Some(1), Some(2), Some(3), Some(4), Some(5)]

  /** After `offerLast` of 1 to 6: a full block 0 and block 1 holding 6. */
  function SixOffered(): Deque<int>
  {
    Deque(map[0 := Container(Five, 5, Some(1), None),
              1 := Container([Some(6), None, None, None, None], 1, None, Some(0))],
          0, 1, 6, DefaultQueueSize, 0, 1)
  }

  /** After the `pollFirst()` that follows: block 0 has borrowed the 6 and
      dropped its link to the drained block 1, which is still `last`. */
  function AfterPoll(): Deque<int>
  {
    Deque(map[0 := Container([Some(2), Some(3), Some(4), Some(5), Some(6)], 5, None, None),
              1 := Container(Empty, 0, None, Some(0))],
          0, 1, 5, DefaultQueueSize, 0, 1)
  }

  /** After `offerLast(7)`: the 7 sits in block 1, off the forward walk. */
  function SevenOffered(): Deque<int>
  {
    Deque(map[0 := Container([Some(2), Some(3), Some(4), Some(5), Some(6)], 5, None, None),
              1 := Container([Some(7), None, None, None, None], 1, None, Some(0))],
          0, 1, 6, DefaultQueueSize, 0, 1)
  }

  lemma OfferLast1To5()
    ensures var d1 := OfferLastResult(Fresh<int>(DefaultQueueSize), Some(1)).state;
            var d2 := OfferLastResult(d1, Some(2)).state;
            var d3 := OfferLastResult(d2, Some(3)).state;
            var d4 := OfferLastResult(d3, Some(4)).state;
            OfferLastResult(d4, Some(5)).state == OneBlock(Five, 5, 5)
  {
    FreshIsOneBlock();
    OfferLastInto(Empty, 0, 1);
    var a1 := Empty[0 := Some(1)];
    OfferLastInto(a1, 1, 2);
    var a2 := a1[1 := Some(2)];
    OfferLastInto(a2, 2, 3);
    var a3 := a2[2 := Some(3)];
    OfferLastInto(a3, 3, 4);
    var a4 := a3[3 := Some(4)];
    OfferLastInto(a4, 4, 5);
    assert a4[4 := Some(5)] == Five;
  }

  lemma OfferLast6()
    ensures OfferLastResult(OneBlock(Five, 5, 5), Some(6)) == Call(SixOffered(), Ok(true))
  {
    assert Empty[0 := Some(6)] == [Some(6), None, None, None, None];
  }

  lemma PollAcrossBlocks()
    ensures PollFirstResult(SixOffered()) == Call(AfterPoll(), Ok(Some(1)))
  {
    var d := SixOffered();
    FirstUsedUnique(Five, 0);
    var c1 := IndexClosed(d.blocks[0], 0);
    assert c1.slots == [Some(2), Some(3), Some(4), Some(5), None];
    var arena1 := d.blocks[0 := c1];
    var six := arena1[1];
    FirstUsedUnique(six.slots, 0);
    assert IndexClosed(six, 0) == Container(Empty, 0, None, Some(0));
    assert Arenas.RemoveByIndexResult(arena1, 1, 0) == Arenas.Step(arena1[1 := IndexClosed(six, 0)], Ok(()));
    assert Arenas.RemoveFirstResult(arena1, 1) == Arenas.Step(arena1[1 := IndexClosed(six, 0)], Ok(Some(6)));
    assert c1.slots[4 := Some(6)] == [Some(2), Some(3), Some(4), Some(5), Some(6)];
    assert Arenas.RemoveByIndexResult(d.blocks, 0, 0) == Arenas.Step(AfterPoll().blocks, Ok(()));
  }

  lemma OfferLast7()
    ensures OfferLastResult(AfterPoll(), Some(7)) == Call(SevenOffered(), Ok(true))
  {
    assert Empty[0 := Some(7)] == [Some(7), None, None, None, None];
  }

  lemma SevenUnreachable()
    ensures !ContainsResult(SevenOffered(), Some(7))
  {
    var b := SevenOffered().blocks[0];
    assert Arenas.Counted(b) == b.slots;
  }

  // ---------------------------------------------------------------------
  // The sequences

  /** `offerFirst(1)`, `offerFirst(2)`, then `pollFirst()` twice: both polls
      return 2. The front block's `addFirst` keeps its elements at the high
      end of its slots, while `removeByIndex` clears the slot at
      `elementsCount - 1`, at the low end, so the 2 is never cleared. */
  lemma FrontPollRepeats()
    ensures var d0 := Fresh<int>(DefaultQueueSize);
            var c1 := OfferFirstResult(d0, Some(1));
            var c2 := OfferFirstResult(c1.state, Some(2));
            var p1 := PollFirstResult(c2.state);
            var p2 := PollFirstResult(p1.state);
            p1.out == Ok(Some(2)) && p2.out == Ok(Some(2)) && p2.state.queueSize == 0
  {
    FreshIsOneBlock();
    OfferFirst1();
    OfferFirst2();
    PollFront2();
    PollFront2Again();
  }

  /** `offerFirst(1)`, `offerFirst(2)`, `removeLast()`, `offerFirst(4)`,
      `removeLast()`, `removeFirst()`, `removeFirstOccurrence(null)`. After
      the first `removeLast` the block's highest slot is free again, so
      `offerFirst(4)` shifts the 2 out of the block: the deque no longer
      contains 2 though nothing removed it. `removeFirst()` then finds no
      element and returns null while the block still counts one slot, and
      removing null from that slot takes `size()` to -1. */
  lemma NegativeSize()
    ensures var d0 := Fresh<int>(DefaultQueueSize);
            var c1 := OfferFirstResult(d0, Some(1));
            var c2 := OfferFirstResult(c1.state, Some(2));
            var r1 := DequeModel.RemoveLastResult(c2.state);
            var c3 := OfferFirstResult(r1.state, Some(4));
            var r2 := DequeModel.RemoveLastResult(c3.state);
            var r3 := DequeModel.RemoveFirstResult(r2.state);
            var o := RemoveFirstOccurrenceResult(r3.state, None);
            c3.out == Ok(true) && !ContainsResult(c3.state, Some(2)) &&
            r3.out == Ok(None) && o.out == Ok(true) && o.state.queueSize == -1
  {
    FreshIsOneBlock();
    OfferFirst1();
    OfferFirst2();
    RemoveLast1();
    OfferFirst4();
    TwoLost();
    RemoveLast4();
    RemoveFirstNothing();
    RemoveNullOccurrence();
  }

  /** `offerLast` of 1 to 6, `pollFirst()`, `offerLast(7)`: the poll
      drains block 1 into block 0 and unlinks it, but `last` still names
      it, so the accepted 7 goes into a block no forward walk reaches and
      `contains(7)` is false. */
  lemma DanglingLast()
    ensures var d1 := OfferLastResult(Fresh<int>(DefaultQueueSize), Some(1)).state;
            var d2 := OfferLastResult(d1, Some(2)).state;
            var d3 := OfferLastResult(d2, Some(3)).state;
            var d4 := OfferLastResult(d3, Some(4)).state;
            var d5 := OfferLastResult(d4, Some(5)).state;
            var c6 := OfferLastResult(d5, Some(6));
            var p := PollFirstResult(c6.state);
            var c7 := OfferLastResult(p.state, Some(7));
            c6.out == Ok(true) && p.out == Ok(Some(1)) && c7.out == Ok(true) &&
            c7.state.queueSize == 6 && !ContainsResult(c7.state, Some(7))
  {
    OfferLast1To5();
    OfferLast6();
    PollAcrossBlocks();
    OfferLast7();
    SevenUnreachable();
  }
}
