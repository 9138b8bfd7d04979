/** What the deque promises, proved on the model: the capacity bound, the
    behaviour of an empty deque, queue behaviour (first in, first out,
    removal of an occurrence, `contains`) while elements enter only at the
    back, which keeps the chain packed, and the behaviour of the back end
    while `last` ends that chain. */
module DequeProperties {
  import opened Outcomes
  import opened Containers
  import opened Arenas
  import opened Chains
  import opened Packing
  import opened DequeModel

  // ---------------------------------------------------------------------
  // The packed regime at the level of the deque

  /** The chain from `first` is packed and `queueSize` counts what it
      spells. */
  ghost predicate Packed<E>(d: Deque<E>)
  {
    Valid(d) && PackedFrom(d.blocks, d.first) &&
    d.queueSize == |Values(d.blocks, d.first)|
  }

  /** The elements of a packed deque, front to back. */
  ghost function Contents<E>(d: Deque<E>): seq<E>
    requires Packed(d)
  {
    Values(d.blocks, d.first)
  }

  /** `last` is where the chain from `first` ends. */
  ghost predicate AtEnd<E>(d: Deque<E>)
    requires Valid(d)
  {
    d.last == ChainEnd(d.blocks, d.first)
  }

  lemma FreshPacked<E>(maxQueueSize: int)
    ensures var d := Fresh<E>(maxQueueSize);
      Packed(d) && AtEnd(d) && BackShaped(d) && Contents(d) == []
  {
    var d := Fresh<E>(maxQueueSize);
    assert Elems(d.blocks[d.first]) == [];
  }

  /** `offerLast(x)` on a packed deque whose `last` ends the chain, below
      capacity, is accepted and appends `x`. */
  lemma OfferLastPacked<E>(d: Deque<E>, x: E)
    requires Packed(d) && AtEnd(d) && d.queueSize < d.maxQueueSize
    ensures var r := OfferLastResult(d, Some(x));
      r.out == Ok(true) && Packed(r.state) && AtEnd(r.state) &&
      Contents(r.state) == Contents(d) + [x]
  {
    if IsFull(d.blocks[d.last]) {
      OfferLastGrows(d, x);
    } else {
      AppendAtEnd(d.blocks, d.first, x);
      PackedEnd(d.blocks, d.first);
    }
  }

  /** The case of `OfferLastPacked` where the final block is full: `x`
      goes into a new block linked after it. */
  lemma OfferLastGrows<E>(d: Deque<E>, x: E)
    requires Packed(d) && AtEnd(d) && d.queueSize < d.maxQueueSize && IsFull(d.blocks[d.last])
    ensures var r := OfferLastResult(d, Some(x));
      r.out == Ok(true) && Packed(r.state) && AtEnd(r.state) &&
      Contents(r.state) == Contents(d) + [x]
  {
    var r := OfferLastResult(d, Some(x));
    var e := d.last;
    var g := GrowBack(d);
    ExtendEnd(d.blocks, d.first, g.last, x);
    var c := AddLastResult(g.blocks[g.last], x).value;
    assert c == Container([Some(x), None, None, None, None], 1, None, Some(e));
    assert r.state == g.(blocks := g.blocks[g.last := c], queueSize := d.queueSize + 1);
    assert r.state.blocks == Grown(d.blocks, e, g.last, x);
  }

  /** `removeFirst()` on a packed deque: NoSuchElementException when it is
      empty, and otherwise its front element, which leaves it. */
  lemma RemoveFirstOnPacked<E>(d: Deque<E>)
    requires Packed(d)
    ensures var r := DequeModel.RemoveFirstResult(d);
      if Contents(d) == [] then r == Call(d, Throws(NoSuchElement))
      else
        r.out == Ok(Some(Contents(d)[0])) && Packed(r.state) &&
        Contents(r.state) == Contents(d)[1..] && r.state.first == d.first
  {
    if Contents(d) != [] {
      RemoveFirstPacked(d.blocks, d.first);
      var s := Arenas.RemoveFirstResult(d.blocks, d.first);
      var f := s.arena[d.first];
      if IsEmpty(f) {
        EmptyBlockEndsChain(s.arena, d.first);
      }
    }
  }

  /** `pollFirst()` on a packed deque: null when it is empty, and otherwise
      its front element, which leaves it. */
  lemma PollFirstOnPacked<E>(d: Deque<E>)
    requires Packed(d)
    ensures var r := PollFirstResult(d);
      if Contents(d) == [] then r == Call(d, Ok(None))
      else
        r.out == Ok(Some(Contents(d)[0])) && Packed(r.state) &&
        Contents(r.state) == Contents(d)[1..]
  {
    RemoveFirstOnPacked(d);
  }

  /** `peekFirst()` on a packed deque sees its front element. */
  lemma PeekFirstOnPacked<E>(d: Deque<E>)
    requires Packed(d)
    ensures PeekFirstResult(d) == if Contents(d) == [] then None else Some(Contents(d)[0])
  {
    var c := d.blocks[d.first];
    PeeksLeftAligned(c);
    ValuesFront(d.blocks, d.first);
    if c.elementsCount == 0 {
      EmptyBlockEndsChain(d.blocks, d.first);
    }
  }

  /** `contains(o)` on a packed deque: true exactly for its non-null
      elements. */
  lemma ContainsOnPacked<E>(d: Deque<E>, o: Option<E>)
    requires Packed(d)
    ensures ContainsResult(d, o) <==> o.Some? && o.value in Contents(d)
  {
    ContainsPacked(d.blocks, d.first, o);
  }

  /** `removeFirstOccurrence(o)` on a packed deque removes the first
      occurrence of `o`, keeps the order of the rest and decrements
      `queueSize`; for null or an absent value it returns false and changes
      nothing. */
  lemma RemoveFirstOccurrenceOnPacked<E>(d: Deque<E>, o: Option<E>)
    requires Packed(d)
    ensures var r := RemoveFirstOccurrenceResult(d, o);
      if o.Some? && o.value in Contents(d) then
        var i := FirstIndexOf(Contents(d), o.value);
        r.out == Ok(true) && Packed(r.state) &&
        Contents(r.state) == Contents(d)[..i] + Contents(d)[i + 1..]
      else
        r == Call(d, Ok(false))
  {
    RemoveFirstOccurrencePacked(d.blocks, d.first, o);
    var s := RemoveFirstOccurrenceFrom(d.blocks, d.first, o);
    assert RemoveFirstOccurrenceResult(d, o).state.blocks == s.arena;
  }

  /** `clear()` leaves an empty packed deque with one block, `first ==
      last`, and the capacity it had. */
  lemma ClearEmpties<E>(d: Deque<E>)
    requires Valid(d)
    ensures var r := ClearResult(d);
      Packed(r) && AtEnd(r) && Contents(r) == [] && r.queueSize == 0 &&
      r.first == r.last && r.maxQueueSize == d.maxQueueSize
  {
    var r := ClearResult(d);
    assert Elems(r.blocks[r.first]) == [];
  }

  /** After `clear()`, `offerLast(x)` succeeds (when the capacity is
      positive) and `peekFirst()` returns `x`. */
  lemma ClearThenOfferPeek<E>(d: Deque<E>, x: E)
    requires Valid(d) && d.maxQueueSize > 0
    ensures var r := OfferLastResult(ClearResult(d), Some(x));
      r.out == Ok(true) && PeekFirstResult(r.state) == Some(x)
  {
    var c := ClearResult(d);
    ClearEmpties(d);
    OfferLastPacked(c, x);
    PeekFirstOnPacked(OfferLastResult(c, Some(x)).state);
  }

  // ---------------------------------------------------------------------
  // First in, first out

  /** `offerLast` of each element of `xs` in turn, with the outcomes. */
  ghost function OfferLastAll<E>(d: Deque<E>, xs: seq<E>): (r: (Deque<E>, seq<Outcome<bool>>))
    requires Valid(d)
    ensures Valid(r.0) && |r.1| == |xs|
    decreases |xs|
  {
    if xs == [] then (d, [])
    else
      var r := OfferLastResult(d, Some(xs[0]));
      var rest := OfferLastAll(r.state, xs[1..]);
      (rest.0, [r.out] + rest.1)
  }

  /** `pollFirst` `n` times, with the outcomes. */
  ghost function PollFirstAll<E>(d: Deque<E>, n: nat): (r: (Deque<E>, seq<Outcome<Option<E>>>))
    requires Valid(d)
    ensures Valid(r.0) && |r.1| == n
    decreases n
  {
    if n == 0 then (d, [])
    else
      var r := PollFirstResult(d);
      var rest := PollFirstAll(r.state, n - 1);
      (rest.0, [r.out] + rest.1)
  }

  lemma {:induction false} OfferLastAllPacked<E>(d: Deque<E>, xs: seq<E>)
    requires Packed(d) && AtEnd(d) && d.queueSize + |xs| <= d.maxQueueSize
    ensures var (d', outs) := OfferLastAll(d, xs);
      Packed(d') && AtEnd(d') && Contents(d') == Contents(d) + xs &&
      (forall i :: 0 <= i < |outs| ==> outs[i] == Ok(true)) && d'.maxQueueSize == d.maxQueueSize
    decreases |xs|
  {
    if xs != [] {
      var r := OfferLastResult(d, Some(xs[0]));
      OfferLastPacked(d, xs[0]);
      OfferLastAllPacked(r.state, xs[1..]);
      var rest := OfferLastAll(r.state, xs[1..]);
      assert OfferLastAll(d, xs) == (rest.0, [r.out] + rest.1);
      HeadBack(Contents(d), xs);
      AllAccepted(r.out, rest.1);
    }
  }

  /** An accepted offer followed by accepted offers: all accepted. */
  lemma AllAccepted(first: Outcome<bool>, rest: seq<Outcome<bool>>)
    requires first == Ok(true) && forall i :: 0 <= i < |rest| ==> rest[i] == Ok(true)
    ensures forall i :: 0 <= i < |[first] + rest| ==> ([first] + rest)[i] == Ok(true)
  {
  }

  /** The outcomes of polling the elements `xs` one by one. */
  function Polled<E>(xs: seq<E>): (outs: seq<Outcome<Option<E>>>)
    ensures |outs| == |xs|
    ensures forall i :: 0 <= i < |xs| ==> outs[i] == Ok(Some(xs[i]))
  {
    if xs == [] then [] else [Ok(Some(xs[0]))] + Polled(xs[1..])
  }

  lemma {:induction false} PollFirstAllPacked<E>(d: Deque<E>, n: nat)
    requires Packed(d) && n <= |Contents(d)|
    ensures var (d', outs) := PollFirstAll(d, n);
      Packed(d') && Contents(d') == Contents(d)[n..] && outs == Polled(Contents(d)[..n])
    decreases n
  {
    if n > 0 {
      var C := Contents(d);
      var r := PollFirstResult(d);
      PollFirstOnPacked(d);
      PollFirstAllPacked(r.state, n - 1);
      var rest := PollFirstAll(r.state, n - 1);
      assert PollFirstAll(d, n) == (rest.0, [r.out] + rest.1);
      PolledSplit(C, n);
    }
  }

  /** Polling the first `n` elements of `C` is polling its first element,
      then the first `n - 1` of the rest. */
  lemma PolledSplit<E>(C: seq<E>, n: nat)
    requires 0 < n <= |C|
    ensures C[1..][n - 1..] == C[n..]
    ensures Polled(C[..n]) == [Ok(Some(C[0]))] + Polled(C[1..][..n - 1])
  {
    assert C[..n][1..] == C[1..][..n - 1];
  }

  /** Offering `xs` at the back of a new deque with room for them, then
      polling as many times at the front, gives `xs` back in order, after
      which the deque is empty: `removeFirst()` throws and `pollFirst()`
      returns null. */
  lemma FifoRoundTrip<E>(maxQueueSize: int, xs: seq<E>)
    requires |xs| <= maxQueueSize
    ensures var offered := OfferLastAll(Fresh<E>(maxQueueSize), xs);
      (forall i :: 0 <= i < |xs| ==> offered.1[i] == Ok(true)) &&
      var polled := PollFirstAll(offered.0, |xs|);
      polled.1 == Polled(xs) &&
      polled.0.queueSize == 0 &&
      DequeModel.RemoveFirstResult(polled.0).out == Throws(NoSuchElement) &&
      PollFirstResult(polled.0) == Call(polled.0, Ok(None))
  {
    var d0 := Fresh<E>(maxQueueSize);
    FreshPacked<E>(maxQueueSize);
    OfferLastAllPacked(d0, xs);
    var d := OfferLastAll(d0, xs).0;
    assert Contents(d) == xs;
    PollAllOut(d);
  }

  /** Polling a packed deque as many times as it has elements gives them
      back in order and leaves it empty. */
  lemma PollAllOut<E>(d: Deque<E>)
    requires Packed(d)
    ensures var polled := PollFirstAll(d, |Contents(d)|);
      polled.1 == Polled(Contents(d)) &&
      polled.0.queueSize == 0 &&
      DequeModel.RemoveFirstResult(polled.0).out == Throws(NoSuchElement) &&
      PollFirstResult(polled.0) == Call(polled.0, Ok(None))
  {
    var xs := Contents(d);
    PollFirstAllPacked(d, |xs|);
    assert xs[..|xs|] == xs;
    var d' := PollFirstAll(d, |xs|).0;
    assert Contents(d') == [];
    RemoveFirstOnPacked(d');
    PollFirstOnPacked(d');
  }

  /** Once a deque holds `maxQueueSize` elements, offers at either end
      return false and change nothing. */
  lemma OffersRefusedAtCapacity<E>(maxQueueSize: int, xs: seq<E>, x: E)
    requires |xs| == maxQueueSize
    ensures var d := OfferLastAll(Fresh<E>(maxQueueSize), xs).0;
      OfferLastResult(d, Some(x)) == Call(d, Ok(false)) &&
      OfferFirstResult(d, Some(x)) == Call(d, Ok(false))
  {
    FreshPacked<E>(maxQueueSize);
    OfferLastAllPacked(Fresh<E>(maxQueueSize), xs);
  }

  // ---------------------------------------------------------------------
  // The back end

  /** `first` has no predecessor and every `next` link of the chain from
      it is answered by the `previous` link coming back. */
  ghost predicate BackLinked<E>(d: Deque<E>)
    requires Valid(d)
  {
    d.blocks[d.first].previous.None? && BackLinkedFrom(d.blocks, d.first)
  }

  /** The shape that `offerLast` and `removeLast` keep: packed, `last`
      ending the chain, the links matched both ways, and a back block that
      holds an element unless the deque is empty. */
  ghost predicate BackShaped<E>(d: Deque<E>)
  {
    Packed(d) && AtEnd(d) && BackLinked(d) &&
    (d.blocks[d.last].elementsCount > 0 || Contents(d) == [])
  }

  /** `offerLast(x)` keeps the back shape. */
  lemma OfferLastShaped<E>(d: Deque<E>, x: E)
    requires BackShaped(d) && d.queueSize < d.maxQueueSize
    ensures var r := OfferLastResult(d, Some(x));
      r.out == Ok(true) && BackShaped(r.state) && Contents(r.state) == Contents(d) + [x]
  {
    OfferLastPacked(d, x);
    if IsFull(d.blocks[d.last]) {
      OfferLastLinksNew(d, x);
    } else {
      OfferLastLinksSame(d, x);
    }
  }

  /** `offerLast(x)` into a back block with room changes no link. */
  lemma OfferLastLinksSame<E>(d: Deque<E>, x: E)
    requires Packed(d) && AtEnd(d) && BackLinked(d)
    requires d.queueSize < d.maxQueueSize && !IsFull(d.blocks[d.last])
    ensures var r := OfferLastResult(d, Some(x)).state;
      BackLinked(r) && r.blocks[r.last].elementsCount > 0
  {
    var r := OfferLastResult(d, Some(x)).state;
    var a := d.blocks;
    var e := d.last;
    ValuesLast(a, d.first);
    assert AddLastResult(a[e], x).Ok?;
    assert r.last == e && r.blocks == a[e := AddLastResult(a[e], x).value];
    assert BackLinkedFrom(r.blocks, e);
    BackLinkedKept(a, r.blocks, d.first);
  }

  /** `offerLast(x)` into a full back block links a new block after it,
      both ways. */
  lemma OfferLastLinksNew<E>(d: Deque<E>, x: E)
    requires Packed(d) && AtEnd(d) && BackLinked(d)
    requires d.queueSize < d.maxQueueSize && IsFull(d.blocks[d.last])
    ensures var r := OfferLastResult(d, Some(x)).state;
      BackLinked(r) && r.blocks[r.last].elementsCount > 0
  {
    var r := OfferLastResult(d, Some(x)).state;
    var a := d.blocks;
    var e := d.last;
    var g := GrowBack(d);
    var c := AddLastResult(g.blocks[g.last], x).value;
    assert c == Container([Some(x), None, None, None, None], 1, None, Some(e));
    assert r == g.(blocks := g.blocks[g.last := c], queueSize := d.queueSize + 1);
    var h := g.last;
    assert r.blocks[e].next == Some(h) && r.blocks[h].previous == Some(e);
    assert BackLinkedFrom(r.blocks, h);
    assert BackLinkedFrom(r.blocks, e);
    BackLinkedKept(a, r.blocks, d.first);
  }

  /** `peekLast()` and `getLast()` on a packed deque whose `last` ends the
      chain: the back element when the back block holds one, and null when
      the deque is empty. */
  lemma PeekLastOnPacked<E>(d: Deque<E>)
    requires Packed(d) && AtEnd(d)
    ensures var C := Contents(d);
      d.blocks[d.last].elementsCount > 0 ==>
        C != [] && DequeModel.GetLastResult(d) == Ok(Some(C[|C| - 1])) &&
        PeekLastResult(d) == Some(C[|C| - 1])
    ensures Contents(d) == [] ==>
      DequeModel.GetLastResult(d) == Throws(NoSuchElement) && PeekLastResult(d) == None
  {
    var c := d.blocks[d.last];
    ValuesLast(d.blocks, d.first);
    PeeksLeftAligned(c);
  }

  /** `removeLast()` on a packed deque whose `last` ends the chain and
      which is not empty: its back element when the back block holds one,
      and otherwise the read of index -1, which fails before anything
      changes. */
  lemma RemoveLastValueOnPacked<E>(d: Deque<E>)
    requires Packed(d) && AtEnd(d) && Contents(d) != []
    ensures var r := DequeModel.RemoveLastResult(d); var C := Contents(d);
      if d.blocks[d.last].elementsCount > 0 then r.out == Ok(Some(C[|C| - 1]))
      else r == Call(d, Throws(IndexOutOfBounds))
  {
    var c := d.blocks[d.last];
    ValuesLast(d.blocks, d.first);
    if c.elementsCount > 0 {
      RemoveLastLeftAligned(c);
    } else {
      LastUsedUnique(c.slots, -1);
    }
  }

  /** `removeLast()` on a deque of back shape: NoSuchElementException when
      it is empty, and otherwise its back element, which leaves it, the
      shape being kept. */
  lemma RemoveLastOnShaped<E>(d: Deque<E>)
    requires BackShaped(d)
    ensures var r := DequeModel.RemoveLastResult(d); var C := Contents(d);
      if C == [] then r == Call(d, Throws(NoSuchElement))
      else
        r.out == Ok(Some(C[|C| - 1])) && BackShaped(r.state) &&
        Contents(r.state) == C[..|C| - 1]
  {
    var c := d.blocks[d.last];
    if Contents(d) != [] {
      if c.elementsCount == 1 && c.previous.Some? {
        RemoveLastDrains(d);
      } else {
        RemoveLastKeepsBlock(d);
      }
    }
  }

  /** The case of `RemoveLastOnShaped` where `last` stays: the back block
      keeps an element, or it is also the front block. */
  lemma RemoveLastKeepsBlock<E>(d: Deque<E>)
    requires BackShaped(d) && Contents(d) != []
    requires d.blocks[d.last].elementsCount != 1 || d.blocks[d.last].previous.None?
    ensures var r := DequeModel.RemoveLastResult(d); var C := Contents(d);
      r.out == Ok(Some(C[|C| - 1])) && BackShaped(r.state) &&
      Contents(r.state) == C[..|C| - 1]
  {
    var c := d.blocks[d.last];
    ValuesLast(d.blocks, d.first);
    RemoveLastLeftAligned(c);
    var (c1, v) := Containers.RemoveLastResult(c).value;
    var b := d.blocks[d.last := c1];
    var r := DequeModel.RemoveLastResult(d);
    assert r == Call(d.(blocks := b, queueSize := d.queueSize - 1), Ok(Some(v)));
    KeptBlockChain(d, b);
  }

  /** The chain after the back block of a deque of back shape loses its
      last element in place: the chain keeps its shape and end, and spells
      the contents without their last element. */
  lemma KeptBlockChain<E>(d: Deque<E>, b: Arena<E>)
    requires BackShaped(d) && Contents(d) != []
    requires d.blocks[d.last].elementsCount != 1 || d.blocks[d.last].previous.None?
    requires Linked(b) && d.last in b && b == d.blocks[d.last := b[d.last]]
    requires var c := d.blocks[d.last]; var c1 := b[d.last];
      c1.next == c.next && c1.previous == c.previous && LeftAligned(c1) &&
      LeftAligned(c) && c.elementsCount > 0 && Elems(c1) == Elems(c)[..c.elementsCount - 1]
    ensures d.first in b && PackedFrom(b, d.first) && BackLinkedFrom(b, d.first) &&
      ChainEnd(b, d.first) == d.last && b[d.first].previous.None?
    ensures b[d.last].elementsCount > 0 || Values(b, d.first) == []
    ensures var C := Contents(d);
      C[|C| - 1] == Elems(d.blocks[d.last])[d.blocks[d.last].elementsCount - 1] &&
      Values(b, d.first) == C[..|C| - 1]
  {
    var a := d.blocks;
    var e := d.last;
    var c := a[e];
    ValuesLast(a, d.first);
    ShrinkEnd(a, b, d.first);
    DropLastOf(Prefix(a, d.first), Elems(c), Contents(d));
    if b[e].elementsCount == 0 && e != d.first {
      EndLinksBack(a, d.first);
    }
  }
  /** The case of `RemoveLastOnShaped` where the back block loses its only
      element and has a predecessor: that predecessor, a full block,
      becomes `last` and ends the chain. */
  lemma RemoveLastDrains<E>(d: Deque<E>)
    requires BackShaped(d)
    requires d.blocks[d.last].elementsCount == 1 && d.blocks[d.last].previous.Some?
    ensures var r := DequeModel.RemoveLastResult(d); var C := Contents(d);
      C != [] && r.out == Ok(Some(C[|C| - 1])) && BackShaped(r.state) &&
      Contents(r.state) == C[..|C| - 1]
  {
    var a := d.blocks;
    var e := d.last;
    var c := a[e];
    var p := c.previous.value;
    ValuesLast(a, d.first);
    RemoveLastLeftAligned(c);
    var (c1, v) := Containers.RemoveLastResult(c).value;
    var b := a[e := c1];
    var bb := b[p := b[p].(next := None)];
    var r := DequeModel.RemoveLastResult(d);
    assert r == Call(d.(blocks := bb, queueSize := d.queueSize - 1, last := p), Ok(Some(v)));
    DrainedChain(d, bb);
    DropLastOf(Prefix(a, d.first), Elems(c), Contents(d));
    assert Elems(c)[..0] == [];
  }

  /** The chain part of `RemoveLastDrains`: with the back block emptied and
      its predecessor's `next` link cut, the chain ends at that
      predecessor, a full block, and spells everything before the back
      block. */
  lemma DrainedChain<E>(d: Deque<E>, bb: Arena<E>)
    requires BackShaped(d)
    requires d.blocks[d.last].elementsCount == 1 && d.blocks[d.last].previous.Some?
    requires Linked(bb) && d.blocks.Keys == bb.Keys
    requires var p := d.blocks[d.last].previous.value;
      p in d.blocks && bb[p] == d.blocks[p].(next := None) &&
      forall m :: m in d.blocks && m != d.last && m != p ==> bb[m] == d.blocks[m]
    ensures var p := d.blocks[d.last].previous.value;
      d.first in bb && PackedFrom(bb, d.first) && BackLinkedFrom(bb, d.first) &&
      ChainEnd(bb, d.first) == p && Values(bb, d.first) == Prefix(d.blocks, d.first) &&
      IsFull(bb[p]) && bb[d.first].previous.None?
  {
    var a := d.blocks;
    var e := d.last;
    var p := a[e].previous.value;
    assert e != d.first;
    EndLinksBack(a, d.first);
    BeforeEndFull(a, d.first);
    CutEnd(a, bb, d.first, p);
  }
  /** `pollLast()` on a deque of back shape: null when it is empty, and
      otherwise its back element, which leaves it, the shape being kept. */
  lemma PollLastOnShaped<E>(d: Deque<E>)
    requires BackShaped(d)
    ensures var r := PollLastResult(d); var C := Contents(d);
      if C == [] then r == Call(d, Ok(None))
      else
        r.out == Ok(Some(C[|C| - 1])) && BackShaped(r.state) &&
        Contents(r.state) == C[..|C| - 1]
  {
    RemoveLastOnShaped(d);
  }

  /** Last in, first out at the back: `offerLast(x)` then `pollLast()`
      gives `x` back and leaves the same elements, in the back shape. */
  lemma BackRoundTrip<E>(d: Deque<E>, x: E)
    requires BackShaped(d) && d.queueSize < d.maxQueueSize
    ensures var o := OfferLastResult(d, Some(x)); var p := PollLastResult(o.state);
      o.out == Ok(true) && p.out == Ok(Some(x)) && BackShaped(p.state) &&
      Contents(p.state) == Contents(d)
  {
    var o := OfferLastResult(d, Some(x));
    OfferLastShaped(d, x);
    PollLastOnShaped(o.state);
    assert (Contents(d) + [x])[..|Contents(d)|] == Contents(d);
  }

  /** `removeLastOccurrence(v)` on a packed deque whose `last` ends the
      chain, for a value held by the back block: the last occurrence of
      `v` leaves, the order of the rest is kept and the chain stays
      packed. */
  lemma RemoveLastOccurrenceInBackBlock<E>(d: Deque<E>, v: E)
    requires Packed(d) && AtEnd(d) && Some(v) in d.blocks[d.last].slots
    ensures var r := RemoveLastOccurrenceResult(d, Some(v)); var C := Contents(d);
      var j := LastIndexOfValue(C, v);
      0 <= j < |C| && C[j] == v &&
      r.out == Ok(true) && Packed(r.state) && AtEnd(r.state) &&
      Contents(r.state) == C[..j] + C[j + 1..]
  {
    var e := d.last;
    RemoveAsFromEndPacked(d.blocks, d.first, v);
    var s := RemoveAsFromLastResult(d.blocks, e, Some(v));
    assert RemoveLastOccurrenceFrom(d.blocks, e, Some(v)) == s;
  }

  /** `removeLastOccurrence(o)` on a packed deque whose `last` ends the
      chain and whose links match both ways, wherever the value is held:
      the last occurrence of `o` leaves, the order of the rest is kept,
      `queueSize` drops by one and the deque stays packed; for null or an
      absent value it returns false and changes nothing. `last` is not
      moved, so once the walk unlinks a drained end block `last` no longer
      ends the chain. */
  lemma RemoveLastOccurrenceOnShaped<E>(d: Deque<E>, o: Option<E>)
    requires Packed(d) && AtEnd(d) && BackLinked(d)
    ensures var r := RemoveLastOccurrenceResult(d, o); var C := Contents(d);
      if o.Some? && o.value in C then
        var j := LastIndexOfValue(C, o.value);
        r.out == Ok(true) && Packed(r.state) && r.state.last == d.last &&
        Contents(r.state) == C[..j] + C[j + 1..]
      else
        r == Call(d, Ok(false))
  {
    if o.Some? && o.value in Contents(d) {
      RemoveLastOccurrencePacked(d.blocks, d.first, o.value);
    } else {
      NotFoundBack(d.blocks, d.first, o);
    }
  }

  // ---------------------------------------------------------------------
  // The capacity bound over any sequence of calls

  /** The calls that can change a deque. */
  datatype Mutation<E> =
    | OfferFirstCall(e: Option<E>)
    | OfferLastCall(e: Option<E>)
    | RemoveFirstCall
    | RemoveLastCall
    | PollFirstCall
    | PollLastCall
    | RemoveFirstOccurrenceCall(o: Option<E>)
    | RemoveLastOccurrenceCall(o: Option<E>)
    | ClearCall

  /** The state after one call, whatever it returned or threw. */
  function Apply<E(==)>(d: Deque<E>, m: Mutation<E>): (r: Deque<E>)
    requires Valid(d)
    ensures Valid(r) && r.maxQueueSize == d.maxQueueSize
  {
    match m
    case OfferFirstCall(e) => OfferFirstResult(d, e).state
    case OfferLastCall(e) => OfferLastResult(d, e).state
    case RemoveFirstCall => DequeModel.RemoveFirstResult(d).state
    case RemoveLastCall => DequeModel.RemoveLastResult(d).state
    case PollFirstCall => PollFirstResult(d).state
    case PollLastCall => PollLastResult(d).state
    case RemoveFirstOccurrenceCall(o) => RemoveFirstOccurrenceResult(d, o).state
    case RemoveLastOccurrenceCall(o) => RemoveLastOccurrenceResult(d, o).state
    case ClearCall => ClearResult(d)
  }

  /** The state after a sequence of calls. */
  function ApplyAll<E(==)>(d: Deque<E>, ms: seq<Mutation<E>>): (r: Deque<E>)
    requires Valid(d)
    ensures Valid(r) && r.maxQueueSize == d.maxQueueSize
    decreases |ms|
  {
    if ms == [] then d else ApplyAll(Apply(d, ms[0]), ms[1..])
  }

  /** `queueSize` within a capacity that is not negative. */
  predicate WithinCapacity<E>(d: Deque<E>)
  {
    0 <= d.maxQueueSize && d.queueSize <= d.maxQueueSize
  }

  /** No call takes `queueSize` above `maxQueueSize`: only an accepted
      offer grows it, and only below capacity. */
  lemma CapacityKept<E>(d: Deque<E>, m: Mutation<E>)
    requires Valid(d) && WithinCapacity(d)
    ensures WithinCapacity(Apply(d, m))
  {
    match m
    case PollFirstCall =>
      assert PollFirstResult(d).state.queueSize <= d.queueSize;
    case PollLastCall =>
      assert PollLastResult(d).state.queueSize <= d.queueSize;
    case _ =>
  }

  /** From `new TripletDeque(maxQueueSize)` with a capacity that is not
      negative, no sequence of calls takes `queueSize` above it. */
  lemma {:induction false} CapacityNeverExceeded<E>(d: Deque<E>, ms: seq<Mutation<E>>)
    requires Valid(d) && WithinCapacity(d)
    ensures WithinCapacity(ApplyAll(d, ms))
    decreases |ms|
  {
    if ms != [] {
      CapacityKept(d, ms[0]);
      CapacityNeverExceeded(Apply(d, ms[0]), ms[1..]);
    }
  }

}
