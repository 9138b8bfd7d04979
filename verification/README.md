# TripletDeque in Dafny

A model of `TripletDeque`, a bounded double-ended queue. It stores its elements in a doubly linked chain of
fixed-size blocks (`Container`, five slots each).

The deque keeps these fields:
- `first` and `last`, the boundary blocks;
- `queueSize`, the number of elements it believes it holds;
- `maxQueueSize`, its capacity (1000 by default).

Operations:
- `offerFirst` / `offerLast` refuse null with `NullPointerException` and return false at capacity. When the
  boundary block is full they link a new block in front of it or behind it. Then they call the block's
  `addFirst` / `addLast`.
- `removeFirst` / `removeLast` throw `NoSuchElementException` when `queueSize` is 0. Otherwise they take an
  element from the boundary block and step past that block once it is empty.
- `pollFirst`, `pollLast`, `peekFirst` and `peekLast` turn that exception into null.
- `removeFirstOccurrence` / `removeLastOccurrence` walk the chain forwards along `next` or backwards along
  `previous`. A block's `removeByIndex` closes the gap and borrows the front element of the next block,
  recursively, down the chain. It unlinks the next block once that block is drained.
- `contains` scans the counted slots of every block of the forward walk.
- `clear` walks from `first` along `next`, cutting each block's links, then starts again with one new empty
  block. A block that only a dangling `last` still names is not visited.

## Layout of the model

- `outcomes.dfy`: Java null as `Option`, and the three exceptions the code can raise as an `Outcome` value.
- `container.dfy` (module `Containers`): one block as a value.
  - Each of its operations is a specification function.
  - Each scanning or shifting loop is a method proved equal to that function.
  - Lemmas describe left-aligned blocks (built by `addLast`) and right-aligned blocks (built by `addFirst`).
- `arena.dfy` (module `Arenas`): the blocks of a deque live in a map from integer handles to blocks.
  - A `next` link always leads to a larger handle and a `previous` link to a smaller one. This ordering gives
    the termination measure of every walk and of the recursive borrow in `removeByIndex`.
  - When an exception escapes, the partial updates made before it stay in place, as they do in Java.
- `chain.dfy` (module `Chains`): the walks along the chain, for occurrence removal, `contains` and `clear`.
- `packed.dfy` (module `Packing`): the regime in which the deque behaves as a queue.
  - Every block of the forward walk is left-aligned, and every block except the final one is full.
  - `Values` spells out the elements of such a chain, in order.
  - `removeByIndex`, removal at the front and `removeFirstOccurrence` are proved exact on it.
  - Removal at the back and `removeLastOccurrence` are proved exact on it as well. This needs `last` to be the
    final block and each `next` link to be answered by a `previous` link.
- `deque_model.dfy` (module `DequeModel`): the deque as a value, with one function per public operation. Each
  function gives the new state and what the call returns or throws.
- `triplet_deque.dfy` (module `Triplet`): class `TripletDeque` with the deque's fields.
  - Its methods update those fields in place.
  - Each method is proved to produce exactly the state and the outcome of the matching `DequeModel` function.
  - The loops of `removeFirstOccurrence` / `removeLastOccurrence` are module-level methods, `ScanFirstOccurrence`
    and `ScanLastOccurrence`. They walk the arena and are proved equal to the chain walks of module `Chains`.
- `deque_props.dfy` (module `DequeProperties`): the properties of the deque.
  - Capacity: `queueSize` never exceeds `maxQueueSize` over any sequence of calls.
  - FIFO: `offerLast` of any sequence followed by `pollFirst` gives it back in order.
  - Exact `contains` and `removeFirstOccurrence` while the chain is packed.
  - The back end: `offerLast`, `removeLast`, `pollLast`, `getLast`, `peekLast` and `removeLastOccurrence`,
    while the chain is packed and `last` ends it. `offerLast` then `pollLast` gives the element back.
  - `clear`.
- `defects.dfy` (module `Defects`): concrete call sequences on which the class breaks the `Deque` contract.

The model keeps the behaviour of the code, defects included:
- `removeByIndex` clears slot `elementsCount - 1`, not the slot it emptied (line 408). On a block filled by
  `addFirst`, whose elements sit at the top of the array, the removed element stays in place.
  `Defects.FrontPollRepeats`: `offerFirst(1)`, `offerFirst(2)`, `pollFirst()`, `pollFirst()` returns 2 twice.
- `removeByIndex` unlinks a drained successor (lines 414-416), but the deque's `last` can still name it.
  `Defects.DanglingLast`: after `offerLast` of 1 to 6 and one `pollFirst()`, `offerLast(7)` is accepted into a
  block the forward walk no longer reaches, and `contains(7)` is false.
- `addFirst` scans for the highest free slot. `addLast` writes at index `elementsCount`. `removeLast` clears the
  highest used slot. On one block, these three disagree about where the elements are.
  - `Containers.AddFirstOnLeftAlignedDuplicates`: `addFirst` on a block built by `addLast` duplicates an element.
  - `Defects.NegativeSize`: `offerFirst(1)`, `offerFirst(2)`, `removeLast()`, `offerFirst(4)` loses the 2.
    `removeLast()`, `removeFirst()` then returns null, and `removeFirstOccurrence(null)` succeeds and takes
    `size()` to -1.

So the model proves no LIFO law for `offerFirst`/`pollFirst` and no FIFO law under interleaved calls. It proves
`contains`, the two ends and occurrence removal exact only on packed chains. The laws at the back also need
`last` to end the chain. `offerLast` and `removeLast` keep that. Any removal through `removeByIndex` can break
it, since the borrow can drain the final block and unlink it (`Defects.DanglingLast`).

## Model

| member | source | states |
|---|---|---|
| Containers.LastFree | src/main/java/ru/nti/triplet/TripletDeque.java:346-349 | the index `addFirst` writes to: the highest null slot, every slot above it occupied, -1 when there is none |
| Containers.LastUsed | src/main/java/ru/nti/triplet/TripletDeque.java:376-379 | the slot `removeLast` takes: the highest occupied slot, every slot above it null, -1 when there is none |
| Containers.FirstUsed | src/main/java/ru/nti/triplet/TripletDeque.java:365-372 | the slot `removeFirst` and `getFirst` find: the lowest occupied slot, every slot below it null, the length when there is none |
| Containers.AddFirstResult | src/main/java/ru/nti/triplet/TripletDeque.java:345-357 | `addFirst` throws ArrayIndexOutOfBounds exactly when no slot is null; otherwise the block holds `e`, counts one more element and keeps its links |
| Containers.AddLastResult | src/main/java/ru/nti/triplet/TripletDeque.java:359-362 | `addLast` throws ArrayIndexOutOfBounds exactly when `elementsCount` is not a slot index; otherwise `e` goes into slot `elementsCount`, every other slot is kept, the count grows by one and the links are kept |
| Containers.AddFirst | src/main/java/ru/nti/triplet/TripletDeque.java:345-357 | the scan loop and the shift loop of `addFirst` produce exactly `AddFirstResult` |
| Containers.CloseGap | src/main/java/ru/nti/triplet/TripletDeque.java:405-409 | the shift loop of `removeByIndex`: on a block with no counted element it throws at index -1; otherwise it gives `IndexClosed`, which moves the slots above `index` down, clears slot `elementsCount - 1` and decrements the count |
| Containers.RemoveLastResult | src/main/java/ru/nti/triplet/TripletDeque.java:375-384 | `removeLast` throws exactly when every slot is null; otherwise it returns a value that was in the block, decrements the count and keeps the links |
| Containers.RemoveLast | src/main/java/ru/nti/triplet/TripletDeque.java:375-384 | the backward scan of `removeLast` produces exactly `RemoveLastResult` |
| Containers.GetFirst | src/main/java/ru/nti/triplet/TripletDeque.java:386-393 | `getFirst` returns non-null exactly when some slot is occupied, and then the lowest one |
| Containers.GetLast | src/main/java/ru/nti/triplet/TripletDeque.java:395-402 | `getLast` returns non-null exactly when some slot is occupied, and then the highest one |
| Containers.AddFirstRightAligned | src/main/java/ru/nti/triplet/TripletDeque.java:345-357 | on a block whose elements form a run at the top, `addFirst` succeeds, keeps the run at the top and puts `e` at its front |
| Containers.AddFirstOnLeftAlignedDuplicates | src/main/java/ru/nti/triplet/TripletDeque.java:345-357 | `addFirst(e)` on a block holding `x` in slot 0 yields slots `x, x, null, null, e` |
| Containers.AddLastLeftAligned | src/main/java/ru/nti/triplet/TripletDeque.java:359-362 | on a left-aligned block that is not full, `addLast` appends `e` to its elements and keeps it left-aligned |
| Containers.RemoveLastLeftAligned | src/main/java/ru/nti/triplet/TripletDeque.java:375-384 | on a left-aligned block with elements, `removeLast` returns its last element and drops it |
| Containers.IndexClosedLeftAligned | src/main/java/ru/nti/triplet/TripletDeque.java:404-409 | on a left-aligned block, closing the gap at a counted index removes exactly that element and keeps the rest in order |
| Containers.PeeksLeftAligned | src/main/java/ru/nti/triplet/TripletDeque.java:386-402 | on a left-aligned block, `getFirst` / `getLast` return its first / last element, or null when it has none |
| Arenas.RemoveByIndexResult | src/main/java/ru/nti/triplet/TripletDeque.java:404-417 | `removeByIndex` keeps the chain well-formed, only clears `next` links, leaves the blocks before `k` alone, throws only ArrayIndexOutOfBounds, and on a block with no counted element throws with nothing changed |
| Arenas.RemoveFirstResult | src/main/java/ru/nti/triplet/TripletDeque.java:364-373 | `Container.removeFirst` keeps the same frame and returns a value that was in the block, or null |
| Arenas.IndexOf | src/main/java/ru/nti/triplet/TripletDeque.java:326-331 | the index `removeAsFromFirst` stops at: the first counted slot equal to `o`, with no equal slot before it |
| Arenas.LastIndexOf | src/main/java/ru/nti/triplet/TripletDeque.java:336-341 | the index `removeAsFromLast` stops at: the last counted slot equal to `o`, with no equal slot after it |
| Arenas.RemoveAsFromFirstResult | src/main/java/ru/nti/triplet/TripletDeque.java:325-333 | returns false exactly when no counted slot equals `o`, and then changes nothing; otherwise it removes by index |
| Arenas.RemoveAsFromLastResult | src/main/java/ru/nti/triplet/TripletDeque.java:335-343 | the same, scanning from the top |
| Arenas.RemoveByIndex | src/main/java/ru/nti/triplet/TripletDeque.java:404-417 | the method, with its loop and recursive borrow, produces exactly `RemoveByIndexResult` |
| Arenas.RemoveFirst | src/main/java/ru/nti/triplet/TripletDeque.java:364-373 | the scan loop produces exactly `RemoveFirstResult` |
| Arenas.RemoveAsFromFirst | src/main/java/ru/nti/triplet/TripletDeque.java:325-333 | the scan loop produces exactly `RemoveAsFromFirstResult` |
| Arenas.RemoveAsFromLast | src/main/java/ru/nti/triplet/TripletDeque.java:335-343 | the scan loop produces exactly `RemoveAsFromLastResult` |
| Chains.RemoveFirstOccurrenceFrom | src/main/java/ru/nti/triplet/TripletDeque.java:154-162 | the forward walk returns false exactly when no block from `k` on counts `o`, and then changes nothing; it keeps the chain well-formed and throws only ArrayIndexOutOfBounds |
| Chains.RemoveLastOccurrenceFrom | src/main/java/ru/nti/triplet/TripletDeque.java:165-173 | the backward walk returns false exactly when no block from `k` back counts `o`, and then changes nothing |
| Chains.ContainsFrom | src/main/java/ru/nti/triplet/TripletDeque.java:229-238 | the walk of `contains` from `k` is true when block `k` counts `o`, and true only when some block at `k` or beyond counts `o` |
| Chains.DetachFrom | src/main/java/ru/nti/triplet/TripletDeque.java:292-299 | the loop of `clear` follows `next` from `k`: its contract states that block `k` loses both links, that the blocks below `k` are untouched and that every block keeps its slots and count |
| Packing.RemoveByIndexPacked | src/main/java/ru/nti/triplet/TripletDeque.java:404-417 | on a packed chain, `removeByIndex(i)` on its first block removes exactly element `i` of the chain's sequence, and the chain stays packed |
| Packing.RemoveFirstPacked | src/main/java/ru/nti/triplet/TripletDeque.java:364-373 | on a packed chain with elements, `Container.removeFirst` returns the first element and the rest stays packed, in order |
| Packing.ContainsPacked | src/main/java/ru/nti/triplet/TripletDeque.java:229-238 | on a packed chain, the walk of `contains` finds `o` exactly when `o` is a non-null element of the chain |
| Packing.RemoveFirstOccurrencePacked | src/main/java/ru/nti/triplet/TripletDeque.java:154-162 | on a packed chain, the walk removes exactly the first occurrence of `o` and returns true, or returns false with nothing changed when `o` is absent |
| Packing.AppendAtEnd | src/main/java/ru/nti/triplet/TripletDeque.java:359-362 | `addLast` on the non-full end block of a packed chain appends to the chain's sequence |
| Packing.ExtendEnd | src/main/java/ru/nti/triplet/TripletDeque.java:62-67 | linking a new block holding `x` after a full end block appends `x` to a packed chain |
| Packing.RemoveAsFromLastPacked | src/main/java/ru/nti/triplet/TripletDeque.java:335-343 | on the first block of a packed chain, `removeAsFromLast(o)` removes the last occurrence of `o` in that block, which is that element of the chain's sequence, and the chain stays packed; when the block does not hold `o` it returns false and changes nothing |
| Packing.RemoveAsFromEndPacked | src/main/java/ru/nti/triplet/TripletDeque.java:165-173 | `removeAsFromLast(v)` on the block that ends a packed chain, which holds `v`, removes the last `v` of the chain's whole sequence, keeps the rest in order, and leaves the chain packed with the same end |
| Packing.StepBack | src/main/java/ru/nti/triplet/TripletDeque.java:166-171 | a left-aligned block that does not hold `o` answers false with nothing changed, so the backward walk moves on to its `previous`, or returns false when there is none |
| Packing.PassesBack | src/main/java/ru/nti/triplet/TripletDeque.java:166-171 | started at the end of a packed, back-linked chain, the backward walk passes every block from `m` on when none holds `o`, and goes on at the block before `m` |
| Packing.NotFoundBack | src/main/java/ru/nti/triplet/TripletDeque.java:165-173 | on a packed, back-linked chain whose first block has no predecessor, the backward walk from the end returns false and changes nothing when `o` is null or absent |
| Packing.RemoveLastOccurrencePacked | src/main/java/ru/nti/triplet/TripletDeque.java:165-173 | started at the end of a packed, back-linked chain holding `v`, the backward walk returns true and removes the last `v` of the chain's sequence, wherever it is held; the rest keep their order, the chain stays packed and blocks before the chain are untouched |
| Packing.LastFoundFurtherOn | src/main/java/ru/nti/triplet/TripletDeque.java:165-173 | the case where the chain after block `k` holds `v`: the removal there is the removal of the last `v` of the whole chain, and block `k` stays in front |
| Packing.LastKeptInFront | src/main/java/ru/nti/triplet/TripletDeque.java:404-417 | removing the last `v` from the successor's chain, with the blocks before it untouched, removes the last `v` from the chain at `k` |
| Packing.LastFoundHere | src/main/java/ru/nti/triplet/TripletDeque.java:335-343 | the case where the chain after block `k` does not hold `v`: the walk comes back to `k`, whose `removeAsFromLast` removes the last `v` of the chain |
| Packing.ShrinkEnd | src/main/java/ru/nti/triplet/TripletDeque.java:375-384 | replacing the end block of a packed, back-linked chain by a left-aligned block with the same links changes only the final part of the sequence and keeps the chain packed, back-linked and ending there |
| Packing.CutEnd | src/main/java/ru/nti/triplet/TripletDeque.java:94-97 | cutting the `next` link of the end block's predecessor makes that predecessor the end of a packed, back-linked chain that spells everything before the old end block |
| Packing.BeforeEndFull | src/main/java/ru/nti/triplet/TripletDeque.java:94-97 | in a packed, back-linked chain of two or more blocks, the end block's predecessor is full |
| DequeModel.Fresh | src/main/java/ru/nti/triplet/TripletDeque.java:14-19 | a new deque has one empty block that is both `first` and `last`, size 0 and the given capacity |
| DequeModel.GrowFront | src/main/java/ru/nti/triplet/TripletDeque.java:43-48 | the new front block is fresh, links forwards to the old `first`, which links back to it, and nothing else changes |
| DequeModel.GrowBack | src/main/java/ru/nti/triplet/TripletDeque.java:62-67 | the new back block is fresh, links back to the old `last`, which links forwards to it, and nothing else changes |
| DequeModel.OfferFirstResult | src/main/java/ru/nti/triplet/TripletDeque.java:36-52 | null throws NullPointerException and a full deque returns false, both with nothing changed; success grows the size by one, stores `e` in the front block, and allocates a linked front block exactly when the old one was full |
| DequeModel.OfferLastResult | src/main/java/ru/nti/triplet/TripletDeque.java:55-71 | the same at the back |
| DequeModel.RemoveFirstResult | src/main/java/ru/nti/triplet/TripletDeque.java:74-85 | throws NoSuchElementException exactly when the size is 0, and then changes nothing; otherwise the size drops by one and the value came from the front block; `first` moves exactly when the front block is left empty with a successor, and then to that successor, whose `previous` is cleared; no block is added or dropped |
| DequeModel.RemoveLastResult | src/main/java/ru/nti/triplet/TripletDeque.java:88-99 | throws NoSuchElementException exactly when the size is 0; any throw changes nothing; otherwise the size drops by one, a non-null value from the back block is returned and that block becomes the result of its `removeLast`; `last` moves exactly when the back block is left empty with a predecessor, and then to that predecessor, whose `next` is cleared |
| DequeModel.PollFirstResult | src/main/java/ru/nti/triplet/TripletDeque.java:102-108 | on an empty deque returns null and changes nothing, so repeating it changes nothing; otherwise it is `removeFirst` |
| DequeModel.PollLastResult | src/main/java/ru/nti/triplet/TripletDeque.java:111-117 | the same with `removeLast` |
| DequeModel.GetFirstResult | src/main/java/ru/nti/triplet/TripletDeque.java:120-125 | throws NoSuchElementException exactly when the size is 0; otherwise returns a value from the front block, or null |
| DequeModel.GetLastResult | src/main/java/ru/nti/triplet/TripletDeque.java:128-133 | the same with the back block |
| DequeModel.PeekFirstResult | src/main/java/ru/nti/triplet/TripletDeque.java:136-142 | null on an empty deque, otherwise what `getFirst` returns |
| DequeModel.PeekLastResult | src/main/java/ru/nti/triplet/TripletDeque.java:145-151 | null on an empty deque, otherwise what `getLast` returns |
| DequeModel.RemoveFirstOccurrenceResult | src/main/java/ru/nti/triplet/TripletDeque.java:154-162 | returns false exactly when `contains(o)` is false, and then changes nothing; true decrements the size by exactly one; `first`, `last` and capacity are kept |
| DequeModel.RemoveLastOccurrenceResult | src/main/java/ru/nti/triplet/TripletDeque.java:165-173 | returns false exactly when no block of the backward walk counts `o`, and then changes nothing; true decrements the size by exactly one |
| DequeModel.ContainsResult | src/main/java/ru/nti/triplet/TripletDeque.java:229-238 | `contains(o)` is true when the front block counts `o`, and true only when some block at or beyond `first` counts `o` |
| DequeModel.ClearResult | src/main/java/ru/nti/triplet/TripletDeque.java:291-303 | after `clear` there is one new empty block, both `first` and `last`, size 0 and the same capacity |
| DequeProperties.FreshPacked | src/main/java/ru/nti/triplet/TripletDeque.java:14-19 | a new deque is packed, has the back shape and holds no elements |
| DequeProperties.OfferLastPacked | src/main/java/ru/nti/triplet/TripletDeque.java:55-71 | below capacity, `offerLast(x)` on a packed deque returns true and appends `x` to its contents |
| DequeProperties.RemoveFirstOnPacked | src/main/java/ru/nti/triplet/TripletDeque.java:74-85 | on a packed deque, `removeFirst` throws with nothing changed when it is empty, otherwise returns the first element and leaves the rest, in order |
| DequeProperties.PollFirstOnPacked | src/main/java/ru/nti/triplet/TripletDeque.java:102-108 | the same for `pollFirst`, with null for an empty deque |
| DequeProperties.PeekFirstOnPacked | src/main/java/ru/nti/triplet/TripletDeque.java:136-142 | on a packed deque `peekFirst` returns the first element, or null when it is empty |
| DequeProperties.ContainsOnPacked | src/main/java/ru/nti/triplet/TripletDeque.java:229-238 | on a packed deque `contains(o)` holds exactly when `o` is one of its elements |
| DequeProperties.RemoveFirstOccurrenceOnPacked | src/main/java/ru/nti/triplet/TripletDeque.java:154-162 | on a packed deque, removes exactly the first occurrence and keeps the others in order, or returns false with nothing changed |
| DequeProperties.OfferLastShaped | src/main/java/ru/nti/triplet/TripletDeque.java:55-71 | below capacity, `offerLast(x)` on a deque of back shape (packed, `last` ending the chain, links matched both ways, back block non-empty unless the deque is) returns true, appends `x` and keeps the back shape |
| DequeProperties.OfferLastLinksSame | src/main/java/ru/nti/triplet/TripletDeque.java:68-70 | `offerLast` into a back block with room keeps the links matched both ways and leaves the back block non-empty |
| DequeProperties.OfferLastLinksNew | src/main/java/ru/nti/triplet/TripletDeque.java:62-67 | `offerLast` into a full back block links the new block both ways, so the links stay matched, and the new back block holds the element |
| DequeProperties.PeekLastOnPacked | src/main/java/ru/nti/triplet/TripletDeque.java:128-151 | when `last` ends a packed chain and holds an element, `getLast` and `peekLast` return the deque's last element; on an empty deque `getLast` throws NoSuchElementException and `peekLast` returns null |
| DequeProperties.RemoveLastValueOnPacked | src/main/java/ru/nti/triplet/TripletDeque.java:88-99 | when `last` ends a packed, non-empty chain, `removeLast` returns the deque's last element if the back block holds one, and otherwise throws ArrayIndexOutOfBounds with nothing changed |
| DequeProperties.RemoveLastOnShaped | src/main/java/ru/nti/triplet/TripletDeque.java:88-99 | on a deque of back shape, `removeLast` throws with nothing changed when it is empty, otherwise returns its last element, drops it and keeps the back shape |
| DequeProperties.RemoveLastKeepsBlock | src/main/java/ru/nti/triplet/TripletDeque.java:88-99 | the case where `last` stays: the back block loses its last element and the shape is kept |
| DequeProperties.RemoveLastDrains | src/main/java/ru/nti/triplet/TripletDeque.java:94-97 | the case where the back block loses its only element: `last` moves to the full predecessor, whose `next` is cleared, and the contents lose their last element |
| DequeProperties.DrainedChain | src/main/java/ru/nti/triplet/TripletDeque.java:94-97 | with the back block drained and its predecessor's `next` cut, the chain ends at that full predecessor, stays back-linked and spells everything before the back block |
| DequeProperties.PollLastOnShaped | src/main/java/ru/nti/triplet/TripletDeque.java:111-117 | the same as `RemoveLastOnShaped` for `pollLast`, with null for an empty deque |
| DequeProperties.BackRoundTrip | src/main/java/ru/nti/triplet/TripletDeque.java:111-117 | below capacity, `offerLast(x)` then `pollLast()` returns `x` and leaves the same contents, in the back shape |
| DequeProperties.RemoveLastOccurrenceInBackBlock | src/main/java/ru/nti/triplet/TripletDeque.java:165-173 | when `last` ends a packed chain and holds `v`, `removeLastOccurrence(v)` returns true, removes the last occurrence of `v` in the contents, keeps the rest in order and leaves the chain packed |
| DequeProperties.RemoveLastOccurrenceOnShaped | src/main/java/ru/nti/triplet/TripletDeque.java:165-173 | on a packed deque whose `last` ends the chain and whose links match both ways, `removeLastOccurrence(o)` returns true, removes the last occurrence of `o` wherever it is held, keeps the rest in order and leaves the deque packed with the same `last`; for null or an absent value it returns false and changes nothing |
| DequeProperties.ClearEmpties | src/main/java/ru/nti/triplet/TripletDeque.java:291-303 | from any state, `clear` leaves an empty packed deque with `first == last`, size 0 and the old capacity |
| DequeProperties.ClearThenOfferPeek | src/main/java/ru/nti/triplet/TripletDeque.java:291-303 | after `clear`, with a positive capacity, `offerLast(x)` succeeds and `peekFirst()` returns `x` |
| DequeProperties.OfferLastAllPacked | src/main/java/ru/nti/triplet/TripletDeque.java:55-71 | within capacity, offering a sequence at the back accepts every element and appends the whole sequence |
| DequeProperties.PollFirstAllPacked | src/main/java/ru/nti/triplet/TripletDeque.java:102-108 | `n` polls on a packed deque return its first `n` elements in order and leave the rest |
| DequeProperties.FifoRoundTrip | src/main/java/ru/nti/triplet/TripletDeque.java:74-85 | on a new deque, `offerLast` of `xs` then as many `pollFirst` calls returns `xs` in order; the next `removeFirst` throws and `pollFirst` returns null |
| DequeProperties.OffersRefusedAtCapacity | src/main/java/ru/nti/triplet/TripletDeque.java:40-61 | once `maxQueueSize` elements have been offered, both `offerFirst` and `offerLast` return false and change nothing |
| DequeProperties.CapacityKept | src/main/java/ru/nti/triplet/TripletDeque.java:40-51 | no single call takes the size above a capacity that is not negative |
| DequeProperties.CapacityNeverExceeded | src/main/java/ru/nti/triplet/TripletDeque.java:36-71 | no sequence of calls takes the size above the capacity |
| Triplet.TripletDeque.constructor | src/main/java/ru/nti/triplet/TripletDeque.java:14-19 | `new TripletDeque(maxQueueSize)` is in the state `Fresh(maxQueueSize)` |
| Triplet.TripletDeque.Default | src/main/java/ru/nti/triplet/TripletDeque.java:21-23 | `new TripletDeque()` has capacity 1000 |
| Triplet.TripletDeque.OfferFirst | src/main/java/ru/nti/triplet/TripletDeque.java:36-52 | updates the fields to the state, and returns or throws the outcome, of `OfferFirstResult` |
| Triplet.TripletDeque.OfferLast | src/main/java/ru/nti/triplet/TripletDeque.java:55-71 | the same for `OfferLastResult` |
| Triplet.TripletDeque.RemoveFirst | src/main/java/ru/nti/triplet/TripletDeque.java:74-85 | the same for `DequeModel.RemoveFirstResult`, partial updates of a throwing block removal included |
| Triplet.TripletDeque.RemoveLast | src/main/java/ru/nti/triplet/TripletDeque.java:88-99 | the same for `DequeModel.RemoveLastResult` |
| Triplet.TripletDeque.PollFirst | src/main/java/ru/nti/triplet/TripletDeque.java:102-108 | the same for `PollFirstResult` |
| Triplet.TripletDeque.PollLast | src/main/java/ru/nti/triplet/TripletDeque.java:111-117 | the same for `PollLastResult` |
| Triplet.TripletDeque.GetFirst | src/main/java/ru/nti/triplet/TripletDeque.java:120-125 | returns what `DequeModel.GetFirstResult` gives, changing nothing |
| Triplet.TripletDeque.GetLast | src/main/java/ru/nti/triplet/TripletDeque.java:128-133 | returns what `DequeModel.GetLastResult` gives, changing nothing |
| Triplet.TripletDeque.PeekFirst | src/main/java/ru/nti/triplet/TripletDeque.java:136-142 | returns what `PeekFirstResult` gives |
| Triplet.TripletDeque.PeekLast | src/main/java/ru/nti/triplet/TripletDeque.java:145-151 | returns what `PeekLastResult` gives |
| Triplet.TripletDeque.RemoveFirstOccurrence | src/main/java/ru/nti/triplet/TripletDeque.java:154-162 | the object reaches the state and outcome of `RemoveFirstOccurrenceResult`: false changes nothing, true decrements the size |
| Triplet.TripletDeque.RemoveLastOccurrence | src/main/java/ru/nti/triplet/TripletDeque.java:165-173 | the object reaches the state and outcome of `RemoveLastOccurrenceResult`: false changes nothing, true decrements the size |
| Triplet.ScanFirstOccurrence | src/main/java/ru/nti/triplet/TripletDeque.java:155-160 | the loop along `next`, stopping at the first block that does not answer false, yields exactly the arena and outcome of the forward walk `RemoveFirstOccurrenceFrom` |
| Triplet.ScanLastOccurrence | src/main/java/ru/nti/triplet/TripletDeque.java:166-171 | the loop along `previous` yields exactly the arena and outcome of the backward walk `RemoveLastOccurrenceFrom` |
| Triplet.TripletDeque.Contains | src/main/java/ru/nti/triplet/TripletDeque.java:229-238 | the nested loops return `ContainsResult` |
| Triplet.TripletDeque.Size | src/main/java/ru/nti/triplet/TripletDeque.java:241-243 | returns `queueSize` |
| Triplet.TripletDeque.IsEmpty | src/main/java/ru/nti/triplet/TripletDeque.java:246-248 | true exactly when `queueSize` is 0 |
| Triplet.TripletDeque.Clear | src/main/java/ru/nti/triplet/TripletDeque.java:291-303 | the unlinking loop and the new block give the state `ClearResult` |
| Defects.FrontPollRepeats | src/main/java/ru/nti/triplet/TripletDeque.java:404-409 | `offerFirst(1)`, `offerFirst(2)`, `pollFirst()`, `pollFirst()` returns 2 both times and ends with size 0 |
| Defects.NegativeSize | src/main/java/ru/nti/triplet/TripletDeque.java:345-357 | after `offerFirst(1)`, `offerFirst(2)`, `removeLast()`, `offerFirst(4)` the deque no longer contains 2; then `removeLast()`, `removeFirst()` returns null and `removeFirstOccurrence(null)` returns true with size -1 |
| Defects.DanglingLast | src/main/java/ru/nti/triplet/TripletDeque.java:404-417 | after `offerLast` of 1 to 6, `pollFirst()` returns 1; then `offerLast(7)` returns true and the size is 6, yet `contains(7)` is false |

## Left out

- `iterator()` (lines 250-277) is not modelled. It is a lazy cursor and is not part of the deque's state.
- `getContainerByIndex` (lines 279-288) is not modelled. It exposes a raw block array and belongs to the
  `Containerable` interface, which is not part of this model.
- The delegating aliases are not modelled separately, because each only calls an operation that is modelled.
  These are `addFirst`, `addLast`, `add`, `offer`, `remove()`, `poll`, `element`, `peek`, `push`, `pop` and
  `remove(Object)`.
- `addAll` (lines 205-211) is not modelled. It iterates a foreign `Collection` and ignores each offer's
  result. `DequeProperties.OfferLastAll`, `offerLast` over a sequence, is the nearest member.
- The stubs are not modelled: `removeAll`, `retainAll`, `containsAll`, `toArray` and `descendingIterator`.
- Java generics, the `Deque` interface machinery and exception messages are not modelled.
  - `Objects.equals` is equality on an `E(==)` element type, with null as `None`.
- Concurrency is not modelled; the class has none.
- Blocks are values in an arena keyed by integer handles, not heap objects. `first` and `last` are handles.
  - Blocks that `clear` or `removeByIndex` unlink stay in the arena, unreachable.
  - `clear` also sets the detached blocks' arrays to null. The model keeps their slots, since nothing reads them
    again.
- `queueSize` is an unbounded integer. Java's 32-bit wrap-around of `queueSize` is not modelled. Offers stop at
  `maxQueueSize`, so wrap-around would take more than 2^31 defective removals.
- DequeModel.Valid: it states `elementsCount <= 5` and the link ordering, but not `0 <= elementsCount` and not
  `queueSize >= 0`. Neither is an invariant of the code: `Defects.NegativeSize` reaches size -1.
- DequeModel.OfferFirstResult: it states that `e` lands somewhere in the front block's slots, not in which slot.
  Mixed front and back insertions make the slot depend on the stale contents of the block.
- DequeModel.RemoveLastResult: it states where the value comes from and where `last` moves, not which element
  of the deque the value is. `DequeProperties.RemoveLastOnShaped` and `RemoveLastValueOnPacked` state that
  while `last` ends a packed chain. No law is stated once `last` has left the chain (`Defects.DanglingLast`).
- DequeModel.GetLastResult: it states only that the value comes from the back block.
  `DequeProperties.PeekLastOnPacked` gives the exact value while `last` ends a packed chain. No law is stated
  once `last` has left the chain.
- DequeModel.RemoveLastOccurrenceResult: it states the found/not-found equivalence and the size change, not
  which element goes. `DequeProperties.RemoveLastOccurrenceOnShaped` states which element goes, for any value,
  while the chain is packed, `last` ends it and the links match both ways. The deque then stays packed. It
  does not keep `last` at the end of the chain: when the borrow of `removeByIndex` drains the final block,
  lines 414-416 unlink it while `last` still names it. No law is stated after that.
- Arenas.RemoveAsFromLastResult: its own contract states the frame and when it returns false.
  `Packing.RemoveAsFromLastPacked` states which element leaves, on packed chains only.
- Chains.RemoveLastOccurrenceFrom: its own contract states when the walk returns false.
  `Packing.RemoveLastOccurrencePacked` states the element removed by a walk started at the end of a packed
  chain whose links match both ways. Walks started elsewhere are not covered.
- Arenas.RemoveByIndexResult: its own contract states the frame, the links and the error cases. The exact
  effect on the elements is stated by `Packing.RemoveByIndexPacked` for packed chains only, since the stale
  slot makes it inexact elsewhere.
