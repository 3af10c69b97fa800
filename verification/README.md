# Verified models of the CARLA client's queue and XML library

The client library of this repository ships two third-party components that hold nearly all of its hard
algorithms: `moodycamel::ConcurrentQueue`, the lock-free queue under the buffer pool, and pugixml 1.9, which
reads and writes OpenDRIVE and other XML. This project models both in Dafny and proves what they are for.
`dafny verify dfyconfig.toml` checks all of it.

**The queue.** Each lock-free protocol is a step relation over any number of threads, one shared-memory access
a step, with program counters and locals as the program has them; the theorems are about every run.

- `FreeList.dfy`: the reference-counted free list (no ABA, nothing lost, nothing handed out twice, what calls give).
- `DequeueTickets.dfy`: the optimistic count and overcommit of dequeuing, on unbounded counters and, as a
  refinement, on wrapped 64-bit ones.
- `ImplicitIndex.dfy`, `ImplicitCalls.dfy`: the circular block index of a thread's own sub-queue, with growth,
  out-of-order release and consumers that still use old headers; and what its calls publish and empty.
- `ProducerHash.dfy`: the chain of probing tables from thread ids to sub-queues, with lazy copying and
  concurrent resizing.
- `ExplicitProducer.dfy`, `ExplicitSteps.dfy`, `ExplicitCalls.dfy`: the token-owned sub-queue as a class with its
  ring of blocks and index arrays, single and bulk enqueue, proved to be a first-in-first-out queue; and the same
  step by step, with consumers in the middle of an enqueue, and what its calls come to.
- `Words.dfy`: 64-bit arithmetic and the slot computation that both sub-queues share.

**The XML library.**

- `XmlText.dfy`, `XmlParser.dfy`, `XmlPrinter.dfy`, `XmlRoundTrip.dfy`: in-place decoding, the parser, the
  printer, and the theorem that they undo each other exactly on clean trees.
- `XmlReferences.dfy`: what texts and references stand for in XML 1.0, and that the decoder gives that.
- `XmlGrammar.dfy`, `XmlAcceptance.dfy`, `XmlCompleteness.dfy`: a grammar of documents, and the theorem that the
  parser accepts exactly its texts.
- `DomLinks.dfy`, `DomCopy.dfy`, `Dom.dfy`: editing, moving and copying in the linked tree.
- `PageAllocator.dfy`, `Transcoding.dfy`, `BufferedWriter.dfy`, `IntegerText.dfy`: memory pages, encodings, the
  output buffer, and numbers as text.
- `XmlPlaces.dfy`, `BufferOrder.dfy`, `BufferEdits.dfy`: where a parse leaves the strings of the document in the
  buffer, and what editing does to them.
- `Document.dfy`, `StringValues.dfy`, `Sorting.dfy`, `NodeSetSorting.dfy`: axis walks, string values, document
  order by buffer and by links, quicksort.
- `XPath.dfy`, `XPathModes.dfy`, `XPathOptimizer.dfy`: the XPath evaluator with its short cuts, and the proof that
  short cuts and optimizer change no value.
- `XPathMeaning.dfy`, `XPathAgreement.dfy`, `XPathStrings.dfy`, `XPathStandard.dfy`: the value of an expression in
  XPath 1.0, and where the values of the program are those, and where not.

Places where the code does not do what its text, its comments or a standard suggest came out of the proofs.

- XPath: comparing a node set with a boolean by `<`, `>`, `<=` or `>=` is not what XPath 1.0 says
  (`XPathStandard.LessThanTrue`; `XPathStandard.ComparisonMeetsStandard` says exactly when it is).
- XPath: `node()` finds declarations and document types, which XPath 1.0 does not know
  (`XPathStandard.NodeFindsDeclaration`; `XPathStandard.StepMeetsStandard` is the exact condition).
- XPath: `translate`, `string-length` and `substring` take bytes for characters
  (`XPathStandard.TranslateCutsCharacters`, `XPathStandard.StringLengthMeetsStandard`). On ASCII they are right
  (`XPathStrings.AsciiTranslate`, `XPathStrings.SubstringIsPicked`).
- Signed integers of a type narrower than `int` are read wrongly when they are negative
  (`IntegerText.SixteenBitsFail`). The library reads `unsigned int` and `unsigned long long` only
  (pugixml.cpp:4567-4610), so no caller reaches this.
- The document order comparator answers true for an attribute compared with itself, if the attribute has no
  place in the buffer (`Documents.DocumentOrder`). On the sets that queries build, which have each node once, the
  sort is right nevertheless (`NodeSetSorting.SortNodes`).
- With such an attribute twice in a set that a user has built, the same answer can make the sort loop for ever: it
  does when no other element of a part comes after it and copies of it stand in the middle and at the end
  (`Sorting.RoundOfTwoCopies`; `Sorting.Round` is the exact condition for a round).
- Under the default options white space text does not survive printing and parsing
  (`XmlRoundTrip.SpaceIsLost`).
- The slot computation of the queue is commented as signed and is unsigned (`CircularIndex.LookupFindsSlot`);
  it is right because capacities are powers of two.

Lines in the table are those of the operation the member models, or of the code it states a property of.

## Model

| member | source | states |
|---|---|---|
| FreeList.NextKeepsInv | libcarla/include/moodycamel/ConcurrentQueue.h:1387-1466 | every step of every thread inside `add`, `try_get` or the push keeps the invariant: each node has one place, its counter is its list reference plus its holders, the pointers spell out the list, and what a thread has read and still relies on is right |
| FreeList.RunInv | libcarla/include/moodycamel/ConcurrentQueue.h:1387-1466 | the invariant holds at every point of every run of any number of threads from an initial state: what it says of the memory words, the pointers and the threads is in `FreeList.PlaceIsInMemory`, and that calls do what they are for in the next four rows |
| FreeList.TryGetTakesFirst | libcarla/include/moodycamel/ConcurrentQueue.h:1401-1440 | a `try_get` that nobody disturbs ends, and it hands out the first node of a list that has one: that node is then the client's, unreferenced, and nothing else has changed |
| FreeList.AddPutsFirst | libcarla/include/moodycamel/ConcurrentQueue.h:1387-1399 | an `add` that nobody disturbs ends with its node as the first of the list, before those that were there |
| FreeList.LoneCallIsOne | libcarla/include/moodycamel/ConcurrentQueue.h:1387-1466 | the state in which an undisturbed call is made determines the whole of it, so the two rows above speak of every such call |
| FreeList.NullMeansEmpty | libcarla/include/moodycamel/ConcurrentQueue.h:1406-1438 | over any run a `try_get` that ends without handing out a node has found the list empty: the list had no node in some state between its call and its end |
| FreeList.PlaceIsInMemory | libcarla/include/moodycamel/ConcurrentQueue.h:1387-1466 | each node is in exactly one place and its memory word tells which; the low bits count the holders plus the reference of the list, the flag is up exactly while the node waits or is being relinked, at most one thread is in charge of it, and a waiting node always has a holder that will push it |
| FreeList.HandedOutOncePerAdd | libcarla/include/moodycamel/ConcurrentQueue.h:1387-1466 | over any run a node is handed out only after a client has given it to the list, and never to a second caller before a client has given it back |
| FreeList.NoAba | libcarla/include/moodycamel/ConcurrentQueue.h:1401-1438 | when the CAS of the head in `try_get` succeeds, the next pointer read earlier is still that of the second node, so the CAS removes exactly the first node |
| FreeList.TakenHasNoFlag | libcarla/include/moodycamel/ConcurrentQueue.h:1418-1421 | the assert of `try_get`: a node just taken off the list does not have the should-be-on-list bit set |
| FreeList.QuietListKeepsEveryNode | libcarla/include/moodycamel/ConcurrentQueue.h:1387-1466 | with no call in progress every node is either with the clients, unreferenced and unmarked, or once on the list with the single reference of the list; the two counts add up to all nodes |
| FreeList.LinkStep | libcarla/include/moodycamel/ConcurrentQueue.h:1444-1466 | the successful push CAS keeps the invariant |
| FreeList.UnlinkStep | libcarla/include/moodycamel/ConcurrentQueue.h:1415-1427 | the successful take CAS keeps the invariant |
| FreeList.PushFailStep | libcarla/include/moodycamel/ConcurrentQueue.h:1458-1466 | a failed push gives its reference back with the bit set, and retries exactly when it was the last holder |
| FreeList.GetDropStep | libcarla/include/moodycamel/ConcurrentQueue.h:1430-1436 | a failed take gives its reference back, and pushes the node if it was the last holder of a waiting one |
| DequeueTickets.NextKeepsInv | libcarla/include/moodycamel/ConcurrentQueue.h:1898-1995 | every step of the producer and of any number of consumers keeps the ticket invariant: a consumer with overcommit o and ticket c knows that at least o tickets below c are lost |
| DequeueTickets.RunInv | libcarla/include/moodycamel/ConcurrentQueue.h:1898-1995 | the invariant holds at every point of every run |
| DequeueTickets.DecideFits | libcarla/include/moodycamel/ConcurrentQueue.h:1922-1946 | the arithmetic core: a consumer that read overcommit o and drew ticket c takes only elements below the tail, even though other consumers decide in any order |
| DequeueTickets.HeadWithinTail | libcarla/include/moodycamel/ConcurrentQueue.h:1898-1995 | the head never passes the tail, even when the elements already promised and not yet claimed are added to it |
| DequeueTickets.TicketsBalance | libcarla/include/moodycamel/ConcurrentQueue.h:1898-1995 | conservation at every step: tickets drawn = claimed + given back + in flight |
| DequeueTickets.ClaimedExactlyOnce | libcarla/include/moodycamel/ConcurrentQueue.h:1898-1995 | over any run an index is below the head if and only if exactly one step of one consumer has claimed it, and it had been enqueued by then |
| DequeueTickets.QuietDequeueTakesWhatIsThere | libcarla/include/moodycamel/ConcurrentQueue.h:2183-2273 | past failures cost nothing: with no other call in progress a dequeue of up to max elements takes min(max, elements present) and leaves the counters balanced |
| DequeueTickets.TailIsEnqueued | libcarla/include/moodycamel/ConcurrentQueue.h:1889-1894 | over any run the tail is the number of all elements enqueued, whatever consumers do |
| DequeueTickets.DequeueEnds | libcarla/include/moodycamel/ConcurrentQueue.h:1898-1995 | a dequeue waits for nobody: its next step is always possible, and whatever others do it is over after at most seven steps of its own |
| DequeueTickets.EmptyHanded | libcarla/include/moodycamel/ConcurrentQueue.h:1898-1935 | over any run, exactly when a consumer comes back without drawing a ticket: if and only if the elements that it saw and that are not claimed yet are no more than the tickets in flight and those handed back since it looked |
| WrappedTickets.WrappedStepRefines | libcarla/include/moodycamel/ConcurrentQueue.h:417-429 | a step on 64-bit wrapped counters with `circular_less_than` is the image of the step on unbounded counters while the compared differences fit a signed word |
| WrappedTickets.SingleTest | libcarla/include/moodycamel/ConcurrentQueue.h:1935 | the test of the single dequeue is the bulk test for one element |
| WrappedTickets.WrappedRunRefines | libcarla/include/moodycamel/ConcurrentQueue.h:1898-1995 | the same for whole runs, so all of the above holds of the wrapped counters |
| WrappedTickets.WindowHolds | libcarla/include/moodycamel/ConcurrentQueue.h:1898-1995 | the differences a consumer compares do fit while the elements and tickets that were there when its call began or came since number less than 2^63 |
| WrappedTickets.BoundedRunRefines | libcarla/include/moodycamel/ConcurrentQueue.h:1898-1995 | so over every run from the start within that one bound the wrapped counters and locals are the images of the unbounded ones |
| Words.CircularOrder | libcarla/include/moodycamel/ConcurrentQueue.h:417-429 | on wrapped counters whose true difference fits a signed word the circular order is the true order |
| CircularIndex.LookupFindsSlot | libcarla/include/moodycamel/ConcurrentQueue.h:1949-1960 | the unsigned division in the slot computation finds the right slot from any reference slot before or after it, however often indices and bases have wrapped, when the capacity is a power of two dividing 2^64 / BLOCK_SIZE; the comment in the program asks for a signed division, which the unsigned block size turns back into an unsigned one |
| CircularIndex.WrappedOffset | libcarla/include/moodycamel/ConcurrentQueue.h:1954-1960 | the quotient of wrapped block bases is the difference of the block numbers modulo the number of blocks in a word |
| ImplicitIndex.NextKeepsInv | libcarla/include/moodycamel/ConcurrentQueue.h:2485-2930 | every step of the producer (insert, tail store, value store, growth) and of every consumer (lookup, emptying, unlink, give back) keeps the index invariant, with consumers holding headers of any age |
| ImplicitIndex.RunInv | libcarla/include/moodycamel/ConcurrentQueue.h:2485-2930 | the invariant holds at every point of every run; that enqueues publish and claims empty is in the rows of `ImplicitCalls` |
| ImplicitIndex.LookupFindsBlock | libcarla/include/moodycamel/ConcurrentQueue.h:2870-2886 | the asserts of the lookup: from whatever header and tail slot the consumer read, and however much the index has moved or grown since, the slot holds the key of the block of the element and that very block, not null |
| ImplicitIndex.LiveBlockHasEntry | libcarla/include/moodycamel/ConcurrentQueue.h:2828-2855 | in every header, current or old, the entries of an unreleased block and of all later ones keep their keys: entries are reused in the order of their blocks |
| ImplicitIndex.BlockStaysWhileRead | libcarla/include/moodycamel/ConcurrentQueue.h:2499-2544 | while a consumer moves elements out, the block stays with the producer, nobody releases it, and its emptiness count does not overshoot |
| ImplicitIndex.ConsumerIsReady | libcarla/include/moodycamel/ConcurrentQueue.h:2499-2544 | no consumer is ever held up: whatever it is about to look at, header, slot, entry or block, exists |
| ImplicitIndex.GrownSlotIsFresh | libcarla/include/moodycamel/ConcurrentQueue.h:2845-2854 | the assert after growth: the next entry is a fresh one |
| ImplicitIndex.GrowKeepsIndex | libcarla/include/moodycamel/ConcurrentQueue.h:2888-2930 | growth copies the entries to a header of twice the size with every live block at its computed slot |
| ImplicitIndex.StoreKeyKeepsIndex | libcarla/include/moodycamel/ConcurrentQueue.h:2828-2842 | taking over the next entry costs each header at most its oldest block, which is a released one |
| ImplicitIndex.QuietBlocks | libcarla/include/moodycamel/ConcurrentQueue.h:2530-2544 | no leak and no early release: with no consumer inside a call, the blocks given back are exactly those all of whose elements were claimed |
| ImplicitCalls.AllPublished | libcarla/include/moodycamel/ConcurrentQueue.h:2422-2484 | over any run, whenever no enqueue is in progress the tail is the sum of the counts of all enqueues made: none has ended without publishing its elements |
| ImplicitCalls.NotBeforeTheEnd | libcarla/include/moodycamel/ConcurrentQueue.h:2557-2704 | while an enqueue is in progress, whatever consumers do, the tail stays the sum of the counts of the earlier ones |
| ImplicitCalls.EnqueueEnds | libcarla/include/moodycamel/ConcurrentQueue.h:2422-2484 | every enqueue ends: each step of its own lowers the number of steps it still takes, and no step of a consumer raises it |
| ImplicitCalls.EnqueueGoesOn | libcarla/include/moodycamel/ConcurrentQueue.h:2422-2484 | an enqueue in progress always has a next step, unless the larger index that it needs would not fit the address space |
| ImplicitCalls.QuietClaim | libcarla/include/moodycamel/ConcurrentQueue.h:2486-2554 | with nobody inside a call, a claim of any n elements up to the sum of all enqueued minus those claimed is possible, its call ends, and it has emptied exactly the next n elements; before and after, the elements emptied are those below the head |
| ProducerHash.NextKeepsInv | libcarla/include/moodycamel/ConcurrentQueue.h:3306-3454 | every step of every thread in `get_or_add_implicit_producer` (search of all tables, lazy copy, count, try-lock, resize, insert) keeps the invariant |
| ProducerHash.RunInv | libcarla/include/moodycamel/ConcurrentQueue.h:3306-3454 | the invariant holds at every point of every run |
| ProducerHash.TableNeverFills | libcarla/include/moodycamel/ConcurrentQueue.h:3369-3454 | every table of the chain, lazily copied keys included, always holds fewer keys than three quarters of its capacity |
| ProducerHash.ProbesAreBounded | libcarla/include/moodycamel/ConcurrentQueue.h:3326-3367 | every probe loop ends: a free slot comes before the quota is reached |
| ProducerHash.ProducersAreOwned | libcarla/include/moodycamel/ConcurrentQueue.h:3306-3454 | over any run, across concurrent resizes, two calls return the same producer if and only if they are calls of the same thread |
| ProducerHash.MissMeansAbsent | libcarla/include/moodycamel/ConcurrentQueue.h:3326-3367 | a probe that meets an empty slot proves that the key is not in the table |
| ProducerHash.JoinsOnce | libcarla/include/moodycamel/ConcurrentQueue.h:3369-3413 | a thread draws a count and a producer only while no table has its key |
| ProducerHash.LoneCallReturns | libcarla/include/moodycamel/ConcurrentQueue.h:3306-3454 | a call that nobody disturbs ends, whatever the tables and however far their keys have been copied, if no other thread holds the resize lock; it returns the producer of the thread, the same one as earlier calls |
| ProducerHash.OneResizer | libcarla/include/moodycamel/ConcurrentQueue.h:3372-3406 | at most one thread allocates a table at a time, and it appends to the newest |
| ProducerHash.ComputeNewCapacity | libcarla/include/moodycamel/ConcurrentQueue.h:3378-3382 | the doubling loop ends with a power of two more than twice the count |
| ExplicitProducers.ExplicitProducer.Enqueue | libcarla/include/moodycamel/ConcurrentQueue.h:1794-1895 | the element becomes the last of the queue; nothing changes when memory is missing or the tail would run half a word ahead of the head, and these are the only failures |
| ExplicitProducers.ExplicitProducer.EnqueueBulk | libcarla/include/moodycamel/ConcurrentQueue.h:1997-2180 | the abstract queue afterwards is the one that enqueuing the elements one by one leaves |
| ExplicitProducers.ExplicitProducer.Dequeue | libcarla/include/moodycamel/ConcurrentQueue.h:1949-1987 | first in, first out: the element returned is the first not yet claimed |
| ExplicitProducers.ExplicitProducer.Take | libcarla/include/moodycamel/ConcurrentQueue.h:1949-1987 | with an index of any age the consumer that claimed number i gets the value enqueued as number i, once |
| ExplicitProducers.ExplicitProducer.NewBlockIndex | libcarla/include/moodycamel/ConcurrentQueue.h:2291-2328 | the index doubles and every live block is found in the new one |
| ExplicitProducers.ExplicitProducer.CopyEntries | libcarla/include/moodycamel/ConcurrentQueue.h:2305-2313 | the copy of the circular index starts at the oldest entry and stops when all entries in use have been copied |
| ExplicitProducers.ExplicitProducer.StartBlock | libcarla/include/moodycamel/ConcurrentQueue.h:1799-1882 | a block is reused from the ring only when it is empty, otherwise a new one is put in; the contents of the queue do not change |
| ExplicitProducers.ExplicitProducer.AllocateBlocks | libcarla/include/moodycamel/ConcurrentQueue.h:2000-2100 | the first half of a bulk enqueue numbers and prepares exactly the blocks that the elements need, without touching the queue |
| ExplicitProducers.ExplicitProducer.Fill | libcarla/include/moodycamel/ConcurrentQueue.h:2102-2178 | the second half writes all elements in order, block by block |
| ExplicitProducers.ExplicitProducer.IsEmpty | libcarla/include/moodycamel/ConcurrentQueue.h:1498-1521 | a block is empty exactly when all its flags are up |
| ExplicitProducers.ExplicitProducer.constructor | libcarla/include/moodycamel/ConcurrentQueue.h:1712-1727 | a new producer is an empty queue |
| ExplicitSteps.NextKeepsInv | libcarla/include/moodycamel/ConcurrentQueue.h:1794-2180 | every access of the owner to shared memory in the middle of an enqueue, single or bulk, and every step of any number of consumers between them, keeps ring, index and contents right |
| ExplicitSteps.RunInv | libcarla/include/moodycamel/ConcurrentQueue.h:1794-2180 | the invariant holds at every point of every run |
| ExplicitSteps.TakesItsElement | libcarla/include/moodycamel/ConcurrentQueue.h:1949-1987 | first in, first out over every run: the consumer that claimed number i takes the element enqueued as number i, with whatever index and front it has loaded and whatever the owner is doing, and nobody takes it again |
| ExplicitSteps.CallAppends | libcarla/include/moodycamel/ConcurrentQueue.h:2102-2178 | when the tail is stored exactly the elements of the call have become visible, in order |
| ExplicitCalls.NotBeforeTheEnd | libcarla/include/moodycamel/ConcurrentQueue.h:1998-2178 | over any run, while an enqueue is in progress, whatever consumers do, exactly what was visible when it began is visible, and the owner has made no more steps than a bound in the elements and the blocks they need |
| ExplicitCalls.CallEnds | libcarla/include/moodycamel/ConcurrentQueue.h:1998-2178 | over any run an enqueue ends in one of two ways: it has stored the tail, and its elements follow those that were visible when it began, in their order; or it has given up for want of a block or of room before the head, and nothing has been added |
| ExplicitCalls.EnqueueAppends | libcarla/include/moodycamel/ConcurrentQueue.h:1998-2178 | in any state of any run, with consumers stopped anywhere, an enqueue that finds room for its blocks and is given them comes to its end with all its elements visible after those that were |
| ExplicitCalls.HeadIsClaims | libcarla/include/moodycamel/ConcurrentQueue.h:1944-1946 | over any run the elements claimed are as many as there were claims, and never more than are visible |
| ExplicitCalls.TakeGoesOn | libcarla/include/moodycamel/ConcurrentQueue.h:1949-1987 | the consumer of a claimed element that is not taken yet has exactly one next step, whatever the owner and others are at |
| ExplicitCalls.TakeComesNearer | libcarla/include/moodycamel/ConcurrentQueue.h:1949-1987 | three such steps take the element, and no step of anybody else sets a consumer back |
| ExplicitSteps.NoSlotRead | libcarla/include/moodycamel/ConcurrentQueue.h:2008-2085 | the index slot that the owner writes while it enters a block is none that a consumer reads |
| ExplicitProducers.ReuseKeeps | libcarla/include/moodycamel/ConcurrentQueue.h:1803-1813 | reusing the block ahead touches no element that is still in the queue |
| ExplicitProducers.InsertKeeps | libcarla/include/moodycamel/ConcurrentQueue.h:1838-1856 | a new block takes its place in ring and index without disturbing any lookup |
| ExplicitProducers.WriteKeeps | libcarla/include/moodycamel/ConcurrentQueue.h:1890-1894 | constructing the next element keeps the invariant |
| ExplicitProducers.PlaceIsRaw | libcarla/include/moodycamel/ConcurrentQueue.h:1890-1894 | an element is constructed only in raw storage |
| ExplicitProducers.AheadIsDone | libcarla/include/moodycamel/ConcurrentQueue.h:1498-1521 | an empty block ahead in the ring has had all its elements taken |
| ExplicitProducers.LookupIsRight | libcarla/include/moodycamel/ConcurrentQueue.h:1949-1960 | the slot found through a consumer's index holds the block of its element |
| ExplicitProducers.TakeKeeps | libcarla/include/moodycamel/ConcurrentQueue.h:1962-1986 | taking an element and flagging its place keeps the invariant |
| Documents.AncestorIsInterval | libcarla/include/pugixml/pugixml.cpp:7970-7975 | in a linked document the ancestors of x are the nodes whose preorder interval contains it |
| Documents.AxesPartition | libcarla/include/pugixml/pugixml.cpp:9798-9989 | self, ancestor, descendant, following and preceding contain every node of the document exactly once between them (XPath 1.0, section 2.2) |
| Documents.StepFill | libcarla/include/pugixml/pugixml.cpp:9798-10081 | the pointer walk of every axis, from a node or an attribute, ends; as a set it has selected exactly what `Documents.Chosen` says (next row), forward axes in document order and reverse axes in reverse order; when only one is asked for it has selected the nearest of them, and nothing only if there is none |
| Documents.AxisIsChosen | libcarla/include/pugixml/pugixml.cpp:9683-9796 | what an axis and a node test select, apart from the program: the nodes and attributes of the document that stand on the axis by parent links and document order and are nodes of XPath, with the kind and name that section 2.3 of XPath 1.0 asks for: `text()` accepts character data and CDATA sections, `*` and names the principal node type, `node()` everything |
| StringValues.TextSelected | libcarla/include/pugixml/pugixml.cpp:9751-9757 | what `descendant::text()` selects from an element, in document order, makes up the character data and CDATA sections of its tree: the string value of section 5 of XPath 1.0 |
| StringValues.StringValue | libcarla/include/pugixml/pugixml.cpp:7849-7901 | the loop down to first children, along siblings and up again collects that string value |
| Documents.FillDescendant | libcarla/include/pugixml/pugixml.cpp:9822-9852 | the descendant walk, with its climb to the next sibling of an ancestor |
| Documents.FillFollowing | libcarla/include/pugixml/pugixml.cpp:9872-9907 | the following walk |
| Documents.FillPreceding | libcarla/include/pugixml/pugixml.cpp:9909-9949 | the preceding walk: backwards over the half-cyclic sibling links, leaves before ancestors, ancestors of the start left out |
| Documents.FillAncestor | libcarla/include/pugixml/pugixml.cpp:9951-9969 | the ancestor walk |
| Documents.AxisInOrder | libcarla/include/pugixml/pugixml.cpp:9798-10081 | the items of an axis are in document order, or in reverse for reverse axes, and are exactly the selected ones |
| Documents.NodeIsBeforeSibling | libcarla/include/pugixml/pugixml.cpp:7903-7925 | walking from both siblings at once finds which comes first |
| Documents.NodeIsBefore | libcarla/include/pugixml/pugixml.cpp:7927-7968 | the slow comparison of two nodes is preorder |
| Documents.DocumentOrder | libcarla/include/pugixml/pugixml.cpp:7977-8060 | where the strings in the buffer are in document order, the comparator is, on distinct items, the strict order with attributes after their element and before its children, whether it decides by the buffer, by the links or by each for some items; of an item and itself it is true exactly for an attribute that has no place in the buffer |
| Documents.NodeIsAncestor | libcarla/include/pugixml/pugixml.cpp:7970-7975 | the test is ancestor-or-self |
| XmlPlaces.ParsedInOrder | libcarla/include/pugixml/pugixml.cpp:3248-3484 | for every input and every option, each name, value and text of the parsed document stands in the buffer where its pointer was set, and these places run from left to right in document order: an element, its attributes, its children |
| BufferOrder.ParsedPlaces | libcarla/include/pugixml/pugixml.cpp:7977-8004 | after a parse every node but the document node, and every attribute, has its own name or text at its place in the buffer; the places are in document order, so the comparator decides by them, and is then false of an attribute and itself |
| BufferEdits.EditsKeepPlaces | libcarla/include/pugixml/pugixml.cpp:2344-2406 | over any run of edits of a parsed document, names, values and texts set by `strcpy_insitu`, nodes and attributes put in, taken out, copied with shared strings or moved, and further buffers appended, the places the comparator goes by stay in document order, also where an attribute with a new name falls back on the place of its value |
| BufferEdits.ParsedLists | libcarla/include/pugixml/pugixml.cpp:7977-8004 | the listing that the edits start from has the very string pointers that the parse has left |
| BufferEdits.EditKeepsOrder | libcarla/include/pugixml/pugixml.cpp:4383-4416 | each edit keeps the order of the strings that are left in the buffer, or says that the places do not count |
| Sorting.Sort | libcarla/include/pugixml/pugixml.cpp:7444-7472 | for every order, whether it answers true for an element and itself or not, and every array: if the sort ends it leaves a sorted permutation; it ends if no element that comes before itself is there twice, and does not if the first round is stuck; the recursion is only logarithmically deep, since it is on the smaller side |
| Sorting.Round | libcarla/include/pugixml/pugixml.cpp:7449-7471 | a round on any part of more than sixteen elements keeps its bounds if and only if the pivot comes before itself and no other element of the part comes after it; the part then stays as it is, so the loop does not end |
| Sorting.RoundOfTwoCopies | libcarla/include/pugixml/pugixml.cpp:7449-7471 | two copies are enough: of an element that comes before itself and that no other of the part comes after, in the middle and at the end |
| Sorting.RoundOfCopies | libcarla/include/pugixml/pugixml.cpp:7449-7471 | the same with nothing but copies |
| Sorting.StuckIsUnfit | libcarla/include/pugixml/pugixml.cpp:7408-7442 | where a round is stuck, its pivot is there twice |
| Sorting.Partition3 | libcarla/include/pugixml/pugixml.cpp:7417-7442 | a three-way split around the pivot that permutes the part, also when the equal block is larger than the lesser one and the closing swaps cross |
| Sorting.MedianIsOne | libcarla/include/pugixml/pugixml.cpp:7408-7415 | the median is one of the three elements, and one that no other of them comes after only if two of them are equal, which makes every other partition a progress |
| Sorting.InsertionSort | libcarla/include/pugixml/pugixml.cpp:7386-7406 | a sorted permutation |
| Sorting.UniqueInPlace | libcarla/include/pugixml/pugixml.cpp:7363-7384 | in place, exactly one element of each run of equal neighbours |
| Sorting.UniqueOfSorted | libcarla/include/pugixml/pugixml.cpp:7363-7384 | of a sorted sequence every element is kept once, in order |
| Sorting.RemoveDuplicates | libcarla/include/pugixml/pugixml.cpp:8858-8864 | every element of the set exactly once |
| NodeSetSorting.ComparatorIsOrder | libcarla/include/pugixml/pugixml.cpp:8008-8060 | the comparator is an order of the kind the sort needs, and is irreflexive if and only if every attribute has a place in the buffer |
| NodeSetSorting.FitSets | libcarla/include/pugixml/pugixml.cpp:8008-8060 | no element that comes before itself is in a set twice if and only if no attribute without a place in the buffer is; on such a set, also one that a user has built, the sort ends |
| NodeSetSorting.SortNodes | libcarla/include/pugixml/pugixml.cpp:8846-8849 | sorting the nodes of a set, each of which is in it once, with that comparator gives its listing in document order |
| XPath.ApplyPredicateInPlace | libcarla/include/pugixml/pugixml.cpp:9579-9629 | filtering within the array keeps exactly the nodes for which the predicate holds at their position, in order, and leaves the nodes before alone |
| XPathModes.PosInvNative | libcarla/include/pugixml/pugixml.cpp:10935-10964 | an expression that `is_posinv_expr` accepts has a value that does not depend on position and size |
| XPathModes.NodesIndependent | libcarla/include/pugixml/pugixml.cpp:10935-10964 | a node-set expression does not see position and size either |
| XPathModes.AgreeNodes | libcarla/include/pugixml/pugixml.cpp:10083-10127 | evaluating a node-set expression to find all nodes, the first node or any node gives what full evaluation gives: the same set, the same first node, the same emptiness |
| XPathModes.AgreeNative | libcarla/include/pugixml/pugixml.cpp:10179-10860 | short-cut modes and all, the program gives every boolean, number and string expression the value that full evaluation, with the comparisons of the program, gives it |
| XPathModes.ConstantPicks | libcarla/include/pugixml/pugixml.cpp:9631-9657 | the constant predicate short cut picks the node that testing every node picks |
| XPathModes.FirstIsLeast | libcarla/include/pugixml/pugixml.cpp:8753-8772 | the first node is the least in document order, whatever the order of the set |
| XPathModes.OrderOfIsRight | libcarla/include/pugixml/pugixml.cpp:8714-8728 | comparing neighbours is enough to recognise an ordered set |
| XPathModes.SortDoIsListing | libcarla/include/pugixml/pugixml.cpp:8846-8849 | the set in document order |
| XPathModes.LoopResult | libcarla/include/pugixml/pugixml.cpp:10083-10127 | after the loop of a step the raw set, with duplicates removed where they can occur, stands for the set the step means |
| XPathOptimizer.OptimizePreserves | libcarla/include/pugixml/pugixml.cpp:10862-10933 | the tree after `optimize` has the full value that the tree had, for every well-formed expression and context: boolean, string, number and node set |
| XPathOptimizer.OptimizedQuery | libcarla/include/pugixml/pugixml.cpp:10862-10979 | running the optimized query gives what running the query as parsed gives |
| XPathOptimizer.RunsToListing | libcarla/include/pugixml/pugixml.cpp:10083-10127 | in mode all the result sorts to the full set in document order, in mode first it has the first node of that |
| XPathOptimizer.MergePreserves | libcarla/include/pugixml/pugixml.cpp:10898-10912 | `descendant-or-self::node()` merged into a position-invariant step selects the same nodes |
| XPathOptimizer.UnpositionedHolds | libcarla/include/pugixml/pugixml.cpp:10877-10883 | `[position() = e]` and `[e]` hold in the same contexts |
| XPathOptimizer.AttributeTest | libcarla/include/pugixml/pugixml.cpp:10925-10932 | `@name = 'value'` by attribute lookup is the comparison of the node set |
| XPathOptimizer.TableTranslates | libcarla/include/pugixml/pugixml.cpp:8442-8524 | translating by table is translating character by character, for every string |
| XPathOptimizer.TranslateTableGenerate | libcarla/include/pugixml/pugixml.cpp:8464-8494 | the loops build that table, or give up exactly on the arguments it cannot serve |
| XPathOptimizer.OptimizeFormed | libcarla/include/pugixml/pugixml.cpp:10862-10933 | optimizing keeps an expression well-formed and of its type |
| XPathStandard.QueryMeetsStandard | libcarla/include/pugixml/pugixml.cpp:10083-10979 | compiled and run, a query gives the value that sections 2.4, 3.1 to 3.5 and 4.1 to 4.4 of XPath 1.0 define (`XPathMeaning.Meaning`, which uses nothing of the evaluator: node sets are sets, predicates select by proximity position, comparisons of node sets are existential): its boolean, string and number, and its nodes in document order. The conditions are on the syntax tree and the document: no boolean and node set are asked which is less; namespace nodes are not asked for; the document has no declaration or document type, or no step of the query has the test `node()`; and either `translate` is given ASCII literals and `string-length` and `substring` are not used, or all strings are ASCII |
| XPathAgreement.MeaningOfValues | libcarla/include/pugixml/pugixml.cpp:10179-10732 | with full evaluation in place of short cuts, the evaluator's boolean, string and number of every expression are those of its meaning |
| XPathAgreement.MeaningOfNodes | libcarla/include/pugixml/pugixml.cpp:10734-10840 | and its list of the nodes of a node-set expression is the node set of its meaning in document order; that the modes and short cuts of the program change nothing is in `XPathModes.AgreeNodes` |
| XPathStandard.StepMeetsStandard | libcarla/include/pugixml/pugixml.cpp:9723-9796 | from a node that there is in XPath, axis and node test select what XPath 1.0 selects if and only if the test is not `node()` or no declaration or document type is on the axis |
| XPathStandard.NodeFindsDeclaration | libcarla/include/pugixml/pugixml.cpp:9731-9742 | the concrete failure: on a document with a declaration or document type `/node()` finds it, and its count is another than in XPath 1.0 |
| XPathStandard.TranslateCutsCharacters | libcarla/include/pugixml/pugixml.cpp:8442-8462 | the concrete failure: translating é from à to a in UTF-8 gives a and a stray byte, where XPath 1.0 leaves é |
| XPathStandard.StringLengthMeetsStandard | libcarla/include/pugixml/pugixml.cpp:10354-10366 | `string-length` of a text in UTF-8 is the number of its characters if and only if the text is ASCII |
| XPathStrings.AsciiTranslate | libcarla/include/pugixml/pugixml.cpp:8442-8462 | translating ASCII to ASCII byte by byte is translating characters, in every text whatever else is in it |
| XPathStrings.SubstringIsPicked | libcarla/include/pugixml/pugixml.cpp:10593-10641 | the clamping of `substring` picks exactly the bytes at the positions that section 4.2 of XPath 1.0 names, also for infinite and undefined bounds |
| XPathStrings.CharactersOfText | libcarla/include/pugixml/pugixml.cpp:8442-8462 | the characters that are compared with bytes here are the code points of UTF-8 (RFC 3629, section 3) |
| XPathStandard.ComparisonMeetsStandard | libcarla/include/pugixml/pugixml.cpp:9508-9566 | for `<`, `>`, `<=` and `>=` between a node set and a boolean whose own values meet the standard, on either side, the program gives the value of section 3.4 of XPath 1.0 if and only if the numbers of the nodes are as the four relations and two booleans each require |
| XPathStandard.LessThanTrue | libcarla/include/pugixml/pugixml.cpp:9508-9566 | the concrete failure: `nodes < true()` where the only number is 0 is true in the program and false in XPath 1.0 |
| XmlText.ReferenceShortens | libcarla/include/pugixml/pugixml.cpp:2452-2590 | every character reference and entity is written with more bytes than it stands for, so decoding in place never overtakes the reader |
| XmlReferences.ReferenceReads | libcarla/include/pugixml/pugixml.cpp:2452-2590 | at every ampersand of every text: the decoder reads a reference as what sections 4.1 and 4.6 of XML 1.0 say it stands for, decimal or hexadecimal or one of the five names, and nothing else as a reference; a number is taken modulo 2^32, as the program does |
| XmlReferences.PcdataMeans | libcarla/include/pugixml/pugixml.cpp:2663-2712 | the decoder turns every text up to its end mark into what it stands for, references and line ends (section 2.11) resolved from left to right |
| XmlReferences.AttributeMeans | libcarla/include/pugixml/pugixml.cpp:2734-2881 | so it does every attribute value, in all four modes of white space |
| XmlReferences.NormalizedMeans | libcarla/include/pugixml/pugixml.cpp:2737-2789 | a normalised value has no white space at its ends, either |
| InPlace.Gap.Push | libcarla/include/pugixml/pugixml.cpp:2419-2435 | opening a gap collapses the one there is; the text read so far does not change |
| InPlace.Gap.Flush | libcarla/include/pugixml/pugixml.cpp:2437-2449 | closing the gap leaves the text contiguous |
| InPlace.StrconvEscape | libcarla/include/pugixml/pugixml.cpp:2452-2590 | one reference is replaced in the buffer by what it stands for |
| InPlace.StrconvPcdata | libcarla/include/pugixml/pugixml.cpp:2663-2712 | the buffer holds exactly what the out-of-place decoder gives for entities, references, line ends and trimming, ended with NUL at or before the reader |
| InPlace.StrconvAttribute | libcarla/include/pugixml/pugixml.cpp:2734-2881 | the same for attribute values in all four white space modes |
| XmlRoundTrip.PrintThenParse | libcarla/include/pugixml/pugixml.cpp:3248-3484 | parsing the raw print of any element, with names that are names and texts without NUL, gives its normal form, under every choice of line end conversion, white space conversion in attributes and keeping of white space text: adjacent text joined, empty text and, unless kept, white space text dropped, CDATA split at `]]>`, line ends and tabs converted as chosen; what the parser does with any other text is in the next five rows |
| XmlCompleteness.AcceptsExactly | libcarla/include/pugixml/pugixml.cpp:2935-3484 | for every text and all options: the parser accepts it if and only if it has a derivation with an element in the grammar of `XmlGrammar`, in which every end tag repeats the name of its own element and comments, processing instructions and document types are whole; and the parser builds the tree of the derivation, whichever it is |
| XmlAcceptance.AcceptedIsDerived | libcarla/include/pugixml/pugixml.cpp:2935-3484 | soundness: a text that is accepted is, up to its first NUL, the spelling of a derivation, and the tree is that of the derivation |
| XmlCompleteness.DerivedIsAccepted | libcarla/include/pugixml/pugixml.cpp:2935-3484 | completeness: the spelling of a derivation is accepted with its tree, or refused for having no element if it has none |
| XmlCompleteness.MismatchIsFound | libcarla/include/pugixml/pugixml.cpp:3377-3392 | whatever elements are open, whatever is in them and whatever comes after: an end tag with another name than that of the innermost element fails with the status for that |
| XmlCompleteness.PrintedMismatch | libcarla/include/pugixml/pugixml.cpp:3377-3392 | a printed element whose end tag has another name is refused for it |
| XmlRoundTrip.RoundTripExactly | libcarla/include/pugixml/pugixml.cpp:3248-3484 | under each of these options printer and parser undo each other if and only if the tree is clean: no character data is empty, dropped as white space or beside other character data, no CDATA contains `]]>`, and no text or value holds what the options convert |
| XmlRoundTrip.SectionsJoin | libcarla/include/pugixml/pugixml.cpp:3961-3981 | the CDATA sections that a text is printed in join to the text, and none contains an end mark |
| XmlRoundTrip.NormalIsClean | libcarla/include/pugixml/pugixml.cpp:3248-3484 | what the parser gives back is a tree of the kind that round-trips |
| XmlRoundTrip.PcdataDecodes | libcarla/include/pugixml/pugixml.cpp:2663-2712 | printed character data comes back as it was, with its line ends normalised where they are converted |
| XmlRoundTrip.AttributeDecodes | libcarla/include/pugixml/pugixml.cpp:2734-2881 | a printed attribute value comes back as it was in the three modes without normalisation, with spaces for its tabs where white space is converted |
| XmlRoundTrip.DefaultSurvives | libcarla/include/pugixml/pugixml.cpp:3248-3484 | under parse_default a printable element survives printing and parsing if and only if no attribute value has a tab, no character data or CDATA a carriage return, no character data is empty or only white space or beside other character data, and no CDATA has `]]>` |
| XmlRoundTrip.SpaceIsLost | libcarla/include/pugixml/pugixml.cpp:3428-3444 | the concrete loss: under parse_default an element whose text is one space comes back without it |
| XmlRoundTrip.EscapeReads | libcarla/include/pugixml/pugixml.cpp:3912-3951 | each escape that the printer writes is read as the character it was written for |
| XmlPrinter.NodeOutput | libcarla/include/pugixml/pugixml.cpp:4230-4321 | the loop over links, without recursion, prints the tree that the links describe |
| XmlPrinter.OutputEscaped | libcarla/include/pugixml/pugixml.cpp:3912-3951 | the loop over runs of usual characters escapes the whole text |
| XmlPrinter.OutputCdata | libcarla/include/pugixml/pugixml.cpp:3961-3981 | the loop writes the sections the text is cut into |
| XmlPrinter.OutputStart | libcarla/include/pugixml/pugixml.cpp:4096-4156 | a start tag, and whether the element stays open |
| XmlPrinter.OutputEnds | libcarla/include/pugixml/pugixml.cpp:4289-4315 | going up writes the closing tags of exactly the elements that end there |
| Dom.Dom.AppendNode | libcarla/include/pugixml/pugixml.cpp:1237-1256 | the node becomes the last child; parent, first, next and half-cyclic previous links match the lists of children again |
| Dom.Dom.PrependNode | libcarla/include/pugixml/pugixml.cpp:1258-1274 | the node becomes the first child |
| Dom.Dom.InsertNodeAfter | libcarla/include/pugixml/pugixml.cpp:1276-1291 | the node comes right after its sibling |
| Dom.Dom.InsertNodeBefore | libcarla/include/pugixml/pugixml.cpp:1293-1308 | the node comes right before its sibling |
| Dom.Dom.RemoveNode | libcarla/include/pugixml/pugixml.cpp:1310-1327 | the node leaves its list, and its own links are cleared |
| DomLinks.InsertLinks | libcarla/include/pugixml/pugixml.cpp:1237-1308 | the four insertions have one effect on the links, and it is what inserting into the list of children asks for |
| DomLinks.UnlinkLinks | libcarla/include/pugixml/pugixml.cpp:1310-1327 | the same for removal |
| DomLinks.OneListChanges | libcarla/include/pugixml/pugixml.cpp:1237-1327 | an edit that touches one list keeps all other lists linked |
| Dom.StaysAcyclic | libcarla/include/pugixml/pugixml.cpp:4359-4381 | putting a node below a target leaves a forest if and only if the target is not in the subtree of the node |
| Dom.WhatStandsWhere | libcarla/include/pugixml/pugixml.cpp:4350-4357 | after any moves every child stands under a kind of node that pugixml's table allows: no document node is a child, declarations and document types are children of a document only, and only documents and elements have children |
| Dom.Dom.AllowMove | libcarla/include/pugixml/pugixml.cpp:4359-4381 | the climb from the new parent answers exactly whether kinds and document fit and no cycle would be tied |
| Dom.Dom.AppendMove | libcarla/include/pugixml/pugixml.cpp:5968-5982 | a move is refused exactly when it is not allowed, and then nothing changes; otherwise the document stays a typed forest, only two lists of children change, and the moved subtree is the tree it was |
| Dom.Dom.PrependMove | libcarla/include/pugixml/pugixml.cpp:5984-5998 | the same, to the first place |
| Dom.Dom.InsertMoveAfter | libcarla/include/pugixml/pugixml.cpp:6000-6016 | the same, right after a child of the new parent, which may lose a child by the move itself |
| Dom.Dom.InsertMoveBefore | libcarla/include/pugixml/pugixml.cpp:6018-6034 | the same, right before it |
| Dom.Dom.RemoveChild | libcarla/include/pugixml/pugixml.cpp:6060-6071 | only a child is removed; everything else keeps its place |
| Dom.Dom.AppendNewNode | libcarla/include/pugixml/pugixml.cpp:1404-1414 | a new node as last child |
| Dom.Dom.CopyTree | libcarla/include/pugixml/pugixml.cpp:4420-4464 | the walk over parent and sibling links ends, also when the destination lies inside the source, and makes the destination show the tree that the source showed before the destination was linked in |
| Dom.Dom.Climb | libcarla/include/pugixml/pugixml.cpp:4450-4462 | from a finished node the walk goes to its next sibling or up to a parent that has one, with the copy alongside |
| Dom.Dom.AppendCopy | libcarla/include/pugixml/pugixml.cpp:5898-5913 | the copy shows the tree the original showed before the call, wherever the copy was put, and all old nodes keep their contents and, but for the copy, their children |
| Dom.Dom.PrependCopy | libcarla/include/pugixml/pugixml.cpp:5915-5930 | the same, as first child |
| Dom.Dom.InsertCopyAfter | libcarla/include/pugixml/pugixml.cpp:5932-5948 | the same, right after a child |
| Dom.Dom.InsertCopyBefore | libcarla/include/pugixml/pugixml.cpp:5950-5966 | the same, right before a child |
| Dom.Dom.constructor | libcarla/include/pugixml/pugixml.cpp:6886-6927 | an empty document is a valid one |
| Dom.Dom.AddDocument | libcarla/include/pugixml/pugixml.cpp:6886-6927 | another document in the same store: nothing moves between its root and the nodes of the others |
| DomCopy.ShowsOne | libcarla/include/pugixml/pugixml.cpp:4420-4464 | a node shows at most one tree |
| DomCopy.ShowsSome | libcarla/include/pugixml/pugixml.cpp:4420-4464 | and, there being no cycles, it shows one |
| DomCopy.CopyInner | libcarla/include/pugixml/pugixml.cpp:4433-4447 | copying a node with children opens a level below its copy |
| DomCopy.CopyLeaf | libcarla/include/pugixml/pugixml.cpp:4433-4447 | copying a node without children finishes its copy |
| DomCopy.PopLevel | libcarla/include/pugixml/pugixml.cpp:4450-4462 | at the end of a list of children the copy of their parent is finished |
| DomCopy.WorkNode | libcarla/include/pugixml/pugixml.cpp:4430-4463 | each node copied leaves less to do, which is why the walk ends |
| PageAllocator.Allocator.AllocateMemory | libcarla/include/pugixml/pugixml.cpp:547-559 | a block that no live block touches, in memory that the system gave: on the last page behind what is used of it if it fits there, otherwise on a new page |
| PageAllocator.Allocator.AllocateOutOfBand | libcarla/include/pugixml/pugixml.cpp:713-749 | the block is at the start of a new page, which comes last for a small block and right before the last for a large one |
| PageAllocator.Allocator.DeallocateMemory | libcarla/include/pugixml/pugixml.cpp:599-641 | the asserts hold, and a page leaves the list exactly when it is not the last page and its last live block goes |
| PageAllocator.Allocator.AllocateString | libcarla/include/pugixml/pugixml.cpp:643-675 | the two 16-bit fields of the header encode the place and the size of the block |
| PageAllocator.Allocator.DeallocateString | libcarla/include/pugixml/pugixml.cpp:677-694 | decoding the header finds the page and frees exactly the block that was allocated |
| PageAllocator.Allocator.constructor | libcarla/include/pugixml/pugixml.cpp:6886-6927 | the first page counts as full, so it is never given away |
| PageAllocator.OneOwner | libcarla/include/pugixml/pugixml.cpp:547-559 | no byte belongs to two live blocks |
| PageAllocator.BlockFreed | libcarla/include/pugixml/pugixml.cpp:599-641 | busy minus freed is the sum of the live blocks of a page, so equal counters mean an empty page |
| PageAllocator.PageAdded | libcarla/include/pugixml/pugixml.cpp:713-749 | a new page keeps all accounts |
| BufferedWriter.WriteAll | libcarla/include/pugixml/pugixml.cpp:3698-3910 | whatever the sizes of the pieces, the stream finally gets one conversion of everything that was written |
| BufferedWriter.Writer.Flush | libcarla/include/pugixml/pugixml.cpp:3709-3714 | the stream is complete and the buffer empty |
| BufferedWriter.Writer.FlushData | libcarla/include/pugixml/pugixml.cpp:3716-3732 | a chunk is converted on its own, and the result fits the scratch space |
| BufferedWriter.Writer.WriteDirect | libcarla/include/pugixml/pugixml.cpp:3734-3771 | a long piece is cut between characters only |
| BufferedWriter.Writer.WriteString | libcarla/include/pugixml/pugixml.cpp:3788-3811 | a text copied up to a full buffer is backtracked to the start of the character that was split |
| BufferedWriter.Writer.Write | libcarla/include/pugixml/pugixml.cpp:3813-3881 | up to six characters at a time |
| BufferedWriter.Writer.WriteBuffer | libcarla/include/pugixml/pugixml.cpp:3773-3786 | a piece of known length |
| BufferedWriter.GetValidLength | libcarla/include/pugixml/pugixml.cpp:3658-3672 | the cut before the last byte that starts a character, or nothing of a short piece |
| BufferedWriter.ChunkIsWhole | libcarla/include/pugixml/pugixml.cpp:3658-3672 | of a text of complete characters that cut takes complete characters, and makes progress |
| Transcoding.ConvertJoins | libcarla/include/pugixml/pugixml.cpp:1625-1690 | converting two whole texts one after the other is converting them together |
| Transcoding.CutsWhole | libcarla/include/pugixml/pugixml.cpp:3658-3672 | before a byte that does not continue a character a text falls into two whole parts |
| Transcoding.ConvertFits | libcarla/include/pugixml/pugixml.cpp:3724-3727 | a conversion has no more units than the text has bytes |
| Transcoding.ConvertsScalars | libcarla/include/pugixml/pugixml.cpp:1475-1690 | text encoded as UTF-8 is whole, decodes to its code points, and converts to the UTF-16 of the code points (RFC 3629, section 3, RFC 2781, section 2) and to Latin-1 with a question mark for every code point above 255 |
| Transcoding.Decode16Encode16 | libcarla/include/pugixml/pugixml.cpp:1692-1742 | UTF-16 loses nothing |
| Transcoding.ThroughUtf16 | libcarla/include/pugixml/pugixml.cpp:1535-1742 | UTF-8 to UTF-16 and back gives the same bytes |
| Transcoding.CountAgrees | libcarla/include/pugixml/pugixml.cpp:2180-2203 | the counting pass counts what the writing pass writes |
| IntegerText.StringToInteger | libcarla/include/pugixml/pugixml.cpp:4483-4563 | for every text the result is the number clamped to the range of the type, except that for a signed type narrower than `int` a negative text above the least value is read as the least value; this is the exact condition, and no type that the library reads is so narrow |
| IntegerText.SixteenBitsFail | libcarla/include/pugixml/pugixml.cpp:4552-4560 | the concrete failure: "-5" read as a signed 16-bit number gives -32768 where `int` is wider, and -5 where it is not |
| IntegerText.DecimalOverflow | libcarla/include/pugixml/pugixml.cpp:4529-4549 | digit count, leading digit and high bit together detect decimal overflow exactly |
| IntegerText.HexOverflow | libcarla/include/pugixml/pugixml.cpp:4501-4521 | a hexadecimal number is too large exactly when it has too many digits |
| IntegerText.HexTextReads | libcarla/include/pugixml/pugixml.cpp:4495-4521 | hexadecimal text is read as the number that its digits, in either case, stand for with weights of sixteen, with sign and either prefix, clamped to the type |
| IntegerText.IntegerToString | libcarla/include/pugixml/pugixml.cpp:4614-4632 | the decimal digits, with a sign for negative numbers, also for the least value |
| IntegerText.IntegerRoundTrip | libcarla/include/pugixml/pugixml.cpp:4483-4632 | writing a value and reading it back with the program gives the value, for every width, signed or unsigned, if and only if it is not a negative value above the least one of a signed type narrower than `int` |

## Left out

- Weak memory ordering and fences: every atomic access is sequentially consistent.
- Allocation failure and throwing element operations in the queue, with the rollback of a failed bulk enqueue; a single enqueue that finds no memory is modelled.
- In `ExplicitSteps` a call that has already found blocks does not fail, and moving an element out and raising its flag are one step.
- The block-by-block loop of the explicit `dequeue_bulk`: its tickets are modelled (`DequeueTickets`), and its elements one at a time (`ExplicitProducers.ExplicitProducer.Take`).
- ExplicitProducers.ExplicitProducer.EnqueueBulk: asks that the index still fits the address space and that the blocks exist, because the failing call is not modelled.
- ExplicitProducers.ExplicitProducer.Enqueue: asks that blocks in use stay below 2^63 elements, which memory guarantees.
- The values of elements in the implicit producer: its theorem is that the right block is found; where in the block an element is follows from its index.
- Recycling of producers at thread exit (not compiled in here), queue move and swap, consumer tokens and their rotation, statistics.
- XPath library functions other than `count`, `position`, `last`, `id` and `translate`, number and string conversion, and arithmetic and rounding of doubles: parameters of the evaluator, and of the meaning of expressions, with the properties it relies on (`XPath.GoodLibrary`); the XPath parser and the namespace axis. In what is taken for XPath 1.0 here, too, names are compared as written, adjacent and empty texts are nodes of their own, no node has an id, and of several attributes of one name a step finds the first.
- XPathStandard.QueryMeetsStandard: the expression is one as it is parsed; the forms that only the optimizer makes have the values of those they replace (`XPathOptimizer.OptimizePreserves`).
- The optimizer is a function on syntax trees; the program rewrites the nodes in place.
- XmlCompleteness.AcceptsExactly: the grammar is that of pugixml, which accepts more than XML 1.0 does: attributes may be repeated, character data may stand outside of elements, and a document ends at its first NUL.
- ProducerHash.LoneCallReturns: a caller waits for another thread that holds the resize lock and does not move, as in the program, if the newest table is too full.
- XPath.ApplyPredicateInPlace: the array is filtered in place; the raw set around it is a value.
- The document order of items of different documents, which the program takes from addresses.
- BufferEdits.EditsKeepPlaces: the document is its listing in document order, on which putting in and taking out a subtree is putting in and taking out a stretch; the tree operations themselves are in `Dom`, without string memory.
- Removing duplicates sorts by address in the program; the model takes any strict order (`Sorting.RemoveDuplicates`).
- The parser is a recursive function over the input, and not the loop over a shared buffer; its text decoders are also modelled in place (`InPlace`). The options modelled are CDATA, escapes, line end conversion, white space conversion in attributes and white space text. Error offsets and the other options are not modelled.
- Comments, processing instructions, declarations and document types are skipped by the parser model and not printed: the printer changes `--` and `?>` on purpose.
- Indented output, byte order marks, encoding detection, file and stream input and output, wide character and compact modes.
- The attribute list of a node is a sequence in the tree models, without its own links.
- Dom.Dom.RemoveChild: the removed subtree stays in the store; giving its memory back is the business of `PageAllocator`.
- Dom.Dom.AppendCopy: strings are copied by value; the sharing of string memory between original and copy is not modelled.
- PageAllocator.Allocator.AllocateMemory: asks that the first allocation of a document is a small one, as it is in the program, where it is a node; the program would otherwise follow a null link.
- Input encodings other than UTF-8 and UTF-16, and byte order on output, in `Transcoding`.
- Other parts of the repository: the buffer pool, thread pool and futures, plotting and analysis scripts, ROS node mains and logging.
