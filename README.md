# A verified model of a library of lock-free FIFO queues

This project models, in Dafny, the queue algorithms of a library of lock-free
multi-producer/multi-consumer FIFO queues, and proves what each operation
computes when one thread runs it. It covers:

- **Tagged pointers**: three versions of the word that packs an address with a 16-bit generation tag:
  - `AtomicTagged` models ms-rust/src/atomic_tagged.rs;
  - `OldAtomicTagged` models ms-rust/src/old_code/atomic_tagged.rs;
  - `TaggedPtr` models ms-rust/src/tagged_ptr.rs.
  The encode/decode round trips and the tag bump are proved on `bv64` words.
- **Michael–Scott queues**: five variants. Each is a class whose linked list of nodes begins with a sentinel:
  - `MsQueueHazp` and `MsqHazp` use hazard pointers. The nodes dequeue unlinks go to a ghost set `retired`, which stands for the library's retire list;
  - `MsqTagged` uses tagged head and tail words, and frees nothing until the queue is dropped;
  - `MsqMain` uses plain atomic pointers and frees the old sentinel at once (`Box::from_raw`). The freed nodes go to a ghost set `freed`;
  - `MsqExperimental` uses `crossbeam_epoch` pointers and pins a guard, but never retires a node, so it keeps no such record.
  Enqueue appends to the queued values; dequeue returns the oldest value or nothing.
- **The PRQ ring segment** (`Prq`, over `PrqCell`, `Tickets` and `Gather`): a bounded array of cells with an epoch and a safe bit, plus head and tail ticket counters. It can be closed.
  - Each operation is a function on segment values: `EnqueueFrom`, `DequeueFrom` and `Fix`.
  - The class `PRQ` performs the same loads, fetch-adds and compare-and-swaps on arrays, and is proved to compute exactly those functions.
  - FIFO order, a capacity of `n` and closing are lemmas over the functions.
  - `ArcPrq` is the variant whose closed flag is bit 63 of the tail word.
  - `Crq` is the LCRQ segment, with boxed values and a `usize` full check.
- **The LPRQ** (`Lprq`, `ArcLprq`): an unbounded queue made of a chain of ring segments. A new segment is opened when the tail segment closes, and drained segments are unlinked. The hazard-pointer queue retires them and the epoch queue defers their destruction, which a ghost sequence `retired` records; the leak queue drops them, and `ArcLprq` leaves them to reference counting, which is not recorded. It is proved to behave as one FIFO queue over the values of all its segments.
- **The SCQ index ring of the C++ reference** (`Lfring`, `LfringRing`, `Lscq` over `Bits`):
  - entries pack a cycle and an index into one machine word, with the bitwise operators defined on natural numbers;
  - the ring's enqueue, dequeue, catch-up, threshold and reset are proved against a state function;
  - the bounded queue `SCQueue` is built from two such rings.
- **The CC-queue** (`Ccqueue`): a linked list whose operations run serially through a combining lock.
- **The analysis scripts**:
  - the thread-count selection of deduce_nproc.py (`DeduceNproc`);
  - the option parser and label renaming of pp_helpers.py (`PpHelpers`);
  - the file-name difference of draw_compare.py (`DrawCompare`).

Concurrency is not modelled. Every compare-and-swap is made by the only
running thread, so it fails only where another thread could have changed
the word. Those retry branches are proved unreachable, or are kept when the
code itself takes them in a single thread: for example, a tail that lags
behind, or a closed segment.

Where the code does something other than what a reader might expect, the
model follows the code:

- `make_token` combines the thread id with bit 63 by AND, so a token is either null or bit 63 alone.
- The Arc segment's `fix_state` overwrites the whole tail word with head, so it clears the closed bit.
- The SCQ ring's dequeue runs `__lfring_catchup` as written (`AsWritten`), so an EMPTY dequeue can reopen a closed ring, or leave its tail behind its head. The catch-up that keeps the closed bit (`KeepClosed`) is a parameter of the same functions and carries the same lemmas.
- experimental_msq.rs, like main.rs, returns the value of the old sentinel rather than of the node that follows it. No test in that file asserts otherwise, so `MsqExperimental.LaggedValues` records it as behaviour.

The three places where the code contradicts its own tests or evident intent are under "## Findings".

## Model

| member | source | states |
|---|---|---|
| AtomicTagged.Load | ms-rust/src/atomic_tagged.rs:23-26 | the loaded word has bits 48..55 clear, and ORing the cleared tag bits back gives the stored word |
| AtomicTagged.LoadTag | ms-rust/src/atomic_tagged.rs:28-32 | the tag, shifted back into place, is exactly bits 48..63 of the stored word |
| AtomicTagged.RoundTrip | ms-rust/src/atomic_tagged.rs:42-64 | for an address below 2^48 and a tag below 256, `load` gives back the address and `load_tag` the tag (the `basic` test stores tag 2) |
| AtomicTagged.TagRoundTrip | ms-rust/src/atomic_tagged.rs:14-32 | `load_tag` gives back any 16-bit tag that `new` stored |
| AtomicTagged.WideTagCorruptsAddress | ms-rust/src/atomic_tagged.rs:11-26 | with a tag of 256 or more, `load` does not give back the address: the tag's high byte stays in bits 56..63, because TAG_MASK covers only bits 48..55 |
| AtomicTagged.New | ms-rust/src/atomic_tagged.rs:14-21 | the low 48 bits of the word are the address's, and for an address below 2^48 the top 16 bits are the tag |
| OldAtomicTagged.New | ms-rust/src/old_code/atomic_tagged.rs:25-32 | the address bits of the word are the address's, and for an address below 2^48 the top 16 bits are the tag |
| OldAtomicTagged.Ptr | ms-rust/src/old_code/atomic_tagged.rs:34-36 | the pointer is below 2^48, and ORing the tag bits back gives the word |
| OldAtomicTagged.Tag | ms-rust/src/old_code/atomic_tagged.rs:38-41 | the tag, shifted back, is exactly the word's bits 48..63 |
| OldAtomicTagged.WithTag | ms-rust/src/old_code/atomic_tagged.rs:43-45 | the new word has the same pointer and the given tag |
| OldAtomicTagged.RoundTrip | ms-rust/src/old_code/atomic_tagged.rs:25-41 | `ptr` and `tag` of `new(addr, tag)` give back the address and the tag, for an address below 2^48 |
| OldAtomicTagged.EqSeesTag | ms-rust/src/old_code/atomic_tagged.rs:15-19 | two words with the same address are equal exactly when their tags are equal |
| OldAtomicTagged.EqIffFields | ms-rust/src/old_code/atomic_tagged.rs:15-19 | two words are equal exactly when both their pointers and their tags are equal |
| OldAtomicTagged.AtomicTagged.constructor | ms-rust/src/old_code/atomic_tagged.rs:57-63 | the cell holds the word `TaggedPointer::new` builds |
| OldAtomicTagged.AtomicTagged.Load | ms-rust/src/old_code/atomic_tagged.rs:65-69 | the load returns the stored word |
| OldAtomicTagged.AtomicTagged.CompareExchange | ms-rust/src/old_code/atomic_tagged.rs:71-83 | `Ok(previous)` and the new word stored when the stored word equals `current`; otherwise `Err(actual)` and the word unchanged |
| OldAtomicTagged.TestBasic | ms-rust/src/old_code/atomic_tagged.rs:93-113 | a word built with tag 311 loads back with the same address and tag 311 |
| TaggedPtr.RemoveTag | ms-rust/src/tagged_ptr.rs:49-52 | the result is below 2^48 |
| TaggedPtr.Tag | ms-rust/src/tagged_ptr.rs:54-59 | the result is the word shifted right by 48; the conversion to u16 never fails |
| TaggedPtr.SetTag | ms-rust/src/tagged_ptr.rs:61-64 | the addition overflows (`None`) exactly when the tag is already 0xFFFF |
| TaggedPtr.Decompose | ms-rust/src/tagged_ptr.rs:24-59 | every word is its address bits ORed with its tag shifted into place |
| TaggedPtr.RoundTrip | ms-rust/src/tagged_ptr.rs:24-59 | `remove_tag` and `tag` of the packed word give back the address and the tag, for an address below 2^48 |
| TaggedPtr.AddOneTag | ms-rust/src/tagged_ptr.rs:61-64 | adding `1 << 48` to a packed word adds one to its tag, when the tag is below 0xFFFF |
| TaggedPtr.SetTagIncrements | ms-rust/src/tagged_ptr.rs:61-64 | whatever tag is passed, `set_tag` keeps the address and increments the tag, when the tag is below 0xFFFF |
| TaggedPtr.TaggedPointer.Default | ms-rust/src/tagged_ptr.rs:16-20 | the default word is 0 |
| TaggedPtr.TaggedPointer.New | ms-rust/src/tagged_ptr.rs:24-32 | the stored word is the address ORed with the shifted tag |
| TaggedPtr.TaggedPointer.Load | ms-rust/src/tagged_ptr.rs:66-68 | the load returns the stored word |
| TaggedPtr.TaggedPointer.IsNull | ms-rust/src/tagged_ptr.rs:34-36 | true exactly when the whole word is zero; then both address and tag are zero |
| TaggedPtr.TaggedPointer.CompareExchange | ms-rust/src/tagged_ptr.rs:38-47 | `Ok(previous)` and `new` stored when the word equals `current`; otherwise `Err(actual)` and nothing changes |
| TaggedPtr.TaggedNullIsNotNull | ms-rust/src/tagged_ptr.rs:24-36 | a null address with a non-zero tag is a non-zero word whose address bits are zero, so `is_null` says false |
| TaggedPtr.Pack | ms-rust/src/tagged_ptr.rs:24-32 | `remove_tag` of the word `new` stores gives the address's low 48 bits, and `tag` gives the tag when the address is below 2^48 |
| PrqCell.SaeFromWord | rust-queues/src/lprq/prq.rs:80-83 | the epoch part is below 2^63, and the safe part is true exactly when bit 63 of the word is set |
| PrqCell.WordFromSae | rust-queues/src/lprq/prq.rs:84-87 | the low 63 bits are the epoch's, and bit 63 is set exactly when `safe` holds or the epoch already has bit 63 |
| PrqCell.SaeRoundTrip | rust-queues/src/lprq/prq.rs:80-87 | unpacking a packed stamp gives it back, for any epoch below 2^63 |
| PrqCell.WordRoundTrip | rust-queues/src/lprq/prq.rs:80-87 | packing an unpacked word gives every word back |
| PrqCell.PackInjective | rust-queues/src/lprq/prq.rs:49-66 | two packed stamps are equal exactly when the stamps are, so the word compare-exchange of `compare_exchange_safe_and_epoch` compares stamps |
| PrqCell.DefaultStamp | rust-queues/src/lprq/prq.rs:19-26 | a default cell decodes to safe with epoch 0, as the `basic_cell` test (lines 278-284) asserts |
| PrqCell.MakeToken | rust-queues/src/lprq/prq.rs:68-71 | the token address is either 0 or exactly bit 63 |
| PrqCell.TokenOfSmallIdIsNull | rust-queues/src/lprq/prq.rs:68-78 | a thread id below 2^63 makes the null address, and a token passes `is_token` exactly when the id has bit 63 set |
| Prq.TokenSlot | rust-queues/src/lprq/prq.rs:68-78 | the slot is a token exactly when `make_token` gives an address that passes `is_token`, and it is never a value pointer |
| Prq.EnqueueFrom | rust-queues/src/lprq/prq.rs:126-186 | every call takes at least one ticket and never moves head |
| Prq.Transition | rust-queues/src/lprq/prq.rs:194-244 | one pass of the cell-update loop changes neither counter nor the closed flag |
| Prq.Fix | rust-queues/src/lprq/prq.rs:252-267 | tail is raised to head when head has overtaken it, and nothing else changes |
| Prq.DequeueFrom | rust-queues/src/lprq/prq.rs:188-251 | the dequeue leaves a well-formed segment of the same size |
| Prq.DequeueRound | rust-queues/src/lprq/prq.rs:189-250 | a dequeue is one ticket's cell update, then the value found, or an empty return with tail repaired when tail is at most head + 1, or the next ticket |
| Prq.AtTicket | rust-queues/src/lprq/prq.rs:134-135 | a value held at ticket t sits in cell t % N, whose stamp records t |
| Prq.TicketAt | rust-queues/src/lprq/prq.rs:134-135 | a cell holding a value pointer holds it at the ticket its stamp records |
| Prq.NothingPastTail | rust-queues/src/lprq/prq.rs:126-186 | no value is held at a ticket at or beyond tail |
| Prq.OpenCount | rust-queues/src/lprq/prq.rs:126-186 | an open segment holds exactly tail - head values |
| Prq.InitValid | rust-queues/src/lprq/prq.rs:101-109 | `new()` is an open, empty, valid segment |
| Prq.Init | rust-queues/src/lprq/prq.rs:101-109 | no contract of its own: `InitValid` states that a new segment is open, empty and valid |
| Prq.RoomMeansEligible | rust-queues/src/lprq/prq.rs:137-141 | while the segment is open and has room, the cell of the next tail ticket is null, safe and of an older epoch, so the enqueue eligibility test passes |
| Prq.PublishedItems | rust-queues/src/lprq/prq.rs:146-167 | publishing at the tail ticket appends the value to the queued values |
| Prq.PublishedValid | rust-queues/src/lprq/prq.rs:146-167 | publishing at the tail ticket keeps the segment valid |
| Prq.EnqueueWithRoom | rust-queues/src/lprq/prq.rs:126-167 | on an open segment with room, enqueue succeeds and the value joins the back |
| Prq.ClosedTailForward | rust-queues/src/lprq/prq.rs:130-133 | tickets taken on a closed segment add no values |
| Prq.EnqueueWhenFull | rust-queues/src/lprq/prq.rs:180-184 | on an open segment holding N values, enqueue refuses, closes the segment and keeps its values |
| Prq.CloseValid | rust-queues/src/lprq/prq.rs:182 | setting the closed flag keeps the segment valid and its values unchanged |
| Prq.EnqueueWhenClosed | rust-queues/src/lprq/prq.rs:130-133 | on a closed segment, enqueue refuses and only tail moves |
| Prq.EnqueueSpec | rust-queues/src/lprq/prq.rs:126-186 | enqueue succeeds exactly when the segment is open and holds fewer than N values; then the value is appended and the segment stays open, otherwise the values stay and the segment is closed; head never moves and tail moves by one |
| Prq.TakenValid | rust-queues/src/lprq/prq.rs:199-203 | the dequeue transition at a ticket holding a value keeps the segment valid |
| Prq.TakePresent | rust-queues/src/lprq/prq.rs:199-203 | at a ticket holding a value, the cell update returns that value and removes it from the front |
| Prq.SkipIsTransition | rust-queues/src/lprq/prq.rs:204-243 | at a ticket holding no value, the cell update is the empty transition or nothing |
| Prq.SkippedValid | rust-queues/src/lprq/prq.rs:204-249 | passing a ticket holding no value and repairing tail keeps the segment valid |
| Prq.DequeueTake | rust-queues/src/lprq/prq.rs:188-203 | when head holds a value, dequeue returns it, as the full specification says |
| Prq.DrainedIsEmpty | rust-queues/src/lprq/prq.rs:245-249 | when tail is at most head + 1 and head holds nothing, the segment is empty before and after the repair |
| Prq.DequeueDrained | rust-queues/src/lprq/prq.rs:245-249 | when the segment is drained, dequeue returns None as the full specification says |
| Prq.SkipStep | rust-queues/src/lprq/prq.rs:189-250 | skipping a ticket that holds nothing, while more tickets remain, retries the dequeue on a segment with the same values |
| Prq.DequeueSkip | rust-queues/src/lprq/prq.rs:189-250 | a dequeue that passes tickets holding nothing still meets the full specification |
| Prq.DequeueSpec | rust-queues/src/lprq/prq.rs:188-251 | dequeue returns the oldest value and removes it, or None exactly when the segment is empty, and keeps the segment valid and the closed flag |
| Prq.ClosedStaysClosed | rust-queues/src/lprq/prq.rs:126-267 | no enqueue or dequeue reopens a closed segment |
| Prq.EnqueueAll | rust-queues/src/lprq/prq.rs:286-296 | one result per value enqueued, on a segment of the same size |
| Prq.FillStep | rust-queues/src/lprq/prq.rs:286-296 | with room, the first of several enqueues publishes its value and the rest follow on the new segment |
| Prq.FillStaysOpen | rust-queues/src/lprq/prq.rs:286-296 | while there is room, the segment stays valid and open |
| Prq.FillWithRoom | rust-queues/src/lprq/prq.rs:286-296 | while there is room, the values queue up in order |
| Prq.FillSucceeds | rust-queues/src/lprq/prq.rs:286-296 | while there is room, every enqueue succeeds |
| Prq.CapacityFromNew | rust-queues/src/lprq/prq.rs:286-299 | a new segment accepts exactly N values in order and refuses the next one, which closes it |
| Prq.FillFromNew | rust-queues/src/lprq/prq.rs:286-296 | up to N enqueues into a new segment succeed, keep it open and queue the values in order |
| Prq.InitWithItem | rust-queues/src/lprq/prq.rs:111-123 | `new_with_item` leaves an open valid segment holding exactly the one value, so its `expect` never fails |
| Prq.PRQ.constructor | rust-queues/src/lprq/prq.rs:101-109 | the arrays hold the state of `new()` and `next` is null |
| Prq.PRQ.WithItem | rust-queues/src/lprq/prq.rs:111-123 | the arrays hold the state of `new_with_item` and `next` is null |
| Prq.PRQ.CasValue | rust-queues/src/lprq/prq.rs:146-151 | succeeds exactly when the cell holds the expected value, and then only that cell changes |
| Prq.PRQ.CasStamp | rust-queues/src/lprq/prq.rs:49-66 | succeeds exactly when the cell holds the expected stamp, and then only that stamp changes |
| Prq.PRQ.Enqueue | rust-queues/src/lprq/prq.rs:126-186 | the result and the new state are those of the enqueue function |
| Prq.PRQ.FixState | rust-queues/src/lprq/prq.rs:252-267 | the new state is that of the tail repair function |
| Prq.PRQ.UpdateCell | rust-queues/src/lprq/prq.rs:194-244 | the result and the new cells are those of the one-pass cell update |
| Prq.PRQ.Dequeue | rust-queues/src/lprq/prq.rs:188-251 | the result and the new state are those of the dequeue function |
| Prq.DequeueAll | rust-queues/src/lprq/prq.rs:301-304 | one result per dequeue, on a segment of the same size |
| Prq.DrainInOrder | rust-queues/src/lprq/prq.rs:301-304 | k dequeues return the first k values in the order they were enqueued and leave the rest |
| Prq.DrainThenEmpty | rust-queues/src/lprq/prq.rs:301-304 | draining a segment returns its values in order, then None |
| Prq.FillThenDrain | rust-queues/src/lprq/prq.rs:286-305 | the `basic_prq` test for every capacity and all values: N enqueues succeed, one more is refused, N dequeues return the values in order and one more returns None |
| Prq.DequeueAllLast | rust-queues/src/lprq/prq.rs:301-304 | the last of k + 1 dequeues runs from the state the first k leave |
| Crq.UsizeSub | rust-queues/src/lcrq/crq.rs:119 | the `usize` difference is below 2^64 and is the true difference when it does not wrap |
| Crq.EnqueueFrom | rust-queues/src/lcrq/crq.rs:81-129 | every call takes at least one ticket and never moves head |
| Crq.SubStep | rust-queues/src/lcrq/crq.rs:119 | one more ticket adds one to a `tail_val - head` that is still below N |
| Crq.DequeueFrom | rust-queues/src/lcrq/crq.rs:131-186 | the dequeue leaves a well-formed segment of the same size |
| Crq.EnqueueAgrees | rust-queues/src/lcrq/crq.rs:81-129 | while head has not overtaken tail, the wrapping full check of this file and the one of prq.rs agree, so the enqueues are the same |
| Crq.DequeueAgrees | rust-queues/src/lcrq/crq.rs:131-186 | the dequeue returns what the prq.rs dequeue returns; the states differ only in that prq.rs repairs tail after an empty result |
| Crq.EnqueueSpec | rust-queues/src/lcrq/crq.rs:81-129 | on a valid segment, enqueue succeeds exactly when the segment is open and holds fewer than N values, appending the value, and otherwise keeps the values and closes the segment |
| Crq.DequeueSpec | rust-queues/src/lcrq/crq.rs:131-186 | on a valid segment, dequeue returns the oldest value and removes it, or None when the segment is empty; the state it leaves becomes valid once tail is raised to head |
| Crq.EnqueueAllAgrees | rust-queues/src/lcrq/crq.rs:219-223 | from a valid segment, a run of enqueues is the same as in prq.rs |
| Crq.DequeueAllAgrees | rust-queues/src/lcrq/crq.rs:225-227 | dequeues that each find a value are the same as in prq.rs |
| Crq.DequeueAllLast | rust-queues/src/lcrq/crq.rs:225-228 | the last of k + 1 dequeues runs from the state the first k leave |
| Crq.DrainAgrees | rust-queues/src/lcrq/crq.rs:225-228 | draining a valid segment returns what prq.rs returns |
| Crq.DrainThenEmpty | rust-queues/src/lcrq/crq.rs:225-228 | a valid segment drained returns its values in order, then None |
| Crq.FillThenDrain | rust-queues/src/lcrq/crq.rs:214-229 | the `basic_prq` test for every capacity below 2^64 and all values: N enqueues succeed, one more is refused, N dequeues return the values in order and one more returns None |
| Crq.FillThenDrainTail | rust-queues/src/lcrq/crq.rs:222-228 | after N enqueues the remaining enqueue and dequeues behave as in prq.rs |
| Crq.EmptyDequeue | rust-queues/src/lcrq/crq.rs:131-186 | the first dequeue of a new segment returns None, stamps cell 0 with epoch 1 and leaves head one past tail |
| Crq.EmptyThenEnqueue | rust-queues/src/lcrq/crq.rs:118-127 | after that empty dequeue, `tail_val - head` wraps, so the next enqueue closes the segment and refuses its value |
| Crq.EmptyThenEnqueueIntended | rust-queues/src/lprq/prq.rs:180-184 | with the full check `tail_val >= head + N` of prq.rs, that enqueue succeeds and the next dequeue returns its value |
| Crq.Box.constructor | rust-queues/src/lcrq/crq.rs:82 | a box holding the value |
| Crq.CRQ.constructor | rust-queues/src/lcrq/crq.rs:70-78 | the arrays hold the state of `new()` and no box is freed |
| Crq.CRQ.CasValue | rust-queues/src/lcrq/crq.rs:104 | succeeds exactly when the cell holds the expected value, and then only that cell changes |
| Crq.CRQ.CasStamp | rust-queues/src/lcrq/crq.rs:36-44 | succeeds exactly when the cell holds the expected stamp, and then only that stamp changes |
| Crq.CRQ.Enqueue | rust-queues/src/lcrq/crq.rs:81-129 | the value is boxed; the result and the new state are those of the enqueue function; the box is freed exactly when the enqueue is refused |
| Crq.CRQ.EnqueuePtr | rust-queues/src/lcrq/crq.rs:85-128 | the ticket loop computes the enqueue function for the boxed value |
| Crq.CRQ.EnqueueRound | rust-queues/src/lcrq/crq.rs:86-127 | one pass either ends the enqueue with its result, or leaves an equivalent state with less room |
| Crq.CRQ.TryPublish | rust-queues/src/lcrq/crq.rs:97-116 | the value is published exactly when the cell is unoccupied, of an older epoch, and safe or not yet dequeued past; then the stamp becomes (true, cycle) and the cell holds the value, otherwise nothing changes |
| Crq.CRQ.UpdateCell | rust-queues/src/lcrq/crq.rs:138-179 | the result and the new cells are those of the prq.rs cell update |
| Crq.CRQ.Dequeue | rust-queues/src/lcrq/crq.rs:131-186 | the result and the new state are those of the dequeue function; a value found is a box, unboxed and freed |
| Crq.Unbox | rust-queues/src/lcrq/crq.rs:152 | no contract of its own: the value in the box of a dequeued pointer, `None` otherwise; `CRQ.Dequeue` returns it |
| Crq.CRQ.Drop | rust-queues/src/lcrq/crq.rs:189-199 | every box still stored in a cell is freed |
| Crq.CrqRound | rust-queues/src/lcrq/crq.rs:133-184 | a dequeue is one ticket's cell update, then the value found, or None when tail is at most head + 1, or the next ticket; no cell ends up holding a token |
| ArcPrq.TailWord | rust-queues/src/lprq/arc_lprq/prq.rs:94 | the tail word of a ticket counter below 2^63 and a closed flag is below 2^64 |
| ArcPrq.TailWordRoundTrip | rust-queues/src/lprq/arc_lprq/prq.rs:128-130 | masking gives back the ticket counter and bit 63 gives back the closed flag |
| ArcPrq.TailWordUpdates | rust-queues/src/lprq/arc_lprq/prq.rs:128-275 | `fetch_add(1)` moves the counter and keeps the flag, `fetch_or(1 << 63)` sets the flag and keeps the counter, and storing head leaves the flag clear |
| ArcPrq.EnqueueFrom | rust-queues/src/lprq/arc_lprq/prq.rs:123-184 | every call takes at least one ticket and never moves head |
| ArcPrq.Pass | rust-queues/src/lprq/arc_lprq/prq.rs:196-253 | a pass of the inner loop changes neither counter nor the closed flag |
| ArcPrq.PassIsStep | rust-queues/src/lprq/arc_lprq/prq.rs:193-253 | the spin counter `r` only delays: from any pass the inner loop ends the same way |
| ArcPrq.Fix | rust-queues/src/lprq/arc_lprq/prq.rs:262-282 | when head has passed the masked tail, the tail word becomes head with the closed bit clear; otherwise nothing changes |
| ArcPrq.DequeueFrom | rust-queues/src/lprq/arc_lprq/prq.rs:186-261 | the dequeue leaves a well-formed segment of the same size |
| ArcPrq.DequeueRound | rust-queues/src/lprq/arc_lprq/prq.rs:187-260 | a dequeue is one ticket's inner loop, then the value found, or an empty return after `fix_state` when the masked tail is at most head + 1, or the next ticket |
| ArcPrq.DequeueBounds | rust-queues/src/lprq/arc_lprq/prq.rs:186-261 | a dequeue moves head and tail to at most one past the larger of head and tail |
| ArcPrq.InitValid | rust-queues/src/lprq/arc_lprq/prq.rs:100-107 | `new()` is an open, empty, valid segment in which every cell can take a value |
| ArcPrq.NothingPastTail | rust-queues/src/lprq/arc_lprq/prq.rs:123-184 | no value is held at a ticket at or beyond tail |
| ArcPrq.DeadIsIneligible | rust-queues/src/lprq/arc_lprq/prq.rs:142-145 | a cell stamped unsafe at an epoch that head has passed is refused at every ticket up to head + n |
| ArcPrq.FreeCell | rust-queues/src/lprq/arc_lprq/prq.rs:137-145 | a ticket in [tail, head + n) of an open segment has a null cell, and that cell passes the eligibility test exactly when it is not dead |
| ArcPrq.PublishedValid | rust-queues/src/lprq/arc_lprq/prq.rs:146-165 | publishing at the tail ticket keeps the segment valid |
| ArcPrq.EnqueueWithRoom | rust-queues/src/lprq/arc_lprq/prq.rs:123-165 | on an open segment with room whose tail cell is not dead, enqueue succeeds and the value joins the back |
| ArcPrq.TailForwardItems | rust-queues/src/lprq/arc_lprq/prq.rs:128 | moving tail over tickets that hold nothing adds no values |
| ArcPrq.CloseForward | rust-queues/src/lprq/arc_lprq/prq.rs:177-181 | moving tail forward and closing keeps the segment valid and its values |
| ArcPrq.SkipDead | rust-queues/src/lprq/arc_lprq/prq.rs:137-183 | at a dead tail cell the enqueue retries at the next ticket and nothing else changes |
| ArcPrq.DeadTicketValid | rust-queues/src/lprq/arc_lprq/prq.rs:128-183 | passing a dead ticket keeps the segment valid and its values |
| ArcPrq.DeadTicketRoom | rust-queues/src/lprq/arc_lprq/prq.rs:142-145 | passing a dead ticket does not change whether a live ticket before head + n remains |
| ArcPrq.CloseFull | rust-queues/src/lprq/arc_lprq/prq.rs:177-181 | an open segment whose tickets reach head + n refuses, sets the closed bit and keeps its values |
| ArcPrq.EnqueueWhenClosed | rust-queues/src/lprq/arc_lprq/prq.rs:128-133 | a closed segment refuses and only the ticket counter moves |
| ArcPrq.EnqueueOpen | rust-queues/src/lprq/arc_lprq/prq.rs:123-184 | on an open segment, enqueue succeeds exactly when a live ticket before head + n remains, appending the value; otherwise it closes the segment and keeps the values |
| ArcPrq.EnqueueSpec | rust-queues/src/lprq/arc_lprq/prq.rs:123-184 | enqueue succeeds exactly when the segment is open and a live ticket before head + n remains; then the value is appended and the segment stays open, otherwise the values stay and the segment is closed; head never moves |
| ArcPrq.TakeStep | rust-queues/src/lprq/arc_lprq/prq.rs:205-209 | at a ticket holding a value, the inner loop takes that value from its cell |
| ArcPrq.TakenValid | rust-queues/src/lprq/arc_lprq/prq.rs:205-209 | taking the value at head keeps the segment valid |
| ArcPrq.KillStep | rust-queues/src/lprq/arc_lprq/prq.rs:226-251 | at a ticket holding nothing, the cell is null and the inner loop stamps it (false, head_val) |
| ArcPrq.KilledCells | rust-queues/src/lprq/arc_lprq/prq.rs:243-249 | stamping a null cell changes no ticket's value |
| ArcPrq.KilledValid | rust-queues/src/lprq/arc_lprq/prq.rs:243-249 | stamping the null cell at head keeps the segment valid |
| ArcPrq.KilledItems | rust-queues/src/lprq/arc_lprq/prq.rs:243-249 | stamping the null cell at head keeps the queued values |
| ArcPrq.DequeueTake | rust-queues/src/lprq/arc_lprq/prq.rs:186-209 | when head holds a value, dequeue returns it, as the full specification says |
| ArcPrq.DrainedFix | rust-queues/src/lprq/arc_lprq/prq.rs:254-259 | on a drained segment, the repair leaves it valid and empty with tail at head, and closed only when it was closed and head was short of tail |
| ArcPrq.DrainedHoldsNoPointer | rust-queues/src/lprq/arc_lprq/prq.rs:254-259 | a drained segment holds no value pointer in any cell |
| ArcPrq.DequeueDrained | rust-queues/src/lprq/arc_lprq/prq.rs:254-259 | when the segment is drained, dequeue returns None as the full specification says |
| ArcPrq.KillStepRound | rust-queues/src/lprq/arc_lprq/prq.rs:187-260 | passing a ticket that holds nothing, while more tickets remain, retries on a segment with the same values |
| ArcPrq.DequeueSkip | rust-queues/src/lprq/arc_lprq/prq.rs:187-260 | a dequeue that passes tickets holding nothing still meets the full specification |
| ArcPrq.DequeueSpec | rust-queues/src/lprq/arc_lprq/prq.rs:186-261 | dequeue returns the oldest value and removes it, or None exactly when the segment is empty, and keeps the segment valid |
| ArcPrq.ReopenWhenEmpty | rust-queues/src/lprq/arc_lprq/prq.rs:262-282 | a closed segment stays closed across a dequeue exactly when head was short of tail: `fix_state` overwrites the word and clears the closed bit otherwise |
| ArcPrq.EmptyDequeueKillsCell | rust-queues/src/lprq/arc_lprq/prq.rs:226-251 | an empty dequeue on a new segment of two or more cells kills cell 0, so its ticket of the next round is refused |
| ArcPrq.InitWithItem | rust-queues/src/lprq/arc_lprq/prq.rs:109-120 | `new_with_item` leaves an open valid segment holding exactly the one value, so its `expect` never fails |
| ArcPrq.WordSplit | rust-queues/src/lprq/arc_lprq/prq.rs:128-130 | every word below 2^64 is a ticket counter below 2^63 and a closed flag |
| ArcPrq.ArcPRQ.constructor | rust-queues/src/lprq/arc_lprq/prq.rs:100-107 | the arrays and the tail word hold the state of `new()` |
| ArcPrq.ArcPRQ.WithItem | rust-queues/src/lprq/arc_lprq/prq.rs:109-120 | the arrays and the tail word hold the state of `new_with_item` |
| ArcPrq.ArcPRQ.CasValue | rust-queues/src/lprq/arc_lprq/prq.rs:146-151 | succeeds exactly when the cell holds the expected value, and then only that cell changes |
| ArcPrq.ArcPRQ.CasStamp | rust-queues/src/lprq/arc_lprq/prq.rs:152-157 | succeeds exactly when the cell holds the expected stamp, and then only that stamp changes |
| ArcPrq.ArcPRQ.Enqueue | rust-queues/src/lprq/arc_lprq/prq.rs:123-184 | the result and the new state are those of the enqueue function |
| ArcPrq.ArcPRQ.EnqueueRound | rust-queues/src/lprq/arc_lprq/prq.rs:128-182 | one pass either ends the enqueue with its result, or leaves an equivalent state with less room |
| ArcPrq.ArcPRQ.TryPublish | rust-queues/src/lprq/arc_lprq/prq.rs:137-175 | the value is published exactly when the cell is eligible; then the stamp becomes (true, cycle) and the cell holds the value, otherwise nothing changes |
| ArcPrq.ArcPRQ.FixState | rust-queues/src/lprq/arc_lprq/prq.rs:262-282 | the new state is that of the repair function |
| ArcPrq.ArcPRQ.UpdateCell | rust-queues/src/lprq/arc_lprq/prq.rs:193-253 | the result and the new cells are those of the inner loop from pass 0 |
| ArcPrq.ArcPRQ.Dequeue | rust-queues/src/lprq/arc_lprq/prq.rs:186-261 | the result and the new state are those of the dequeue function |
| ArcPrq.ArcPRQ.DequeueTicket | rust-queues/src/lprq/arc_lprq/prq.rs:188-259 | one pass of the outer loop either ends the dequeue with its result, or leaves an equivalent state with a shorter backlog |
| ArcPrq.EnqueueAll | rust-queues/src/lprq/arc_lprq/prq.rs:306-309 | one result per value enqueued, head unchanged |
| ArcPrq.DequeueAll | rust-queues/src/lprq/arc_lprq/prq.rs:315-319 | one result per dequeue, on a segment of the same size |
| ArcPrq.FillStep | rust-queues/src/lprq/arc_lprq/prq.rs:306-309 | with room and no dead cell, the first of several enqueues publishes its value and the rest follow |
| ArcPrq.FillStaysOpen | rust-queues/src/lprq/arc_lprq/prq.rs:306-309 | while there is room and no dead cell, the segment stays valid and open, one ticket per value |
| ArcPrq.FillWithRoom | rust-queues/src/lprq/arc_lprq/prq.rs:306-309 | while there is room and no dead cell, the values queue up in order |
| ArcPrq.FillSucceeds | rust-queues/src/lprq/arc_lprq/prq.rs:306-309 | while there is room and no dead cell, every enqueue succeeds |
| ArcPrq.FillFromNew | rust-queues/src/lprq/arc_lprq/prq.rs:306-309 | up to n enqueues into a new segment succeed, keep it open and queue the values in order |
| ArcPrq.CapacityFromNew | rust-queues/src/lprq/arc_lprq/prq.rs:306-313 | a new segment accepts exactly n values in order and refuses the next one, which closes it |
| ArcPrq.DrainStep | rust-queues/src/lprq/arc_lprq/prq.rs:315-318 | one dequeue from a valid segment holding values returns the first and removes it |
| ArcPrq.DrainInOrder | rust-queues/src/lprq/arc_lprq/prq.rs:315-318 | k dequeues return the first k values in the order they were enqueued and leave the rest |
| ArcPrq.DequeueAllLast | rust-queues/src/lprq/arc_lprq/prq.rs:315-319 | the last of k + 1 dequeues runs from the state the first k leave |
| ArcPrq.DrainThenEmpty | rust-queues/src/lprq/arc_lprq/prq.rs:315-319 | draining a segment returns its values in order, then None |
| ArcPrq.FillThenDrain | rust-queues/src/lprq/arc_lprq/prq.rs:300-320 | the `basic_prq` test for every capacity and all values: the new tail word is open, n enqueues succeed, one more is refused, n dequeues return the values in order and one more returns None |
| Lprq.SegWithItem | rust-queues/src/lprq/prq.rs:111-123 | the new segment of either kind is valid, has the queue's size and holds exactly the one value |
| Lprq.SegInitValid | rust-queues/src/lprq/prq.rs:101-109 | a new segment of either kind is valid and holds no item |
| Lprq.SegEnqueueSpec | rust-queues/src/lprq/prq.rs:126-186 | either segment kind appends an accepted value and keeps its items when it refuses |
| Lprq.SegDequeueSpec | rust-queues/src/lprq/prq.rs:188-251 | either segment kind returns its first item and drops it, or returns None exactly when it holds none |
| Lprq.SegEnqueue | rust-queues/src/lprq/prq.rs:126-186 | either kind's enqueue keeps the segment well formed and of its size; `SegEnqueueSpec` states what it appends |
| Lprq.SegDequeue | rust-queues/src/lprq/prq.rs:188-251 | either kind's dequeue keeps the segment well formed and of its size; `SegDequeueSpec` states what it returns |
| Lprq.Init | rust-queues/src/lprq/lprq.rs:73-79 | the new queue is one segment, both head and tail, and holds nothing |
| Lprq.EnqueueFrom | rust-queues/src/lprq/lprq.rs:80-119 | enqueue keeps the chain well formed, never moves head and only adds segments |
| Lprq.DequeueFrom | rust-queues/src/lprq/lprq.rs:120-172 | dequeue keeps the chain well formed, never moves tail and never adds a segment |
| Lprq.RetryFrom | rust-queues/src/lprq/lprq.rs:130-163 | the second try of a pass keeps the chain well formed, never moves tail and never adds a segment |
| Lprq.InitValid | rust-queues/src/lprq/lprq.rs:73-79 | the new queue is a valid chain with no contents |
| Lprq.EnqueueAccepted | rust-queues/src/lprq/lprq.rs:85-88 | when the tail segment accepts, the value is appended to the queue's contents and the chain stays valid |
| Lprq.EnqueueRefused | rust-queues/src/lprq/lprq.rs:89-106 | when the tail segment refuses, the new segment linked after it makes the value the last of the contents and the chain stays valid |
| Lprq.EnqueueSpec | rust-queues/src/lprq/lprq.rs:80-119 | enqueue into a valid chain appends the value to its contents, whichever path it takes |
| Lprq.DequeueMoveOn | rust-queues/src/lprq/lprq.rs:138-150 | moving head past an empty segment with a successor loses no value, strictly shortens the live run and continues with the same result |
| Lprq.DequeueSpec | rust-queues/src/lprq/lprq.rs:120-172 | FIFO: dequeue returns the first value of the contents and removes it, or returns None exactly when the contents are empty, and the chain stays valid |
| Lprq.FillChain | rust-queues/src/lprq/lprq.rs:80-119 | enqueueing values one after another appends them all to the contents, across however many segments it takes |
| Lprq.DrainStep | rust-queues/src/lprq/lprq.rs:120-172 | one dequeue from a non-empty valid chain returns its first value and leaves the rest |
| Lprq.DrainChain | rust-queues/src/lprq/lprq.rs:120-172 | k dequeues from a valid chain holding at least k values return its first k values in order and leave the rest |
| Lprq.DequeueAllLast | rust-queues/src/lprq/lprq.rs:120-172 | the results of k + 1 dequeues are those of the first k followed by one dequeue from the queue they leave |
| Lprq.DrainThenEmpty | rust-queues/src/lprq/lprq.rs:120-172 | dequeueing one more time than there are values returns them all in order and then None |
| Lprq.FillFromNew | rust-queues/src/lprq/lprq.rs:183-194 | a new queue filled with any values holds exactly those values, in order |
| Lprq.EnqueueThenDequeue | rust-queues/src/lprq/lprq.rs:183-194 | the `basic` test for every segment size and all values: enqueueing them into a new queue and dequeueing as many returns them in order, and one more dequeue returns None |
| Lprq.EmptyAtTail | rust-queues/src/lprq/lprq.rs:164-167 | a dequeue that finds the queue empty leaves head at the tail segment |
| Lprq.DrainedStep | rust-queues/src/lprq/lprq.rs:58 | each pass of the drain loop either extends the dropped values by the next one, or finds the queue empty with every value dropped and head at tail |
| Lprq.LPRQ.NullNextIsLast | rust-queues/src/lprq/lprq.rs:164-167 | the head segment's `next` is null exactly when it is the last segment linked |
| Lprq.LPRQ.constructor | rust-queues/src/lprq/lprq.rs:73-79 | head and tail point at one new empty segment and the object stands for the new chain |
| Lprq.LPRQ.TailEnqueue | rust-queues/src/lprq/lprq.rs:85-87 | the tail segment object changes as the segment enqueue does and no other segment changes |
| Lprq.LPRQ.HeadDequeue | rust-queues/src/lprq/lprq.rs:122-123 | the head segment object changes as the segment dequeue does and no other segment changes |
| Lprq.LPRQ.LinkTail | rust-queues/src/lprq/lprq.rs:91-105 | the new segment is linked after the last one and becomes tail; head and the earlier segments stay as they were |
| Lprq.LPRQ.AdvanceHead | rust-queues/src/lprq/lprq.rs:140-150 | head moves to the next segment; the hazard-pointer and epoch queues add the old head to the retired segments, the leak queue adds nothing |
| Lprq.LPRQ.Enqueue | rust-queues/src/lprq/lprq.rs:80-119 | the object's new chain is the chain enqueue gives from the old one; earlier segments are kept and the new ones are fresh |
| Lprq.LPRQ.DequeueRound | rust-queues/src/lprq/lprq.rs:121-171 | a finished pass gives the result and chain of dequeue; an unfinished one moved head on without changing what dequeue will give |
| Lprq.LPRQ.Retry | rust-queues/src/lprq/lprq.rs:133-162 | a finished second try gives the result and chain of the retry; an unfinished one moved head on without changing what dequeue will give |
| Lprq.LPRQ.Dequeue | rust-queues/src/lprq/lprq.rs:120-172 | the result and the object's new chain are those dequeue gives from the old chain |
| Lprq.LPRQ.DrainAll | rust-queues/src/lprq/lprq.rs:58 | the drain loop returns every queued value in order and leaves head at tail with nothing queued |
| Lprq.LPRQ.Drop | rust-queues/src/lprq/lprq.rs:53-70 | drop dequeues every queued value in order; the epoch variant then leaves one empty segment and has deferred every earlier one, the others swap head to null; the hazard-pointer variant has retired every segment, the leak variant none |
| ArcLprq.DequeueKeepsRoom | rust-queues/src/lprq/arc_lprq/lprq.rs:94-131 | one dequeue uses up at most two units of each segment's counter room |
| ArcLprq.DrainedRoomStep | rust-queues/src/lprq/arc_lprq/lprq.rs:47 | each pass of the drain loop has the counter room it needs and leaves enough for the rest |
| ArcLprq.ArcLPRQ.NullNextIsLast | rust-queues/src/lprq/arc_lprq/lprq.rs:123-126 | the head segment's `next` is None exactly when it is the last segment linked |
| ArcLprq.ArcLPRQ.constructor | rust-queues/src/lprq/arc_lprq/lprq.rs:52-58 | head and tail point at one new empty segment and the object stands for the new chain |
| ArcLprq.ArcLPRQ.TailEnqueue | rust-queues/src/lprq/arc_lprq/lprq.rs:62-64 | the tail segment object changes as the `Arc` segment enqueue does and no other segment changes |
| ArcLprq.ArcLPRQ.HeadDequeue | rust-queues/src/lprq/arc_lprq/lprq.rs:96-97 | the head segment object changes as the `Arc` segment dequeue does and no other segment changes |
| ArcLprq.ArcLPRQ.LinkTail | rust-queues/src/lprq/arc_lprq/lprq.rs:67-78 | the new segment is linked after the last one and becomes tail; head and the earlier segments stay as they were |
| ArcLprq.ArcLPRQ.AdvanceHead | rust-queues/src/lprq/arc_lprq/lprq.rs:110-118 | head moves to the next segment |
| ArcLprq.ArcLPRQ.Enqueue | rust-queues/src/lprq/arc_lprq/lprq.rs:59-93 | the object's new chain is the chain enqueue gives from the old one; earlier segments are kept and the new ones are fresh |
| ArcLprq.ArcLPRQ.DequeueRound | rust-queues/src/lprq/arc_lprq/lprq.rs:95-129 | a finished pass gives the result and chain of dequeue; an unfinished one moved head on without changing what dequeue will give |
| ArcLprq.ArcLPRQ.Retry | rust-queues/src/lprq/arc_lprq/lprq.rs:104-121 | a finished second try gives the result and chain of the retry; an unfinished one moved head on without changing what dequeue will give |
| ArcLprq.ArcLPRQ.Dequeue | rust-queues/src/lprq/arc_lprq/lprq.rs:94-131 | the result and the object's new chain are those dequeue gives from the old chain |
| ArcLprq.ArcLPRQ.Drop | rust-queues/src/lprq/arc_lprq/lprq.rs:44-49 | drop returns every queued value in order and leaves head at tail with nothing queued |
| Lscq.Log2Bounds | c++-reference/include/LSCQueue.hpp:8-13 | the number of halvings is the floor of log2: 2^r <= v < 2^(r+1) |
| Lscq.Log2 | c++-reference/include/LSCQueue.hpp:8-13 | no contract of its own: `Log2Bounds` states that it is the floor of the binary logarithm |
| Lscq.IntLog2 | c++-reference/include/LSCQueue.hpp:8-13 | the shift loop returns floor(log2 v), and 0 for v <= 1 |
| Lscq.ExactlyOne | c++-reference/include/LSCQueue.hpp:22-26 | while the two rings partition the cells, every index below half = 2^order is in exactly one of `aq` and `fq`, once, and no other index is in either |
| Lscq.Disjoint | c++-reference/include/LSCQueue.hpp:22-26 | a queued index is never also free |
| Lscq.QueuedDistinct | c++-reference/include/LSCQueue.hpp:22-26 | the queued indices alone are distinct cell indices below half |
| Lscq.PartitionPublish | c++-reference/include/LSCQueue.hpp:70-78 | moving the first free index to the back of `aq` keeps the partition |
| Lscq.PartitionRefuse | c++-reference/include/LSCQueue.hpp:77-81 | moving the first free index to the back of `fq` keeps the partition |
| Lscq.PartitionFree | c++-reference/include/LSCQueue.hpp:84-91 | moving the oldest queued index to the back of `fq` keeps the partition |
| Lscq.FullPartition | c++-reference/include/LSCQueue.hpp:65-68 | an empty `aq` and a `fq` made by `lfring_init_full` partition the indices below half |
| Lscq.FullDistinct | c++-reference/third-party/scqueue/lfring_cas1.c:16-29 | the indices `lfring_init_full` queues are distinct |
| Lscq.FullCovers | c++-reference/third-party/scqueue/lfring_cas1.c:16-29 | `lfring_init_full` queues exactly the indices below half |
| Lscq.CellsPublish | c++-reference/include/LSCQueue.hpp:76-78 | writing an item to a cell that is not queued and then publishing its index appends the item to the queued items |
| Lscq.CellsStore | c++-reference/include/LSCQueue.hpp:76-81 | writing to a cell that is not queued changes no queued item |
| Lscq.CellsTake | c++-reference/include/LSCQueue.hpp:85-88 | the oldest queued index names the cell that holds the oldest item |
| Lscq.TakeIndex | c++-reference/include/LSCQueue.hpp:71 | `lfring_dequeue(.., false)` on a live ring returns the oldest index and removes it, or EMPTY when no index is queued; a closed ring is reopened exactly when `Reopens` holds, with head and tail at the old tail |
| Lscq.PutIndex | c++-reference/include/LSCQueue.hpp:77 | `lfring_enqueue(.., false)` appends the index and returns true on an open ring, and refuses with false on a closed one |
| Lscq.SCQueue.constructor | c++-reference/include/LSCQueue.hpp:65-68 | the order is floor(log2 ring_size), the queue is empty and valid, and `aq` is open |
| Lscq.SCQueue.Enqueue | c++-reference/include/LSCQueue.hpp:70-82 | succeeds exactly when fewer than half items are queued and `aq` is open; then the item is appended, otherwise nothing is queued; `aq` becomes closed exactly when it was closed or the queue was full |
| Lscq.SCQueue.Publish | c++-reference/include/LSCQueue.hpp:76-81 | with a free index taken: the item is appended when `aq` is open, otherwise the index goes back to `fq` and nothing is queued |
| Lscq.SCQueue.Dequeue | c++-reference/include/LSCQueue.hpp:84-91 | the oldest item, removed from the queue, or null when the queue holds none; `aq` is reopened exactly when it was closed and `Reopens` holds |
| Lscq.SCQueue.IsEmpty | c++-reference/include/LSCQueue.hpp:40-44 | true only when the queue holds no item, and exactly then while `aq` is open |
| Lscq.SCQueue.GetHeadIndex | c++-reference/include/LSCQueue.hpp:46-48 | `aq`'s head counter plus the segment's start index |
| Lscq.SCQueue.GetTailIndex | c++-reference/include/LSCQueue.hpp:50-52 | `aq`'s tail counter plus the start index; on an open `aq` it is the head index plus the number of queued items, and at least that while items are queued |
| Lscq.SCQueue.PrepareDequeueAfterNextLinked | c++-reference/include/LSCQueue.hpp:96-98 | resets `aq`'s threshold as `lfring_reset_threshold` does and changes no queued item |
| Ccqueue.Node.constructor | c++-reference/third-party/ccqueue/ccqueue.c:66 | a newly allocated node that links to nothing |
| Ccqueue.Handle.constructor | c++-reference/third-party/ccqueue/ccqueue.c:53-59 | the handle holds a newly allocated spare node |
| Ccqueue.Queue.constructor | c++-reference/third-party/ccqueue/ccqueue.c:38-51 | an empty valid queue whose head and tail are one new dummy node holding 0, with both counters at zero |
| Ccqueue.Queue.SerialEnqueue | c++-reference/third-party/ccqueue/ccqueue.c:5-15 | the node is linked after the tail and becomes the tail, its data is appended to the items, the enqueue count goes up by one, and the queue stays valid |
| Ccqueue.Queue.SerialDequeue | c++-reference/third-party/ccqueue/ccqueue.c:17-36 | on an empty queue, the -1 result and nothing changed; otherwise the old dummy comes back holding the oldest item, the node after it becomes the dummy, the item leaves the queue and the dequeue count goes up by one |
| Ccqueue.Queue.Enqueue | c++-reference/third-party/ccqueue/ccqueue.c:61-72 | the item is appended in the handle's spare node, or in a new node when the handle has none; afterwards the handle has no spare |
| Ccqueue.Queue.Dequeue | c++-reference/third-party/ccqueue/ccqueue.c:74-90 | the oldest item, removed, or EMPTY on an empty queue; the vacated node becomes the handle's spare when it had none, and is freed otherwise |
| Ccqueue.Queue.Size | c++-reference/third-party/ccqueue/ccqueue.c:92-96 | enqueues less dequeues is the number of queued items |
| Ccqueue.Queue.Free | c++-reference/third-party/ccqueue/ccqueue.c:98-102 | the do-while loop removes exactly the items up to and including the first null or EMPTY item, or all of them when none is |
| Ccqueue.Drained | c++-reference/third-party/ccqueue/ccqueue.c:100-102 | the count of items that loop removes: every item before the last removed one is neither null nor EMPTY, and when items remain the last removed one is |
| DeduceNproc.ParseMode | c++-reference/deduce_nproc.py:4-12 | no mode exactly when the argument count is not two or the mode is neither `sym` nor `pc`; `sym` exactly when the first argument is `sym` |
| DeduceNproc.Fitting | c++-reference/deduce_nproc.py:19-20 | the result holds exactly the counts that are at most nproc, and is no longer than the input |
| DeduceNproc.Max | c++-reference/deduce_nproc.py:30 | the result is an element of the list and no element exceeds it |
| DeduceNproc.SymSpec | c++-reference/deduce_nproc.py:19-32 | sym mode fails on `np.max` exactly when no count fits; otherwise it prints every fitting count in order, nothing above nproc, always nproc, and adds nproc exactly when nproc was not a candidate |
| DeduceNproc.SymRun | c++-reference/deduce_nproc.py:19-32 | no contract of its own: `SymSpec` states when sym mode fails and what it prints |
| DeduceNproc.Kept | c++-reference/deduce_nproc.py:21-27 | the kept counts come in whole pairs, at most the pairs looked at |
| DeduceNproc.KeepPairs | c++-reference/deduce_nproc.py:21-27 | the loop keeps, in order, the whole pairs whose total is at most nproc, and drops a trailing odd count |
| DeduceNproc.KeptSound | c++-reference/deduce_nproc.py:23-27 | every kept pair fits in nproc and is one of the input pairs |
| DeduceNproc.KeptAll | c++-reference/deduce_nproc.py:23-27 | when every pair fits, every whole pair is kept |
| DeduceNproc.Pairs | c++-reference/deduce_nproc.py:34 | `zip(res[::2], res[1::2])`: pair j is (res[2j], res[2j+1]) |
| DeduceNproc.GcdBounds | c++-reference/deduce_nproc.py:37 | the gcd of two positive numbers is positive and at most each of them |
| DeduceNproc.Gcd | c++-reference/deduce_nproc.py:37 | no contract of its own: `GcdBounds` and `Ratio` state its bounds and the positive parts of a divided pair |
| DeduceNproc.Ratio | c++-reference/deduce_nproc.py:37 | a pair with no zero, divided by its gcd, has two positive parts |
| DeduceNproc.Ratios | c++-reference/deduce_nproc.py:36-42 | the pairs with a zero are filtered out, so every ratio has two positive parts |
| DeduceNproc.Sums | c++-reference/deduce_nproc.py:35 | one total per pair, the sum of its two counts |
| DeduceNproc.Fill | c++-reference/deduce_nproc.py:46-48 | the ratio scaled by `nproc // (r0 + r1)` fits in nproc, and one more multiple would not |
| DeduceNproc.PcExtendKeeps | c++-reference/deduce_nproc.py:33-50 | the kept pairs are printed first and at most one pair is added |
| DeduceNproc.PcExtendAdded | c++-reference/deduce_nproc.py:43-50 | an added pair happens only when all kept ratios agree; it is that ratio scaled to fill nproc, fits, and totals more than every kept pair |
| DeduceNproc.PcFits | c++-reference/deduce_nproc.py:21-50 | in pc mode every printed pair fits in nproc processors |
| DeduceNproc.PcExtend | c++-reference/deduce_nproc.py:33-50 | no contract of its own: `PcExtendKeeps` and `PcExtendAdded` state that the kept pairs come first and when one scaled pair is added |
| DeduceNproc.PcRun | c++-reference/deduce_nproc.py:21-50 | no contract of its own: `PcFits` states that every printed pair fits in nproc |
| DeduceNproc.Deduce | c++-reference/deduce_nproc.py:4-52 | the script exits with status 1 exactly when the command line has the wrong argument count or an unknown mode |
| DrawCompare.PrefixLenUnique | c++-reference/postprocess/draw_compare.py:74-86 | no common prefix is longer than the one the first loop finds |
| DrawCompare.SuffixLenUnique | c++-reference/postprocess/draw_compare.py:74-86 | no common suffix of the rest is longer than the one the second loop finds |
| DrawCompare.NamesDiff | c++-reference/postprocess/draw_compare.py:74-86 | each name is the longest common prefix, then its own differing part, then the longest common suffix of what follows the prefix; identical names give two empty parts |
| PpHelpers.ParseArgs | c++-reference/postprocess/pp_helpers.py:96-112 | the loop computes the recursive parse: options with their values and the other arguments, or the usage exit for an unsupported, trailing or repeated option |
| PpHelpers.ParseCounts | c++-reference/postprocess/pp_helpers.py:101-111 | a successful parse reads every argument once, as an option, an option's value or an other argument; the other arguments keep their order and none of them starts with `-` |
| PpHelpers.ParseOrder | c++-reference/postprocess/pp_helpers.py:101-111 | the other arguments of a successful parse sit, in order, at increasing positions of the arguments, none of which is an option position or the value position after one |
| PpHelpers.Parse | c++-reference/postprocess/pp_helpers.py:96-112 | no contract of its own: the loop of `parse_args` as a recursion; `ParseCounts`, `ParseOrder`, `ParseOptions`, `ParsePlain` and `ParseRepeated` state what it gives |
| PpHelpers.ParseOptions | c++-reference/postprocess/pp_helpers.py:103-108 | every option of a successful parse is supported and maps to the argument right after one of its occurrences |
| PpHelpers.ParsePlain | c++-reference/postprocess/pp_helpers.py:109-112 | arguments none of which starts with `-` parse to no options and the arguments themselves, in order |
| PpHelpers.ParseRepeated | c++-reference/postprocess/pp_helpers.py:104-106 | an option given twice ends the parse with the usage exit |
| PpHelpers.ReplaceAbsent | c++-reference/postprocess/pp_helpers.py:92-94 | `str.replace` leaves a string in which the pattern does not occur unchanged |
| PpHelpers.ReplaceLacking | c++-reference/postprocess/pp_helpers.py:82-90 | `str.replace` leaves a string unchanged when it lacks one of the pattern's characters |
| PpHelpers.ReplacePast | c++-reference/postprocess/pp_helpers.py:82-94 | no occurrence starts inside a prefix that lacks the pattern's first character, so `str.replace` passes over it unchanged |
| PpHelpers.ReplaceHit | c++-reference/postprocess/pp_helpers.py:82-94 | an occurrence at the front is replaced and the scan resumes after it |
| PpHelpers.ReplaceMiss | c++-reference/postprocess/pp_helpers.py:82-94 | a mismatch in the first window moves the scan on by one character |
| PpHelpers.RemoveShortens | c++-reference/postprocess/pp_helpers.py:92-94 | removing every occurrence of a pattern never lengthens a string, and shortens one in which it occurs |
| PpHelpers.Replace | c++-reference/postprocess/pp_helpers.py:82-94 | no contract of its own: `str.replace` scanning left to right; the `Replace` lemmas above state what it leaves and removes |
| PpHelpers.ApplyAllSplit | c++-reference/postprocess/pp_helpers.py:82-90 | the chain of renamings is its first k renamings followed by the rest |
| PpHelpers.ApplyAllLacking | c++-reference/postprocess/pp_helpers.py:82-90 | the chain leaves a name alone when, for each pattern, the name lacks one of its characters |
| PpHelpers.LabelLprq | c++-reference/postprocess/pp_helpers.py:82-94 | the benchmark name "LPRQueue/remap" gets the label "lprq/remap" with remap and "lprq" without |
| PpHelpers.LabelKeepsRemap | c++-reference/postprocess/pp_helpers.py:92-94 | one `replace` pass can leave "/remap" in the label: "/re/remapmap" becomes "/remap" |
| PpHelpers.LabelDropsRemap | c++-reference/postprocess/pp_helpers.py:92-94 | the label equals the renamed name when that has no "/remap", and is strictly shorter when it has one |
| PpHelpers.LabelWithRemap | c++-reference/postprocess/pp_helpers.py:82-90 | no contract of its own: the chain of eight renamings; `ApplyAllSplit`, `ApplyAllLacking` and `LabelLprq` state what it gives |
| PpHelpers.Label | c++-reference/postprocess/pp_helpers.py:92-94 | no contract of its own: `LabelLprq`, `LabelKeepsRemap` and `LabelDropsRemap` state when one pass removes `/remap` |
| MsQueueHazp.Node.constructor | rust-queues/src/ms_queue/msq_hazp.rs:51-56 | a new node holds the given value and has a null `next` |
| MsQueueHazp.Node.Empty | rust-queues/src/ms_queue/msq_hazp.rs:57-62 | the dummy node holds a null value and has a null `next` |
| MsQueueHazp.Queue.NullNextIsLast | rust-queues/src/ms_queue/msq_hazp.rs:145-148 | in a valid list a node's `next` is null exactly when it is the last node |
| MsQueueHazp.Queue.constructor | rust-queues/src/ms_queue/msq_hazp.rs:73-80 | head and tail are one dummy node with a null value and no successor; the queue is empty and nothing is retired |
| MsQueueHazp.Queue.CasNext | rust-queues/src/ms_queue/msq_hazp.rs:112 | the CAS succeeds exactly when the tail node's `next` is null, and then appends the new node's value to the contents; otherwise nothing changes |
| MsQueueHazp.Queue.CasTail | rust-queues/src/ms_queue/msq_hazp.rs:104-107 | the CAS succeeds exactly when tail is the expected node, and then moves tail one node on; otherwise tail stays |
| MsQueueHazp.Queue.CasHead | rust-queues/src/ms_queue/msq_hazp.rs:166-169 | the CAS succeeds exactly when head is the expected node, and then moves head to the next node and drops the first value; otherwise nothing changes |
| MsQueueHazp.Queue.Retire | rust-queues/src/ms_queue/msq_hazp.rs:170-174 | the node a head CAS unlinked joins the retired nodes |
| MsQueueHazp.Queue.Enqueue | rust-queues/src/ms_queue/msq_hazp.rs:82-124 | enqueue appends the value to the contents and leaves head and the retired nodes as they were |
| MsQueueHazp.Queue.EnqueueRound | rust-queues/src/ms_queue/msq_hazp.rs:87-122 | a pass that links the node appends its value; one that does not changes no contents and moved tail on |
| MsQueueHazp.Queue.Dequeue | rust-queues/src/ms_queue/msq_hazp.rs:126-187 | FIFO: None exactly when the queue is empty, and then nothing changes; otherwise the first value, head moves to its node and the old dummy is retired |
| MsQueueHazp.EmptyIff | rust-queues/src/ms_queue/msq_hazp.rs:145-148 | the queue is empty exactly when the dummy node has no `next`, the test dequeue makes first |
| MsQueueHazp.BasicsFill | rust-queues/src/ms_queue/msq_hazp.rs:240-242 | the new queue holds the three pointers enqueued, in order |
| MsQueueHazp.BasicsRefill | rust-queues/src/ms_queue/msq_hazp.rs:245-250 | the two dequeues give the first two pointers, then two more are enqueued |
| MsQueueHazp.BasicsDrain | rust-queues/src/ms_queue/msq_hazp.rs:253-256 | the dequeues give the three queued pointers in order and then None |
| MsQueueHazp.BasicsAgain | rust-queues/src/ms_queue/msq_hazp.rs:259-265 | after running empty the queue takes two more pointers and gives them back in order, then None |
| MsQueueHazp.Basics | rust-queues/src/ms_queue/msq_hazp.rs:233-266 | the `basics` test: every dequeue returns what the test asserts |
| MsqHazp.Node.constructor | ms-rust/src/msq_hazp.rs:10-17 | a new node holds the given value and has a null `next` |
| MsqHazp.Queue.NullNextIsLast | ms-rust/src/msq_hazp.rs:108-113 | in a valid list a node's `next` is null exactly when it is the last node |
| MsqHazp.Queue.constructor | ms-rust/src/msq_hazp.rs:25-36 | head and tail are one dummy node holding -1 with no successor; the queue is empty and nothing is retired |
| MsqHazp.Queue.CasNext | ms-rust/src/msq_hazp.rs:61-63 | the CAS succeeds exactly when the tail node's `next` is null, and then appends the new node's value to the contents; otherwise nothing changes |
| MsqHazp.Queue.CasTail | ms-rust/src/msq_hazp.rs:81-83 | the CAS succeeds exactly when tail is the expected node, and then moves tail one node on; otherwise tail stays |
| MsqHazp.Queue.CasHead | ms-rust/src/msq_hazp.rs:127-129 | the CAS succeeds exactly when head is the expected node, and then moves head to the next node and drops the first value; otherwise nothing changes |
| MsqHazp.Queue.Retire | ms-rust/src/msq_hazp.rs:130-134 | the node a head CAS unlinked joins the retired nodes |
| MsqHazp.Queue.Enqueue | ms-rust/src/msq_hazp.rs:38-86 | enqueue appends the value to the contents and leaves head and the retired nodes as they were |
| MsqHazp.Queue.EnqueueRound | ms-rust/src/msq_hazp.rs:44-84 | a pass that links the node appends its value; one that does not changes no contents and moved tail on |
| MsqHazp.Queue.Dequeue | ms-rust/src/msq_hazp.rs:88-149 | FIFO: None exactly when the queue is empty, and then nothing changes; otherwise the first value, head moves to its node and the old dummy is retired |
| MsqHazp.EmptyIff | ms-rust/src/msq_hazp.rs:108-113 | the queue is empty exactly when head and tail coincide and the dummy node has no `next` |
| MsqHazp.BasicsFill | ms-rust/src/msq_hazp.rs:186-188 | the new queue holds 1, 2, 3 in order |
| MsqHazp.BasicsRefill | ms-rust/src/msq_hazp.rs:191-196 | the two dequeues give 1 and 2, and then the queue holds 3, 4, 5 |
| MsqHazp.BasicsDrain | ms-rust/src/msq_hazp.rs:199-202 | the dequeues give 3, 4, 5 and then None |
| MsqHazp.BasicsAgain | ms-rust/src/msq_hazp.rs:205-211 | after running empty the queue takes 6 and 7 and gives them back in order, then None |
| MsqHazp.Basics | ms-rust/src/msq_hazp.rs:181-212 | the `basics` test: every dequeue returns what the test asserts |
| MsqTagged.Bump | ms-rust/src/old_code/msq_tagged_ptr.rs:70 | the next tag is the old one plus one, modulo 2^16 |
| MsqTagged.BumpCount | ms-rust/src/old_code/msq_tagged_ptr.rs:91 | a word swung n + 1 times carries the tag of one swung n times, plus one |
| MsqTagged.Node.constructor | ms-rust/src/old_code/msq_tagged_ptr.rs:13-18 | a new node holds the given value and a `next` that is null with tag 0 |
| MsqTagged.Queue.NullNextIsLast | ms-rust/src/old_code/msq_tagged_ptr.rs:113-118 | in a valid list a node's `next` address is null exactly when it is the last node |
| MsqTagged.Queue.constructor | ms-rust/src/old_code/msq_tagged_ptr.rs:40-48 | head, tail and first are the same word, one dummy node holding -1 with tag 0 and a null `next`; the queue is empty |
| MsqTagged.Queue.CasNext | ms-rust/src/old_code/msq_tagged_ptr.rs:68-73 | the CAS succeeds exactly when the tail node's `next` is the expected word, and then links the new node, appending its value; otherwise nothing changes |
| MsqTagged.Queue.CasTail | ms-rust/src/old_code/msq_tagged_ptr.rs:89-94 | the CAS succeeds exactly when tail is the expected word, tag included, and then moves tail one node on; otherwise tail stays |
| MsqTagged.Queue.CasHead | ms-rust/src/old_code/msq_tagged_ptr.rs:133-138 | the CAS succeeds exactly when head is the expected word, tag included, and then moves head to the next node and drops the first value; otherwise nothing changes |
| MsqTagged.Queue.Enqueue | ms-rust/src/old_code/msq_tagged_ptr.rs:50-97 | enqueue appends the value to the contents and leaves head and first as they were |
| MsqTagged.Queue.EnqueueRound | ms-rust/src/old_code/msq_tagged_ptr.rs:55-95 | a pass that links the node appends its value; one that does not changes no contents and moved tail on |
| MsqTagged.Queue.Dequeue | ms-rust/src/old_code/msq_tagged_ptr.rs:99-149 | FIFO: None exactly when the queue is empty, and then nothing changes; otherwise the first value, and head becomes the next node with its tag plus one |
| MsqTagged.Queue.Drop | ms-rust/src/old_code/msq_tagged_ptr.rs:26-37 | drop frees every node ever linked, dequeued ones included, each once and in list order |
| MsqTagged.EmptyIff | ms-rust/src/old_code/msq_tagged_ptr.rs:113-118 | the queue is empty exactly when head and tail hold the same address and the dummy node's `next` is null |
| MsqMain.Node.constructor | ms-rust/src/main.rs:13-20 | a new node holds the given value and has a null `next` |
| MsqMain.Queue.NullNextIsLast | ms-rust/src/main.rs:91-94 | in a valid list a node's `next` is null exactly when it is the last node |
| MsqMain.Queue.constructor | ms-rust/src/main.rs:29-35 | head and tail are one node holding 0 with no successor; the queue is empty and nothing is freed |
| MsqMain.Queue.CasNext | ms-rust/src/main.rs:65-67 | the CAS succeeds exactly when the tail node's `next` is null, and then appends the new node's value to the contents; otherwise nothing changes |
| MsqMain.Queue.CasTail | ms-rust/src/main.rs:76 | the CAS succeeds exactly when tail is the expected node, and then moves tail one node on; otherwise tail stays |
| MsqMain.Queue.CasHead | ms-rust/src/main.rs:98 | the CAS succeeds exactly when head is the expected node, and then moves head to the next node and drops the first value; otherwise nothing changes |
| MsqMain.Queue.Free | ms-rust/src/main.rs:100-101 | the node a head CAS unlinked joins the freed nodes |
| MsqMain.Queue.Enqueue | ms-rust/src/main.rs:55-80 | enqueue appends the value to the contents and leaves head and the freed nodes as they were |
| MsqMain.Queue.EnqueueRound | ms-rust/src/main.rs:58-78 | a pass that links the node appends its value; one that does not changes no contents and moved tail on |
| MsqMain.Queue.Dequeue | ms-rust/src/main.rs:82-109 | as written: None exactly when the queue is empty; otherwise the first value is dropped from the contents, the old head node is freed and its own value, not the first value, is returned |
| MsqMain.Queue.DequeueIntended | ms-rust/src/main.rs:82-109 | corrected: None exactly when the queue is empty; otherwise the first value is returned and dropped, and the old head node is freed |
| MsqMain.Queue.Drop | ms-rust/src/main.rs:112-123 | drop frees the nodes from head on, each once and in list order, none of them freed before |
| MsqMain.EmptyIff | ms-rust/src/main.rs:91-94 | the queue is empty exactly when head and tail coincide and the head node has no `next` |
| MsqMain.BasicsFill | ms-rust/src/main.rs:163-165 | the new queue holds 1, 2, 3 in order and head is unchanged |
| MsqMain.AsWrittenRefill | ms-rust/src/main.rs:168-173 | as written the two dequeues give 0 and 1 |
| MsqMain.AsWrittenDrain | ms-rust/src/main.rs:176-179 | as written the next dequeues give 2, 3, 4 and then None |
| MsqMain.AsWrittenAgain | ms-rust/src/main.rs:182-188 | as written the last dequeues give 5, 6 and then None |
| MsqMain.BasicsAsWritten | ms-rust/src/main.rs:158-189 | the `basics` test as written: each value comes out one call late, so the first dequeue is not the `Some(1)` line 168 asserts |
| MsqMain.IntendedRefill | ms-rust/src/main.rs:168-173 | with the corrected dequeue the two dequeues give 1 and 2 |
| MsqMain.IntendedDrain | ms-rust/src/main.rs:176-179 | with the corrected dequeue the next dequeues give 3, 4, 5 and then None |
| MsqMain.IntendedAgain | ms-rust/src/main.rs:182-188 | with the corrected dequeue the last dequeues give 6, 7 and then None |
| MsqMain.BasicsIntended | ms-rust/src/main.rs:158-189 | the `basics` test holds for the corrected dequeue: every result is the one asserted |
| MsqExperimental.Node.constructor | ms-rust/src/experimental_msq.rs:10-15 | a new node holds the given value and a `next` that is null with tag 0 |
| MsqExperimental.Queue.NullNextIsLast | ms-rust/src/experimental_msq.rs:106-111 | in a valid list a node's `next` address is null exactly when it is the last node |
| MsqExperimental.Queue.constructor | ms-rust/src/experimental_msq.rs:23-34 | head and tail are the same word, one dummy node holding -1 with tag 0 and a null `next`; the queue is empty |
| MsqExperimental.Queue.CasNext | ms-rust/src/experimental_msq.rs:55-61 | the CAS succeeds exactly when the tail node's `next` is the expected word, and then links the new node, appending its value; otherwise nothing changes |
| MsqExperimental.Queue.CasTail | ms-rust/src/experimental_msq.rs:77-82 | the CAS succeeds exactly when tail is the expected word, tag included, and then moves tail one node on; otherwise tail stays |
| MsqExperimental.Queue.CasHead | ms-rust/src/experimental_msq.rs:124-130 | the CAS succeeds exactly when head is the expected word, tag included, and then moves head to the next node and drops the first value; otherwise nothing changes |
| MsqExperimental.Queue.Enqueue | ms-rust/src/experimental_msq.rs:36-85 | enqueue appends the value to the contents and leaves head as it was |
| MsqExperimental.Queue.EnqueueRound | ms-rust/src/experimental_msq.rs:44-83 | a pass that links the node appends its value; one that does not changes no contents and moved tail on |
| MsqExperimental.Queue.Dequeue | ms-rust/src/experimental_msq.rs:87-142 | None exactly when the queue is empty; otherwise the first value is dropped, head becomes its node with tag plus one, and the old head node's own value is returned |
| MsqExperimental.EmptyIff | ms-rust/src/experimental_msq.rs:102-111 | the queue is empty exactly when the tagged head equals the tagged tail and the head node's `next` is null |
| MsqExperimental.SameWordIffSameNode | ms-rust/src/experimental_msq.rs:106 | in a valid queue tagged head and tail are equal exactly when they hold the same node |
| MsqExperimental.LaggedValues | ms-rust/src/experimental_msq.rs:131-133 | after enqueueing 1 and 2 on a new queue the two dequeues give the dummy's -1 and then 1 |
| Lfring.Pow2Is | c++-reference/third-party/scqueue/lfring_cas1.h:91-94 | `lfring_pow2(order)` is 2 to the power order |
| Lfring.Pow2 | c++-reference/third-party/scqueue/lfring_cas1.h:91-94 | no contract of its own: `Pow2Is` states that it is 2^order for every order below 32 |
| Lfring.Threshold3Is | c++-reference/third-party/scqueue/lfring_cas1.h:89 | the threshold stored for a ring of 2^(order+1) slots is three times half the slots, less one |
| Lfring.Threshold3 | c++-reference/third-party/scqueue/lfring_cas1.h:89 | for n = 2 * half slots the threshold is 3 * half - 1 |
| Lfring.TailWordBits | c++-reference/third-party/scqueue/lfring_cas1.h:82 | masking a tail word with the inverse of the closed bit gives the ticket counter and masking with the closed bit gives the flag |
| Lfring.CloseWord | c++-reference/third-party/scqueue/lfring_cas1.c:164-167 | ORing the closed bit into a tail word sets the flag and keeps the counter |
| Lfring.DiffSmall | c++-reference/third-party/scqueue/lfring_cas1.h:67 | `__lfring_cmp` on words below 2^(w-1) compares them as ordinary numbers |
| Lfring.DiffEmpty | c++-reference/third-party/scqueue/lfring_cas1.h:67 | the all-ones word of an empty slot compares below every word below 2^(w-1) |
| Lfring.DiffClosed | c++-reference/third-party/scqueue/lfring_cas1.h:67 | a closed tail word compares against a counter as the counters' difference shifted by 2^(w-1) |
| Lfring.Diff | c++-reference/third-party/scqueue/lfring_cas1.h:67 | the w-bit difference read as signed: in [-2^(w-1), 2^(w-1)) and equal to x - y up to one multiple of 2^w |
| Lfring.RawMapRange | c++-reference/third-party/scqueue/lfring_cas1.h:69-80 | `raw_map` returns a slot below n, depends only on the index's low bits, and with a zero minimum order is `idx & (n - 1)` |
| Lfring.RawMapInjective | c++-reference/third-party/scqueue/lfring_cas1.h:69-80 | indices with different low bits map to different slots |
| Lfring.RawMapOnto | c++-reference/third-party/scqueue/lfring_cas1.h:69-80 | every slot below n is the `raw_map` of some index below n |
| Lfring.RawMap | c++-reference/third-party/scqueue/lfring_cas1.h:69-80 | no contract of its own: `RawMapRange`, `RawMapInjective` and `RawMapOnto` state that it permutes the slots below n |
| Lfring.MapPeriodic | c++-reference/third-party/scqueue/lfring_cas1.h:84-87 | tickets n apart map to the same slot |
| Lfring.MapDistinct | c++-reference/third-party/scqueue/lfring_cas1.h:84-87 | tickets fewer than n apart map to different slots |
| Lfring.MapRange | c++-reference/third-party/scqueue/lfring_cas1.h:84-87 | every ticket maps to a slot below n |
| Lfring.Map | c++-reference/third-party/scqueue/lfring_cas1.h:84-87 | no contract of its own: `MapPeriodic`, `MapDistinct` and `MapRange` state its period n and its range |
| Lfring.CycleBound | c++-reference/third-party/scqueue/lfring_cas1.c:63 | the cycles of tickets below the counter limit grow by at least 2n a round and stay below the top bit |
| Lfring.TCycleIs | c++-reference/third-party/scqueue/lfring_cas1.c:63 | `(t << 1) \| (2n - 1)` on w-bit words is the cycle of ticket t |
| Lfring.CycleLow | c++-reference/third-party/scqueue/lfring_cas1.c:108 | a cycle has its low k + 1 bits set and the ticket's round above them |
| Lfring.EntryEncode | c++-reference/third-party/scqueue/lfring_cas1.c:56-74 | XORing the ticket's cycle with `eidx ^ (n - 1)` stores the entry of index eidx at that ticket |
| Lfring.EntryDecode | c++-reference/third-party/scqueue/lfring_cas1.c:115-119 | an entry's cycle is its ticket's, the low bits give its index back, and ORing in n - 1 leaves the cycle |
| Lfring.EntryLowBits | c++-reference/third-party/scqueue/lfring_cas1.c:119 | below bit k an entry holds its index, and filling those bits gives its cycle |
| Lfring.ConsumedBits | c++-reference/third-party/scqueue/lfring_cas1.c:117-122 | a consumed word has all low bits set, the n bit included, so `~entry & n` is zero |
| Lfring.CycleOrder | c++-reference/third-party/scqueue/lfring_cas1.c:68 | cycles are ordered as the rounds of their tickets |
| Lfring.ConsumedBelow | c++-reference/third-party/scqueue/lfring_cas1.c:68 | the word left by ticket t - n, consumed, compares below ticket t's cycle, so enqueue may fill the slot |
| Lfring.TailBits | c++-reference/third-party/scqueue/lfring_cas1.c:63-68 | the tail ticket's cycle, and the consumed word of ticket t - n is its own cycle and compares below it |
| Lfring.EnqueueWords | c++-reference/third-party/scqueue/lfring_cas1.c:56-74 | on the consumed word of ticket t - n the entry test of enqueue passes and the word stored is the entry of eidx at t |
| Lfring.TakeWords | c++-reference/third-party/scqueue/lfring_cas1.c:107-119 | on the entry of index v published at ticket t the dequeue finds t's cycle, returns v and leaves t's cycle behind |
| Lfring.HoleWords | c++-reference/third-party/scqueue/lfring_cas1.c:122-134 | on the consumed word of ticket t - n the dequeue sees a word of an earlier cycle with the n bit set and replaces it by t's cycle |
| Lfring.CatchupReopens | c++-reference/third-party/scqueue/lfring_cas1.h:105-117 | as written: on a closed ring whose counter is the head ticket plus one, the catch-up stores the bare head counter, clearing the closed bit |
| Lfring.CatchupLeavesTailBehind | c++-reference/third-party/scqueue/lfring_cas1.h:105-117 | as written: on a closed ring whose counter equals the head ticket, the catch-up stops with the tail one behind the head |
| Lfring.CatchupKeepsClosed | c++-reference/third-party/scqueue/lfring_cas1.h:105-117 | corrected: the catch-up raises the counter to the larger of tail and head and keeps the closed bit |
| Lfring.CatchupWordIs | c++-reference/third-party/scqueue/lfring_cas1.h:105-117 | as written, after a dequeue moved the head to h above the tail counter t: an open ring's tail becomes h, a closed ring with t = h is reopened at h, and a closed ring with t < h keeps its word |
| Lfring.CatchupWord | c++-reference/third-party/scqueue/lfring_cas1.h:105-117 | the word the catch-up leaves is the head or the word it found, and compares at or above head in the code's wraparound comparison |
| Lfring.CatchupKeepingClosed | c++-reference/third-party/scqueue/lfring_cas1.h:105-117 | no contract of its own: `CatchupKeepsClosed` states that it raises the counter to the larger of tail and head and keeps the closed bit |
| LfringRing.InitEmptyDequeue | c++-reference/third-party/scqueue/lfring_cas1.c:3-14 | an empty ring is well formed and live, and its `nonempty = false` dequeue returns EMPTY at once |
| LfringRing.EnqueueFrom | c++-reference/third-party/scqueue/lfring_cas1.c:49-83 | no contract of its own: `EnqueueSpec` states that a closed ring refuses and an open one appends the index, taking one ticket either way |
| LfringRing.CatchupFrom | c++-reference/third-party/scqueue/lfring_cas1.h:105-117 | no contract of its own: the state the catch-up leaves, by `Lfring.CatchupWordIs` on the tail word; `DequeueSpec` states what the dequeue then does to the closed flag |
| LfringRing.RoundFrom | c++-reference/third-party/scqueue/lfring_cas1.c:106-153 | no contract of its own: `RoundSpec` states what one pass returns and leaves |
| LfringRing.DequeueRounds | c++-reference/third-party/scqueue/lfring_cas1.c:106-154 | no contract of its own: `RoundsSpec` states what the loop returns and leaves |
| LfringRing.DequeueFrom | c++-reference/third-party/scqueue/lfring_cas1.c:85-155 | no contract of its own: `DequeueSpec` states FIFO order, EMPTY, and the closed flag and tail it leaves |
| LfringRing.CloseFrom | c++-reference/third-party/scqueue/lfring_cas1.c:164-167 | no contract of its own: `CloseSpec` states that a closed ring keeps its indices and refuses enqueues |
| LfringRing.ResetFrom | c++-reference/third-party/scqueue/lfring_cas1.c:157-162 | no contract of its own: `ResetSpec` states that the threshold becomes 3n - 1 and the ring stays well formed and live |
| LfringRing.DequeueReopens | c++-reference/third-party/scqueue/lfring_cas1.c:140-150 | on a closed ring with nothing queued whose tail is one past head, an EMPTY dequeue reopens the ring as written and keeps it closed with the closed-keeping catch-up |
| LfringRing.ReopenRun | c++-reference/include/LSCQueue.hpp:70-91 | the ring `aq` of a two-item queue along enqueue, enqueue, close, dequeue, dequeue, refused enqueue and EMPTY dequeue: the next enqueue is accepted as written and refused with the closed-keeping catch-up |
| LfringRing.InitFullWf | c++-reference/third-party/scqueue/lfring_cas1.c:16-29 | a full ring is well formed and live and holds half its slots' worth of indices |
| LfringRing.InitFillWf | c++-reference/third-party/scqueue/lfring_cas1.c:31-47 | a filled ring is well formed and live |
| LfringRing.EnqueueSpec | c++-reference/third-party/scqueue/lfring_cas1.c:49-83 | enqueue fails exactly on a closed ring; an accepted index goes to the back; the tail counter moves on either way; `nonempty = false` resets the threshold |
| LfringRing.RoundSpec | c++-reference/third-party/scqueue/lfring_cas1.c:106-153 | a pass takes a head ticket; it returns the oldest index if there is one, and otherwise consumes the slot and lowers the threshold. Only the catch-up touches the tail or the closed flag: as written it reopens a closed, empty ring whose tail is one past the ticket and leaves a closed ring's tail behind the new head otherwise; the closed-keeping catch-up keeps head at or below tail |
| LfringRing.DequeueSpec | c++-reference/third-party/scqueue/lfring_cas1.c:85-155 | FIFO: dequeue returns and drops the oldest index, or returns EMPTY when none is queued, and the ring stays well formed and live. As written the closed flag is cleared exactly when the dequeue ends at the ticket below a closed, empty ring's tail (`Reopens`), which leaves head and tail there; a closed, empty ring with head not below tail gets head one further past tail. With the closed-keeping catch-up the flag is kept and head stays at or below tail |
| LfringRing.RoundsSpec | c++-reference/third-party/scqueue/lfring_cas1.c:106-154 | the dequeue loop returns the oldest index, or EMPTY when none is queued, and changes the closed flag and the tail as `DequeueSpec` states |
| LfringRing.EnqueueThenDequeue | c++-reference/third-party/scqueue/lfring_cas1.c:49-155 | on an empty live open ring, an index enqueued with `nonempty = false` is the next one dequeued, with either catch-up |
| LfringRing.CloseSpec | c++-reference/third-party/scqueue/lfring_cas1.c:164-167 | closing keeps the queued indices, and every later enqueue fails while taking a ticket |
| LfringRing.ResetSpec | c++-reference/third-party/scqueue/lfring_cas1.c:157-162 | after a threshold reset the ring is live with threshold three times half the slots, less one |
| LfringRing.HeadSlot | c++-reference/third-party/scqueue/lfring_cas1.c:107-112 | the head ticket's slot holds the oldest index's entry, or the consumed word of the ticket a round back |
| LfringRing.TailSlot | c++-reference/third-party/scqueue/lfring_cas1.c:59-65 | on an open ring with room, the tail ticket's slot holds the consumed word of the ticket a round back |
| LfringRing.WindowEnqueue | c++-reference/third-party/scqueue/lfring_cas1.c:73-74 | storing an index's entry at the tail ticket keeps the slot invariant with the index appended |
| LfringRing.WindowTake | c++-reference/third-party/scqueue/lfring_cas1.c:117-118 | consuming the head ticket's entry keeps the slot invariant with the oldest index dropped |
| LfringRing.WindowSkip | c++-reference/third-party/scqueue/lfring_cas1.c:134-139 | writing the head ticket's cycle into its slot when nothing is queued keeps the slot invariant past the ticket |
| LfringRing.FirstRoundWords | c++-reference/third-party/scqueue/lfring_cas1.c:37-40 | in round zero, ticket i publishes index e as n + e and is consumed as 2n - 1 |
| LfringRing.PlacedStep | c++-reference/third-party/scqueue/lfring_cas1.c:37-42 | the init loops' stores keep the words stored for earlier tickets |
| LfringRing.WindowFirstRound | c++-reference/third-party/scqueue/lfring_cas1.c:16-47 | the slots written by the init loops satisfy the slot invariant |
| LfringRing.InvEnqueueClosed | c++-reference/third-party/scqueue/lfring_cas1.c:59-61 | enqueue on a closed ring only takes a ticket and keeps the invariant |
| LfringRing.InvEnqueue | c++-reference/third-party/scqueue/lfring_cas1.c:59-80 | on an open ring with room, the tail slot is free and storing the entry there gives the state enqueue gives |
| LfringRing.InvTake | c++-reference/third-party/scqueue/lfring_cas1.c:107-119 | with an index queued, the head slot holds its entry, the pass returns it, and marking the slot consumed keeps the invariant |
| LfringRing.InvSkip | c++-reference/third-party/scqueue/lfring_cas1.c:122-150 | with nothing queued, the head slot is consumed, an open ring has tail at head, and writing the ticket's cycle gives the state of the pass with the as-written catch-up, with the tail word at its tail and closed flag |
| LfringRing.InvClose | c++-reference/third-party/scqueue/lfring_cas1.c:164-167 | closing sets the flag and the top bit of the tail word and keeps the invariant |
| LfringRing.InvReset | c++-reference/third-party/scqueue/lfring_cas1.c:157-162 | a threshold reset keeps the invariant |
| LfringRing.TakeEntry | c++-reference/third-party/scqueue/lfring_cas1.c:115-119 | the cycle test succeeds exactly on an entry published at the head ticket, and then gives its index and the word left behind |
| LfringRing.SkipEntry | c++-reference/third-party/scqueue/lfring_cas1.c:122-134 | on a consumed word of an earlier round the dequeue does not go back, and replaces the word by the head ticket's cycle |
| LfringRing.CounterAtMost | c++-reference/third-party/scqueue/lfring_cas1.c:143 | `__lfring_cmp(x, <=, y)` on counters below the closed bit is x <= y |
| LfringRing.Counter | c++-reference/third-party/scqueue/lfring_cas1.c:129 | masking off the closed bit leaves the ticket counter |
| LfringRing.EnqueueEntry | c++-reference/third-party/scqueue/lfring_cas1.c:67-74 | on the consumed word of the ticket a round back the entry test passes and the word stored is the index's entry |
| LfringRing.Ring.InitEmpty | c++-reference/third-party/scqueue/lfring_cas1.c:3-14 | the new ring stands for the empty state: every slot -1, head and tail 0, threshold -1 |
| LfringRing.Ring.InitFull | c++-reference/third-party/scqueue/lfring_cas1.c:16-29 | the new ring stands for the full state: the first half of the tickets hold their mapped indices |
| LfringRing.Ring.InitFill | c++-reference/third-party/scqueue/lfring_cas1.c:31-47 | the new ring stands for the state with tickets [s, e) queued |
| LfringRing.Ring.Enqueue | c++-reference/third-party/scqueue/lfring_cas1.c:49-83 | the result and the new state are those enqueue gives from the old state |
| LfringRing.Ring.Publish | c++-reference/third-party/scqueue/lfring_cas1.c:63-80 | the rest of an open-ring enqueue gives the result and state enqueue gives |
| LfringRing.Ring.DequeueRound | c++-reference/third-party/scqueue/lfring_cas1.c:106-153 | one pass gives the result and state the pass function gives with the as-written catch-up |
| LfringRing.Ring.ConsumeHole | c++-reference/third-party/scqueue/lfring_cas1.c:122-153 | the consumed-slot path writes the ticket's cycle into the slot and, running `Catchup` on the masked tail, gives what the pass function gives with the as-written catch-up |
| LfringRing.Ring.Dequeue | c++-reference/third-party/scqueue/lfring_cas1.c:85-155 | the result and the new state are those dequeue gives from the old state with the catch-up as written |
| LfringRing.Ring.Catchup | c++-reference/third-party/scqueue/lfring_cas1.h:105-117 | as written: the tail word becomes the word the source's catch-up loop leaves; dequeue calls it with the masked tail |
| LfringRing.Ring.ResetThreshold | c++-reference/third-party/scqueue/lfring_cas1.c:157-162 | the new state is the old one with the threshold reset |
| LfringRing.Ring.Close | c++-reference/third-party/scqueue/lfring_cas1.c:164-167 | the new state is the old one closed |
| LfringRing.Ring.GetHead | c++-reference/third-party/scqueue/lfring_cas1.c:169-172 | returns the head counter |
| LfringRing.Ring.GetTail | c++-reference/third-party/scqueue/lfring_cas1.c:174-177 | returns the tail counter without the closed bit |
| LfringRing.Ring.CatchupKeepClosed | c++-reference/third-party/scqueue/lfring_cas1.h:105-117 | corrected: the counter rises to the larger of tail and head and the closed bit is kept; the dequeue as written does not call it |

## Left out

- Concurrency: interleavings, memory orderings, linearizability and progress (lock-freedom) are not modelled. The concurrent tests and the benchmark drivers that spawn threads are not part of this model.
- Lost races: the compare-and-swap branches that only another thread can cause (the retries of enqueue and dequeue, a weak compare-and-swap failing spuriously) are proved unreachable rather than modelled.
- `fetch_or` on a cell or tail word is modelled as a store of the ORed value, which is what it does under one thread.
- Reclamation: the hazard-pointer, epoch (`crossbeam_epoch`) and `aarc` libraries are foreign code, and no memory is released in the model. Where the code retires, defers or frees a node or segment (`MsQueueHazp`, `MsqHazp`, `MsqMain`, `Lprq`, `Ccqueue`), a ghost set or sequence records it. `MsqExperimental` and `ArcLprq` keep no such record: the first never retires a node and the second leaves freeing to reference counts. The guard's protect, flush and repin are left out.
- Thread ids (the source of `make_token`'s argument) are parameters.
- MsqExperimental: the crossbeam tag is a `nat`, because crossbeam's tag width depends on the pointer's alignment.
- MsqTagged: the debug-build panic when a 16-bit tag overflows is not modelled. The release-build wrap is modelled by `Bump`.
- rust-queues/src/lcrq/lprq.rs is not part of this model, because it does not compile against the segment it uses. ModLCRQueue.hpp, CCQueue.hpp, ccsynch.h, lfring.h, MetaprogrammingUtils.hpp and Forked.cpp are not part of this model either: they are wrappers, a template library and a process driver around code modelled elsewhere.
- `ccsynch_apply`, the combining lock, is modelled as a direct call of the serial operation, which is what it does with one thread.
- Ccqueue.Queue.Free: `handle_free` and the final free of the head node in `queue_free` are left out, because they only release memory.
- The glue types `SharedQueue`, `SharedLPRQ` and `MSQueue`, and the CLI, allocator and CPU-affinity helpers, are not modelled.
- `debug_print`, `print_queue` and all printing are I/O and are left out.
- The plotting and statistics scripts, including `get_chart_style`, are left out.
- The `CAUTIOUS_DEQUEUE` build option of the C++ reference is left out.
- DeduceNproc.Deduce: the `int()` parsing of standard input and of the command line is left out. Its inputs are already natural numbers, so negative counts and parse errors are not modelled, and `numpy` and `sys.exit` are modelled by the `Outcome` datatype.
- Prq.PRQ.constructor, Crq.CRQ.constructor: the initial contents of the value array are modelled as null cells (`Null`/`None`), which is what the allocation writes.
- Lscq and Ccqueue: the 64-bit wrap of the `getHeadIndex`/`getTailIndex` counters and of the enqueue/dequeue counters is not modelled. The counters are natural numbers.
- Prq.EnqueueFrom: the tail ticket is an unbounded natural, while the source's `usize` fetch-add wraps at 2^64. The wrap is not modelled.
- Prq.DequeueFrom: the head ticket is an unbounded natural, while the source's `usize` fetch-add wraps at 2^64. The wrap is not modelled.
- Crq.EnqueueFrom: the tail ticket is an unbounded natural, so its `usize` wrap at 2^64 is not modelled. The 2^64 wrap of the full check's subtraction is modelled (`UsizeSub`); the debug-build panic on that overflow (crq.rs line 119) is not.
- Crq.DequeueFrom: the head ticket is an unbounded natural, so its `usize` wrap at 2^64 is not modelled.
- ArcPrq.EnqueueFrom: the tail ticket is an unbounded natural; the class requires it to stay below the closed bit 2^63, as listed below.
- Lprq.EnqueueFrom: the ticket counters of every segment are unbounded naturals, as in `Prq` and `ArcPrq`; their `usize` wrap is not modelled.
- Lprq.DequeueFrom: the ticket counters of every segment are unbounded naturals, as in `Prq` and `ArcPrq`; their `usize` wrap is not modelled.
- PrqCell.PackInjective: requires epochs below 2^63. An epoch `t / n` at or above 2^63 would share bit 63 with the safe bit in `usize_from_sae`; tickets that large are not modelled.
- TaggedPtr.SetTag: the debug-build panic on a tag of 0xFFFF is `None`. The release-build wrap, which carries out of bit 63 and leaves tag 0, is not modelled.
- LfringRing.Ring.DequeueRound: requires `head + 1 < 2^(w-3)` as well as the tail bound. The head counter can pass the tail on a closed ring, so the tail bound no longer covers it.
- LfringRing.Ring.Dequeue: requires `tail + 1 < 2^(w-3)`, as `Enqueue` does, and `head + 1 < 2^(w-3)`, for the same reason as `DequeueRound`.
- Lscq.TakeIndex: requires `head + 1 < 2^(w-3)`, for the same reason.
- Lscq.SCQueue.Dequeue: requires `aq`'s `head + 1 < 2^(w-3)`, for the same reason.
- Lscq.SCQueue.GetTailIndex: no longer promises that the tail index is at least the head index on a closed, empty `aq`. There, the as-written catch-up leaves the tail behind the head.
- ArcPrq.ArcPRQ.constructor: requires `n < 2^63` so that tickets fit below the closed bit.
- ArcPrq.ArcPRQ.WithItem: requires `2n + 1 < 2^63`, for the same reason.
- ArcPrq.ArcPRQ.Enqueue: requires the masked tail plus one and `head + n + 1` to stay below 2^63, the closed bit, rather than modelling the wrap of the tail counter into the closed bit.
- ArcPrq.ArcPRQ.FixState: requires `head < 2^63`, so that the stored head never sets the closed bit.
- ArcPrq.ArcPRQ.Dequeue: requires `head + 1 < 2^63`.
- ArcLprq.ArcLPRQ.Dequeue: requires two tickets of room below the closed bit in every segment (`Roomy`), so that the segment counters never reach bit 63.
- ArcLprq.ArcLPRQ.Drop: requires room for two tickets per queued value plus two below the closed bit (`Roomy`), for the same reason.
- LfringRing.Ring.Enqueue: requires `tail + 1 < 2^(w-3)`, so that the ticket counter does not wrap into the cycle bits and the closed bit of a `w`-bit word.
- LfringRing.Ring.CatchupKeepClosed: requires the tail and the head below 2^(w-3), for the same reason.
- The helper methods that split a retry loop into one method per round (`EnqueueRound`, `DequeueRound`, `Retry`, `Publish`, `ConsumeHole`, `TryPublish`, `UpdateCell`) are parts of the operation they come from, not separate operations of the source.

## Findings

| source | as written | input that shows it | evidently intended | confidence | as-written member | corrected member |
|---|---|---|---|---|---|---|
| c++-reference/third-party/scqueue/lfring_cas1.h:105-117 | `__lfring_catchup` is called by dequeue with the tail masked of its closed bit (lfring_cas1.c lines 142-144). It compares that against the full tail word, so the compare-and-swap fails on a closed ring. It then retries with the reread word as the expected value. When the counter equals the head it stores the bare head counter, which clears the closed bit; when the counter is below the head, the closed word compares above it and the tail is left behind the head. | an `SCQueue` of two items: enqueue a and b; enqueue c is refused and closes `aq`; dequeue a and b; enqueue d is refused; a dequeue returns null and reopens `aq`; enqueue e is then accepted | catch-up moves the tail up to head and keeps the closed bit, so the closed `aq` keeps refusing | not executed | Lfring.CatchupReopens, LfringRing.ReopenRun, LfringRing.Ring.Catchup | Lfring.CatchupKeepsClosed, LfringRing.DequeueReopens, LfringRing.Ring.CatchupKeepClosed |
| ms-rust/src/main.rs:98-102 | dequeue returns the value stored in the old sentinel node, not in the node that becomes the new sentinel | a new queue, then enqueue 1, 2, 3: the first dequeue returns the sentinel's 0, while the test at line 168 expects `Some(1)` | dequeue returns the value of the node after the sentinel | not executed | MsqMain.BasicsAsWritten | MsqMain.BasicsIntended |
| rust-queues/src/lcrq/crq.rs:119 | after a dequeue finds the segment empty (lines 181-183), head is one past tail and is not repaired. The next enqueue's full check `tail_val - head >= N` subtracts in `usize` and wraps. | a new segment of size n >= 1: one dequeue, then one enqueue. The enqueue closes the segment and refuses the value instead of storing it. | the full check `tail_val >= head + N` of prq.rs, under which the enqueue succeeds | not executed | Crq.EmptyThenEnqueue | Crq.EmptyThenEnqueueIntended |
