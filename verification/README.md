# OpenGCL components, modelled and proved in Dafny

OpenGCL is a C++ library of small components. This project models five of them
and proves what they are for:

- **the circular queue** (`CircularQueue`): a bounded double-ended queue that
  keeps no counter. Everything follows from five 32-bit byte offsets in one
  allocation, with one slot kept free;
- **the event emitter** (`EventEmitter`): two such queues, one of interned event
  names whose slots are blanked and reused, one of listeners with tombstones,
  filtered by rotating the queue through itself and compacted on demand;
- **the locked queue** (`QueueMT`): the circular queue under a readers-writer
  lock, as a state machine over the single steps of any number of threads;
- **the intrusive list** (`Linkable`, `List`): circular doubly linked rings with
  a sentinel, on the heap;
- **the tokenizer** (`Tockenizer`) and **the hex codec**.

`dafny verify dfyconfig.toml` checks all of it.

## How it is built

| file | contents |
|---|---|
| Options.dfy | the optional value |
| Words.dfy | `unsigned` arithmetic modulo 2^32, written out; facts about products |
| ControlBlock.dfy | `cque_t`, its offset arithmetic, counts and cursors |
| Ring.dfy | control block and slots as a value; its contents; put, get, push, pop |
| Deque.dfy | whole runs against a bounded deque; push and pop as they are written |
| CircularQueue.dfy | the queue as an object over a buffer |
| EventModel.dfy | the emitter's rings as sequences, and what each call does to them |
| PlainEmitter.dfy | the meaning: a set of names and one plain list of registrations |
| EventRefinement.dfy | the rings implement the plain list |
| OnceOnly.dfy | data is opaque; which registration is called when, over whole runs |
| Compaction.dfy | where the listener ring stands, and when its compaction as written is safe |
| EventEmitter.dfy | the emitter as an object over two queues |
| EmitterRuns.dfy | whole runs of that object, with the compaction as meant and as written |
| QueueMT.dfy | interleavings of the locked queue |
| Linkable.dfy, List.dfy | rings and lists on the heap |
| Tockenizer.dfy, Hex.dfy | the tokenizer, the codec |

A pointer into a queue is its byte offset in the allocation, and 0 is the null
pointer. A queue of type T stores values of T in its slots, in place of
`item_size` bytes; the offsets and their arithmetic are those of the C++ code.
Function pointers and data pointers are opaque numbers. Every emitter call holds
the write lock from beginning to end, so calls are atomic. Listeners do not call
the emitter and do not change the event they are given.

## Where the code differs from what it means

Each of these is proved, with the exact condition:

- **pop** and **peek_prev(0)** step back from the tail without the wrap that
  `last()` has. They agree with it if and only if the tail is not at `begin`
  (`PopMoveExact`). The compaction of the emitter reaches the other case.
  `Squeeze` says exactly when a compaction as written is harmless; `ReplayWritten`
  says it for whole runs, by a condition on the calls alone (`RunSafe`); and
  `WrittenRunFails` is a run of six calls that goes wrong. On a plain queue a put,
  a put, a get, a put and a pop are enough (`PopRunStrays`).
- **push** tests fullness against the head instead of the tail, so on a full
  queue it reports success and empties the queue (`PushOnFullLosesAll`). At
  `begin` it wraps only if an item is no larger than the control block
  (`PushMoveExact`). `CircularQueue.Push` and `Pop` say for every state whether
  the access leaves the slots.
- Over whole runs, the queue as written answers like a bounded deque if and only
  if every call is in the domain of push and pop (`WrittenRunExact`).
- **init** lays out the requested slots if and only if the allocation is below
  2^32 bytes and items have a size (`InitFits`).
- **the empty event name** is what a freed slot shows. A call with it agrees with
  the plain list exactly while no slot is free, and for a registration none can
  be added (`StepRefinesExact`). After a registration and its `off`, an `emit` of
  it succeeds (`EmptyNameShows`).
- **Linkable::prepend** moves the receiver in front of its argument, instead of
  the argument behind the receiver. For nodes in rings the two agree if and only
  if both are alone, or they are neighbours already (`Prepend`); for a node in no
  ring see `PrependStale` and `PrependToStale`.
- **Stale links.** A removed node keeps its links. Destroying it later damages a
  ring if and only if one of the neighbours it remembers is in that ring and they
  no longer link to each other (`Destroy`). Appending it again makes it the last
  of the receiving ring if and only if its links fit that ring (`StaleFits`), and
  damages any other ring under the same condition as destroying it does, unless
  the node is alone (`Spares`); both in `Append`.
- **hexstr2byte** decodes correctly for every memory if and only if the
  destination does not start inside the source after its first byte
  (`DecodedExact`), and **byte2hexstr** encodes correctly if and only if no digit
  falls on a byte still to be read (`EncodedExact`).

## Model

| member | source | states |
|---|---|---|
| ControlBlock.InitFits | src/gque.cpp:22-47 | the 32-bit layout has capacity + 1 slots with head and tail on the first, iff there is nothing to lay out, or items have a size and header and slots together are below 2^32 bytes |
| ControlBlock.ForwardSlot | src/gque.cpp:53-54 | one item forward is the next slot around the end, and the 32-bit sum does not wrap |
| ControlBlock.BackSlot | include/gque.h:44-45 | one item back, as last() does it, is the previous slot around begin |
| ControlBlock.Counts | src/gque.cpp:119-147 | length, available, capacity, is_full and is_empty, computed from offsets in 32 bits, agree with one count; length + available = capacity |
| ControlBlock.PushMoveExact | src/gque.cpp:76-77 | the written step of push is the previous slot iff the head is not at begin or an item fits in the header |
| ControlBlock.PopMoveExact | src/gque.cpp:85-92 | the written step of pop and peek_prev(0) is that of last() iff the tail is not at begin |
| ControlBlock.BelowBegin | src/gque.cpp:76-79 | an item below begin is no slot of the queue, even when the difference wraps into a very large allocation |
| ControlBlock.CursorSteps | src/gque.cpp:94-117 | from peek(), peek_next goes through the stored items in order and then yields null; peek_prev is its inverse, and last() is the final cursor |
| ControlBlock.CursorStarts | src/gque.cpp:94-117 | peek_next without a cursor gives the first item, and null on an empty queue; a pointer outside the slots leads to null |
| ControlBlock.CursorsDistinct | src/gque.cpp:94-105 | no slot is visited twice |
| Ring.ContentsCount | include/gque.h:58-61 | empty and full are those of the stored items; one slot is always free |
| Ring.PutAppends | src/gque.cpp:50-59 | put appends and fails exactly on full; every other item keeps its place; a null item appends what the slot held |
| Ring.GetTakesHead | src/gque.cpp:62-70 | get removes exactly the head and fails exactly on empty |
| Ring.PushPrepends | src/gque.cpp:73-82 | push with the full test of the free-slot convention prepends and fails exactly on full; a null item prepends what the slot held |
| Ring.PopTakesLast | src/gque.cpp:85-92 | pop with the wrap of last() removes exactly the last item and fails exactly on empty |
| Ring.ClearEmpties | include/gque.h:36 | clear leaves no item and the capacity |
| Deques.SpareIsHidden | src/gque.cpp:50-92 | the cells of the deque that hold no item show only through null items |
| Deques.RingRunRefines | src/gque.cpp:50-147 | over every run of put, get, push, pop and clear, with items or null pointers, the results and contents are those of a bounded deque whose spare cells give what a null item adds, and the counts stay right |
| Deques.PushWrittenExact | src/gque.cpp:73-82 | push as written, with an item or a null pointer, equals deque push, in state and in result, iff the queue is not full and the step does not overstep begin |
| Deques.PopWrittenExact | src/gque.cpp:85-92 | pop as written equals deque pop iff the queue is empty or the tail is not at begin |
| Deques.PushOnFullLosesAll | src/gque.cpp:78-81 | on a full queue the written push reports success and leaves the queue empty |
| Deques.StepWrittenExact | src/gque.cpp:50-92 | a call as written equals the deque's call, in state and in result, exactly in the domain of push and pop |
| Deques.WrittenRunExact | src/gque.cpp:50-92 | a whole run as written, with items or null pointers, answers like the deque iff every call is in the domain of push and pop |
| Deques.PopRunStrays | src/gque.cpp:85-92 | a concrete run on a new queue of capacity 2 whose pop goes astray |
| CircularQueues.CircularQueue.constructor | src/gque.cpp:22-47 | for all 32-bit arguments, the new object is a queue iff the requested slots fit; then it is empty with the requested capacity |
| CircularQueues.CircularQueue.Clear | include/gque.h:36 | clear empties the queue in place |
| CircularQueues.CircularQueue.Put | src/gque.cpp:50-59 | put in place: new contents, new head and tail slots, failure exactly on full |
| CircularQueues.CircularQueue.Get | src/gque.cpp:62-70 | get in place: item, new contents, new head slot, failure exactly on empty |
| CircularQueues.CircularQueue.Push | src/gque.cpp:73-82 | push as written, from every state, with an item or a null pointer: the head leaves the slots iff it is at begin and an item is larger than the header; otherwise it prepends if not full and empties the queue if full |
| CircularQueues.CircularQueue.Pop | src/gque.cpp:85-92 | pop as written, from every state: the copy leaves the slots iff an item is stored and the tail is at begin; otherwise it removes the last item, or fails on empty |
| CircularQueues.CircularQueue.PopWrapped | include/gque.h:44-45 | pop with the wrap of last() removes the last item wherever the tail stands |
| CircularQueues.CircularQueue.Length | src/gque.cpp:127-134 | the number of stored items |
| CircularQueues.CircularQueue.Available | src/gque.cpp:136-142 | the number of items that can still be put |
| CircularQueues.CircularQueue.Store | src/gevent.cpp:49 | a write through a cursor changes that item and no other |
| CircularQueues.CircularQueue.ItemsForward | src/gque.cpp:94-105 | the loop from peek() over peek_next reads the contents and ends |
| CircularQueues.CircularQueue.ItemsBackward | src/gque.cpp:107-117 | the loop from last() over peek_prev reads the exact reverse and ends |
| EventModel.RingSizes | include/gevent.h:35-44 | both rings fit 32 bits iff 20 + (names + 1) * 16 and 20 + (listeners + 1) * 32 bytes do |
| EventModel.StepKeepsWellFormed | src/gevent.cpp:17-148 | whatever the names, every call keeps both rings within capacity and every name pointer on a slot |
| Compaction.FirstDead | src/gevent.cpp:126-131 | trimming a tombstone at the head changes neither the live blocks nor what the tail trim will pop |
| EventRefinement.PointerIsName | src/gevent.cpp:29-47 | a live listener's name pointer equals a used slot's pointer iff the names are equal |
| EventRefinement.RegisteredSize | src/gevent.cpp:87-109 | as many names are registered as there are slots iff no slot is free |
| EventRefinement.KeptIsWithout | src/gevent.cpp:23-34 | rotating out the matches of a pointer removes exactly the listener's registrations under that name, keeping the order |
| EventRefinement.UsesIsHasName | src/gevent.cpp:31-35 | the count of remaining users of the pointer is zero iff no registration of the name is left |
| EventRefinement.FiredIsAfterEmit | src/gevent.cpp:45-52 | the walk calls the registrations of the name in registration order and drops exactly its once registrations |
| EventRefinement.RegistrationsLive | src/gevent.cpp:124-148 | compaction changes no registration and leaves as many blocks as registrations |
| EventRefinement.OffRefines | src/gevent.cpp:17-37 | off answers and acts as on the plain list; the name is freed iff no registration of it is left |
| EventRefinement.EmitRefines | src/gevent.cpp:39-54 | emit answers, calls and drops as the plain list does |
| EventRefinement.RegisterRefines | src/gevent.cpp:87-109 | registering finds, reuses or adds a slot; it fails iff the name is new and the names fill the ring; live listeners see the same names |
| EventRefinement.OnRefines | src/gevent.cpp:56-75 | on and once answer and act as on the plain list |
| EventRefinement.StepRefinesExact | src/gevent.cpp:77-85 | a call agrees with the plain list iff its name is non-empty, or no slot is free (and none can be added, for a registration) |
| EventRefinement.EmptyNameShows | src/gevent.cpp:77-122 | after a registration and its off, an emit of the empty name succeeds where the plain list refuses it |
| EventRefinement.RunRefines | src/gevent.cpp:17-148 | over every run with non-empty names, return values and listener calls are those of the plain list, and the rings stay a picture of it |
| EventRefinement.NamesSafe | src/gevent.cpp:77-122 | in every reachable state used slots hold distinct names, live pointers lead to the names they were registered with, and pointer equality is name equality |
| EventRefinement.OnSucceedsExactly | src/gevent.cpp:56-74 | in every reachable state a registration succeeds iff the name has at most 15 characters, is registered or addable, and fewer listeners are live than the ring holds |
| EventRefinement.FirstName | include/gevent.h:20 | a new emitter with room accepts exactly the names of up to 15 characters, those that a slot of 16 bytes holds |
| OnceOnly.TaggedCommutes | src/gevent.cpp:29-52 | what off and emit do to one registration does not depend on the others |
| OnceOnly.DataIsOpaque | src/gevent.cpp:17-75 | two runs that differ only in the data passed in have the same return values and the same calls up to that data |
| OnceOnly.CalledExactly | src/gevent.cpp:17-75 | over every run, whatever data is passed: a step calls the registration made at an earlier step, once, iff that was granted, the step emits its name, and neither an off nor, for a once registration, an emit of the name came in between |
| OnceOnly.CallOrigin | src/gevent.cpp:45-52 | every call in a run belongs to one earlier granted registration and passes on its name, listener, data and once flag |
| OnceOnly.OnceExactly | src/gevent.cpp:45-52 | over every run, whatever data is passed, a step calls a once registration iff it is the first emit of its name after a successful registration with no off in between |
| OnceOnly.OnceAtMost | src/gevent.cpp:45-52 | over every run, a once registration is called by at most one step, and there at most once |
| EventEmitters.RotateOut | src/gevent.cpp:24-34 | the rotation keeps exactly the non-matching blocks in order at a head shifted by the old length, and counts the other users |
| EventEmitters.TrimHead | src/gevent.cpp:126-131 | the head trim drops tombstones only and stops at a live block |
| EventEmitters.TrimTail | src/gevent.cpp:133-138 | the tail trim drops exactly the tombstones at the end; with pop as written it stays among the slots iff the tail stands at least as many slots past begin |
| EventEmitters.TrimInside | src/gevent.cpp:140-147 | the in-place rotation is the filter on live blocks |
| EventEmitters.Squeeze | src/gevent.cpp:124-148 | compaction is the filter on live blocks, wherever the ring starts; as written it is so iff the blocks to pop at the end are no more than the slots the tail stands past begin |
| EventEmitters.AddBlock | src/gevent.cpp:70-74 | a block is appended unless the ring is full of live blocks; a full ring is compacted first |
| EventEmitters.EventEmitter.constructor | include/gevent.h:43-44 | for all 32-bit ring sizes, the new object is an emitter iff both rings fit; then it has no names and no listeners |
| EventEmitters.EventEmitter.FindEventName | src/gevent.cpp:77-85 | the pointer of the first slot that holds the name, or null |
| EventEmitters.EventEmitter.RegisterEventName | src/gevent.cpp:87-109 | the slot found, reused or added, and its effect on the names |
| EventEmitters.EventEmitter.UnregisterEventName | src/gevent.cpp:111-122 | the first slot with the same name is blanked |
| EventEmitters.EventEmitter.FireAll | src/gevent.cpp:45-52 | the walk in place: calls with names read through the pointers, tombstones for once blocks |
| EventEmitters.EventEmitter.Off | src/gevent.cpp:17-37 | off on the object is off on the rings, with the head shifted by the old length |
| EventEmitters.EventEmitter.Emit | src/gevent.cpp:39-54 | emit on the object is emit on the rings and moves no offset |
| EventEmitters.EventEmitter.AddRegistration | src/gevent.cpp:56-75 | _on with either pop: safe iff its compaction is, and then the effect on the rings and the new head |
| EventEmitters.EventEmitter.On | src/gevent.cpp:56-75 | on and once with the pop of the code: no access leaves the slots iff the compaction, if there is one, is safe; then the result and the rings are those of the model |
| EmitterRuns.FirstOn | src/gevent.cpp:56-75 | the first on of a new emitter object with room succeeds iff the name has at most 15 characters |
| EmitterRuns.Replay | src/gevent.cpp:17-148 | any sequence of calls on a new emitter object returns and calls exactly what the plain list does, if no name is empty |
| EmitterRuns.ReplayWritten | src/gevent.cpp:17-148 | the emitter as written stays within its slots over a whole run iff every compaction of the run is safe, which follows from the calls alone, and then it behaves as the plain list |
| EmitterRuns.WrittenRunFails | src/gevent.cpp:133-138 | a concrete run of six calls that is not safe |
| QueueMTs.WriterSteps | include/gque.h:143-146 | each step of a writer inside the lock, with an item or with a null pointer, keeps the link between ring and history |
| QueueMTs.ReaderAnswers | include/gque.h:155-161 | an accessor computed from head and tail answers what the sequential queue would |
| QueueMTs.StepKeeps | include/gque.h:143-161 | every step of every thread keeps the invariant |
| QueueMTs.Linearizable | include/gque.h:143-161 | over every interleaving, the calls in lock order are a run of the sequential bounded queue with its answers, and with no writer inside the ring holds its contents |
| QueueMTs.SequentialIsFifo | include/gque.h:143-146 | in a sequential run, the contents are the items put without as many of the first as have been taken |
| QueueMTs.Fifo | include/gque.h:143-146 | over every interleaving, a successful get or pop after m others takes the item of the put number m (counted from 0) and copies it out unless its place is null; with no writer inside, all items put and not taken are stored in order |
| QueueMTs.NullPut | include/gque.h:143 | over every interleaving, a put of the null pointer appends again the item put one round of the ring before, or what the slot held at first |
| QueueMTs.AnswersAreTrue | include/gque.h:157-161 | with the items put minus the items taken by the calls that released the lock before, a reported length is that number, available is the capacity without it, is_empty is 1 iff it is 0, is_full is 1 iff it is the capacity |
| QueueMTs.CallsAreLogged | include/gque.h:143-161 | over every interleaving, the calls let in are the calls logged and those still inside, with their kind and arguments: for each thread in its order, and for the writers in lock order |
| QueueMTs.PutAlone | include/gque.h:143 | a put of an item, alone with the lock, logs that put and appends the item, or fails and appends nothing, iff there is room or not |
| QueueMTs.GetAlone | include/gque.h:144-146 | a get or pop alone with the lock takes the head iff there is one, and copies it out iff it has a place for it |
| QueueMTs.ReadAlone | include/gque.h:157-161 | an accessor without a writer inside answers from the number of stored items and changes nothing |
| QueueMTs.CallsFinish | include/gthread.h:189-207 | a call that holds the lock always has a step, and each step brings it nearer to releasing |
| Linkables.Linkable.Detach | include/glist.h:29 | the remembered neighbours are linked to each other, nothing else changes |
| Linkables.Turned | src/glist.cpp:12-19 | a ring can be read from any of its nodes |
| Linkables.Linkable.Append | src/glist.cpp:12-19 | from this ring, another ring or alone, the node ends just before the receiver and every other order is kept; a node with stale links does so iff they fit, and leaves any third ring a ring iff it is alone, its neighbours are elsewhere, or they still link to each other |
| Linkables.Linkable.AppendLoose | src/glist.cpp:12-19 | append on a receiver that is in no ring: the two nodes form a ring iff the receiver is its own previous node by then, and the other rings survive iff the one that is its previous node is not in them |
| Linkables.Linkable.Destroy | include/glist.h:23 | the destructor's detach takes a node out of its ring; any ring the node is not in survives iff neither remembered neighbour is in it or the two still link to each other |
| Lists.List.constructor | include/glist.h:44 | a new list is empty |
| Lists.List.Steps | include/glist.h:52-63 | next_of and prev_of step through the items from and to null, first and last are their ends |
| Lists.List.EmptySteps | include/glist.h:52-65 | is_empty holds iff there are no items; then every accessor yields null |
| Lists.List.Append | include/glist.h:47 | the node becomes the last item, removed from its old place; with stale links iff they fit, and a third ring survives iff the node spares it |
| Lists.AppendStale | include/glist.h:47-50 | appending a node that is in neither of two lists: exactly when the one is a list with it, and exactly when the other stays a list |
| Lists.MoveItem | include/glist.h:47 | appending an item of one list to another: both stay lists, the one with it at the end, the other without it |
| Lists.List.Remove | include/glist.h:50 | exactly the item goes, and its own links stay |
| Lists.List.Length | src/glist.cpp:21-30 | the loop ends and counts the items |
| Lists.Forward | include/glist.h:55-58 | walking by next_of from null visits the items in order |
| Lists.Backward | include/glist.h:60-63 | walking by prev_of from null visits them in reverse |
| Lists.DeleteAll | include/glist.h:23 | deleting the first item until there is none takes exactly length steps |
| Lists.RemoveAndDelete | include/glist.h:23-32 | remove followed by delete removes the item once |
| Lists.Prepend | include/glist.h:26 | the rings after prepend, for an argument in the receiver's ring or in another; they are those with the argument behind the receiver iff both were alone or already neighbours |
| Lists.PrependStale | include/glist.h:26 | prepend by a receiver in no ring: it ends before the argument iff its links fit, and a third ring survives iff it spares that one |
| Lists.PrependToStale | include/glist.h:26 | prepend with an argument in no ring: exactly when the argument comes behind the receiver, and exactly when the receiver's old ring and a third one survive |
| Tockenizers.Lossless | src/gtockenizer.cpp:16-65 | tokens with their separators rebuild the text, plus the cell at its end iff it is non-empty and does not end in a separator |
| Tockenizers.TokenCount | src/gtockenizer.cpp:16-65 | one token per separator, and one more iff the text does not end in one |
| Tockenizers.SeparatorsCounted | src/gtockenizer.cpp:20 | the separators counted are the places that hold '\0' or a character of the list |
| Tockenizers.TokensProper | src/gtockenizer.cpp:16-24 | no token text holds '\0' or a character of the separator list, and every token but the last is followed by one of them |
| Tockenizers.SplitUnique | src/gtockenizer.cpp:50-65 | a text has only one such split |
| Tockenizers.Tockenizer.FindNextToken | src/gtockenizer.cpp:16-24 | the end of the token is the first separator at or after the position, or the end of the text |
| Tockenizers.Tockenizer.SetSeparators | src/gtockenizer.cpp:41-48 | a list of 32 or more separators is refused and leaves none |
| Tockenizers.Tockenizer.Bind | src/gtockenizer.cpp:31-39 | binding starts at the head, of any text that can be read itself; a refused separator list leaves the end of the token a pointer into the text bound before |
| Tockenizers.Tockenizer.BindString | src/gtockenizer.cpp:26-29 | a C string is bound with its terminator as the cell at the end |
| Tockenizers.Tockenizer.GetNext | src/gtockenizer.cpp:50-65 | the next token and its length; its separator if asked for, which alone needs the cell behind the token; the buffer holds it with a terminator; a refused call changes nothing |
| Tockenizers.Tockenizer.Rewind | src/gtockenizer.cpp:67-71 | the tokens start again from the head |
| Tockenizers.Tockenizer.ReadAll | include/gtockenizer.h:37 | the client loop ends and sees exactly the tokens |
| Tockenizers.Tockenizer.ReadTexts | include/gtockenizer.h:37 | the client loop without separators ends and sees exactly the texts of the tokens, with no cell behind the text |
| Tockenizers.SplitTwice | src/gtockenizer.cpp:26-71 | bind, read, rewind and read again give the same tokens: no text holds a separator, each but the last is ended by one, there are as many as separators and one more iff the string ends without, they rebuild the string and are its only split |
| Hex.DigitsAreTheAlphabet | src/util/gutil.cpp:23-40 | digits are the base-16 alphabet of RFC 4648, section 8, read back in either case; any other character counts as 0 |
| Hex.HexDigits | src/util/gutil.cpp:32-40 | the characters 0 to 9, A to F and a to f have their values, and every other character 0 |
| Hex.EncodeAt | src/util/gutil.cpp:23-29 | digits 2i and 2i+1 are the high and low nibble of byte i |
| Hex.DecodeEncode | src/util/gutil.cpp:43-61 | decoding the encoded bytes gives the bytes |
| Hex.EncodeDecode | src/util/gutil.cpp:43-61 | encoding a decoded hex string gives it in upper case, with '0' appended when its length is odd |
| Hex.HexStr2Byte | src/util/gutil.cpp:53-61 | the loop over memory, one output byte at a time, for any overlap |
| Hex.DecodedIsDecode | src/util/gutil.cpp:53-61 | in place, or onto a lower or separate address, memory receives the decoded source and nothing else changes |
| Hex.DecodedExact | src/util/gutil.cpp:53-61 | decoding is right for every memory iff the destination does not start inside the source after its head |
| Hex.Byte2HexStr | src/util/gutil.cpp:43-50 | the loop over memory, one source byte at a time, for any overlap; from safe places memory receives the encoded source and nothing else changes |
| Hex.EncodedIsEncode | src/util/gutil.cpp:43-50 | if no digit falls on a byte still to be read, memory receives the encoded source and nothing else changes |
| Hex.EncodedExact | src/util/gutil.cpp:43-50 | encoding is right for every memory iff no digit falls on a byte still to be read |
| Hex.RoundTrip | src/util/gutil.cpp:43-61 | encoding bytes and decoding the digits in place gives the bytes back |

## Left out

- Sockets, threads, semaphores, memory-mapped files, timers and debug output: thin wrappers over system calls.
- EmitterRuns.Replay: compacts with a pop that wraps; `EmitterRuns.ReplayWritten` states the same for the pop of the code, with the exact condition.
- EmitterRuns.ReplayWritten: for ring sizes that fit 32 bits; what a queue laid out with wrapped sums does is not followed further. The same holds for `QueueMTs.Linearizable`.
- CircularQueues.CircularQueue.Push: what a copy outside the slots overwrites, and what calls after it do, is not modelled, only that head or tail has left the slots; the same holds for `CircularQueues.CircularQueue.Pop`.
- EventEmitters.EventEmitter.FireOne: listeners do not call back into the emitter (they would block on its lock) and do not change the event they are given.
- The item copies of the queue are copies of typed values; bytes inside an item, and a copy torn by a thread that ignores the lock, are not modelled.
- `QueueMT::push`, `QueueMT::init` and `QueueMT::clear`: push is not a first-in-first-out operation, the other two do not type-check when instantiated.
- Re-`init` of a queue that already has a block, allocation failure and the C++ iterators.
- `List::prepend` on a list with items: it moves the sentinel out of the ring, as `Lists.Prepend` shows for the ring itself; appending a node to itself.
- `set_separators` in the middle of a scan: it does not recompute the end of the current token.
- Names are sequences without terminator; a C string's length limit of 2^32 in `bind` and `length` counters beyond 2^32 items are not modelled.
