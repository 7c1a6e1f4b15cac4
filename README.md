# Verified model of the CookieJar containers

This project models three in-memory containers from the CookieJar toolbox
in Dafny, and proves what each of them promises.

- **Queue** (`queue.dfy`): a FIFO queue stored in a circular list of
  fixed-size blocks.
  - A head cursor `(headIdx, headOff)` names the next value to pop. A tail
    cursor `(tailIdx, tailOff)` names the next free slot.
  - Push writes at the tail and advances it. When the tail wraps onto the
    head's block, a new empty block is inserted at that index and the head
    index moves up by one. Only block references move; no value moves.
  - The class `Queue.Queue` keeps the Go fields: the four cursors and a
    sequence of block arrays. Its ghost `Contents` is tied to the arrays by
    the pure function `Window`, which reads the slots from the head cursor
    to the tail cursor.
  - Push and Pop are proved against value-level step functions
    (`PushState`, `PopState`). The lemmas about those functions carry the
    FIFO and growth properties.
  - Front, Empty and Size are proved against `Contents` through the queue
    invariant and the lemmas `PopInv`, `EmptyIff` and `SizeFormula`. New
    and Reset are proved to build the state `Init`.
- **Bag** (`bag.dfy`): a counted multiset. It is a map from each present
  value to its count, plus a separate `size` counter.
  - The invariant: every stored count is at least 1, and `size` is the sum
    of the counts.
  - A ghost multiset `Contents` states what Insert, Remove, Count, Size and
    Do mean.
- **Tape** (`tape.dfy`): a Brainfuck-style tape of byte cells with a cursor.
  - The buffer doubles at the right or the left end when the cursor runs
    off it.
  - A ghost `origin` places the buffer on an unbounded logical tape
    (`View`). Every move and every growth leaves that logical tape
    unchanged.
  - The bracket scans are specified by pure functions. `MatchLeft` is tied
    to a bracket-balance characterisation (`Between`).
- `options.dfy` holds the `Option` type both the queue and the tape use.

## Model

| member | source | states |
|---|---|---|
| Queue.WindowLength | collections/queue/queue.go:105-111 | the number of slots between the cursors is whole blocks from head index to tail index, less the head offset, plus the tail offset |
| Queue.WindowAppend | collections/queue/queue.go:51-52 | writing a value into the tail slot and stepping the tail offset appends exactly that value to the window |
| Queue.WindowTailWrap | collections/queue/queue.go:53-55 | a tail at the end of its block denotes the same contents as the start of the next block, provided that block is not the head's |
| Queue.WindowPop | collections/queue/queue.go:76-77 | on a non-empty window the head slot holds the first value; clearing it and stepping the head offset drops exactly that value |
| Queue.WindowShift | collections/queue/queue.go:59-64 | inserting a block outside the walk from head to tail, with both indices lifted past it, leaves the window unchanged |
| Queue.WindowGrow | collections/queue/queue.go:58-66 | inserting a block at the head's index when the full tail block precedes it, and bumping the head index, keeps the contents and leaves the tail at the new block's start |
| Queue.Insert | collections/queue/queue.go:59-62 | the rebuilt block list is one longer and holds the new block at the insertion index |
| Queue.InsertAt | collections/queue/queue.go:60-62 | old block `j` sits at index `j` before the insertion point and at `j + 1` from it on, so old blocks keep their relative order |
| Queue.InsertUniform | collections/queue/queue.go:61 | inserting a block of the block size keeps every block that size |
| Queue.NextIsMod | collections/queue/queue.go:55 | the circular step `(i + 1) mod n` is the successor function the model uses |
| Queue.InitInv | collections/queue/queue.go:37-44 | one empty block with all cursors at 0 satisfies the queue invariant with empty contents |
| Queue.PushInv | collections/queue/queue.go:47-69 | a push from any valid state keeps the cursor bounds and the invariant, and its contents are the old contents with the value appended |
| Queue.PushGrowth | collections/queue/queue.go:58-66 | when the tail wraps onto the head's block, the list grows by exactly one block; the new block is empty, sits at the old head index and holds the tail; the head index rises by one and still names the same block; every old block keeps its slots, shifted by one from the insertion point |
| Queue.PopInv | collections/queue/queue.go:76-82 | on a non-empty queue the head slot holds the first value, a pop clears that slot to nil, and the rest of the contents remain in order under the invariant |
| Queue.EmptyIff | collections/queue/queue.go:98 | the cursors coincide exactly when the contents are empty (both directions) |
| Queue.SizeFormula | collections/queue/queue.go:105-111 | the three-case circular size formula equals the number of queued values, so it is never negative |
| Queue.InsertBlock | collections/queue/queue.go:59-63 | a new block spliced into the list keeps the blocks pairwise distinct, and the ghost mirror of every block follows the same insertion |
| Queue.Queue.constructor | collections/queue/queue.go:37-44 | New gives one block of `blockSize` empty slots, all four cursors 0, an empty queue and a valid state |
| Queue.Queue.Push | collections/queue/queue.go:47-69 | keeps the invariant, appends the value to the contents, and leaves exactly the state `PushState` describes |
| Queue.Queue.SetSlot | collections/queue/queue.go:51 | writing one slot in place changes that slot's mirror only, because no block appears twice in the list |
| Queue.Queue.AdvanceTail | collections/queue/queue.go:52-68 | the tail moves one slot; at the block's end it goes to offset 0 of the next block; if that is the head's block, a new block is inserted and the head index rises by one |
| Queue.Queue.Grow | collections/queue/queue.go:58-66 | the block list is rebuilt with a fresh block at the tail's index and the old blocks shifted by one from there on; the head index rises by one; no value changes |
| Queue.Queue.Pop | collections/queue/queue.go:72-84 | on a non-empty queue returns the first value, removes it from the contents, clears the slot and advances the head with the same wrap rule |
| Queue.Queue.Front | collections/queue/queue.go:87-92 | on a non-empty queue returns the first value and changes nothing |
| Queue.Queue.Empty | collections/queue/queue.go:95-99 | the result is true exactly when the contents are empty |
| Queue.Queue.Size | collections/queue/queue.go:102-112 | the cursor formula returns the number of queued values |
| Queue.Queue.Reset | collections/queue/queue.go:115-119 | the queue is back in the state New builds: one empty block, cursors 0, empty contents |
| Queue.Fill | collections/queue/queue.go:47-69 | pushing a sequence into a new queue leaves exactly that sequence as the contents, across any number of growths |
| Queue.Drain | collections/queue/queue.go:72-84 | popping until Empty reports true yields the old contents in order and leaves the queue empty |
| Queue.PushAllPopAll | collections/queue/queue.go:9-13 | first in, first out: for any block size, pushing a sequence and then popping everything returns the same sequence |
| Queue.GrowthScenario | collections/queue/queue.go:53-66 | with blocks of 4 slots, pushing 10, 20, 30, 40, 50 (one growth) gives size 5, the pops return 10 to 50 in order, and the queue is then empty |
| Bag.SumRemove | collections/bag/bag.go:22-23 | the sum of the counts is any one count plus the sum of the rest, whichever key is taken |
| Bag.SumUpdate | collections/bag/bag.go:36-37 | setting one count changes the sum of the counts by the difference, so the size counter can follow it |
| Bag.CountsAdd | collections/bag/bag.go:36 | raising a value's count by one is adding that value once to the multiset |
| Bag.CountsTake | collections/bag/bag.go:44-50 | lowering a count above 1, or deleting a key whose count is 1, is removing that value once from the multiset |
| Bag.CountsSize | collections/bag/bag.go:56-60 | the multiset a count map records has as many elements as the sum of the counts |
| Bag.Bag.constructor | collections/bag/bag.go:28-30 | New gives size 0, an empty map and an empty bag |
| Bag.Bag.Insert | collections/bag/bag.go:33-38 | the value's count and the size rise by 1; no other count changes; the invariant is kept |
| Bag.Bag.Remove | collections/bag/bag.go:41-53 | for a present value, the count and the size fall by 1, and the key is deleted when its count was 1; an absent value changes nothing |
| Bag.Bag.Size | collections/bag/bag.go:56-60 | returns the number of values in the bag |
| Bag.Bag.Count | collections/bag/bag.go:63-67 | returns the value's multiplicity, which is 0 exactly when the value has no key |
| Bag.Bag.Do | collections/bag/bag.go:70-78 | the callback is applied to each value exactly as many times as it is in the bag: the multiset of call arguments is the bag, and there are `size` calls |
| Bag.Bag.Reset | collections/bag/bag.go:81-85 | the bag is back in the state New builds |
| Tape.PadLeft | collections/tape/tape.go:47-53 | zero cells added below the buffer, with the origin moved down as far, leave the logical tape unchanged |
| Tape.PadRight | collections/tape/tape.go:32-37 | zero cells added above the buffer leave the logical tape unchanged |
| Tape.Succ | collections/tape/tape.go:111 | a byte increment is +1 modulo 256 |
| Tape.Pred | collections/tape/tape.go:119 | a byte decrement is -1 modulo 256 |
| Tape.MatchLeft | collections/tape/tape.go:66-80 | the left scan that counts `]` up and `[` down stops, if at all, on a `[` below the start |
| Tape.MatchLeftFound | collections/tape/tape.go:68-80 | where the scan stops, the cells between balance the brackets, the depth never drops below zero, and no nearer `[` is reached at depth zero |
| Tape.MatchLeftNotFound | collections/tape/tape.go:68-80 | when the scan finds nothing, the depth never drops below zero and every `[` is reached at a positive depth |
| Tape.FindClose | collections/tape/tape.go:84-88 | the right scan finds the first `]` at or after the start, and none exists when it finds nothing |
| Tape.Tape.constructor | collections/tape/tape.go:17-25 | New gives 32 zero cells, cursor 0 and no operations counted |
| Tape.Tape.Right | collections/tape/tape.go:27-40 | the cursor moves one cell right; on the last cell the buffer first doubles, with old cells at the same indices and a zero upper half; the operation count does not change; the logical tape is unchanged |
| Tape.Tape.Left | collections/tape/tape.go:42-56 | the cursor moves one logical cell left and the operation count rises by 1; on cell 0 the buffer first doubles, with the old cells moved to the upper half, a zero lower half and the cursor at old size - 1; the logical tape is unchanged |
| Tape.Tape.GrowLeft | collections/tape/tape.go:47-53 | the left growth doubles the size, puts the old cells in the upper half and zeros below, and keeps both the cursor's logical position and the logical tape |
| Tape.Tape.Sync | collections/tape/tape.go:59-64 | the cursor is set to the given index and nothing else changes |
| Tape.Tape.SyncToOpening | collections/tape/tape.go:66-82 | the cursor ends one cell left of the matching `[` found by `MatchLeft`: at buffer index `j - 1` with the buffer unchanged when the match `j` is above 0, and, when the match is cell 0, at index old size - 1 of a buffer doubled to the left; each step counts two operations and the final step one more; the logical tape is unchanged |
| Tape.Tape.SyncToClosing | collections/tape/tape.go:84-88 | the cursor ends on the first `]` at or after where it started, with no `]` passed on the way; there is one counted read per cell visited |
| Tape.Tape.Read | collections/tape/tape.go:90-96 | returns the logical cell under the cursor and counts one operation |
| Tape.Tape.Write | collections/tape/tape.go:98-104 | only the cell under the cursor changes, to the given byte; one operation is counted |
| Tape.Tape.Inc | collections/tape/tape.go:106-112 | only the cell under the cursor changes, by +1 modulo 256; one operation is counted |
| Tape.Tape.Dec | collections/tape/tape.go:114-120 | only the cell under the cursor changes, by -1 modulo 256; one operation is counted |
| Tape.Tape.GetIndex | collections/tape/tape.go:122-127 | returns the cursor's buffer index, which is in bounds and maps to the cursor's logical position |

## Left out

- Locking: every `sync.Mutex` and deferred unlock in the three files is left out. Each method is one atomic sequential step.
- Queue.Queue.Pop: requires a non-empty queue. On an empty queue the Go code reads the nil head slot and moves the head cursor past the tail, corrupting the queue.
- Queue.Queue.Front: requires a non-empty queue. On an empty queue the Go code returns the nil head slot.
- Empty-queue error: Go's Pop and Front have no empty-queue error; on an empty queue they read the nil head slot. The model makes non-emptiness a precondition.
- The `head` and `tail` slice aliases of the queue are not kept. The model reads `blocks[headIdx]` and `blocks[tailIdx]` directly.
- The queue's block size of 4096 is a constructor parameter, so that small blocks can be reasoned about.
- `interface{}` values become a type parameter. Go's runtime panic on an unhashable bag key is not modelled.
- Integer widths: the queue cursors, the bag's size and counts, and the tape's `size`, `index` and `totalOps` are unbounded. Overflow of `size*2` or of `totalOps` in a `uint` is not modelled.
- Tape.Tape.SyncToOpening: requires the matching `[` to lie in the current buffer. Without one, the Go loop never ends, because growth only adds zero cells.
- Tape.Tape.SyncToClosing: requires a `]` at or after the cursor in the current buffer, for the same reason.
- Tape.Tape.Sync: requires the index to be inside the buffer. The Go code does not check it, and a later access would panic.
- `GetCells` of the tape is not modelled. It returns the internal buffer by reference and states no behaviour.
- Bag.Bag.Do: the callback is represented by the sequence of values it is called with. A callback that changes the bag is not modelled.
- The bag's compile defects are not modelled: the undeclared package-level `lock`, and a `*sync.Mutex` stored in a value field.
- Allocation failure when a block or a larger buffer is allocated is not modelled.
- representation/trit/trit.go is not part of this model. It does not type-check.
