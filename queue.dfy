/**
  A FIFO queue stored in a circular list of fixed-size blocks
  (collections/queue/queue.go).

  The queue keeps a head cursor (headIdx, headOff), naming the next element
  to pop, and a tail cursor (tailIdx, tailOff), naming the next free slot.
  Both cursors walk the blocks circularly. When the tail wraps around onto
  the head's block, a fresh block is inserted at that index, so that the
  elements never move: only block references are shifted.

  The first half of this module is a value-level description of what a
  cursor pair denotes (the `Window` of slots between them); the class
  `Queue` at the end is the in-place structure, whose invariant ties its
  arrays and cursors to a ghost sequence of contents through `Window`.
*/
module Queue {

  import opened Options

  /** The successor of block index `i` in a circle of `n` blocks. */
  function Next(i: nat, n: nat): (r: nat)
    requires i < n
    ensures r < n
  {
    if i + 1 == n then 0 else i + 1
  }

  /** How many steps of `Next` lead from block `a` to block `b`. */
  function Dist(a: nat, b: nat, n: nat): (r: nat)
    requires a < n && b < n
    ensures r < n
  {
    if a <= b then b - a else n - a + b
  }

  /** The cursor pair (hi, ho)..(ti, to) is meaningful on `bs`. Offsets may
      equal the block length: that is the transient position a cursor takes
      before it wraps to the next block. */
  ghost predicate CursorsOn<E>(bs: seq<seq<E>>, hi: nat, ho: nat, ti: nat, to: nat)
  {
    hi < |bs| && ti < |bs| && ho <= |bs[hi]| && to <= |bs[ti]| &&
    (hi == ti ==> ho <= to)
  }

  /** All blocks have the same size `b`. */
  ghost predicate Uniform<E>(bs: seq<seq<E>>, b: nat)
  {
    forall i :: 0 <= i < |bs| ==> |bs[i]| == b
  }

  /** The slots from the head cursor (inclusive) to the tail cursor
      (exclusive), walking the blocks circularly from the head's block. */
  function Window<E>(bs: seq<seq<E>>, hi: nat, ho: nat, ti: nat, to: nat): seq<E>
    requires CursorsOn(bs, hi, ho, ti, to)
    decreases Dist(hi, ti, |bs|)
  {
    if hi == ti then bs[hi][ho..to]
    else bs[hi][ho..] + Window(bs, Next(hi, |bs|), 0, ti, to)
  }

  /** The number of slots between the cursors: whole blocks between their
      indices, less the head offset, plus the tail offset. */
  lemma {:induction false} WindowLength<E>(bs: seq<seq<E>>, b: nat, hi: nat, ho: nat, ti: nat, to: nat)
    requires CursorsOn(bs, hi, ho, ti, to) && Uniform(bs, b)
    ensures |Window(bs, hi, ho, ti, to)| == Dist(hi, ti, |bs|) * b - ho + to
    decreases Dist(hi, ti, |bs|)
  {
    if hi != ti {
      var d := Dist(hi, ti, |bs|);
      WindowLength(bs, b, Next(hi, |bs|), 0, ti, to);
      assert Dist(Next(hi, |bs|), ti, |bs|) == d - 1;
      assert (d - 1) * b + b == d * b;
    }
  }

  /** Writing `x` into the tail slot and moving the tail offset one step
      appends `x` to the window. */
  lemma {:induction false} WindowAppend<E>(bs: seq<seq<E>>, hi: nat, ho: nat, ti: nat, to: nat, x: E)
    requires CursorsOn(bs, hi, ho, ti, to) && to < |bs[ti]|
    ensures CursorsOn(bs[ti := bs[ti][to := x]], hi, ho, ti, to + 1)
    ensures Window(bs[ti := bs[ti][to := x]], hi, ho, ti, to + 1) == Window(bs, hi, ho, ti, to) + [x]
    decreases Dist(hi, ti, |bs|)
  {
    var bs' := bs[ti := bs[ti][to := x]];
    if hi == ti {
      assert bs'[hi][ho..to + 1] == bs[hi][ho..to] + [x];
    } else {
      WindowAppend(bs, Next(hi, |bs|), 0, ti, to, x);
    }
  }

  /** A tail cursor at the end of its block denotes the same window as the
      start of the next block, unless that next block is the head's. */
  lemma {:induction false} WindowTailWrap<E>(bs: seq<seq<E>>, hi: nat, ho: nat, ti: nat)
    requires ti < |bs| && CursorsOn(bs, hi, ho, ti, |bs[ti]|) && Next(ti, |bs|) != hi
    ensures CursorsOn(bs, hi, ho, Next(ti, |bs|), 0)
    ensures Window(bs, hi, ho, ti, |bs[ti]|) == Window(bs, hi, ho, Next(ti, |bs|), 0)
    decreases Dist(hi, ti, |bs|)
  {
    var n := |bs|;
    if hi == ti {
      assert Window(bs, Next(hi, n), 0, Next(ti, n), 0) == [];
    } else {
      WindowTailWrap(bs, Next(hi, n), 0, ti);
    }
  }

  /** Changing a block the walk from `a` to `b` never visits leaves the
      window unchanged. */
  lemma {:induction false} WindowFrame<E>(bs: seq<seq<E>>, g: nat, v: seq<E>, a: nat, ho: nat, b: nat, to: nat)
    requires CursorsOn(bs, a, ho, b, to) && g < |bs|
    requires Dist(a, g, |bs|) > Dist(a, b, |bs|)
    ensures CursorsOn(bs[g := v], a, ho, b, to)
    ensures Window(bs[g := v], a, ho, b, to) == Window(bs, a, ho, b, to)
    decreases Dist(a, b, |bs|)
  {
    if a != b {
      WindowFrame(bs, g, v, Next(a, |bs|), 0, b, to);
    }
  }

  /** Reading the head slot of a non-empty window yields its first element;
      clearing that slot and moving the head offset one step drops it. */
  lemma WindowPop<E>(bs: seq<seq<E>>, hi: nat, ho: nat, ti: nat, to: nat, blank: E)
    requires CursorsOn(bs, hi, ho, ti, to) && ho < |bs[hi]| && !(hi == ti && ho == to)
    ensures Window(bs, hi, ho, ti, to) != []
    ensures Window(bs, hi, ho, ti, to)[0] == bs[hi][ho]
    ensures CursorsOn(bs[hi := bs[hi][ho := blank]], hi, ho + 1, ti, to)
    ensures Window(bs[hi := bs[hi][ho := blank]], hi, ho + 1, ti, to) == Window(bs, hi, ho, ti, to)[1..]
  {
    var n := |bs|;
    var bs' := bs[hi := bs[hi][ho := blank]];
    var w := Window(bs, hi, ho, ti, to);
    if hi == ti {
      assert w == bs[hi][ho..to];
      assert bs'[hi][ho + 1..to] == w[1..];
    } else {
      var rest := Window(bs, Next(hi, n), 0, ti, to);
      assert w == bs[hi][ho..] + rest;
      WindowFrame(bs, hi, bs'[hi], Next(hi, n), 0, ti, to);
      assert Window(bs', hi, ho + 1, ti, to) == bs'[hi][ho + 1..] + rest;
      assert bs'[hi][ho + 1..] == bs[hi][ho..][1..];
    }
  }

  /** Position of old block `j` once a block has been inserted at index `g`. */
  function Lift(j: nat, g: nat): nat
  {
    if j < g then j else j + 1
  }

  /** The block list with `e` inserted at index `g`; blocks from `g` on move
      up by one. */
  function Insert<E>(bs: seq<seq<E>>, g: nat, e: seq<E>): (r: seq<seq<E>>)
    requires g <= |bs|
    ensures |r| == |bs| + 1 && r[g] == e
  {
    bs[..g] + [e] + bs[g..]
  }

  lemma InsertAt<E>(bs: seq<seq<E>>, g: nat, e: seq<E>, j: nat)
    requires g <= |bs| && j < |bs|
    ensures Insert(bs, g, e)[Lift(j, g)] == bs[j]
  {
  }

  /** Inserting a block at `g` does not change a window whose walk does not
      step into block `g` (it may start there). */
  lemma {:induction false} WindowShift<E>(bs: seq<seq<E>>, g: nat, e: seq<E>, a: nat, ho: nat, b: nat, to: nat)
    requires CursorsOn(bs, a, ho, b, to) && g < |bs|
    requires Dist(a, g, |bs|) == 0 || Dist(a, g, |bs|) > Dist(a, b, |bs|)
    ensures CursorsOn(Insert(bs, g, e), Lift(a, g), ho, Lift(b, g), to)
    ensures Window(Insert(bs, g, e), Lift(a, g), ho, Lift(b, g), to) == Window(bs, a, ho, b, to)
    decreases Dist(a, b, |bs|)
  {
    var n := |bs|;
    var bs2 := Insert(bs, g, e);
    InsertAt(bs, g, e, a);
    InsertAt(bs, g, e, b);
    if a != b {
      var a' := Next(a, n);
      assert Next(Lift(a, g), n + 1) == Lift(a', g);
      WindowShift(bs, g, e, a', 0, b, to);
    }
  }

  /** The growth step. Once the tail has filled the block just before the
      head's block, inserting an empty block at the head's index and moving
      the head index up by one leaves the queue's window unchanged, with the
      tail at the start of the new block. */
  lemma WindowGrow<E>(bs: seq<seq<E>>, hi: nat, ho: nat, ti: nat, e: seq<E>)
    requires ti < |bs| && CursorsOn(bs, hi, ho, ti, |bs[ti]|) && Next(ti, |bs|) == hi
    ensures CursorsOn(Insert(bs, hi, e), hi + 1, ho, hi, 0)
    ensures Window(Insert(bs, hi, e), hi + 1, ho, hi, 0) == Window(bs, hi, ho, ti, |bs[ti]|)
  {
    var bs2 := Insert(bs, hi, e);
    var ti2 := Lift(ti, hi);
    InsertAt(bs, hi, e, ti);
    InsertAt(bs, hi, e, hi);
    assert Next(ti2, |bs2|) == hi;
    WindowShift(bs, hi, e, hi, ho, ti, |bs[ti]|);
    WindowTailWrap(bs2, hi + 1, ho, ti2);
  }

  /** The values of a sequence, each wrapped as an occupied slot. */
  function Somes<T>(s: seq<T>): seq<Option<T>>
  {
    seq(|s|, i requires 0 <= i < |s| => Some(s[i]))
  }

  lemma NextIsMod(i: nat, n: nat)
    requires i < n
    ensures (i + 1) % n == Next(i, n)
  {
  }

  /** A block size: at least one slot. */
  type Positive = n: nat | 0 < n witness 1

  /** A queue's state as values: the slots of every block and both cursors. */
  datatype State<T> = State(slots: seq<seq<Option<T>>>, headIdx: nat, headOff: nat, tailIdx: nat, tailOff: nat)

  /** A block with every slot empty. */
  function EmptyBlock<T>(b: nat): seq<Option<T>>
  {
    seq(b, _ => None)
  }

  /** The cursor-bound invariant: at least one block, all blocks of size `b`,
      both cursors inside the blocks, and when both cursors are in the same
      block the head is not past the tail. */
  ghost predicate InBounds<T>(st: State<T>, b: nat)
  {
    0 < b && 0 < |st.slots| && Uniform(st.slots, b) &&
    st.headIdx < |st.slots| && st.tailIdx < |st.slots| &&
    st.headOff < b && st.tailOff < b &&
    (st.headIdx == st.tailIdx ==> st.headOff <= st.tailOff)
  }

  /** The queue invariant: the cursors are in bounds and the slots from the
      head to the tail hold the queued values `q`, oldest first. */
  ghost predicate Inv<T>(st: State<T>, b: nat, q: seq<T>)
  {
    InBounds(st, b) &&
    Window(st.slots, st.headIdx, st.headOff, st.tailIdx, st.tailOff) == Somes(q)
  }

  /** The state New() builds: one empty block, every cursor at 0. */
  function Init<T>(b: nat): State<T>
  {
    State([EmptyBlock(b)], 0, 0, 0, 0)
  }

  lemma InitInv<T>(b: nat)
    requires 0 < b
    ensures Inv(Init<T>(b), b, [])
  {
  }

  /** Whether a push from `st` wraps the tail onto the head's block. */
  predicate Grows<T>(st: State<T>, b: nat)
    requires InBounds(st, b)
  {
    st.tailOff + 1 == b && Next(st.tailIdx, |st.slots|) == st.headIdx
  }

  /** Push on values: write `x` at the tail, advance the tail, and if it
      wraps onto the head's block insert the block `e` at that index and move
      the head index up by one. */
  function PushState<T>(st: State<T>, b: nat, x: T, e: seq<Option<T>>): State<T>
    requires InBounds(st, b)
  {
    var s1 := st.slots[st.tailIdx := st.slots[st.tailIdx][st.tailOff := Some(x)]];
    if st.tailOff + 1 < b then st.(slots := s1, tailOff := st.tailOff + 1)
    else if !Grows(st, b) then st.(slots := s1, tailIdx := Next(st.tailIdx, |s1|), tailOff := 0)
    else State(Insert(s1, st.headIdx, e), st.headIdx + 1, st.headOff, st.headIdx, 0)
  }

  /** Pop on values: clear the head slot and advance the head. */
  function PopState<T>(st: State<T>, b: nat): State<T>
    requires InBounds(st, b)
  {
    var s1 := st.slots[st.headIdx := st.slots[st.headIdx][st.headOff := None]];
    if st.headOff + 1 < b then st.(slots := s1, headOff := st.headOff + 1)
    else st.(slots := s1, headIdx := Next(st.headIdx, |s1|), headOff := 0)
  }

  /** Push keeps the invariant and appends `x` to the queued values. */
  lemma PushInv<T>(st: State<T>, b: nat, q: seq<T>, x: T, e: seq<Option<T>>)
    requires Inv(st, b, q) && |e| == b
    ensures Inv(PushState(st, b, x, e), b, q + [x])
  {
    var s := st.slots;
    var hi, ho, ti, to := st.headIdx, st.headOff, st.tailIdx, st.tailOff;
    var s1 := s[ti := s[ti][to := Some(x)]];
    WindowAppend(s, hi, ho, ti, to, Some(x));
    assert Somes(q) + [Some(x)] == Somes(q + [x]);
    if to + 1 == b {
      if Next(ti, |s|) != hi {
        WindowTailWrap(s1, hi, ho, ti);
      } else {
        WindowGrow(s1, hi, ho, ti, e);
        InsertUniform(s1, b, hi, e);
      }
    }
  }

  /** Inserting a block of the common size keeps every block that size. */
  lemma InsertUniform<E>(bs: seq<seq<E>>, b: nat, g: nat, e: seq<E>)
    requires Uniform(bs, b) && g <= |bs| && |e| == b
    ensures Uniform(Insert(bs, g, e), b)
  {
    var bs2 := Insert(bs, g, e);
    forall k | 0 <= k < |bs2| ensures |bs2[k]| == b {
      if k < g { InsertAt(bs, g, e, k); }
      else if k > g { InsertAt(bs, g, e, k - 1); }
    }
  }

  /** Growth adds exactly one block, the inserted one, at the tail's new
      index; every old block keeps its place relative to the others, and the
      head index still names the block it named before. */
  lemma PushGrowth<T>(st: State<T>, b: nat, x: T, e: seq<Option<T>>, j: nat)
    requires InBounds(st, b) && Grows(st, b) && j < |st.slots|
    ensures var st' := PushState(st, b, x, e);
      |st'.slots| == |st.slots| + 1 &&
      st'.tailIdx == st.headIdx && st'.tailOff == 0 && st'.slots[st'.tailIdx] == e &&
      st'.headIdx == st.headIdx + 1 && st'.headOff == st.headOff &&
      st'.slots[Lift(j, st.headIdx)] ==
        (if j == st.tailIdx then st.slots[j][st.tailOff := Some(x)] else st.slots[j])
  {
    var s1 := st.slots[st.tailIdx := st.slots[st.tailIdx][st.tailOff := Some(x)]];
    InsertAt(s1, st.headIdx, e, j);
  }

  /** On a non-empty queue the head slot holds the first value; pop keeps
      the invariant and drops that value. */
  lemma PopInv<T>(st: State<T>, b: nat, q: seq<T>)
    requires Inv(st, b, q) && q != []
    ensures st.slots[st.headIdx][st.headOff] == Some(q[0])
    ensures PopState(st, b).slots[st.headIdx][st.headOff] == None
    ensures Inv(PopState(st, b), b, q[1..])
  {
    var s := st.slots;
    var hi, ho, ti, to := st.headIdx, st.headOff, st.tailIdx, st.tailOff;
    var s1 := s[hi := s[hi][ho := None]];
    assert Somes(q)[0] == Some(q[0]);
    assert Somes(q)[1..] == Somes(q[1..]);
    WindowPop(s, hi, ho, ti, to, None);
    if ho + 1 == b {
      assert Window(s1, hi, ho + 1, ti, to) == Window(s1, Next(hi, |s|), 0, ti, to);
    }
  }

  /** The head and tail coincide exactly when the queue is empty. */
  lemma EmptyIff<T>(st: State<T>, b: nat, q: seq<T>)
    requires Inv(st, b, q)
    ensures (st.headIdx == st.tailIdx && st.headOff == st.tailOff) <==> q == []
  {
    WindowLength(st.slots, b, st.headIdx, st.headOff, st.tailIdx, st.tailOff);
    if st.headIdx != st.tailIdx {
      var d := Dist(st.headIdx, st.tailIdx, |st.slots|);
      assert d * b >= b;
    }
  }

  /** The source's three-case size formula counts the queued values; in
      particular it is never negative. */
  lemma SizeFormula<T>(st: State<T>, b: nat, q: seq<T>)
    requires Inv(st, b, q)
    ensures |q| == if st.tailIdx > st.headIdx then (st.tailIdx - st.headIdx) * b - st.headOff + st.tailOff
                   else if st.tailIdx < st.headIdx then (|st.slots| - st.headIdx + st.tailIdx) * b - st.headOff + st.tailOff
                   else st.tailOff - st.headOff
  {
    WindowLength(st.slots, b, st.headIdx, st.headOff, st.tailIdx, st.tailOff);
  }

  /** No block appears twice in the list. */
  ghost predicate Distinct<T>(bs: seq<array<Option<T>>>)
  {
    forall i, j :: 0 <= i < j < |bs| ==> bs[i] != bs[j]
  }

  /** Every block's current slots are mirrored in `ss`. */
  ghost predicate Mirrors<T>(bs: seq<array<Option<T>>>, ss: seq<seq<Option<T>>>)
    reads bs
  {
    |bs| == |ss| && forall i :: 0 <= i < |bs| ==> bs[i][..] == ss[i]
  }

  /** Inserting a block that is not yet in the list keeps the list free of
      repeats, and the mirror follows the same insertion. */
  lemma InsertBlock<T>(bs: seq<array<Option<T>>>, ss: seq<seq<Option<T>>>, g: nat, block: array<Option<T>>)
    requires Distinct(bs) && Mirrors(bs, ss) && g <= |bs| && block !in bs
    ensures Distinct(bs[..g] + [block] + bs[g..])
    ensures Mirrors(bs[..g] + [block] + bs[g..], Insert(ss, g, block[..]))
  {
    var bs2 := bs[..g] + [block] + bs[g..];
    var ss2 := Insert(ss, g, block[..]);
    forall i | 0 <= i < |bs2| ensures bs2[i][..] == ss2[i] {
      if i > g { assert bs2[i] == bs[i - 1] && ss2[i] == ss[i - 1]; }
    }
    forall i, j | 0 <= i < j < |bs2| ensures bs2[i] != bs2[j] {
      if j > g {
        assert bs2[j] == bs[j - 1];
        if i > g { assert bs2[i] == bs[i - 1]; }
      }
    }
  }

  class Queue<T> {
    /** Slots per block; Go's queue.go fixes it at 4096. */
    const blockSize: Positive

    var tailIdx: nat
    var headIdx: nat
    var tailOff: nat
    var headOff: nat
    /** The circular list of blocks; an empty slot holds None (Go's nil). */
    var blocks: seq<array<Option<T>>>

    /** The queued values, oldest first. */
    ghost var Contents: seq<T>
    /** The current slots of every block, as values. */
    ghost var slots: seq<seq<Option<T>>>
    ghost var Repr: set<object>

    /** The queue's state as values. */
    ghost function Abs(): State<T>
      reads this
    {
      State(slots, headIdx, headOff, tailIdx, tailOff)
    }

    ghost predicate Valid()
      reads this, Repr
      ensures Valid() ==> this in Repr
    {
      this in Repr &&
      (forall a :: a in blocks ==> a in Repr) &&
      Distinct(blocks) && Mirrors(blocks, slots) &&
      Inv(Abs(), blockSize, Contents)
    }

    /** New: one empty block, every cursor at 0. */
    constructor (blockSize: Positive)
      ensures Valid() && fresh(Repr)
      ensures this.blockSize == blockSize && Contents == [] && Abs() == Init(blockSize)
      ensures |blocks| == 1
    {
      this.blockSize := blockSize;
      var block := new Option<T>[blockSize](_ => None);
      blocks := [block];
      tailIdx, headIdx, tailOff, headOff := 0, 0, 0, 0;
      Contents := [];
      slots := [block[..]];
      Repr := {this, block};
      assert block[..] == EmptyBlock(blockSize);
      InitInv<T>(blockSize);
    }

    method Push(x: T)
      requires Valid()
      modifies Repr
      ensures Valid() && fresh(Repr - old(Repr))
      ensures Contents == old(Contents) + [x]
      ensures Abs() == PushState(old(Abs()), blockSize, x, EmptyBlock(blockSize))
    {
      ghost var st := Abs();
      PushInv(st, blockSize, Contents, x, EmptyBlock(blockSize));
      Contents := Contents + [x];
      SetSlot(tailIdx, tailOff, Some(x));
      AdvanceTail();
      assert Abs() == PushState(st, blockSize, x, EmptyBlock(blockSize));
    }

    /** Moves the tail one slot on; at the end of its block it wraps to the
        start of the next block, and if that is the head's block, a new
        block goes in front of the head's. */
    method AdvanceTail()
      requires this in Repr && (forall a :: a in blocks ==> a in Repr)
      requires Distinct(blocks) && Mirrors(blocks, slots)
      requires tailIdx < |blocks| && headIdx < |blocks| && tailOff < blockSize
      modifies this
      ensures this in Repr && (forall a :: a in blocks ==> a in Repr)
      ensures Distinct(blocks) && Mirrors(blocks, slots) && fresh(Repr - old(Repr))
      ensures Contents == old(Contents) && headOff == old(headOff)
      ensures old(tailOff) + 1 < blockSize ==>
        slots == old(slots) && tailIdx == old(tailIdx) && tailOff == old(tailOff) + 1 &&
        headIdx == old(headIdx)
      ensures old(tailOff) + 1 == blockSize && Next(old(tailIdx), old(|blocks|)) != old(headIdx) ==>
        slots == old(slots) && tailIdx == Next(old(tailIdx), old(|blocks|)) && tailOff == 0 &&
        headIdx == old(headIdx)
      ensures old(tailOff) + 1 == blockSize && Next(old(tailIdx), old(|blocks|)) == old(headIdx) ==>
        slots == Insert(old(slots), old(headIdx), EmptyBlock(blockSize)) &&
        tailIdx == old(headIdx) && tailOff == 0 && headIdx == old(headIdx) + 1
    {
      tailOff := tailOff + 1;
      if tailOff == blockSize {
        tailOff := 0;
        NextIsMod(tailIdx, |blocks|);
        tailIdx := (tailIdx + 1) % |blocks|;
        // The tail caught up with the head: grow.
        if tailIdx == headIdx {
          Grow();
        }
      }
    }

    /** Writes one slot of block `i` in place, and its mirror with it;
        no other block changes, since no block appears twice. */
    method SetSlot(i: nat, off: nat, v: Option<T>)
      requires Distinct(blocks) && Mirrors(blocks, slots)
      requires i < |blocks| && off < blocks[i].Length
      modifies this`slots, blocks[i]
      ensures Mirrors(blocks, slots)
      ensures slots == old(slots)[i := old(slots)[i][off := v]]
    {
      blocks[i][off] := v;
      slots := slots[i := slots[i][off := v]];
    }

    /** The growth step of Push: a new, empty block goes in at the tail's
        index, the blocks from there on move up by one, and the head index
        moves up with them. No slot of an old block changes. */
    method Grow()
      requires this in Repr && (forall a :: a in blocks ==> a in Repr)
      requires Distinct(blocks) && Mirrors(blocks, slots) && tailIdx <= |blocks|
      modifies this
      ensures this in Repr && (forall a :: a in blocks ==> a in Repr)
      ensures Distinct(blocks) && Mirrors(blocks, slots) && fresh(Repr - old(Repr))
      ensures tailIdx == old(tailIdx) && tailOff == old(tailOff) && headOff == old(headOff)
      ensures |blocks| == old(|blocks|) + 1 && fresh(blocks[tailIdx])
      ensures blocks == old(blocks[..tailIdx]) + [blocks[tailIdx]] + old(blocks[tailIdx..])
      ensures slots == Insert(old(slots), tailIdx, EmptyBlock(blockSize))
      ensures headIdx == old(headIdx) + 1
      ensures Contents == old(Contents)
    {
      var block := new Option<T>[blockSize](_ => None);
      assert block[..] == EmptyBlock(blockSize);
      InsertBlock(blocks, slots, tailIdx, block);
      blocks := blocks[..tailIdx] + [block] + blocks[tailIdx..];
      slots := Insert(slots, tailIdx, block[..]);
      headIdx := headIdx + 1;
      Repr := Repr + {block};
    }

    method Pop() returns (x: T)
      requires Valid() && Contents != []
      modifies Repr
      ensures Valid() && Repr == old(Repr) && blocks == old(blocks)
      ensures x == old(Contents[0]) && Contents == old(Contents[1..])
      ensures Abs() == PopState(old(Abs()), blockSize)
    {
      ghost var st := Abs();
      PopInv(st, blockSize, Contents);
      x := blocks[headIdx][headOff].value;
      SetSlot(headIdx, headOff, None);
      headOff := headOff + 1;
      if headOff == blockSize {
        headOff := 0;
        NextIsMod(headIdx, |blocks|);
        headIdx := (headIdx + 1) % |blocks|;
      }
      Contents := Contents[1..];
      assert Abs() == PopState(st, blockSize);
    }

    method Front() returns (x: T)
      requires Valid() && Contents != []
      ensures x == Contents[0]
    {
      PopInv(Abs(), blockSize, Contents);
      x := blocks[headIdx][headOff].value;
    }

    method Empty() returns (r: bool)
      requires Valid()
      ensures r <==> Contents == []
    {
      EmptyIff(Abs(), blockSize, Contents);
      r := headIdx == tailIdx && headOff == tailOff;
    }

    method Size() returns (r: int)
      requires Valid()
      ensures r == |Contents|
    {
      SizeFormula(Abs(), blockSize, Contents);
      if tailIdx > headIdx {
        r := (tailIdx - headIdx) * blockSize - headOff + tailOff;
      } else if tailIdx < headIdx {
        r := (|blocks| - headIdx + tailIdx) * blockSize - headOff + tailOff;
      } else {
        r := tailOff - headOff;
      }
    }

    method Reset()
      modifies this
      ensures Valid() && fresh(Repr - {this})
      ensures Contents == [] && Abs() == Init(blockSize) && |blocks| == 1
    {
      var block := new Option<T>[blockSize](_ => None);
      blocks := [block];
      tailIdx, headIdx, tailOff, headOff := 0, 0, 0, 0;
      Contents := [];
      slots := [block[..]];
      Repr := {this, block};
      assert block[..] == EmptyBlock(blockSize);
      InitInv<T>(blockSize);
    }
  }

  /** Pushes `xs` in order into a new queue. */
  method Fill<T>(xs: seq<T>, blockSize: nat) returns (q: Queue<T>)
    requires 0 < blockSize
    ensures q.Valid() && fresh(q.Repr) && q.blockSize == blockSize && q.Contents == xs
  {
    q := new Queue<T>(blockSize);
    var i := 0;
    while i < |xs|
      invariant i <= |xs| && q.Valid() && fresh(q.Repr)
      invariant q.blockSize == blockSize && q.Contents == xs[..i]
    {
      q.Push(xs[i]);
      i := i + 1;
    }
  }

  /** Pops until the queue reports empty; the values come out in queue order. */
  method Drain<T>(q: Queue<T>) returns (ys: seq<T>)
    requires q.Valid()
    modifies q.Repr
    ensures q.Valid() && q.Repr == old(q.Repr) && q.Contents == []
    ensures ys == old(q.Contents)
  {
    ys := [];
    var empty := q.Empty();
    while !empty
      invariant q.Valid() && q.Repr == old(q.Repr)
      invariant |ys| <= |old(q.Contents)|
      invariant ys == old(q.Contents)[..|ys|] && q.Contents == old(q.Contents)[|ys|..]
      invariant empty <==> q.Contents == []
      decreases |q.Contents|
    {
      var x := q.Pop();
      ys := ys + [x];
      empty := q.Empty();
    }
  }

  /** FIFO order across any number of block growths: pushing `xs` into a
      new queue and popping until it is empty yields `xs` back. */
  method PushAllPopAll<T>(xs: seq<T>, blockSize: nat) returns (ys: seq<T>)
    requires 0 < blockSize
    ensures ys == xs
  {
    var q := Fill(xs, blockSize);
    ys := Drain(q);
  }

  /** Blocks of four slots: five pushes force one growth, the size is five,
      the pops come back in push order and leave the queue empty. */
  method GrowthScenario() returns (size: int, popped: seq<int>, empty: bool)
    ensures size == 5 && popped == [10, 20, 30, 40, 50] && empty
  {
    var q := Fill([10, 20, 30, 40, 50], 4);
    size := q.Size();
    popped := Drain(q);
    empty := q.Empty();
  }
}
