/** A Brainfuck-style tape of byte cells with a cursor. The buffer grows by
    doubling at either end; a ghost origin keeps track of where the buffer
    sits on an unbounded logical tape, so that growth is seen to change
    nothing the program can observe. */
module Tape {

  import opened Options

  /** Cells in a new tape. */
  const BlockSize: nat := 32

  /** The byte values of `[` and `]`. */
  const Open: bv8 := 91
  const Close: bv8 := 93

  function Zeros(n: nat): (r: seq<bv8>)
    ensures |r| == n && forall i :: 0 <= i < n ==> r[i] == 0
  {
    seq(n, _ => 0)
  }

  /** The logical tape: buffer `c` placed at position `o`, zero elsewhere. */
  function At(c: seq<bv8>, o: int, p: int): bv8
  {
    if o <= p < o + |c| then c[p - o] else 0
  }

  /** Zero cells added below the buffer, with the origin moved down by as
      many, leave the logical tape as it was. */
  lemma PadLeft(c: seq<bv8>, o: int, n: nat, p: int)
    ensures At(Zeros(n) + c, o - n, p) == At(c, o, p)
  {
  }

  /** Zero cells added above the buffer leave the logical tape as it was. */
  lemma PadRight(c: seq<bv8>, o: int, n: nat, p: int)
    ensures At(c + Zeros(n), o, p) == At(c, o, p)
  {
  }

  /** Byte arithmetic modulo 256, as Go's `byte` does it. */
  function Succ(x: bv8): (r: bv8)
    ensures r as int == (x as int + 1) % 256
  {
    if x == 255 then 0 else x + 1
  }

  function Pred(x: bv8): (r: bv8)
    ensures r as int == (x as int + 255) % 256
  {
    if x == 0 then 255 else x - 1
  }

  /** The contribution of one cell to the nesting depth, read right to left. */
  function Weight(x: bv8): int
  {
    if x == Close then 1 else if x == Open then -1 else 0
  }

  /** How many more `]` than `[` the cells `c[n..i]` hold. */
  function Between(c: seq<bv8>, n: nat, i: nat): int
    requires n <= i <= |c|
    decreases i - n
  {
    if n == i then 0 else Between(c, n, i - 1) + Weight(c[i - 1])
  }

  /** The left scan of SyncToOpening over the cells below `i`, starting with
      `k` unmatched `]`: the index of the `[` it stops on, if there is one. */
  function MatchLeft(c: seq<bv8>, i: nat, k: nat): (r: Option<nat>)
    requires i <= |c|
    ensures r.Some? ==> r.value < i && c[r.value] == Open
    decreases i
  {
    if i == 0 then None
    else if c[i - 1] == Close then MatchLeft(c, i - 1, k + 1)
    else if c[i - 1] == Open then
      if k == 0 then Some(i - 1) else MatchLeft(c, i - 1, k - 1)
    else MatchLeft(c, i - 1, k)
  }

  /** Scanning right to left from `i` down to `m` with `k` unmatched `]`,
      the depth never drops below zero. */
  ghost predicate NeverBelow(c: seq<bv8>, m: nat, i: nat, k: nat)
    requires m <= i <= |c|
  {
    forall n :: m <= n < i ==> k + Between(c, n, i) >= 0
  }

  /** When MatchLeft stops at `j`, the cells between `j` and `i` balance the
      `k` unmatched `]`, the depth never drops below zero on the way, and no
      nearer `[` is reached at depth zero: `j` is the nearest match. */
  lemma {:induction false} MatchLeftFound(c: seq<bv8>, i: nat, k: nat)
    requires i <= |c| && MatchLeft(c, i, k).Some?
    ensures var j := MatchLeft(c, i, k).value;
      k + Between(c, j + 1, i) == 0 && NeverBelow(c, j + 1, i, k) &&
      forall m :: j < m < i && c[m] == Open ==> k + Between(c, m + 1, i) > 0
    decreases i
  {
    var x := c[i - 1];
    if x == Open && k == 0 {
      return;
    }
    var k' := k + Weight(x);
    MatchLeftFound(c, i - 1, k');
    var j := MatchLeft(c, i, k).value;
    assert j == MatchLeft(c, i - 1, k').value;
    forall n | j < n < i
      ensures k + Between(c, n, i) == k' + Between(c, n, i - 1)
    {
    }
  }

  /** When MatchLeft finds nothing, the depth never drops below zero and
      every `[` below `i` is reached at a positive depth. */
  lemma {:induction false} MatchLeftNotFound(c: seq<bv8>, i: nat, k: nat)
    requires i <= |c| && MatchLeft(c, i, k).None?
    ensures NeverBelow(c, 0, i, k)
    ensures forall m :: 0 <= m < i && c[m] == Open ==> k + Between(c, m + 1, i) > 0
    decreases i
  {
    if i == 0 {
      return;
    }
    var x := c[i - 1];
    var k' := k + Weight(x);
    MatchLeftNotFound(c, i - 1, k');
    forall n | 0 <= n < i
      ensures k + Between(c, n, i) == k' + Between(c, n, i - 1)
    {
    }
  }

  /** The scan of SyncToClosing from `i`: the first `]` at or after it. */
  function FindClose(c: seq<bv8>, i: nat): (r: Option<nat>)
    ensures r.Some? ==> i <= r.value < |c| && c[r.value] == Close
    ensures r.Some? ==> forall m :: i <= m < r.value ==> c[m] != Close
    ensures r.None? ==> forall m :: i <= m < |c| ==> c[m] != Close
    decreases |c| - i
  {
    if i >= |c| then None
    else if c[i] == Close then Some(i)
    else FindClose(c, i + 1)
  }

  class Tape {
    var size: nat
    var cells: array<bv8>
    var index: nat
    /** Counts reads, writes, increments, decrements and left moves. */
    var totalOps: nat
    /** The logical position of `cells[0]`. */
    ghost var origin: int

    ghost predicate Valid()
      reads this
    {
      cells.Length == size && index < size
    }

    /** The logical tape as the buffer currently holds it. */
    ghost function View(p: int): bv8
      reads this, cells
    {
      At(cells[..], origin, p)
    }

    /** The cursor's logical position. */
    ghost function Position(): int
      reads this
    {
      origin + index
    }

    /** New: 32 zero cells, the cursor on the first, no operations yet. */
    constructor ()
      ensures Valid() && fresh(cells)
      ensures size == BlockSize && cells[..] == Zeros(BlockSize)
      ensures index == 0 && totalOps == 0 && origin == 0
    {
      size := BlockSize;
      cells := new bv8[BlockSize](_ => 0);
      index := 0;
      totalOps := 0;
      origin := 0;
    }

    /** Moves the cursor one cell right, first doubling the buffer if the
        cursor is on its last cell; the old cells keep their indices and the
        new upper half is zero. The operation count does not change. */
    method Right()
      requires Valid()
      modifies this
      ensures Valid() && index == old(index) + 1 && Position() == old(Position()) + 1
      ensures totalOps == old(totalOps) && origin == old(origin)
      ensures old(index) + 1 < old(size) ==> cells == old(cells) && size == old(size)
      ensures old(index) + 1 == old(size) ==>
        size == 2 * old(size) && fresh(cells) &&
        cells[..old(size)] == old(cells[..]) && cells[old(size)..] == Zeros(old(size))
      ensures forall p :: View(p) == old(View(p))
    {
      if index == size - 1 {
        size := size * 2;
        var newCells := new bv8[size](_ => 0);
        forall i | 0 <= i < cells.Length {
          newCells[i] := cells[i];
        }
        assert newCells[..] == cells[..] + Zeros(cells.Length);
        forall p ensures At(newCells[..], origin, p) == At(cells[..], origin, p) {
          PadRight(cells[..], origin, cells.Length, p);
        }
        cells := newCells;
      }
      index := index + 1;
    }

    /** Moves the cursor one cell left and counts the operation; on the
        first cell it first doubles the buffer, moving the old cells into the
        upper half and zeroing the lower half. */
    method Left()
      requires Valid()
      modifies this
      ensures Valid() && Position() == old(Position()) - 1
      ensures totalOps == old(totalOps) + 1
      ensures old(index) > 0 ==>
        cells == old(cells) && size == old(size) && index == old(index) - 1 && origin == old(origin)
      ensures old(index) == 0 ==>
        size == 2 * old(size) && fresh(cells) && index == old(size) - 1 &&
        cells[..old(size)] == Zeros(old(size)) && cells[old(size)..] == old(cells[..]) &&
        origin == old(origin) - old(size)
      ensures forall p :: View(p) == old(View(p))
    {
      if index == 0 {
        GrowLeft();
      }
      index := index - 1;
      totalOps := totalOps + 1;
    }

    /** The growth step of Left: a buffer twice the size, the old cells in
        its upper half, zeros below, and the cursor at the same logical
        position. */
    method GrowLeft()
      requires Valid()
      modifies this
      ensures Valid() && fresh(cells) && size == 2 * old(size) && index == old(size) + old(index)
      ensures cells[..old(size)] == Zeros(old(size)) && cells[old(size)..] == old(cells[..])
      ensures origin == old(origin) - old(size) && totalOps == old(totalOps)
      ensures forall p :: View(p) == old(View(p))
    {
      ghost var c0, o0 := cells[..], origin;
      var newCells := new bv8[size * 2](_ => 0);
      forall i | 0 <= i < cells.Length {
        newCells[size + i] := cells[i];
      }
      assert newCells[..] == Zeros(size) + c0;
      origin := origin - size;
      index := size + index;
      size := size * 2;
      cells := newCells;
      forall p ensures View(p) == At(c0, o0, p) {
        PadLeft(c0, o0, |c0|, p);
      }
    }

    /** Puts the cursor on cell `i`; nothing else changes. */
    method Sync(i: nat)
      requires Valid() && i < size
      modifies this
      ensures Valid() && index == i && Position() == origin + i
      ensures cells == old(cells) && size == old(size) && totalOps == old(totalOps)
      ensures origin == old(origin)
    {
      index := i;
    }

    /** Moves left to the `[` matching the current position, counting `]`
        up and `[` down on the way, then one cell further left. Each step
        left reads the cell it lands on. A matching `[` must exist in the
        buffer: otherwise the scan runs into ever more zero cells. */
    method SyncToOpening()
      requires Valid() && MatchLeft(cells[..], index, 0).Some?
      modifies this
      ensures Valid()
      ensures var j := MatchLeft(old(cells[..]), old(index), 0).value;
        Position() == old(Position()) - (old(index) - j) - 1 &&
        old(View(origin + j)) == Open &&
        totalOps == old(totalOps) + 2 * (old(index) - j) + 1
      ensures var j := MatchLeft(old(cells[..]), old(index), 0).value;
        j > 0 ==>
          cells == old(cells) && size == old(size) && origin == old(origin) && index == j - 1
      ensures var j := MatchLeft(old(cells[..]), old(index), 0).value;
        j == 0 ==>
          size == 2 * old(size) && fresh(cells) && index == old(size) - 1 &&
          cells[..old(size)] == Zeros(old(size)) && cells[old(size)..] == old(cells[..]) &&
          origin == old(origin) - old(size)
      ensures forall p :: View(p) == old(View(p))
    {
      ghost var j := MatchLeft(cells[..], index, 0).value;
      var count: nat := 0;
      while true
        invariant Valid() && cells == old(cells) && size == old(size) && origin == old(origin)
        invariant j < index <= old(index)
        invariant MatchLeft(cells[..], index, count) == Some(j)
        invariant totalOps == old(totalOps) + 2 * (old(index) - index)
        decreases index
      {
        Left();
        var token := Read();
        if token == Close {
          count := count + 1;
        } else if token == Open {
          if count == 0 {
            break;
          } else {
            count := count - 1;
          }
        }
      }
      Left();
    }

    /** Moves right until the cursor is on a `]`, reading each cell on the
        way; there is no nesting count. A `]` must exist at or after the
        cursor in the buffer: otherwise the scan runs into ever more zero
        cells. */
    method SyncToClosing()
      requires Valid() && FindClose(cells[..], index).Some?
      modifies this
      ensures Valid() && cells == old(cells) && size == old(size) && origin == old(origin)
      ensures var j := FindClose(old(cells[..]), old(index)).value;
        index == j && totalOps == old(totalOps) + (j - old(index)) + 1
      ensures View(Position()) == Close
      ensures forall i :: old(index) <= i < index ==> cells[i] != Close
    {
      ghost var j := FindClose(cells[..], index).value;
      var token := Read();
      while token != Close
        invariant Valid() && cells == old(cells) && size == old(size) && origin == old(origin)
        invariant old(index) <= index <= j && FindClose(cells[..], index) == Some(j)
        invariant token == cells[index]
        invariant totalOps == old(totalOps) + (index - old(index)) + 1
        decreases j - index
      {
        Right();
        token := Read();
      }
    }

    /** Returns the cell under the cursor and counts the operation. */
    method Read() returns (b: bv8)
      requires Valid()
      modifies this`totalOps
      ensures totalOps == old(totalOps) + 1
      ensures b == cells[index] && b == View(Position())
    {
      totalOps := totalOps + 1;
      b := cells[index];
    }

    /** Stores `b` under the cursor and counts the operation. */
    method Write(b: bv8)
      requires Valid()
      modifies this`totalOps, cells
      ensures Valid() && totalOps == old(totalOps) + 1
      ensures cells[..] == old(cells[..])[index := b]
      ensures forall p :: View(p) == if p == Position() then b else old(View(p))
    {
      totalOps := totalOps + 1;
      cells[index] := b;
    }

    /** Adds one to the cell under the cursor, modulo 256. */
    method Inc()
      requires Valid()
      modifies this`totalOps, cells
      ensures Valid() && totalOps == old(totalOps) + 1
      ensures cells[index] as int == (old(cells[index]) as int + 1) % 256
      ensures forall i :: 0 <= i < size && i != index ==> cells[i] == old(cells[i])
    {
      totalOps := totalOps + 1;
      cells[index] := Succ(cells[index]);
    }

    /** Subtracts one from the cell under the cursor, modulo 256. */
    method Dec()
      requires Valid()
      modifies this`totalOps, cells
      ensures Valid() && totalOps == old(totalOps) + 1
      ensures cells[index] as int == (old(cells[index]) as int + 255) % 256
      ensures forall i :: 0 <= i < size && i != index ==> cells[i] == old(cells[i])
    {
      totalOps := totalOps + 1;
      cells[index] := Pred(cells[index]);
    }

    /** The cursor's index in the buffer. */
    method GetIndex() returns (r: nat)
      requires Valid()
      ensures r < size && origin + r == Position()
    {
      r := index;
    }
  }
}
