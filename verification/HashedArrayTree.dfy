/** The growable array behind the blob index: a list of equally sized blocks whose number and size
    double together. */
module HashedArrayTree {
  import opened Bits

  /** Block contents laid end to end. */
  function Flat<T>(blocks: seq<seq<T>>): (r: seq<T>) {
    if blocks == [] then [] else blocks[0] + Flat(blocks[1..])
  }

  ghost predicate Uniform<T>(blocks: seq<seq<T>>, n: nat) {
    forall b :: 0 <= b < |blocks| ==> |blocks[b]| == n
  }

  lemma {:induction false} FlatConcat<T>(a: seq<seq<T>>, b: seq<seq<T>>)
    ensures Flat(a + b) == Flat(a) + Flat(b)
  {
    if a == [] {
      assert a + b == b;
    } else {
      assert (a + b)[1..] == a[1..] + b;
      FlatConcat(a[1..], b);
    }
  }

  lemma {:induction false} FlatLength<T>(blocks: seq<seq<T>>, n: nat)
    requires Uniform(blocks, n)
    ensures |Flat(blocks)| == |blocks| * n
  {
    if blocks != [] { FlatLength(blocks[1..], n); }
  }

  /** Slot `k` of block `b` is element `b * n + k` of the whole. */
  lemma {:induction false} FlatAt<T>(blocks: seq<seq<T>>, n: nat, b: nat, k: nat)
    requires Uniform(blocks, n) && b < |blocks| && k < n
    ensures b * n + k < |Flat(blocks)| && Flat(blocks)[b * n + k] == blocks[b][k]
  {
    if b > 0 {
      FlatAt(blocks[1..], n, b - 1, k);
      assert (b - 1) * n + k == b * n + k - n;
    }
  }

  /** Writing one slot of a block writes one element of the whole. */
  lemma {:induction false} FlatUpdate<T>(blocks: seq<seq<T>>, n: nat, b: nat, k: nat, x: T)
    requires Uniform(blocks, n) && b < |blocks| && k < n
    ensures b * n + k < |Flat(blocks)|
    ensures Flat(blocks[b := blocks[b][k := x]]) == Flat(blocks)[b * n + k := x]
  {
    FlatAt(blocks, n, b, k);
    if b == 0 {
      assert blocks[0 := blocks[0][k := x]][1..] == blocks[1..];
    } else {
      var tail := blocks[1..];
      FlatUpdate(tail, n, b - 1, k, x);
      assert blocks[b := blocks[b][k := x]][1..] == tail[b - 1 := tail[b - 1][k := x]];
      assert (b - 1) * n + k == b * n + k - n;
    }
  }

  /** Blocks joined pairwise. */
  function Joined<T>(blocks: seq<seq<T>>): (r: seq<seq<T>>)
    requires |blocks| % 2 == 0
  {
    if blocks == [] then [] else [blocks[0] + blocks[1]] + Joined(blocks[2..])
  }

  lemma {:induction false} JoinedKeeps<T>(blocks: seq<seq<T>>, n: nat)
    requires |blocks| % 2 == 0 && Uniform(blocks, n)
    ensures Flat(Joined(blocks)) == Flat(blocks)
    ensures |Joined(blocks)| == |blocks| / 2 && Uniform(Joined(blocks), 2 * n)
  {
    if blocks != [] {
      JoinedKeeps(blocks[2..], n);
      assert blocks[1..][1..] == blocks[2..];
      assert Joined(blocks)[1..] == Joined(blocks[2..]);
      assert (blocks[0] + blocks[1]) + Flat(blocks[2..]) == blocks[0] + (blocks[1] + Flat(blocks[2..]));
    }
  }

  lemma {:induction false} JoinedSnoc<T>(blocks: seq<seq<T>>, a: seq<T>, b: seq<T>)
    requires |blocks| % 2 == 0
    ensures Joined(blocks + [a, b]) == Joined(blocks) + [a + b]
  {
    if blocks == [] {
      assert blocks + [a, b] == [a, b] && [a, b][2..] == [];
    } else {
      assert (blocks + [a, b])[2..] == blocks[2..] + [a, b];
      JoinedSnoc(blocks[2..], a, b);
    }
  }

  lemma InUsedBlock(idx: nat, subIdx: nat, n: nat, pos: nat, used: nat)
    requires subIdx < n && pos == idx * n + subIdx && pos < used * n
    ensures idx < used
  {
    if used <= idx { MulLe(used, idx, n); }
  }

  /** Fills the front of `newBlocks` with the pairwise joined old blocks. */
  method JoinPairs<T>(oldBlocks: array<seq<T>>, newBlocks: array<seq<T>>)
    requires oldBlocks != newBlocks && oldBlocks.Length % 2 == 0 && oldBlocks.Length / 2 <= newBlocks.Length
    modifies newBlocks
    ensures newBlocks[..oldBlocks.Length / 2] == Joined(oldBlocks[..])
  {
    var i := 0;
    while i < oldBlocks.Length
      invariant 0 <= i <= oldBlocks.Length && i % 2 == 0
      invariant newBlocks[..i / 2] == Joined(oldBlocks[..i])
    {
      assert oldBlocks[..i + 2] == oldBlocks[..i] + [oldBlocks[i], oldBlocks[i + 1]];
      JoinedSnoc(oldBlocks[..i], oldBlocks[i], oldBlocks[i + 1]);
      newBlocks[i / 2] := oldBlocks[i] + oldBlocks[i + 1];
      i := i + 2;
    }
    assert oldBlocks[..i] == oldBlocks[..];
  }

  class Tree<T> {
    const zero: T
    var mask: nat
    var maskShift: nat
    var blockSize: nat
    var size: nat
    var blockList: array<seq<T>>
    ghost var used: nat    // blocks that have been allocated

    ghost predicate Shape() reads this, blockList {
      && blockSize == Pow2(maskShift) && mask == blockSize - 1 && blockSize % 2 == 0
      && blockList.Length == blockSize
      && used <= blockSize
      && Uniform(blockList[..used], blockSize)
    }

    /** The slots of all allocated blocks. */
    ghost function Slots(): seq<T> reads this, blockList
      requires Shape()
    {
      Flat(blockList[..used])
    }

    /** Less than a block is unused, unused slots are zero, and there are only about as many slots
        per block as there are blocks. */
    ghost predicate Valid() reads this, blockList {
      && Shape()
      && size <= used * blockSize < size + blockSize
      && |Slots()| == used * blockSize
      && (forall i :: size <= i < |Slots()| ==> Slots()[i] == zero)
      && (blockSize * blockSize <= 16 || blockSize * blockSize <= 4 * size)
    }

    ghost function Contents(): (r: seq<T>) reads this, blockList
      requires Valid()
      ensures |r| == size
    {
      Slots()[..size]
    }

    constructor (zero: T)
      ensures Valid() && fresh(blockList) && Contents() == [] && this.zero == zero
    {
      this.zero := zero;
      maskShift, blockSize, mask, size := 2, 4, 3, 0;
      blockList := new seq<T>[4](_ => []);
      used := 0;
      new;
      assert Pow2(2) == 4;
      assert blockList[..used] == [];
    }

    function Index(pos: nat): (r: (nat, nat))
      reads this, blockList
      requires Shape()
      ensures r.1 < blockSize && pos == r.0 * blockSize + r.1
    {
      SplitAt(pos, maskShift);
      (Shr(pos, maskShift), And(pos, mask))
    }

    function Ref(pos: nat): (e: T)
      reads this, blockList
      requires Valid() && pos < size
      ensures e == Contents()[pos]
    {
      var (idx, subIdx) := Index(pos);
      InUsedBlock(idx, subIdx, blockSize, pos, used);
      FlatAt(blockList[..used], blockSize, idx, subIdx);
      blockList[idx][subIdx]
    }

    /** Writes through a reference returned by Alloc or Ref. */
    method Set(pos: nat, e: T)
      requires Valid() && pos < size
      modifies blockList
      ensures Valid() && Contents() == old(Contents())[pos := e]
    {
      var (idx, subIdx) := Index(pos);
      ghost var blocks := blockList[..used];
      InUsedBlock(idx, subIdx, blockSize, pos, used);
      FlatUpdate(blocks, blockSize, idx, subIdx, e);
      blockList[idx] := blockList[idx][subIdx := e];
      assert blockList[..used] == blocks[idx := blocks[idx][subIdx := e]];
    }

    /** The blocks are full: twice as many blocks of twice the size take their contents. */
    method Double()
      requires Valid() && size == blockSize * blockSize && used == blockSize
      modifies this
      ensures Shape() && fresh(blockList) && blockSize == 2 * old(blockSize) && size == old(size)
      ensures 4 * used == blockSize && Slots() == old(Slots())
    {
      hide Flat, Joined;
      ghost var blocks := blockList[..];
      assert blockList[..used] == blocks;
      JoinedKeeps(blocks, blockSize);
      var newBlocks := new seq<T>[2 * blockSize](_ => []);
      JoinPairs(blockList, newBlocks);
      used := blockSize / 2;
      blockSize := blockSize * 2;
      mask := mask * 2 + 1;
      maskShift := maskShift + 1;
      blockList := newBlocks;
    }

    /** Appends a block of zero slots. */
    method AddBlock(idx: nat)
      requires Shape() && idx == used < blockSize
      modifies this`used, blockList
      ensures Shape() && used == old(used) + 1
      ensures Slots() == old(Slots()) + seq(blockSize, _ => zero)
    {
      ghost var blocks := blockList[..used];
      var block := seq(blockSize, _ => zero);
      blockList[idx] := block;
      used := used + 1;
      assert blockList[..used] == blocks + [block];
      FlatConcat(blocks, [block]);
      assert Flat([block]) == block + Flat<T>([]);
    }

    /** Makes sure that there is a slot for the next entry. */
    method Grow()
      requires Valid()
      modifies this, blockList
      ensures Shape() && (blockList == old(blockList) || fresh(blockList)) && size == old(size)
      ensures size < used * blockSize == |Slots()| <= size + blockSize
      ensures old(Slots()) <= Slots() && forall i :: size <= i < |Slots()| ==> Slots()[i] == zero
      ensures blockSize * blockSize <= 16 || blockSize * blockSize <= 4 * size
    {
      hide Flat;
      var (idx, subIdx) := Index(size);
      if idx == blockList.Length {
        FullBlocks(idx, subIdx, blockSize, size, used);
        Double();
        idx := idx / 2;
        HalfBlocks(idx, blockSize, used, size);
      }
      NextBlock(idx, subIdx, blockSize, size, used);
      if subIdx == 0 {
        AddBlock(idx);
      }
    }

    /** Appends a zero entry. */
    method Alloc() returns (pos: nat)
      requires Valid()
      modifies this, blockList
      ensures Valid() && (blockList == old(blockList) || fresh(blockList))
      ensures pos == old(size) && Contents() == old(Contents()) + [zero]
    {
      hide Flat, Pow2;
      Grow();
      pos := size;
      size := size + 1;
    }
  }

  lemma FullBlocks(idx: nat, subIdx: nat, n: nat, size: nat, used: nat)
    requires idx == n && size == idx * n + subIdx && used <= n && size <= used * n
    ensures size == n * n && used == n && subIdx == 0
  {
    MulLe(used, n, n);
    assert (used + 1) * n == used * n + n;
    if used < n { MulLe(used + 1, n, n); }
  }

  lemma HalfBlocks(idx: nat, n: nat, used: nat, size: nat)
    requires 4 * used == n && 2 * idx == n / 2 && size == (n / 2) * (n / 2)
    ensures idx == used && size == used * n && n * n == 4 * size
  {
  }

  lemma NextBlock(idx: nat, subIdx: nat, n: nat, size: nat, used: nat)
    requires subIdx < n && size == idx * n + subIdx && size <= used * n < size + n
    ensures subIdx == 0 ==> used == idx && (used + 1) * n == size + n
    ensures subIdx > 0 ==> size < used * n
  {
    assert (used + 1) * n == used * n + n && (idx + 1) * n == idx * n + n;
    if used < idx { MulLe(used + 1, idx, n); }
    if used > idx { MulLe(idx + 1, used, n); }
  }
}
