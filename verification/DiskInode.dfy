/** The in-place operations of a DiskInode on its index tree. */
module DiskInodes {
  import opened Basics
  import opened Bytes
  import opened BlockCaching
  import opened IndexTree
  import opened FileBytes

  /** The blocks in `all` exist, are pairwise distinct, none is locked by the caller, and two may be at once. */
  ghost predicate Usable(all: seq<nat>, disk: BlockCacheManager)
    reads disk
  {
    && disk.Valid() && |disk.view| <= U32_LIMIT && |disk.held| + 2 <= disk.depth
    && Below(all, |disk.view|) && Distinct(all) && |all| <= MAX_SLOTS
    && forall k :: 0 <= k < |all| ==> all[k] !in disk.held
  }

  /** get_block_cache(b).lock().modify(..) with a closure that stores one entry. */
  method PutEntry(disk: BlockCacheManager, b: nat, j: nat, x: nat)
    requires disk.Valid() && b < |disk.view| && b !in disk.held && |disk.held| < disk.depth && j < 128
    modifies disk
    ensures disk.Valid() && disk.held == old(disk.held)
    ensures disk.view == old(disk.view)[b := PutWords(old(disk.view)[b], j, [x])]
  {
    var data := disk.Acquire(b);
    disk.Modify(b, PutWords(data, j, [x]));
    disk.Release(b);
  }

  method CopyFromSlice(buf: array<byte>, at: nat, src: seq<byte>)
    requires at + |src| <= buf.Length
    modifies buf
    ensures buf[at..at + |src|] == src
    ensures buf[..at] == old(buf[..at])
    ensures forall i :: at + |src| <= i < buf.Length ==> buf[i] == old(buf[i])
  {
    forall i | 0 <= i < |src| {
      buf[at + i] := src[i];
    }
  }

  /** get_block_cache(b).lock().modify(..) with a closure that copies src into the block. */
  method PutBytes(disk: BlockCacheManager, b: nat, at: nat, src: seq<byte>)
    requires disk.Valid() && b < |disk.view| && b !in disk.held && |disk.held| < disk.depth
    requires at + |src| <= 512
    modifies disk
    ensures disk.Valid() && disk.held == old(disk.held)
    ensures disk.view == old(disk.view)[b := Splice(old(disk.view)[b], at, src)]
  {
    var data := disk.Acquire(b);
    disk.Modify(b, Splice(data, at, src));
    disk.Release(b);
  }

  /** Writing into a data block keeps the index and splices the file's bytes. */
  lemma WriteEffect(ino: Ino, v: seq<Block>, own: seq<nat>, block: nat, start: nat, src: seq<byte>)
    requires |ino.direct| == 28 && DataBlocks(ino.size) <= MAX_DATA_BLOCKS && own == Owned(ino, v)
    requires Below(own, |v|) && Distinct(own) && |own| <= MAX_SLOTS
    requires start + |src| <= ino.size && block == start / 512 && start + |src| <= (block + 1) * 512 && 0 < |src|
    requires DataBlock(own, block) < |v|
    ensures start % 512 + |src| <= 512
    ensures var b := DataBlock(own, block);
      var w := v[b := Splice(v[b], start % 512, src)];
      && Owned(ino, w) == own
      && Raw(w, own, DataBlocks(ino.size)) == Splice(Raw(v, own, DataBlocks(ino.size)), start, src)
      && SameExcept(v, w, DataBlockSet(own))
  {
    var n := DataBlocks(ino.size);
    var b := DataBlock(own, block);
    DataSlotOwned(block, n);
    RawWrite(v, own, n, block, Splice(v[b], start % 512, src), start % 512, src);
    SlotsFrame(ino, v, v[b := Splice(v[b], start % 512, src)], |own|);
  }

  lemma {:induction false} SameOn(u: seq<Block>, v: seq<Block>, w: seq<Block>, x: set<nat>)
    requires SameExcept(u, v, x) && SameExcept(v, w, x)
    ensures SameExcept(u, w, x)
  {
  }

  /** The end of the current block, or of the whole range. */
  function ChunkEnd(start: nat, end: nat): (stop: nat)
    requires start < end
    ensures start < stop <= end && stop <= (start / 512 + 1) * 512
    ensures stop < end ==> stop / 512 == start / 512 + 1
  {
    if (start / 512 + 1) * 512 < end then (start / 512 + 1) * 512 else end
  }

  /** Two adjacent splices are one. */
  lemma SpliceTwice(s: seq<byte>, off: nat, buf: seq<byte>, n: nat, start: nat, more: nat)
    requires n + more <= |buf| && off + n + more <= |s| && start == off + n
    ensures Splice(Splice(s, off, buf[..n]), start, buf[n..n + more]) == Splice(s, off, buf[..n + more])
  {
  }

  lemma Join(s: seq<byte>, a: nat, b: nat, c: nat)
    requires a <= b <= c <= |s|
    ensures s[a..c] == s[a..b] + s[b..c]
  {
  }

  /** A range of the file inside one block. */
  lemma Chunk(v: seq<Block>, own: seq<nat>, size: nat, start: nat, stop: nat)
    requires start < stop <= size && stop <= (start / 512 + 1) * 512 && DataBlock(own, start / 512) < |v|
    ensures start % 512 + (stop - start) <= 512
    ensures Content(v, own, size)[start..stop]
         == v[DataBlock(own, start / 512)][start % 512..start % 512 + (stop - start)]
  {
    var s := v[DataBlock(own, start / 512)][start % 512..start % 512 + (stop - start)];
    forall i | 0 <= i < |s| ensures Content(v, own, size)[start..stop][i] == s[i] {
      assert (start + i) / 512 == start / 512 && (start + i) % 512 == start % 512 + i;
    }
  }

  class DiskInode {
    var size: nat
    var direct: seq<nat>
    var indirect1: nat
    var indirect2: nat
    var kind: nat

    constructor (ino: Ino)
      ensures Value() == ino
    {
      size, direct, indirect1, indirect2, kind := ino.size, ino.direct, ino.indirect1, ino.indirect2, ino.kind;
    }

    function Value(): Ino
      reads this
    {
      Ino(size, direct, indirect1, indirect2, kind)
    }

    /** The block number of data block `inner`, looked up through at most two index blocks. */
    method GetBlockId(inner: nat, disk: BlockCacheManager, ghost own: seq<nat>) returns (id: nat)
      requires |direct| == 28 && inner < MAX_DATA_BLOCKS && DataSlot(inner) < |own|
      requires Usable(own, disk) && Slots(Value(), disk.view, |own|) == own
      modifies disk
      ensures disk.Valid() && disk.view == old(disk.view) && disk.held == old(disk.held)
      ensures id == own[DataSlot(inner)]
      ensures inner < 28 ==> id == direct[inner]
      ensures 28 <= inner < 156 ==> indirect1 < |disk.view| && id == U32(disk.view[indirect1], inner - 28)
      ensures 156 <= inner ==> indirect2 < |disk.view|
      ensures 156 <= inner ==> U32(disk.view[indirect2], (inner - 156) / 128) < |disk.view|
      ensures 156 <= inner ==>
        id == U32(disk.view[U32(disk.view[indirect2], (inner - 156) / 128)], (inner - 156) % 128)
    {
      ghost var k := DataSlot(inner);
      assert own[k] == Lookup(Value(), disk.view, k);
      if inner < 28 {
        id := direct[inner];
      } else if inner < 156 {
        assert own[28] == indirect1;
        var data := disk.Read(indirect1);
        id := U32(data, inner - 28);
      } else {
        DoubleLookup(inner - 156, disk.view, own);
        var last := inner - 156;
        var data := disk.Read(indirect2);
        data := disk.Read(U32(data, last / 128));
        id := U32(data, last % 128);
      }
    }

    /** The way through the double-indirect block. */
    lemma DoubleLookup(last: nat, v: seq<Block>, own: seq<nat>)
      requires |direct| == 28 && 156 + last < MAX_DATA_BLOCKS && DataSlot(156 + last) < |own| <= MAX_SLOTS
      requires Below(own, |v|) && Slots(Value(), v, |own|) == own
      ensures 158 + last / 128 * 129 < |own| && indirect2 == own[157] < |v|
      ensures U32(v[indirect2], last / 128) == own[158 + last / 128 * 129] < |v|
      ensures own[DataSlot(156 + last)] == U32(v[own[158 + last / 128 * 129]], last % 128)
    {
      SubSlot(last);
      assert own[157] == Lookup(Value(), v, 157);
      assert own[158 + last / 128 * 129] == Lookup(Value(), v, 158 + last / 128 * 129);
      assert own[DataSlot(156 + last)] == Lookup(Value(), v, DataSlot(156 + last));
    }

    /** fill direct; `used` counts the blocks taken from the iterator. */
    method FillDirect(total: nat, newBlocks: seq<nat>, disk: BlockCacheManager, ghost all: seq<nat>, current: nat)
      returns (cur: nat, used: nat)
      requires Usable(all, disk) && Built(Value(), disk.view, all, SlotsFor(current))
      requires current <= total <= MAX_DATA_BLOCKS && |all| == SlotsFor(total)
      requires |newBlocks| == |all| - SlotsFor(current) && newBlocks == all[|all| - |newBlocks|..]
      requires forall k :: 0 <= k < |direct| ==> direct[k] < U32_LIMIT
      modifies this`direct
      ensures forall k :: 0 <= k < |direct| ==> direct[k] < U32_LIMIT
      ensures cur == if current < 28 then (if total < 28 then total else 28) else current
      ensures used == SlotsFor(cur) - SlotsFor(current) && used <= |newBlocks|
      ensures Built(Value(), disk.view, all, SlotsFor(cur))
    {
      cur, used := current, 0;
      SlotsForMonotone(current, total);
      while cur < (if total < 28 then total else 28)
        invariant current <= cur <= total && (cur > current ==> cur <= 28)
        invariant SlotsFor(cur) <= |all| && used == SlotsFor(cur) - SlotsFor(current)
        invariant Built(Value(), disk.view, all, SlotsFor(cur))
        invariant forall k :: 0 <= k < |direct| ==> direct[k] < U32_LIMIT
      {
        SlotsForMonotone(cur + 1, total);
        Step(Value(), disk.view, all, cur);
        direct := direct[cur := newBlocks[used]];
        cur, used := cur + 1, used + 1;
      }
    }

    /** fill indirect1, under the lock of the indirect block; entries current..limit are new. */
    method FillIndirect1(limit: nat, newBlocks: seq<nat>, disk: BlockCacheManager, ghost all: seq<nat>,
                         current: nat, taken: nat, ghost m: nat) returns (cur: nat, used: nat)
      requires Usable(all, disk) && 28 < |all| && indirect1 == all[28] && Built(Value(), disk.view, all, m)
      requires limit <= 128 && (current < limit ==> m == 29 + current && 29 + limit <= |all|)
      requires taken <= |newBlocks| <= |all| && newBlocks == all[|all| - |newBlocks|..]
      requires |newBlocks| - taken == |all| - m
      modifies disk
      ensures Usable(all, disk) && disk.held == old(disk.held)
      ensures cur == if current < limit then limit else current
      ensures used == taken + (cur - current) && used <= |newBlocks|
      ensures Built(Value(), disk.view, all, m + (cur - current))
      ensures SameExcept(old(disk.view), disk.view, IndexBlocks(all))
    {
      cur, used := current, taken;
      var data := disk.Acquire(indirect1);
      while cur < limit
        invariant current <= cur && (cur > current ==> cur <= limit)
        invariant used == taken + (cur - current)
        invariant disk.Valid() && disk.held == old(disk.held) + {indirect1} && |disk.view| == |old(disk.view)|
        invariant data == disk.view[indirect1]
        invariant Built(Value(), disk.view, all, m + (cur - current))
        invariant SameExcept(old(disk.view), disk.view, IndexBlocks(all))
      {
        data := EnterIndirect1(cur, data, newBlocks[used], disk, all);
        cur, used := cur + 1, used + 1;
      }
      disk.Release(indirect1);
    }

    /** The indirect block gets its entry `cur`. */
    method EnterIndirect1(cur: nat, data: Block, x: nat, disk: BlockCacheManager, ghost all: seq<nat>)
      returns (after: Block)
      requires disk.Valid() && |disk.view| <= U32_LIMIT
      requires Below(all, |disk.view|) && Distinct(all) && |all| <= MAX_SLOTS
      requires cur < 128 && 29 + cur < |all| && x == all[29 + cur] && Built(Value(), disk.view, all, 29 + cur)
      requires indirect1 in disk.held && indirect1 < |disk.view| && data == disk.view[indirect1]
      modifies disk
      ensures disk.Valid() && disk.held == old(disk.held)
      ensures |disk.view| == |old(disk.view)| && after == disk.view[indirect1]
      ensures Built(Value(), disk.view, all, 30 + cur)
      ensures SameExcept(old(disk.view), disk.view, IndexBlocks(all))
    {
      StepIndirect1(Value(), disk.view, all, cur);
      after := PutWords(data, cur, [x]);
      disk.Modify(indirect1, after);
    }

    /** The double-indirect block gets the number of its sub-block a. */
    method AllocSub(a: nat, indirect: Block, x: nat, disk: BlockCacheManager, ghost all: seq<nat>, ghost m: nat)
      returns (data: Block)
      requires disk.Valid() && |disk.view| <= U32_LIMIT
      requires Below(all, |disk.view|) && Distinct(all) && |all| <= MAX_SLOTS
      requires Built(Value(), disk.view, all, m) && m == 158 + 129 * a && m < |all| && a < 128 && x == all[m]
      requires indirect2 in disk.held && indirect2 < |disk.view| && indirect == disk.view[indirect2]
      modifies disk
      ensures disk.Valid() && disk.held == old(disk.held)
      ensures |disk.view| == |old(disk.view)| && data == disk.view[indirect2]
      ensures Built(Value(), disk.view, all, m + 1)
      ensures SameExcept(old(disk.view), disk.view, IndexBlocks(all))
    {
      StepSubBlock(Value(), disk.view, all, a, m);
      data := PutWords(indirect, a, [x]);
      disk.Modify(indirect2, data);
    }

    /** Sub-block a gets its entry b. */
    method EnterSub(a: nat, b: nat, indirect: Block, x: nat, disk: BlockCacheManager, ghost all: seq<nat>, ghost m: nat)
      requires disk.Valid() && |disk.view| <= U32_LIMIT && |disk.held| < disk.depth
      requires Below(all, |disk.view|) && Distinct(all) && |all| <= MAX_SLOTS && a < 128 && b < 128
      requires m == 159 + 129 * a + b && m < |all| && Built(Value(), disk.view, all, m)
      requires x == all[m] && all[m - 1 - b] !in disk.held
      requires indirect2 < |disk.view| && indirect == disk.view[indirect2]
      modifies disk
      ensures disk.Valid() && disk.held == old(disk.held)
      ensures |disk.view| == |old(disk.view)| && indirect == disk.view[indirect2]
      ensures Built(Value(), disk.view, all, m + 1)
      ensures SameExcept(old(disk.view), disk.view, IndexBlocks(all))
    {
      StepSubEntry(Value(), disk.view, all, a, b, m, all[m - 1 - b]);
      PutEntry(disk, U32(indirect, a), b, x);
    }

    /** Entry b of sub-block a, with the sub-block itself when it is the first entry. */
    method FillEntry(a: nat, b: nat, indirect: Block, newBlocks: seq<nat>, disk: BlockCacheManager,
                     ghost all: seq<nat>, taken: nat, ghost m: nat) returns (data: Block, used: nat)
      requires disk.Valid() && |disk.view| <= U32_LIMIT && |disk.held| < disk.depth
      requires Below(all, |disk.view|) && Distinct(all) && |all| <= MAX_SLOTS
      requires Built(Value(), disk.view, all, m) && 157 < m && a < 128 && b < 128
      requires m == Frontier(a, b) && m + (if b == 0 then 2 else 1) <= |all|
      requires forall k :: 0 <= k < |all| && k != 157 ==> all[k] !in disk.held
      requires indirect2 in disk.held && indirect2 < |disk.view| && indirect == disk.view[indirect2]
      requires taken <= |newBlocks| <= |all| && newBlocks == all[|all| - |newBlocks|..]
      requires |newBlocks| - taken == |all| - m
      modifies disk
      ensures disk.Valid() && disk.held == old(disk.held) && |disk.view| == |old(disk.view)|
      ensures data == disk.view[indirect2] && used == taken + if b == 0 then 2 else 1
      ensures Built(Value(), disk.view, all, m + if b == 0 then 2 else 1)
      ensures SameExcept(old(disk.view), disk.view, IndexBlocks(all))
    {
      data, used := indirect, taken;
      if b == 0 {
        data := AllocSub(a, data, newBlocks[used], disk, all, m);
        used := used + 1;
      }
      EnterSub(a, b, data, newBlocks[used], disk, all, if b == 0 then m + 1 else m);
      used := used + 1;
    }

    /** One round of the loop that fills indirect2. */
    method FillNext(a: nat, b: nat, ghost a1: nat, ghost b1: nat, indirect: Block, newBlocks: seq<nat>,
                    disk: BlockCacheManager, ghost all: seq<nat>, taken: nat, ghost first: seq<Block>)
      returns (data: Block, used: nat)
      requires disk.Valid() && |disk.view| <= U32_LIMIT && |disk.held| < disk.depth
      requires Below(all, |disk.view|) && Distinct(all) && |all| <= MAX_SLOTS
      requires b < 128 && b1 < 128 && a1 <= 128 && (a < a1 || (a == a1 && b < b1)) && (a1 == 128 ==> b1 == 0)
      requires |all| == Frontier(a1, b1) && Built(Value(), disk.view, all, Frontier(a, b))
      requires forall k :: 0 <= k < |all| && k != 157 ==> all[k] !in disk.held
      requires indirect2 in disk.held && indirect2 < |disk.view| && indirect == disk.view[indirect2]
      requires taken <= |newBlocks| <= |all| && newBlocks == all[|all| - |newBlocks|..]
      requires |newBlocks| - taken == |all| - Frontier(a, b) && SameExcept(first, disk.view, IndexBlocks(all))
      modifies disk
      ensures disk.Valid() && disk.held == old(disk.held) && |disk.view| == |old(disk.view)|
      ensures data == disk.view[indirect2] && SameExcept(first, disk.view, IndexBlocks(all))
      ensures var next := if b == 127 then Frontier(a + 1, 0) else Frontier(a, b + 1);
        next <= |all| && |all| - next == |newBlocks| - used && Built(Value(), disk.view, all, next)
    {
      FrontierGrows(a, b, a1, b1);
      ghost var v := disk.view;
      data, used := FillEntry(a, b, indirect, newBlocks, disk, all, taken, Frontier(a, b));
      SameOn(first, v, disk.view, IndexBlocks(all));
    }

    /** fill indirect2 from (a0, b0) to (a1, b1), under the lock of the double-indirect block. */
    method FillIndirect2(start: nat, inner: nat, a1: nat, b1: nat, newBlocks: seq<nat>, disk: BlockCacheManager,
                         ghost all: seq<nat>, taken: nat)
      requires Usable(all, disk) && inner < 128 && b1 < 128 && a1 <= 128 && (a1 == 128 ==> b1 == 0)
      requires start < a1 || (start == a1 && inner <= b1)
      requires |all| == Frontier(a1, b1) && Built(Value(), disk.view, all, Frontier(start, inner))
      requires indirect2 == all[157]
      requires taken <= |newBlocks| <= |all| && newBlocks == all[|all| - |newBlocks|..]
      requires |newBlocks| - taken == |all| - Frontier(start, inner)
      modifies disk
      ensures Usable(all, disk) && disk.held == old(disk.held)
      ensures Built(Value(), disk.view, all, |all|)
      ensures SameExcept(old(disk.view), disk.view, IndexBlocks(all))
    {
      var a0: nat, b0: nat, used: nat := start, inner, taken;
      var data := disk.Acquire(indirect2);
      while a0 < a1 || (a0 == a1 && b0 < b1)
        invariant b0 < 128 && (a0 < a1 || (a0 == a1 && b0 <= b1))
        invariant Frontier(a0, b0) <= |all| && |all| - Frontier(a0, b0) == |newBlocks| - used
        invariant disk.Valid() && disk.held == old(disk.held) + {indirect2} && |disk.view| == |old(disk.view)|
        invariant data == disk.view[indirect2]
        invariant Built(Value(), disk.view, all, Frontier(a0, b0))
        invariant SameExcept(old(disk.view), disk.view, IndexBlocks(all))
        decreases a1 - a0, b1 - b0 + 128
      {
        data, used := FillNext(a0, b0, a1, b1, data, newBlocks, disk, all, used, old(disk.view));
        b0 := b0 + 1;
        if b0 == 128 {
          a0, b0 := a0 + 1, 0;
        }
      }
      disk.Release(indirect2);
    }

    /** The part of increase_size behind the 28 direct blocks; cur and total count from block 28. */
    method IncreaseIndirect(total: nat, newBlocks: seq<nat>, disk: BlockCacheManager, ghost all: seq<nat>,
                            current: nat, taken: nat, ghost m: nat)
      requires Usable(all, disk) && current <= total && 0 < total && 28 + total <= MAX_DATA_BLOCKS
      requires |all| == SlotsFor(28 + total) && m == (if current == 0 then 29 else SlotsFor(28 + current))
      requires Built(Value(), disk.view, all, m)
      requires taken <= |newBlocks| <= |all| && newBlocks == all[|all| - |newBlocks|..]
      requires |newBlocks| - taken == |all| - m
      requires indirect2 < U32_LIMIT
      modifies this`indirect2, disk
      ensures Usable(all, disk) && disk.held == old(disk.held) && indirect2 < U32_LIMIT
      ensures Built(Value(), disk.view, all, |all|)
      ensures SameExcept(old(disk.view), disk.view, IndexBlocks(all))
    {
      BuiltAt(Value(), disk.view, all, m, 28);
      var cur, used := FillIndirect1(if total < 128 then total else 128, newBlocks, disk, all, current, taken, m);
      if total <= 128 {
        return;
      }
      IncreaseDouble(total - 128, newBlocks, disk, all, cur - 128, used, m + (cur - current));
    }

    /** The part of increase_size behind the indirect block; cur and total count from block 156. */
    method IncreaseDouble(total: nat, newBlocks: seq<nat>, disk: BlockCacheManager, ghost all: seq<nat>, cur: nat,
                          taken: nat, ghost m: nat)
      requires Usable(all, disk) && cur <= total && 0 < total && 156 + total <= MAX_DATA_BLOCKS
      requires |all| == SlotsFor(156 + total) && m == (if cur == 0 then 157 else SlotsFor(156 + cur))
      requires Built(Value(), disk.view, all, m)
      requires taken <= |newBlocks| <= |all| && newBlocks == all[|all| - |newBlocks|..]
      requires |newBlocks| - taken == |all| - m && indirect2 < U32_LIMIT
      modifies this`indirect2, disk
      ensures Usable(all, disk) && disk.held == old(disk.held) && indirect2 < U32_LIMIT
      ensures Built(Value(), disk.view, all, |all|)
      ensures SameExcept(old(disk.view), disk.view, IndexBlocks(all))
    {
      var used := taken;
      ghost var n := m;
      if cur == 0 {
        Step(Value(), disk.view, all, 157);
        indirect2 := newBlocks[used];
        used, n := used + 1, 158;
      }
      FrontierIsSlots(cur);
      FrontierIsSlots(total);
      BuiltAt(Value(), disk.view, all, n, 157);
      FillIndirect2(cur / 128, cur % 128, total / 128, total % 128, newBlocks, disk, all, used);
    }

    /** Grows the inode to newSize with exactly the blocks it needs: all of them are consumed, in slot
        order, behind the blocks already owned, and only index blocks are written. */
    method IncreaseSize(newSize: nat, newBlocks: seq<nat>, disk: BlockCacheManager, ghost own: seq<nat>)
      requires WellFormed(Value()) && size <= newSize && DataBlocks(newSize) <= MAX_DATA_BLOCKS
      requires own == Owned(Value(), disk.view)
      requires |newBlocks| == TotalBlocks(newSize) - TotalBlocks(size)
      requires Usable(own + newBlocks, disk)
      modifies this, disk
      ensures Usable(own + newBlocks, disk) && disk.held == old(disk.held)
      ensures size == newSize && kind == old(kind) && WellFormed(Value())
      ensures Owned(Value(), disk.view) == own + newBlocks
      ensures SameExcept(old(disk.view), disk.view, IndexBlocks(own + newBlocks))
    {
      ghost var all := own + newBlocks;
      var current := DataBlocks(size);
      size := newSize;
      var total := DataBlocks(size);
      assert all[..SlotsFor(current)] == own;
      assert newBlocks == all[|all| - |newBlocks|..];
      var cur, used := FillDirect(total, newBlocks, disk, all, current);
      if total <= 28 {
        assert all[..|all|] == all;
        return;
      }
      ghost var m := SlotsFor(cur);
      if cur == 28 {
        Step(Value(), disk.view, all, 28);
        indirect1 := newBlocks[used];
        used, m := used + 1, 29;
      }
      cur, total := cur - 28, total - 28;
      IncreaseIndirect(total, newBlocks, disk, all, cur, used, m);
      assert all[..|all|] == all;
    }

    /** The blocks that the owned list names are this inode's, and can be locked. */
    ghost predicate Owns(own: seq<nat>, disk: BlockCacheManager)
      reads this, disk
    {
      forall k: nat {:trigger Open(k)} ::
        && |direct| == 28 && DataBlocks(size) <= MAX_DATA_BLOCKS
        && Usable(own, disk) && Owned(Value(), disk.view) == own
    }

    lemma OwnsOpens(own: seq<nat>, disk: BlockCacheManager)
      requires Owns(own, disk)
      ensures |direct| == 28 && DataBlocks(size) <= MAX_DATA_BLOCKS
      ensures Usable(own, disk) && Owned(Value(), disk.view) == own
    {
      assert Open(0);
    }

    lemma OwnsValid(own: seq<nat>, disk: BlockCacheManager)
      requires Owns(own, disk)
      ensures disk.Valid()
    {
      assert Open(0);
    }

    /** One round of the loop in read_at: the bytes of one block. */
    method ReadChunk(block: nat, start: nat, stop: nat, buf: array<byte>, at: nat, disk: BlockCacheManager,
                     ghost own: seq<nat>)
      requires Owns(own, disk) && start < stop <= size && stop <= (block + 1) * 512 && block == start / 512
      requires at + (stop - start) <= buf.Length
      modifies disk, buf
      ensures Owns(own, disk) && disk.view == old(disk.view) && disk.held == old(disk.held)
      ensures buf[at..at + (stop - start)] == Content(disk.view, own, size)[start..stop]
      ensures buf[..at] == old(buf[..at])
      ensures forall i :: at + (stop - start) <= i < buf.Length ==> buf[i] == old(buf[i])
    {
      OwnsOpens(own, disk);
      DataBlockOwned(own, DataBlocks(size), block);
      Chunk(disk.view, own, size, start, stop);
      var id := GetBlockId(block, disk, own);
      var data := disk.Read(id);
      CopyFromSlice(buf, at, data[start % 512..start % 512 + (stop - start)]);
    }

    /** The bytes of one block behind those that are in the buffer already. */
    method ReadOn(ghost offset: nat, block: nat, start: nat, stop: nat, buf: array<byte>, n: nat,
                  disk: BlockCacheManager, ghost own: seq<nat>, ghost content: seq<byte>)
      requires Owns(own, disk) && start < stop <= size && stop <= (block + 1) * 512 && block == start / 512
      requires n + (stop - start) <= buf.Length && offset + n == start && content == Content(disk.view, own, size)
      requires buf[..n] == content[offset..start]
      modifies disk, buf
      ensures Owns(own, disk) && disk.view == old(disk.view) && disk.held == old(disk.held)
      ensures buf[..n + (stop - start)] == content[offset..stop]
      ensures forall i :: n + (stop - start) <= i < buf.Length ==> buf[i] == old(buf[i])
    {
      ReadChunk(block, start, stop, buf, n, disk, own);
      Join(buf[..], 0, n, n + (stop - start));
      Join(content, offset, start, stop);
    }

    /** Reads the stored bytes from offset on, as many as the buffer takes and the file has. */
    method ReadAt(offset: nat, buf: array<byte>, disk: BlockCacheManager, ghost own: seq<nat>) returns (n: nat)
      requires Owns(own, disk)
      modifies disk, buf
      ensures disk.Valid() && disk.view == old(disk.view) && disk.held == old(disk.held)
      ensures n == if offset >= size then 0 else if offset + buf.Length < size then buf.Length else size - offset
      ensures n > 0 ==> buf[..n] == Content(disk.view, own, size)[offset..offset + n]
      ensures buf[n..] == old(buf[n..])
    {
      OwnsValid(own, disk);
      ghost var content := Content(disk.view, own, size);
      var end := if offset + buf.Length < size then offset + buf.Length else size;
      n := 0;
      if offset >= end {
        return;
      }
      var start, block := offset, offset / 512;
      while start < end
        invariant offset + n == start <= end && (start < end ==> block == start / 512)
        invariant Owns(own, disk) && disk.view == old(disk.view) && disk.held == old(disk.held)
        invariant buf[..n] == content[offset..start]
        invariant forall i :: n <= i < buf.Length ==> buf[i] == old(buf[i])
      {
        var stop := ChunkEnd(start, end);
        ReadOn(offset, block, start, stop, buf, n, disk, own, content);
        n, block, start := n + (stop - start), block + 1, stop;
      }
      OwnsValid(own, disk);
    }

    /** All bytes of this inode's data blocks, as the disk holds them. */
    ghost function Stored(own: seq<nat>, disk: BlockCacheManager): (s: seq<byte>)
      reads this, disk
      ensures |s| == 512 * DataBlocks(size)
    {
      Raw(disk.view, own, DataBlocks(size))
    }

    /** The first n bytes of buf are laid over raw; sealed like Owns. */
    ghost predicate Progress(own: seq<nat>, disk: BlockCacheManager, raw: seq<byte>, offset: nat, buf: seq<byte>,
                             n: nat)
      reads this, disk
    {
      forall k: nat {:trigger Open(k)} ::
        && |raw| == 512 * DataBlocks(size) && n <= |buf| && offset + n <= |raw|
        && Stored(own, disk) == Splice(raw, offset, buf[..n])
    }

    /** Sealed. */
    ghost predicate Made(mid: seq<byte>, raw: seq<byte>, offset: nat, buf: seq<byte>, n: nat) {
      forall k: nat {:trigger Open(k)} :: offset + n <= |raw| && n <= |buf| && mid == Splice(raw, offset, buf[..n])
    }

    lemma ProgressMade(own: seq<nat>, disk: BlockCacheManager, raw: seq<byte>, offset: nat, buf: seq<byte>, n: nat)
      requires Progress(own, disk, raw, offset, buf, n)
      ensures |raw| == 512 * DataBlocks(size) && n <= |buf| && offset + n <= |raw|
      ensures Stored(own, disk) == Splice(raw, offset, buf[..n])
    {
      assert Open(0);
    }

    method WriteBlock(block: nat, start: nat, src: seq<byte>, disk: BlockCacheManager, ghost own: seq<nat>)
      requires Owns(own, disk) && 0 < |src| && start + |src| <= size && start + |src| <= (block + 1) * 512
      requires block == start / 512
      modifies disk
      ensures Owns(own, disk) && disk.held == old(disk.held)
      ensures Stored(own, disk) == Splice(old(Stored(own, disk)), start, src)
      ensures SameExcept(old(disk.view), disk.view, DataBlockSet(own))
    {
      OwnsOpens(own, disk);
      DataBlockOwned(own, DataBlocks(size), block);
      WriteEffect(Value(), disk.view, own, block, start, src);
      var id := GetBlockId(block, disk, own);
      PutBytes(disk, id, start % 512, src);
    }

    /** One round of the loop in write_at. */
    method WriteChunk(block: nat, start: nat, stop: nat, buf: seq<byte>, n: nat, disk: BlockCacheManager,
                      ghost own: seq<nat>, ghost raw: seq<byte>, ghost offset: nat)
      requires Owns(own, disk) && start < stop <= size && stop <= (block + 1) * 512 && block == start / 512
      requires n + (stop - start) <= |buf| && offset + n == start && Progress(own, disk, raw, offset, buf, n)
      modifies disk
      ensures Owns(own, disk) && disk.held == old(disk.held)
      ensures Progress(own, disk, raw, offset, buf, n + (stop - start))
      ensures SameExcept(old(disk.view), disk.view, DataBlockSet(own))
    {
      ghost var mid := Stored(own, disk);
      assert Made(mid, raw, offset, buf, n) by {
        ProgressMade(own, disk, raw, offset, buf, n);
      }
      var src := buf[n..n + (stop - start)];
      WriteBlock(block, start, src, disk, own);
      Advance(own, disk, raw, offset, buf, n, start, src, mid);
    }

    lemma Advance(own: seq<nat>, disk: BlockCacheManager, raw: seq<byte>, offset: nat, buf: seq<byte>, n: nat,
                  start: nat, src: seq<byte>, mid: seq<byte>)
      requires Made(mid, raw, offset, buf, n) && |mid| == 512 * DataBlocks(size) && n + |src| <= |buf|
      requires start == offset + n && src == buf[n..n + |src|] && start + |src| <= |mid|
      requires Stored(own, disk) == Splice(mid, start, src)
      ensures Progress(own, disk, raw, offset, buf, n + |src|)
    {
      assert Open(0);
      SpliceTwice(raw, offset, buf, n, start, |src|);
    }

    lemma Begin(own: seq<nat>, disk: BlockCacheManager, offset: nat, buf: seq<byte>)
      requires offset < size
      ensures Progress(own, disk, Stored(own, disk), offset, buf, 0)
    {
      assert Splice(Stored(own, disk), offset, []) == Stored(own, disk);
    }

    /** Lays buf over the file from offset on, up to the end of the file; only data blocks are written. */
    method WriteAt(offset: nat, buf: seq<byte>, disk: BlockCacheManager, ghost own: seq<nat>) returns (n: nat)
      requires Owns(own, disk) && 0 < |buf| && offset < size
      modifies disk
      ensures Owns(own, disk) && disk.held == old(disk.held)
      ensures n == (if offset + |buf| < size then |buf| else size - offset)
      ensures Stored(own, disk) == Splice(old(Stored(own, disk)), offset, buf[..n])
      ensures SameExcept(old(disk.view), disk.view, DataBlockSet(own))
    {
      ghost var raw := Stored(own, disk);
      Begin(own, disk, offset, buf);
      var end := if offset + |buf| < size then offset + |buf| else size;
      n := 0;
      var start, block := offset, offset / 512;
      while start < end
        invariant offset + n == start <= end && (start < end ==> block == start / 512)
        invariant Owns(own, disk) && disk.held == old(disk.held)
        invariant Progress(own, disk, raw, offset, buf, n)
        invariant SameExcept(old(disk.view), disk.view, DataBlockSet(own))
      {
        var stop := ChunkEnd(start, end);
        ghost var v := disk.view;
        WriteChunk(block, start, stop, buf, n, disk, own, raw, offset);
        SameOn(old(disk.view), v, disk.view, DataBlockSet(own));
        n, block, start := n + (stop - start), block + 1, stop;
      }
      ProgressMade(own, disk, raw, offset, buf, n);
    }

    /** The first `count` direct blocks are pushed and cleared. */
    method ClearDirect(count: nat, disk: BlockCacheManager, ghost ino: Ino, ghost own: seq<nat>) returns (v: seq<nat>)
      requires |direct| == 28 && direct == ino.direct && count <= 28 && count <= |own|
      requires own == Slots(ino, disk.view, |own|)
      requires forall k :: 0 <= k < 28 ==> direct[k] < U32_LIMIT
      modifies this`direct
      ensures v == own[..count] && |direct| == 28 && forall k :: 0 <= k < 28 ==> direct[k] < U32_LIMIT
    {
      v := [];
      var current := 0;
      while current < count
        invariant current <= count && |direct| == 28 && v == own[..current]
        invariant forall k :: 0 <= k < 28 ==> direct[k] == if k < current then 0 else ino.direct[k]
      {
        assert own[current] == Lookup(ino, disk.view, current);
        v := v + [direct[current]];
        direct := direct[current := 0];
        current := current + 1;
      }
    }

    /** Empties the inode and hands back precisely the blocks it owned, each once, in slot order. */
    method ClearSize(disk: BlockCacheManager, ghost own: seq<nat>) returns (v: seq<nat>)
      requires WellFormed(Value()) && DataBlocks(size) <= MAX_DATA_BLOCKS
      requires own == Owned(Value(), disk.view) && Usable(own, disk)
      modifies this, disk
      ensures disk.Valid() && disk.view == old(disk.view) && disk.held == old(disk.held)
      ensures v == own && |v| == TotalBlocks(old(size))
      ensures size == 0 && kind == old(kind) && WellFormed(Value())
    {
      ghost var ino := Value();
      var data := DataBlocks(size);
      size := 0;
      v := ClearDirect(if data < 28 then data else 28, disk, ino, own);
      if data <= 28 {
        assert own[..|own|] == own;
        return;
      }
      assert own[28] == Lookup(ino, disk.view, 28);
      v := v + [indirect1];
      data := data - 28;
      v := PushEntries(indirect1, if data < 128 then data else 128, v, disk, ino, own);
      indirect1 := 0;
      if data <= 128 {
        return;
      }
      assert own[157] == Lookup(ino, disk.view, 157);
      v := v + [indirect2];
      data := data - 128;
      FrontierIsSlots(data);
      v := PushSubBlocks(indirect2, data / 128, data % 128, v, disk, ino, own);
      indirect2 := 0;
    }
  }

  /** The first `count` entries of index block b, read under its lock and pushed onto v. */
  method PushEntries(b: nat, count: nat, v: seq<nat>, disk: BlockCacheManager, ghost ino: Ino, ghost own: seq<nat>)
    returns (w: seq<nat>)
    requires disk.Valid() && b < |disk.view| && b !in disk.held && |disk.held| < disk.depth && count <= 128
    requires |ino.direct| == 28 && |v| + count <= |own| && v == own[..|v|]
    requires forall j :: 0 <= j < count ==> own[|v| + j] == U32(disk.view[b], j)
    modifies disk
    ensures disk.Valid() && disk.view == old(disk.view) && disk.held == old(disk.held)
    ensures w == own[..|v| + count]
  {
    w := v;
    var data := disk.Acquire(b);
    var j := 0;
    while j < count
      invariant j <= count && w == own[..|v| + j]
    {
      w := w + [U32(data, j)];
      j := j + 1;
    }
    disk.Modify(b, data);
    disk.Release(b);
  }

  /** Sub-blocks 0..a1 of the double-indirect block b with all their entries, then b1 entries of sub-block a1. */
  method PushSubBlocks(b: nat, a1: nat, b1: nat, v: seq<nat>, disk: BlockCacheManager, ghost ino: Ino,
                       ghost own: seq<nat>)
    returns (w: seq<nat>)
    requires Usable(own, disk) && |ino.direct| == 28 && own == Slots(ino, disk.view, |own|)
    requires |own| == Frontier(a1, b1) && b1 < 128 && a1 <= 128 && (a1 == 128 ==> b1 == 0)
    requires v == own[..158] && b == ino.indirect2 == own[157]
    modifies disk
    ensures disk.Valid() && disk.view == old(disk.view) && disk.held == old(disk.held)
    ensures w == own
  {
    w := v;
    var data := disk.Acquire(b);
    var i: nat := 0;
    while i < a1
      invariant i <= a1 && |own| >= 158 + 129 * i && w == own[..158 + 129 * i]
      invariant disk.Valid() && disk.view == old(disk.view) && disk.held == old(disk.held) + {b}
    {
      w := PushSubBlock(U32(data, i), i, 128, w, disk, ino, own, b);
      i := i + 1;
    }
    if b1 > 0 {
      w := PushSubBlock(U32(data, a1), a1, b1, w, disk, ino, own, b);
    }
    assert own[..|own|] == own;
    disk.Modify(b, data);
    disk.Release(b);
  }

  method PushSubBlock(sub: nat, a: nat, count: nat, v: seq<nat>, disk: BlockCacheManager, ghost ino: Ino,
                      ghost own: seq<nat>, ghost b: nat) returns (w: seq<nat>)
    requires disk.Valid() && |disk.held| < disk.depth && |own| <= MAX_SLOTS && Below(own, |disk.view|) && Distinct(own)
    requires forall k :: 0 <= k < |own| && k != 157 ==> own[k] !in disk.held
    requires |ino.direct| == 28 && own == Slots(ino, disk.view, |own|) && b == ino.indirect2 < |disk.view|
    requires a < 128 && 0 < count <= 128 && 159 + 129 * a + count <= |own|
    requires v == own[..158 + 129 * a] && sub == U32(disk.view[b], a)
    modifies disk
    ensures disk.Valid() && disk.view == old(disk.view) && disk.held == old(disk.held)
    ensures w == own[..159 + 129 * a + count]
  {
    SubBlockNext(ino, disk.view, own, a, count, v, sub);
    w := PushEntries(sub, count, v + [sub], disk, ino, own);
  }

  lemma {:induction false} SubBlockNext(ino: Ino, v: seq<Block>, own: seq<nat>, a: nat, count: nat, so: seq<nat>,
                                        sub: nat)
    requires |own| <= MAX_SLOTS && Below(own, |v|) && |ino.direct| == 28 && own == Slots(ino, v, |own|)
    requires ino.indirect2 < |v| && a < 128 && 0 < count <= 128 && 159 + 129 * a + count <= |own|
    requires so == own[..158 + 129 * a] && sub == U32(v[ino.indirect2], a)
    ensures sub == own[158 + 129 * a] < |v| && so + [sub] == own[..159 + 129 * a]
    ensures forall j :: 0 <= j < count ==> own[159 + 129 * a + j] == U32(v[sub], j)
  {
    SubBlockEntries(ino, v, own, a, count, 158 + 129 * a);
  }

  /** The first slot that is not filled when sub-blocks a < a0 and b0 entries of sub-block a0 are. */
  function Frontier(a0: nat, b0: nat): nat {
    158 + 129 * a0 + if b0 == 0 then 0 else b0 + 1
  }

  lemma FrontierIsSlots(c: nat)
    ensures Frontier(c / 128, c % 128) == if c == 0 then 158 else SlotsFor(156 + c)
  {
  }

  lemma FrontierGrows(a0: nat, b0: nat, a1: nat, b1: nat)
    requires b0 < 128 && b1 < 128 && (a0 < a1 || (a0 == a1 && b0 < b1))
    ensures Frontier(a0, b0) + (if b0 == 0 then 2 else 1) <= Frontier(a1, b1)
    ensures Frontier(a0, b0) + (if b0 == 0 then 2 else 1)
         == if b0 == 127 then Frontier(a0 + 1, 0) else Frontier(a0, b0 + 1)
    ensures var m := Frontier(a0, b0) + if b0 == 0 then 1 else 0;
      (m - 158) / 129 == a0 && (m - 158) % 129 == b0 + 1
    ensures b0 == 0 ==> (Frontier(a0, b0) - 158) / 129 == a0 && (Frontier(a0, b0) - 158) % 129 == 0
  {
    Div129(a0, b0 + 1);
    Div129(a0, 0);
    assert b0 == 0 ==> Frontier(a0, b0) - 158 == 129 * a0 + 0;
    assert Frontier(a0, b0) + (if b0 == 0 then 1 else 0) - 158 == 129 * a0 + (b0 + 1);
  }

  lemma {:induction false} SubSlot(last: nat)
    ensures var k := DataSlot(156 + last);
      && (k - 158) / 129 == last / 128 && (k - 158) % 129 == last % 128 + 1
      && (last / 128 * 129) / 129 == last / 128 && (last / 128 * 129) % 129 == 0
  {
    var q, r := last / 128, last % 128;
    Div129(q, r + 1);
    Div129(q, 0);
    assert DataSlot(156 + last) - 158 == 129 * q + (r + 1) && q * 129 == 129 * q + 0;
  }
}
