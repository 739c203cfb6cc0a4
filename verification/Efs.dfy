/** The block manager: allocation and release of inodes and data blocks on a laid-out disk. */
module Efs {
  import opened Basics
  import opened Bytes
  import opened BlockCaching
  import opened Bitmaps
  import opened Geometries
  import opened FsStates
  import opened FsGrowth

  class EasyFileSystem {
    const disk: BlockCacheManager
    const inodeBitmap: Bitmap
    const dataBitmap: Bitmap
    const inodeAreaStart: nat
    const dataAreaStart: nat

    /** Both `create` and `open` build the manager from the geometry alone. */
    constructor (disk: BlockCacheManager, g: Geometry)
      ensures this.disk == disk && Matches(g)
    {
      this.disk := disk;
      inodeBitmap, dataBitmap := g.InodeBitmap(), g.DataBitmap();
      inodeAreaStart, dataAreaStart := g.InodeAreaStart(), g.DataAreaStart();
    }

    ghost predicate Matches(g: Geometry) {
      && inodeBitmap == g.InodeBitmap() && dataBitmap == g.DataBitmap()
      && inodeAreaStart == g.InodeAreaStart() && dataAreaStart == g.DataAreaStart()
    }

    /** unwrap on the inode bitmap needs a free inode. */
    method AllocInode() returns (id: nat)
      requires inodeBitmap.Fits(disk)
      requires |Live(disk.view, inodeBitmap.start, inodeBitmap.blocks)| < inodeBitmap.Maximum()
      modifies disk
      ensures inodeBitmap.Fits(disk) && disk.held == old(disk.held) && id < inodeBitmap.Maximum()
      ensures SameExcept(old(disk.view), disk.view, Region(inodeBitmap.start, inodeBitmap.blocks))
      ensures LeastFree(Live(old(disk.view), inodeBitmap.start, inodeBitmap.blocks), id)
      ensures Live(disk.view, inodeBitmap.start, inodeBitmap.blocks)
           == Live(old(disk.view), inodeBitmap.start, inodeBitmap.blocks) + {id}
    {
      ghost var v := disk.view;
      id := inodeBitmap.AllocOne(disk);
      TookOpens(v, disk.view, inodeBitmap, id);
    }

    /** Returns a block number on the device, not a bit number; unwrap needs a free bit. */
    method AllocData() returns (b: nat)
      requires dataBitmap.Fits(disk)
      requires |Live(disk.view, dataBitmap.start, dataBitmap.blocks)| < dataBitmap.Maximum()
      modifies disk
      ensures dataBitmap.Fits(disk) && disk.held == old(disk.held) && b >= dataAreaStart
      ensures SameExcept(old(disk.view), disk.view, Region(dataBitmap.start, dataBitmap.blocks))
      ensures TookLeast(old(disk.view), disk.view, dataBitmap, b - dataAreaStart)
    {
      var n := dataBitmap.AllocOne(disk);
      b := n + dataAreaStart;
    }

    /** The block is zeroed and its bit cleared; the bit has to be set. */
    method DeallocData(b: nat)
      requires dataBitmap.Fits(disk) && dataAreaStart <= b < |disk.view| && b !in disk.held
      requires dataBitmap.start + dataBitmap.blocks <= dataAreaStart
      requires b - dataAreaStart in Live(disk.view, dataBitmap.start, dataBitmap.blocks)
      modifies disk
      ensures dataBitmap.Fits(disk) && disk.held == old(disk.held)
      ensures SameExcept(old(disk.view), disk.view, Region(dataBitmap.start, dataBitmap.blocks) + {b})
      ensures b < |disk.view| && disk.view[b] == ZeroBlock()
      ensures Live(disk.view, dataBitmap.start, dataBitmap.blocks)
           == Live(old(disk.view), dataBitmap.start, dataBitmap.blocks) - {b - dataAreaStart}
    {
      ghost var v := disk.view;
      disk.Write(b, ZeroBlock());
      LiveFrame(v, disk.view, dataBitmap.start, dataBitmap.blocks);
      dataBitmap.Dealloc(disk, b - dataAreaStart);
    }

    // ----- taking the blocks for a growing inode

    /** While fewer than dataAreaBlocks blocks are live, the next block lies inside the data area. */
    method TakeBlock(ghost g: Geometry, ghost used: set<nat>) returns (b: nat)
      requires Matches(g) && Ready(g) && |used| < g.dataAreaBlocks && Tracks(disk.view, dataBitmap, used, dataAreaStart)
      modifies disk
      ensures Ready(g) && disk.held == old(disk.held) && |disk.view| == |old(disk.view)|
      ensures InData(g, b) && b !in used && Tracks(disk.view, dataBitmap, used + {b}, dataAreaStart)
      ensures SameExcept(old(disk.view), disk.view, DataBitmapRegion(g))
    {
      RoomLeft(g, used);
      ghost var v := disk.view;
      b := AllocData();
      BlockTaken(g, used, v, b);
    }

    lemma BlockTaken(g: Geometry, used: set<nat>, v: seq<Block>, b: nat)
      requires Matches(g) && g.Sound() && g.total <= |v| && |used| < g.dataAreaBlocks && dataBitmap.Fits(disk)
      requires Tracks(v, dataBitmap, used, dataAreaStart) && b >= dataAreaStart
      requires TookLeast(v, disk.view, dataBitmap, b - dataAreaStart)
      ensures Ready(g) && InData(g, b) && b !in used && Tracks(disk.view, dataBitmap, used + {b}, dataAreaStart)
    {
      NextBlock(v, disk.view, dataBitmap, used, dataAreaStart, b);
      WithinData(g, used, b);
    }

    lemma RoomLeft(g: Geometry, used: set<nat>)
      requires Matches(g) && Ready(g) && |used| < g.dataAreaBlocks && Tracks(disk.view, dataBitmap, used, dataAreaStart)
      ensures dataBitmap.Fits(disk) && |Live(disk.view, dataBitmap.start, dataBitmap.blocks)| < dataBitmap.Maximum()
      ensures g.Sound() && g.total <= |disk.view|
    {
      ReadyOpens(g);
      LiveSize(disk.view, dataBitmap, used, dataAreaStart);
    }

    lemma WithinData(g: Geometry, used: set<nat>, b: nat)
      requires Matches(g) && g.Sound() && b >= dataAreaStart && b - dataAreaStart <= |used| < g.dataAreaBlocks
      ensures InData(g, b)
    {
    }

    lemma ReadyOpens(g: Geometry)
      requires Ready(g)
      ensures g.Sound() && g.total <= |disk.view| && dataBitmap.Fits(disk)
    {
      assert Open(0);
    }

    /** The loop of Inode::increase_size: `count` fresh blocks, pairwise distinct and owned by nobody. */
    method TakeBlocks(count: nat, ghost f: Fs, ghost id: nat) returns (nb: seq<nat>, ghost owner: map<nat, Slot>)
      requires Matches(f.g) && Ready(f.g) && disk.view == f.v && id < |f.own|
      requires Tracks(f.v, dataBitmap, f.owner.Keys, dataAreaStart)
      requires |f.owner| + count <= f.g.dataAreaBlocks
      modifies disk
      ensures Ready(f.g) && disk.held == old(disk.held) && |nb| == count
      ensures SameExcept(f.v, disk.view, DataBitmapRegion(f.g))
      ensures Claimed(f, owner, id, |f.own[id]|, nb) && |owner| == |f.owner| + count
      ensures Tracks(disk.view, dataBitmap, owner.Keys, dataAreaStart)
    {
      nb, owner := [], f.owner;
      ClaimNone(f, id, |f.own[id]|);
      while |nb| < count
        invariant |nb| <= count && Ready(f.g) && disk.held == old(disk.held)
        invariant SameExcept(f.v, disk.view, DataBitmapRegion(f.g))
        invariant Claimed(f, owner, id, |f.own[id]|, nb) && |owner| == |f.owner| + |nb|
        invariant Tracks(disk.view, dataBitmap, owner.Keys, dataAreaStart)
      {
        var b := TakeBlock(f.g, owner.Keys);
        owner := ClaimOne(f, owner, id, |f.own[id]|, nb, b);
        nb := nb + [b];
      }
    }

    /** dealloc_data on a block in use: the bit it clears is set, so its assertion holds. */
    method FreeBlock(b: nat, ghost g: Geometry, ghost used: set<nat>, ghost v: seq<Block>, ghost done: set<nat>)
      requires Matches(g) && Ready(g) && Tracks(disk.view, dataBitmap, used, dataAreaStart)
      requires InData(g, b) && b in used && b !in disk.held && Freed(v, disk.view, g, done)
      modifies disk
      ensures Ready(g) && disk.held == old(disk.held) && |disk.view| == |old(disk.view)|
      ensures Tracks(disk.view, dataBitmap, used - {b}, dataAreaStart) && Freed(v, disk.view, g, done + {b})
    {
      assert Open(0);
      BitIsLive(disk.view, dataBitmap, used, dataAreaStart, b);
      DeallocData(b);
      LastBlock(old(disk.view), disk.view, dataBitmap, used, dataAreaStart, b);
      FreedOne(v, old(disk.view), disk.view, g, done, b);
    }

    /** The loop of clear: every block of the list is zeroed and its bit cleared. */
    method GiveBack(list: seq<nat>, ghost f: Fs)
      requires Matches(f.g) && Ready(f.g) && disk.view == f.v && Tracks(f.v, dataBitmap, f.owner.Keys, dataAreaStart)
      requires Distinct(list) && forall k :: 0 <= k < |list| ==> Returnable(f, list[k], disk.held)
      modifies disk
      ensures Ready(f.g) && disk.held == old(disk.held) && |disk.view| == |f.v|
      ensures Freed(f.v, disk.view, f.g, Elements(list))
      ensures Tracks(disk.view, dataBitmap, f.owner.Keys - Elements(list), dataAreaStart)
    {
      var j := 0;
      FreedNone(f.v, f.g, list);
      assert f.owner.Keys - Elements(list[..0]) == f.owner.Keys;
      while j < |list|
        invariant j <= |list| && Ready(f.g) && disk.held == old(disk.held) && |disk.view| == |f.v|
        invariant Freed(f.v, disk.view, f.g, Elements(list[..j]))
        invariant Tracks(disk.view, dataBitmap, f.owner.Keys - Elements(list[..j]), dataAreaStart)
      {
        NextOfList(list, j, f.owner.Keys);
        assert Returnable(f, list[j], disk.held);
        FreeBlock(list[j], f.g, f.owner.Keys - Elements(list[..j]), f.v, Elements(list[..j]));
        j := j + 1;
      }
      assert list[..j] == list;
    }

    /** The disk is sound, has room for the file system, and no bitmap block is locked. */
    ghost predicate Ready(g: Geometry)
      reads disk
    {
      forall k: nat {:trigger Open(k)} :: g.Sound() && g.total <= |disk.view| && dataBitmap.Fits(disk)
    }
  }

  ghost predicate Returnable(f: Fs, b: nat, held: set<nat>) {
    InData(f.g, b) && b in f.owner && b !in held
  }

  /** w is v after the blocks in `done` were zeroed and data bitmap blocks changed. */
  ghost predicate Freed(v: seq<Block>, w: seq<Block>, g: Geometry, done: set<nat>) {
    forall k: nat {:trigger Open(k)} ::
      && SameExcept(v, w, DataBitmapRegion(g) + done)
      && forall b :: b in done ==> InData(g, b) && b < |w| && w[b] == ZeroBlock()
  }

  lemma FreedNone(v: seq<Block>, g: Geometry, list: seq<nat>)
    ensures Freed(v, v, g, Elements(list[..0]))
  {
  }

  lemma FreedOne(v: seq<Block>, u: seq<Block>, w: seq<Block>, g: Geometry, done: set<nat>, b: nat)
    requires Freed(v, u, g, done) && InData(g, b) && b < |w| && w[b] == ZeroBlock()
    requires SameExcept(u, w, DataBitmapRegion(g) + {b})
    ensures Freed(v, w, g, done + {b})
  {
    assert Open(0);
  }

  lemma BitIsLive(v: seq<Block>, bm: Bitmap, s: set<nat>, start: nat, b: nat)
    requires Tracks(v, bm, s, start) && b in s && b >= start
    ensures b - start in Live(v, bm.start, bm.blocks)
  {
    assert Live(v, bm.start, bm.blocks) == BitsOf(s, start) by {
      assert Open(0);
    }
    BitsOfIn(s, start, b - start);
  }

  lemma LastBlock(v: seq<Block>, w: seq<Block>, bm: Bitmap, s: set<nat>, start: nat, b: nat)
    requires Tracks(v, bm, s, start) && |w| == |v| && b >= start && b in s
    requires Live(w, bm.start, bm.blocks) == Live(v, bm.start, bm.blocks) - {b - start}
    ensures Tracks(w, bm, s - {b}, start)
  {
    assert Live(v, bm.start, bm.blocks) == BitsOf(s, start) by {
      assert Open(0);
    }
    BitsOfRemove(s, start, b);
  }

  lemma BitsOfRemove(s: set<nat>, start: nat, b: nat)
    requires b >= start
    ensures BitsOf(s - {b}, start) == BitsOf(s, start) - {b - start}
  {
    forall x: nat ensures x in BitsOf(s - {b}, start) <==> x in BitsOf(s, start) - {b - start} {
      BitsOfIn(s - {b}, start, x);
      BitsOfIn(s, start, x);
    }
  }

  lemma NextOfList(list: seq<nat>, j: nat, s: set<nat>)
    requires j < |list| && Distinct(list)
    ensures list[j] !in Elements(list[..j]) && Elements(list[..j + 1]) == Elements(list[..j]) + {list[j]}
    ensures s - Elements(list[..j + 1]) == s - Elements(list[..j]) - {list[j]}
  {
    assert list[..j + 1] == list[..j] + [list[j]];
    forall x ensures x in Elements(list[..j + 1]) <==> x in Elements(list[..j]) + {list[j]} {
      if x in Elements(list[..j]) {
        var k :| 0 <= k < j && list[..j][k] == x;
        assert list[..j + 1][k] == x;
      }
      if x == list[j] {
        assert list[..j + 1][j] == x;
      }
    }
  }

  lemma ClaimNone(f: Fs, id: nat, k0: nat)
    ensures Claimed(f, f.owner, id, k0, [])
  {
  }

  lemma ClaimOne(f: Fs, owner: map<nat, Slot>, id: nat, k0: nat, nb: seq<nat>, b: nat) returns (after: map<nat, Slot>)
    requires Claimed(f, owner, id, k0, nb) && InData(f.g, b) && b !in owner
    ensures Claimed(f, after, id, k0, nb + [b]) && |after| == |owner| + 1 && after.Keys == owner.Keys + {b}
  {
    assert Open(0);
    var all := nb + [b];
    after := owner[b := Slot(id, k0 + |nb|)];
    assert after.Keys == owner.Keys + {b};
    forall j | 0 <= j < |all| ensures ClaimedBlock(f, after, id, k0 + j, all[j]) {
      if j < |nb| {
        assert ClaimedBlock(f, owner, id, k0 + j, nb[j]);
      }
    }
    assert all[|nb|] == b;
  }

  lemma LiveSize(v: seq<Block>, bm: Bitmap, s: set<nat>, start: nat)
    requires Tracks(v, bm, s, start)
    ensures |Live(v, bm.start, bm.blocks)| <= |s|
  {
    assert Open(0);
    BitsOfSize(s, start);
  }

  /** The least free bit belongs to a block that is not in use, and is at most the number of blocks in use. */
  lemma NextBlock(v: seq<Block>, w: seq<Block>, bm: Bitmap, s: set<nat>, start: nat, b: nat)
    requires Tracks(v, bm, s, start) && b >= start && TookLeast(v, w, bm, b - start)
    ensures b - start <= |s| && b !in s && Tracks(w, bm, s + {b}, start)
  {
    assert Live(v, bm.start, bm.blocks) == BitsOf(s, start) && LeastFree(Live(v, bm.start, bm.blocks), b - start)
      && Live(w, bm.start, bm.blocks) == Live(v, bm.start, bm.blocks) + {b - start} by {
      assert Open(0);
    }
    NextBit(s, start, b);
  }

  lemma NextBit(s: set<nat>, start: nat, b: nat)
    requires b >= start && LeastFree(BitsOf(s, start), b - start)
    ensures b - start <= |s| && b !in s && BitsOf(s + {b}, start) == BitsOf(s, start) + {b - start}
  {
    BitsOfSize(s, start);
    LeastFreeIsSmall(BitsOf(s, start), b - start);
    BitsOfAdd(s, start, b);
  }

  lemma BitsOfIn(s: set<nat>, start: nat, x: nat)
    ensures x in BitsOf(s, start) <==> x + start in s
  {
    if x + start in s {
      var b := x + start;
      assert b in s && b >= start && b - start == x;
    }
  }

  lemma BitsOfAdd(s: set<nat>, start: nat, b: nat)
    requires b >= start
    ensures BitsOf(s + {b}, start) == BitsOf(s, start) + {b - start}
    ensures b in s <==> b - start in BitsOf(s, start)
  {
    forall x: nat ensures x in BitsOf(s + {b}, start) <==> x in BitsOf(s, start) + {b - start} {
      BitsOfIn(s + {b}, start, x);
      BitsOfIn(s, start, x);
    }
    BitsOfIn(s, start, b - start);
  }

  lemma {:induction false} BitsOfSize(s: set<nat>, start: nat)
    ensures |BitsOf(s, start)| <= |s|
    decreases |s|
  {
    if s != {} {
      var b :| b in s;
      var r := s - {b};
      BitsOfSize(r, start);
      assert r + {b} == s;
      if b >= start {
        BitsOfAdd(r, start, b);
      } else {
        forall x: nat ensures x in BitsOf(s, start) <==> x in BitsOf(r, start) {
          BitsOfIn(s, start, x);
          BitsOfIn(r, start, x);
        }
        assert BitsOf(s, start) == BitsOf(r, start);
      }
    }
  }
}
