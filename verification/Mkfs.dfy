/** Creating a file system on a device, and opening one that is there. */
module Mkfs {
  import opened Basics
  import opened Bytes
  import opened BlockCaching
  import opened Bitmaps
  import opened Geometries
  import opened FsStates
  import opened Efs
  import opened Vfs
  import opened Directory

  ghost predicate ZeroUpTo(v: seq<Block>, n: nat) {
    n <= |v| && forall b :: 0 <= b < n ==> v[b] == ZeroBlock()
  }

  /** "clear all blocks": the first `total` blocks become zero, one cache entry at a time. */
  method ClearBlocks(disk: BlockCacheManager, total: nat)
    requires disk.Valid() && disk.held == {} && total <= |disk.view|
    modifies disk
    ensures disk.Valid() && disk.held == {} && |disk.view| == |old(disk.view)| && ZeroUpTo(disk.view, total)
  {
    var i := 0;
    while i < total
      invariant i <= total && disk.Valid() && disk.held == {} && |disk.view| == |old(disk.view)|
      invariant ZeroUpTo(disk.view, i)
    {
      disk.Write(i, ZeroBlock());
      i := i + 1;
    }
  }

  lemma {:induction false} ZeroHasNoBit(k: nat)
    ensures !Bit(0, k)
  {
    if k > 0 {
      ZeroHasNoBit(k - 1);
    }
  }

  /** No bit is set in a zeroed bitmap. */
  lemma {:induction false} NothingLive(v: seq<Block>, start: nat, blocks: nat)
    requires start + blocks <= |v| && forall b :: start <= b < start + blocks ==> v[b] == ZeroBlock()
    ensures Live(v, start, blocks) == {}
  {
    forall i: nat | i < blocks * 4096 ensures !BitAt(v, start, i) {
      assert start <= start + i / 4096 < start + blocks;
      assert U64(ZeroBlock(), i % 4096 / 64) == 0;
      ZeroHasNoBit(i % 64);
    }
  }

  ghost function NoFiles(g: Geometry, v: seq<Block>): Fs {
    Fs(g, v, [], [], map[])
  }

  /** A zeroed disk with a super block is a file system without inodes. */
  lemma {:induction false} ZeroedIsEmpty(g: Geometry, v: seq<Block>)
    requires g.Sound() && g.total <= |v| <= U32_LIMIT && Opened(v[0]) == Some(g)
    requires forall b :: 1 <= b < g.total ==> v[b] == ZeroBlock()
    ensures Settled(NoFiles(g, v))
  {
    NothingLive(v, 1, g.inodeBitmapBlocks);
    NothingLive(v, g.DataBitmap().start, g.dataBitmapBlocks);
  }

  /** EasyFileSystem::create: whatever the device held before, the result is a file system of the planned
      geometry whose only inode is the empty root directory. */
  method Create(disk: BlockCacheManager, total: nat, inodeBitmapBlocks: nat) returns (dir: RootDirectory)
    requires disk.Valid() && disk.held == {} && total <= |disk.view| <= U32_LIMIT && total < U32_LIMIT
    requires inodeBitmapBlocks >= 1 && total >= 1 + inodeBitmapBlocks + inodeBitmapBlocks * 1024
    modifies disk
    ensures fresh(dir) && fresh(dir.fs) && dir.fs.efs.disk == disk && dir.Valid() && dir.names == []
    ensures dir.fs.st.g == Planned(total, inodeBitmapBlocks)
  {
    var g := Planned(total, inodeBitmapBlocks);
    PlannedIsSound(total, inodeBitmapBlocks);
    var efs := new EasyFileSystem(disk, g);
    ClearBlocks(disk, total);
    var data := disk.Acquire(0);
    disk.Modify(0, PutWords(data, 0, SuperWords(g)));
    disk.Release(0);
    OpenRebuilds(data, g);
    ZeroedIsEmpty(g, disk.view);
    var fs := new FileSystem(efs, NoFiles(g, disk.view));
    var id := fs.AddInode(1);
    assert id == 0;
    StartsEmpty(fs.st);
    dir := new RootDirectory(fs, []);
  }

  lemma {:induction false} StartsEmpty(f: Fs)
    requires |f.inos| == |f.own| == 1 && f.inos[0].kind == 1 && f.inos[0].size == 0
    ensures Lists(f, [])
  {
  }

  /** EasyFileSystem::open: the manager rebuilt from block 0 alone fits the file system on the disk. */
  method Reopen(disk: BlockCacheManager, ghost f: Fs, ghost names: seq<Name>) returns (dir: RootDirectory)
    requires disk.Valid() && disk.held == {} && disk.view == f.v && Settled(f) && Lists(f, names)
    modifies disk
    ensures fresh(dir) && fresh(dir.fs) && dir.fs.efs.disk == disk && dir.Valid() && dir.names == names
    ensures dir.fs.st == f
  {
    SuperBlockThere(f);
    var super := disk.Read(0);
    var g := Opened(super).value;
    var efs := new EasyFileSystem(disk, g);
    var fs := new FileSystem(efs, f);
    dir := new RootDirectory(fs, names);
  }

  lemma {:induction false} SuperBlockThere(f: Fs)
    requires Settled(f)
    ensures 0 < |f.v| && Opened(f.v[0]) == Some(f.g)
  {
    assert Open(0);
  }
}
