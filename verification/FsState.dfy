/** The invariant of a mounted file system over the flat view of its disk. */
module FsStates {
  import opened Basics
  import opened Bytes
  import opened Bitmaps
  import opened IndexTree
  import opened FileBytes
  import opened Geometries

  /** A place in an index tree: slot k of inode i. */
  datatype Slot = Slot(i: nat, k: nat)

  /** The geometry, the disk, the values of all allocated inodes, the blocks each of them owns in slot
      order, and for every owned block the inode and slot that own it. */
  datatype Fs = Fs(g: Geometry, v: seq<Block>, inos: seq<Ino>, own: seq<seq<nat>>, owner: map<nat, Slot>)

  ghost predicate Layout(f: Fs) {
    && f.g.Sound() && f.g.total <= |f.v| <= U32_LIMIT
    && |f.own| == |f.inos| <= f.g.InodeBitmap().Maximum()
  }

  ghost predicate Inode(v: seq<Block>, ino: Ino, own: seq<nat>) {
    && WellFormed(ino) && DataBlocks(ino.size) <= MAX_DATA_BLOCKS
    && own == Owned(ino, v) && ZeroTail(v, own, ino.size)
  }

  /** Every inode is well formed, its index tree lists its blocks, and its last block ends in zeros. */
  ghost predicate Inodes(f: Fs)
    requires Layout(f)
  {
    forall i :: 0 <= i < |f.inos| ==> Inode(f.v, f.inos[i], f.own[i])
  }

  /** The set bits are exactly the allocated inodes, and exactly the owned data blocks. */
  ghost predicate Bits(f: Fs)
    requires Layout(f)
  {
    && Live(f.v, 1, f.g.inodeBitmapBlocks) == Region(0, |f.inos|)
    && Live(f.v, f.g.DataBitmap().start, f.g.dataBitmapBlocks) == BitsOf(f.owner.Keys, f.g.DataAreaStart())
  }

  /** The bit numbers of a set of data blocks. */
  ghost function BitsOf(s: set<nat>, start: nat): set<nat> {
    set b | b in s && b >= start :: b - start
  }

  /** The bitmap bm has exactly the bits of the data blocks in s. */
  ghost predicate Tracks(v: seq<Block>, bm: Bitmap, s: set<nat>, start: nat) {
    && bm.start + bm.blocks <= |v|
    && forall k: nat {:trigger Open(k)} :: Live(v, bm.start, bm.blocks) == BitsOf(s, start)
  }

  ghost predicate InData(g: Geometry, b: nat) {
    g.DataAreaStart() <= b < g.total
  }

  /** Block b lies in the data area and belongs to slot k of inode i and to nothing else. */
  ghost predicate Placed(f: Fs, b: nat, i: nat, k: nat) {
    InData(f.g, b) && b in f.owner && f.owner[b] == Slot(i, k)
  }

  ghost predicate AllPlaced(f: Fs) {
    forall i, k :: 0 <= i < |f.own| && 0 <= k < |f.own[i]| ==> Placed(f, f.own[i][k], i, k)
  }

  /** The recorded owner of block b really has it. */
  ghost predicate Entry(f: Fs, b: nat)
    requires b in f.owner
  {
    var Slot(i, k) := f.owner[b];
    InData(f.g, b) && i < |f.own| && k < |f.own[i]| && f.own[i][k] == b
  }

  ghost predicate AllEntries(f: Fs) {
    forall b :: b in f.owner ==> Entry(f, b)
  }

  /** Every free data block is all zero. */
  ghost predicate FreeZero(f: Fs)
    requires Layout(f)
  {
    forall b: nat :: InData(f.g, b) && b !in f.owner ==> f.v[b] == ZeroBlock()
  }

  /** Data and index blocks that files of the given inodes need. */
  function Used(inos: seq<Ino>): nat {
    if inos == [] then 0 else Used(inos[..|inos| - 1]) + TotalBlocks(inos[|inos| - 1].size)
  }

  /** Everything but the inode table. */
  ghost predicate Core(f: Fs) {
    && |f.own| == |f.inos|
    && forall k: nat {:trigger Open(k)} ::
      && Layout(f) && Opened(f.v[0]) == Some(f.g) && Inodes(f) && Bits(f)
      && AllPlaced(f) && AllEntries(f) && FreeZero(f) && |f.owner| == Used(f.inos)
  }

  /** The inode stored in place i of the inode area. */
  function InoAt(g: Geometry, v: seq<Block>, i: nat): (ino: Ino)
    ensures |ino.direct| == 28
  {
    DecodeIno(if g.InodeBlock(i) < |v| then v[g.InodeBlock(i)] else ZeroBlock(), g.InodeSlot(i))
  }

  /** The inode table on disk holds the inode values, apart from those being edited. */
  ghost predicate Table(f: Fs, open: set<nat>) {
    forall i :: 0 <= i < |f.inos| && i !in open ==> InoAt(f.g, f.v, i) == f.inos[i]
  }

  /** File i as a byte sequence. */
  ghost function FileOf(f: Fs, i: nat): (s: seq<byte>)
    requires i < |f.inos| == |f.own|
    ensures |s| == f.inos[i].size
  {
    Content(f.v, f.own[i], f.inos[i].size)
  }

  // ----- consequences

  lemma {:induction false} UsedUpdate(inos: seq<Ino>, i: nat, ino: Ino)
    requires i < |inos|
    ensures Used(inos[i := ino]) == Used(inos) - TotalBlocks(inos[i].size) + TotalBlocks(ino.size)
    ensures Used(inos) >= TotalBlocks(inos[i].size)
  {
    var n := |inos| - 1;
    if i == n {
      assert inos[i := ino][..n] == inos[..n];
    } else {
      assert inos[i := ino][..n] == inos[..n][i := ino];
      UsedUpdate(inos[..n], i, ino);
    }
  }

  lemma LayoutOf(f: Fs)
    requires Core(f)
    ensures Layout(f)
  {
    assert Open(0);
  }

  lemma UsedIsCounted(f: Fs)
    requires Core(f)
    ensures |f.owner| == Used(f.inos)
  {
    assert Open(0);
  }

  lemma InDisk(f: Fs, b: nat)
    requires Core(f) && b < f.g.total
    ensures b < |f.v|
  {
    LayoutOf(f);
  }

  lemma InodeIsSound(f: Fs, i: nat)
    requires Core(f) && i < |f.inos|
    ensures Inode(f.v, f.inos[i], f.own[i])
  {
    assert Open(0);
  }

  lemma BlockIsPlaced(f: Fs, i: nat, k: nat)
    requires Core(f) && i < |f.inos| && k < |f.own[i]|
    ensures Placed(f, f.own[i][k], i, k)
  {
    assert Open(0);
  }

  lemma OwnerEntry(f: Fs, b: nat)
    requires Core(f) && b in f.owner
    ensures Entry(f, b)
  {
    assert Open(0);
  }

  lemma FreeIsZero(f: Fs, b: nat)
    requires Core(f) && InData(f.g, b) && b !in f.owner
    ensures b < |f.v| && f.v[b] == ZeroBlock()
  {
    assert Open(0);
  }

  /** The blocks of one inode are in the data area and pairwise distinct. */
  lemma OwnIsSound(f: Fs, i: nat)
    requires Core(f) && i < |f.inos|
    ensures Below(f.own[i], |f.v|) && Distinct(f.own[i]) && |f.own[i]| <= MAX_SLOTS
    ensures |f.own[i]| == TotalBlocks(f.inos[i].size)
    ensures forall k :: 0 <= k < |f.own[i]| ==> Placed(f, f.own[i][k], i, k)
  {
    LayoutOf(f);
    InodeIsSound(f, i);
    forall k | 0 <= k < |f.own[i]| ensures Placed(f, f.own[i][k], i, k) {
      BlockIsPlaced(f, i, k);
    }
    if DataBlocks(f.inos[i].size) > 0 {
      SlotsForNext(DataBlocks(f.inos[i].size) - 1);
    }
  }

  /** A disk that agrees on all blocks of inode i holds the same inode and the same file. */
  lemma InodeFrame(f: Fs, w: seq<Block>, i: nat)
    requires Core(f) && i < |f.inos| && |w| == |f.v|
    requires forall k :: 0 <= k < |f.own[i]| ==> f.own[i][k] < |w| && w[f.own[i][k]] == f.v[f.own[i][k]]
    ensures Inode(w, f.inos[i], f.own[i])
    ensures Content(w, f.own[i], f.inos[i].size) == FileOf(f, i)
  {
    OwnIsSound(f, i);
    InodeIsSound(f, i);
    SlotsFrame(f.inos[i], f.v, w, |f.own[i]|);
    RawFrame(f.v, w, f.own[i], DataBlocks(f.inos[i].size));
  }
}
