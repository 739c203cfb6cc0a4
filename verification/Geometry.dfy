/** The five regions of an easy-fs disk: super block, inode bitmap, inodes, data bitmap, data. */
module Geometries {
  import opened Basics
  import opened Bytes
  import opened Bitmaps
  import opened IndexTree

  const EFS_MAGIC := 0x3b80_0001

  datatype Geometry = Geometry(
    total: nat, inodeBitmapBlocks: nat, inodeAreaBlocks: nat, dataBitmapBlocks: nat, dataAreaBlocks: nat)
  {
    function InodeBitmap(): Bitmap { Bitmap(1, inodeBitmapBlocks) }

    function InodeAreaStart(): nat { 1 + inodeBitmapBlocks }

    function DataBitmap(): Bitmap { Bitmap(1 + inodeBitmapBlocks + inodeAreaBlocks, dataBitmapBlocks) }

    function DataAreaStart(): nat { 1 + inodeBitmapBlocks + inodeAreaBlocks + dataBitmapBlocks }

    /** The regions tile [0, total), every inode has a slot and every data block has a bit. */
    ghost predicate Sound() {
      && total < U32_LIMIT && total == DataAreaStart() + dataAreaBlocks
      && inodeBitmapBlocks >= 1 && InodeBitmap().Maximum() == 4 * inodeAreaBlocks
      && dataAreaBlocks <= DataBitmap().Maximum()
    }

    /** get_disk_inode_pos: the block, and the inode's place (0..3) inside it. */
    function InodeBlock(id: nat): nat { InodeAreaStart() + id / 4 }

    function InodeSlot(id: nat): nat { id % 4 }
  }

  /** The split of `create`; it needs room for the super block, the inode bitmap and the inodes. */
  function Planned(total: nat, inodeBitmapBlocks: nat): (g: Geometry)
    requires total >= 1 + inodeBitmapBlocks + inodeBitmapBlocks * 1024
  {
    var inodeArea := (inodeBitmapBlocks * 4096 * 128 + 511) / 512;
    var dataTotal := total - 1 - (inodeBitmapBlocks + inodeArea);
    var dataBitmap := (dataTotal + 4096) / 4097;
    Geometry(total, inodeBitmapBlocks, inodeArea, dataBitmap, dataTotal - dataBitmap)
  }

  /** For every size with enough blocks the regions tile the disk exactly and the data bitmap is large
      enough, with fewer than one bitmap block to spare. */
  lemma PlannedIsSound(total: nat, inodeBitmapBlocks: nat)
    requires inodeBitmapBlocks >= 1 && total < U32_LIMIT
    requires total >= 1 + inodeBitmapBlocks + inodeBitmapBlocks * 1024
    ensures Planned(total, inodeBitmapBlocks).Sound()
    ensures var g := Planned(total, inodeBitmapBlocks);
      g.dataBitmapBlocks > 0 ==> g.dataAreaBlocks + 4096 > g.dataBitmapBlocks * 4096 - 1
  {
    assert (inodeBitmapBlocks * 4096 * 128 + 511) / 512 == inodeBitmapBlocks * 1024;
  }

  /** The split in numbers: 1024 blocks of inodes for each block of their bitmap, one data bitmap block for each 4097 of
      the blocks that are left, and the regions one behind the other. */
  lemma {:induction false} PlannedNumbers(total: nat, inodeBitmapBlocks: nat)
    requires total >= 1 + inodeBitmapBlocks + inodeBitmapBlocks * 1024
    ensures var g := Planned(total, inodeBitmapBlocks);
      var left := total - 1 - 1025 * inodeBitmapBlocks;
      && g.total == total && g.inodeBitmapBlocks == inodeBitmapBlocks && g.inodeAreaBlocks == 1024 * inodeBitmapBlocks
      && 4097 * g.dataBitmapBlocks >= left > 4097 * (g.dataBitmapBlocks - 1)
      && g.dataAreaBlocks == left - g.dataBitmapBlocks
      && g.InodeBitmap().start == 1 && g.InodeAreaStart() == 1 + inodeBitmapBlocks
      && g.DataBitmap().start == 1 + 1025 * inodeBitmapBlocks
      && g.DataAreaStart() == g.DataBitmap().start + g.dataBitmapBlocks
  {
    assert (inodeBitmapBlocks * 4096 * 128 + 511) / 512 == inodeBitmapBlocks * 1024;
  }

  /** get_disk_inode_pos in numbers: four inodes of 128 bytes to a block. */
  lemma {:induction false} InodePlaceIs(g: Geometry, id: nat)
    ensures 4 * (g.InodeBlock(id) - (1 + g.inodeBitmapBlocks)) + g.InodeSlot(id) == id && g.InodeSlot(id) < 4
  {
  }

  /** Different inodes have different places, all inside the inode area. */
  lemma InodePlaces(g: Geometry, i: nat, j: nat)
    requires g.Sound() && i < g.InodeBitmap().Maximum() && j < g.InodeBitmap().Maximum()
    ensures g.InodeAreaStart() <= g.InodeBlock(i) < g.InodeAreaStart() + g.inodeAreaBlocks
    ensures i != j ==> g.InodeBlock(i) != g.InodeBlock(j) || g.InodeSlot(i) != g.InodeSlot(j)
  {
  }

  // ----- super block

  function SuperWords(g: Geometry): seq<nat> {
    [EFS_MAGIC, g.total, g.inodeBitmapBlocks, g.inodeAreaBlocks, g.dataBitmapBlocks, g.dataAreaBlocks]
  }

  /** `open`: the geometry rebuilt from block 0, if the magic number is there. */
  function Opened(super: Block): (r: Option<Geometry>) {
    if U32(super, 0) != EFS_MAGIC then None
    else Some(Geometry(U32(super, 1), U32(super, 2), U32(super, 3), U32(super, 4), U32(super, 5)))
  }

  lemma OpenRebuilds(b: Block, g: Geometry)
    requires g.Sound()
    ensures Opened(PutWords(b, 0, SuperWords(g))) == Some(g)
  {
    var ws := SuperWords(g);
    forall j | 0 <= j < 6 ensures U32(PutWords(b, 0, ws), j) == ws[j] {
      WordsReadBack(b, 0, ws, j);
    }
  }

  /** The super block in words: the magic number, then the total and the four regions in the order of the disk. */
  lemma {:induction false} SuperFormat(b: Block, g: Geometry, j: nat)
    requires g.Sound() && j < 6
    ensures U32(PutWords(b, 0, SuperWords(g)), j)
         == [0x3b80_0001, g.total, g.inodeBitmapBlocks, g.inodeAreaBlocks, g.dataBitmapBlocks, g.dataAreaBlocks][j]
  {
    WordsReadBack(b, 0, SuperWords(g), j);
  }

  // ----- inodes in their blocks

  /** An inode in words: size, 28 direct blocks, the two indirect ones and the type. */
  lemma {:induction false} InodeFormat(b: Block, slot: nat, k: nat)
    requires slot < 4 && k < 28
    ensures var ino := DecodeIno(b, slot);
      && ino.size == U32(b, 32 * slot) && ino.direct[k] == U32(b, 32 * slot + 1 + k)
      && ino.indirect1 == U32(b, 32 * slot + 29) && ino.indirect2 == U32(b, 32 * slot + 30)
      && ino.kind == U32(b, 32 * slot + 31)
  {
  }

  function InoWords(ino: Ino): (ws: seq<nat>)
    requires |ino.direct| == 28
    ensures |ws| == 32
  {
    [ino.size] + ino.direct + [ino.indirect1, ino.indirect2, ino.kind]
  }

  function FromWords(ws: seq<nat>): (ino: Ino)
    requires |ws| == 32
    ensures |ino.direct| == 28
  {
    Ino(ws[0], ws[1..29], ws[29], ws[30], ws[31])
  }

  /** The 32 words of the inode in a given place of an inode block. */
  function InoSlice(b: Block, slot: nat): (ws: seq<nat>)
    requires slot < 4
    ensures |ws| == 32
  {
    seq<nat>(32, j requires 0 <= j < 32 => U32(b, 32 * slot + j))
  }

  function DecodeIno(b: Block, slot: nat): (ino: Ino)
    requires slot < 4
    ensures |ino.direct| == 28
  {
    FromWords(InoSlice(b, slot))
  }

  function EncodeIno(b: Block, slot: nat, ino: Ino): Block
    requires slot < 4 && |ino.direct| == 28
  {
    PutWords(b, 32 * slot, InoWords(ino))
  }

  lemma {:induction false} InoWordsFit(ino: Ino)
    requires WellFormed(ino)
    ensures AllU32(InoWords(ino)) && FromWords(InoWords(ino)) == ino
  {
    var ws := InoWords(ino);
    assert ws[1..29] == ino.direct;
  }

  /** Word j of the inode in place `other`, after 32 words were stored in place `slot`. */
  lemma {:induction false} SlotWord(b: Block, slot: nat, ws: seq<nat>, other: nat, j: nat)
    requires slot < 4 && other < 4 && |ws| == 32 && AllU32(ws) && j < 32
    ensures U32(PutWords(b, 32 * slot, ws), 32 * other + j) == if other == slot then ws[j] else U32(b, 32 * other + j)
  {
    WordsReadBack(b, 32 * slot, ws, 32 * other + j);
    assert 32 * slot <= 32 * other + j < 32 * slot + 32 <==> other == slot;
  }

  lemma {:induction false} SliceAfter(b: Block, slot: nat, ws: seq<nat>, other: nat)
    requires slot < 4 && other < 4 && |ws| == 32 && AllU32(ws)
    ensures InoSlice(PutWords(b, 32 * slot, ws), other) == if other == slot then ws else InoSlice(b, other)
  {
    var want := if other == slot then ws else InoSlice(b, other);
    forall j | 0 <= j < 32 ensures InoSlice(PutWords(b, 32 * slot, ws), other)[j] == want[j] {
      SlotWord(b, slot, ws, other, j);
    }
  }

  /** Storing an inode stores that inode and leaves the other three of the block alone. */
  lemma {:induction false} InoReadsBack(b: Block, slot: nat, ino: Ino, other: nat)
    requires slot < 4 && other < 4 && WellFormed(ino)
    ensures DecodeIno(EncodeIno(b, slot, ino), other) == if other == slot then ino else DecodeIno(b, other)
  {
    InoWordsFit(ino);
    SliceAfter(b, slot, InoWords(ino), other);
  }
}
