/** The other changes of a file system state: overwriting and clearing a file, storing and adding inodes. */
module FsChanges {
  import opened Basics
  import opened Bytes
  import opened Bitmaps
  import opened IndexTree
  import opened FileBytes
  import opened Geometries
  import opened FsStates
  import opened FsGrowth

  // ----- overwriting

  /** t is f after the data blocks of inode id took the bytes `data` at offset. */
  ghost predicate WrittenBy(f: Fs, t: Fs, id: nat, offset: nat, data: seq<byte>) {
    && id < |f.inos| == |f.own| && |t.v| == |f.v| && t == f.(v := t.v)
    && offset + |data| <= f.inos[id].size
    && forall k: nat {:trigger Open(k)} ::
      && Core(f) && SameExcept(f.v, t.v, DataBlockSet(f.own[id]))
      && |f.inos[id].direct| == 28 && Owned(f.inos[id], t.v) == f.own[id]
      && Raw(t.v, f.own[id], DataBlocks(f.inos[id].size))
         == Splice(Raw(f.v, f.own[id], DataBlocks(f.inos[id].size)), offset, data)
  }

  lemma {:induction false} WroteOnly(f: Fs, t: Fs, id: nat, offset: nat, data: seq<byte>, b: nat)
    requires WrittenBy(f, t, id, offset, data) && b < |f.v| && t.v[b] != f.v[b]
    ensures b in f.owner && f.owner[b].i == id && InData(f.g, b)
  {
    assert Core(f) && b in DataBlockSet(f.own[id]) by {
      assert Open(0);
    }
    var k :| 0 <= k < |f.own[id]| && !IsIndexSlot(k) && f.own[id][k] == b;
    BlockIsPlaced(f, id, k);
  }

  lemma {:induction false} SpliceTail(raw: seq<byte>, size: nat, off: nat, data: seq<byte>)
    requires off + |data| <= size <= |raw|
    ensures Splice(raw, off, data)[size..] == raw[size..]
    ensures Splice(raw, off, data)[..size] == Splice(raw[..size], off, data)
  {
  }

  lemma {:induction false} WrittenInode(f: Fs, t: Fs, id: nat, offset: nat, data: seq<byte>)
    requires WrittenBy(f, t, id, offset, data)
    ensures Inode(t.v, f.inos[id], f.own[id])
    ensures FileOf(t, id) == Splice(FileOf(f, id), offset, data)
  {
    var n := DataBlocks(f.inos[id].size);
    assert Core(f) && |f.inos[id].direct| == 28 && Owned(f.inos[id], t.v) == f.own[id]
      && Raw(t.v, f.own[id], n) == Splice(Raw(f.v, f.own[id], n), offset, data) by {
      assert Open(0);
    }
    InodeIsSound(f, id);
    SpliceTail(Raw(f.v, f.own[id], n), f.inos[id].size, offset, data);
  }

  /** A change that touches only blocks owned by inode id keeps every other file. */
  lemma {:induction false} OthersStay(f: Fs, w: seq<Block>, id: nat, i: nat)
    requires Core(f) && |w| == |f.v| && i < |f.inos| && i != id
    requires forall b :: 0 <= b < |w| && w[b] != f.v[b] ==> b !in f.owner || f.owner[b].i == id
    ensures Inode(w, f.inos[i], f.own[i]) && Content(w, f.own[i], f.inos[i].size) == FileOf(f, i)
  {
    forall k | 0 <= k < |f.own[i]| ensures f.own[i][k] < |w| && w[f.own[i][k]] == f.v[f.own[i][k]] {
      BlockIsPlaced(f, i, k);
      InDisk(f, f.own[i][k]);
    }
    InodeFrame(f, w, i);
  }

  /** The bitmaps and the super block only depend on blocks below the data area. */
  lemma {:induction false} LowFrame(f: Fs, w: seq<Block>)
    requires Core(f) && |w| == |f.v|
    requires forall b :: 0 <= b < f.g.DataAreaStart() && b < |w| ==> w[b] == f.v[b]
    ensures Layout(f) && Opened(w[0]) == Some(f.g) && Bits(f.(v := w))
  {
    LayoutOf(f);
    LiveFrame(f.v, w, 1, f.g.inodeBitmapBlocks);
    LiveFrame(f.v, w, f.g.DataBitmap().start, f.g.dataBitmapBlocks);
    assert Open(0);
  }

  lemma {:induction false} Places(f: Fs)
    requires Core(f)
    ensures AllPlaced(f) && AllEntries(f) && |f.owner| == Used(f.inos)
  {
    assert Open(0);
  }

  /** Overwriting keeps the invariant, lays the bytes over the file and changes no other file. */
  lemma {:induction false} WriteIsSound(f: Fs, t: Fs, id: nat, offset: nat, data: seq<byte>)
    requires WrittenBy(f, t, id, offset, data)
    ensures Core(t) && FileOf(t, id) == Splice(FileOf(f, id), offset, data)
    ensures forall i :: 0 <= i < |f.inos| && i != id ==> FileOf(t, i) == FileOf(f, i)
  {
    assert Core(f) by {
      assert Open(0);
    }
    forall b | 0 <= b < |f.v| && t.v[b] != f.v[b] ensures b in f.owner && f.owner[b].i == id && InData(f.g, b) {
      WroteOnly(f, t, id, offset, data, b);
    }
    WrittenInode(f, t, id, offset, data);
    forall i | 0 <= i < |f.inos| && i != id
      ensures Inode(t.v, f.inos[i], f.own[i]) && FileOf(t, i) == FileOf(f, i)
    {
      OthersStay(f, t.v, id, i);
    }
    LowFrame(f, t.v);
    SamePlaces(f, t.v);
  }

  lemma {:induction false} SamePlaces(f: Fs, w: seq<Block>)
    requires Core(f) && |w| == |f.v|
    requires forall b :: 0 <= b < |w| && w[b] != f.v[b] ==> b in f.owner || !InData(f.g, b)
    ensures Layout(f) && AllPlaced(f.(v := w)) && AllEntries(f.(v := w)) && FreeZero(f.(v := w))
    ensures |f.owner| == Used(f.inos)
  {
    LayoutOf(f);
    Places(f);
    var t := f.(v := w);
    forall b: nat | InData(f.g, b) && b !in f.owner ensures w[b] == ZeroBlock() {
      FreeIsZero(f, b);
    }
    assert forall i, k :: 0 <= i < |f.own| && 0 <= k < |f.own[i]| ==> Placed(f, f.own[i][k], i, k);
    assert forall b :: b in f.owner ==> Entry(f, b);
  }

  // ----- changes outside the data area

  /** A change within the inode area keeps everything but the inode table. */
  lemma {:induction false} InodeAreaFrame(f: Fs, w: seq<Block>)
    requires Core(f) && SameExcept(f.v, w, Region(f.g.InodeAreaStart(), f.g.inodeAreaBlocks))
    ensures Core(f.(v := w)) && forall i :: 0 <= i < |f.inos| ==> FileOf(f.(v := w), i) == FileOf(f, i)
  {
    LayoutOf(f);
    forall b | 0 <= b < |w| && w[b] != f.v[b] ensures b !in f.owner && !InData(f.g, b) {
      if b in f.owner {
        OwnerEntry(f, b);
      }
    }
    forall i | 0 <= i < |f.inos|
      ensures Inode(w, f.inos[i], f.own[i]) && Content(w, f.own[i], f.inos[i].size) == FileOf(f, i)
    {
      OthersStay(f, w, |f.inos|, i);
    }
    SamePlaces(f, w);
    LiveFrame(f.v, w, 1, f.g.inodeBitmapBlocks);
    LiveFrame(f.v, w, f.g.DataBitmap().start, f.g.dataBitmapBlocks);
    assert Open(0);
  }

  /** Storing the edited inode closes the inode table. */
  lemma {:induction false} StoreCloses(f: Fs, id: nat)
    requires Core(f) && id < |f.inos| && Table(f, {id})
    ensures f.g.InodeBlock(id) < |f.v| && |f.inos[id].direct| == 28
    ensures var b := f.g.InodeBlock(id);
      var t := f.(v := f.v[b := EncodeIno(f.v[b], f.g.InodeSlot(id), f.inos[id])]);
      Core(t) && Table(t, {}) && forall i :: 0 <= i < |f.inos| ==> FileOf(t, i) == FileOf(f, i)
  {
    LayoutOf(f);
    InodeIsSound(f, id);
    InodePlaces(f.g, id, id);
    var b := f.g.InodeBlock(id);
    var t := f.(v := f.v[b := EncodeIno(f.v[b], f.g.InodeSlot(id), f.inos[id])]);
    InodeAreaFrame(f, t.v);
    forall i | 0 <= i < |f.inos| ensures InoAt(t.g, t.v, i) == t.inos[i] {
      StoredInode(f, id, i);
    }
  }

  /** The inode that was stored reads back, and so does every other. */
  lemma {:induction false} StoredInode(f: Fs, id: nat, i: nat)
    requires Layout(f) && id < |f.inos| && i < |f.inos| && Table(f, {id}) && WellFormed(f.inos[id])
    requires f.g.InodeBlock(id) < |f.v|
    ensures var b := f.g.InodeBlock(id);
      InoAt(f.g, f.v[b := EncodeIno(f.v[b], f.g.InodeSlot(id), f.inos[id])], i) == f.inos[i]
  {
    InodePlaces(f.g, id, i);
    InoReadsBack(f.v[f.g.InodeBlock(id)], f.g.InodeSlot(id), f.inos[id], f.g.InodeSlot(i));
  }

  // ----- clearing

  /** t is f after inode id gave back all its blocks, zeroed. */
  ghost predicate ClearedBy(f: Fs, t: Fs, id: nat) {
    && id < |f.inos| == |f.own| == |t.inos| && |t.v| == |f.v| && t.g == f.g && t.own == f.own[id := []]
    && forall k: nat {:trigger Open(k)} ::
      && Core(f) && t.inos == f.inos[id := t.inos[id]] && WellFormed(t.inos[id]) && t.inos[id].size == 0
      && (forall b :: b in t.owner <==> b in f.owner && f.owner[b].i != id)
      && (forall b :: b in t.owner ==> t.owner[b] == f.owner[b])
      && |t.owner| == |f.owner| - |f.own[id]|
      && SameExcept(f.v, t.v, DataBitmapRegion(f.g) + Elements(f.own[id]))
      && (forall b :: b in Elements(f.own[id]) ==> b < |t.v| && t.v[b] == ZeroBlock())
      && Layout(f)
      && Live(t.v, f.g.DataBitmap().start, f.g.dataBitmapBlocks) == BitsOf(t.owner.Keys, f.g.DataAreaStart())
  }

  lemma {:induction false} ClearedOnly(f: Fs, t: Fs, id: nat, b: nat)
    requires ClearedBy(f, t, id) && b < |f.v| && t.v[b] != f.v[b]
    ensures b in DataBitmapRegion(f.g) || (b in f.owner && f.owner[b].i == id && InData(f.g, b))
  {
    assert Core(f) && b in DataBitmapRegion(f.g) + Elements(f.own[id]) by {
      assert Open(0);
    }
    if b in Elements(f.own[id]) {
      var k :| 0 <= k < |f.own[id]| && f.own[id][k] == b;
      BlockIsPlaced(f, id, k);
    }
  }

  lemma {:induction false} ClearedOwner(f: Fs, t: Fs, id: nat)
    requires ClearedBy(f, t, id)
    ensures Core(f) && Layout(f) && (forall b :: b in t.owner <==> b in f.owner && f.owner[b].i != id)
    ensures forall b :: b in t.owner ==> t.owner[b] == f.owner[b]
  {
    assert Open(0);
  }

  lemma {:induction false} ClearedPlaces(f: Fs, t: Fs, id: nat)
    requires ClearedBy(f, t, id)
    ensures AllPlaced(t) && AllEntries(t)
  {
    ClearedOwner(f, t, id);
    forall i, k | 0 <= i < |t.own| && 0 <= k < |t.own[i]| ensures Placed(t, t.own[i][k], i, k) {
      BlockIsPlaced(f, i, k);
    }
    forall b | b in t.owner ensures Entry(t, b) {
      OwnerEntry(f, b);
    }
  }

  lemma {:induction false} ClearedFree(f: Fs, t: Fs, id: nat, b: nat)
    requires ClearedBy(f, t, id) && InData(f.g, b) && b !in t.owner
    ensures b < |t.v| && t.v[b] == ZeroBlock()
  {
    ClearedOwner(f, t, id);
    if b in f.owner {
      OwnerEntry(f, b);
      assert b in Elements(f.own[id]);
      assert Open(0);
    } else {
      FreeIsZero(f, b);
      if t.v[b] != f.v[b] {
        ClearedOnly(f, t, id, b);
      }
    }
  }

  lemma {:induction false} ClearedFiles(f: Fs, t: Fs, id: nat)
    requires ClearedBy(f, t, id)
    ensures forall i :: 0 <= i < |t.inos| ==> Inode(t.v, t.inos[i], t.own[i])
    ensures FileOf(t, id) == [] && forall i :: 0 <= i < |f.inos| && i != id ==> FileOf(t, i) == FileOf(f, i)
  {
    ClearedOwner(f, t, id);
    assert t.inos == f.inos[id := t.inos[id]] && WellFormed(t.inos[id]) && t.inos[id].size == 0 by {
      assert Open(0);
    }
    forall b | 0 <= b < |t.v| && t.v[b] != f.v[b] ensures b !in f.owner || f.owner[b].i == id {
      ClearedOnly(f, t, id, b);
      if b in f.owner {
        OwnerEntry(f, b);
      }
    }
    forall i | 0 <= i < |f.inos| && i != id
      ensures Inode(t.v, t.inos[i], t.own[i]) && FileOf(t, i) == FileOf(f, i)
    {
      OthersStay(f, t.v, id, i);
    }
  }

  lemma {:induction false} ClearedBits(f: Fs, t: Fs, id: nat)
    requires ClearedBy(f, t, id)
    ensures Layout(t) && Bits(t) && Opened(t.v[0]) == Some(t.g)
  {
    ClearedOwner(f, t, id);
    forall b | 0 <= b < f.g.DataBitmap().start ensures t.v[b] == f.v[b] {
      if t.v[b] != f.v[b] {
        ClearedOnly(f, t, id, b);
      }
    }
    LiveFrame(f.v, t.v, 1, f.g.inodeBitmapBlocks);
    assert Open(0);
  }

  /** Clearing keeps the invariant, empties the file and changes no other file. */
  lemma {:induction false} ClearIsSound(f: Fs, t: Fs, id: nat)
    requires ClearedBy(f, t, id)
    ensures Core(t) && FileOf(t, id) == []
    ensures forall i :: 0 <= i < |f.inos| && i != id ==> FileOf(t, i) == FileOf(f, i)
  {
    ClearedBits(f, t, id);
    ClearedPlaces(f, t, id);
    ClearedFiles(f, t, id);
    forall b: nat | InData(f.g, b) && b !in t.owner ensures b < |t.v| && t.v[b] == ZeroBlock() {
      ClearedFree(f, t, id, b);
    }
    ClearedCount(f, t, id);
  }

  lemma {:induction false} ClearedCount(f: Fs, t: Fs, id: nat)
    requires ClearedBy(f, t, id)
    ensures |t.owner| == Used(t.inos)
  {
    assert Core(f) && t.inos == f.inos[id := t.inos[id]] && t.inos[id].size == 0
      && |t.owner| == |f.owner| - |f.own[id]| by {
      assert Open(0);
    }
    UsedUpdate(f.inos, id, t.inos[id]);
    OwnIsSound(f, id);
    UsedIsCounted(f);
  }

  // ----- a new inode

  function EmptyIno(kind: nat): Ino {
    Ino(0, seq(28, _ => 0), 0, 0, kind)
  }

  /** t is f after the next inode was allocated and initialized in its place. */
  ghost predicate InodeAdded(f: Fs, t: Fs, kind: nat) {
    && |f.inos| == |f.own| && kind < 2 && t == Fs(f.g, t.v, f.inos + [EmptyIno(kind)], f.own + [[]], f.owner)
    && forall k: nat {:trigger Open(k)} ::
      && Core(f) && Table(f, {}) && |t.v| == |f.v| && Layout(f) && |f.inos| < f.g.InodeBitmap().Maximum()
      && SameExcept(f.v, t.v, Region(1, f.g.inodeBitmapBlocks) + Region(f.g.InodeAreaStart(), f.g.inodeAreaBlocks))
      && Live(t.v, 1, f.g.inodeBitmapBlocks) == Live(f.v, 1, f.g.inodeBitmapBlocks) + {|f.inos|}
      && Table(t, {})
  }

  lemma {:induction false} AddedOpens(f: Fs, t: Fs, kind: nat)
    requires InodeAdded(f, t, kind)
    ensures Core(f) && |t.v| == |f.v| && Layout(f) && |f.inos| < f.g.InodeBitmap().Maximum() && Table(t, {})
    ensures SameExcept(f.v, t.v, Region(1, f.g.inodeBitmapBlocks) + Region(f.g.InodeAreaStart(), f.g.inodeAreaBlocks))
  {
    assert Open(0);
  }

  lemma {:induction false} AddedFacts(f: Fs, t: Fs, kind: nat)
    requires InodeAdded(f, t, kind)
    ensures Core(f) && Layout(f) && Layout(t) && |t.v| == |f.v| && Table(t, {})
    ensures forall b :: 0 <= b < |f.v| && t.v[b] != f.v[b] ==> b != 0 && b < f.g.DataBitmap().start
  {
    AddedOpens(f, t, kind);
    forall b | 0 <= b < |f.v| && t.v[b] != f.v[b] ensures b != 0 && b < f.g.DataBitmap().start {
      assert b in Region(1, f.g.inodeBitmapBlocks) + Region(f.g.InodeAreaStart(), f.g.inodeAreaBlocks);
    }
  }

  lemma {:induction false} AddedBits(f: Fs, t: Fs, kind: nat)
    requires InodeAdded(f, t, kind)
    ensures Layout(t) && Bits(t) && Opened(t.v[0]) == Some(t.g)
  {
    AddedFacts(f, t, kind);
    LiveFrame(f.v, t.v, f.g.DataBitmap().start, f.g.dataBitmapBlocks);
    assert Region(0, |f.inos|) + {|f.inos|} == Region(0, |t.inos|);
    assert Open(0);
  }

  lemma {:induction false} LowIsUnowned(f: Fs, b: nat)
    requires Core(f) && b < f.g.DataAreaStart()
    ensures b !in f.owner
  {
    if b in f.owner {
      OwnerEntry(f, b);
    }
  }

  lemma {:induction false} AddedFiles(f: Fs, t: Fs, kind: nat)
    requires InodeAdded(f, t, kind)
    ensures forall i :: 0 <= i < |t.inos| ==> Inode(t.v, t.inos[i], t.own[i])
    ensures FileOf(t, |f.inos|) == [] && forall i :: 0 <= i < |f.inos| ==> FileOf(t, i) == FileOf(f, i)
  {
    AddedFacts(f, t, kind);
    forall b | 0 <= b < |t.v| && t.v[b] != f.v[b] ensures b !in f.owner {
      LowIsUnowned(f, b);
    }
    forall i | 0 <= i < |f.inos| ensures Inode(t.v, t.inos[i], t.own[i]) && FileOf(t, i) == FileOf(f, i) {
      OthersStay(f, t.v, |f.inos|, i);
    }
  }

  /** Adding an inode keeps the invariant and every file. */
  lemma {:induction false} AddIsSound(f: Fs, t: Fs, kind: nat)
    requires InodeAdded(f, t, kind)
    ensures Core(t) && Table(t, {})
    ensures FileOf(t, |f.inos|) == [] && forall i :: 0 <= i < |f.inos| ==> FileOf(t, i) == FileOf(f, i)
  {
    AddedFacts(f, t, kind);
    AddedBits(f, t, kind);
    AddedFiles(f, t, kind);
    AddedRest(f, t, kind);
  }

  lemma {:induction false} AddedRest(f: Fs, t: Fs, kind: nat)
    requires InodeAdded(f, t, kind)
    ensures Layout(t) && AllPlaced(t) && AllEntries(t) && FreeZero(t) && |t.owner| == Used(t.inos)
  {
    AddedFacts(f, t, kind);
    assert FreeZero(f.(v := t.v)) && |f.owner| == Used(f.inos) by {
      SamePlaces(f, t.v);
    }
    assert t.inos[..|f.inos|] == f.inos;
    AddedPlaces(f, t);
  }

  lemma {:induction false} AddedPlaces(f: Fs, t: Fs)
    requires Core(f) && t.own == f.own + [[]] && t.owner == f.owner && t.g == f.g
    ensures AllPlaced(t) && AllEntries(t)
  {
    forall i, k | 0 <= i < |t.own| && 0 <= k < |t.own[i]| ensures Placed(t, t.own[i][k], i, k) {
      BlockIsPlaced(f, i, k);
    }
    forall b | b in t.owner ensures Entry(t, b) {
      OwnerEntry(f, b);
    }
  }
}
