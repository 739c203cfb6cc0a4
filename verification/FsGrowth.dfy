/** Growing one inode keeps the invariant of the file system. */
module FsGrowth {
  import opened Basics
  import opened Bytes
  import opened Bitmaps
  import opened IndexTree
  import opened FileBytes
  import opened Geometries
  import opened FsStates

  /** The map after the blocks nb became slots k0, k0 + 1, ... of inode id. */
  ghost predicate Claimed(f: Fs, owner: map<nat, Slot>, id: nat, k0: nat, nb: seq<nat>) {
    forall k: nat {:trigger Open(k)} ::
    && (forall b :: b in f.owner ==> b in owner && owner[b] == f.owner[b])
    && (forall j :: 0 <= j < |nb| ==> ClaimedBlock(f, owner, id, k0 + j, nb[j]))
    && (forall b :: b in owner && b !in f.owner ==> b in nb)
  }

  /** Block b was free and is now slot k of inode id. */
  ghost predicate ClaimedBlock(f: Fs, owner: map<nat, Slot>, id: nat, k: nat, b: nat) {
    InData(f.g, b) && b !in f.owner && b in owner && owner[b] == Slot(id, k)
  }

  ghost function DataBitmapRegion(g: Geometry): set<nat> {
    Region(g.DataBitmap().start, g.dataBitmapBlocks)
  }

  /** t is f after inode id grew by the blocks nb. */
  ghost predicate GrownBy(f: Fs, t: Fs, id: nat, nb: seq<nat>) {
    && id < |f.inos| == |f.own| == |t.inos| == |t.own| && |t.v| == |f.v| && t.g == f.g
    && t.own == f.own[id := f.own[id] + nb]
    && forall k: nat {:trigger Open(k)} ::
      && Core(f) && t.inos == f.inos[id := t.inos[id]] && f.inos[id].size <= t.inos[id].size
      && Claimed(f, t.owner, id, |f.own[id]|, nb) && |t.owner| == |f.owner| + |nb|
      && SameExcept(f.v, t.v, DataBitmapRegion(f.g) + IndexBlocks(t.own[id]))
      && WellFormed(t.inos[id]) && DataBlocks(t.inos[id].size) <= MAX_DATA_BLOCKS
      && Owned(t.inos[id], t.v) == t.own[id]
      && Layout(f)
      && Live(t.v, f.g.DataBitmap().start, f.g.dataBitmapBlocks) == BitsOf(t.owner.Keys, f.g.DataAreaStart())
  }

  lemma {:induction false} Before(f: Fs, t: Fs, id: nat, nb: seq<nat>)
    requires GrownBy(f, t, id, nb)
    ensures Core(f)
  {
    assert Open(0);
  }

  lemma {:induction false} Sizes(f: Fs, t: Fs, id: nat, nb: seq<nat>)
    requires GrownBy(f, t, id, nb)
    ensures t.inos == f.inos[id := t.inos[id]] && f.inos[id].size <= t.inos[id].size
    ensures |t.owner| == |f.owner| + |nb| && |t.own[id]| == TotalBlocks(t.inos[id].size)
    ensures DataBlocks(t.inos[id].size) <= MAX_DATA_BLOCKS
  {
    assert Open(0);
  }

  lemma {:induction false} OldEntry(f: Fs, t: Fs, id: nat, nb: seq<nat>, n: nat)
    requires GrownBy(f, t, id, nb) && n in f.owner
    ensures n in t.owner && t.owner[n] == f.owner[n]
  {
    assert Open(0);
  }

  lemma {:induction false} OnlyChange(f: Fs, t: Fs, id: nat, nb: seq<nat>, b: nat)
    requires GrownBy(f, t, id, nb) && b < |f.v| && t.v[b] != f.v[b]
    ensures b in DataBitmapRegion(f.g) || exists j :: 0 <= j < |t.own[id]| && IsIndexSlot(j) && t.own[id][j] == b
  {
    assert Open(0);
  }

  lemma {:induction false} NewBlock(f: Fs, t: Fs, id: nat, nb: seq<nat>, j: nat)
    requires GrownBy(f, t, id, nb) && j < |nb|
    ensures ClaimedBlock(f, t.owner, id, |f.own[id]| + j, nb[j])
  {
    assert Open(0);
  }

  /** In the grown state every block is placed. */
  lemma {:induction false} GrownPlaced(f: Fs, t: Fs, id: nat, nb: seq<nat>, i: nat, k: nat)
    requires GrownBy(f, t, id, nb) && i < |t.own| && k < |t.own[i]|
    ensures Placed(t, t.own[i][k], i, k)
  {
    if k < |f.own[i]| {
      Before(f, t, id, nb);
      BlockIsPlaced(f, i, k);
      OldEntry(f, t, id, nb, f.own[i][k]);
    } else {
      NewBlock(f, t, id, nb, k - |f.own[id]|);
    }
  }

  /** Growth writes no data-area block but the index blocks of inode id. */
  lemma {:induction false} GrowthIsPrivate(f: Fs, t: Fs, id: nat, nb: seq<nat>, b: nat)
    requires GrownBy(f, t, id, nb)
    requires b < |f.v| && b >= f.g.DataAreaStart() && t.v[b] != f.v[b]
    ensures exists j :: 0 <= j < |t.own[id]| && IsIndexSlot(j) && t.own[id][j] == b && Placed(t, b, id, j)
  {
    OnlyChange(f, t, id, nb, b);
    var j :| 0 <= j < |t.own[id]| && IsIndexSlot(j) && t.own[id][j] == b;
    GrownPlaced(f, t, id, nb, id, j);
  }

  /** Blocks of other inodes, and data blocks, are not written. */
  lemma {:induction false} Untouched(f: Fs, t: Fs, id: nat, nb: seq<nat>, i: nat, k: nat)
    requires GrownBy(f, t, id, nb) && i < |t.own| && k < |t.own[i]|
    requires i != id || !IsIndexSlot(k)
    ensures t.own[i][k] < |f.v| && t.v[t.own[i][k]] == f.v[t.own[i][k]]
  {
    GrownPlaced(f, t, id, nb, i, k);
    Before(f, t, id, nb);
    InDisk(f, t.own[i][k]);
    if t.v[t.own[i][k]] != f.v[t.own[i][k]] {
      GrowthIsPrivate(f, t, id, nb, t.own[i][k]);
    }
  }

  lemma {:induction false} OtherInode(f: Fs, t: Fs, id: nat, nb: seq<nat>, i: nat)
    requires GrownBy(f, t, id, nb) && i < |f.inos| && i != id
    ensures t.inos[i] == f.inos[i] && Inode(t.v, f.inos[i], t.own[i])
    ensures Content(t.v, t.own[i], f.inos[i].size) == FileOf(f, i)
  {
    Before(f, t, id, nb);
    forall k | 0 <= k < |f.own[i]| ensures f.own[i][k] < |t.v| && t.v[f.own[i][k]] == f.v[f.own[i][k]] {
      Untouched(f, t, id, nb, i, k);
    }
    InodeFrame(f, t.v, i);
    Sizes(f, t, id, nb);
  }

  lemma {:induction false} DataBlocksMonotone(a: nat, b: nat)
    requires a <= b
    ensures DataBlocks(a) <= DataBlocks(b)
  {
  }

  lemma {:induction false} NewIsZero(f: Fs, t: Fs, id: nat, nb: seq<nat>, j: nat)
    requires GrownBy(f, t, id, nb) && j < |nb|
    ensures nb[j] < |f.v| && (!IsIndexSlot(|f.own[id]| + j) ==> t.v[nb[j]] == ZeroBlock())
  {
    Before(f, t, id, nb);
    NewBlock(f, t, id, nb, j);
    FreeIsZero(f, nb[j]);
    if !IsIndexSlot(|f.own[id]| + j) {
      assert t.own[id][|f.own[id]| + j] == nb[j];
      Untouched(f, t, id, nb, id, |f.own[id]| + j);
    }
  }

  lemma {:induction false} OldBytesStay(f: Fs, t: Fs, id: nat, nb: seq<nat>)
    requires GrownBy(f, t, id, nb)
    ensures var n := DataBlocks(f.inos[id].size); Raw(t.v, f.own[id], n) == Raw(f.v, f.own[id], n)
  {
    var own := f.own[id];
    Before(f, t, id, nb);
    OwnIsSound(f, id);
    InodeIsSound(f, id);
    forall k | 0 <= k < |own| && !IsIndexSlot(k) ensures t.v[own[k]] == f.v[own[k]] {
      assert t.own[id][k] == own[k];
      Untouched(f, t, id, nb, id, k);
    }
    RawFrame(f.v, t.v, own, DataBlocks(f.inos[id].size));
  }

  /** The grown file is the old file followed by zeros, in whole blocks. */
  lemma {:induction false} GrowthAppendsZeros(f: Fs, t: Fs, id: nat, nb: seq<nat>)
    requires GrownBy(f, t, id, nb)
    ensures var n, m := DataBlocks(f.inos[id].size), DataBlocks(t.inos[id].size);
      n <= m && Raw(t.v, t.own[id], m) == Raw(f.v, f.own[id], n) + Zeros(512 * (m - n))
  {
    var n, m := DataBlocks(f.inos[id].size), DataBlocks(t.inos[id].size);
    GrowthCounts(f, t, id, nb);
    OldBytesStay(f, t, id, nb);
    forall j | 0 <= j < |nb| ensures nb[j] < |t.v| && (!IsIndexSlot(|f.own[id]| + j) ==> t.v[nb[j]] == ZeroBlock()) {
      NewIsZero(f, t, id, nb, j);
    }
    RawGrows(t.v, f.own[id], nb, n, m);
  }

  lemma {:induction false} GrowthCounts(f: Fs, t: Fs, id: nat, nb: seq<nat>)
    requires GrownBy(f, t, id, nb)
    ensures var n, m := DataBlocks(f.inos[id].size), DataBlocks(t.inos[id].size);
      && n <= m <= MAX_DATA_BLOCKS && |f.own[id]| == SlotsFor(n) && |f.own[id]| + |nb| == SlotsFor(m)
      && Below(f.own[id], |t.v|) && |t.v| == |f.v| && t.own[id] == f.own[id] + nb
  {
    Before(f, t, id, nb);
    OwnIsSound(f, id);
    Sizes(f, t, id, nb);
    DataBlocksMonotone(f.inos[id].size, t.inos[id].size);
  }

  lemma {:induction false} ZeroTailGrows(raw: seq<byte>, size: nat, newSize: nat, more: nat)
    requires size <= newSize <= |raw| + more && size <= |raw| && raw[size..] == Zeros(|raw| - size)
    ensures (raw + Zeros(more))[newSize..] == Zeros(|raw| + more - newSize)
    ensures (raw + Zeros(more))[..newSize] == raw[..size] + Zeros(newSize - size)
  {
    forall p | size <= p < |raw| ensures raw[p] == 0 {
      assert raw[p] == raw[size..][p - size];
    }
  }

  lemma {:induction false} GrownTree(f: Fs, t: Fs, id: nat, nb: seq<nat>)
    requires GrownBy(f, t, id, nb)
    ensures WellFormed(t.inos[id]) && t.own[id] == Owned(t.inos[id], t.v)
  {
    assert Open(0);
  }

  lemma {:induction false} GrownInode(f: Fs, t: Fs, id: nat, nb: seq<nat>)
    requires GrownBy(f, t, id, nb)
    ensures f.inos[id].size <= t.inos[id].size && Inode(t.v, t.inos[id], t.own[id])
    ensures Content(t.v, t.own[id], t.inos[id].size) == FileOf(f, id) + Zeros(t.inos[id].size - f.inos[id].size)
  {
    Before(f, t, id, nb);
    Sizes(f, t, id, nb);
    InodeIsSound(f, id);
    GrowthAppendsZeros(f, t, id, nb);
    var n, m := DataBlocks(f.inos[id].size), DataBlocks(t.inos[id].size);
    ZeroTailGrows(Raw(f.v, f.own[id], n), f.inos[id].size, t.inos[id].size, 512 * (m - n));
    GrownTree(f, t, id, nb);
  }

  lemma {:induction false} LowBlocks(f: Fs, t: Fs, id: nat, nb: seq<nat>, b: nat)
    requires GrownBy(f, t, id, nb) && b < f.g.DataAreaStart() && b < |f.v| && b !in DataBitmapRegion(f.g)
    ensures t.v[b] == f.v[b]
  {
    if t.v[b] != f.v[b] {
      OnlyChange(f, t, id, nb, b);
      var j :| 0 <= j < |t.own[id]| && IsIndexSlot(j) && t.own[id][j] == b;
      GrownPlaced(f, t, id, nb, id, j);
    }
  }

  lemma {:induction false} GrownBits(f: Fs, t: Fs, id: nat, nb: seq<nat>)
    requires GrownBy(f, t, id, nb)
    ensures Layout(t) && Bits(t) && Opened(t.v[0]) == Some(t.g)
  {
    Before(f, t, id, nb);
    LayoutOf(f);
    forall b | 0 <= b < f.g.DataBitmap().start ensures t.v[b] == f.v[b] {
      LowBlocks(f, t, id, nb, b);
    }
    LiveFrame(f.v, t.v, 1, f.g.inodeBitmapBlocks);
    assert Open(0);
  }

  lemma {:induction false} NewEntry(f: Fs, t: Fs, id: nat, nb: seq<nat>, b: nat)
    requires GrownBy(f, t, id, nb) && b in t.owner && b !in f.owner
    ensures t.owner[b].i == id && |f.own[id]| <= t.owner[b].k < |t.own[id]| && t.own[id][t.owner[b].k] == b
  {
    assert Claimed(f, t.owner, id, |f.own[id]|, nb) by {
      assert Open(0);
    }
    ClaimedEntry(f, t.owner, id, |f.own[id]|, nb, b);
  }

  lemma {:induction false} ClaimedEntry(f: Fs, owner: map<nat, Slot>, id: nat, k0: nat, nb: seq<nat>, b: nat)
    requires Claimed(f, owner, id, k0, nb) && b in owner && b !in f.owner
    ensures owner[b].i == id && k0 <= owner[b].k < k0 + |nb| && nb[owner[b].k - k0] == b
  {
    assert Open(0);
    var j :| 0 <= j < |nb| && nb[j] == b;
    assert ClaimedBlock(f, owner, id, k0 + j, nb[j]);
  }

  lemma {:induction false} GrownEntry(f: Fs, t: Fs, id: nat, nb: seq<nat>, b: nat)
    requires GrownBy(f, t, id, nb) && b in t.owner
    ensures Entry(t, b)
  {
    if b in f.owner {
      Before(f, t, id, nb);
      OwnerEntry(f, b);
      OldEntry(f, t, id, nb, b);
    } else {
      NewEntry(f, t, id, nb, b);
      GrownPlaced(f, t, id, nb, id, t.owner[b].k);
    }
  }

  lemma {:induction false} GrownFreeAt(f: Fs, t: Fs, id: nat, nb: seq<nat>, b: nat)
    requires GrownBy(f, t, id, nb) && InData(f.g, b) && b !in t.owner
    ensures b < |t.v| && t.v[b] == ZeroBlock()
  {
    Before(f, t, id, nb);
    if b in f.owner {
      OldEntry(f, t, id, nb, b);
    }
    FreeIsZero(f, b);
    if t.v[b] != f.v[b] {
      GrowthIsPrivate(f, t, id, nb, b);
    }
  }

  lemma {:induction false} GrownCount(f: Fs, t: Fs, id: nat, nb: seq<nat>)
    requires GrownBy(f, t, id, nb)
    ensures |t.owner| == Used(t.inos)
  {
    Before(f, t, id, nb);
    Sizes(f, t, id, nb);
    UsedUpdate(f.inos, id, t.inos[id]);
    OwnIsSound(f, id);
    UsedIsCounted(f);
  }

  lemma {:induction false} GrownPlaces(f: Fs, t: Fs, id: nat, nb: seq<nat>)
    requires GrownBy(f, t, id, nb)
    ensures AllPlaced(t) && AllEntries(t)
    ensures forall b: nat :: InData(f.g, b) && b !in t.owner ==> b < |t.v| && t.v[b] == ZeroBlock()
  {
    forall i, k | 0 <= i < |t.own| && 0 <= k < |t.own[i]| ensures Placed(t, t.own[i][k], i, k) {
      GrownPlaced(f, t, id, nb, i, k);
    }
    forall b | b in t.owner ensures Entry(t, b) {
      GrownEntry(f, t, id, nb, b);
    }
    forall b: nat | InData(f.g, b) && b !in t.owner ensures b < |t.v| && t.v[b] == ZeroBlock() {
      GrownFreeAt(f, t, id, nb, b);
    }
  }

  lemma {:induction false} GrownFiles(f: Fs, t: Fs, id: nat, nb: seq<nat>)
    requires GrownBy(f, t, id, nb)
    ensures forall i :: 0 <= i < |t.inos| ==> Inode(t.v, t.inos[i], t.own[i])
    ensures f.inos[id].size <= t.inos[id].size
    ensures FileOf(t, id) == FileOf(f, id) + Zeros(t.inos[id].size - f.inos[id].size)
    ensures forall i :: 0 <= i < |f.inos| && i != id ==> FileOf(t, i) == FileOf(f, i)
  {
    GrownInode(f, t, id, nb);
    forall i | 0 <= i < |f.inos| && i != id
      ensures Inode(t.v, t.inos[i], t.own[i]) && FileOf(t, i) == FileOf(f, i)
    {
      OtherInode(f, t, id, nb, i);
    }
  }

  /** Growth keeps the invariant; the grown file gains zeros at its end and no other file changes. */
  lemma {:induction false} GrowthIsSound(f: Fs, t: Fs, id: nat, nb: seq<nat>)
    requires GrownBy(f, t, id, nb)
    ensures Core(t)
    ensures f.inos[id].size <= t.inos[id].size
    ensures FileOf(t, id) == FileOf(f, id) + Zeros(t.inos[id].size - f.inos[id].size)
    ensures forall i :: 0 <= i < |f.inos| && i != id ==> FileOf(t, i) == FileOf(f, i)
  {
    GrownBits(f, t, id, nb);
    GrownCount(f, t, id, nb);
    GrownPlaces(f, t, id, nb);
    GrownFiles(f, t, id, nb);
  }
}
