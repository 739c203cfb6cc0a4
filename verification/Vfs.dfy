/** Files and the root directory. */
module Vfs {
  import opened Basics
  import opened Bytes
  import opened BlockCaching
  import opened Bitmaps
  import opened IndexTree
  import opened FileBytes
  import opened Geometries
  import opened FsStates
  import opened FsGrowth
  import opened FsChanges
  import opened DiskInodes
  import opened DirEntries
  import opened Efs

  /** f with inode id under edit: the table is right for every other inode. */
  ghost predicate Edited(f: Fs, id: nat) {
    id < |f.inos| == |f.own| && forall k: nat {:trigger Open(k)} :: Core(f) && Table(f, {id})
  }

  lemma {:induction false} EditedCore(f: Fs, id: nat)
    requires Edited(f, id)
    ensures Core(f)
  {
    assert Open(0);
  }

  /** Blocks of the inode area are not touched by changes to bitmaps and data. */
  lemma {:induction false} TableFrame(f: Fs, t: Fs, id: nat)
    requires Edited(f, id) && Core(t) && t.g == f.g && |t.inos| == |f.inos| && |t.v| == |f.v|
    requires forall i :: 0 <= i < |f.inos| && i != id ==> t.inos[i] == f.inos[i]
    requires forall b :: f.g.InodeAreaStart() <= b < f.g.DataBitmap().start && b < |f.v| ==> t.v[b] == f.v[b]
    ensures Edited(t, id)
  {
    EditedCore(f, id);
    LayoutOf(f);
    assert Table(f, {id}) by {
      assert Open(0);
    }
    forall i | 0 <= i < |t.inos| && i != id ensures InoAt(t.g, t.v, i) == t.inos[i] {
      InodePlaces(f.g, i, i);
      assert InoAt(f.g, f.v, i) == f.inos[i];
    }
  }

  /** The lock on an inode's block is neither a bitmap block nor a data block. */
  lemma {:induction false} LockIsLow(f: Fs, id: nat)
    requires Core(f) && id < |f.inos|
    ensures f.g.Sound() && f.g.total <= |f.v| <= U32_LIMIT
    ensures f.g.InodeAreaStart() <= f.g.InodeBlock(id) < f.g.DataBitmap().start
    ensures f.g.DataBitmap().start + f.g.dataBitmapBlocks == f.g.DataAreaStart()
  {
    LayoutOf(f);
    InodePlaces(f.g, id, id);
  }

  /** The two steps of growth, taking blocks (f.v to u) and filling the index (u to t.v), add up. */
  lemma {:induction false} GrownFrom(f: Fs, u: seq<Block>, t: Fs, id: nat, nb: seq<nat>)
    requires Core(f) && id < |f.inos| && t.g == f.g && |t.v| == |f.v|
    requires |t.inos| == |f.inos| && t.inos == f.inos[id := t.inos[id]] && t.own == f.own[id := f.own[id] + nb]
    requires f.inos[id].size <= t.inos[id].size && WellFormed(t.inos[id])
    requires DataBlocks(t.inos[id].size) <= MAX_DATA_BLOCKS && Owned(t.inos[id], t.v) == f.own[id] + nb
    requires Claimed(f, t.owner, id, |f.own[id]|, nb) && |t.owner| == |f.owner| + |nb|
    requires SameExcept(f.v, u, DataBitmapRegion(f.g)) && SameExcept(u, t.v, IndexBlocks(f.own[id] + nb))
    requires Tracks(u, f.g.DataBitmap(), t.owner.Keys, f.g.DataAreaStart())
    ensures GrownBy(f, t, id, nb)
  {
    LayoutOf(f);
    AllInData(f, t.owner, id, nb);
    assert Live(u, f.g.DataBitmap().start, f.g.dataBitmapBlocks) == BitsOf(t.owner.Keys, f.g.DataAreaStart()) by {
      assert Open(0);
    }
    assert forall b :: b in IndexBlocks(f.own[id] + nb) ==> b >= f.g.DataAreaStart();
    LiveFrame(u, t.v, f.g.DataBitmap().start, f.g.dataBitmapBlocks);
  }

  /** Old and new blocks together: in the data area, pairwise distinct. */
  lemma {:induction false} AllInData(f: Fs, owner: map<nat, Slot>, id: nat, nb: seq<nat>)
    requires Core(f) && id < |f.inos| && Claimed(f, owner, id, |f.own[id]|, nb)
    ensures Distinct(f.own[id] + nb)
    ensures forall j :: 0 <= j < |f.own[id] + nb| ==> InData(f.g, (f.own[id] + nb)[j])
  {
    var all := f.own[id] + nb;
    forall j | 0 <= j < |all| ensures InData(f.g, all[j]) && all[j] in owner && owner[all[j]] == Slot(id, j) {
      if j < |f.own[id]| {
        BlockIsPlaced(f, id, j);
        OldClaim(f, owner, id, |f.own[id]|, nb, f.own[id][j]);
      } else {
        NewClaim(f, owner, id, |f.own[id]|, nb, j - |f.own[id]|);
      }
    }
  }

  lemma {:induction false} OldClaim(f: Fs, owner: map<nat, Slot>, id: nat, k0: nat, nb: seq<nat>, b: nat)
    requires Claimed(f, owner, id, k0, nb) && b in f.owner
    ensures b in owner && owner[b] == f.owner[b]
  {
    assert Open(0);
  }

  lemma {:induction false} NewClaim(f: Fs, owner: map<nat, Slot>, id: nat, k0: nat, nb: seq<nat>, j: nat)
    requires Claimed(f, owner, id, k0, nb) && j < |nb|
    ensures ClaimedBlock(f, owner, id, k0 + j, nb[j])
  {
    assert Open(0);
  }

  /** Taking blocks writes the bitmap only, so the inode still reads the same. */
  lemma {:induction false} StillOwned(f: Fs, u: seq<Block>, id: nat)
    requires Core(f) && id < |f.inos| && SameExcept(f.v, u, DataBitmapRegion(f.g))
    ensures Inode(u, f.inos[id], f.own[id])
  {
    LayoutOf(f);
    forall k | 0 <= k < |f.own[id]| ensures f.own[id][k] < |u| && u[f.own[id][k]] == f.v[f.own[id][k]] {
      BlockIsPlaced(f, id, k);
    }
    InodeFrame(f, u, id);
  }

  /** The block of inode id, locked all along, still holds what was read from it. */
  ghost predicate SameLock(f: Fs, t: Fs, id: nat) {
    |t.v| == |f.v| && f.g.InodeBlock(id) < |f.v| && t.v[f.g.InodeBlock(id)] == f.v[f.g.InodeBlock(id)]
  }

  /** What growing inode id to newSize does to the files. */
  ghost predicate GrownTo(f: Fs, t: Fs, id: nat, newSize: nat) {
    && id < |f.inos| == |f.own| == |t.inos| == |t.own| && t.g == f.g
    && f.inos[id].size <= newSize == t.inos[id].size && t.inos[id].kind == f.inos[id].kind
    && FileOf(t, id) == FileOf(f, id) + Zeros(newSize - f.inos[id].size)
    && SameLock(f, t, id)
    && forall i :: 0 <= i < |f.inos| && i != id ==> t.inos[i] == f.inos[i] && FileOf(t, i) == FileOf(f, i)
  }

  lemma {:induction false} GrownEdit(f: Fs, t: Fs, id: nat, nb: seq<nat>)
    requires Edited(f, id) && GrownBy(f, t, id, nb) && t.inos[id].kind == f.inos[id].kind
    ensures Edited(t, id) && GrownTo(f, t, id, t.inos[id].size)
  {
    GrowthIsSound(f, t, id, nb);
    Sizes(f, t, id, nb);
    LayoutOf(t);
    forall b | f.g.InodeAreaStart() <= b < f.g.DataBitmap().start && b < |f.v| ensures t.v[b] == f.v[b] {
      LowBlocks(f, t, id, nb, b);
    }
    TableFrame(f, t, id);
    EditedCore(f, id);
    LockIsLow(f, id);
  }

  /** A file after buf was written at offset: zeros fill any gap, then buf lies over the old bytes. */
  function Overwrite(s: seq<byte>, offset: nat, buf: seq<byte>): (r: seq<byte>)
    ensures |r| == if offset + |buf| < |s| then |s| else offset + |buf|
  {
    Splice(s + Zeros(if offset + |buf| < |s| then 0 else offset + |buf| - |s|), offset, buf)
  }

  /** t is f with another content in file id and all other files the same. */
  ghost predicate Changed(f: Fs, t: Fs, id: nat, content: seq<byte>) {
    && id < |f.inos| == |f.own| == |t.inos| == |t.own| && t.g == f.g
    && FileOf(t, id) == content && t.inos[id].kind == f.inos[id].kind
    && forall i :: 0 <= i < |f.inos| && i != id ==> t.inos[i] == f.inos[i] && FileOf(t, i) == FileOf(f, i)
  }

  lemma {:induction false} WrittenEdit(f: Fs, t: Fs, id: nat, offset: nat, data: seq<byte>)
    requires Edited(f, id) && WrittenBy(f, t, id, offset, data)
    ensures Edited(t, id) && SameLock(f, t, id) && Changed(f, t, id, Splice(FileOf(f, id), offset, data))
  {
    EditedCore(f, id);
    WriteIsSound(f, t, id, offset, data);
    LockIsLow(f, id);
    forall b | f.g.InodeAreaStart() <= b < f.g.DataBitmap().start && b < |f.v| ensures t.v[b] == f.v[b] {
      if t.v[b] != f.v[b] {
        WroteOnly(f, t, id, offset, data, b);
      }
    }
    TableFrame(f, t, id);
  }

  /** A state with no inode under edit. */
  ghost predicate Settled(f: Fs) {
    |f.inos| == |f.own| && forall k: nat {:trigger Open(k)} :: Core(f) && Table(f, {})
  }

  lemma {:induction false} Settle(f: Fs, id: nat)
    requires Edited(f, id)
    ensures f.g.InodeBlock(id) < |f.v| && |f.inos[id].direct| == 28
    ensures var b := f.g.InodeBlock(id);
      var t := f.(v := f.v[b := EncodeIno(f.v[b], f.g.InodeSlot(id), f.inos[id])]);
      Settled(t) && forall i :: 0 <= i < |f.inos| ==> FileOf(t, i) == FileOf(f, i)
  {
    EditedCore(f, id);
    assert Table(f, {id}) by {
      assert Open(0);
    }
    StoreCloses(f, id);
  }

  lemma {:induction false} Unsettle(f: Fs, id: nat)
    requires Settled(f) && id < |f.inos|
    ensures Edited(f, id) && f.g.InodeBlock(id) < |f.v|
    ensures DecodeIno(f.v[f.g.InodeBlock(id)], f.g.InodeSlot(id)) == f.inos[id]
  {
    assert Core(f) && Table(f, {}) by {
      assert Open(0);
    }
    LockIsLow(f, id);
    assert InoAt(f.g, f.v, id) == f.inos[id];
  }

  class FileSystem {
    const efs: EasyFileSystem
    ghost var st: Fs

    /** No block is locked and the disk holds the file system state. */
    ghost predicate Idle()
      reads this, efs.disk
    {
      |st.inos| == |st.own| && forall k: nat {:trigger Open(k)} :: Mounted(st)
    }

    ghost predicate Mounted(f: Fs)
      reads efs.disk
    {
      Settled(f) && efs.Matches(f.g) && efs.disk.Valid() && efs.disk.view == f.v && efs.disk.held == {}
    }

    lemma IdleIsMounted()
      requires Idle()
      ensures Mounted(st)
    {
      assert Open(0);
    }

    /** The disk while inode id of f is open: its block is the only one locked. */
    ghost predicate Editing(f: Fs, id: nat)
      reads efs.disk
    {
      && efs.Matches(f.g) && efs.disk.Valid() && efs.disk.view == f.v && efs.disk.held == {f.g.InodeBlock(id)}
    }

    constructor (efs: EasyFileSystem, ghost f: Fs)
      requires Settled(f) && efs.Matches(f.g) && efs.disk.Valid() && efs.disk.view == f.v && efs.disk.held == {}
      ensures Idle() && st == f && this.efs == efs
    {
      this.efs := efs;
      st := f;
    }

    /** modify_disk_inode, first half: lock the inode's block and read the inode out of it. */
    method OpenInode(id: nat) returns (d: DiskInode, data: Block)
      requires Idle() && id < |st.inos|
      modifies efs.disk
      ensures fresh(d) && d.Value() == st.inos[id] && Edited(st, id) && Editing(st, id) && Settled(st)
      ensures st.g.InodeBlock(id) < |st.v| && data == st.v[st.g.InodeBlock(id)]
    {
      IdleIsMounted();
      Unsettle(st, id);
      data := efs.disk.Acquire(efs.inodeAreaStart + id / 4);
      d := new DiskInode(DecodeIno(data, id % 4));
    }

    /** read_disk_inode, second half: the lock is released, nothing was changed. */
    method Reclose(id: nat)
      requires id < |st.inos| == |st.own| && Settled(st) && Editing(st, id)
      modifies efs.disk
      ensures Idle()
    {
      efs.disk.Release(efs.inodeAreaStart + id / 4);
      assert Mounted(st);
    }

    /** modify_disk_inode, second half: the edited inode goes back into the buffer, the lock is released. */
    method CloseInode(id: nat, d: DiskInode, data: Block, ghost f: Fs)
      requires Edited(f, id) && Editing(f, id) && d.Value() == f.inos[id]
      requires f.g.InodeBlock(id) < |f.v| && data == f.v[f.g.InodeBlock(id)]
      modifies this`st, efs.disk
      ensures Idle() && st.g == f.g && st.inos == f.inos
      ensures forall i :: 0 <= i < |f.inos| ==> FileOf(st, i) == FileOf(f, i)
    {
      Settle(f, id);
      efs.disk.Modify(efs.inodeAreaStart + id / 4, EncodeIno(data, id % 4, d.Value()));
      efs.disk.Release(efs.inodeAreaStart + id / 4);
      st := f.(v := efs.disk.view);
      assert Mounted(st);
    }

    lemma EditingIsReady(f: Fs, id: nat)
      requires Editing(f, id) && Core(f) && id < |f.inos|
      ensures efs.Ready(f.g) && Tracks(f.v, efs.dataBitmap, f.owner.Keys, efs.dataAreaStart)
    {
      LockIsLow(f, id);
      assert Open(0);
    }

    /** The blocks of the growing inode can be locked while its own block is. */
    lemma CanUse(f: Fs, id: nat, owner: map<nat, Slot>, nb: seq<nat>)
      requires efs.disk.Valid() && efs.disk.held == {f.g.InodeBlock(id)} && |efs.disk.view| == |f.v|
      requires Core(f) && id < |f.inos| && Claimed(f, owner, id, |f.own[id]|, nb)
      requires |f.own[id]| + |nb| <= MAX_SLOTS
      ensures Usable(f.own[id] + nb, efs.disk)
    {
      LockIsLow(f, id);
      AllInData(f, owner, id, nb);
    }

    /** The allocation half of Inode::increase_size. */
    method TakeFor(newSize: nat, size: nat, ghost f: Fs, ghost id: nat)
      returns (nb: seq<nat>, ghost owner: map<nat, Slot>)
      requires Edited(f, id) && Editing(f, id) && size == f.inos[id].size <= newSize
      requires DataBlocks(newSize) <= MAX_DATA_BLOCKS
      requires Used(f.inos) - TotalBlocks(size) + TotalBlocks(newSize) <= f.g.dataAreaBlocks
      modifies efs.disk
      ensures efs.disk.held == old(efs.disk.held) && SameExcept(f.v, efs.disk.view, DataBitmapRegion(f.g))
      ensures |nb| == TotalBlocks(newSize) - TotalBlocks(size) && |owner| == |f.owner| + |nb|
      ensures Claimed(f, owner, id, |f.own[id]|, nb) && Usable(f.own[id] + nb, efs.disk)
      ensures Tracks(efs.disk.view, f.g.DataBitmap(), owner.Keys, f.g.DataAreaStart())
    {
      EditedCore(f, id);
      EditingIsReady(f, id);
      OwnIsSound(f, id);
      UsedIsCounted(f);
      GrowthFits(size, newSize);
      nb, owner := efs.TakeBlocks(TotalBlocks(newSize) - TotalBlocks(size), f, id);
      ReadyIsValid(f.g);
      CanUse(f, id, owner, nb);
    }

    /** Inode::increase_size past its early return: grows the open inode to newSize. */
    method Grow(d: DiskInode, newSize: nat, ghost f: Fs, ghost id: nat) returns (ghost t: Fs)
      requires Edited(f, id) && Editing(f, id) && d.Value() == f.inos[id]
      requires d.size <= newSize && DataBlocks(newSize) <= MAX_DATA_BLOCKS
      requires Used(f.inos) - TotalBlocks(d.size) + TotalBlocks(newSize) <= f.g.dataAreaBlocks
      modifies d, efs.disk
      ensures Edited(t, id) && Editing(t, id) && GrownTo(f, t, id, newSize) && d.Value() == t.inos[id]
    {
      EditedCore(f, id);
      var nb, owner := TakeFor(newSize, d.size, f, id);
      ghost var u := efs.disk.view;
      StillOwned(f, u, id);
      d.IncreaseSize(newSize, nb, efs.disk, f.own[id]);
      t := Fs(f.g, efs.disk.view, f.inos[id := d.Value()], f.own[id := f.own[id] + nb], owner);
      GrownFrom(f, u, t, id, nb);
      GrownEdit(f, t, id, nb);
    }

    /** The open inode owns its blocks, and all of them can be locked. */
    lemma OpenOwns(d: DiskInode, f: Fs, id: nat)
      requires Edited(f, id) && Editing(f, id) && d.Value() == f.inos[id]
      ensures d.Owns(f.own[id], efs.disk) && WellFormed(d.Value()) && DataBlocks(d.size) <= MAX_DATA_BLOCKS
      ensures Usable(f.own[id], efs.disk) && f.own[id] == Owned(d.Value(), efs.disk.view)
    {
      EditedCore(f, id);
      InodeIsSound(f, id);
      OwnIsSound(f, id);
      LockIsLow(f, id);
    }

    /** DiskInode::write_at on the open inode, which is large enough already. */
    method WriteOpen(d: DiskInode, offset: nat, buf: seq<byte>, ghost f: Fs, ghost id: nat)
      returns (n: nat, ghost t: Fs)
      requires Edited(f, id) && Editing(f, id) && d.Value() == f.inos[id]
      requires 0 < |buf| && offset + |buf| <= d.size
      modifies efs.disk
      ensures n == |buf| && Edited(t, id) && Editing(t, id) && SameLock(f, t, id) && t.inos == f.inos
      ensures Changed(f, t, id, Splice(FileOf(f, id), offset, buf))
    {
      EditedCore(f, id);
      OpenOwns(d, f, id);
      n := d.WriteAt(offset, buf, efs.disk, f.own[id]);
      assert buf[..n] == buf;
      OpenedOwns(d, efs.disk, f.own[id]);
      t := f.(v := efs.disk.view);
      WrittenEdit(f, t, id, offset, buf);
    }

    /** Inode::write_at on inode id: the write overlays its bytes, a gap past the old end reads as zeros,
        and no other file changes. */
    method WriteInode(id: nat, offset: nat, buf: seq<byte>) returns (n: nat)
      requires Idle() && id < |st.inos| && 0 < |buf| && Fits(st, id, offset + |buf|)
      modifies this`st, efs.disk
      ensures Idle() && n == |buf| && Changed(old(st), st, id, Overwrite(old(FileOf(st, id)), offset, buf))
    {
      var d, data := OpenInode(id);
      ghost var t := st;
      if offset + |buf| >= d.size {
        t := Grow(d, offset + |buf|, st, id);
      } else {
        NotGrown(st, id);
      }
      ghost var u;
      n, u := WriteOpen(d, offset, buf, t, id);
      OverwriteIs(st, t, u, id, offset, buf);
      CloseInode(id, d, data, u);
      StillChanged(old(st), u, st, id);
    }

    /** Inode::read_at on inode id: exactly the stored slice, as far as buffer and file reach. */
    method ReadInode(id: nat, offset: nat, buf: array<byte>) returns (n: nat)
      requires Idle() && id < |st.inos|
      modifies efs.disk, buf
      ensures Idle()
      ensures var s := FileOf(st, id);
        && n == (if offset >= |s| then 0 else if offset + buf.Length < |s| then buf.Length else |s| - offset)
        && (n > 0 ==> buf[..n] == s[offset..offset + n])
      ensures buf[n..] == old(buf[n..])
    {
      var d, _ := OpenInode(id);
      OpenOwns(d, st, id);
      n := d.ReadAt(offset, buf, efs.disk, st.own[id]);
      Reclose(id);
    }

    /** The open inode gives back its blocks; `list` is what clear_size returned. */
    method ClearOpen(d: DiskInode, list: seq<nat>, ghost f: Fs, ghost id: nat) returns (ghost t: Fs)
      requires Edited(f, id) && Editing(f, id) && list == f.own[id]
      requires d.size == 0 && WellFormed(d.Value()) && d.kind == f.inos[id].kind
      modifies efs.disk
      ensures Edited(t, id) && Editing(t, id) && d.Value() == t.inos[id]
      ensures SameLock(f, t, id) && Changed(f, t, id, [])
    {
      EditedCore(f, id);
      EditingIsReady(f, id);
      OwnIsSound(f, id);
      LockIsLow(f, id);
      efs.GiveBack(list, f);
      ReadyIsValid(f.g);
      t := WithoutOwner(f, efs.disk.view, id, d.Value());
      ClearedEdit(f, t, id);
    }

    /** Inode::clear: the file becomes empty, its blocks are zeroed and free again, no other file changes. */
    method ClearInode(id: nat)
      requires Idle() && id < |st.inos|
      modifies this`st, efs.disk
      ensures Idle() && Changed(old(st), st, id, [])
    {
      var d, data := OpenInode(id);
      OpenOwns(d, st, id);
      var size := d.size;
      var list := d.ClearSize(efs.disk, st.own[id]);
      assert |list| == TotalBlocks(size);
      ghost var t := ClearOpen(d, list, st, id);
      CloseInode(id, d, data, t);
      StillChanged(old(st), t, st, id);
    }

    /** alloc_inode and the initialization of the new inode in its block; inodes are numbered in order. */
    method AddInode(kind: nat) returns (id: nat)
      requires Idle() && kind < 2 && |st.inos| < st.g.InodeBitmap().Maximum()
      modifies this`st, efs.disk
      ensures Idle() && id == |old(st).inos| && st.g == old(st).g && st.inos == old(st).inos + [EmptyIno(kind)]
      ensures FileOf(st, id) == []
      ensures forall i :: 0 <= i < id ==> FileOf(st, i) == old(FileOf(st, i))
    {
      IdleIsMounted();
      InodeBits(st);
      id := efs.AllocInode();
      NextInode(|st.inos|, id);
      ghost var u := efs.disk.view;
      AddPlace(st, u);
      var data := efs.disk.Acquire(efs.inodeAreaStart + id / 4);
      efs.disk.Modify(efs.inodeAreaStart + id / 4, EncodeIno(data, id % 4, EmptyIno(kind)));
      efs.disk.Release(efs.inodeAreaStart + id / 4);
      ghost var t := Fs(st.g, efs.disk.view, st.inos + [EmptyIno(kind)], st.own + [[]], st.owner);
      Added(st, u, t, kind);
      st := t;
      assert Mounted(st);
    }

    /** The second modify_disk_inode of create: one more directory entry behind the last one. */
    method AppendEntry(entry: seq<byte>)
      requires Idle() && 0 < |st.inos| && |entry| == 32 && st.inos[0].size % 32 == 0
      requires Fits(st, 0, st.inos[0].size + 32)
      modifies this`st, efs.disk
      ensures Idle() && Changed(old(st), st, 0, old(FileOf(st, 0)) + entry)
    {
      var d, data := OpenInode(0);
      var count := d.size / 32;
      WholeEntries(d.size);
      var from, to := count * 32, (count + 1) * 32;
      assert from == st.inos[0].size && to == from + |entry|;
      ghost var t := Grow(d, to, st, 0);
      var _, u := WriteOpen(d, from, entry, t, 0);
      AppendIs(st, t, u, entry);
      CloseInode(0, d, data, u);
      StillChanged(old(st), u, st, 0);
    }

    /** The part of create behind the check: a new empty inode and its entry at the end of the root directory. */
    method AddLinked(name: seq<byte>) returns (id: nat)
      requires Idle() && 0 < |st.inos| < st.g.InodeBitmap().Maximum() && |name| <= NAME_LENGTH_LIMIT
      requires st.inos[0].size % 32 == 0 && Fits(st, 0, st.inos[0].size + 32)
      modifies this`st, efs.disk
      ensures Idle() && id == |old(st).inos| && Linked(old(st), st, Dirent(name, id))
    {
      ghost var f := st;
      id := AddInode(0);
      ghost var t := st;
      StillFits(f, t, f.inos[0].size + 32);
      AppendEntry(Dirent(name, id));
    }

    lemma ReadyIsValid(g: Geometry)
      requires efs.Ready(g)
      ensures efs.disk.Valid()
    {
      assert Open(0);
    }
  }

  /** The state in which inode id owns nothing, over a disk where its blocks were freed. */
  lemma {:induction false} WithoutOwner(f: Fs, w: seq<Block>, id: nat, ino: Ino) returns (t: Fs)
    requires Core(f) && id < |f.inos| && WellFormed(ino) && ino.size == 0 && |w| == |f.v|
    requires Freed(f.v, w, f.g, Elements(f.own[id]))
    requires Tracks(w, f.g.DataBitmap(), f.owner.Keys - Elements(f.own[id]), f.g.DataAreaStart())
    ensures t.v == w && t.inos == f.inos[id := ino] && ClearedBy(f, t, id)
  {
    var owner := LeftOwners(f, id);
    t := Fs(f.g, w, f.inos[id := ino], f.own[id := []], owner);
    LayoutOf(f);
    FreedOpens(f.v, w, f.g, Elements(f.own[id]), owner.Keys);
  }

  lemma {:induction false} LeftOwners(f: Fs, id: nat) returns (owner: map<nat, Slot>)
    requires Core(f) && id < |f.inos|
    ensures owner.Keys == f.owner.Keys - Elements(f.own[id]) && |owner| == |f.owner| - |f.own[id]|
    ensures forall b :: b in owner <==> b in f.owner && f.owner[b].i != id
    ensures forall b :: b in owner ==> owner[b] == f.owner[b]
  {
    owner := map b | b in f.owner && b !in Elements(f.own[id]) :: f.owner[b];
    assert owner.Keys == f.owner.Keys - Elements(f.own[id]);
    assert |owner| == |owner.Keys| && |f.owner| == |f.owner.Keys|;
    assert Distinct(f.own[id]) && forall k :: 0 <= k < |f.own[id]| ==> f.own[id][k] in f.owner.Keys by {
      OwnIsSound(f, id);
    }
    SetSize(f.own[id], f.owner.Keys);
    OwnedByOthers(f, id, owner);
  }

  lemma {:induction false} FreedOpens(v: seq<Block>, w: seq<Block>, g: Geometry, done: set<nat>, keys: set<nat>)
    requires Freed(v, w, g, done) && Tracks(w, g.DataBitmap(), keys, g.DataAreaStart())
    ensures SameExcept(v, w, DataBitmapRegion(g) + done)
    ensures forall b :: b in done ==> b < |w| && w[b] == ZeroBlock()
    ensures Live(w, g.DataBitmap().start, g.dataBitmapBlocks) == BitsOf(keys, g.DataAreaStart())
  {
    assert Open(0);
  }

  lemma {:induction false} OwnedByOthers(f: Fs, id: nat, owner: map<nat, Slot>)
    requires Core(f) && id < |f.inos| && owner.Keys == f.owner.Keys - Elements(f.own[id])
    ensures forall b :: b in owner <==> b in f.owner && f.owner[b].i != id
  {
    forall b | b in f.owner ensures b in Elements(f.own[id]) <==> f.owner[b].i == id {
      OwnerEntry(f, b);
      if b in Elements(f.own[id]) {
        var k :| 0 <= k < |f.own[id]| && f.own[id][k] == b;
        BlockIsPlaced(f, id, k);
      }
    }
  }

  lemma {:induction false} SetSize(list: seq<nat>, s: set<nat>)
    requires Distinct(list) && forall k :: 0 <= k < |list| ==> list[k] in s
    ensures |s - Elements(list)| == |s| - |list|
  {
    if list == [] {
      assert s - Elements(list) == s;
    } else {
      var n := |list| - 1;
      SetSize(list[..n], s);
      NextOfList(list, n, s);
      assert list[..n + 1] == list;
    }
  }

  lemma {:induction false} ClearedEdit(f: Fs, t: Fs, id: nat)
    requires Edited(f, id) && ClearedBy(f, t, id) && t.inos[id].kind == f.inos[id].kind
    ensures Edited(t, id) && SameLock(f, t, id) && Changed(f, t, id, [])
  {
    EditedCore(f, id);
    ClearIsSound(f, t, id);
    LockIsLow(f, id);
    assert t.inos == f.inos[id := t.inos[id]] by {
      assert Open(0);
    }
    forall b | f.g.InodeAreaStart() <= b < f.g.DataBitmap().start && b < |f.v| ensures t.v[b] == f.v[b] {
      if t.v[b] != f.v[b] {
        ClearedOnly(f, t, id, b);
      }
    }
    TableFrame(f, t, id);
  }

  lemma {:induction false} NotGrown(f: Fs, id: nat)
    requires Edited(f, id)
    ensures GrownTo(f, f, id, f.inos[id].size)
  {
    EditedCore(f, id);
    LockIsLow(f, id);
    assert FileOf(f, id) + Zeros(0) == FileOf(f, id);
  }

  lemma {:induction false} OverwriteIs(f: Fs, t: Fs, u: Fs, id: nat, offset: nat, buf: seq<byte>)
    requires id < |f.inos| == |f.own|
    requires GrownTo(f, t, id, if offset + |buf| < f.inos[id].size then f.inos[id].size else offset + |buf|)
    requires Changed(t, u, id, Splice(FileOf(t, id), offset, buf)) && SameLock(t, u, id)
    ensures Changed(f, u, id, Overwrite(FileOf(f, id), offset, buf)) && SameLock(f, u, id)
  {
  }

  lemma {:induction false} WholeEntries(size: nat)
    requires size % 32 == 0
    ensures size / 32 * 32 == size && (size / 32 + 1) * 32 == size + 32
  {
  }

  lemma {:induction false} AppendIs(f: Fs, t: Fs, u: Fs, entry: seq<byte>)
    requires 0 < |f.inos| == |f.own| && GrownTo(f, t, 0, f.inos[0].size + |entry|)
    requires Changed(t, u, 0, Splice(FileOf(t, 0), f.inos[0].size, entry)) && SameLock(t, u, 0)
    ensures Changed(f, u, 0, FileOf(f, 0) + entry) && SameLock(f, u, 0)
  {
    assert Splice(FileOf(f, 0) + Zeros(|entry|), |FileOf(f, 0)|, entry) == FileOf(f, 0) + entry;
  }

  /** t is f with one more empty file and `entry` at the end of the root directory. */
  ghost predicate Linked(f: Fs, t: Fs, entry: seq<byte>) {
    && 0 < |f.inos| == |f.own| && |t.own| == |t.inos| == |f.inos| + 1 && t.g == f.g
    && FileOf(t, 0) == FileOf(f, 0) + entry && FileOf(t, |f.inos|) == []
    && t.inos[0].kind == f.inos[0].kind && t.inos[|f.inos|].kind == 0
    && forall i :: 1 <= i < |f.inos| ==> t.inos[i] == f.inos[i] && FileOf(t, i) == FileOf(f, i)
  }

  lemma {:induction false} StillFits(f: Fs, t: Fs, size: nat)
    requires Fits(f, 0, size) && t.g == f.g && t.inos == f.inos + [EmptyIno(0)] && |t.own| == |t.inos|
    ensures Fits(t, 0, size)
  {
    assert t.inos[..|f.inos|] == f.inos;
  }

  lemma {:induction false} StillChanged(f: Fs, t: Fs, u: Fs, id: nat)
    requires id < |t.inos| == |t.own| && |u.inos| == |u.own|
    requires Changed(f, t, id, FileOf(t, id)) && u.g == t.g && u.inos == t.inos
    requires forall i :: 0 <= i < |t.inos| ==> FileOf(u, i) == FileOf(t, i)
    ensures Changed(f, u, id, FileOf(t, id))
  {
  }

  lemma {:induction false} InodeBits(f: Fs)
    requires Settled(f)
    ensures Layout(f) && Live(f.v, 1, f.g.inodeBitmapBlocks) == Region(0, |f.inos|)
    ensures |Live(f.v, 1, f.g.inodeBitmapBlocks)| == |f.inos|
  {
    assert Open(0);
    RegionSize(0, |f.inos|);
  }

  lemma {:induction false} NextInode(n: nat, id: nat)
    requires LeastFree(Region(0, n), id)
    ensures id == n
  {
    RegionSize(0, n);
    LeastFreeIsSmall(Region(0, n), id);
    assert id in Region(0, n) <==> id < n;
  }

  lemma {:induction false} AddPlace(f: Fs, u: seq<Block>)
    requires Settled(f) && |f.inos| < f.g.InodeBitmap().Maximum()
    requires SameExcept(f.v, u, Region(1, f.g.inodeBitmapBlocks))
    ensures var b := f.g.InodeBlock(|f.inos|);
      f.g.InodeAreaStart() <= b < f.g.InodeAreaStart() + f.g.inodeAreaBlocks && b < |u| && u[b] == f.v[b]
  {
    InodeBits(f);
    InodePlaces(f.g, |f.inos|, |f.inos|);
  }

  /** Setting the bit (f.v to u) and initializing the inode (u to t.v) add one empty inode. */
  lemma {:induction false} Added(f: Fs, u: seq<Block>, t: Fs, kind: nat)
    requires Settled(f) && kind < 2 && |f.inos| < f.g.InodeBitmap().Maximum() && Layout(f)
    requires t == Fs(f.g, t.v, f.inos + [EmptyIno(kind)], f.own + [[]], f.owner)
    requires SameExcept(f.v, u, Region(1, f.g.inodeBitmapBlocks)) && f.g.InodeBlock(|f.inos|) < |f.v|
    requires Live(u, 1, f.g.inodeBitmapBlocks) == Live(f.v, 1, f.g.inodeBitmapBlocks) + {|f.inos|}
    requires var b := f.g.InodeBlock(|f.inos|);
      t.v == u[b := EncodeIno(u[b], f.g.InodeSlot(|f.inos|), EmptyIno(kind))]
    ensures Settled(t) && FileOf(t, |f.inos|) == []
    ensures forall i :: 0 <= i < |f.inos| ==> FileOf(t, i) == FileOf(f, i)
  {
    AddPlace(f, u);
    LiveFrame(u, t.v, 1, f.g.inodeBitmapBlocks);
    assert Core(f) && Table(f, {}) by {
      assert Open(0);
    }
    AddedTable(f, u, t, kind);
    AddIsSound(f, t, kind);
  }

  lemma {:induction false} AddedTable(f: Fs, u: seq<Block>, t: Fs, kind: nat)
    requires Table(f, {}) && kind < 2 && |f.inos| < f.g.InodeBitmap().Maximum() && Layout(f)
    requires t.g == f.g && t.inos == f.inos + [EmptyIno(kind)] && |u| == |f.v|
    requires SameExcept(f.v, u, Region(1, f.g.inodeBitmapBlocks)) && f.g.InodeBlock(|f.inos|) < |f.v|
    requires var b := f.g.InodeBlock(|f.inos|);
      t.v == u[b := EncodeIno(u[b], f.g.InodeSlot(|f.inos|), EmptyIno(kind))]
    ensures Table(t, {})
  {
    var n := |f.inos|;
    forall i | 0 <= i < |t.inos| ensures InoAt(t.g, t.v, i) == t.inos[i] {
      InodePlaces(f.g, n, i);
      InoReadsBack(u[f.g.InodeBlock(n)], f.g.InodeSlot(n), EmptyIno(kind), f.g.InodeSlot(i));
      if i < n {
        InodePlaces(f.g, i, i);
        assert InoAt(f.g, f.v, i) == f.inos[i];
      }
    }
  }

  /** File id may grow to `size` bytes: within the reach of the index, and with free blocks for it. */
  ghost predicate Fits(f: Fs, id: nat, size: nat) {
    && id < |f.inos| == |f.own| && DataBlocks(size) <= MAX_DATA_BLOCKS
    && (f.inos[id].size <= size ==>
          Used(f.inos) - TotalBlocks(f.inos[id].size) + TotalBlocks(size) <= f.g.dataAreaBlocks)
  }

  lemma OpenedOwns(d: DiskInode, disk: BlockCacheManager, own: seq<nat>)
    requires d.Owns(own, disk)
    ensures disk.Valid() && |d.direct| == 28 && Owned(d.Value(), disk.view) == own
  {
    assert Open(0);
  }

  lemma {:induction false} GrowthFits(size: nat, newSize: nat)
    requires size <= newSize && DataBlocks(newSize) <= MAX_DATA_BLOCKS
    ensures TotalBlocks(size) <= TotalBlocks(newSize) <= MAX_SLOTS
  {
    DataBlocksMonotone(size, newSize);
    SlotsForMonotone(DataBlocks(size), DataBlocks(newSize));
    if DataBlocks(newSize) > 0 {
      SlotsForNext(DataBlocks(newSize) - 1);
    }
  }
}
