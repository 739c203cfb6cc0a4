/** The root directory as an insertion-ordered map from names to inodes. */
module Directory {
  import opened Basics
  import opened Bytes
  import opened Geometries
  import opened FsStates
  import opened DirEntries
  import opened DiskInodes
  import opened Vfs

  type Name = seq<byte>

  /** Where an opened file lives: its number, and the block and byte offset of its inode. */
  datatype Inode = Inode(id: nat, block: nat, offset: nat)

  function InodeOf(g: Geometry, id: nat): Inode {
    Inode(id, g.InodeBlock(id), g.InodeSlot(id) * 128)
  }

  /** The inode with this number really is at this place of the disk. */
  ghost predicate IsThere(f: Fs, view: seq<Block>, at: Inode) {
    && at.offset % 128 == 0 && at.offset < 512 && at.block < |view| && at.id < |f.inos|
    && DecodeIno(view[at.block], at.offset / 128) == f.inos[at.id]
  }

  lemma {:induction false} InodeIsThere(f: Fs, id: nat)
    requires Settled(f) && id < |f.inos|
    ensures IsThere(f, f.v, InodeOf(f.g, id))
  {
    assert Core(f) && Table(f, {}) by {
      assert Open(0);
    }
    LayoutOf(f);
    InodePlaces(f.g, id, id);
    assert InoAt(f.g, f.v, id) == f.inos[id];
    Quarters(id % 4);
  }

  lemma {:induction false} Quarters(q: nat)
    requires q < 4
    ensures q * 128 % 128 == 0 && q * 128 < 512 && q * 128 / 128 == q
  {
  }

  /** Files with different names have inodes at different places. */
  lemma {:induction false} PlacesApart(f: Fs, names: seq<Name>, i: nat, j: nat)
    requires Settled(f) && Lists(f, names) && i < j < |names|
    ensures var a, b := InodeOf(f.g, i + 1), InodeOf(f.g, j + 1); a.block != b.block || a.offset != b.offset
    ensures names[i] != names[j]
  {
    assert Core(f) by {
      assert Open(0);
    }
    LayoutOf(f);
    InodePlaces(f.g, i + 1, j + 1);
    DirFacts(f, names);
  }

  /** Position of a name in creation order, |names| when it is not there. */
  function Position(names: seq<Name>, name: Name): (p: nat)
    ensures p <= |names| && (p < |names| ==> names[p] == name) && forall j :: 0 <= j < p ==> names[j] != name
  {
    if names == [] || names[0] == name then 0 else 1 + Position(names[1..], name)
  }

  /** The bytes of inode 0 are the entries of the names; the i-th name stands for inode i + 1. */
  ghost predicate Lists(f: Fs, names: seq<Name>) {
    && |f.inos| == |names| + 1 == |f.own|
    && forall k: nat {:trigger Open(k)} ::
      && AllLegal(names) && AllDifferent(names) && FileOf(f, 0) == DirBytes(names)
      && f.inos[0].kind == 1 && forall i :: 1 <= i < |f.inos| ==> f.inos[i].kind == 0
  }

  lemma {:induction false} DirFacts(f: Fs, names: seq<Name>)
    requires Lists(f, names)
    ensures AllLegal(names) && AllDifferent(names) && f.inos[0].size == 32 * |names|
    ensures FileOf(f, 0) == DirBytes(names)
  {
    assert Open(0);
  }

  lemma {:induction false} DirSize(f: Fs, names: seq<Name>)
    requires Lists(f, names)
    ensures f.inos[0].size == 32 * |names|
  {
    DirFacts(f, names);
  }

  /** The index reaches 16540 blocks, so inode numbers stay within 32 bits. */
  lemma {:induction false} FewNames(f: Fs, names: seq<Name>)
    requires Core(f) && Lists(f, names)
    ensures |names| < U32_LIMIT
  {
    DirSize(f, names);
    InodeIsSound(f, 0);
  }

  /** Entry i of the directory, as read_at delivers it. */
  lemma {:induction false} EntryRead(f: Fs, names: seq<Name>, i: nat)
    requires Lists(f, names) && i < |names| && |names| < U32_LIMIT
    ensures f.inos[0].size >= 32 * i + 32
    ensures var s := FileOf(f, 0)[32 * i..32 * i + 32];
      NameOf(s) == names[i] && InodeNumber(s) == i + 1
  {
    DirSize(f, names);
    assert AllLegal(names) && FileOf(f, 0) == DirBytes(names) by {
      DirFacts(f, names);
    }
    EntryNamed(names, i);
  }

  lemma {:induction false} EntryNamed(names: seq<Name>, i: nat)
    requires AllLegal(names) && i < |names| < U32_LIMIT
    ensures var s := DirBytes(names)[32 * i..32 * i + 32];
      NameOf(s) == names[i] && InodeNumber(s) == i + 1
  {
    EntryAt(names, i);
    EntryReadsBack(DirBytes(names)[32 * i..32 * i + 32], names[i], i + 1);
  }

  class RootDirectory {
    const fs: FileSystem
    ghost var names: seq<Name>

    ghost predicate Valid()
      reads this, fs, fs.efs.disk
    {
      fs.Idle() && Lists(fs.st, names)
    }

    constructor (fs: FileSystem, ghost names: seq<Name>)
      requires fs.Idle() && Lists(fs.st, names)
      ensures Valid() && this.fs == fs && this.names == names
    {
      this.fs := fs;
      this.names := names;
    }

    /** One round of the scans in find_inode_id and ls: entry i, read under the lock of the root inode. */
    method ReadEntry(d: DiskInode, i: nat, ghost f: Fs, ghost all: seq<Name>) returns (s: seq<byte>)
      requires fs.Editing(f, 0) && Edited(f, 0) && Lists(f, all) && d.Value() == f.inos[0]
      requires i < |all| && |all| < U32_LIMIT
      modifies fs.efs.disk
      ensures fs.Editing(f, 0) && |s| == 32 && NameOf(s) == all[i] && InodeNumber(s) == i + 1
    {
      EntryRead(f, all, i);
      s := ReadRaw(d, 32 * i, f);
    }

    /** 32 bytes of the directory. */
    method ReadRaw(d: DiskInode, at: nat, ghost f: Fs) returns (s: seq<byte>)
      requires fs.Editing(f, 0) && Edited(f, 0) && d.Value() == f.inos[0] && at + 32 <= f.inos[0].size
      modifies fs.efs.disk
      ensures fs.Editing(f, 0) && s == FileOf(f, 0)[at..at + 32]
    {
      fs.OpenOwns(d, f, 0);
      var buf := new byte[32];
      var n := d.ReadAt(at, buf, fs.efs.disk, f.own[0]);
      assert n == 32;
      s := buf[..];
      assert buf[..32] == buf[..];
    }

    /** find_inode_id: the number stored with the first entry that has this name. */
    method FindInodeId(name: Name, d: DiskInode, ghost f: Fs, ghost all: seq<Name>) returns (r: Option<nat>)
      requires fs.Editing(f, 0) && Edited(f, 0) && Lists(f, all) && d.Value() == f.inos[0]
      modifies fs.efs.disk
      ensures fs.Editing(f, 0)
      ensures r == if Position(all, name) < |all| then Some(Position(all, name) + 1) else None
    {
      DirSize(f, all);
      EditedCore(f, 0);
      FewNames(f, all);
      assert d.kind == 1 by {
        assert Open(0);
      }
      var count := d.size / 32;
      var i := 0;
      while i < count
        invariant i <= count && fs.Editing(f, 0) && forall j :: 0 <= j < i ==> all[j] != name
      {
        var s := ReadEntry(d, i, f, all);
        if NameOf(s) == name {
          return Some(InodeNumber(s));
        }
        i := i + 1;
      }
      r := None;
    }

    /** find: the place of the inode that was made for this name, or None. */
    method Find(name: Name) returns (r: Option<Inode>)
      requires Valid()
      modifies fs.efs.disk
      ensures Valid()
      ensures r == if Position(names, name) < |names| then Some(InodeOf(fs.st.g, Position(names, name) + 1)) else None
      ensures r.Some? ==> r.value.id == Position(names, name) + 1 && IsThere(fs.st, fs.efs.disk.view, r.value)
      ensures r.Some? <==> name in names
    {
      var d, _ := fs.OpenInode(0);
      var id := FindInodeId(name, d, fs.st, names);
      fs.Reclose(0);
      fs.IdleIsMounted();
      r := None;
      if id.Some? {
        InodeIsThere(fs.st, id.value);
        r := Some(Inode(id.value, fs.efs.inodeAreaStart + id.value / 4, id.value % 4 * 128));
      }
    }

    /** ls: the names in creation order. */
    method Ls() returns (v: seq<Name>)
      requires Valid()
      modifies fs.efs.disk
      ensures Valid() && v == names
    {
      DirSize(fs.st, names);
      var d, _ := fs.OpenInode(0);
      EditedCore(fs.st, 0);
      FewNames(fs.st, names);
      var count := d.size / 32;
      v := [];
      var i := 0;
      while i < count
        invariant i <= count && v == names[..i] && fs.Editing(fs.st, 0) && d.Value() == fs.st.inos[0]
      {
        var s := ReadEntry(d, i, fs.st, names);
        v := v + [NameOf(s)];
        i := i + 1;
      }
      fs.Reclose(0);
    }

    /** The first modify_disk_inode of create: is the name there already? */
    method Exists(name: Name) returns (found: bool)
      requires Valid()
      modifies fs`st, fs.efs.disk
      ensures Valid() && found == (Position(names, name) < |names|)
      ensures fs.st.g == old(fs.st.g) && fs.st.inos == old(fs.st.inos)
      ensures forall i :: 0 <= i < |fs.st.inos| ==> FileOf(fs.st, i) == old(FileOf(fs.st, i))
    {
      var d, data := fs.OpenInode(0);
      var id := FindInodeId(name, d, fs.st, names);
      found := id.Some?;
      ghost var f := fs.st;
      fs.CloseInode(0, d, data, f);
      SameList(f, fs.st, names);
    }

    /** The rest of create: allocate and initialize the inode, then append its entry. */
    method AddFile(name: Name) returns (id: nat)
      requires Valid() && Legal(name) && Position(names, name) == |names|
      requires |fs.st.inos| < fs.st.g.InodeBitmap().Maximum() && Fits(fs.st, 0, 32 * (|names| + 1))
      modifies this`names, fs`st, fs.efs.disk
      ensures Valid() && fs.st.g == old(fs.st.g) && names == old(names) + [name] && id == |names|
      ensures FileOf(fs.st, id) == [] && forall i :: 1 <= i < id ==> FileOf(fs.st, i) == old(FileOf(fs.st, i))
    {
      DirSize(fs.st, names);
      id := fs.AddLinked(name);
      OneMore(old(fs.st), fs.st, names, name);
      names := names + [name];
    }

    /** create: a new empty file under a new name, or None and no change when the name is taken. */
    method Create(name: Name) returns (r: Option<Inode>)
      requires Valid() && Legal(name)
      requires Position(names, name) == |names| ==>
        |fs.st.inos| < fs.st.g.InodeBitmap().Maximum() && Fits(fs.st, 0, 32 * (|names| + 1))
      modifies this`names, fs`st, fs.efs.disk
      ensures Valid() && fs.st.g == old(fs.st.g)
      ensures r == if Position(old(names), name) < |old(names)| then None else Some(InodeOf(fs.st.g, |names|))
      ensures r.Some? ==> r.value.id == |names| && IsThere(fs.st, fs.efs.disk.view, r.value)
      ensures r.None? <==> name in old(names)
      ensures names == if r.None? then old(names) else old(names) + [name]
      ensures r.Some? ==> FileOf(fs.st, |names|) == []
      ensures forall i :: 1 <= i <= |old(names)| ==> FileOf(fs.st, i) == old(FileOf(fs.st, i))
    {
      var found := Exists(name);
      if found {
        return None;
      }
      var id := AddFile(name);
      fs.IdleIsMounted();
      InodeIsThere(fs.st, id);
      r := Some(Inode(id, fs.efs.inodeAreaStart + id / 4, id % 4 * 128));
    }
  }

  lemma {:induction false} SameList(f: Fs, t: Fs, names: seq<Name>)
    requires Lists(f, names) && t.inos == f.inos && |t.own| == |t.inos| && FileOf(t, 0) == FileOf(f, 0)
    ensures Lists(t, names)
  {
    assert Open(0);
  }

  /** The new inode and its entry extend the list by one name. */
  lemma {:induction false} OneMore(f: Fs, t: Fs, names: seq<Name>, name: Name)
    requires Lists(f, names) && Legal(name) && Position(names, name) == |names|
    requires Linked(f, t, Dirent(name, |f.inos|))
    ensures Lists(t, names + [name])
  {
    var more := names + [name];
    assert AllLegal(names) && AllDifferent(names) && FileOf(f, 0) == DirBytes(names)
      && f.inos[0].kind == 1 && (forall i :: 1 <= i < |f.inos| ==> f.inos[i].kind == 0) by {
      assert Open(0);
    }
    assert more[..|names|] == names;
  }
}
