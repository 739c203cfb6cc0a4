/** What the file system is for: a list of named byte sequences. Every run of creates, writes, clears,
    reads, look-ups and listings on the disk does what the same run does on the list. */
module Volumes {
  import opened Basics
  import opened Bytes
  import opened BlockCaching
  import opened Bitmaps
  import opened IndexTree
  import opened Geometries
  import opened FsStates
  import opened Vfs
  import opened DirEntries
  import opened Directory
  import Mkfs

  /** names[i] names files[i]; both in creation order. */
  datatype Volume = Volume(names: seq<Name>, files: seq<seq<byte>>)

  datatype Op =
    | Create(name: Name)
    | Write(file: nat, offset: nat, buf: seq<byte>)
    | Clear(file: nat)
    | Read(file: nat, offset: nat, len: nat)
    | Find(name: Name)
    | Ls

  datatype Reply =
    | Created(ok: bool)
    | Written(n: nat)
    | Cleared
    | Bytes(data: seq<byte>)
    | Found(file: Option<nat>)
    | Names(all: seq<Name>)

  /** The part of s that a read of at most len bytes at offset sees. */
  function Slice(s: seq<byte>, offset: nat, len: nat): seq<byte> {
    if offset >= |s| then [] else if offset + len < |s| then s[offset..offset + len] else s[offset..]
  }

  function After(v: Volume, op: Op): Volume
    requires Sensible(v, op)
  {
    match op
    case Create(name) =>
      if Position(v.names, name) < |v.names| then v else Volume(v.names + [name], v.files + [[]])
    case Write(i, offset, buf) => v.(files := v.files[i := Overwrite(v.files[i], offset, buf)])
    case Clear(i) => v.(files := v.files[i := []])
    case _ => v
  }

  function ReplyTo(v: Volume, op: Op): Reply
    requires Sensible(v, op)
  {
    match op
    case Create(name) => Created(Position(v.names, name) == |v.names|)
    case Write(_, _, buf) => Written(|buf|)
    case Clear(_) => Cleared
    case Read(i, offset, len) => Bytes(Slice(v.files[i], offset, len))
    case Find(name) => Found(if Position(v.names, name) < |v.names| then Some(Position(v.names, name)) else None)
    case Ls => Names(v.names)
  }

  /** What the callers owe: files that exist, legal names, nonempty buffers. */
  ghost predicate Sensible(v: Volume, op: Op) {
    && |v.names| == |v.files|
    && match op
       case Create(name) => Legal(name)
       case Write(i, _, buf) => i < |v.files| && 0 < |buf|
       case Clear(i) => i < |v.files|
       case Read(i, _, _) => i < |v.files|
       case _ => true
  }

  // ----- capacity

  /** Data and index blocks that files of these sizes take. */
  function Blocks(sizes: seq<nat>): nat {
    if sizes == [] then 0 else Blocks(sizes[..|sizes| - 1]) + TotalBlocks(sizes[|sizes| - 1])
  }

  /** The sizes of the root directory and of all files. */
  function Sizes(v: Volume): (s: seq<nat>)
    ensures |s| == |v.files| + 1
  {
    [32 * |v.names|] + seq(|v.files|, i requires 0 <= i < |v.files| => |v.files[i]|)
  }

  ghost predicate AllWithinReach(sizes: seq<nat>) {
    forall i :: 0 <= i < |sizes| ==> DataBlocks(sizes[i]) <= MAX_DATA_BLOCKS
  }

  /** The volume fits on a disk of geometry g: inodes, index reach and data blocks suffice. */
  ghost predicate HasRoom(g: Geometry, v: Volume) {
    && |v.names| + 1 <= g.InodeBitmap().Maximum()
    && AllWithinReach(Sizes(v)) && Blocks(Sizes(v)) <= g.dataAreaBlocks
  }

  /** The capacity in numbers: 4096 inodes to a bitmap block, files and directory of at most 16540 blocks each, and all
      their blocks together in the data area. */
  lemma {:induction false} RoomIs(g: Geometry, v: Volume)
    ensures HasRoom(g, v) <==>
      && |v.names| + 1 <= 4096 * g.inodeBitmapBlocks && 32 * |v.names| <= 16540 * 512
      && (forall i :: 0 <= i < |v.files| ==> |v.files[i]| <= 16540 * 512) && Blocks(Sizes(v)) <= g.dataAreaBlocks
  {
    var sizes := Sizes(v);
    forall i | 0 <= i < |sizes| ensures DataBlocks(sizes[i]) <= MAX_DATA_BLOCKS <==> sizes[i] <= 16540 * 512 {
      ReachIs(sizes[i]);
    }
    assert sizes[0] == 32 * |v.names|;
    forall i | 0 <= i < |v.files| ensures sizes[i + 1] == |v.files[i]| {
    }
  }

  lemma {:induction false} ReachIs(size: nat)
    ensures DataBlocks(size) <= MAX_DATA_BLOCKS <==> size <= 16540 * 512
  {
  }

  /** Files take their blocks one by one. */
  lemma {:induction false} BlocksIs(sizes: seq<nat>, size: nat)
    ensures Blocks([]) == 0 && Blocks(sizes + [size]) == Blocks(sizes) + TotalBlocks(size)
  {
    assert (sizes + [size])[..|sizes|] == sizes;
  }

  /** The operation makes sense and, where it makes something grow, the result fits. */
  ghost predicate Allowed(g: Geometry, v: Volume, op: Op) {
    Sensible(v, op) && (op.Create? || op.Write? ==> HasRoom(g, After(v, op)))
  }

  /** The volume after a run, and the replies on the way. */
  ghost function Outcome(g: Geometry, v: Volume, ops: seq<Op>): (Volume, seq<Reply>)
    requires AllAllowed(g, v, ops)
    decreases |ops|
  {
    if ops == [] then (v, [])
    else
      var (w, replies) := Outcome(g, After(v, ops[0]), ops[1..]);
      (w, [ReplyTo(v, ops[0])] + replies)
  }

  ghost predicate AllAllowed(g: Geometry, v: Volume, ops: seq<Op>)
    decreases |ops|
  {
    ops == [] || (Allowed(g, v, ops[0]) && AllAllowed(g, After(v, ops[0]), ops[1..]))
  }

  // ----- laws of the abstract volume

  /** What each operation is for, without naming how it is computed: w is the volume after op on v, and reply its
      result. */
  ghost predicate Meant(v: Volume, op: Op, w: Volume, reply: Reply)
    requires Sensible(v, op)
  {
    match op
    case Create(name) =>
      if name in v.names then w == v && reply == Created(false)
      else w.names == v.names + [name] && w.files == v.files + [[]] && reply == Created(true)
    case Write(i, offset, buf) =>
      && w.names == v.names && OthersSame(v, w, i) && Overlaid(v.files[i], offset, buf, w.files[i])
      && reply == Written(|buf|)
    case Clear(i) => w.names == v.names && OthersSame(v, w, i) && w.files[i] == [] && reply == Cleared
    case Read(i, offset, len) => w == v && reply.Bytes? && IsPart(reply.data, v.files[i], offset, len)
    case Find(name) =>
      && w == v && reply.Found? && (reply.file.Some? <==> name in v.names)
      && (reply.file.Some? ==> reply.file.value < |v.names| && v.names[reply.file.value] == name)
    case Ls => w == v && reply == Names(v.names)
  }

  ghost predicate OthersSame(v: Volume, w: Volume, i: nat) {
    i < |v.files| == |w.files| && forall j :: 0 <= j < |v.files| && j != i ==> w.files[j] == v.files[j]
  }

  /** r is s with buf over it at offset, and zeros in a gap. */
  ghost predicate Overlaid(s: seq<byte>, offset: nat, buf: seq<byte>, r: seq<byte>) {
    && |r| == (if offset + |buf| < |s| then |s| else offset + |buf|)
    && forall p :: 0 <= p < |r| ==>
         r[p] == if offset <= p < offset + |buf| then buf[p - offset] else if p < |s| then s[p] else 0
  }

  /** data is what s has from offset on, at most len bytes. */
  ghost predicate IsPart(data: seq<byte>, s: seq<byte>, offset: nat, len: nat) {
    && |data| == (if offset >= |s| then 0 else if offset + len < |s| then len else |s| - offset)
    && forall p :: 0 <= p < |data| ==> data[p] == s[offset + p]
  }

  lemma {:induction false} OpsMean(v: Volume, op: Op)
    requires Sensible(v, op)
    ensures Meant(v, op, After(v, op), ReplyTo(v, op))
  {
    match op
    case Create(name) => NameIsThere(v.names, name);
    case Write(i, offset, buf) =>
      var s := v.files[i];
      var r := Overwrite(s, offset, buf);
      forall p | 0 <= p < |r|
        ensures r[p] == if offset <= p < offset + |buf| then buf[p - offset] else if p < |s| then s[p] else 0
      {
        OverwriteBytes(s, offset, buf, p);
      }
    case Clear(i) =>
    case Read(i, offset, len) =>
    case Find(name) => NameIsThere(v.names, name);
    case Ls =>
  }

  lemma {:induction false} NameIsThere(names: seq<Name>, name: Name)
    ensures Position(names, name) < |names| <==> name in names
  {
  }

  /** After a clear the file has no bytes to read; reads of other files, look-ups and listings are as before. */
  lemma {:induction false} ClearEmpties(v: Volume, i: nat, at: nat, len: nat, j: nat, name: Name)
    requires Sensible(v, Clear(i)) && j < |v.files|
    ensures var w := After(v, Clear(i));
      && |w.names| == |w.files| == |v.files| && ReplyTo(w, Read(i, at, len)) == Bytes([])
      && (j != i ==> ReplyTo(w, Read(j, at, len)) == ReplyTo(v, Read(j, at, len)))
      && ReplyTo(w, Find(name)) == ReplyTo(v, Find(name)) && ReplyTo(w, Ls) == ReplyTo(v, Ls)
  {
  }

  /** When an operation is allowed: it names a file that exists, and what it makes fits the inodes, the reach of the
      index and the data area. */
  lemma {:induction false} AllowedIs(g: Geometry, v: Volume, op: Op)
    requires |v.names| == |v.files|
    ensures op.Find? || op.Ls? ==> Allowed(g, v, op)
    ensures op.Read? || op.Clear? ==> (Allowed(g, v, op) <==> op.file < |v.files|)
    ensures op.Write? ==>
      (Allowed(g, v, op) <==> op.file < |v.files| && op.buf != [] && HasRoom(g, After(v, op)))
    ensures op.Create? ==>
      (Allowed(g, v, op) <==>
        |op.name| <= 27 && (forall k :: 0 <= k < |op.name| ==> op.name[k] != 0) && HasRoom(g, After(v, op)))
  {
  }

  /** A write, byte by byte: the buffer, then the old bytes, then zeros in the gap. */
  lemma {:induction false} OverwriteBytes(s: seq<byte>, offset: nat, buf: seq<byte>, p: nat)
    requires p < |Overwrite(s, offset, buf)|
    ensures Overwrite(s, offset, buf)[p]
         == if offset <= p < offset + |buf| then buf[p - offset] else if p < |s| then s[p] else 0
  {
  }

  /** A read of what was just written returns it, and a read of another file what it returned before. */
  lemma {:induction false} ReadsSeeWrites(v: Volume, i: nat, offset: nat, buf: seq<byte>, j: nat, at: nat, len: nat)
    requires Sensible(v, Write(i, offset, buf)) && j < |v.files|
    ensures var w := After(v, Write(i, offset, buf));
      && ReplyTo(w, Read(i, offset, |buf|)) == Bytes(buf)
      && (j != i ==> ReplyTo(w, Read(j, at, len)) == ReplyTo(v, Read(j, at, len)))
  {
    var s := Overwrite(v.files[i], offset, buf);
    assert Slice(s, offset, |buf|) == buf by {
      assert s[offset..offset + |buf|] == buf;
    }
  }

  /** After a create the new name is found at the end, every other name where it was. */
  lemma {:induction false} FindsCreated(v: Volume, name: Name, other: Name)
    requires Sensible(v, Create(name))
    ensures var w := After(v, Create(name));
      && ReplyTo(w, Find(name)).file.Some? && w.names[ReplyTo(w, Find(name)).file.value] == name
      && (other != name ==> ReplyTo(w, Find(other)) == ReplyTo(v, Find(other)))
      && (ReplyTo(v, Find(name)).file.Some? ==> w == v)
      && !ReplyTo(w, Create(name)).ok && After(w, Create(name)) == w
  {
    PositionInFront(v.names, name, name);
    PositionInFront(v.names, name, other);
  }

  lemma {:induction false} PositionInFront(names: seq<Name>, last: Name, name: Name)
    ensures Position(names + [last], name)
      == if Position(names, name) < |names| then Position(names, name)
         else if name == last then |names| else |names| + 1
  {
    if names != [] && names[0] != name {
      PositionInFront(names[1..], last, name);
      assert (names + [last])[1..] == names[1..] + [last];
    }
  }

  // ----- the disk behind it

  lemma {:induction false} UsedIsBlocks(inos: seq<Ino>, sizes: seq<nat>)
    requires |inos| == |sizes| && forall i :: 0 <= i < |inos| ==> inos[i].size == sizes[i]
    ensures Used(inos) == Blocks(sizes)
  {
    if inos != [] {
      UsedIsBlocks(inos[..|inos| - 1], sizes[..|sizes| - 1]);
    }
  }

  ghost function VolumeOf(f: Fs, names: seq<Name>): Volume
    requires |f.inos| == |f.own| == |names| + 1
  {
    Volume(names, seq(|names|, i requires 0 <= i < |names| => FileOf(f, i + 1)))
  }

  lemma {:induction false} InodeSizes(f: Fs, names: seq<Name>)
    requires Lists(f, names)
    ensures forall i :: 0 <= i < |f.inos| ==> f.inos[i].size == Sizes(VolumeOf(f, names))[i]
    ensures Used(f.inos) == Blocks(Sizes(VolumeOf(f, names)))
  {
    DirSize(f, names);
    UsedIsBlocks(f.inos, Sizes(VolumeOf(f, names)));
  }

  /** Room for the result of growing file id is room for the blocks it needs. */
  lemma {:induction false} RoomFits(f: Fs, names: seq<Name>, id: nat, size: nat, w: Volume)
    requires Lists(f, names) && id < |f.inos| && HasRoom(f.g, w) && |w.files| >= |names|
    requires forall i :: 0 <= i <= |names| ==>
      Sizes(w)[i] == if i == id then (if size < f.inos[id].size then f.inos[id].size else size) else f.inos[i].size
    requires forall i :: |names| < i < |Sizes(w)| ==> Sizes(w)[i] == 0
    ensures Fits(f, id, size)
  {
    var grown := f.inos[id := f.inos[id].(size := Sizes(w)[id])];
    UsedUpdate(f.inos, id, f.inos[id].(size := Sizes(w)[id]));
    UsedIsBlocks(grown, Sizes(w)[..|grown|]);
    EmptyTakesNothing(Sizes(w), |grown|);
    assert DataBlocks(Sizes(w)[id]) <= MAX_DATA_BLOCKS;
  }

  lemma {:induction false} EmptyTakesNothing(sizes: seq<nat>, n: nat)
    requires n <= |sizes| && forall i :: n <= i < |sizes| ==> sizes[i] == 0
    ensures Blocks(sizes[..n]) == Blocks(sizes)
  {
    if n == |sizes| {
      assert sizes[..n] == sizes;
    } else {
      EmptyTakesNothing(sizes[..|sizes| - 1], n);
      assert sizes[..|sizes| - 1][..n] == sizes[..n];
    }
  }

  class MountedVolume {
    const dir: RootDirectory

    ghost predicate Valid()
      reads this, dir, dir.fs, dir.fs.efs.disk
    {
      dir.Valid()
    }

    ghost function Abs(): (v: Volume)
      requires Valid()
      reads this, dir, dir.fs, dir.fs.efs.disk
      ensures |v.names| == |v.files|
    {
      VolumeOf(dir.fs.st, dir.names)
    }

    ghost function Disk(): Geometry
      reads this, dir, dir.fs
    {
      dir.fs.st.g
    }

    constructor (dir: RootDirectory)
      requires dir.Valid()
      ensures this.dir == dir && Valid()
    {
      this.dir := dir;
    }

    method Create(name: Name) returns (ok: bool)
      requires Valid() && Allowed(Disk(), Abs(), Op.Create(name))
      modifies dir`names, dir.fs`st, dir.fs.efs.disk
      ensures Valid() && Disk() == old(Disk()) && Abs() == After(old(Abs()), Op.Create(name))
      ensures Created(ok) == ReplyTo(old(Abs()), Op.Create(name))
    {
      ghost var v := Abs();
      if Position(dir.names, name) == |dir.names| {
        CreateFits(dir.fs.st, dir.names, name);
      }
      ghost var f, names := dir.fs.st, dir.names;
      var r := dir.Create(name);
      ok := r.Some?;
      FilesKept(f, dir.fs.st, names, dir.names, name);
    }

    method Write(i: nat, offset: nat, buf: seq<byte>) returns (n: nat)
      requires Valid() && Allowed(Disk(), Abs(), Op.Write(i, offset, buf))
      modifies dir.fs`st, dir.fs.efs.disk
      ensures Valid() && Disk() == old(Disk()) && Abs() == After(old(Abs()), Op.Write(i, offset, buf)) && n == |buf|
    {
      WriteFits(dir.fs.st, dir.names, i, offset, buf);
      n := dir.fs.WriteInode(i + 1, offset, buf);
      FileChanged(old(dir.fs.st), dir.fs.st, dir.names, i, Overwrite(old(Abs()).files[i], offset, buf));
    }

    method Clear(i: nat)
      requires Valid() && Sensible(Abs(), Op.Clear(i))
      modifies dir.fs`st, dir.fs.efs.disk
      ensures Valid() && Disk() == old(Disk()) && Abs() == After(old(Abs()), Op.Clear(i))
    {
      dir.fs.ClearInode(i + 1);
      FileChanged(old(dir.fs.st), dir.fs.st, dir.names, i, []);
    }

    method Read(i: nat, offset: nat, len: nat) returns (data: seq<byte>)
      requires Valid() && i < |Abs().files|
      modifies dir.fs.efs.disk
      ensures Valid() && Disk() == old(Disk()) && Abs() == old(Abs()) && data == Slice(Abs().files[i], offset, len)
    {
      var buf := new byte[len];
      var n := dir.fs.ReadInode(i + 1, offset, buf);
      data := buf[..n];
    }

    method Find(name: Name) returns (i: Option<nat>)
      requires Valid()
      modifies dir.fs.efs.disk
      ensures Valid() && Disk() == old(Disk()) && Abs() == old(Abs()) && Found(i) == ReplyTo(Abs(), Op.Find(name))
    {
      var r := dir.Find(name);
      i := if r.Some? then Some(r.value.id - 1) else None;
    }

    method Ls() returns (all: seq<Name>)
      requires Valid()
      modifies dir.fs.efs.disk
      ensures Valid() && Disk() == old(Disk()) && Abs() == old(Abs()) && all == Abs().names
    {
      all := dir.Ls();
    }

    method Execute(op: Op) returns (reply: Reply)
      requires Valid() && Allowed(Disk(), Abs(), op)
      modifies dir`names, dir.fs`st, dir.fs.efs.disk
      ensures Valid() && Disk() == old(Disk())
      ensures Abs() == After(old(Abs()), op) && reply == ReplyTo(old(Abs()), op)
      ensures Meant(old(Abs()), op, Abs(), reply)
    {
      OpsMean(Abs(), op);
      match op {
        case Create(name) =>
          var ok := Create(name);
          reply := Created(ok);
        case Write(i, offset, buf) =>
          var n := Write(i, offset, buf);
          reply := Written(n);
        case Clear(i) =>
          Clear(i);
          reply := Cleared;
        case Read(i, offset, len) =>
          var data := Read(i, offset, len);
          reply := Bytes(data);
        case Find(name) =>
          var i := Find(name);
          reply := Found(i);
        case Ls =>
          var all := Ls();
          reply := Names(all);
      }
    }

    /** Every run on the disk gives the replies, and leaves the files, of the same run on the volume. */
    method Run(ops: seq<Op>) returns (replies: seq<Reply>)
      requires Valid() && AllAllowed(Disk(), Abs(), ops)
      modifies dir`names, dir.fs`st, dir.fs.efs.disk
      ensures Valid() && Disk() == old(Disk())
      ensures (Abs(), replies) == Outcome(old(Disk()), old(Abs()), ops)
      decreases |ops|
    {
      if ops == [] {
        return [];
      }
      var first := Execute(ops[0]);
      var rest := Run(ops[1..]);
      replies := [first] + rest;
    }
  }

  /** The files before a create, and after it an empty one when the name is new. */
  lemma {:induction false} FilesKept(f: Fs, t: Fs, names: seq<Name>, more: seq<Name>, name: Name)
    requires |f.inos| == |f.own| == |names| + 1 && |t.inos| == |t.own| == |more| + 1
    requires more == if Position(names, name) < |names| then names else names + [name]
    requires forall i :: 1 <= i <= |names| ==> FileOf(t, i) == FileOf(f, i)
    requires more != names ==> FileOf(t, |more|) == []
    ensures VolumeOf(t, more).files
         == if more == names then VolumeOf(f, names).files else VolumeOf(f, names).files + [[]]
  {
    forall i | 0 <= i < |names| ensures VolumeOf(t, more).files[i] == VolumeOf(f, names).files[i] {
      assert FileOf(t, i + 1) == FileOf(f, i + 1);
    }
  }

  lemma {:induction false} WriteFits(f: Fs, names: seq<Name>, i: nat, offset: nat, buf: seq<byte>)
    requires Lists(f, names) && Allowed(f.g, VolumeOf(f, names), Op.Write(i, offset, buf))
    ensures Fits(f, i + 1, offset + |buf|)
  {
    var w := After(VolumeOf(f, names), Op.Write(i, offset, buf));
    InodeSizes(f, names);
    RoomFits(f, names, i + 1, offset + |buf|, w);
  }

  /** A change of file i + 1 alone is a change of the i-th named file alone. */
  lemma {:induction false} FileChanged(f: Fs, t: Fs, names: seq<Name>, i: nat, content: seq<byte>)
    requires Lists(f, names) && i < |names| && Changed(f, t, i + 1, content)
    ensures Lists(t, names) && VolumeOf(t, names) == Volume(names, VolumeOf(f, names).files[i := content])
  {
    assert Lists(t, names) by {
      assert Open(0);
    }
    assert VolumeOf(t, names).files == VolumeOf(f, names).files[i := content];
  }

  /** Capacity: in every reachable state the files, their index blocks and the directory fit the data area. */
  lemma {:induction false} AlwaysHasRoom(f: Fs, names: seq<Name>)
    requires Settled(f) && Lists(f, names)
    ensures HasRoom(f.g, VolumeOf(f, names))
  {
    assert Core(f) by {
      assert Open(0);
    }
    LayoutOf(f);
    InodeSizes(f, names);
    UsedIsCounted(f);
    forall i | 0 <= i < |f.inos| ensures DataBlocks(Sizes(VolumeOf(f, names))[i]) <= MAX_DATA_BLOCKS {
      InodeIsSound(f, i);
    }
    forall b | b in f.owner.Keys ensures b in Region(f.g.DataAreaStart(), f.g.dataAreaBlocks) {
      OwnerEntry(f, b);
    }
    RegionSize(f.g.DataAreaStart(), f.g.dataAreaBlocks);
    SubsetCount(f.owner.Keys, Region(f.g.DataAreaStart(), f.g.dataAreaBlocks));
  }

  lemma {:induction false} CreateFits(f: Fs, names: seq<Name>, name: Name)
    requires Lists(f, names) && Position(names, name) == |names|
    requires Allowed(f.g, VolumeOf(f, names), Op.Create(name))
    ensures |f.inos| < f.g.InodeBitmap().Maximum() && Fits(f, 0, 32 * (|names| + 1))
  {
    var v := VolumeOf(f, names);
    var w := After(v, Op.Create(name));
    InodeSizes(f, names);
    SizesCreated(v, w);
    forall i | 0 <= i <= |names| ensures Sizes(w)[i] == if i == 0 then 32 * (|names| + 1) else f.inos[i].size {
      assert f.inos[i].size == Sizes(v)[i];
    }
    assert f.inos[0].size == Sizes(v)[0] == 32 * |names|;
    RoomFits(f, names, 0, 32 * (|names| + 1), w);
  }

  lemma {:induction false} SizesCreated(v: Volume, w: Volume)
    requires |w.files| == |v.files| + 1 == |w.names| == |v.names| + 1 && w.files == v.files + [[]]
    ensures Sizes(w)[0] == Sizes(v)[0] + 32 && Sizes(w)[|v.files| + 1] == 0
    ensures forall i :: 1 <= i <= |v.files| ==> Sizes(w)[i] == Sizes(v)[i]
  {
    forall i | 1 <= i <= |v.files| ensures Sizes(w)[i] == Sizes(v)[i] {
      assert w.files[i - 1] == v.files[i - 1];
    }
  }

  /** A whole life: create the file system on any device, run, open it again from what is on the disk, run on. */
  method Lifetime(disk: BlockCacheManager, total: nat, inodeBitmapBlocks: nat, before: seq<Op>, after: seq<Op>)
    returns (vol: MountedVolume, replies: seq<Reply>)
    requires disk.Valid() && disk.held == {} && total <= |disk.view| <= U32_LIMIT && total < U32_LIMIT
    requires inodeBitmapBlocks >= 1 && total >= 1 + inodeBitmapBlocks + inodeBitmapBlocks * 1024
    requires AllAllowed(Planned(total, inodeBitmapBlocks), Volume([], []), before + after)
    modifies disk
    ensures vol.Valid() && vol.Disk() == Planned(total, inodeBitmapBlocks)
    ensures (vol.Abs(), replies) == Outcome(vol.Disk(), Volume([], []), before + after)
  {
    ghost var g := Planned(total, inodeBitmapBlocks);
    OutcomeSplits(g, Volume([], []), before, after);
    var dir := Mkfs.Create(disk, total, inodeBitmapBlocks);
    vol := new MountedVolume(dir);
    assert vol.Abs() == Volume([], []);
    var first := vol.Run(before);
    dir.fs.IdleIsMounted();
    dir := Mkfs.Reopen(disk, dir.fs.st, dir.names);
    vol := new MountedVolume(dir);
    var second := vol.Run(after);
    replies := first + second;
  }

  lemma {:induction false} OutcomeSplits(g: Geometry, v: Volume, before: seq<Op>, after: seq<Op>)
    requires AllAllowed(g, v, before + after)
    ensures AllAllowed(g, v, before) && AllAllowed(g, Outcome(g, v, before).0, after)
    ensures Outcome(g, v, before + after).0 == Outcome(g, Outcome(g, v, before).0, after).0
    ensures Outcome(g, v, before + after).1 == Outcome(g, v, before).1 + Outcome(g, Outcome(g, v, before).0, after).1
    decreases |before|
  {
    if before == [] {
      assert before + after == after;
    } else {
      var all, w, reply := before + after, After(v, before[0]), ReplyTo(v, before[0]);
      FirstOf(before, after);
      OutcomeFirst(g, v, all);
      OutcomeSplits(g, w, before[1..], after);
      OutcomeFirst(g, v, before);
      var x, y := Outcome(g, w, before[1..]), Outcome(g, Outcome(g, w, before[1..]).0, after);
      Associates(reply, x.1, y.1);
    }
  }

  lemma {:induction false} FirstOf(before: seq<Op>, after: seq<Op>)
    requires before != []
    ensures (before + after)[0] == before[0] && (before + after)[1..] == before[1..] + after
  {
  }

  lemma {:induction false} Associates(r: Reply, x: seq<Reply>, y: seq<Reply>)
    ensures [r] + (x + y) == ([r] + x) + y
  {
  }

  lemma {:induction false} OutcomeFirst(g: Geometry, v: Volume, ops: seq<Op>)
    requires AllAllowed(g, v, ops) && ops != []
    ensures Outcome(g, v, ops).0 == Outcome(g, After(v, ops[0]), ops[1..]).0
    ensures Outcome(g, v, ops).1 == [ReplyTo(v, ops[0])] + Outcome(g, After(v, ops[0]), ops[1..]).1
  {
  }
}
