/** Directory entries: 28 name bytes, NUL-padded, and a little-endian inode number. */
module DirEntries {
  import opened Bytes

  const NAME_LENGTH_LIMIT := 27
  const DIRENT_SZ := 32

  /** A name the directory can hold: at most 27 bytes, none of them NUL. */
  ghost predicate Legal(name: seq<byte>) {
    |name| <= NAME_LENGTH_LIMIT && forall k :: 0 <= k < |name| ==> name[k] != 0
  }

  /** DirEntry::new followed by into_bytes. */
  function Dirent(name: seq<byte>, inode: nat): (s: seq<byte>)
    requires |name| <= NAME_LENGTH_LIMIT
    ensures |s| == DIRENT_SZ
  {
    name + Zeros(28 - |name|) + [ByteOf(inode, 0), ByteOf(inode, 1), ByteOf(inode, 2), ByteOf(inode, 3)]
  }

  /** An entry in bytes: the name, zeros up to byte 28, and the inode number, lowest byte first. */
  lemma {:induction false} DirentFormat(name: seq<byte>, inode: nat, k: nat)
    requires |name| <= 27 && k < 28
    ensures var s := Dirent(name, inode);
      && |s| == 32 && s[k] == (if k < |name| then name[k] else 0) && s[28] == inode % 256
      && s[29] == inode / 256 % 256 && s[30] == inode / 65536 % 256 && s[31] == inode / 16777216 % 256
  {
  }

  /** Length of the name: the first NUL among the name bytes from k on, 28 when there is none. */
  function NameLen(s: seq<byte>, k: nat): (n: nat)
    requires |s| == DIRENT_SZ && k <= 28
    ensures k <= n <= 28 && (n < 28 ==> s[n] == 0) && forall j :: k <= j < n ==> s[j] != 0
    decreases 28 - k
  {
    if k == 28 || s[k] == 0 then k else NameLen(s, k + 1)
  }

  function NameOf(s: seq<byte>): seq<byte>
    requires |s| == DIRENT_SZ
  {
    s[..NameLen(s, 0)]
  }

  function InodeNumber(s: seq<byte>): nat
    requires |s| == DIRENT_SZ
  {
    (s[28] as int) + 0x100 * (s[29] as int) + 0x1_0000 * (s[30] as int) + 0x100_0000 * (s[31] as int)
  }

  /** What goes into an entry comes out of it; the scan for NUL stops inside the 28 bytes. */
  lemma DirentReadsBack(name: seq<byte>, inode: nat)
    requires Legal(name) && inode < U32_LIMIT
    ensures NameOf(Dirent(name, inode)) == name && NameLen(Dirent(name, inode), 0) < 28
    ensures InodeNumber(Dirent(name, inode)) == inode
  {
    var s := Dirent(name, inode);
    assert s[|name|] == 0 && forall k :: 0 <= k < |name| ==> s[k] == name[k];
    assert NameLen(s, 0) == |name|;
    BytesOfWord(inode);
  }

  /** The contents of the root directory after creating files with these names, in this order: the i-th
      name stands for inode i + 1. */
  function DirBytes(names: seq<seq<byte>>): (s: seq<byte>)
    requires forall i :: 0 <= i < |names| ==> |names[i]| <= NAME_LENGTH_LIMIT
    ensures |s| == DIRENT_SZ * |names|
  {
    if names == [] then []
    else DirBytes(names[..|names| - 1]) + Dirent(names[|names| - 1], |names|)
  }

  lemma {:induction false} EntryAt(names: seq<seq<byte>>, i: nat)
    requires forall j :: 0 <= j < |names| ==> |names[j]| <= NAME_LENGTH_LIMIT
    requires i < |names|
    ensures DirBytes(names)[32 * i..32 * i + 32] == Dirent(names[i], i + 1)
  {
    var n := |names| - 1;
    var front, last := DirBytes(names[..n]), Dirent(names[n], n + 1);
    assert DirBytes(names) == front + last && |front| == 32 * n;
    if i < n {
      EntryAt(names[..n], i);
      InFront(front, last, 32 * i, 32 * i + 32);
    } else {
      AtEnd(front, last);
    }
  }

  lemma {:induction false} InFront(a: seq<byte>, b: seq<byte>, lo: nat, hi: nat)
    requires lo <= hi <= |a|
    ensures (a + b)[lo..hi] == a[lo..hi]
  {
  }

  lemma {:induction false} AtEnd(a: seq<byte>, b: seq<byte>)
    ensures (a + b)[|a|..|a| + |b|] == b
  {
  }

  /** The two halves of an entry, wherever it stands. */
  lemma {:induction false} EntryReadsBack(s: seq<byte>, name: seq<byte>, inode: nat)
    requires Legal(name) && inode < U32_LIMIT && s == Dirent(name, inode)
    ensures NameOf(s) == name && InodeNumber(s) == inode
  {
    DirentReadsBack(name, inode);
  }

  ghost predicate AllLegal(names: seq<seq<byte>>) {
    forall i :: 0 <= i < |names| ==> Legal(names[i])
  }

  ghost predicate AllDifferent(names: seq<seq<byte>>) {
    forall i, j :: 0 <= i < j < |names| ==> names[i] != names[j]
  }
}
