/** The bytes of a file, read through the blocks it owns. */
module FileBytes {
  import opened Basics
  import opened Bytes
  import opened IndexTree

  function ByteAt(v: seq<Block>, b: nat, q: nat): byte
    requires q < 512
  {
    if b < |v| then v[b][q] else 0
  }

  /** The block that holds data block i. */
  function DataBlock(own: seq<nat>, i: nat): nat {
    if DataSlot(i) < |own| then own[DataSlot(i)] else 0
  }

  /** All bytes of the first n data blocks, including those past the end of the file. */
  function Raw(v: seq<Block>, own: seq<nat>, n: nat): (s: seq<byte>)
    ensures |s| == 512 * n
  {
    seq(512 * n, p requires 0 <= p < 512 * n => ByteAt(v, DataBlock(own, p / 512), p % 512))
  }

  /** The file as a byte sequence. */
  function Content(v: seq<Block>, own: seq<nat>, size: nat): (s: seq<byte>)
    ensures |s| == size
  {
    Raw(v, own, DataBlocks(size))[..size]
  }

  /** Byte p of a file is byte p % 512 of its data block number p / 512. */
  lemma {:induction false} ContentByte(v: seq<Block>, own: seq<nat>, size: nat, p: nat)
    requires p < size && DataBlock(own, p / 512) < |v|
    ensures Content(v, own, size)[p] == v[DataBlock(own, p / 512)][p % 512]
  {
  }

  /** Nothing but zeros behind the end of the file in its last block. */
  ghost predicate ZeroTail(v: seq<Block>, own: seq<nat>, size: nat) {
    Raw(v, own, DataBlocks(size))[size..] == Zeros(512 * DataBlocks(size) - size)
  }

  /** s with src laid over it at offset off. */
  function Splice(s: seq<byte>, off: nat, src: seq<byte>): (r: seq<byte>)
    requires off + |src| <= |s|
    ensures |r| == |s|
  {
    s[..off] + src + s[off + |src|..]
  }

  lemma DataBlockOwned(own: seq<nat>, n: nat, i: nat)
    requires i < n <= MAX_DATA_BLOCKS && |own| >= SlotsFor(n)
    ensures DataSlot(i) < |own| && DataBlock(own, i) == own[DataSlot(i)]
  {
    DataSlotOwned(i, n);
  }

  /** The bytes depend on the data blocks alone. */
  lemma RawFrame(v: seq<Block>, w: seq<Block>, own: seq<nat>, n: nat)
    requires n <= MAX_DATA_BLOCKS && |own| >= SlotsFor(n) && |v| == |w| && Below(own, |v|)
    requires forall k :: 0 <= k < |own| && !IsIndexSlot(k) ==> v[own[k]] == w[own[k]]
    ensures Raw(w, own, n) == Raw(v, own, n)
  {
    forall p | 0 <= p < 512 * n ensures Raw(w, own, n)[p] == Raw(v, own, n)[p] {
      DataSlotOwned(p / 512, n);
    }
  }

  /** Growing by blocks whose data blocks are zero appends zeros. */
  lemma RawGrows(v: seq<Block>, own: seq<nat>, more: seq<nat>, n: nat, m: nat)
    requires n <= m <= MAX_DATA_BLOCKS && |own| == SlotsFor(n) && |own| + |more| == SlotsFor(m)
    requires Below(own, |v|) && Below(more, |v|)
    requires forall k :: 0 <= k < |more| && !IsIndexSlot(|own| + k) ==> v[more[k]] == ZeroBlock()
    ensures Raw(v, own + more, m) == Raw(v, own, n) + Zeros(512 * (m - n))
  {
    var all := own + more;
    forall p | 0 <= p < 512 * m
      ensures Raw(v, all, m)[p] == (Raw(v, own, n) + Zeros(512 * (m - n)))[p]
    {
      var i := p / 512;
      DataSlotOwned(i, m);
      if i < n {
        DataSlotOwned(i, n);
      } else {
        SlotsForNext(i);
        SlotsForMonotone(n, i);
        assert all[DataSlot(i)] == more[DataSlot(i) - |own|];
      }
    }
  }

  /** Overwriting part of one data block splices the bytes there and nowhere else. */
  lemma RawWrite(v: seq<Block>, own: seq<nat>, n: nat, i: nat, data: Block, lo: nat, src: seq<byte>)
    requires i < n <= MAX_DATA_BLOCKS && |own| == SlotsFor(n) && Below(own, |v|) && Distinct(own)
    requires lo + |src| <= 512 && data == Splice(v[DataBlock(own, i)], lo, src)
    requires DataBlock(own, i) < |v|
    ensures Raw(v[DataBlock(own, i) := data], own, n) == Splice(Raw(v, own, n), 512 * i + lo, src)
  {
    var w := v[DataBlock(own, i) := data];
    DataSlotOwned(i, n);
    forall p | 0 <= p < 512 * n
      ensures Raw(w, own, n)[p] == Splice(Raw(v, own, n), 512 * i + lo, src)[p]
    {
      var j := p / 512;
      DataSlotOwned(j, n);
      if j < i {
        DataSlotInjective(j, i);
      } else if i < j {
        DataSlotInjective(i, j);
      }
    }
  }
}
