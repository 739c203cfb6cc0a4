/** Disk blocks as bytes, and the little-endian 32-bit words the file system lays over them. */
module Bytes {

  type byte = b: nat | b < 256

  const BLOCK_SZ := 512

  /** One device block: exactly BLOCK_SZ bytes. */
  type Block = b: seq<byte> | |b| == BLOCK_SZ witness seq(BLOCK_SZ, _ => 0)

  const U32_LIMIT := 0x1_0000_0000

  function Zeros(n: nat): (z: seq<byte>)
    ensures |z| == n
  {
    seq(n, _ => 0)
  }

  function ZeroBlock(): Block {
    Zeros(BLOCK_SZ)
  }

  /** The i-th u32 of a block. */
  function U32(b: Block, i: nat): (w: nat)
    requires i < 128
    ensures w < U32_LIMIT
  {
    var b0: int, b1: int, b2: int, b3: int := b[4 * i], b[4 * i + 1], b[4 * i + 2], b[4 * i + 3];
    b0 + 0x100 * b1 + 0x1_0000 * b2 + 0x100_0000 * b3
  }

  /** Byte p (0 = least significant) of a u32. */
  function ByteOf(w: nat, p: nat): byte
    requires p < 4
  {
    if p == 0 then w % 0x100
    else if p == 1 then (w / 0x100) % 0x100
    else if p == 2 then (w / 0x1_0000) % 0x100
    else (w / 0x100_0000) % 0x100
  }

  ghost predicate AllU32(ws: seq<nat>) {
    forall k :: 0 <= k < |ws| ==> ws[k] < U32_LIMIT
  }

  /** The block after storing the words ws at word index i; every other byte is kept. */
  function PutWords(b: Block, i: nat, ws: seq<nat>): Block
    requires i + |ws| <= 128
  {
    seq(BLOCK_SZ, p requires 0 <= p < BLOCK_SZ =>
      if 4 * i <= p < 4 * (i + |ws|) then ByteOf(ws[p / 4 - i], p % 4) else b[p])
  }

  lemma BytesOfWord(w: nat)
    requires w < U32_LIMIT
    ensures (ByteOf(w, 0) as int) + 0x100 * (ByteOf(w, 1) as int)
            + 0x1_0000 * (ByteOf(w, 2) as int) + 0x100_0000 * (ByteOf(w, 3) as int) == w
  {
    var q1, q2, q3 := w / 0x100, w / 0x1_0000, w / 0x100_0000;
    assert q2 == q1 / 0x100 && q3 == q2 / 0x100;
  }

  /** Stored words read back; words outside the stored range are untouched. */
  lemma WordsReadBack(b: Block, i: nat, ws: seq<nat>, j: nat)
    requires i + |ws| <= 128 && AllU32(ws) && j < 128
    ensures U32(PutWords(b, i, ws), j) == if i <= j < i + |ws| then ws[j - i] else U32(b, j)
  {
    WordByte(b, i, ws, j, 0);
    WordByte(b, i, ws, j, 1);
    WordByte(b, i, ws, j, 2);
    WordByte(b, i, ws, j, 3);
    if i <= j < i + |ws| {
      WordFromBytes(PutWords(b, i, ws), j, ws[j - i]);
    }
  }

  lemma {:induction false} WordFromBytes(c: Block, j: nat, w: nat)
    requires j < 128 && w < U32_LIMIT && c[4 * j] == ByteOf(w, 0) && c[4 * j + 1] == ByteOf(w, 1)
    requires c[4 * j + 2] == ByteOf(w, 2) && c[4 * j + 3] == ByteOf(w, 3)
    ensures U32(c, j) == w
  {
    BytesOfWord(w);
  }

  lemma {:induction false} WordByte(b: Block, i: nat, ws: seq<nat>, j: nat, r: nat)
    requires i + |ws| <= 128 && j < 128 && r < 4
    ensures PutWords(b, i, ws)[4 * j + r] == if i <= j < i + |ws| then ByteOf(ws[j - i], r) else b[4 * j + r]
  {
    assert (4 * j + r) / 4 == j;
    assert (4 * j + r) % 4 == r;
  }

  /** A stored word in bytes: the lowest comes first, and no other byte changes. */
  lemma {:induction false} WordFormat(b: Block, i: nat, w: nat, p: nat)
    requires i < 128 && w < U32_LIMIT && p < BLOCK_SZ
    ensures var c := PutWords(b, i, [w]);
      && c[4 * i] == w % 256 && c[4 * i + 1] == w / 256 % 256
      && c[4 * i + 2] == w / 65536 % 256 && c[4 * i + 3] == w / 16777216 % 256
      && (p < 4 * i || p >= 4 * i + 4 ==> c[p] == b[p])
  {
    WordByte(b, i, [w], i, 0);
    WordByte(b, i, [w], i, 1);
    WordByte(b, i, [w], i, 2);
    WordByte(b, i, [w], i, 3);
  }

  /** v and w hold the same blocks everywhere outside the set x. */
  ghost predicate SameExcept(v: seq<Block>, w: seq<Block>, x: set<nat>) {
    && |v| == |w|
    && forall b :: 0 <= b < |v| && b !in x ==> v[b] == w[b]
  }

  /** Word j of block b, zero when the block does not exist. */
  function Word(v: seq<Block>, b: nat, j: nat): (w: nat)
    requires j < 128
    ensures w < U32_LIMIT
  {
    if b < |v| then U32(v[b], j) else 0
  }
}
