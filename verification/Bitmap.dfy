/** Allocation bitmaps stored in runs of disk blocks as u64 words. */
module Bitmaps {
  import opened Basics
  import opened Bytes
  import opened BlockCaching

  const U64_LIMIT := 0x1_0000_0000_0000_0000
  const U64_MAX := U64_LIMIT - 1

  // ----- bits of a word

  function Bit(w: nat, k: nat): bool {
    if k == 0 then w % 2 == 1 else Bit(w / 2, k - 1)
  }

  function Pow2(k: nat): (p: nat)
    ensures p > 0
  {
    if k == 0 then 1 else 2 * Pow2(k - 1)
  }

  /** w | (1 << k) */
  function OrBit(w: nat, k: nat): nat {
    if k == 0 then w - w % 2 + 1 else 2 * OrBit(w / 2, k - 1) + w % 2
  }

  /** u64::trailing_ones */
  function TrailingOnes(w: nat): nat {
    if w % 2 == 0 then 0 else 1 + TrailingOnes(w / 2)
  }

  lemma {:induction false} OrBitSets(w: nat, k: nat, j: nat)
    ensures Bit(OrBit(w, k), j) == (j == k || Bit(w, j))
    decreases k
  {
    if k > 0 {
      assert OrBit(w, k) / 2 == OrBit(w / 2, k - 1) && OrBit(w, k) % 2 == w % 2;
      if j > 0 {
        OrBitSets(w / 2, k - 1, j - 1);
      }
    } else {
      assert OrBit(w, k) / 2 == w / 2;
    }
  }

  lemma {:induction false} OrBitBound(w: nat, k: nat, n: nat)
    requires w < Pow2(n) && k < n
    ensures OrBit(w, k) < Pow2(n)
    decreases k
  {
    if k > 0 {
      OrBitBound(w / 2, k - 1, n - 1);
    }
  }

  /** Subtracting 1 << k from a word whose bit k is set clears that bit and no other. */
  lemma {:induction false} SubtractClears(w: nat, k: nat, j: nat)
    requires Bit(w, k)
    ensures w >= Pow2(k) && Bit(w - Pow2(k), j) == (j != k && Bit(w, j))
    decreases k
  {
    if k > 0 {
      SubtractClears(w / 2, k - 1, if j > 0 then j - 1 else 0);
      assert (w - Pow2(k)) / 2 == w / 2 - Pow2(k - 1) && (w - Pow2(k)) % 2 == w % 2;
    } else {
      assert (w - 1) / 2 == w / 2;
    }
  }

  lemma {:induction false} TrailingOnesIsLeastZero(w: nat, n: nat)
    requires w < Pow2(n) - 1
    ensures TrailingOnes(w) < n && !Bit(w, TrailingOnes(w))
    ensures forall j :: 0 <= j < TrailingOnes(w) ==> Bit(w, j)
    decreases n
  {
    if w % 2 == 1 {
      TrailingOnesIsLeastZero(w / 2, n - 1);
      forall j | 0 <= j < TrailingOnes(w) ensures Bit(w, j) {
        if j > 0 {
          assert Bit(w / 2, j - 1);
        }
      }
    }
  }

  lemma {:induction false} FullWord(n: nat, j: nat)
    requires j < n
    ensures Bit(Pow2(n) - 1, j)
    decreases n
  {
    assert (Pow2(n) - 1) / 2 == Pow2(n - 1) - 1;
    if j > 0 {
      FullWord(n - 1, j - 1);
    }
  }

  lemma Pow2Of64()
    ensures Pow2(64) == U64_LIMIT
  {
    assert Pow2(8) == 256;
    assert Pow2(16) == 65536;
    assert Pow2(24) == 0x100_0000;
    assert Pow2(32) == 0x1_0000_0000;
    assert Pow2(40) == 0x100_0000_0000;
    assert Pow2(48) == 0x1_0000_0000_0000;
    assert Pow2(56) == 0x100_0000_0000_0000;
  }

  // ----- words of a block

  function U64(b: Block, i: nat): (w: nat)
    requires i < 64
    ensures w < U64_LIMIT
  {
    U32(b, 2 * i) + 0x1_0000_0000 * U32(b, 2 * i + 1)
  }

  function PutU64(b: Block, i: nat, w: nat): Block
    requires i < 64
  {
    PutWords(b, 2 * i, [w % 0x1_0000_0000, w / 0x1_0000_0000 % 0x1_0000_0000])
  }

  lemma TwoHalves(w: nat)
    requires w < U64_LIMIT
    ensures w % 0x1_0000_0000 + 0x1_0000_0000 * (w / 0x1_0000_0000 % 0x1_0000_0000) == w
  {
  }

  lemma PutU64ReadsBack(b: Block, i: nat, w: nat, j: nat)
    requires i < 64 && w < U64_LIMIT && j < 64
    ensures U64(PutU64(b, i, w), j) == if i == j then w else U64(b, j)
  {
    var lo, hi := w % 0x1_0000_0000, w / 0x1_0000_0000 % 0x1_0000_0000;
    WordsReadBack(b, 2 * i, [lo, hi], 2 * j);
    WordsReadBack(b, 2 * i, [lo, hi], 2 * j + 1);
    TwoHalves(w);
  }

  // ----- the bitmap as a set

  /** Bit number i of the bitmap whose blocks start at `start`. */
  function BitAt(v: seq<Block>, start: nat, i: nat): bool
    requires start + i / 4096 < |v|
  {
    Bit(U64(v[start + i / 4096], i % 4096 / 64), i % 64)
  }

  /** The set of allocated numbers. */
  ghost function Live(v: seq<Block>, start: nat, blocks: nat): set<nat>
    requires start + blocks <= |v|
  {
    set i: nat | i < blocks * 4096 && BitAt(v, start, i)
  }

  // ----- the same bits, byte by byte

  lemma {:induction false} Halves(w: nat)
    ensures w / 2 / 2 == w / 4 && w / 4 / 2 == w / 8 && w / 8 / 2 == w / 16 && w / 16 / 2 == w / 32
    ensures w / 32 / 2 == w / 64 && w / 64 / 2 == w / 128 && w / 128 / 2 == w / 256
  {
  }

  lemma {:induction false} BitPastByte(w: nat, k: nat)
    ensures Bit(w, k + 8) == Bit(w / 256, k)
  {
    Halves(w);
    assert Bit(w, k + 8) == Bit(w / 2, k + 7);
    assert Bit(w / 2, k + 7) == Bit(w / 4, k + 6);
    assert Bit(w / 4, k + 6) == Bit(w / 8, k + 5);
    assert Bit(w / 8, k + 5) == Bit(w / 16, k + 4);
    assert Bit(w / 16, k + 4) == Bit(w / 32, k + 3);
    assert Bit(w / 32, k + 3) == Bit(w / 64, k + 2);
    assert Bit(w / 64, k + 2) == Bit(w / 128, k + 1);
  }

  lemma {:induction false} BitInByte(w: nat, b: nat, t: nat, n: nat)
    requires t < n
    ensures Bit(Pow2(n) * w + b, t) == Bit(b, t)
    decreases n
  {
    var even := Pow2(n - 1) * w;
    assert Pow2(n) * w == 2 * even;
    assert (2 * even + b) % 2 == b % 2 by {
      assert (2 * even + b) / 2 == even + b / 2;
    }
    if t > 0 {
      assert (2 * even + b) / 2 == even + b / 2;
      BitInByte(w, b / 2, t - 1, n - 1);
    }
  }

  /** Byte j of the words a bitmap is made of. */
  lemma {:induction false} BitOfBytes(x: seq<nat>, w: nat, j: nat, t: nat)
    requires |x| > j && t < 8 && (forall i :: 0 <= i < |x| ==> x[i] < 256) && w == Joined(x)
    ensures Bit(w, 8 * j + t) == Bit(x[j], t)
    decreases |x|
  {
    var rest := Joined(x[1..]);
    assert w == x[0] + 256 * rest;
    if j == 0 {
      assert Pow2(8) == 256;
      BitInByte(rest, x[0], t, 8);
    } else {
      BitPastByte(w, 8 * (j - 1) + t);
      assert w / 256 == rest;
      BitOfBytes(x[1..], rest, j - 1, t);
    }
  }

  /** The number with these bytes, the lowest first. */
  ghost function Joined(x: seq<nat>): nat {
    if x == [] then 0 else x[0] + 256 * Joined(x[1..])
  }

  lemma {:induction false} WordIsJoined(b: Block, p: nat)
    requires p < 64
    ensures U64(b, p) == Joined(b[8 * p..8 * p + 8])
  {
    var x: seq<nat> := b[8 * p..8 * p + 8];
    assert Joined(x[8..]) == 0;
    assert x[7..][0] == x[7] && x[7..][1..] == x[8..];
    assert Joined(x[7..]) == x[7];
    assert x[6..][0] == x[6] && x[6..][1..] == x[7..];
    assert Joined(x[6..]) == x[6] + 256 * Joined(x[7..]);
    assert x[5..][0] == x[5] && x[5..][1..] == x[6..];
    assert Joined(x[5..]) == x[5] + 256 * Joined(x[6..]);
    assert x[4..][0] == x[4] && x[4..][1..] == x[5..];
    assert Joined(x[4..]) == x[4] + 256 * Joined(x[5..]);
    assert x[3..][0] == x[3] && x[3..][1..] == x[4..];
    assert Joined(x[3..]) == x[3] + 256 * Joined(x[4..]);
    assert x[2..][0] == x[2] && x[2..][1..] == x[3..];
    assert Joined(x[2..]) == x[2] + 256 * Joined(x[3..]);
    assert x[1..][0] == x[1] && x[1..][1..] == x[2..];
    assert Joined(x[1..]) == x[1] + 256 * Joined(x[2..]);
    assert x[0..] == x;
    assert Joined(x) == x[0] + 256 * Joined(x[1..]);
  }

  /** On the disk number i of a bitmap is bit i % 8 of byte i / 8, counted from the first block of the bitmap. */
  lemma {:induction false} BitFormat(v: seq<Block>, start: nat, i: nat)
    requires start + i / 4096 < |v|
    ensures BitAt(v, start, i) == Bit(v[start + i / 4096][i % 4096 / 8], i % 8)
  {
    var b, p, j := v[start + i / 4096], i % 4096 / 64, i % 64 / 8;
    Octets(i, i / 4096, p, j, i % 4096 % 64 % 8);
    WordIsJoined(b, p);
    BitOfBytes(b[8 * p..8 * p + 8], U64(b, p), j, i % 8);
  }

  lemma {:induction false} Octets(i: nat, q: nat, p: nat, j: nat, t: nat)
    requires q == i / 4096 && p == i % 4096 / 64 && j == i % 64 / 8 && t == i % 4096 % 64 % 8
    ensures p < 64 && j < 8 && i % 4096 / 8 == 8 * p + j && i % 64 == 8 * j + i % 8
  {
    var r := i % 4096;
    assert i == 4096 * q + r;
    assert i / 64 == 64 * q + p;
    assert i % 64 == r % 64;
    assert r == 64 * p + r % 64 && r % 64 == 8 * j + t;
    assert r / 8 == 8 * p + j;
    assert i / 8 == 512 * q + 8 * p + j;
  }

  predicate Within(b: nat, start: nat, blocks: nat) {
    start <= b < start + blocks
  }

  ghost function Region(start: nat, blocks: nat): set<nat> {
    set b: nat | b < start + blocks && Within(b, start, blocks)
  }

  lemma {:induction false} RegionSize(start: nat, blocks: nat)
    ensures |Region(start, blocks)| == blocks
  {
    if blocks > 0 {
      RegionSize(start, blocks - 1);
      assert Region(start, blocks) == Region(start, blocks - 1) + {start + blocks - 1};
    } else {
      assert Region(start, blocks) == {};
    }
  }

  ghost predicate AllBelow(s: set<nat>, n: nat) {
    forall j :: 0 <= j < n ==> j in s
  }

  /** i is the least number that is not in s. */
  ghost predicate LeastFree(s: set<nat>, i: nat) {
    i !in s && AllBelow(s, i)
  }

  lemma {:induction false} UpTo(n: nat, s: set<nat>)
    requires AllBelow(s, n)
    ensures n <= |s|
  {
    if n > 0 {
      UpTo(n - 1, s - {n - 1});
    }
  }

  /** The returned number never exceeds how many numbers are in use. */
  lemma LeastFreeIsSmall(s: set<nat>, i: nat)
    requires LeastFree(s, i)
    ensures i <= |s|
  {
    UpTo(i, s);
  }

  lemma Positions(i: nat, blk: nat, p: nat, k: nat)
    requires p < 64 && k < 64
    ensures i == blk * 4096 + p * 64 + k <==> i / 4096 == blk && i % 4096 / 64 == p && i % 64 == k
  {
  }

  lemma LiveFrame(v: seq<Block>, w: seq<Block>, start: nat, blocks: nat)
    requires |v| == |w| && start + blocks <= |v|
    requires forall b :: start <= b < start + blocks ==> v[b] == w[b]
    ensures Live(w, start, blocks) == Live(v, start, blocks)
  {
    forall i: nat | i < blocks * 4096 ensures BitAt(w, start, i) == BitAt(v, start, i) {
      assert start <= start + i / 4096 < start + blocks;
    }
  }

  /** Changing one word changes the bitmap at its own bits only. */
  lemma {:induction false} OneWordChanged(v: seq<Block>, start: nat, blk: nat, p: nat, k: nat, w: nat, i: nat)
    requires start + blk < |v| && p < 64 && k < 64 && w < U64_LIMIT
    requires start + i / 4096 < |v|
    requires forall j :: 0 <= j < 64 && j != k ==> Bit(w, j) == Bit(U64(v[start + blk], p), j)
    ensures var v' := v[start + blk := PutU64(v[start + blk], p, w)];
      BitAt(v', start, i) == if i == blk * 4096 + p * 64 + k then Bit(w, k) else BitAt(v, start, i)
  {
    Positions(i, blk, p, k);
    if i / 4096 == blk {
      var q := i % 4096 / 64;
      PutU64ReadsBack(v[start + blk], p, w, q);
    }
  }

  function Decomposition(bit: nat): (r: (nat, nat, nat))
    ensures r.1 < 64 && r.2 < 64 && bit == r.0 * 4096 + r.1 * 64 + r.2
  {
    (bit / 4096, bit % 4096 / 64, bit % 4096 % 64)
  }

  lemma {:induction false} AllocAddsOne(v: seq<Block>, start: nat, blocks: nat, blk: nat, p: nat, k: nat, n: nat)
    requires start + blocks <= |v| && blk < blocks && p < 64 && k < 64 && n == blk * 4096 + p * 64 + k
    ensures Live(v[start + blk := PutU64(v[start + blk], p, OrBit(U64(v[start + blk], p), k))], start, blocks)
         == Live(v, start, blocks) + {n}
  {
    var w := U64(v[start + blk], p);
    Pow2Of64();
    OrBitBound(w, k, 64);
    forall j | 0 <= j < 64 ensures Bit(OrBit(w, k), j) == (j == k || Bit(w, j)) {
      OrBitSets(w, k, j);
    }
    var v' := v[start + blk := PutU64(v[start + blk], p, OrBit(w, k))];
    forall i: nat | i < blocks * 4096
      ensures BitAt(v', start, i) == (i == n || BitAt(v, start, i))
    {
      OneWordChanged(v, start, blk, p, k, OrBit(w, k), i);
    }
  }

  lemma {:induction false} DeallocRemovesOne(v: seq<Block>, start: nat, blocks: nat, blk: nat, p: nat, k: nat, n: nat)
    requires start + blocks <= |v| && blk < blocks && p < 64 && k < 64 && n == blk * 4096 + p * 64 + k
    requires Bit(U64(v[start + blk], p), k)
    ensures U64(v[start + blk], p) >= Pow2(k)
    ensures Live(v[start + blk := PutU64(v[start + blk], p, U64(v[start + blk], p) - Pow2(k))], start, blocks)
         == Live(v, start, blocks) - {n}
  {
    var w := U64(v[start + blk], p);
    SubtractClears(w, k, 0);
    forall j | 0 <= j < 64 ensures Bit(w - Pow2(k), j) == (j != k && Bit(w, j)) {
      SubtractClears(w, k, j);
    }
    var v' := v[start + blk := PutU64(v[start + blk], p, w - Pow2(k))];
    forall i: nat | i < blocks * 4096
      ensures BitAt(v', start, i) == (i != n && BitAt(v, start, i))
    {
      OneWordChanged(v, start, blk, p, k, w - Pow2(k), i);
    }
  }

  /** A word equal to u64::MAX has no free bit. */
  lemma FullWordAt(v: seq<Block>, start: nat, i: nat)
    requires start + i / 4096 < |v|
    requires U64(v[start + i / 4096], i % 4096 / 64) == U64_MAX
    ensures BitAt(v, start, i)
  {
    Pow2Of64();
    FullWord(64, i % 64);
  }

  /** The first clear bit of the first word that is not full is the least free number. */
  lemma {:induction false} FirstZero(v: seq<Block>, start: nat, blocks: nat, blk: nat, p: nat, n: nat)
    requires start + blocks <= |v| && blk < blocks && p < 64
    requires n == blk * 4096 + p * 64 + TrailingOnes(U64(v[start + blk], p))
    requires AllBelow(Live(v, start, blocks), blk * 4096 + p * 64)
    requires U64(v[start + blk], p) != U64_MAX
    ensures TrailingOnes(U64(v[start + blk], p)) < 64
    ensures n !in Live(v, start, blocks) && AllBelow(Live(v, start, blocks), n)
  {
    var w := U64(v[start + blk], p);
    Pow2Of64();
    TrailingOnesIsLeastZero(w, 64);
    Positions(n, blk, p, TrailingOnes(w));
    forall i: nat | i < n ensures i in Live(v, start, blocks) {
      if i >= blk * 4096 + p * 64 {
        Positions(i, blk, p, i - (blk * 4096 + p * 64));
      }
    }
  }

  lemma {:induction false} FullWordBelow(v: seq<Block>, start: nat, blocks: nat, blk: nat, p: nat)
    requires start + blocks <= |v| && blk < blocks && p < 64
    requires AllBelow(Live(v, start, blocks), blk * 4096 + p * 64)
    requires U64(v[start + blk], p) == U64_MAX
    ensures AllBelow(Live(v, start, blocks), blk * 4096 + (p + 1) * 64)
  {
    forall i: nat | blk * 4096 + p * 64 <= i < blk * 4096 + p * 64 + 64 ensures i in Live(v, start, blocks) {
      Positions(i, blk, p, i - (blk * 4096 + p * 64));
      FullWordAt(v, start, i);
    }
  }

  /** The closure of `alloc` looks for the first word that is not full and its lowest clear bit ... */
  method FindInBlock(data: Block, ghost v: seq<Block>, ghost start: nat, ghost blocks: nat, ghost blk: nat)
    returns (p: nat, k: nat)
    requires start + blocks <= |v| && blk < blocks && v[start + blk] == data
    requires AllBelow(Live(v, start, blocks), blk * 4096)
    ensures p <= 64
    ensures p < 64 ==> k < 64 && LeastFree(Live(v, start, blocks), blk * 4096 + p * 64 + k)
    ensures p == 64 ==> AllBelow(Live(v, start, blocks), (blk + 1) * 4096)
  {
    p, k := 0, 0;
    while p < 64 && U64(data, p) == U64_MAX
      invariant p <= 64 && AllBelow(Live(v, start, blocks), blk * 4096 + p * 64)
    {
      FullWordBelow(v, start, blocks, blk, p);
      p := p + 1;
    }
    if p < 64 {
      k := TrailingOnes(U64(data, p));
      FirstZero(v, start, blocks, blk, p, blk * 4096 + p * 64 + k);
    }
  }

  /** ... and sets it. */
  method SetInBlock(data: Block, p: nat, k: nat, ghost v: seq<Block>, ghost start: nat, ghost blocks: nat,
                    ghost blk: nat)
    returns (after: Block)
    requires start + blocks <= |v| && blk < blocks && v[start + blk] == data && p < 64 && k < 64
    ensures Live(v[start + blk := after], start, blocks) == Live(v, start, blocks) + {blk * 4096 + p * 64 + k}
  {
    AllocAddsOne(v, start, blocks, blk, p, k, blk * 4096 + p * 64 + k);
    after := PutU64(data, p, OrBit(U64(data, p), k));
  }

  /** The closure of `dealloc`: the bit must be set, and is subtracted. */
  method GiveBackInBlock(data: Block, bit: nat, ghost v: seq<Block>, ghost start: nat, ghost blocks: nat)
    returns (after: Block)
    requires start + blocks <= |v| && bit in Live(v, start, blocks) && v[start + bit / 4096] == data
    ensures Live(v[start + bit / 4096 := after], start, blocks) == Live(v, start, blocks) - {bit}
  {
    var (blk, p, k) := Decomposition(bit);
    Positions(bit, blk, p, k);
    assert Bit(U64(data, p), k);
    SubtractClears(U64(data, p), k, k);
    DeallocRemovesOne(v, start, blocks, blk, p, k, bit);
    after := PutU64(data, p, U64(data, p) - Pow2(k));
  }

  datatype Bitmap = Bitmap(start: nat, blocks: nat) {

    function Maximum(): nat {
      blocks * 4096
    }

    ghost predicate Fits(disk: BlockCacheManager)
      reads disk
    {
      && disk.Valid() && start + blocks <= |disk.view|
      && |disk.held| < disk.depth && disk.held !! Region(start, blocks)
    }

    /** Takes the least free number, or finds the bitmap full. */
    method Alloc(disk: BlockCacheManager) returns (r: Option<nat>)
      requires Fits(disk)
      modifies disk
      ensures Fits(disk) && disk.held == old(disk.held)
      ensures SameExcept(old(disk.view), disk.view, Region(start, blocks))
      ensures r.Some? ==> r.value < Maximum() && LeastFree(Live(old(disk.view), start, blocks), r.value)
      ensures r.Some? ==> Live(disk.view, start, blocks) == Live(old(disk.view), start, blocks) + {r.value}
      ensures r.None? ==> AllBelow(Live(old(disk.view), start, blocks), Maximum()) && disk.view == old(disk.view)
    {
      ghost var v := disk.view;
      var blk := 0;
      while blk < blocks
        invariant blk <= blocks && Fits(disk) && disk.held == old(disk.held) && disk.view == v
        invariant AllBelow(Live(v, start, blocks), blk * 4096)
      {
        r := TryBlock(disk, blk);
        if r.Some? {
          return;
        }
        blk := blk + 1;
      }
      r := None;
    }

    /** alloc and unwrap, with a number to spare. */
    method AllocOne(disk: BlockCacheManager) returns (n: nat)
      requires Fits(disk) && |Live(disk.view, start, blocks)| < Maximum()
      modifies disk
      ensures Fits(disk) && disk.held == old(disk.held) && n < Maximum()
      ensures SameExcept(old(disk.view), disk.view, Region(start, blocks))
      ensures TookLeast(old(disk.view), disk.view, this, n)
    {
      ghost var v := disk.view;
      var r := Alloc(disk);
      if r.None? {
        UpTo(Maximum(), Live(v, start, blocks));
        assert false;
      }
      n := r.value;
    }

    /** One round of alloc: the least free number of block blk, if it has one. */
    method TryBlock(disk: BlockCacheManager, blk: nat) returns (r: Option<nat>)
      requires Fits(disk) && blk < blocks && AllBelow(Live(disk.view, start, blocks), blk * 4096)
      modifies disk
      ensures Fits(disk) && disk.held == old(disk.held)
      ensures SameExcept(old(disk.view), disk.view, Region(start, blocks))
      ensures r.Some? ==> r.value < Maximum() && LeastFree(Live(old(disk.view), start, blocks), r.value)
      ensures r.Some? ==> Live(disk.view, start, blocks) == Live(old(disk.view), start, blocks) + {r.value}
      ensures r.None? ==> disk.view == old(disk.view) && AllBelow(Live(disk.view, start, blocks), (blk + 1) * 4096)
    {
      ghost var v := disk.view;
      var data := disk.Acquire(start + blk);
      var p, k := FindInBlock(data, v, start, blocks, blk);
      if p < 64 {
        data := SetInBlock(data, p, k, v, start, blocks, blk);
      }
      disk.Modify(start + blk, data);
      disk.Release(start + blk);
      r := if p < 64 then Some(blk * 4096 + p * 64 + k) else None;
    }

    /** Clears an allocated number; the assertion on the bit is the caller's obligation. */
    method Dealloc(disk: BlockCacheManager, bit: nat)
      requires Fits(disk) && bit in Live(disk.view, start, blocks)
      modifies disk
      ensures Fits(disk) && disk.held == old(disk.held)
      ensures SameExcept(old(disk.view), disk.view, Region(start, blocks))
      ensures Live(disk.view, start, blocks) == Live(old(disk.view), start, blocks) - {bit}
    {
      ghost var v := disk.view;
      var data := disk.Acquire(start + bit / 4096);
      var after := GiveBackInBlock(data, bit, v, start, blocks);
      disk.Modify(start + bit / 4096, after);
      disk.Release(start + bit / 4096);
    }
  }

  /** From v to w the bitmap took the least number that was free. Sealed. */
  ghost predicate TookLeast(v: seq<Block>, w: seq<Block>, bm: Bitmap, n: nat) {
    && bm.start + bm.blocks <= |v| == |w|
    && forall k: nat {:trigger Open(k)} ::
      && LeastFree(Live(v, bm.start, bm.blocks), n)
      && Live(w, bm.start, bm.blocks) == Live(v, bm.start, bm.blocks) + {n}
  }

  lemma {:induction false} TookOpens(v: seq<Block>, w: seq<Block>, bm: Bitmap, n: nat)
    requires TookLeast(v, w, bm, n)
    ensures LeastFree(Live(v, bm.start, bm.blocks), n)
    ensures Live(w, bm.start, bm.blocks) == Live(v, bm.start, bm.blocks) + {n}
  {
    assert Open(0);
  }
}
