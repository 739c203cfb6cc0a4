/** The index of an inode: 28 direct, one indirect and one double-indirect block.
    All blocks an inode owns are listed in one order, the slot order: the 28 direct data blocks, the
    indirect block, its 128 data blocks, the double-indirect block, and then, for each of its 128
    sub-blocks, the sub-block followed by its 128 data blocks. */
module IndexTree {
  import opened Basics
  import opened Bytes

  const MAX_DATA_BLOCKS := 28 + 128 + 128 * 128
  const MAX_SLOTS := 158 + 128 * 129

  /** The value of an on-disk inode; `kind` is 0 for a file and 1 for a directory. */
  datatype Ino = Ino(size: nat, direct: seq<nat>, indirect1: nat, indirect2: nat, kind: nat)

  ghost predicate WellFormed(ino: Ino) {
    && |ino.direct| == 28 && ino.size < U32_LIMIT && ino.kind < 2
    && (forall k :: 0 <= k < 28 ==> ino.direct[k] < U32_LIMIT)
    && ino.indirect1 < U32_LIMIT && ino.indirect2 < U32_LIMIT
  }

  // ----- counting blocks

  function DataBlocks(size: nat): nat {
    (size + 511) / 512
  }

  /** Data and index blocks for n data blocks. */
  function SlotsFor(n: nat): nat {
    if n <= 28 then n
    else if n <= 156 then n + 1
    else n + 2 + (n - 156 + 127) / 128
  }

  function TotalBlocks(size: nat): nat {
    SlotsFor(DataBlocks(size))
  }

  // ----- slots

  /** The slot of data block i. */
  function DataSlot(i: nat): nat {
    if i < 28 then i
    else if i < 156 then i + 1
    else 159 + (i - 156) / 128 * 129 + (i - 156) % 128
  }

  predicate IsIndexSlot(k: nat) {
    k == 28 || k == 157 || (k >= 158 && (k - 158) % 129 == 0)
  }

  /** What the index tree holds in slot k. */
  function Lookup(ino: Ino, v: seq<Block>, k: nat): nat
    requires |ino.direct| == 28
  {
    if k < 28 then ino.direct[k]
    else if k == 28 then ino.indirect1
    else if k < 157 then Word(v, ino.indirect1, k - 29)
    else if k == 157 then ino.indirect2
    else if k < MAX_SLOTS then
      var sub := Word(v, ino.indirect2, (k - 158) / 129);
      if (k - 158) % 129 == 0 then sub else Word(v, sub, (k - 158) % 129 - 1)
    else 0
  }

  /** The first m slots. */
  function Slots(ino: Ino, v: seq<Block>, m: nat): (s: seq<nat>)
    requires |ino.direct| == 28
    ensures |s| == m
  {
    seq(m, k requires 0 <= k < m => Lookup(ino, v, k))
  }

  /** Every block the inode owns. */
  function Owned(ino: Ino, v: seq<Block>): (s: seq<nat>)
    requires |ino.direct| == 28
    ensures |s| == TotalBlocks(ino.size)
  {
    Slots(ino, v, TotalBlocks(ino.size))
  }

  // ----- arithmetic of the slot order

  lemma SlotsForNext(n: nat)
    requires n < MAX_DATA_BLOCKS
    ensures SlotsFor(n) <= DataSlot(n) < SlotsFor(n + 1) <= MAX_SLOTS && SlotsFor(n + 1) == DataSlot(n) + 1
    ensures !IsIndexSlot(DataSlot(n))
    ensures forall k :: SlotsFor(n) <= k < DataSlot(n) ==> IsIndexSlot(k)
  {
  }

  /** blocks_num_needed and total_blocks in numbers: data blocks of 512 bytes, one indirect block for more than 28, one
      double-indirect block for more than 156, and one block below it for each 128 further. */
  lemma {:induction false} CountsIs(size: nat)
    ensures var n := DataBlocks(size);
      && 512 * n >= size > 512 * (n - 1)
      && (n <= 28 ==> TotalBlocks(size) == n) && (28 < n <= 156 ==> TotalBlocks(size) == n + 1)
      && (156 < n ==> 128 * (TotalBlocks(size) - n - 2) >= n - 156 > 128 * (TotalBlocks(size) - n - 3))
  {
  }

  lemma {:induction false} SlotsForMonotone(n: nat, m: nat)
    requires n <= m
    ensures SlotsFor(n) + (m - n) <= SlotsFor(m)
  {
  }

  lemma DataSlotInjective(i: nat, j: nat)
    requires i < j < MAX_DATA_BLOCKS
    ensures DataSlot(i) < DataSlot(j)
  {
  }

  /** Data block i of an inode with n data blocks lies among its owned slots. */
  lemma DataSlotOwned(i: nat, n: nat)
    requires i < n <= MAX_DATA_BLOCKS
    ensures DataSlot(i) < SlotsFor(n) <= MAX_SLOTS && !IsIndexSlot(DataSlot(i))
  {
    SlotsForNext(i);
    SlotsForMonotone(i + 1, n);
    SlotsForNext(n - 1);
  }

  lemma {:induction false} Div129(a: nat, r: nat)
    requires r < 129
    ensures (129 * a + r) / 129 == a && (129 * a + r) % 129 == r
  {
    assert (129 * a + r) / 129 == a;
  }

  // ----- growing the tree by one slot

  datatype Tree = Tree(ino: Ino, v: seq<Block>)

  /** The block whose contents slot k is stored in, or None when slot k is a field of the inode. */
  function Home(ino: Ino, v: seq<Block>, k: nat): (b: set<nat>)
    requires |ino.direct| == 28
  {
    if k <= 28 || k == 157 || k >= MAX_SLOTS then {}
    else if k < 157 then {ino.indirect1}
    else if (k - 158) % 129 == 0 then {ino.indirect2}
    else {Word(v, ino.indirect2, (k - 158) / 129)}
  }

  function Put(v: seq<Block>, b: nat, j: nat, x: nat): (w: seq<Block>)
    requires j < 128
    ensures |w| == |v|
  {
    if b < |v| then v[b := PutWords(v[b], j, [x])] else v
  }

  /** Store block number x in slot k. */
  function SetSlot(t: Tree, k: nat, x: nat): (r: Tree)
    requires |t.ino.direct| == 28 && k < MAX_SLOTS
    ensures |r.ino.direct| == 28 && |r.v| == |t.v|
  {
    if k < 28 then t.(ino := t.ino.(direct := t.ino.direct[k := x]))
    else if k == 28 then t.(ino := t.ino.(indirect1 := x))
    else if k < 157 then t.(v := Put(t.v, t.ino.indirect1, k - 29, x))
    else if k == 157 then t.(ino := t.ino.(indirect2 := x))
    else
      var a, b := (k - 158) / 129, (k - 158) % 129;
      if b == 0 then t.(v := Put(t.v, t.ino.indirect2, a, x))
      else t.(v := Put(t.v, Word(t.v, t.ino.indirect2, a), b - 1, x))
  }

  ghost predicate Below(s: seq<nat>, n: nat) {
    forall i :: 0 <= i < |s| ==> s[i] < n
  }

  lemma PutWord(v: seq<Block>, b: nat, j: nat, x: nat, c: nat, i: nat)
    requires b < |v| && j < 128 && x < U32_LIMIT && i < 128
    ensures Word(Put(v, b, j, x), c, i) == if c == b && i == j then x else Word(v, c, i)
  {
    WordsReadBack(v[b], j, [x], i);
  }

  /** Slot k itself, once stored. */
  lemma SetSlotReadsBack(t: Tree, k: nat, x: nat)
    requires |t.ino.direct| == 28 && k < MAX_SLOTS && x < U32_LIMIT
    requires Below(Slots(t.ino, t.v, k), |t.v|) && Distinct(Slots(t.ino, t.v, k))
    ensures Lookup(SetSlot(t, k, x).ino, SetSlot(t, k, x).v, k) == x
  {
    var r := SetSlot(t, k, x);
    var s := Slots(t.ino, t.v, k);
    if 28 < k < 157 {
      assert s[28] == t.ino.indirect1;
      PutWord(t.v, t.ino.indirect1, k - 29, x, t.ino.indirect1, k - 29);
    } else if k > 157 {
      var a, b := (k - 158) / 129, (k - 158) % 129;
      assert s[157] == t.ino.indirect2;
      if b == 0 {
        PutWord(t.v, t.ino.indirect2, a, x, t.ino.indirect2, a);
      } else {
        var sub := Word(t.v, t.ino.indirect2, a);
        SubOf(t, k, k);
        PutWord(t.v, sub, b - 1, x, t.ino.indirect2, a);
        PutWord(t.v, sub, b - 1, x, sub, b - 1);
      }
    }
  }

  /** A write to the double-indirect block, or to one of its sub-blocks, for slot k > 157: where it goes. */
  lemma LateHome(t: Tree, k: nat) returns (home: nat, w: nat)
    requires |t.ino.direct| == 28 && 157 < k < MAX_SLOTS
    requires Below(Slots(t.ino, t.v, k), |t.v|) && Distinct(Slots(t.ino, t.v, k))
    ensures w < 128 && home < |t.v| && home != t.ino.indirect1
    ensures if (k - 158) % 129 == 0
      then home == t.ino.indirect2 && w == (k - 158) / 129
      else home == Word(t.v, t.ino.indirect2, (k - 158) / 129) && w == (k - 158) % 129 - 1
    ensures forall x :: SetSlot(t, k, x) == t.(v := Put(t.v, home, w, x))
    ensures (k - 158) % 129 != 0 ==> home != t.ino.indirect2
  {
    var s := Slots(t.ino, t.v, k);
    var a, b := (k - 158) / 129, (k - 158) % 129;
    assert s[28] == t.ino.indirect1 && s[157] == t.ino.indirect2;
    if b == 0 {
      home, w := t.ino.indirect2, a;
    } else {
      home, w := Word(t.v, t.ino.indirect2, a), b - 1;
      SubOf(t, k, k);
    }
  }

  lemma SlotOrder(j: nat, k: nat)
    requires 158 <= j < k
    ensures (j - 158) / 129 < (k - 158) / 129
         || ((j - 158) / 129 == (k - 158) / 129 && (j - 158) % 129 < (k - 158) % 129)
  {
    var c, a := (j - 158) / 129, (k - 158) / 129;
    assert j - 158 == 129 * c + (j - 158) % 129 && k - 158 == 129 * a + (k - 158) % 129;
    assert c < a || c == a || a + 1 <= c;
  }

  /** The sub-block that slot j is read from, when j is not the sub-block's own slot. */
  lemma SubOf(t: Tree, k: nat, j: nat)
    requires |t.ino.direct| == 28 && 157 < j <= k < MAX_SLOTS && (j - 158) % 129 > 0
    ensures var s := Slots(t.ino, t.v, k);
      var i := j - (j - 158) % 129;
      157 < i < k && i == 158 + (j - 158) / 129 * 129 && s[i] == Word(t.v, t.ino.indirect2, (j - 158) / 129)
  {
    var i, a := j - (j - 158) % 129, (j - 158) / 129;
    assert j - 158 == 129 * a + (j - 158) % 129;
    assert i - 158 == 129 * a + 0;
    Div129(a, 0);
  }

  lemma {:induction false} LateSlotKeeps(t: Tree, k: nat, x: nat, j: nat)
    requires |t.ino.direct| == 28 && 157 < j < k < MAX_SLOTS && x < U32_LIMIT
    requires Below(Slots(t.ino, t.v, k), |t.v|) && Distinct(Slots(t.ino, t.v, k))
    ensures Lookup(SetSlot(t, k, x).ino, SetSlot(t, k, x).v, j) == Lookup(t.ino, t.v, j)
  {
    var home, w := LateHome(t, k);
    SlotOrder(j, k);
    if (j - 158) % 129 > 0 {
      OtherWord(t, k, j, home, w);
    }
    PutElsewhere(t, home, w, x, j);
    assert SetSlot(t, k, x) == t.(v := Put(t.v, home, w, x));
  }

  /** A store into a word that slot j is not read from. */
  lemma {:induction false} PutElsewhere(t: Tree, home: nat, w: nat, x: nat, j: nat)
    requires |t.ino.direct| == 28 && 157 < j < MAX_SLOTS && home < |t.v| && w < 128 && x < U32_LIMIT
    requires home != t.ino.indirect2 || w != (j - 158) / 129
    requires (j - 158) % 129 > 0 ==> home != Word(t.v, t.ino.indirect2, (j - 158) / 129) || w != (j - 158) % 129 - 1
    ensures Lookup(t.ino, Put(t.v, home, w, x), j) == Lookup(t.ino, t.v, j)
  {
    var c, d := (j - 158) / 129, (j - 158) % 129;
    PutWord(t.v, home, w, x, t.ino.indirect2, c);
    if d > 0 {
      PutWord(t.v, home, w, x, Word(t.v, t.ino.indirect2, c), d - 1);
    }
  }

  /** Slot j of a sub-block and the later slot k are not stored in the same word. */
  lemma {:induction false} OtherWord(t: Tree, k: nat, j: nat, home: nat, w: nat)
    requires |t.ino.direct| == 28 && 157 < j < k < MAX_SLOTS && (j - 158) % 129 > 0
    requires Distinct(Slots(t.ino, t.v, k))
    requires if (k - 158) % 129 == 0
      then home == t.ino.indirect2 && w == (k - 158) / 129
      else home == Word(t.v, t.ino.indirect2, (k - 158) / 129) && w == (k - 158) % 129 - 1
    ensures home != Word(t.v, t.ino.indirect2, (j - 158) / 129) || w != (j - 158) % 129 - 1
  {
    var s := Slots(t.ino, t.v, k);
    SlotOrder(j, k);
    SubOf(t, k, j);
    assert s[157] == t.ino.indirect2;
    if (k - 158) % 129 > 0 {
      SubOf(t, k, k);
    }
  }

  /** Storing slot k leaves every earlier slot alone: it is written into a field or a block that no
      earlier slot is read from at the same word, because the blocks are pairwise distinct. */
  lemma SetSlotKeeps(t: Tree, k: nat, x: nat, j: nat)
    requires |t.ino.direct| == 28 && j < k < MAX_SLOTS && x < U32_LIMIT
    requires Below(Slots(t.ino, t.v, k), |t.v|) && Distinct(Slots(t.ino, t.v, k))
    ensures Lookup(SetSlot(t, k, x).ino, SetSlot(t, k, x).v, j) == Lookup(t.ino, t.v, j)
  {
    if 28 < k < 157 && 28 < j {
      assert Slots(t.ino, t.v, k)[28] == t.ino.indirect1;
      PutWord(t.v, t.ino.indirect1, k - 29, x, t.ino.indirect1, j - 29);
    } else if k > 157 && 28 < j < 157 {
      var home, w := LateHome(t, k);
      PutWord(t.v, home, w, x, t.ino.indirect1, j - 29);
    } else if k > 157 && j > 157 {
      LateSlotKeeps(t, k, x, j);
    }
  }

  /** One step of growth: the owned sequence gains x at the end, and of all blocks only the index block
      holding the new slot changes. */
  lemma SetSlotAppends(t: Tree, k: nat, x: nat)
    requires |t.ino.direct| == 28 && k < MAX_SLOTS && x < U32_LIMIT
    requires Below(Slots(t.ino, t.v, k), |t.v|) && Distinct(Slots(t.ino, t.v, k))
    ensures Slots(SetSlot(t, k, x).ino, SetSlot(t, k, x).v, k + 1) == Slots(t.ino, t.v, k) + [x]
    ensures SameExcept(t.v, SetSlot(t, k, x).v, Home(t.ino, t.v, k))
  {
    SetSlotReadsBack(t, k, x);
    forall j | 0 <= j < k
      ensures Lookup(SetSlot(t, k, x).ino, SetSlot(t, k, x).v, j) == Lookup(t.ino, t.v, j)
    {
      SetSlotKeeps(t, k, x, j);
    }
  }

  // ----- which blocks matter

  /** The index blocks among the owned blocks. */
  ghost function IndexBlocks(own: seq<nat>): set<nat> {
    set k | 0 <= k < |own| && IsIndexSlot(k) :: own[k]
  }

  /** The data blocks among the owned blocks. */
  ghost function DataBlockSet(own: seq<nat>): set<nat> {
    set k | 0 <= k < |own| && !IsIndexSlot(k) :: own[k]
  }

  lemma LookupFrame(ino: Ino, v: seq<Block>, w: seq<Block>, m: nat, k: nat)
    requires |ino.direct| == 28 && k < m <= MAX_SLOTS && |v| == |w|
    requires Below(Slots(ino, v, m), |v|)
    requires forall j :: 0 <= j < m && IsIndexSlot(j) ==> v[Slots(ino, v, m)[j]] == w[Slots(ino, v, m)[j]]
    ensures Lookup(ino, w, k) == Lookup(ino, v, k)
  {
    var s := Slots(ino, v, m);
    if 28 < k < 157 {
      assert IsIndexSlot(28) && s[28] == ino.indirect1;
    } else if k > 157 {
      assert IsIndexSlot(157) && s[157] == ino.indirect2;
      var b := (k - 158) % 129;
      if b > 0 {
        var a := (k - 158) / 129;
        assert k - b - 158 == 129 * a + 0;
        Div129(a, 0);
        assert IsIndexSlot(k - b) && s[k - b] == Word(v, ino.indirect2, (k - 158) / 129);
      }
    }
  }

  /** The index tree depends on the index blocks alone. */
  lemma SlotsFrame(ino: Ino, v: seq<Block>, w: seq<Block>, m: nat)
    requires |ino.direct| == 28 && m <= MAX_SLOTS && |v| == |w|
    requires Below(Slots(ino, v, m), |v|)
    requires forall j :: 0 <= j < m && IsIndexSlot(j) ==> v[Slots(ino, v, m)[j]] == w[Slots(ino, v, m)[j]]
    ensures Slots(ino, w, m) == Slots(ino, v, m)
  {
    forall k | 0 <= k < m ensures Lookup(ino, w, k) == Lookup(ino, v, k) {
      LookupFrame(ino, v, w, m, k);
    }
  }

  // ----- growing towards a final owned sequence

  /** Slots below m already hold the final owned sequence. */
  ghost predicate Built(ino: Ino, v: seq<Block>, all: seq<nat>, m: nat) {
    |ino.direct| == 28 && m <= |all| && Slots(ino, v, m) == all[..m]
  }

  lemma BuiltAt(ino: Ino, v: seq<Block>, all: seq<nat>, m: nat, i: nat)
    requires Built(ino, v, all, m) && i < m
    ensures Lookup(ino, v, i) == all[i]
  {
    assert Slots(ino, v, m)[i] == all[..m][i];
  }

  lemma SubSlots(a: nat, b: nat, m: nat)
    requires m == 159 + 129 * a + b && b < 128
    ensures (m - 158) / 129 == a && (m - 158) % 129 == b + 1
    ensures (m - 1 - b - 158) / 129 == a && (m - 1 - b - 158) % 129 == 0
  {
    Div129(a, b + 1);
    Div129(a, 0);
    assert m - 158 == 129 * a + (b + 1) && m - 1 - b - 158 == 129 * a + 0;
  }

  /** The tree update of `SetSlot` for the next slot. */
  lemma Step(ino: Ino, v: seq<Block>, all: seq<nat>, m: nat)
    requires Built(ino, v, all, m) && m < |all| <= MAX_SLOTS
    requires Below(all, |v|) && Distinct(all) && |v| <= U32_LIMIT
    ensures var t := SetSlot(Tree(ino, v), m, all[m]);
      Built(t.ino, t.v, all, m + 1) && SameExcept(v, t.v, Home(ino, v, m))
  {
    forall i | 0 <= i < m ensures Lookup(ino, v, i) == all[i] {
      BuiltAt(ino, v, all, m, i);
    }
    SetSlotAppends(Tree(ino, v), m, all[m]);
    assert all[..m + 1] == all[..m] + [all[m]];
  }

  /** The next entry of the indirect block. */
  lemma StepIndirect1(ino: Ino, v: seq<Block>, all: seq<nat>, cur: nat)
    requires Built(ino, v, all, 29 + cur) && 29 + cur < |all| <= MAX_SLOTS && cur < 128
    requires Below(all, |v|) && Distinct(all) && |v| <= U32_LIMIT
    ensures ino.indirect1 == all[28] && ino.indirect1 < |v|
    ensures var w := v[ino.indirect1 := PutWords(v[ino.indirect1], cur, [all[29 + cur]])];
      Built(ino, w, all, 29 + cur + 1) && SameExcept(v, w, IndexBlocks(all))
  {
    BuiltAt(ino, v, all, 29 + cur, 28);
    Step(ino, v, all, 29 + cur);
    assert IsIndexSlot(28);
  }

  /** The next entry of the double-indirect block. */
  lemma {:induction false} StepSubBlock(ino: Ino, v: seq<Block>, all: seq<nat>, a: nat, m: nat)
    requires Built(ino, v, all, m) && m == 158 + 129 * a && m < |all| <= MAX_SLOTS && a < 128
    requires Below(all, |v|) && Distinct(all) && |v| <= U32_LIMIT
    ensures ino.indirect2 == all[157] && ino.indirect2 < |v|
    ensures var w := v[ino.indirect2 := PutWords(v[ino.indirect2], a, [all[m]])];
      Built(ino, w, all, m + 1) && SameExcept(v, w, IndexBlocks(all))
  {
    BuiltAt(ino, v, all, m, 157);
    SubSlots(a, 0, m + 1);
    Step(ino, v, all, m);
    var b := ino.indirect2;
    assert SetSlot(Tree(ino, v), m, all[m]) == Tree(ino, v[b := PutWords(v[b], a, [all[m]])]);
    assert IsIndexSlot(157);
  }

  lemma {:induction false} SubBlockAt(ino: Ino, v: seq<Block>, all: seq<nat>, a: nat, b: nat, m: nat)
    requires Built(ino, v, all, m) && m == 159 + 129 * a + b && m < |all| <= MAX_SLOTS && a < 128 && b < 128
    requires Below(all, |v|) && Distinct(all)
    ensures ino.indirect2 == all[157] && ino.indirect2 < |v| && IsIndexSlot(m - 1 - b)
    ensures U32(v[ino.indirect2], a) == all[m - 1 - b] && all[m - 1 - b] != ino.indirect2
  {
    BuiltAt(ino, v, all, m, 157);
    SubSlots(a, b, m);
    BuiltAt(ino, v, all, m, m - 1 - b);
  }

  /** Where sub-block a and its first `count` entries stand in the slot order. */
  lemma {:induction false} SubBlockEntries(ino: Ino, v: seq<Block>, own: seq<nat>, a: nat, count: nat, m: nat)
    requires |ino.direct| == 28 && own == Slots(ino, v, |own|) && |own| <= MAX_SLOTS && Below(own, |v|)
    requires ino.indirect2 < |v| && a < 128 && count <= 128 && m == 158 + 129 * a && m + 1 + count <= |own|
    ensures own[m] == U32(v[ino.indirect2], a)
    ensures forall j :: 0 <= j < count ==> own[m + 1 + j] == U32(v[own[m]], j)
  {
    SubSlots(a, 0, m + 1);
    assert own[m] == Lookup(ino, v, m);
    forall j | 0 <= j < count ensures own[m + 1 + j] == U32(v[own[m]], j) {
      assert own[m + 1 + j] == Lookup(ino, v, m + 1 + j);
      SubEntry(ino, v, a, j, m + 1 + j);
    }
  }

  lemma {:induction false} SubEntry(ino: Ino, v: seq<Block>, a: nat, j: nat, k: nat)
    requires |ino.direct| == 28 && ino.indirect2 < |v| && a < 128 && j < 128 && k == 159 + 129 * a + j
    ensures Lookup(ino, v, k) == Word(v, U32(v[ino.indirect2], a), j)
  {
    SubSlots(a, j, k);
  }

  /** The next entry of a sub-block. */
  lemma {:induction false} StepSubEntry(ino: Ino, v: seq<Block>, all: seq<nat>, a: nat, b: nat, m: nat, sub: nat)
    requires Built(ino, v, all, m) && m == 159 + 129 * a + b && m < |all| <= MAX_SLOTS && a < 128 && b < 128
    requires Below(all, |v|) && Distinct(all) && |v| <= U32_LIMIT && sub == all[m - 1 - b]
    ensures ino.indirect2 < |v| && sub < |v| && sub != ino.indirect2 && U32(v[ino.indirect2], a) == sub
    ensures var w := v[sub := PutWords(v[sub], b, [all[m]])];
      Built(ino, w, all, m + 1) && SameExcept(v, w, IndexBlocks(all))
  {
    SubBlockAt(ino, v, all, a, b, m);
    SubSlots(a, b, m);
    Step(ino, v, all, m);
    assert SetSlot(Tree(ino, v), m, all[m]) == Tree(ino, v[sub := PutWords(v[sub], b, [all[m]])]);
    assert sub in IndexBlocks(all);
  }
}
