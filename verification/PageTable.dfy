/** The page table object: a root frame, the frames of all nodes, and the operations that walk and change it. */
module PageTables {
  import opened Basics
  import opened Frames
  import opened PageTree

  // ----- how a table may change memory

  /** Memory, free frames and nodes at one moment. */
  datatype Stage = Stage(m: seq<Frame>, free: set<nat>, at: map<Node, nat>)

  /** From s to t the table only gained nodes, each on a frame that was free; frames that were neither free
      nor its own are untouched, and no frame is lost. */
  ghost predicate Extends(s: Stage, t: Stage) {
    && |t.m| == |s.m|
    && forall j: nat {:trigger Open(j)} ::
      && t.free <= s.free && t.free + t.at.Values == s.free + s.at.Values
      && |t.free| + |t.at| == |s.free| + |s.at|
      && (forall n :: n in s.at ==> n in t.at && t.at[n] == s.at[n])
      && (forall p :: 0 <= p < |s.m| && p !in s.free && p !in s.at.Values ==> t.m[p] == s.m[p])
  }

  lemma {:induction false} ExtendsSelf(s: Stage)
    ensures Extends(s, s)
  {
  }

  lemma {:induction false} ExtendsOpens(s: Stage, t: Stage)
    requires Extends(s, t)
    ensures t.free <= s.free && t.free + t.at.Values == s.free + s.at.Values
    ensures |t.free| + |t.at| == |s.free| + |s.at|
    ensures forall n :: n in s.at ==> n in t.at && t.at[n] == s.at[n]
    ensures forall p :: 0 <= p < |s.m| && p !in s.free && p !in s.at.Values ==> t.m[p] == s.m[p]
  {
    assert Open(0);
  }

  lemma {:induction false} ExtendsOn(s: Stage, t: Stage, u: Stage)
    requires Extends(s, t) && Extends(t, u)
    ensures Extends(s, u)
  {
    ExtendsOpens(s, t);
    ExtendsOpens(t, u);
    forall p | 0 <= p < |s.m| && p !in s.free && p !in s.at.Values ensures u.m[p] == s.m[p] {
      assert p !in s.free + s.at.Values;
      assert p !in t.free && p !in t.at.Values;
    }
  }

  /** A store into the table's own frame. */
  lemma {:induction false} ExtendsStore(s: Stage, p: nat, f: Frame)
    requires p in s.at.Values && p < |s.m|
    ensures Extends(s, s.(m := s.m[p := f]))
  {
  }

  lemma {:induction false} ValuesAdd(at: map<Node, nat>, c: Node, p: nat)
    requires c !in at
    ensures at[c := p].Values == at.Values + {p}
  {
    var more := at[c := p];
    assert more[c] == p;
    forall x | x in at.Values ensures x in more.Values {
      var n :| n in at && at[n] == x;
      assert more[n] == x;
    }
  }

  lemma {:induction false} SizeAdd(at: map<Node, nat>, c: Node, p: nat)
    requires c !in at
    ensures |at[c := p]| == |at| + 1
  {
    assert at[c := p].Keys == at.Keys + {c};
  }

  /** One new node on a free frame. */
  lemma {:induction false} ExtendsLink(s: Stage, n: Node, i: nat, p: nat)
    requires n in s.at && s.at[n] < |s.m| && i < 512 && Child(n, i) !in s.at && p in s.free && p < |s.m|
    requires p < PPN_LIMIT
    ensures Extends(s, Stage(Linked(s.m, s.at, n, i, p), s.free - {p}, s.at[Child(n, i) := p]))
  {
    var t := Stage(Linked(s.m, s.at, n, i, p), s.free - {p}, s.at[Child(n, i) := p]);
    ValuesAdd(s.at, Child(n, i), p);
    SizeAdd(s.at, Child(n, i), p);
    assert s.at[n] in s.at.Values;
    assert t.free + t.at.Values == s.free + s.at.Values;
  }

  /** The nodes below the root on the way to a page. */
  ghost function Path(k: Key): set<Node> {
    {Child(Root, k.i0), LeafOf(k)}
  }

  /** How many of them are not there yet. */
  ghost function Missing(at: map<Node, nat>, k: Key): nat {
    (if Child(Root, k.i0) in at then 0 else 1) + (if LeafOf(k) in at then 0 else 1)
  }

  /** `frames` lists the frames of all nodes, once each; all are managed and none is free. Sealed. */
  ghost predicate Kept(frames: seq<nat>, at: map<Node, nat>, free: set<nat>, managed: set<nat>) {
    forall j: nat {:trigger Open(j)} ::
      Distinct(frames) && Elements(frames) == at.Values && at.Values !! free && at.Values <= managed
  }

  lemma {:induction false} KeptOpens(frames: seq<nat>, at: map<Node, nat>, free: set<nat>, managed: set<nat>)
    requires Kept(frames, at, free, managed)
    ensures Distinct(frames) && Elements(frames) == at.Values && at.Values !! free && at.Values <= managed
  {
    assert Open(0);
  }

  lemma {:induction false} KeepsOneMore(frames: seq<nat>, at: map<Node, nat>, free: set<nat>, managed: set<nat>,
                                        c: Node, p: nat)
    requires Kept(frames, at, free, managed) && c !in at && p in free && p in managed
    ensures p !in at.Values && Kept(frames + [p], at[c := p], free - {p}, managed)
  {
    KeptOpens(frames, at, free, managed);
    ValuesAdd(at, c, p);
    ElementsPush(frames, p);
    forall i | 0 <= i < |frames| ensures frames[i] != p {
      assert frames[i] in Elements(frames);
    }
  }

  /** The loop of VirtPageNum::indexes: nine bits at a time, from the lowest. */
  method Indexes(vpn: nat) returns (idx: seq<nat>)
    ensures idx == [KeyOf(vpn).i0, KeyOf(vpn).i1, KeyOf(vpn).i2]
  {
    var v := vpn;
    idx := [0, 0, 0];
    var i := 3;
    while i > 0
      invariant 0 <= i <= 3 && |idx| == 3
      invariant forall n: nat :: Field(v, n) == Field(vpn, 3 - i + n)
      invariant forall j :: i <= j < 3 ==> idx[j] == Field(vpn, 2 - j)
    {
      i := i - 1;
      assert v % 512 == Field(v, 0);
      idx := idx[i := v % 512];
      forall n: nat ensures Field(v / 512, n) == Field(vpn, 3 - i + n) {
        assert Field(v / 512, n) == Field(v, n + 1);
      }
      v := v / 512;
    }
  }

  class PageTable {
    const root: nat
    var frames: seq<nat>
    ghost var at: map<Node, nat>
    ghost var pages: map<Key, Page>

    ghost predicate Valid(mem: FrameMemory)
      reads this, mem
    {
      && mem.Valid() && Table(mem.ram, root, at, pages)
      && Kept(frames, at, mem.free, mem.Managed())
    }

    ghost function Now(mem: FrameMemory): Stage
      reads this, mem
    {
      Stage(mem.ram, mem.free, at)
    }

    /** The frame of a new root, already taken and cleared. */
    constructor (root: nat, mem: FrameMemory)
      requires mem.Valid() && root < |mem.ram| && root < PPN_LIMIT && mem.ram[root] == ZeroFrame()
      requires root in mem.Managed() && root !in mem.free
      ensures Valid(mem) && this.root == root && at == map[Root := root] && pages == map[]
    {
      this.root := root;
      frames, at, pages := [root], map[Root := root], map[];
      NewTable(mem.ram, root);
      new;
      assert at.Keys == {Root} && at.Values == {root} by {
        assert at[Root] == root;
      }
      assert Elements(frames) == {root} by {
        assert frames[0] == root;
      }
    }

    /** One level of find_pte_create: the entry i of node n, whose child is made when it is not there.
        None is the panic of unwrap when no frame is free. */
    method Descend(ppn: nat, i: nat, mem: FrameMemory, ghost n: Node) returns (r: Option<nat>)
      requires Valid(mem) && n in at && at[n] == ppn && Depth(n) < 2 && i < 512
      modifies this`frames, this`at, mem
      ensures r.Some? ==> Valid(mem) && Extends(old(Now(mem)), Now(mem))
      ensures r.Some? ==> at.Keys == old(at).Keys + {Child(n, i)} && at[Child(n, i)] == r.value
      ensures r.None? <==> Child(n, i) !in old(at) && old(mem.free) == {}
      ensures Child(n, i) in old(at) ==> Now(mem) == old(Now(mem))
    {
      TableOpens(mem.ram, root, at, pages);
      StepDown(mem.ram, root, at, n, i);
      var pte := mem.ram[ppn][i];
      if IsValid(pte) {
        ExtendsSelf(Now(mem));
        return Some(PpnOf(pte));
      }
      r := AddChild(ppn, i, mem, n);
    }

    /** A new node on a fresh frame, linked from entry i of node n. */
    method AddChild(ppn: nat, i: nat, mem: FrameMemory, ghost n: Node) returns (r: Option<nat>)
      requires Valid(mem) && n in at && at[n] == ppn < |mem.ram| && Depth(n) < 2 && i < 512 && Child(n, i) !in at
      modifies this`frames, this`at, mem
      ensures r.None? <==> old(mem.free) == {}
      ensures r.Some? ==> Valid(mem) && Extends(old(Now(mem)), Now(mem)) && at == old(at)[Child(n, i) := r.value]
    {
      r := mem.Alloc();
      if r.None? {
        return;
      }
      var p := r.value;
      KeepsOneMore(frames, at, old(mem.free), mem.Managed(), Child(n, i), p);
      Grow(old(mem.ram), root, at, pages, n, i, p);
      ExtendsLink(old(Now(mem)), n, i, p);
      mem.Store(ppn, mem.ram[ppn][i := Entry(p, V)]);
      frames := frames + [p];
      at := at[Child(n, i) := p];
    }

    /** find_pte_create: the place of the entry for vpn, with the nodes on the way to it. The map is the same.
        It panics (None) only when fewer frames are free than nodes are missing on the way. */
    method FindPteCreate(vpn: nat, mem: FrameMemory) returns (r: Option<Place>)
      requires Valid(mem)
      modifies this`frames, this`at, mem
      ensures r.Some? ==> Valid(mem) && Extends(old(Now(mem)), Now(mem))
      ensures r.Some? ==>
        at.Keys == old(at).Keys + Path(KeyOf(vpn)) && r.value == Place(at[LeafOf(KeyOf(vpn))], KeyOf(vpn).i2)
      ensures r.None? ==> |old(mem.free)| < Missing(old(at), KeyOf(vpn))
      ensures LeafOf(KeyOf(vpn)) in old(at) ==> r.Some? && Now(mem) == old(Now(mem))
    {
      ghost var k := KeyOf(vpn);
      ghost var s := Now(mem);
      var idxs := Indexes(vpn);
      TableOpens(mem.ram, root, at, pages);
      NoOrphan(mem.ram, root, at, LeafOf(k));
      var mid := Descend(root, idxs[0], mem, Root);
      if mid.None? {
        return None;
      }
      ghost var t := Now(mem);
      var leaf := Descend(mid.value, idxs[1], mem, Child(Root, k.i0));
      if leaf.None? {
        OutOfFrames(s, t, k);
        return None;
      }
      ExtendsOn(s, t, Now(mem));
      r := Some(Place(leaf.value, idxs[2]));
    }

    /** map: a key that was not mapped is, to ppn with flags and V. False is a panic: the assertion that the key is
        not mapped yet, or the want of a node frame. */
    method Map(vpn: nat, ppn: nat, flags: nat, mem: FrameMemory) returns (ok: bool)
      requires Valid(mem) && Encodable(Page(ppn, flags))
      modifies this`frames, this`at, this`pages, mem
      ensures ok ==> KeyOf(vpn) !in old(pages)
      ensures ok ==> Valid(mem) && Extends(old(Now(mem)), Now(mem)) && at.Keys == old(at).Keys + Path(KeyOf(vpn))
      ensures ok ==> pages == old(pages)[KeyOf(vpn) := Page(ppn, flags)]
      ensures !ok ==> KeyOf(vpn) in old(pages) || |old(mem.free)| < Missing(old(at), KeyOf(vpn))
    {
      ghost var k := KeyOf(vpn);
      var pte := FindPteCreate(vpn, mem);
      if pte.None? {
        return false;
      }
      StoredEntry(mem.ram, root, at, pages, k);
      if IsValid(mem.ram[pte.value.p][pte.value.j]) {
        return false;
      }
      ghost var t := Now(mem);
      SetPage(pte.value, Entry(ppn, flags + V), k, pages[k := Page(ppn, flags)], mem);
      ExtendsOn(old(Now(mem)), t, Now(mem));
      ok := true;
    }

    /** unmap: the key must be mapped (assert in the source); then exactly that key is not. No frame moves. */
    method Unmap(vpn: nat, mem: FrameMemory)
      requires Valid(mem) && KeyOf(vpn) in pages
      modifies this`frames, this`at, this`pages, mem
      ensures Valid(mem) && at == old(at) && mem.free == old(mem.free) && pages == old(pages) - {KeyOf(vpn)}
      ensures Extends(old(Now(mem)), Now(mem))
    {
      ghost var k := KeyOf(vpn);
      MappedHasLeaf(mem.ram, root, at, pages, k);
      var pte := FindPteCreate(vpn, mem);
      StoredEntry(mem.ram, root, at, pages, k);
      assert IsValid(mem.ram[pte.value.p][pte.value.j]);
      SetPage(pte.value, 0, k, pages - {k}, mem);
    }

    /** find_pte: the same walk, which stops at the first node that is not there. */
    method Find(vpn: nat, mem: FrameMemory) returns (r: Option<Place>)
      requires Valid(mem)
      ensures r == FindPte(mem.ram, root, vpn)
      ensures r == if LeafOf(KeyOf(vpn)) in at then Some(Place(at[LeafOf(KeyOf(vpn))], KeyOf(vpn).i2)) else None
    {
      var idxs := Indexes(vpn);
      ghost var n := Root;
      ghost var k := KeyOf(vpn);
      TableOpens(mem.ram, root, at, pages);
      FindPteIs(mem.ram, root, at, vpn);
      NoOrphan(mem.ram, root, at, LeafOf(k));
      var ppn := root;
      var i := 0;
      while i < 2
        invariant 0 <= i <= 2 && n in at && ppn == at[n]
        invariant n == if i == 0 then Root else if i == 1 then Child(Root, k.i0) else LeafOf(k)
      {
        StepDown(mem.ram, root, at, n, idxs[i]);
        var pte := mem.ram[ppn][idxs[i]];
        if !IsValid(pte) {
          return None;
        }
        ppn := PpnOf(pte);
        n := Child(n, idxs[i]);
        i := i + 1;
      }
      r := Some(Place(ppn, idxs[2]));
    }

    /** translate: for a mapped page, the entry made of its frame and permissions. */
    method TranslatePage(vpn: nat, mem: FrameMemory) returns (r: Option<nat>)
      requires Valid(mem)
      ensures r == Translate(mem.ram, root, vpn)
      ensures KeyOf(vpn) in pages <==> r.Some? && IsValid(r.value)
      ensures KeyOf(vpn) in pages ==>
        PpnOf(r.value) == pages[KeyOf(vpn)].ppn && FlagsOf(r.value) == pages[KeyOf(vpn)].perm + V
    {
      TranslateRefinesMap(mem.ram, root, at, pages, vpn);
      var place := Find(vpn, mem);
      if place.None? {
        return None;
      }
      StoredEntry(mem.ram, root, at, pages, KeyOf(vpn));
      r := Some(mem.ram[place.value.p][place.value.j]);
    }

    /** translate_va: the physical address of a mapped virtual address keeps the offset in the page. In an unmapped
        page whose leaf table exists the result is an address in frame 0. */
    method TranslateAddress(va: nat, mem: FrameMemory) returns (r: Option<nat>)
      requires Valid(mem)
      ensures KeyOf(va / 4096) in pages ==> r == Some(pages[KeyOf(va / 4096)].ppn * 4096 + va % 4096)
      ensures r.None? <==> LeafOf(KeyOf(va / 4096)) !in at
      ensures r.Some? && KeyOf(va / 4096) !in pages ==> r == Some(va % 4096)
    {
      TranslateIs(mem.ram, root, at, pages, va / 4096);
      TranslateRefinesMap(mem.ram, root, at, pages, va / 4096);
      var pte := TranslatePage(va / 4096, mem);
      if pte.None? {
        return None;
      }
      r := Some(PpnOf(pte.value) * 4096 + va % 4096);
    }

    /** The store through the found entry. */
    method SetPage(place: Place, bits: u64, ghost k: Key, ghost after: map<Key, Page>, mem: FrameMemory)
      requires Valid(mem) && Indexable(k) && LeafOf(k) in at && place == Place(at[LeafOf(k)], k.i2)
      requires forall l :: l != k ==> (l in after <==> l in pages) && (l in after ==> after[l] == pages[l])
      requires bits == PageWord(after, k) && (k in after ==> Encodable(after[k]))
      modifies this`pages, mem`ram
      ensures Valid(mem) && pages == after && mem.free == old(mem.free)
      ensures |mem.ram| == |old(mem.ram)|
      ensures forall p :: 0 <= p < |mem.ram| && p != place.p ==> mem.ram[p] == old(mem.ram)[p]
      ensures Extends(old(Now(mem)), Now(mem))
    {
      SetEntry(mem.ram, root, at, pages, k, after, bits);
      assert place.p in at.Values;
      ExtendsStore(Now(mem), place.p, mem.ram[place.p][place.j := bits]);
      mem.Store(place.p, mem.ram[place.p][place.j := bits]);
      pages := after;
    }
  }

  /** No frame is left after the middle node: fewer were free than nodes were missing. */
  lemma {:induction false} OutOfFrames(s: Stage, t: Stage, k: Key)
    requires Extends(s, t) && t.at.Keys == s.at.Keys + {Child(Root, k.i0)} && t.free == {} && LeafOf(k) !in t.at
    ensures |s.free| < Missing(s.at, k)
  {
    assert |t.free| + |t.at| == |s.free| + |s.at| by {
      ExtendsOpens(s, t);
    }
    KeysSize(s.at, t.at, Child(Root, k.i0));
  }

  lemma {:induction false} KeysSize(at: map<Node, nat>, more: map<Node, nat>, c: Node)
    requires more.Keys == at.Keys + {c}
    ensures |more| == |at| + if c in at then 0 else 1
  {
    assert |more.Keys| == |more| && |at.Keys| == |at|;
    if c in at {
      assert more.Keys == at.Keys;
    }
  }

  // ----- runs

  datatype TableOp = MapOp(vpn: nat, page: Page) | UnmapOp(vpn: nat)

  /** Each operation finds what its assertion demands: an unmapped page to map, a mapped page to unmap. */
  ghost predicate Legal(pages: map<Key, Page>, ops: seq<TableOp>)
    decreases |ops|
  {
    ops == [] || (LegalOp(pages, ops[0]) && Legal(Apply(pages, ops[0]), ops[1..]))
  }

  ghost predicate LegalOp(pages: map<Key, Page>, op: TableOp) {
    match op
    case MapOp(vpn, page) => KeyOf(vpn) !in pages && Encodable(page)
    case UnmapOp(vpn) => KeyOf(vpn) in pages
  }

  ghost function Apply(pages: map<Key, Page>, op: TableOp): map<Key, Page> {
    match op
    case MapOp(vpn, page) => pages[KeyOf(vpn) := page]
    case UnmapOp(vpn) => pages - {KeyOf(vpn)}
  }

  ghost function AfterAll(pages: map<Key, Page>, ops: seq<TableOp>): map<Key, Page>
    decreases |ops|
  {
    if ops == [] then pages else AfterAll(Apply(pages, ops[0]), ops[1..])
  }

  /** What a run means, one operation after the other: map gives one key a page, unmap takes it away. */
  lemma {:induction false} ApplyIs(pages: map<Key, Page>, op: TableOp, more: seq<TableOp>, k: Key)
    ensures var after := Apply(pages, op);
      && (op.MapOp? ==> KeyOf(op.vpn) in after && after[KeyOf(op.vpn)] == op.page)
      && (op.UnmapOp? ==> KeyOf(op.vpn) !in after)
      && (k != KeyOf(op.vpn) ==> (k in after <==> k in pages) && (k in pages ==> after[k] == pages[k]))
      && AfterAll(pages, []) == pages && AfterAll(pages, [op] + more) == AfterAll(after, more)
  {
    assert ([op] + more)[1..] == more;
  }

  /** Any run of map and unmap leaves the table of the finite map after the same run. It can only panic for want
      of node frames, two per operation at most. */
  method RunTable(table: PageTable, ops: seq<TableOp>, mem: FrameMemory) returns (ok: bool)
    requires table.Valid(mem) && Legal(table.pages, ops)
    modifies table, mem
    ensures ok ==> table.Valid(mem) && table.pages == AfterAll(old(table.pages), ops)
    ensures |old(mem.free)| >= 2 * |ops| ==> ok
    decreases |ops|
  {
    if ops == [] {
      return true;
    }
    ghost var s := table.Now(mem);
    match ops[0] {
      case MapOp(vpn, page) => ok := table.Map(vpn, page.ppn, page.perm, mem);
      case UnmapOp(vpn) =>
        table.Unmap(vpn, mem);
        ok := true;
    }
    if ok {
      if ops[0].MapOp? {
        TwoFrames(s, table.Now(mem), KeyOf(ops[0].vpn));
      }
      ok := RunTable(table, ops[1..], mem);
    }
  }

  lemma {:induction false} TwoFrames(s: Stage, t: Stage, k: Key)
    requires Extends(s, t) && t.at.Keys == s.at.Keys + Path(k)
    ensures |t.free| + 2 >= |s.free|
  {
    assert |t.free| + |t.at| == |s.free| + |s.at| by {
      ExtendsOpens(s, t);
    }
    assert Path(k) == {Child(Root, k.i0)} + {LeafOf(k)};
    UnionCount({Child(Root, k.i0)}, {LeafOf(k)});
    UnionCount(s.at.Keys, Path(k));
    assert |t.at| == |t.at.Keys| && |s.at| == |s.at.Keys|;
  }
}
