/** The three-level Sv39 page table in physical frames, as a tree of nodes over a finite map. */
module PageTree {
  import opened Basics
  import opened Frames

  // ----- page numbers and entries

  /** The three indexes of a virtual page number, highest first. */
  datatype Key = Key(i0: nat, i1: nat, i2: nat)

  ghost predicate Indexable(k: Key) {
    k.i0 < 512 && k.i1 < 512 && k.i2 < 512
  }

  /** Nine bits of a page number: field 0 is the lowest. */
  function Field(v: nat, n: nat): (d: nat)
    ensures d < 512
    decreases v, n
  {
    if n == 0 then v % 512 else Field(v / 512, n - 1)
  }

  /** Only the low 27 bits of the page number count. */
  function KeyOf(vpn: nat): (k: Key)
    ensures k.i0 < 512 && k.i1 < 512 && k.i2 < 512
  {
    Key(Field(vpn, 2), Field(vpn, 1), Field(vpn, 0))
  }

  const VPN_LIMIT := 0x800_0000

  lemma {:induction false} Low27(r: nat, low: nat)
    requires low < 0x800_0000
    ensures (0x800_0000 * r + low) % 0x800_0000 == low
  {
    assert (0x800_0000 * r + low) / 0x800_0000 == r;
  }

  lemma {:induction false} TwoShifts(v: nat)
    ensures v / 512 / 512 == v / 0x4_0000
  {
  }

  lemma {:induction false} Fields(v: nat)
    ensures KeyOf(v) == Key(v / 0x4_0000 % 512, v / 512 % 512, v % 512)
  {
    TwoShifts(v);
    assert Field(v, 1) == Field(v / 512, 0);
    assert Field(v, 2) == Field(v / 512, 1) == Field(v / 512 / 512, 0);
  }

  lemma {:induction false} Digits(v: nat)
    ensures v % 0x800_0000 == KeyOf(v).i0 * 0x4_0000 + KeyOf(v).i1 * 512 + KeyOf(v).i2
  {
    var q := v / 512;
    var r := v / 0x4_0000;
    Fields(v);
    TwoShifts(v);
    var i0, i1, i2 := r % 512, q % 512, v % 512;
    assert v == 512 * q + i2 && q == 512 * r + i1 && r == 512 * (r / 512) + i0;
    Low27(r / 512, i0 * 0x4_0000 + i1 * 512 + i2);
  }

  /** Two page numbers share their entry exactly when they agree in 27 bits. */
  lemma {:induction false} SameKey(v: nat, w: nat)
    ensures KeyOf(v) == KeyOf(w) <==> v % VPN_LIMIT == w % VPN_LIMIT
  {
    Digits(v);
    Digits(w);
    if v % VPN_LIMIT == w % VPN_LIMIT {
      OneKey(KeyOf(v), KeyOf(w));
    }
  }

  /** Three digits below 512 are determined by the number they make. */
  lemma {:induction false} OneKey(a: Key, b: Key)
    requires Indexable(a) && Indexable(b)
    requires a.i0 * 0x4_0000 + a.i1 * 512 + a.i2 == b.i0 * 0x4_0000 + b.i1 * 512 + b.i2
    ensures a == b
  {
    var x := a.i0 * 0x4_0000 + a.i1 * 512 + a.i2;
    assert x / 512 == a.i0 * 512 + a.i1 && x / 512 == b.i0 * 512 + b.i1;
    assert x / 512 / 512 == a.i0 && x / 512 / 512 == b.i0;
  }

  lemma {:induction false} OneTurn(v: nat)
    ensures KeyOf(v + VPN_LIMIT) == KeyOf(v)
  {
    assert (v + 0x800_0000) / 0x800_0000 == v / 0x800_0000 + 1;
    SameKey(v, v + VPN_LIMIT);
  }

  /** A mapped page: where it is, and the flag bits besides V. */
  datatype Page = Page(ppn: nat, perm: nat)

  const V := 1
  const R := 2
  const W := 4
  const X := 8
  const U := 16

  predicate Encodable(p: Page) {
    p.ppn < PPN_LIMIT && p.perm < 256 && p.perm % 2 == 0
  }

  /** PageTableEntry::new: ppn << 10 | flags. */
  function Entry(ppn: nat, flags: nat): (bits: u64)
    requires ppn < PPN_LIMIT && flags < 256
  {
    ppn * 1024 + flags
  }

  function PpnOf(bits: nat): nat {
    bits / 1024 % 0x1000_0000_0000
  }

  function FlagsOf(bits: nat): nat {
    bits % 256
  }

  function IsValid(bits: nat): bool {
    bits % 2 == 1
  }

  lemma By1024(q: nat, r: nat)
    requires r < 1024
    ensures (q * 1024 + r) / 1024 == q
  {
  }

  lemma Low8(q: nat, r: nat)
    requires r < 256
    ensures (q * 1024 + r) % 256 == r
  {
    assert (q * 1024 + r) / 256 == 4 * q;
  }

  lemma Low1(q: nat, r: nat)
    ensures (q * 1024 + r) % 2 == r % 2
  {
    assert q * 1024 + r == 2 * (q * 512) + r;
    EvenPart(q * 512, r);
  }

  /** An entry gives back the page number and the flags it was made of. */
  lemma {:induction false} EntryReadsBack(ppn: nat, flags: nat)
    requires ppn < PPN_LIMIT && flags < 256
    ensures PpnOf(Entry(ppn, flags)) == ppn && FlagsOf(Entry(ppn, flags)) == flags
    ensures IsValid(Entry(ppn, flags)) <==> flags % 2 == 1
  {
    By1024(ppn, flags);
    Low8(ppn, flags);
    Low1(ppn, flags);
  }

  // ----- the tree

  datatype Node = Root | Child(up: Node, i: nat)

  function Depth(n: Node): nat {
    if n.Root? then 0 else 1 + Depth(n.up)
  }

  function LeafOf(k: Key): Node {
    Child(Child(Root, k.i0), k.i1)
  }

  /** The entry that points to node c, zero when there is no such node. */
  ghost function Link(at: map<Node, nat>, c: Node): nat {
    if c in at then at[c] * 1024 + 1 else 0
  }

  ghost predicate NodeOk(m: seq<Frame>, at: map<Node, nat>, n: Node)
    requires n in at
  {
    && at[n] < |m| && at[n] < PPN_LIMIT && Depth(n) <= 2
    && (n.Child? ==> n.i < 512 && n.up in at)
  }

  /** The frames at[n] are distinct; an inner node holds exactly the links to its children. */
  ghost predicate Tree(m: seq<Frame>, root: nat, at: map<Node, nat>) {
    && Root in at && at[Root] == root
    && (forall n :: n in at ==> NodeOk(m, at, n))
    && (forall n, o :: n in at && o in at && n != o ==> at[n] != at[o])
    && (forall n, i :: n in at && Depth(n) < 2 && 0 <= i < 512 ==> m[at[n]][i] == Link(at, Child(n, i)))
  }

  ghost function PageWord(pages: map<Key, Page>, k: Key): nat {
    if k in pages then pages[k].ppn * 1024 + pages[k].perm + 1 else 0
  }

  ghost predicate HoldsAt(m: seq<Frame>, at: map<Node, nat>, pages: map<Key, Page>, k: Key) {
    && (k in pages ==> Indexable(k) && Encodable(pages[k]) && LeafOf(k) in at)
    && (Indexable(k) && LeafOf(k) in at ==> at[LeafOf(k)] < |m| && m[at[LeafOf(k)]][k.i2] == PageWord(pages, k))
  }

  /** The leaf tables hold exactly the entries of `pages`. */
  ghost predicate Holds(m: seq<Frame>, at: map<Node, nat>, pages: map<Key, Page>) {
    forall k :: HoldsAt(m, at, pages, k)
  }

  /** The frames reached from root are the tree `at` and represent the finite map `pages`. Sealed. */
  ghost predicate Table(m: seq<Frame>, root: nat, at: map<Node, nat>, pages: map<Key, Page>) {
    forall j: nat {:trigger Open(j)} :: Tree(m, root, at) && Holds(m, at, pages)
  }

  lemma {:induction false} TableOpens(m: seq<Frame>, root: nat, at: map<Node, nat>, pages: map<Key, Page>)
    requires Table(m, root, at, pages)
    ensures Tree(m, root, at) && Holds(m, at, pages)
  {
    assert Open(0);
  }

  lemma {:induction false} NoOrphan(m: seq<Frame>, root: nat, at: map<Node, nat>, c: Node)
    requires Tree(m, root, at) && c.Child?
    ensures c in at ==> c.up in at
  {
    if c in at {
      assert NodeOk(m, at, c);
    }
  }

  // ----- changes

  /** A fresh table: one zeroed root frame. */
  lemma {:induction false} NewTable(m: seq<Frame>, root: nat)
    requires root < |m| && root < PPN_LIMIT && m[root] == ZeroFrame()
    ensures Table(m, root, map[Root := root], map[])
  {
  }

  /** The table only depends on its own frames. */
  lemma {:induction false} TableFrame(m: seq<Frame>, w: seq<Frame>, root: nat, at: map<Node, nat>,
                                      pages: map<Key, Page>)
    requires Table(m, root, at, pages) && |w| == |m| && forall n :: n in at && at[n] < |m| ==> w[at[n]] == m[at[n]]
    ensures Table(w, root, at, pages)
  {
    TableOpens(m, root, at, pages);
    forall n | n in at ensures NodeOk(w, at, n) {
      assert NodeOk(m, at, n);
    }
    forall k ensures HoldsAt(w, at, pages, k) {
      assert HoldsAt(m, at, pages, k);
    }
  }

  /** A new node: fresh frame p is cleared and linked from entry i of node n. The map is the same. */
  ghost function Linked(m: seq<Frame>, at: map<Node, nat>, n: Node, i: nat, p: nat): (w: seq<Frame>)
    requires n in at && at[n] < |m| && i < 512 && p < |m| && p < PPN_LIMIT
    ensures |w| == |m|
  {
    var z := m[p := ZeroFrame()];
    z[at[n] := z[at[n]][i := Entry(p, V)]]
  }

  lemma {:induction false} GrowTree(m: seq<Frame>, root: nat, at: map<Node, nat>, n: Node, i: nat, p: nat)
    requires Tree(m, root, at) && n in at && Depth(n) < 2 && i < 512 && Child(n, i) !in at
    requires p < |m| && p < PPN_LIMIT && p !in at.Values
    ensures Tree(Linked(m, at, n, i, p), root, at[Child(n, i) := p])
  {
    var c := Child(n, i);
    var w, more := Linked(m, at, n, i, p), at[c := p];
    forall x | x in more ensures NodeOk(w, more, x) {
      if x != c {
        assert NodeOk(m, at, x);
      }
    }
    forall x, j | x in more && Depth(x) < 2 && 0 <= j < 512 ensures w[more[x]][j] == Link(more, Child(x, j)) {
      if x == c {
        NoOrphan(m, root, at, Child(c, j));
        assert w[p] == ZeroFrame();
      } else {
        assert at[x] in at.Values;
        assert m[at[x]][j] == Link(at, Child(x, j));
      }
    }
    forall x, y | x in more && y in more && x != y ensures more[x] != more[y] {
      assert x != c ==> more[x] == at[x] && at[x] in at.Values;
      assert y != c ==> more[y] == at[y] && at[y] in at.Values;
    }
  }

  lemma {:induction false} GrowHolds(m: seq<Frame>, root: nat, at: map<Node, nat>, pages: map<Key, Page>, n: Node,
                                     i: nat, p: nat)
    requires Tree(m, root, at) && Holds(m, at, pages) && n in at && Depth(n) < 2 && i < 512 && Child(n, i) !in at
    requires p < |m| && p < PPN_LIMIT && p !in at.Values
    ensures Holds(Linked(m, at, n, i, p), at[Child(n, i) := p], pages)
  {
    var c := Child(n, i);
    var w, more := Linked(m, at, n, i, p), at[c := p];
    forall k ensures HoldsAt(w, more, pages, k) {
      assert HoldsAt(m, at, pages, k);
      var leaf := LeafOf(k);
      assert Depth(leaf) == 2;
      if leaf in at {
        assert at[leaf] in at.Values && at[leaf] != at[n];
      }
    }
  }

  lemma {:induction false} Grow(m: seq<Frame>, root: nat, at: map<Node, nat>, pages: map<Key, Page>, n: Node, i: nat,
                                p: nat)
    requires Table(m, root, at, pages) && n in at && Depth(n) < 2 && i < 512 && Child(n, i) !in at
    requires p < |m| && p < PPN_LIMIT && p !in at.Values
    ensures at[n] < |m| && Table(Linked(m, at, n, i, p), root, at[Child(n, i) := p], pages)
  {
    TableOpens(m, root, at, pages);
    assert NodeOk(m, at, n);
    GrowTree(m, root, at, n, i, p);
    GrowHolds(m, root, at, pages, n, i, p);
  }

  /** Storing the word of an entry in its leaf table changes the map at that key and nowhere else. */
  lemma {:induction false} SetEntry(m: seq<Frame>, root: nat, at: map<Node, nat>, pages: map<Key, Page>, k: Key,
                                    after: map<Key, Page>, bits: u64)
    requires Table(m, root, at, pages) && Indexable(k) && LeafOf(k) in at
    requires forall l :: l != k ==> (l in after <==> l in pages) && (l in after ==> after[l] == pages[l])
    requires bits == PageWord(after, k) && (k in after ==> Encodable(after[k]))
    ensures at[LeafOf(k)] < |m|
    ensures Table(m[at[LeafOf(k)] := m[at[LeafOf(k)]][k.i2 := bits]], root, at, after)
  {
    TableOpens(m, root, at, pages);
    var leaf := LeafOf(k);
    assert NodeOk(m, at, leaf) && Depth(leaf) == 2;
    var w := m[at[leaf] := m[at[leaf]][k.i2 := bits]];
    forall n | n in at ensures NodeOk(w, at, n) {
      assert NodeOk(m, at, n);
    }
    forall l ensures HoldsAt(w, at, after, l) {
      assert HoldsAt(m, at, pages, l);
      if l != k && Indexable(l) && LeafOf(l) in at {
        assert LeafOf(l) != leaf ==> at[LeafOf(l)] != at[leaf];
      }
    }
  }

  /** The stored entry of a page is valid exactly when the page is mapped. */
  lemma {:induction false} StoredEntry(m: seq<Frame>, root: nat, at: map<Node, nat>, pages: map<Key, Page>, k: Key)
    requires Table(m, root, at, pages) && Indexable(k) && LeafOf(k) in at
    ensures at[LeafOf(k)] < |m| && (IsValid(m[at[LeafOf(k)]][k.i2]) <==> k in pages)
  {
    TableOpens(m, root, at, pages);
    assert HoldsAt(m, at, pages, k);
    PageWordReads(pages, k);
  }

  lemma {:induction false} MappedHasLeaf(m: seq<Frame>, root: nat, at: map<Node, nat>, pages: map<Key, Page>, k: Key)
    requires Table(m, root, at, pages) && k in pages
    ensures LeafOf(k) in at && Child(Root, k.i0) in at && Encodable(pages[k]) && Indexable(k)
  {
    TableOpens(m, root, at, pages);
    assert HoldsAt(m, at, pages, k);
    NoOrphan(m, root, at, LeafOf(k));
  }

  // ----- the two walks

  /** The word j of frame p; frames that do not exist read as zero. */
  function WordAt(m: seq<Frame>, p: nat, j: nat): nat
    requires j < 512
  {
    if p < |m| then m[p][j] else 0
  }

  datatype Place = Place(p: nat, j: nat)

  /** find_pte: follow valid entries for two levels, without looking at R, W or X. */
  function FindPte(m: seq<Frame>, root: nat, vpn: nat): Option<Place> {
    var k := KeyOf(vpn);
    var e0 := WordAt(m, root, k.i0);
    if !IsValid(e0) then None
    else
      var e1 := WordAt(m, PpnOf(e0), k.i1);
      if !IsValid(e1) then None else Some(Place(PpnOf(e1), k.i2))
  }

  /** translate: a copy of the entry. */
  function Translate(m: seq<Frame>, root: nat, vpn: nat): Option<nat> {
    match FindPte(m, root, vpn)
    case None => None
    case Some(place) => if place.j < 512 then Some(WordAt(m, place.p, place.j)) else None
  }

  lemma LinkReads(at: map<Node, nat>, c: Node)
    requires c in at ==> at[c] < PPN_LIMIT
    ensures IsValid(Link(at, c)) <==> c in at
    ensures c in at ==> PpnOf(Link(at, c)) == at[c]
  {
    if c in at {
      EntryReadsBack(at[c], 1);
    }
  }

  /** One level of a walk: the entry for child i of node n is valid exactly when the child exists. */
  lemma {:induction false} StepDown(m: seq<Frame>, root: nat, at: map<Node, nat>, n: Node, i: nat)
    requires Tree(m, root, at) && n in at && Depth(n) < 2 && i < 512
    ensures at[n] < |m| && WordAt(m, at[n], i) == Link(at, Child(n, i))
    ensures IsValid(WordAt(m, at[n], i)) <==> Child(n, i) in at
    ensures Child(n, i) in at ==> PpnOf(WordAt(m, at[n], i)) == at[Child(n, i)]
  {
    assert NodeOk(m, at, n);
    if Child(n, i) in at {
      assert NodeOk(m, at, Child(n, i));
    }
    LinkReads(at, Child(n, i));
  }

  lemma {:induction false} FindPteIs(m: seq<Frame>, root: nat, at: map<Node, nat>, vpn: nat)
    requires Tree(m, root, at)
    ensures var k := KeyOf(vpn);
      FindPte(m, root, vpn) == if LeafOf(k) in at then Some(Place(at[LeafOf(k)], k.i2)) else None
  {
    var k := KeyOf(vpn);
    var mid := Child(Root, k.i0);
    StepDown(m, root, at, Root, k.i0);
    if mid in at {
      StepDown(m, root, at, mid, k.i1);
    }
    NoOrphan(m, root, at, LeafOf(k));
  }

  lemma {:induction false} TranslateIs(m: seq<Frame>, root: nat, at: map<Node, nat>, pages: map<Key, Page>, vpn: nat)
    requires Table(m, root, at, pages)
    ensures Translate(m, root, vpn) == if LeafOf(KeyOf(vpn)) in at then Some(PageWord(pages, KeyOf(vpn))) else None
    ensures KeyOf(vpn) in pages ==> LeafOf(KeyOf(vpn)) in at && Encodable(pages[KeyOf(vpn)])
  {
    TableOpens(m, root, at, pages);
    FindPteIs(m, root, at, vpn);
    assert HoldsAt(m, at, pages, KeyOf(vpn));
  }

  lemma {:induction false} PageWordReads(pages: map<Key, Page>, k: Key)
    requires k in pages ==> Encodable(pages[k])
    ensures IsValid(PageWord(pages, k)) <==> k in pages
    ensures k in pages ==> PpnOf(PageWord(pages, k)) == pages[k].ppn && FlagsOf(PageWord(pages, k)) == pages[k].perm + V
  {
    if k in pages {
      EntryReadsBack(pages[k].ppn, pages[k].perm + 1);
    }
  }

  /** Translation is a look-up in the finite map: it yields a valid entry exactly for the mapped pages, with the
      page number and permissions they were mapped with. An unmapped page may still yield Some, of an invalid
      entry, when its leaf table exists. */
  lemma {:induction false} TranslateRefinesMap(m: seq<Frame>, root: nat, at: map<Node, nat>, pages: map<Key, Page>,
                                               vpn: nat)
    requires Table(m, root, at, pages)
    ensures var k := KeyOf(vpn);
      && (k in pages <==> Translate(m, root, vpn).Some? && IsValid(Translate(m, root, vpn).value))
      && (k in pages ==>
           && PpnOf(Translate(m, root, vpn).value) == pages[k].ppn
           && FlagsOf(Translate(m, root, vpn).value) == pages[k].perm + V)
      && (Translate(m, root, vpn).None? <==> LeafOf(k) !in at)
  {
    TranslateIs(m, root, at, pages, vpn);
    PageWordReads(pages, KeyOf(vpn));
  }

  // ----- the hardware walk of sections 4.3.2 and 4.4 of the RISC-V Privileged Architecture 1.11

  /** Section 4.4.1: address bits 63 to 39 equal bit 38. The page number of a 64-bit address has 52 bits. */
  predicate SignExtended(vpn: nat) {
    vpn < 0x400_0000 || 0xF_FFFF_FC00_0000 <= vpn < 0x10_0000_0000_0000
  }

  /** Sign-extended page numbers with the same 27 bits are equal. */
  lemma {:induction false} SignedKeys(v: nat, w: nat)
    requires SignExtended(v) && SignExtended(w) && KeyOf(v) == KeyOf(w)
    ensures v == w
  {
    SameKey(v, w);
    Signed27(v);
    Signed27(w);
  }

  lemma {:induction false} Signed27(v: nat)
    requires SignExtended(v)
    ensures v % VPN_LIMIT == if v < 0x400_0000 then v else v - 0xF_FFFF_F800_0000
  {
    if v >= 0x400_0000 {
      Low27(0x1FF_FFFF, v - 0xF_FFFF_F800_0000);
    }
  }

  /** A page fault, or a leaf entry together with the level it was found at. */
  datatype Walk = PageFault | LeafPte(bits: nat, level: nat)

  /** Steps 2 to 4: the entry of the table in frame a for level `level`, then the level below. A superpage leaf
      (level > 0) is misaligned unless the low fields of its page number are zero (step 6). The entry is read as its
      format in section 4.4.1 says, bit by bit: bit 0 is V, 1 R, 2 W, 3 X, and the page number starts at bit 10. */
  function HardwareWalk(m: seq<Frame>, a: nat, vpn: nat, level: nat): Walk
    requires level <= 2
    decreases level
  {
    var field := if level == 2 then vpn / 0x4_0000 % 512 else if level == 1 then vpn / 512 % 512 else vpn % 512;
    var pte := WordAt(m, a, field);
    var r, w, x := pte / 2 % 2 == 1, pte / 4 % 2 == 1, pte / 8 % 2 == 1;
    var ppn := pte / 1024 % 0x1000_0000_0000;
    if pte % 2 == 0 || (!r && w) then PageFault
    else if r || x then
      if (level == 2 && ppn % 0x4_0000 != 0) || (level == 1 && ppn % 512 != 0) then PageFault else LeafPte(pte, level)
    else if level == 0 then PageFault
    else HardwareWalk(m, ppn, vpn, level - 1)
  }

  /** The whole translation: step 1 starts at the root, for sign-extended addresses only. */
  function HardwareTranslate(m: seq<Frame>, root: nat, vpn: nat): Walk {
    if SignExtended(vpn) then HardwareWalk(m, root, vpn, 2) else PageFault
  }

  /** The permissions the hardware can use: readable (bit 1) or executable (bit 3), and writable (bit 2) only if
      readable. */
  predicate Usable(perm: nat) {
    (perm / 2 % 2 == 1 || perm / 8 % 2 == 1) && (perm / 4 % 2 == 1 ==> perm / 2 % 2 == 1)
  }

  lemma {:induction false} PointerBits(p: nat)
    ensures var e := p * 1024 + 1; e % 2 == 1 && e / 2 % 2 == 0 && e / 4 % 2 == 0 && e / 8 % 2 == 0
  {
    Bit2(p, 1);
    Bit4(p, 1);
    Bit8(p, 1);
    EvenPart(512 * p, 1);
    assert p * 1024 + 1 == 2 * (512 * p) + 1;
  }

  lemma {:induction false} LeafBits(p: nat, perm: nat)
    requires perm % 2 == 0
    ensures var e := p * 1024 + perm + 1;
      && e % 2 == 1 && e / 2 % 2 == perm / 2 % 2 && e / 4 % 2 == perm / 4 % 2
      && e / 8 % 2 == perm / 8 % 2 && e / 16 % 2 == perm / 16 % 2
  {
    var h := perm / 2;
    assert perm == 2 * h;
    OddHalves(h);
    Bit2(p, perm + 1);
    Bit4(p, perm + 1);
    Bit8(p, perm + 1);
    Bit16(p, perm + 1);
    EvenPart(512 * p + h, 1);
    assert p * 1024 + perm + 1 == p * 1024 + (perm + 1) == 2 * (512 * p + h) + 1;
  }

  lemma {:induction false} EvenPart(q: nat, k: nat)
    ensures (2 * q + k) % 2 == k % 2
  {
    assert (2 * q + k) / 2 == q + k / 2;
  }

  // What lies above a flag in an entry does not matter to it.

  lemma {:induction false} Bit2(p: nat, low: nat)
    ensures (p * 1024 + low) / 2 % 2 == low / 2 % 2
  {
    assert (p * 1024 + low) / 2 == 2 * (256 * p) + low / 2;
    EvenPart(256 * p, low / 2);
  }

  lemma {:induction false} Bit4(p: nat, low: nat)
    ensures (p * 1024 + low) / 4 % 2 == low / 4 % 2
  {
    assert (p * 1024 + low) / 4 == 2 * (128 * p) + low / 4;
    EvenPart(128 * p, low / 4);
  }

  lemma {:induction false} Bit8(p: nat, low: nat)
    ensures (p * 1024 + low) / 8 % 2 == low / 8 % 2
  {
    assert (p * 1024 + low) / 8 == 2 * (64 * p) + low / 8;
    EvenPart(64 * p, low / 8);
  }

  lemma {:induction false} Bit16(p: nat, low: nat)
    ensures (p * 1024 + low) / 16 % 2 == low / 16 % 2
  {
    assert (p * 1024 + low) / 16 == 2 * (32 * p) + low / 16;
    EvenPart(32 * p, low / 16);
  }

  /** Adding V to even permissions disturbs no other flag. */
  lemma {:induction false} OddHalves(h: nat)
    ensures (2 * h + 1) / 2 == h && 2 * h / 2 == h
    ensures (2 * h + 1) / 4 == 2 * h / 4 && (2 * h + 1) / 8 == 2 * h / 8 && (2 * h + 1) / 16 == 2 * h / 16
  {
    assert 2 * h / 4 == h / 2 && (2 * h + 1) / 4 == h / 2;
    assert 2 * h / 8 == h / 4 && (2 * h + 1) / 8 == h / 4;
    assert 2 * h / 16 == h / 8 && (2 * h + 1) / 16 == h / 8;
  }

  /** One hardware level through an inner node goes where the tree goes. */
  lemma {:induction false} HardwareStep(m: seq<Frame>, root: nat, at: map<Node, nat>, n: Node, vpn: nat, level: nat)
    requires Tree(m, root, at) && n in at && Depth(n) == 2 - level && 0 < level <= 2
    ensures var c := Child(n, if level == 2 then KeyOf(vpn).i0 else KeyOf(vpn).i1);
      HardwareWalk(m, at[n], vpn, level)
        == if c in at then HardwareWalk(m, at[c], vpn, level - 1) else PageFault
  {
    var i := if level == 2 then KeyOf(vpn).i0 else KeyOf(vpn).i1;
    Fields(vpn);
    StepDown(m, root, at, n, i);
    if Child(n, i) in at {
      PointerBits(at[Child(n, i)]);
    }
  }

  /** The last level of the hardware walk, in the leaf table. */
  lemma {:induction false} HardwareLeaf(m: seq<Frame>, at: map<Node, nat>, pages: map<Key, Page>, vpn: nat)
    requires Holds(m, at, pages) && LeafOf(KeyOf(vpn)) in at
    ensures var k := KeyOf(vpn);
      HardwareWalk(m, at[LeafOf(k)], vpn, 0)
        == if k in pages && Usable(pages[k].perm) then LeafPte(PageWord(pages, k), 0) else PageFault
  {
    var k := KeyOf(vpn);
    assert HoldsAt(m, at, pages, k);
    Fields(vpn);
    if k in pages {
      LeafBits(pages[k].ppn, pages[k].perm);
    }
  }

  /** What the hardware does in every table the kernel can build. It reaches a leaf exactly for the mapped pages with
      a sign-extended number and permissions it can use, and the leaf is a 4 KiB page. In all other cases, among
      them a page mapped writable but not readable, it faults. */
  lemma {:induction false} HardwareSees(m: seq<Frame>, root: nat, at: map<Node, nat>, pages: map<Key, Page>, vpn: nat)
    requires Table(m, root, at, pages)
    ensures var k := KeyOf(vpn);
      && (k in pages ==> Encodable(pages[k]))
      && HardwareTranslate(m, root, vpn)
        == if k in pages && SignExtended(vpn) && Usable(pages[k].perm)
           then LeafPte(pages[k].ppn * 1024 + pages[k].perm + 1, 0) else PageFault
  {
    HardwareWalks(m, root, at, pages, vpn);
    assert HoldsAt(m, at, pages, KeyOf(vpn)) by {
      TableOpens(m, root, at, pages);
    }
  }

  /** Software and hardware agree on a page: both find the same valid entry, or neither finds one. */
  ghost predicate WalksAgree(m: seq<Frame>, root: nat, vpn: nat) {
    match HardwareTranslate(m, root, vpn)
    case LeafPte(bits, level) => level == 0 && Translate(m, root, vpn) == Some(bits) && IsValid(bits)
    case PageFault => Translate(m, root, vpn).None? || !IsValid(Translate(m, root, vpn).value)
  }

  /** find_pte and the hardware walk agree on a page unless it is mapped and its number is not sign-extended or its
      permissions are ones the hardware does not accept; on all those pages they differ. */
  lemma {:induction false} HardwareAgrees(m: seq<Frame>, root: nat, at: map<Node, nat>, pages: map<Key, Page>, vpn: nat)
    requires Table(m, root, at, pages)
    ensures var k := KeyOf(vpn);
      WalksAgree(m, root, vpn) <==> (k in pages ==> SignExtended(vpn) && Usable(pages[k].perm))
  {
    HardwareSees(m, root, at, pages, vpn);
    TranslateIs(m, root, at, pages, vpn);
    PageWordReads(pages, KeyOf(vpn));
  }

  /** A page number 2^27 above a mapped one: the software still answers, the hardware faults. */
  lemma {:induction false} WalksDiffer(m: seq<Frame>, root: nat, at: map<Node, nat>, pages: map<Key, Page>)
    requires Table(m, root, at, pages) && KeyOf(0) in pages
    ensures HardwareTranslate(m, root, 0x800_0000) == PageFault
    ensures Translate(m, root, 0x800_0000).Some? && IsValid(Translate(m, root, 0x800_0000).value)
  {
    OneTurn(0);
    HardwareSees(m, root, at, pages, 0x800_0000);
    TranslateRefinesMap(m, root, at, pages, 0x800_0000);
  }

  lemma {:induction false} HardwareWalks(m: seq<Frame>, root: nat, at: map<Node, nat>, pages: map<Key, Page>, vpn: nat)
    requires Table(m, root, at, pages)
    ensures var k := KeyOf(vpn);
      HardwareWalk(m, root, vpn, 2)
        == if k in pages && Usable(pages[k].perm) then LeafPte(PageWord(pages, k), 0) else PageFault
  {
    TableOpens(m, root, at, pages);
    var k := KeyOf(vpn);
    assert HoldsAt(m, at, pages, k);
    var mid := Child(Root, k.i0);
    HardwareStep(m, root, at, Root, vpn, 2);
    NoOrphan(m, root, at, LeafOf(k));
    if mid in at {
      HardwareStep(m, root, at, mid, vpn, 1);
      if LeafOf(k) in at {
        HardwareLeaf(m, at, pages, vpn);
      }
    }
  }

  // ----- the satp token

  /** 8 << 60 | root: mode 8 (Sv39) above the root's page number. */
  function Token(root: nat): u64
    requires root < PPN_LIMIT
  {
    0x8000_0000_0000_0000 + root
  }

  function FromToken(satp: nat): nat {
    satp % 0x1000_0000_0000
  }

  lemma TokenReadsBack(root: nat)
    requires root < PPN_LIMIT
    ensures FromToken(Token(root)) == root && Token(root) / 0x1000_0000_0000_0000 == 8
    ensures Token(root) == 0x8000_0000_0000_0000 + root
  {
  }
}
