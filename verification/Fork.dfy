/** Copying a user address space: MemorySet::from_existed_user. */
module Forks {
  import opened Basics
  import opened Frames
  import opened PageTree
  import opened PageTables
  import opened Spaces
  import opened MemorySets

  // ----- the child lives on frames that were free

  /** c took all its frames from f0, and memory outside f0 is still m0. Sealed. */
  ghost predicate FromFree(f0: set<nat>, m0: seq<Frame>, c: Space) {
    forall j: nat {:trigger Open(j)} ::
      && |c.m| == |m0| && c.free + Owned(c) == f0 && |c.free| + |c.at| + |c.home| == |f0|
      && (forall p :: 0 <= p < |m0| && p !in f0 ==> c.m[p] == m0[p])
  }

  lemma {:induction false} FromFreeOpens(f0: set<nat>, m0: seq<Frame>, c: Space)
    requires FromFree(f0, m0, c)
    ensures |c.m| == |m0| && c.free + Owned(c) == f0 && |c.free| + |c.at| + |c.home| == |f0|
    ensures forall p :: 0 <= p < |m0| && p !in f0 ==> c.m[p] == m0[p]
  {
    assert Open(0);
  }

  lemma {:induction false} FromFreeOn(f0: set<nat>, m0: seq<Frame>, s: Space, t: Space)
    requires FromFree(f0, m0, s) && Keeps(s, t)
    ensures FromFree(f0, m0, t)
  {
    FromFreeOpens(f0, m0, s);
    KeepsOpens(s, t);
    forall p | 0 <= p < |m0| && p !in f0 ensures t.m[p] == m0[p] {
      assert p !in s.free + Owned(s);
    }
  }

  /** A space whose frames lie outside f0 does not notice what happens inside. */
  lemma {:induction false} Undisturbed(areas: seq<MapArea>, ps: Space, managed: set<nat>, root: nat,
                                       frames: seq<nat>, c: Space)
    requires Placed(areas, ps, managed) && Table(ps.m, root, ps.at, ps.pages) && Kept(frames, ps.at, ps.free, managed)
    requires FromFree(ps.free, ps.m, c)
    ensures Table(c.m, root, ps.at, ps.pages) && Kept(frames, ps.at, c.free, managed)
    ensures Placed(areas, ps.(m := c.m, free := c.free), managed)
    ensures forall k :: k in ps.home ==> SamePage(ps, ps.(m := c.m, free := c.free), k)
  {
    FromFreeOpens(ps.free, ps.m, c);
    KeptOpens(frames, ps.at, ps.free, managed);
    assert c.free <= ps.free;
    forall n | n in ps.at && ps.at[n] < |ps.m| ensures c.m[ps.at[n]] == ps.m[ps.at[n]] {
      assert ps.at[n] in ps.at.Values;
    }
    TableFrame(ps.m, c.m, root, ps.at, ps.pages);
    forall k | k in ps.home ensures SamePage(ps, ps.(m := c.m, free := c.free), k) {
      SlotOf(areas, ps, managed, k);
    }
    PlacedInPart(areas, ps, managed, c.m, c.free);
  }

  lemma {:induction false} PlacedInPart(areas: seq<MapArea>, s: Space, managed: set<nat>, m: seq<Frame>, free: set<nat>)
    requires Placed(areas, s, managed) && |m| == |s.m| && free <= s.free
    ensures Placed(areas, s.(m := m, free := free), managed)
  {
    var t := s.(m := m, free := free);
    PlacedOpens(areas, s, managed);
    forall k | k in t.home ensures SlotOk(areas, t, k) && FrameOk(t, managed, k) {
      assert SlotOk(areas, s, k) && FrameOk(s, managed, k);
    }
    forall a, v | 0 <= a < |areas| && v in areas[a].frames ensures PageOk(areas, t, a, v) {
      assert PageOk(areas, s, a, v);
    }
  }

  // ----- what is copied

  ghost predicate SameContents(ps: Space, c: Space, k: Key) {
    && k in ps.pages && k in c.pages && ps.pages[k].ppn < |ps.m| && c.pages[k].ppn < |c.m|
    && c.m[c.pages[k].ppn] == ps.m[ps.pages[k].ppn]
  }

  /** Page k of the child is a page of the parent: same area, same page number, same permissions, and once it is
      copied (before page v of area i) the same contents. */
  ghost predicate Twin(ps: Space, c: Space, i: nat, v: nat, k: Key)
    requires k in ps.home
  {
    && k in c.home && c.home[k] == ps.home[k] && k in ps.pages && k in c.pages && c.pages[k].perm == ps.pages[k].perm
    && (Before(ps.home[k], i, v) ==> SameContents(ps, c, k))
  }

  /** The child has exactly the pages of the first n areas of the parent; those before page v of area i are copied. */
  ghost predicate Copied(ps: Space, c: Space, n: nat, i: nat, v: nat) {
    forall j: nat {:trigger Open(j)} ::
      && (forall k :: k in c.home ==> k in ps.home && ps.home[k].a < n)
      && (forall k :: k in ps.home && ps.home[k].a < n ==> Twin(ps, c, i, v, k))
  }

  lemma {:induction false} OnlyTwins(ps: Space, c: Space, n: nat, i: nat, v: nat, k: Key)
    requires Copied(ps, c, n, i, v) && k in c.home
    ensures k in ps.home && ps.home[k].a < n
  {
    assert Open(0);
  }

  lemma {:induction false} TwinOf(ps: Space, c: Space, n: nat, i: nat, v: nat, k: Key)
    requires Copied(ps, c, n, i, v) && k in ps.home && ps.home[k].a < n
    ensures Twin(ps, c, i, v, k)
  {
    assert Open(0);
  }

  lemma {:induction false} CopiedNone(ps: Space, c: Space)
    requires c.home == map[]
    ensures Copied(ps, c, 0, 0, 0)
  {
  }

  /** After pushing the copy of area i, the child has its pages too, not copied yet. */
  lemma {:induction false} CopiedPush(ps: Space, c: Space, t: Space, i: nat, keys: set<Key>, perm: nat)
    requires Copied(ps, c, i, i, 0) && Adds(c, t, keys, perm)
    requires forall k :: k in c.home ==> k in c.pages
    requires forall k :: k in keys <==> k in ps.home && ps.home[k].a == i
    requires forall k :: k in keys ==>
      k in t.home && t.home[k] == ps.home[k] && k in ps.pages && ps.pages[k].perm == perm
    ensures Copied(ps, t, i + 1, i, 0)
  {
    forall k | k in t.home ensures k in ps.home && ps.home[k].a < i + 1 {
      AddedKeys(c, t, keys, perm);
      if k in c.home {
        OnlyTwins(ps, c, i, i, 0, k);
      }
    }
    forall k | k in ps.home && ps.home[k].a < i + 1 ensures Twin(ps, t, i, 0, k) {
      if ps.home[k].a < i {
        TwinOf(ps, c, i, i, 0, k);
        OldPage(c, t, keys, perm, k);
      } else {
        AddedPage(c, t, keys, perm, k);
      }
    }
  }

  /** Nothing lies before the first page of an area. */
  lemma {:induction false} CopiedFrom(areas: seq<MapArea>, ps: Space, managed: set<nat>, c: Space, i: nat)
    requires Placed(areas, ps, managed) && i < |areas| && Copied(ps, c, i + 1, i, 0)
    ensures Copied(ps, c, i + 1, i, areas[i].start)
  {
    forall k | k in c.home ensures k in ps.home && ps.home[k].a < i + 1 {
      OnlyTwins(ps, c, i + 1, i, 0, k);
    }
    forall k | k in ps.home && ps.home[k].a < i + 1 ensures Twin(ps, c, i, areas[i].start, k) {
      TwinOf(ps, c, i + 1, i, 0, k);
      SlotOf(areas, ps, managed, k);
      PageOf(areas, ps, managed, ps.home[k].a, ps.home[k].vpn);
    }
  }

  /** Nothing lies behind the last page of an area. */
  lemma {:induction false} CopiedArea(areas: seq<MapArea>, ps: Space, managed: set<nat>, c: Space, i: nat)
    requires Placed(areas, ps, managed) && i < |areas| && Copied(ps, c, i + 1, i, areas[i].end)
    ensures Copied(ps, c, i + 1, i + 1, 0)
  {
    forall k | k in c.home ensures k in ps.home && ps.home[k].a < i + 1 {
      OnlyTwins(ps, c, i + 1, i, areas[i].end, k);
    }
    forall k | k in ps.home && ps.home[k].a < i + 1 ensures Twin(ps, c, i + 1, 0, k) {
      TwinOf(ps, c, i + 1, i, areas[i].end, k);
      SlotOf(areas, ps, managed, k);
      PageOf(areas, ps, managed, ps.home[k].a, ps.home[k].vpn);
    }
  }

  /** Storing the parent's page v of area i into the child's frame copies that page and keeps all others. */
  lemma {:induction false} CopiedPage(areas: seq<MapArea>, ps: Space, managed: set<nat>, mine: seq<MapArea>,
                                      c: Space, i: nat, v: nat)
    requires Placed(areas, ps, managed) && Placed(mine, c, managed) && Copied(ps, c, i + 1, i, v)
    requires KeyOf(v) in ps.home && ps.home[KeyOf(v)] == Slot(i, v)
    ensures KeyOf(v) in c.pages && KeyOf(v) in ps.pages && c.pages[KeyOf(v)].ppn < |c.m|
    ensures ps.pages[KeyOf(v)].ppn < |ps.m|
    ensures Copied(ps, c.(m := c.m[c.pages[KeyOf(v)].ppn := ps.m[ps.pages[KeyOf(v)].ppn]]), i + 1, i, v + 1)
  {
    var k0 := KeyOf(v);
    TwinOf(ps, c, i + 1, i, v, k0);
    SlotOf(areas, ps, managed, k0);
    SlotOf(mine, c, managed, k0);
    var t := c.(m := c.m[c.pages[k0].ppn := ps.m[ps.pages[k0].ppn]]);
    forall k | k in t.home ensures k in ps.home && ps.home[k].a < i + 1 {
      OnlyTwins(ps, c, i + 1, i, v, k);
    }
    forall k | k in ps.home && ps.home[k].a < i + 1 ensures Twin(ps, t, i, v + 1, k) {
      TwinOf(ps, c, i + 1, i, v, k);
      SlotOf(areas, ps, managed, k);
      if k != k0 {
        DifferentFrames(mine, c, managed, k, k0);
      }
    }
  }

  /** A store into one of the space's own data frames disturbs neither its table nor its areas. */
  lemma {:induction false} DataStore(mine: seq<MapArea>, c: Space, managed: set<nat>, root: nat, k: Key, f: Frame)
    requires Placed(mine, c, managed) && Table(c.m, root, c.at, c.pages) && k in c.home
    ensures k in c.pages && c.pages[k].ppn < |c.m|
    ensures var t := c.(m := c.m[c.pages[k].ppn := f]);
      Placed(mine, t, managed) && Table(t.m, root, c.at, c.pages) && Keeps(c, t)
  {
    SlotOf(mine, c, managed, k);
    var p := c.pages[k].ppn;
    var t := c.(m := c.m[p := f]);
    forall n | n in c.at && c.at[n] < |c.m| ensures t.m[c.at[n]] == c.m[c.at[n]] {
      assert c.at[n] in c.at.Values;
    }
    TableFrame(c.m, t.m, root, c.at, c.pages);
    PlacedInPart(mine, c, managed, t.m, c.free);
    assert t == c.(m := t.m, free := c.free);
    assert p in DataFrames(c);
    assert DataFrames(t) == DataFrames(c);
  }

  // ----- the operation

  /** Forked, no frame for a data page (None), or a panic: for want of a table frame, on a key that is mapped
      already, or on a page of the parent that is not mapped. */
  datatype ForkResult = Forked(child: MemorySet) | NoChild | Panic

  lemma {:induction false} FirstFrames(f0: set<nat>, m0: seq<Frame>, p: nat, t: Stage, c: Space)
    requires p in f0 && p < |m0| && c.home == map[] && c.m == t.m && c.free == t.free && c.at == t.at
    requires Extends(Stage(m0[p := ZeroFrame()], f0 - {p}, map[Root := p]), t)
    ensures FromFree(f0, m0, c)
  {
    FirstCount(f0, m0, p, t);
    assert DataFrames(c) == {};
    assert c.free + Owned(c) == f0 by {
      assert Owned(c) == t.at.Values;
    }
    forall q | 0 <= q < |m0| && q !in f0 ensures c.m[q] == m0[q] {
      FirstOutside(f0, m0, p, t, q);
    }
  }

  lemma {:induction false} FirstOutside(f0: set<nat>, m0: seq<Frame>, p: nat, t: Stage, q: nat)
    requires p in f0 && p < |m0| && Extends(Stage(m0[p := ZeroFrame()], f0 - {p}, map[Root := p]), t)
    requires q < |m0| && q !in f0
    ensures t.m[q] == m0[q]
  {
    OneNode(map[Root := p], p);
    Outside(Stage(m0[p := ZeroFrame()], f0 - {p}, map[Root := p]), t, q);
  }

  lemma {:induction false} FirstCount(f0: set<nat>, m0: seq<Frame>, p: nat, t: Stage)
    requires p in f0 && p < |m0| && Extends(Stage(m0[p := ZeroFrame()], f0 - {p}, map[Root := p]), t)
    ensures t.free + t.at.Values == f0 && |t.free| + |t.at| == |f0|
  {
    var s := Stage(m0[p := ZeroFrame()], f0 - {p}, map[Root := p]);
    OneNode(s.at, p);
    assert s.free + s.at.Values == f0 && |s.free| == |f0| - 1;
    ExtendsOpens(s, t);
  }

  lemma {:induction false} OneNode(at: map<Node, nat>, p: nat)
    requires at == map[Root := p]
    ensures at.Values == {p} && |at| == 1
  {
    assert at[Root] == p;
    assert at.Keys == {Root};
  }

  /** new_bare and map_trampoline. None is a panic: there were not even three frames. */
  method NewUser(mem: FrameMemory, trampoline: nat) returns (r: Option<MemorySet>)
    requires mem.Valid() && trampoline < PPN_LIMIT
    modifies mem
    ensures r.None? ==> |old(mem.free)| < 3
    ensures r.Some? ==> fresh(r.value) && fresh(r.value.table) && r.value.Valid(mem) && r.value.areas == []
    ensures r.Some? ==> r.value.home == map[] && r.value.table.pages == map[TrampolineKey() := Page(trampoline, R + X)]
    ensures r.Some? ==> Key(511, 511, 511) in r.value.table.pages
    ensures r.Some? ==> r.value.table.pages[Key(511, 511, 511)] == Page(trampoline, 10)
    ensures r.Some? ==> r.value.table.at.Keys == {Root} + Path(TrampolineKey())
    ensures r.Some? ==> FromFree(old(mem.free), old(mem.ram), r.value.Now(mem))
  {
    var frame := mem.Alloc();
    if frame.None? {
      return None;
    }
    var table := new PageTable(frame.value, mem);
    TrampolineIsOnTop();
    ghost var s := table.Now(mem);
    var ok := table.Map(TRAMPOLINE_VPN, trampoline, R + X, mem);
    if !ok {
      return None;
    }
    var ms := new MemorySet(table, mem);
    FirstFrames(old(mem.free), old(mem.ram), frame.value, table.Now(mem), ms.Now(mem));
    r := Some(ms);
  }

  /** Every page of the first n sections is mapped to itself. Sealed. */
  ghost predicate Identity(pages: map<Key, Page>, sections: seq<MapArea>, n: nat) {
    forall j: nat {:trigger Open(j)} ::
      n <= |sections| && forall a, v :: 0 <= a < n && sections[a].start <= v < sections[a].end ==>
        KeyOf(v) in pages && pages[KeyOf(v)] == Page(v, sections[a].perm)
  }

  lemma {:induction false} IdentityNext(s: Space, t: Space, sections: seq<MapArea>, n: nat)
    requires Identity(s.pages, sections, n) && n < |sections|
    requires Lays(s, t, sections[n].start, sections[n].end, sections[n].perm)
    ensures Identity(t.pages, sections, n + 1)
  {
    forall a, v | 0 <= a < n + 1 && sections[a].start <= v < sections[a].end
      ensures KeyOf(v) in t.pages && t.pages[KeyOf(v)] == Page(v, sections[a].perm)
    {
      if a == n {
        LaidPage(s, t, sections[n].start, sections[n].end, sections[n].perm, v);
      } else {
        assert KeyOf(v) in s.pages && s.pages[KeyOf(v)] == Page(v, sections[a].perm) by {
          assert Open(0);
        }
        BesideLaid(s, t, sections[n].start, sections[n].end, sections[n].perm, KeyOf(v));
      }
    }
  }

  /** new_kernel: the trampoline, and every section mapped to itself. None is a panic: two sections overlap, or there
      are too few frames for the table. */
  method NewKernel(mem: FrameMemory, trampoline: nat, sections: seq<MapArea>) returns (r: Option<MemorySet>)
    requires mem.Valid() && trampoline < PPN_LIMIT
    requires forall a :: 0 <= a < |sections| ==>
      AreaOk(sections[a]) && sections[a].frames == map[] && sections[a].end <= PPN_LIMIT
    modifies mem
    ensures r.Some? ==> fresh(r.value) && fresh(r.value.table) && r.value.Valid(mem) && r.value.areas == sections
    ensures r.Some? ==> TrampolineKey() in r.value.table.pages
    ensures r.Some? ==> r.value.table.pages[TrampolineKey()] == Page(trampoline, R + X)
    ensures r.Some? ==> r.value.home == map[] && Identity(r.value.table.pages, sections, |sections|)
    ensures r.Some? ==> FromFree(old(mem.free), old(mem.ram), r.value.Now(mem))
  {
    ghost var f0, m0 := mem.free, mem.ram;
    r := NewUser(mem, trampoline);
    if r.None? {
      return;
    }
    var ms := r.value;
    var n := 0;
    while n < |sections|
      invariant n <= |sections| && ms.Valid(mem) && ms.areas == sections[..n] && ms.home == map[]
      invariant TrampolineKey() in ms.table.pages && ms.table.pages[TrampolineKey()] == Page(trampoline, R + X)
      invariant FromFree(f0, m0, ms.Now(mem)) && Identity(ms.table.pages, sections, n)
    {
      ghost var s := ms.Now(mem);
      var ok := ms.PushIdentical(sections[n], mem, s, {});
      if !ok {
        return None;
      }
      SectionLaid(f0, m0, s, ms.Now(mem), sections, n);
      n := n + 1;
    }
    assert sections[..n] == sections;
  }

  lemma {:induction false} SectionLaid(f0: set<nat>, m0: seq<Frame>, s: Space, t: Space, sections: seq<MapArea>, n: nat)
    requires n < |sections| && Lays(s, t, sections[n].start, sections[n].end, sections[n].perm)
    requires FromFree(f0, m0, s) && Identity(s.pages, sections, n) && TrampolineKey() in s.pages
    ensures FromFree(f0, m0, t) && Identity(t.pages, sections, n + 1) && t.home == s.home
    ensures TrampolineKey() in t.pages && t.pages[TrampolineKey()] == s.pages[TrampolineKey()]
    ensures sections[..n] + [sections[n]] == sections[..n + 1]
  {
    LaidKeys(s, t, sections[n].start, sections[n].end, sections[n].perm);
    FromFreeOn(f0, m0, s, t);
    IdentityNext(s, t, sections, n);
    BesideLaid(s, t, sections[n].start, sections[n].end, sections[n].perm, TrampolineKey());
  }

  /** What is known of the parent when the copy starts; it stays true because only free frames are written. */
  ghost predicate Origin(parent: MemorySet, ps: Space, managed: set<nat>)
    reads parent, parent.table
  {
    && parent.table.at == ps.at && parent.table.pages == ps.pages && parent.home == ps.home
    && forall j: nat {:trigger Open(j)} ::
      && Placed(parent.areas, ps, managed) && Table(ps.m, parent.table.root, ps.at, ps.pages)
      && Kept(parent.table.frames, ps.at, ps.free, managed)
  }

  lemma OriginOpens(parent: MemorySet, ps: Space, managed: set<nat>)
    requires Origin(parent, ps, managed)
    ensures Placed(parent.areas, ps, managed) && Table(ps.m, parent.table.root, ps.at, ps.pages)
    ensures Kept(parent.table.frames, ps.at, ps.free, managed)
  {
    assert Open(0);
  }

  /** The parent is sound in the memory the child has changed, and none of its pages moved or changed. */
  lemma ParentStays(parent: MemorySet, ps: Space, mem: FrameMemory, c: Space)
    requires Origin(parent, ps, mem.Managed()) && FromFree(ps.free, ps.m, c) && mem.Valid() && mem.ram == c.m
    requires mem.free == c.free
    ensures parent.Valid(mem) && parent.table.Valid(mem)
    ensures forall k :: k in ps.home ==> SamePage(ps, parent.Now(mem), k)
  {
    OriginOpens(parent, ps, mem.Managed());
    Undisturbed(parent.areas, ps, mem.Managed(), parent.table.root, parent.table.frames, c);
    assert parent.Now(mem) == ps.(m := c.m, free := c.free);
  }

  // ----- what a child needs

  /** The nodes on the way to some pages. */
  ghost function NodesOf(keys: set<Key>): set<Node> {
    {Root} + (set k | k in keys :: Child(Root, k.i0)) + (set k | k in keys :: LeafOf(k))
  }

  /** The nodes of a table that maps the pages of s and nothing else. */
  ghost function Needed(s: Space): set<Node> {
    NodesOf(s.home.Keys + {TrampolineKey()})
  }

  lemma {:induction false} PathNeeded(s: Space, k: Key)
    requires k in s.home || k == TrampolineKey()
    ensures Path(k) <= Needed(s) && Root in Needed(s)
  {
    assert k in s.home.Keys + {TrampolineKey()};
  }

  lemma {:induction false} NeededAtLeast(s: Space)
    ensures {Root} + Path(TrampolineKey()) <= Needed(s) && |Needed(s)| >= 3
  {
    PathNeeded(s, TrampolineKey());
    var three := {Root} + Path(TrampolineKey());
    assert three == {Root, Child(Root, 511), LeafOf(TrampolineKey())};
    SubsetCount(three, Needed(s));
  }

  /** No table that maps these pages has fewer nodes. */
  lemma {:induction false} NeededIsThere(m: seq<Frame>, root: nat, s: Space)
    requires Table(m, root, s.at, s.pages) && s.home.Keys <= s.pages.Keys && TrampolineKey() in s.pages
    ensures Needed(s) <= s.at.Keys && |Needed(s)| <= |s.at|
  {
    assert Root in s.at by {
      TableOpens(m, root, s.at, s.pages);
    }
    forall k | k in s.home.Keys + {TrampolineKey()} ensures Child(Root, k.i0) in s.at && LeafOf(k) in s.at {
      MappedHasLeaf(m, root, s.at, s.pages, k);
    }
    SubsetCount(Needed(s), s.at.Keys);
    assert |s.at| == |s.at.Keys|;
  }

  // ----- the child while it grows

  /** The child is sound and lives on frames that were free. Sealed. */
  ghost predicate Growing(child: MemorySet, mem: FrameMemory, ps: Space)
    reads child, child.table, mem
  {
    forall j: nat {:trigger Open(j)} :: child.Valid(mem) && FromFree(ps.free, ps.m, child.Now(mem))
  }

  lemma GrowingOpens(child: MemorySet, mem: FrameMemory, ps: Space)
    requires Growing(child, mem, ps)
    ensures child.Valid(mem) && FromFree(ps.free, ps.m, child.Now(mem))
  {
    assert Open(0);
  }

  /** All user spaces map the trampoline alike. */
  ghost predicate SameTrampoline(ps: Space, c: Space) {
    && TrampolineKey() in ps.pages && TrampolineKey() in c.pages
    && c.pages[TrampolineKey()] == ps.pages[TrampolineKey()]
  }

  /** The growing child c is a copy of the parent so far, on no more nodes than it needs. Sealed. */
  ghost predicate Building(c: Space, ps: Space, n: nat, i: nat, v: nat) {
    forall j: nat {:trigger Open(j)} ::
      Copied(ps, c, n, i, v) && OnlyAreas(c) && c.at.Keys <= Needed(ps) && SameTrampoline(ps, c)
  }

  lemma {:induction false} BuildingOpens(c: Space, ps: Space, n: nat, i: nat, v: nat)
    requires Building(c, ps, n, i, v)
    ensures Copied(ps, c, n, i, v) && OnlyAreas(c) && c.at.Keys <= Needed(ps) && SameTrampoline(ps, c)
  {
    assert Open(0);
  }

  // ----- copying pages

  /** A page of the child that the parent maps too is on a data frame of the parent. */
  lemma {:induction false} SourceFrame(areas: seq<MapArea>, ps: Space, managed: set<nat>, mine: seq<MapArea>,
                                       c: Space, k: Key)
    requires Placed(areas, ps, managed) && OnlyAreas(ps) && Placed(mine, c, managed) && k in c.home && k in ps.pages
    ensures k in ps.home && ps.pages[k].ppn < |ps.m| && k in c.pages && c.pages[k].ppn < |c.m|
  {
    Spaces.Mapped(mine, c, managed, TrampolineKey());
    SlotOf(areas, ps, managed, k);
    SlotOf(mine, c, managed, k);
  }

  /** The child after the copy of one page. */
  ghost function WithCopy(ps: Space, c: Space, k: Key): Space
    requires k in ps.pages && k in c.pages && ps.pages[k].ppn < |ps.m| && c.pages[k].ppn < |c.m|
  {
    c.(m := c.m[c.pages[k].ppn := ps.m[ps.pages[k].ppn]])
  }

  lemma {:induction false} BuildingPage(areas: seq<MapArea>, ps: Space, managed: set<nat>, mine: seq<MapArea>,
                                        c: Space, i: nat, v: nat)
    requires Placed(areas, ps, managed) && Placed(mine, c, managed) && Building(c, ps, i + 1, i, v)
    requires i < |areas| && v in areas[i].frames && KeyOf(v) in ps.pages && KeyOf(v) in c.pages
    requires ps.pages[KeyOf(v)].ppn < |ps.m| && c.pages[KeyOf(v)].ppn < |c.m|
    ensures Building(WithCopy(ps, c, KeyOf(v)), ps, i + 1, i, v + 1)
  {
    BuildingOpens(c, ps, i + 1, i, v);
    PageOf(areas, ps, managed, i, v);
    CopiedPage(areas, ps, managed, mine, c, i, v);
  }

  /** One round of the copy loop; false when the parent's page is not mapped. Then translate yields None, on which
      unwrap panics, or the empty entry, whose frame 0 the kernel does not map. In a child that is a copy so far
      (`good`), it stays one. */
  method CopyPage(parent: MemorySet, child: MemorySet, vpn: nat, mem: FrameMemory, ghost ps: Space, ghost i: nat,
                  ghost good: bool) returns (ok: bool)
    requires Origin(parent, ps, mem.Managed()) && OnlyAreas(ps) && Growing(child, mem, ps) && KeyOf(vpn) in child.home
    requires good ==> i < |parent.areas| && vpn in parent.areas[i].frames
    requires good ==> Building(child.Now(mem), ps, i + 1, i, vpn)
    modifies mem`ram
    ensures ok <==> KeyOf(vpn) in ps.pages
    ensures ok ==> Growing(child, mem, ps)
    ensures ok && good ==> Building(child.Now(mem), ps, i + 1, i, vpn + 1)
  {
    BothSound(parent, child, mem, ps, KeyOf(vpn));
    var from := parent.table.TranslatePage(vpn, mem);
    if from.None? || !IsValid(from.value) {
      return false;
    }
    var to := child.table.TranslatePage(vpn, mem);
    var src, dst := PpnOf(from.value), PpnOf(to.value);
    if good {
      StillBuilding(parent, child, mem, ps, i, vpn);
    }
    StoreCopy(child, dst, mem.ram[src], mem, ps, KeyOf(vpn));
    ok := true;
  }

  lemma BothSound(parent: MemorySet, child: MemorySet, mem: FrameMemory, ps: Space, k: Key)
    requires Origin(parent, ps, mem.Managed()) && OnlyAreas(ps) && Growing(child, mem, ps) && k in child.home
    ensures parent.table.Valid(mem) && child.table.Valid(mem) && k in child.table.pages
    ensures child.table.pages[k].ppn < |mem.ram|
    ensures k in ps.pages ==> ps.pages[k].ppn < |ps.m| == |mem.ram| && mem.ram[ps.pages[k].ppn] == ps.m[ps.pages[k].ppn]
  {
    var c := child.Now(mem);
    GrowingOpens(child, mem, ps);
    OriginOpens(parent, ps, mem.Managed());
    child.FitsOpens(child.areas, mem);
    ParentStays(parent, ps, mem, c);
    SlotOf(child.areas, c, mem.Managed(), k);
    if k in ps.pages {
      SourceFrame(parent.areas, ps, mem.Managed(), child.areas, c, k);
      assert SamePage(ps, parent.Now(mem), k);
    }
  }

  lemma StillBuilding(parent: MemorySet, child: MemorySet, mem: FrameMemory, ps: Space, i: nat, vpn: nat)
    requires Origin(parent, ps, mem.Managed()) && Growing(child, mem, ps)
    requires i < |parent.areas| && vpn in parent.areas[i].frames && Building(child.Now(mem), ps, i + 1, i, vpn)
    requires KeyOf(vpn) in ps.pages && KeyOf(vpn) in child.table.pages
    requires ps.pages[KeyOf(vpn)].ppn < |ps.m| && child.table.pages[KeyOf(vpn)].ppn < |mem.ram|
    ensures Building(WithCopy(ps, child.Now(mem), KeyOf(vpn)), ps, i + 1, i, vpn + 1)
  {
    GrowingOpens(child, mem, ps);
    OriginOpens(parent, ps, mem.Managed());
    child.FitsOpens(child.areas, mem);
    BuildingPage(parent.areas, ps, mem.Managed(), child.areas, child.Now(mem), i, vpn);
  }

  /** The store into the child's page. */
  method StoreCopy(child: MemorySet, dst: nat, f: Frame, mem: FrameMemory, ghost ps: Space, ghost k: Key)
    requires Growing(child, mem, ps) && k in child.home && k in child.table.pages
    requires dst == child.table.pages[k].ppn < |mem.ram|
    modifies mem`ram
    ensures Growing(child, mem, ps) && mem.ram == old(mem.ram)[dst := f]
  {
    ghost var c := child.Now(mem);
    GrowingOpens(child, mem, ps);
    child.FitsOpens(child.areas, mem);
    DataStore(child.areas, c, mem.Managed(), child.table.root, k, f);
    mem.Store(dst, f);
    FromFreeOn(ps.free, ps.m, c, child.Now(mem));
  }

  /** Every page of lo..hi is mapped in the parent. Sealed. */
  ghost predicate AllIn(pages: map<Key, Page>, lo: nat, hi: nat) {
    forall j: nat {:trigger Open(j)} :: forall v :: lo <= v < hi ==> KeyOf(v) in pages
  }

  lemma {:induction false} AllInAt(pages: map<Key, Page>, lo: nat, hi: nat, v: nat)
    requires AllIn(pages, lo, hi) && lo <= v < hi
    ensures KeyOf(v) in pages
  {
    assert Open(0);
  }

  lemma {:induction false} AllInNext(pages: map<Key, Page>, lo: nat, v: nat)
    requires AllIn(pages, lo, v) && lo <= v && KeyOf(v) in pages
    ensures AllIn(pages, lo, v + 1)
  {
    forall w | lo <= w < v + 1 ensures KeyOf(w) in pages {
      if w < v {
        AllInAt(pages, lo, v, w);
      }
    }
  }

  /** The copy loop over the pages of area i. */
  method CopyArea(parent: MemorySet, child: MemorySet, mem: FrameMemory, ghost ps: Space, i: nat, ghost good: bool)
    returns (ok: bool)
    requires Origin(parent, ps, mem.Managed()) && OnlyAreas(ps) && i < |parent.areas| && AreaOk(parent.areas[i])
    requires Growing(child, mem, ps) && KeysFrom(parent.areas[i].start, parent.areas[i].end) <= child.home.Keys
    requires good ==> Full(parent.areas[i]) && Building(child.Now(mem), ps, i + 1, i, parent.areas[i].start)
    modifies mem`ram
    ensures ok ==> Growing(child, mem, ps) && AllIn(ps.pages, parent.areas[i].start, parent.areas[i].end)
    ensures good ==> ok && Building(child.Now(mem), ps, i + 1, i, parent.areas[i].end)
  {
    var lo, hi := parent.areas[i].start, parent.areas[i].end;
    var vpn := lo;
    while vpn < hi
      invariant lo <= vpn <= hi && Growing(child, mem, ps) && AllIn(ps.pages, lo, vpn)
      invariant good ==> Building(child.Now(mem), ps, i + 1, i, vpn)
    {
      InKeysFrom(lo, hi, vpn);
      ok := CopyPage(parent, child, vpn, mem, ps, i, good);
      if !ok {
        FullIsMapped(parent, ps, mem.Managed(), i, vpn);
        return;
      }
      AllInNext(ps.pages, lo, vpn);
      vpn := vpn + 1;
    }
    ok := true;
  }

  lemma FullIsMapped(parent: MemorySet, ps: Space, managed: set<nat>, i: nat, vpn: nat)
    requires Origin(parent, ps, managed) && i < |parent.areas| && parent.areas[i].start <= vpn < parent.areas[i].end
    ensures Full(parent.areas[i]) ==> KeyOf(vpn) in ps.pages
  {
    OriginOpens(parent, ps, managed);
    if Full(parent.areas[i]) {
      PageOf(parent.areas, ps, managed, i, vpn);
      SlotOf(parent.areas, ps, managed, KeyOf(vpn));
    }
  }

  // ----- one area of the parent

  /** The keys of a full area are the keys its pages have in the parent. */
  lemma {:induction false} AreaKeys(areas: seq<MapArea>, ps: Space, managed: set<nat>, i: nat, k: Key)
    requires Placed(areas, ps, managed) && i < |areas| && Full(areas[i])
    ensures k in KeysFrom(areas[i].start, areas[i].end) <==> k in ps.home && ps.home[k].a == i
    ensures k in KeysFrom(areas[i].start, areas[i].end) ==>
      k in ps.pages && ps.pages[k].perm == areas[i].perm && KeyOf(ps.home[k].vpn) == k
  {
    if k in KeysFrom(areas[i].start, areas[i].end) {
      var v := FromKey(areas[i].start, areas[i].end, k);
      PageOf(areas, ps, managed, i, v);
      SlotOf(areas, ps, managed, k);
    }
    if k in ps.home && ps.home[k].a == i {
      SlotOf(areas, ps, managed, k);
      PageOf(areas, ps, managed, i, ps.home[k].vpn);
      InKeysFrom(areas[i].start, areas[i].end, ps.home[k].vpn);
    }
  }

  /** The range of a full area i is free in the child that has the earlier areas only. */
  lemma {:induction false} CopyIsClear(areas: seq<MapArea>, ps: Space, managed: set<nat>, c: Space, i: nat)
    requires Placed(areas, ps, managed) && i < |areas| && Full(areas[i]) && Copied(ps, c, i, i, 0) && OnlyAreas(c)
    ensures Clear(c.pages, areas[i].start, areas[i].end)
  {
    forall v | areas[i].start <= v < areas[i].end ensures KeyOf(v) !in c.pages {
      var k := KeyOf(v);
      PageOf(areas, ps, managed, i, v);
      Spaces.Mapped(areas, ps, managed, k);
      if k in c.home {
        OnlyTwins(ps, c, i, i, 0, k);
      }
    }
  }

  lemma {:induction false} PathsThere(areas: seq<MapArea>, ps: Space, managed: set<nat>, i: nat)
    requires Placed(areas, ps, managed) && i < |areas| && Full(areas[i])
    ensures Covers(Needed(ps), areas[i].start, areas[i].end)
  {
    forall v | areas[i].start <= v < areas[i].end ensures Path(KeyOf(v)) <= Needed(ps) {
      PageOf(areas, ps, managed, i, v);
      PathNeeded(ps, KeyOf(v));
    }
  }

  lemma {:induction false} AllKeysCount(lo: nat, hi: nat)
    requires lo <= hi <= lo + VPN_LIMIT
    ensures |KeysFrom(lo, hi)| == hi - lo
  {
    if lo < hi {
      AllKeysCount(lo, hi - 1);
      KeyIsNew(lo, hi - 1);
    }
  }

  /** The pages of the child so far and those of area i are different pages of the parent. */
  lemma {:induction false} PagesLeft(areas: seq<MapArea>, ps: Space, managed: set<nat>, c: Space, i: nat)
    requires Placed(areas, ps, managed) && i < |areas| && Full(areas[i]) && Copied(ps, c, i, i, 0)
    ensures |c.home| + (areas[i].end - areas[i].start) <= |ps.home|
  {
    var keys := KeysFrom(areas[i].start, areas[i].end);
    AreaOf(areas, ps, managed, i);
    AllKeysCount(areas[i].start, areas[i].end);
    forall k | k in c.home ensures k in ps.home && k !in keys {
      OnlyTwins(ps, c, i, i, 0, k);
      AreaKeys(areas, ps, managed, i, k);
    }
    forall k | k in keys ensures k in ps.home {
      AreaKeys(areas, ps, managed, i, k);
    }
    TwoParts(c.home.Keys, keys, ps.home.Keys);
  }

  lemma {:induction false} TwoParts(a: set<Key>, b: set<Key>, all: set<Key>)
    requires a <= all && b <= all && a !! b
    ensures |a| + |b| <= |all|
  {
    SubsetCount(a + b, all);
  }

  /** Copying a full area stops short only when fewer frames are free than the child needs. */
  lemma {:induction false} CopyIsShort(areas: seq<MapArea>, ps: Space, managed: set<nat>, c: Space, i: nat,
                                       area: MapArea)
    requires Placed(areas, ps, managed) && i < |areas| && Full(areas[i]) && c.at.Keys <= Needed(ps)
    requires area == MapArea(areas[i].start, areas[i].end, map[], areas[i].perm)
    requires FromFree(ps.free, ps.m, c) && Copied(ps, c, i, i, 0)
    ensures Roomy(c, area, Needed(ps))
    ensures Short(c, area, Needed(ps)) ==> |ps.free| < |Needed(ps)| + |ps.home|
  {
    PathsThere(areas, ps, managed, i);
    PagesLeft(areas, ps, managed, c, i);
    assert |c.free| + |c.at| + |c.home| == |ps.free| by {
      FromFreeOpens(ps.free, ps.m, c);
    }
    assert Roomy(c, area, Needed(ps));
    if Short(c, area, Needed(ps)) {
      assert Open(0);
    }
  }

  /** The pushed pages stand where they stand in the parent. */
  lemma {:induction false} PushedTwins(areas: seq<MapArea>, ps: Space, managed: set<nat>, mine: seq<MapArea>,
                                       c: Space, t: Space, i: nat)
    requires Placed(areas, ps, managed) && i < |areas| && Full(areas[i]) && Copied(ps, c, i, i, 0)
    requires Placed(mine, t, managed) && |mine| == i + 1 && mine[i].start == areas[i].start
    requires mine[i].end == areas[i].end
    requires Full(mine[i]) && Adds(c, t, KeysFrom(areas[i].start, areas[i].end), areas[i].perm)
    requires forall k :: k in c.home ==> k in c.pages
    ensures Copied(ps, t, i + 1, i, areas[i].start)
  {
    var keys := KeysFrom(areas[i].start, areas[i].end);
    forall k ensures k in keys <==> k in ps.home && ps.home[k].a == i {
      AreaKeys(areas, ps, managed, i, k);
    }
    forall k | k in keys
      ensures k in t.home && t.home[k] == ps.home[k] && k in ps.pages && ps.pages[k].perm == areas[i].perm
    {
      AreaKeys(areas, ps, managed, i, k);
      var v := ps.home[k].vpn;
      SlotOf(areas, ps, managed, k);
      PageOf(areas, ps, managed, i, v);
      PageOf(mine, t, managed, i, v);
    }
    CopiedPush(ps, c, t, i, keys, areas[i].perm);
    CopiedFrom(areas, ps, managed, t, i);
  }

  ghost predicate SameRange(a: MapArea, b: MapArea) {
    a.start == b.start && a.end == b.end && a.perm == b.perm
  }

  /** The first n areas have the ranges and permissions of the parent's. Sealed. */
  ghost predicate SameRanges(mine: seq<MapArea>, areas: seq<MapArea>, n: nat) {
    forall j: nat {:trigger Open(j)} ::
      |mine| == n <= |areas| && forall a :: 0 <= a < n ==> SameRange(mine[a], areas[a])
  }

  lemma {:induction false} RangesNext(mine: seq<MapArea>, more: seq<MapArea>, areas: seq<MapArea>, n: nat)
    requires SameRanges(mine, areas, n) && n < |areas| && |more| == n + 1 && more[..n] == mine
    requires SameRange(more[n], areas[n])
    ensures SameRanges(more, areas, n + 1)
  {
    assert Open(0);
    assert forall a :: 0 <= a < n ==> more[a] == more[..n][a];
  }

  /** from_another: the range and permissions of an area, without its pages. */
  function FromAnother(area: MapArea): MapArea {
    MapArea(area.start, area.end, map[], area.perm)
  }

  /** The push half of one round: a new area with the range and permissions of the parent's. */
  method PushCopy(parent: MemorySet, child: MemorySet, mem: FrameMemory, ghost ps: Space, i: nat) returns (r: MapResult)
    requires Origin(parent, ps, mem.Managed()) && i < |parent.areas| && Growing(child, mem, ps)
    requires child != parent && child.table != parent.table
    modifies child, child.table, mem
    ensures r != Panicked ==> Growing(child, mem, ps)
    ensures r == MemorySets.Mapped ==>
      |child.areas| == |old(child.areas)| + 1 && child.areas[..|old(child.areas)|] == old(child.areas)
    ensures var c, area := old(child.Now(mem)), FromAnother(parent.areas[i]);
      if r == MemorySets.Mapped then
        && Reached(c, child.Now(mem), area, child.areas[|old(child.areas)|], area.end, Needed(ps))
        && Clear(c.pages, area.start, area.end)
      else Short(c, area, Needed(ps)) || !Clear(c.pages, area.start, area.end)
  {
    ghost var c := child.Now(mem);
    GrowingOpens(child, mem, ps);
    var area := FromAnother(parent.areas[i]);
    assert AreaOk(area) by {
      OriginOpens(parent, ps, mem.Managed());
      AreaOf(parent.areas, ps, mem.Managed(), i);
    }
    r := child.Push(area, mem, c, Needed(ps));
    if r != Panicked {
      PushKeeps(r, c, child.Now(mem), area, child.areas[|child.areas| - 1], Needed(ps));
      FromFreeOn(ps.free, ps.m, c, child.Now(mem));
    }
  }

  lemma {:induction false} PushKeeps(r: MapResult, s: Space, t: Space, area: MapArea, after: MapArea, room: set<Node>)
    requires r == MemorySets.Mapped ==> Reached(s, t, area, after, area.end, room)
    requires r == NoMemory ==> Partly(s, t, area, after)
    ensures r != Panicked ==> Keeps(s, t)
  {
    if r == MemorySets.Mapped {
      ReachedOpens(s, t, area, after, area.end, room);
      AddsKeeps(s, t, KeysFrom(area.start, area.end), area.perm);
    } else if r == NoMemory {
      PartlyKeeps(s, t, area, after);
    }
  }

  lemma {:induction false} PartlyKeeps(s: Space, t: Space, area: MapArea, after: MapArea)
    requires Partly(s, t, area, after)
    ensures Keeps(s, t)
  {
    assert exists upto: nat :: Adds(s, t, KeysFrom(area.start, upto), area.perm) by {
      assert Open(0);
    }
    var upto: nat :| Adds(s, t, KeysFrom(area.start, upto), area.perm);
    AddsKeeps(s, t, KeysFrom(area.start, upto), area.perm);
  }

  /** A full area of the parent was pushed: the child has its pages too, not copied yet. */
  lemma {:induction false} PushIsTwin(areas: seq<MapArea>, ps: Space, managed: set<nat>, mine: seq<MapArea>,
                                      c: Space, t: Space, i: nat)
    requires Placed(areas, ps, managed) && i < |areas| && Full(areas[i]) && Building(c, ps, i, i, 0)
    requires Placed(mine, t, managed) && |mine| == i + 1 && c.home.Keys <= c.pages.Keys
    requires Reached(c, t, FromAnother(areas[i]), mine[i], areas[i].end, Needed(ps))
    ensures Building(t, ps, i + 1, i, areas[i].start)
  {
    var area := FromAnother(areas[i]);
    BuildingOpens(c, ps, i, i, 0);
    PathsThere(areas, ps, managed, i);
    assert Roomy(c, area, Needed(ps));
    ReachedOpens(c, t, area, mine[i], area.end, Needed(ps));
    AddsOnlyAreas(c, t, KeysFrom(area.start, area.end), area.perm);
    OldPage(c, t, KeysFrom(area.start, area.end), area.perm, TrampolineKey());
    PushedTwins(areas, ps, managed, mine, c, t, i);
  }

  // ----- an area that is not fully mapped

  /** The child has a page that an area of the parent, number i or later, maps as well: pushing that area will fail.
      Sealed. */
  ghost predicate Doomed(pages: map<Key, Page>, ps: Space, i: nat) {
    forall j: nat {:trigger Open(j)} :: exists k :: k in pages && k in ps.home && ps.home[k].a >= i
  }

  lemma {:induction false} DoomedKey(pages: map<Key, Page>, ps: Space, i: nat) returns (k: Key)
    requires Doomed(pages, ps, i)
    ensures k in pages && k in ps.home && ps.home[k].a >= i
  {
    assert exists k :: k in pages && k in ps.home && ps.home[k].a >= i by {
      assert Open(0);
    }
    k :| k in pages && k in ps.home && ps.home[k].a >= i;
  }

  /** Pushing area i without a clash leaves the clash to a later area. */
  lemma {:induction false} StillDoomed(areas: seq<MapArea>, ps: Space, managed: set<nat>, c: Space, t: Space, i: nat)
    requires Placed(areas, ps, managed) && i < |areas| && Doomed(c.pages, ps, i) && c.pages.Keys <= t.pages.Keys
    requires Clear(c.pages, areas[i].start, areas[i].end)
    ensures Doomed(t.pages, ps, i + 1)
  {
    var k := DoomedKey(c.pages, ps, i);
    SlotOf(areas, ps, managed, k);
    if ps.home[k].a == i {
      PageOf(areas, ps, managed, i, ps.home[k].vpn);
      ClearAt(c.pages, areas[i].start, areas[i].end, ps.home[k].vpn);
    }
    assert k in t.pages && k in ps.home && ps.home[k].a >= i + 1;
  }

  /** Behind the last area there is none left to clash with. */
  lemma {:induction false} NotDoomed(areas: seq<MapArea>, ps: Space, managed: set<nat>, pages: map<Key, Page>)
    requires Placed(areas, ps, managed)
    ensures !Doomed(pages, ps, |areas|)
  {
    if Doomed(pages, ps, |areas|) {
      var k := DoomedKey(pages, ps, |areas|);
      SlotOf(areas, ps, managed, k);
    }
  }

  /** Area i has lost page v, but all pages of its range could be copied. Then a later area maps that page again. */
  lemma {:induction false} BecomesDoomed(areas: seq<MapArea>, ps: Space, managed: set<nat>, c: Space, t: Space,
                                         i: nat, v: nat)
    requires Placed(areas, ps, managed) && OnlyAreas(ps) && i < |areas| && Copied(ps, c, i, i, 0)
    requires SameTrampoline(ps, c)
    requires areas[i].start <= v < areas[i].end && v !in areas[i].frames
    requires KeyOf(v) in ps.pages && KeyOf(v) !in c.pages && KeyOf(v) in t.pages
    ensures Doomed(t.pages, ps, i + 1)
  {
    var k := KeyOf(v);
    SlotOf(areas, ps, managed, k);
    var w := ps.home[k].vpn;
    if ps.home[k].a < i {
      TwinOf(ps, c, i, i, 0, k);
    } else if ps.home[k].a == i {
      PageOf(areas, ps, managed, i, w);
      AreaOf(areas, ps, managed, i);
      OneAreaOneKey(areas[i], v, w);
    }
    assert k in t.pages && k in ps.home && ps.home[k].a >= i + 1;
  }

  lemma {:induction false} OneAreaOneKey(area: MapArea, v: nat, w: nat)
    requires AreaOk(area) && area.start <= v < area.end && area.start <= w < area.end && KeyOf(v) == KeyOf(w)
    ensures v == w
  {
    if v < w {
      NearKeys(v, w);
    } else if w < v {
      NearKeys(w, v);
    }
  }

  // ----- the loop over the areas

  /** The state of the loop before area i: the child is a copy of i full areas, or pushing a later area will fail. */
  ghost predicate Underway(areas: seq<MapArea>, ps: Space, mine: seq<MapArea>, c: Space, i: nat, good: bool) {
    if good then Building(c, ps, i, i, 0) && |mine| == i && SameRanges(mine, areas, i) && FullTo(areas, i)
    else Doomed(c.pages, ps, i) && !AllFull(areas)
  }

  ghost predicate FullTo(areas: seq<MapArea>, n: nat) {
    forall j: nat {:trigger Open(j)} :: forall a :: 0 <= a < n && a < |areas| ==> Full(areas[a])
  }

  lemma {:induction false} FullNext(areas: seq<MapArea>, n: nat)
    requires FullTo(areas, n) && n < |areas| && Full(areas[n])
    ensures FullTo(areas, n + 1)
  {
    forall a | 0 <= a < n + 1 && a < |areas| ensures Full(areas[a]) {
      if a < n {
        assert Open(0);
      }
    }
  }

  lemma {:induction false} NotAllFull(areas: seq<MapArea>, i: nat) returns (v: nat)
    requires i < |areas| && !Full(areas[i])
    ensures areas[i].start <= v < areas[i].end && v !in areas[i].frames && !AllFull(areas)
  {
    v :| areas[i].start <= v < areas[i].end && v !in areas[i].frames;
  }

  /** When area i could be pushed and copied, the loop goes on. */
  lemma {:induction false} RoundDone(areas: seq<MapArea>, ps: Space, managed: set<nat>, mine: seq<MapArea>, c: Space,
                                     more: seq<MapArea>, t: Space, i: nat, good: bool)
    requires Placed(areas, ps, managed) && OnlyAreas(ps) && i < |areas| && Underway(areas, ps, mine, c, i, good)
    requires |more| == |mine| + 1 && more[..|mine|] == mine
    requires c.pages.Keys <= t.pages.Keys && KeysFrom(areas[i].start, areas[i].end) <= t.pages.Keys
    requires Clear(c.pages, areas[i].start, areas[i].end) && AllIn(ps.pages, areas[i].start, areas[i].end)
    requires good && Full(areas[i]) ==> Building(t, ps, i + 1, i, areas[i].end) && SameRange(more[i], areas[i])
    ensures Underway(areas, ps, more, t, i + 1, good && Full(areas[i]))
  {
    if good && Full(areas[i]) {
      BuildingArea(areas, ps, managed, t, i);
      RangesNext(mine, more, areas, i);
      FullNext(areas, i);
    } else if good {
      BuildingOpens(c, ps, i, i, 0);
      var v := NotAllFull(areas, i);
      AllInAt(ps.pages, areas[i].start, areas[i].end, v);
      ClearAt(c.pages, areas[i].start, areas[i].end, v);
      InKeysFrom(areas[i].start, areas[i].end, v);
      BecomesDoomed(areas, ps, managed, c, t, i, v);
    } else {
      StillDoomed(areas, ps, managed, c, t, i);
    }
  }

  lemma {:induction false} BuildingArea(areas: seq<MapArea>, ps: Space, managed: set<nat>, t: Space, i: nat)
    requires Placed(areas, ps, managed) && i < |areas| && Building(t, ps, i + 1, i, areas[i].end)
    ensures Building(t, ps, i + 1, i + 1, 0)
  {
    BuildingOpens(t, ps, i + 1, i, areas[i].end);
    CopiedArea(areas, ps, managed, t, i);
  }

  /** When it could not, an area is not full, or fewer frames are free than the child needs. */
  lemma {:induction false} RoundFails(areas: seq<MapArea>, ps: Space, managed: set<nat>, mine: seq<MapArea>, c: Space,
                                      i: nat, good: bool)
    requires Placed(areas, ps, managed) && i < |areas| && Underway(areas, ps, mine, c, i, good)
    requires FromFree(ps.free, ps.m, c)
    requires Short(c, FromAnother(areas[i]), Needed(ps)) || !Clear(c.pages, areas[i].start, areas[i].end)
    ensures !AllFull(areas) || |ps.free| < |Needed(ps)| + |ps.home|
  {
    if good && Full(areas[i]) {
      BuildingOpens(c, ps, i, i, 0);
      CopyIsClear(areas, ps, managed, c, i);
      CopyIsShort(areas, ps, managed, c, i, FromAnother(areas[i]));
    }
  }

  /** The copy half of one round, behind a push that made c the space of the child. */
  method CopyPushed(parent: MemorySet, child: MemorySet, mem: FrameMemory, ghost ps: Space, i: nat,
                    ghost mine: seq<MapArea>, ghost c: Space, ghost good: bool) returns (ok: bool)
    requires Origin(parent, ps, mem.Managed()) && OnlyAreas(ps) && i < |parent.areas| && Growing(child, mem, ps)
    requires |child.areas| == |mine| + 1 && child.areas[..|mine|] == mine && c.home.Keys <= c.pages.Keys
    requires Underway(parent.areas, ps, mine, c, i, good)
    requires Clear(c.pages, parent.areas[i].start, parent.areas[i].end)
    requires var area := FromAnother(parent.areas[i]);
      Reached(c, child.Now(mem), area, child.areas[|mine|], area.end, Needed(ps))
    modifies mem`ram
    ensures ok ==> Growing(child, mem, ps)
    ensures ok ==> Underway(parent.areas, ps, child.areas, child.Now(mem), i + 1, good && Full(parent.areas[i]))
    ensures !ok ==> !AllFull(parent.areas)
  {
    ghost var copy := good && Full(parent.areas[i]);
    Pushed(parent, child, mem, ps, i, mine, c, copy);
    ok := CopyArea(parent, child, mem, ps, i, copy);
    if ok {
      OriginOpens(parent, ps, mem.Managed());
      RoundDone(parent.areas, ps, mem.Managed(), mine, c, child.areas, child.Now(mem), i, good);
    }
  }

  /** What the push leaves to the copy loop: the pages of the range are there. */
  lemma Pushed(parent: MemorySet, child: MemorySet, mem: FrameMemory, ps: Space, i: nat, mine: seq<MapArea>, c: Space,
               copy: bool)
    requires Origin(parent, ps, mem.Managed()) && i < |parent.areas| && Growing(child, mem, ps)
    requires |child.areas| == |mine| + 1 && c.home.Keys <= c.pages.Keys
    requires var area := FromAnother(parent.areas[i]);
      Reached(c, child.Now(mem), area, child.areas[|mine|], area.end, Needed(ps))
    requires copy ==> Full(parent.areas[i]) && |mine| == i && Building(c, ps, i, i, 0)
    ensures AreaOk(parent.areas[i]) && c.pages.Keys <= child.table.pages.Keys
    ensures KeysFrom(parent.areas[i].start, parent.areas[i].end) <= child.home.Keys
    ensures KeysFrom(parent.areas[i].start, parent.areas[i].end) <= child.table.pages.Keys
    ensures copy ==> Building(child.Now(mem), ps, i + 1, i, parent.areas[i].start)
    ensures copy ==> SameRange(child.areas[i], parent.areas[i])
  {
    var areas, managed, t := parent.areas, mem.Managed(), child.Now(mem);
    OriginOpens(parent, ps, managed);
    AreaOf(areas, ps, managed, i);
    ReachedOpens(c, t, FromAnother(areas[i]), child.areas[|mine|], areas[i].end, Needed(ps));
    AddedKeys(c, t, KeysFrom(areas[i].start, areas[i].end), areas[i].perm);
    if copy {
      GrowingOpens(child, mem, ps);
      child.FitsOpens(child.areas, mem);
      PushIsTwin(areas, ps, managed, child.areas, c, t, i);
    }
  }

  /** One round of from_existed_user: push the copy of area i, then copy its pages. */
  method ForkArea(parent: MemorySet, child: MemorySet, mem: FrameMemory, ghost ps: Space, i: nat, ghost good: bool)
    returns (r: MapResult)
    requires Origin(parent, ps, mem.Managed()) && OnlyAreas(ps) && i < |parent.areas| && Growing(child, mem, ps)
    requires Underway(parent.areas, ps, child.areas, child.Now(mem), i, good)
    requires child != parent && child.table != parent.table
    modifies child, child.table, mem
    ensures r != Panicked ==> Growing(child, mem, ps)
    ensures r == MemorySets.Mapped ==>
      Underway(parent.areas, ps, child.areas, child.Now(mem), i + 1, good && Full(parent.areas[i]))
    ensures r != MemorySets.Mapped ==> !AllFull(parent.areas) || |ps.free| < |Needed(ps)| + |ps.home|
  {
    ghost var c, mine := child.Now(mem), child.areas;
    GrowingOpens(child, mem, ps);
    child.UnmapNone(mem);
    r := PushCopy(parent, child, mem, ps, i);
    if r == MemorySets.Mapped {
      var ok := CopyPushed(parent, child, mem, ps, i, mine, c, good);
      r := if ok then MemorySets.Mapped else Panicked;
    } else {
      OriginOpens(parent, ps, mem.Managed());
      RoundFails(parent.areas, ps, mem.Managed(), mine, c, i, good);
    }
  }

  /** The loop of from_existed_user over the areas. It gets to the end exactly when every area is fully mapped and
      there are frames for all pages and for the nodes they need. */
  method ForkAreas(parent: MemorySet, child: MemorySet, mem: FrameMemory, ghost ps: Space) returns (r: MapResult)
    requires Origin(parent, ps, mem.Managed()) && OnlyAreas(ps) && Growing(child, mem, ps)
    requires Building(child.Now(mem), ps, 0, 0, 0) && child.areas == []
    requires child != parent && child.table != parent.table
    modifies child, child.table, mem
    ensures r != Panicked ==> Growing(child, mem, ps)
    ensures r == MemorySets.Mapped ==> Underway(parent.areas, ps, child.areas, child.Now(mem), |parent.areas|, true)
    ensures r != MemorySets.Mapped ==> !AllFull(parent.areas) || |ps.free| < |Needed(ps)| + |ps.home|
  {
    ghost var good := true;
    var i := 0;
    while i < |parent.areas|
      invariant i <= |parent.areas| && Origin(parent, ps, mem.Managed()) && Growing(child, mem, ps)
      invariant Underway(parent.areas, ps, child.areas, child.Now(mem), i, good)
    {
      r := ForkArea(parent, child, mem, ps, i, good);
      if r != MemorySets.Mapped {
        return;
      }
      good := good && Full(parent.areas[i]);
      i := i + 1;
    }
    OriginOpens(parent, ps, mem.Managed());
    NotDoomed(parent.areas, ps, mem.Managed(), child.table.pages);
    r := MemorySets.Mapped;
  }

  // ----- all areas

  /** c has the pages of ps: the same keys from the same areas, the same permissions, byte-equal contents. Sealed. */
  ghost predicate IsCopy(ps: Space, c: Space) {
    forall j: nat {:trigger Open(j)} ::
      && c.home == ps.home && c.pages.Keys == ps.pages.Keys
      && (forall k :: k in ps.pages ==> c.pages[k].perm == ps.pages[k].perm)
      && (forall k :: k in ps.home ==> SameContents(ps, c, k))
  }

  lemma {:induction false} CopyOpens(ps: Space, c: Space)
    requires IsCopy(ps, c)
    ensures c.home == ps.home && c.pages.Keys == ps.pages.Keys
    ensures forall k :: k in ps.pages ==> c.pages[k].perm == ps.pages[k].perm
    ensures forall k :: k in ps.home ==> SameContents(ps, c, k)
  {
    assert Open(0);
  }

  /** All areas copied: the child is a copy. The trampoline has the same page in all spaces. */
  lemma {:induction false} CopyComplete(areas: seq<MapArea>, ps: Space, managed: set<nat>, mine: seq<MapArea>, c: Space)
    requires Placed(areas, ps, managed) && Placed(mine, c, managed) && Copied(ps, c, |areas|, |areas|, 0)
    requires SameTrampoline(ps, c) && OnlyAreas(ps) && OnlyAreas(c)
    ensures IsCopy(ps, c)
  {
    forall k | k in ps.home ensures k in c.home && Twin(ps, c, |areas|, 0, k) && SameContents(ps, c, k) {
      SlotOf(areas, ps, managed, k);
      TwinOf(ps, c, |areas|, |areas|, 0, k);
    }
    forall k | k in c.home ensures k in ps.home {
      OnlyTwins(ps, c, |areas|, |areas|, 0, k);
    }
    assert c.home == ps.home;
    forall k ensures (k in c.pages <==> k in ps.pages) && (k in ps.pages ==> c.pages[k].perm == ps.pages[k].perm) {
      Spaces.Mapped(areas, ps, managed, k);
      Spaces.Mapped(mine, c, managed, k);
    }
    assert c.pages.Keys == ps.pages.Keys;
  }

  lemma ParentIsOrigin(parent: MemorySet, mem: FrameMemory)
    requires parent.Valid(mem)
    ensures Origin(parent, parent.Now(mem), mem.Managed()) && mem.Valid()
  {
    parent.FitsOpens(parent.areas, mem);
  }

  ghost predicate AllFull(areas: seq<MapArea>) {
    forall a :: 0 <= a < |areas| ==> Full(areas[a])
  }

  /** The parent is sound and has its pages with their contents; only frames that were free have changed. Sealed. */
  ghost predicate ParentSafe(parent: MemorySet, ps: Space, mem: FrameMemory)
    reads parent, parent.table, mem
  {
    && parent.Valid(mem)
    && forall j: nat {:trigger Open(j)} ::
      && |mem.ram| == |ps.m| && (forall p :: 0 <= p < |ps.m| && p !in ps.free ==> mem.ram[p] == ps.m[p])
      && (forall k :: k in ps.home ==> SamePage(ps, parent.Now(mem), k))
  }

  lemma SafeOpens(parent: MemorySet, ps: Space, mem: FrameMemory)
    requires ParentSafe(parent, ps, mem)
    ensures |mem.ram| == |ps.m| && forall p :: 0 <= p < |ps.m| && p !in ps.free ==> mem.ram[p] == ps.m[p]
    ensures forall k :: k in ps.home ==> SamePage(ps, parent.Now(mem), k)
  {
    assert Open(0);
  }

  lemma ParentIsSafe(parent: MemorySet, ps: Space, mem: FrameMemory, c: Space)
    requires Origin(parent, ps, mem.Managed()) && FromFree(ps.free, ps.m, c) && mem.Valid() && mem.ram == c.m
    requires mem.free == c.free
    ensures ParentSafe(parent, ps, mem)
  {
    ParentStays(parent, ps, mem, c);
    FromFreeOpens(ps.free, ps.m, c);
  }

  /** from_existed_user. A child is a copy of the parent on frames that were free; without one, all frames taken
      are free again. The parent and everything else outside the free frames is unchanged. There is a child exactly
      when every area of the parent is fully mapped and frames are free for all its pages and the nodes they need. */
  method FromExistedUser(parent: MemorySet, mem: FrameMemory, trampoline: nat) returns (r: ForkResult)
    requires parent.Valid(mem) && OnlyAreas(parent.Now(mem)) && trampoline < PPN_LIMIT
    requires TrampolineKey() in parent.table.pages && parent.table.pages[TrampolineKey()] == Page(trampoline, R + X)
    modifies mem
    ensures r != Panic ==> ParentSafe(parent, old(parent.Now(mem)), mem)
    ensures r.Forked? ==> fresh(r.child) && fresh(r.child.table) && r.child.Valid(mem)
    ensures r.Forked? ==> IsCopy(old(parent.Now(mem)), r.child.Now(mem)) && OnlyAreas(r.child.Now(mem))
    ensures r.Forked? ==> SameRanges(r.child.areas, parent.areas, |parent.areas|)
    ensures r.Forked? ==> SameTrampoline(old(parent.Now(mem)), r.child.Now(mem))
    ensures r.Forked? ==> FromFree(old(mem.free), old(mem.ram), r.child.Now(mem))
    ensures r == NoChild ==> mem.free == old(mem.free)
    ensures var ps := old(parent.Now(mem));
      r.Forked? <==> AllFull(parent.areas) && |ps.free| >= |Needed(ps)| + |ps.home|
  {
    ghost var ps := parent.Now(mem);
    ParentIsOrigin(parent, mem);
    NeededAtLeast(ps);
    var made := NewUser(mem, trampoline);
    if made.None? {
      return Panic;
    }
    var child := made.value;
    StartCopy(child, mem, ps);
    var succ := ForkAreas(parent, child, mem, ps);
    if succ == Panicked {
      return Panic;
    }
    if succ == NoMemory {
      DropChild(parent, child, mem, ps);
      return NoChild;
    }
    Finished(parent, child, mem, ps);
    r := Forked(child);
  }

  lemma Finished(parent: MemorySet, child: MemorySet, mem: FrameMemory, ps: Space)
    requires Origin(parent, ps, mem.Managed()) && OnlyAreas(ps) && Growing(child, mem, ps)
    requires Underway(parent.areas, ps, child.areas, child.Now(mem), |parent.areas|, true)
    ensures ParentSafe(parent, ps, mem) && child.Valid(mem) && IsCopy(ps, child.Now(mem)) && OnlyAreas(child.Now(mem))
    ensures FromFree(ps.free, ps.m, child.Now(mem)) && SameTrampoline(ps, child.Now(mem)) && AllFull(parent.areas)
    ensures |ps.free| >= |Needed(ps)| + |ps.home|
  {
    var n, c := |parent.areas|, child.Now(mem);
    GrowingOpens(child, mem, ps);
    BuildingOpens(c, ps, n, n, 0);
    OriginOpens(parent, ps, mem.Managed());
    child.FitsOpens(child.areas, mem);
    child.UnmapNone(mem);
    CopyComplete(parent.areas, ps, mem.Managed(), child.areas, c);
    CopyOpens(ps, c);
    ParentIsSafe(parent, ps, mem, c);
    NeededIsThere(mem.ram, child.table.root, c);
    FromFreeOpens(ps.free, ps.m, c);
    assert AllFull(parent.areas) by {
      assert Open(0);
    }
  }

  lemma StartCopy(child: MemorySet, mem: FrameMemory, ps: Space)
    requires child.Valid(mem) && child.home == map[] && FromFree(ps.free, ps.m, child.Now(mem))
    requires child.table.at.Keys <= Needed(ps) && SameTrampoline(ps, child.Now(mem)) && OnlyAreas(child.Now(mem))
    ensures Growing(child, mem, ps) && Building(child.Now(mem), ps, 0, 0, 0)
  {
    CopiedNone(ps, child.Now(mem));
  }

  /** The half-built child goes out of scope. */
  method DropChild(parent: MemorySet, child: MemorySet, mem: FrameMemory, ghost ps: Space)
    requires Origin(parent, ps, mem.Managed()) && Growing(child, mem, ps) && child != parent
    modifies child`areas, child`home, mem
    ensures mem.free == ps.free && ParentSafe(parent, ps, mem)
  {
    ghost var c := child.Now(mem);
    GrowingOpens(child, mem, ps);
    FromFreeOpens(ps.free, ps.m, c);
    child.Drop(mem, c);
    BackToFree(ps, mem.ram);
    ParentIsSafe(parent, ps, mem, ps.(m := mem.ram, at := map[], home := map[]));
  }

  lemma {:induction false} BackToFree(ps: Space, m: seq<Frame>)
    requires |m| == |ps.m| && forall p :: 0 <= p < |ps.m| && p !in ps.free ==> m[p] == ps.m[p]
    ensures FromFree(ps.free, ps.m, ps.(m := m, at := map[], home := map[]))
  {
    var c := ps.(m := m, at := map[], home := map[]);
    assert DataFrames(c) == {};
    assert c.at.Values == {};
  }
}
