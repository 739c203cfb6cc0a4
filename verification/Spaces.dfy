/** An address space: the areas of a process, the frames they own, and how operations change both. */
module Spaces {
  import opened Basics
  import opened Frames
  import opened PageTree
  import opened PageTables

  /** A logical segment: pages start..end, the frame of each mapped page, and the permissions of all of them. */
  datatype MapArea = MapArea(start: nat, end: nat, frames: map<nat, nat>, perm: nat)

  /** The area and page number a key comes from. */
  datatype Slot = Slot(a: nat, vpn: nat)

  /** The highest page, shared by all address spaces; its page number 2^52 - 1 is cut to 27 bits. */
  const TRAMPOLINE_VPN := 0xF_FFFF_FFFF_FFFF

  function TrampolineKey(): Key {
    Key(511, 511, 511)
  }

  lemma TrampolineIsOnTop()
    ensures KeyOf(TRAMPOLINE_VPN) == TrampolineKey()
  {
    Fields(TRAMPOLINE_VPN);
  }

  /** Everything that matters about a space: memory, free frames, nodes, mapped pages, and their areas. */
  datatype Space = Space(m: seq<Frame>, free: set<nat>, at: map<Node, nat>, pages: map<Key, Page>, home: map<Key, Slot>)

  ghost function DataFrames(s: Space): set<nat> {
    set k | k in s.home && k in s.pages :: s.pages[k].ppn
  }

  /** The frames the space owns: its nodes and the pages of its areas. */
  ghost function Owned(s: Space): set<nat> {
    s.at.Values + DataFrames(s)
  }

  /** A frame is owned exactly when it holds a node of the table or a page of an area. */
  lemma {:induction false} OwnedIs(s: Space, p: nat)
    ensures p in Owned(s) <==>
      (exists n :: n in s.at && s.at[n] == p) || (exists k :: k in s.home && k in s.pages && s.pages[k].ppn == p)
  {
  }

  // ----- areas and pages agree

  ghost predicate AreaOk(area: MapArea) {
    area.start <= area.end <= area.start + VPN_LIMIT && area.perm < 256 && area.perm % 2 == 0
  }

  ghost predicate SlotOk(areas: seq<MapArea>, s: Space, k: Key)
    requires k in s.home
  {
    var Slot(a, vpn) := s.home[k];
    && k in s.pages && a < |areas| && vpn in areas[a].frames && KeyOf(vpn) == k
    && s.pages[k] == Page(areas[a].frames[vpn], areas[a].perm)
  }

  ghost predicate PageOk(areas: seq<MapArea>, s: Space, a: nat, vpn: nat)
    requires a < |areas|
  {
    && areas[a].start <= vpn < areas[a].end
    && KeyOf(vpn) in s.home && s.home[KeyOf(vpn)] == Slot(a, vpn)
  }

  ghost predicate FrameOk(s: Space, managed: set<nat>, k: Key)
    requires k in s.home
  {
    && k in s.pages && s.pages[k].ppn < |s.m| && s.pages[k].ppn in managed
    && s.pages[k].ppn !in s.free && s.pages[k].ppn !in s.at.Values
  }

  /** Mapped are the trampoline and all pages the areas hold frames for; those frames are pairwise different, managed,
      not free and not nodes of the table. The kernel also maps pages to themselves; they belong to no area here. */
  ghost predicate Agree(areas: seq<MapArea>, s: Space, managed: set<nat>) {
    && TrampolineKey() !in s.home && TrampolineKey() in s.pages
    && (forall a :: 0 <= a < |areas| ==> AreaOk(areas[a]))
    && (forall k :: k in s.home ==> SlotOk(areas, s, k) && FrameOk(s, managed, k))
    && (forall a, vpn :: 0 <= a < |areas| && vpn in areas[a].frames ==> PageOk(areas, s, a, vpn))
    && (forall k, l :: k in s.home && l in s.home && k != l ==> s.pages[k].ppn != s.pages[l].ppn)
  }

  ghost predicate Placed(areas: seq<MapArea>, s: Space, managed: set<nat>) {
    forall j: nat {:trigger Open(j)} :: Agree(areas, s, managed)
  }

  lemma {:induction false} PlacedOpens(areas: seq<MapArea>, s: Space, managed: set<nat>)
    requires Placed(areas, s, managed)
    ensures Agree(areas, s, managed)
  {
    assert Open(0);
  }

  // ----- what an operation on one space may do to memory

  /** No frame is lost or shared, and frames that were neither free nor owned are untouched. Sealed. */
  ghost predicate Keeps(s: Space, t: Space) {
    forall j: nat {:trigger Open(j)} ::
      && |t.m| == |s.m|
      && t.free + Owned(t) == s.free + Owned(s)
      && |t.free| + |t.at| + |t.home| == |s.free| + |s.at| + |s.home|
      && (forall p :: 0 <= p < |s.m| && p !in s.free && p !in Owned(s) ==> t.m[p] == s.m[p])
  }

  lemma {:induction false} KeepsOpens(s: Space, t: Space)
    requires Keeps(s, t)
    ensures |t.m| == |s.m|
    ensures t.free + Owned(t) == s.free + Owned(s)
    ensures |t.free| + |t.at| + |t.home| == |s.free| + |s.at| + |s.home|
    ensures forall p :: 0 <= p < |s.m| && p !in s.free && p !in Owned(s) ==> t.m[p] == s.m[p]
  {
    assert Open(0);
  }

  lemma {:induction false} KeepsOn(s: Space, t: Space, u: Space)
    requires Keeps(s, t) && Keeps(t, u)
    ensures Keeps(s, u)
  {
    KeepsOpens(s, t);
    KeepsOpens(t, u);
    forall p | 0 <= p < |s.m| && p !in s.free && p !in Owned(s) ensures u.m[p] == s.m[p] {
      assert p !in s.free + Owned(s);
      assert p !in t.free && p !in Owned(t);
    }
  }

  /** Page k is where it was, with the contents it had. */
  ghost predicate SamePage(s: Space, t: Space, k: Key) {
    && k in s.pages && k in t.pages && t.pages[k] == s.pages[k]
    && (k in s.home ==> k in t.home && t.home[k] == s.home[k])
    && (k in s.home ==> s.pages[k].ppn < |s.m| == |t.m| && t.m[s.pages[k].ppn] == s.m[s.pages[k].ppn])
  }

  ghost predicate NewPage(t: Space, k: Key, perm: nat) {
    && k in t.home && k in t.pages && t.pages[k].perm == perm
    && t.pages[k].ppn < |t.m| && t.m[t.pages[k].ppn] == ZeroFrame()
  }

  /** From s to t the pages `keys` were added, zeroed and with permissions `perm`; all others stayed. Sealed. */
  ghost predicate Adds(s: Space, t: Space, keys: set<Key>, perm: nat) {
    forall j: nat {:trigger Open(j)} ::
      && Keeps(s, t)
      && t.pages.Keys == s.pages.Keys + keys && t.home.Keys == s.home.Keys + keys
      && (forall k :: k in s.pages ==> SamePage(s, t, k))
      && (forall k :: k in keys ==> NewPage(t, k, perm))
      && (forall n :: n in s.at ==> n in t.at && t.at[n] == s.at[n])
  }

  lemma {:induction false} AddsKeeps(s: Space, t: Space, keys: set<Key>, perm: nat)
    requires Adds(s, t, keys, perm)
    ensures Keeps(s, t)
  {
    assert Open(0);
  }

  lemma {:induction false} AddedKeys(s: Space, t: Space, keys: set<Key>, perm: nat)
    requires Adds(s, t, keys, perm)
    ensures t.pages.Keys == s.pages.Keys + keys && t.home.Keys == s.home.Keys + keys
  {
    assert Open(0);
  }

  lemma {:induction false} OldPage(s: Space, t: Space, keys: set<Key>, perm: nat, k: Key)
    requires Adds(s, t, keys, perm) && k in s.pages
    ensures SamePage(s, t, k)
  {
    assert Open(0);
  }

  lemma {:induction false} AddedPage(s: Space, t: Space, keys: set<Key>, perm: nat, k: Key)
    requires Adds(s, t, keys, perm) && k in keys
    ensures NewPage(t, k, perm)
  {
    assert Open(0);
  }

  lemma {:induction false} OldNode(s: Space, t: Space, keys: set<Key>, perm: nat, n: Node)
    requires Adds(s, t, keys, perm) && n in s.at
    ensures n in t.at && t.at[n] == s.at[n]
  {
    assert Open(0);
  }

  lemma {:induction false} AddsNone(s: Space, perm: nat)
    requires forall k :: k in s.home && k in s.pages ==> s.pages[k].ppn < |s.m|
    ensures Adds(s, s, {}, perm)
  {
  }

  lemma {:induction false} Regroup(a: set<Key>, b: set<Key>, c: set<Key>)
    ensures (a + b) + c == a + (b + c)
  {
  }

  lemma {:induction false} KeysOn(s: Space, t: Space, u: Space, keys: set<Key>, more: set<Key>, perm: nat)
    requires Adds(s, t, keys, perm) && Adds(t, u, more, perm)
    ensures u.pages.Keys == s.pages.Keys + (keys + more) && u.home.Keys == s.home.Keys + (keys + more)
  {
    AddedKeys(s, t, keys, perm);
    AddedKeys(t, u, more, perm);
    Regroup(s.pages.Keys, keys, more);
    Regroup(s.home.Keys, keys, more);
  }

  lemma {:induction false} PageOn(s: Space, t: Space, u: Space, keys: set<Key>, more: set<Key>, perm: nat, k: Key)
    requires Adds(s, t, keys, perm) && Adds(t, u, more, perm) && k in keys + more
    ensures NewPage(u, k, perm)
  {
    if k in keys {
      AddedPage(s, t, keys, perm, k);
      OldPage(t, u, more, perm, k);
    } else {
      AddedPage(t, u, more, perm, k);
    }
  }

  lemma {:induction false} AddsOn(s: Space, t: Space, u: Space, keys: set<Key>, more: set<Key>, perm: nat)
    requires Adds(s, t, keys, perm) && Adds(t, u, more, perm)
    ensures Adds(s, u, keys + more, perm)
  {
    AddsKeeps(s, t, keys, perm);
    AddsKeeps(t, u, more, perm);
    KeepsOn(s, t, u);
    KeysOn(s, t, u, keys, more, perm);
    forall k | k in s.pages ensures SamePage(s, u, k) {
      OldPage(s, t, keys, perm, k);
      OldPage(t, u, more, perm, k);
    }
    forall k | k in keys + more ensures NewPage(u, k, perm) {
      PageOn(s, t, u, keys, more, perm, k);
    }
    forall n | n in s.at ensures n in u.at && u.at[n] == s.at[n] {
      OldNode(s, t, keys, perm, n);
      OldNode(t, u, more, perm, n);
    }
  }

  // ----- one page more

  /** What the table does leaves frames alone that are neither free nor its own. */
  lemma {:induction false} Outside(s: Stage, t: Stage, q: nat)
    requires Extends(s, t) && q < |s.m| && q !in s.free && q !in s.at.Values
    ensures t.m[q] == s.m[q] && q !in t.free && q !in t.at.Values
  {
    ExtendsOpens(s, t);
    assert q !in s.free + s.at.Values;
  }

  ghost function WithPage(area: MapArea, vpn: nat, p: nat): MapArea {
    area.(frames := area.frames[vpn := p])
  }

  /** s with page vpn of the last area on frame p, over the memory and nodes the table left behind. */
  ghost function PageAdded(s: Space, after: Stage, a: nat, vpn: nat, p: nat, perm: nat): Space {
    Space(after.m, after.free, after.at, s.pages[KeyOf(vpn) := Page(p, perm)], s.home[KeyOf(vpn) := Slot(a, vpn)])
  }

  /** Frame p was taken and cleared, then the table was extended to `after` to map page vpn to it. */
  ghost predicate Taken(s: Space, after: Stage, p: nat) {
    && p in s.free && p < |s.m| && p !in s.at.Values
    && Extends(Stage(s.m[p := ZeroFrame()], s.free - {p}, s.at), after)
  }

  lemma {:induction false} StaysPut(areas: seq<MapArea>, s: Space, managed: set<nat>, after: Stage, p: nat, k: Key)
    requires Placed(areas, s, managed) && Taken(s, after, p) && k in s.home
    ensures k in s.pages && s.pages[k].ppn < |s.m| && s.pages[k].ppn in managed
    ensures var q := s.pages[k].ppn; q != p && after.m[q] == s.m[q] && q !in after.free && q !in after.at.Values
  {
    assert FrameOk(s, managed, k) by {
      PlacedOpens(areas, s, managed);
    }
    Outside(Stage(s.m[p := ZeroFrame()], s.free - {p}, s.at), after, s.pages[k].ppn);
  }

  lemma {:induction false} KeysPut<T>(m: map<Key, T>, k: Key, x: T)
    ensures m[k := x].Keys == m.Keys + {k} && |m[k := x]| == |m| + if k in m then 0 else 1
  {
    assert m[k := x].Keys == m.Keys + {k};
    assert |m[k := x]| == |m[k := x].Keys| && |m| == |m.Keys|;
    if k in m {
      assert m.Keys + {k} == m.Keys;
    }
  }

  lemma {:induction false} SlotOf(areas: seq<MapArea>, s: Space, managed: set<nat>, k: Key)
    requires Placed(areas, s, managed) && k in s.home
    ensures SlotOk(areas, s, k) && FrameOk(s, managed, k)
  {
    PlacedOpens(areas, s, managed);
  }

  lemma {:induction false} AreaOf(areas: seq<MapArea>, s: Space, managed: set<nat>, a: nat)
    requires Placed(areas, s, managed) && a < |areas|
    ensures AreaOk(areas[a])
  {
    PlacedOpens(areas, s, managed);
  }

  lemma {:induction false} PageOf(areas: seq<MapArea>, s: Space, managed: set<nat>, a: nat, vpn: nat)
    requires Placed(areas, s, managed) && a < |areas| && vpn in areas[a].frames
    ensures PageOk(areas, s, a, vpn)
  {
    PlacedOpens(areas, s, managed);
  }

  lemma {:induction false} Mapped(areas: seq<MapArea>, s: Space, managed: set<nat>, k: Key)
    requires Placed(areas, s, managed)
    ensures k in s.home ==> k in s.pages
    ensures TrampolineKey() in s.pages && TrampolineKey() !in s.home
  {
    PlacedOpens(areas, s, managed);
    assert k in s.home ==> SlotOk(areas, s, k);
  }

  lemma {:induction false} DifferentFrames(areas: seq<MapArea>, s: Space, managed: set<nat>, k: Key, l: Key)
    requires Placed(areas, s, managed) && k in s.home && l in s.home && k != l
    ensures k in s.pages && l in s.pages && s.pages[k].ppn != s.pages[l].ppn
  {
    PlacedOpens(areas, s, managed);
  }

  /** A page that is not mapped is in no area. */
  lemma {:induction false} NotInArea(areas: seq<MapArea>, s: Space, managed: set<nat>, a: nat, vpn: nat)
    requires Placed(areas, s, managed) && a < |areas| && KeyOf(vpn) !in s.pages
    ensures vpn !in areas[a].frames && KeyOf(vpn) !in s.home
  {
    Mapped(areas, s, managed, KeyOf(vpn));
    if vpn in areas[a].frames {
      PageOf(areas, s, managed, a, vpn);
    }
  }

  lemma {:induction false} PageAddedSlots(areas: seq<MapArea>, area: MapArea, s: Space, managed: set<nat>,
                                          after: Stage, vpn: nat, p: nat, k: Key)
    requires Placed(areas + [area], s, managed) && Taken(s, after, p) && p in managed
    requires KeyOf(vpn) !in s.pages
    requires k in PageAdded(s, after, |areas|, vpn, p, area.perm).home
    ensures var t := PageAdded(s, after, |areas|, vpn, p, area.perm);
      SlotOk(areas + [WithPage(area, vpn, p)], t, k) && FrameOk(t, managed, k)
  {
    if k == KeyOf(vpn) {
      Outside(Stage(s.m[p := ZeroFrame()], s.free - {p}, s.at), after, p);
    } else {
      SlotOf(areas + [area], s, managed, k);
      StaysPut(areas + [area], s, managed, after, p, k);
      NotInArea(areas + [area], s, managed, |areas|, vpn);
    }
  }

  lemma {:induction false} PageAddedPages(areas: seq<MapArea>, area: MapArea, s: Space, managed: set<nat>,
                                          after: Stage, vpn: nat, p: nat, a: nat, v: nat)
    requires Placed(areas + [area], s, managed) && KeyOf(vpn) !in s.pages && area.start <= vpn < area.end
    requires a <= |areas| && v in (areas + [WithPage(area, vpn, p)])[a].frames
    ensures PageOk(areas + [WithPage(area, vpn, p)], PageAdded(s, after, |areas|, vpn, p, area.perm), a, v)
  {
    var was := areas + [area];
    if !(a == |areas| && v == vpn) {
      assert v in was[a].frames;
      PageOf(was, s, managed, a, v);
      NotInArea(was, s, managed, a, vpn);
    }
  }

  lemma {:induction false} PageAddedDiffer(areas: seq<MapArea>, s: Space, managed: set<nat>, after: Stage, a: nat,
                                           vpn: nat, p: nat, perm: nat, k: Key, l: Key)
    requires Placed(areas, s, managed) && Taken(s, after, p) && k != l
    requires var t := PageAdded(s, after, a, vpn, p, perm); k in t.home && l in t.home
    ensures var t := PageAdded(s, after, a, vpn, p, perm);
      k in t.pages && l in t.pages && t.pages[k].ppn != t.pages[l].ppn
  {
    if k != KeyOf(vpn) {
      StaysPut(areas, s, managed, after, p, k);
    }
    if l != KeyOf(vpn) {
      StaysPut(areas, s, managed, after, p, l);
    }
    if k != KeyOf(vpn) && l != KeyOf(vpn) {
      DifferentFrames(areas, s, managed, k, l);
    }
  }

  lemma {:induction false} PageAddedAgrees(areas: seq<MapArea>, area: MapArea, s: Space, managed: set<nat>,
                                           after: Stage, vpn: nat, p: nat)
    requires Placed(areas + [area], s, managed) && Taken(s, after, p) && p in managed
    requires KeyOf(vpn) !in s.pages && area.start <= vpn < area.end
    ensures Placed(areas + [WithPage(area, vpn, p)], PageAdded(s, after, |areas|, vpn, p, area.perm), managed)
  {
    var now := areas + [WithPage(area, vpn, p)];
    var t := PageAdded(s, after, |areas|, vpn, p, area.perm);
    Mapped(areas + [area], s, managed, TrampolineKey());
    forall a | 0 <= a < |now| ensures AreaOk(now[a]) {
      AreaOf(areas + [area], s, managed, a);
    }
    forall k | k in t.home ensures SlotOk(now, t, k) && FrameOk(t, managed, k) {
      PageAddedSlots(areas, area, s, managed, after, vpn, p, k);
    }
    forall a, v | 0 <= a < |now| && v in now[a].frames ensures PageOk(now, t, a, v) {
      PageAddedPages(areas, area, s, managed, after, vpn, p, a, v);
    }
    forall k, l | k in t.home && l in t.home && k != l ensures t.pages[k].ppn != t.pages[l].ppn {
      PageAddedDiffer(areas + [area], s, managed, after, |areas|, vpn, p, area.perm, k, l);
    }
  }

  lemma {:induction false} DataAdded(areas: seq<MapArea>, s: Space, managed: set<nat>, after: Stage, a: nat,
                                     vpn: nat, p: nat, perm: nat)
    requires Placed(areas, s, managed) && KeyOf(vpn) !in s.pages
    ensures DataFrames(PageAdded(s, after, a, vpn, p, perm)) == DataFrames(s) + {p}
  {
    var t := PageAdded(s, after, a, vpn, p, perm);
    PlacedOpens(areas, s, managed);
    assert KeyOf(vpn) !in s.home;
    assert t.pages[KeyOf(vpn)].ppn == p;
    forall q | q in DataFrames(s) ensures q in DataFrames(t) {
      var k :| k in s.home && k in s.pages && s.pages[k].ppn == q;
      assert k in t.home && t.pages[k].ppn == q;
    }
  }

  lemma {:induction false} FrameMoves(f: set<nat>, v: set<nat>, g: set<nat>, w: set<nat>, data: set<nat>, p: nat)
    requires p in f && g + w == f - {p} + v
    ensures g + (w + (data + {p})) == f + (v + data)
  {
    forall x ensures x in g + (w + (data + {p})) <==> x in f + (v + data) {
      assert x in g + w <==> x in f - {p} + v;
    }
  }

  lemma {:induction false} CountMoves(s: Space, after: Stage, k: Key, slot: Slot, p: nat)
    requires Taken(s, after, p) && k !in s.home
    ensures |after.free| + |after.at| + |s.home[k := slot]| == |s.free| + |s.at| + |s.home|
  {
    assert |after.free| + |after.at| == |s.free - {p}| + |s.at| by {
      ExtendsOpens(Stage(s.m[p := ZeroFrame()], s.free - {p}, s.at), after);
    }
    KeysPut(s.home, k, slot);
  }

  lemma {:induction false} OwnedMoves(s: Space, after: Stage, p: nat)
    requires Taken(s, after, p)
    ensures after.free + (after.at.Values + (DataFrames(s) + {p})) == s.free + (s.at.Values + DataFrames(s))
  {
    assert after.free + after.at.Values == s.free - {p} + s.at.Values by {
      ExtendsOpens(Stage(s.m[p := ZeroFrame()], s.free - {p}, s.at), after);
    }
    FrameMoves(s.free, s.at.Values, after.free, after.at.Values, DataFrames(s), p);
  }

  lemma {:induction false} PageAddedKeeps(areas: seq<MapArea>, s: Space, managed: set<nat>, after: Stage, a: nat,
                                          vpn: nat, p: nat, perm: nat)
    requires Placed(areas, s, managed) && Taken(s, after, p) && KeyOf(vpn) !in s.pages && KeyOf(vpn) !in s.home
    ensures Keeps(s, PageAdded(s, after, a, vpn, p, perm))
  {
    var t := PageAdded(s, after, a, vpn, p, perm);
    DataAdded(areas, s, managed, after, a, vpn, p, perm);
    CountMoves(s, after, KeyOf(vpn), Slot(a, vpn), p);
    OwnedMoves(s, after, p);
    forall q | 0 <= q < |s.m| && q !in s.free && q !in Owned(s) ensures t.m[q] == s.m[q] {
      Elsewhere(s, after, p, q);
    }
  }

  lemma {:induction false} Elsewhere(s: Space, after: Stage, p: nat, q: nat)
    requires Taken(s, after, p) && q < |s.m| && q !in s.free && q !in Owned(s)
    ensures after.m[q] == s.m[q]
  {
    Outside(Stage(s.m[p := ZeroFrame()], s.free - {p}, s.at), after, q);
  }

  lemma {:induction false} AddedIsNew(s: Space, after: Stage, a: nat, vpn: nat, p: nat, perm: nat)
    requires Taken(s, after, p)
    ensures NewPage(PageAdded(s, after, a, vpn, p, perm), KeyOf(vpn), perm)
    ensures forall n :: n in s.at ==> n in after.at && after.at[n] == s.at[n]
  {
    Outside(Stage(s.m[p := ZeroFrame()], s.free - {p}, s.at), after, p);
    ExtendsOpens(Stage(s.m[p := ZeroFrame()], s.free - {p}, s.at), after);
  }

  lemma {:induction false} AddedBeside(areas: seq<MapArea>, s: Space, managed: set<nat>, after: Stage, a: nat, vpn: nat,
                                       p: nat, perm: nat, k: Key)
    requires Placed(areas, s, managed) && Taken(s, after, p) && KeyOf(vpn) !in s.pages && k in s.pages
    ensures SamePage(s, PageAdded(s, after, a, vpn, p, perm), k)
  {
    if k in s.home {
      StaysPut(areas, s, managed, after, p, k);
    }
  }

  /** Mapping one page adds that page, cleared, and changes no other. */
  lemma {:induction false} PageAddedAdds(areas: seq<MapArea>, s: Space, managed: set<nat>, after: Stage, a: nat,
                                         vpn: nat, p: nat, perm: nat)
    requires Placed(areas, s, managed) && Taken(s, after, p) && KeyOf(vpn) !in s.pages
    ensures Adds(s, PageAdded(s, after, a, vpn, p, perm), {KeyOf(vpn)}, perm)
  {
    var t := PageAdded(s, after, a, vpn, p, perm);
    assert KeyOf(vpn) !in s.home by {
      PlacedOpens(areas, s, managed);
    }
    PageAddedKeeps(areas, s, managed, after, a, vpn, p, perm);
    AddedIsNew(s, after, a, vpn, p, perm);
    forall k | k in s.pages ensures SamePage(s, t, k) {
      AddedBeside(areas, s, managed, after, a, vpn, p, perm, k);
    }
    KeysPut(s.pages, KeyOf(vpn), Page(p, perm));
    KeysPut(s.home, KeyOf(vpn), Slot(a, vpn));
  }

  // ----- ranges of pages

  ghost function KeysFrom(lo: nat, hi: nat): set<Key> {
    if hi <= lo then {} else KeysFrom(lo, hi - 1) + {KeyOf(hi - 1)}
  }

  lemma {:induction false} InKeysFrom(lo: nat, hi: nat, v: nat)
    requires lo <= v < hi
    ensures KeyOf(v) in KeysFrom(lo, hi)
  {
    if v < hi - 1 {
      InKeysFrom(lo, hi - 1, v);
    }
  }

  lemma {:induction false} FromKey(lo: nat, hi: nat, k: Key) returns (v: nat)
    requires k in KeysFrom(lo, hi)
    ensures lo <= v < hi && KeyOf(v) == k
  {
    if k == KeyOf(hi - 1) {
      v := hi - 1;
    } else {
      v := FromKey(lo, hi - 1, k);
    }
  }

  lemma {:induction false} KeysNext(lo: nat, hi: nat)
    requires lo <= hi
    ensures KeysFrom(lo, hi + 1) == KeysFrom(lo, hi) + {KeyOf(hi)}
  {
  }

  lemma {:induction false} KeysCount(lo: nat, hi: nat)
    requires lo <= hi
    ensures |KeysFrom(lo, hi)| <= hi - lo
  {
    if lo < hi {
      KeysCount(lo, hi - 1);
    }
  }

  /** Within 2^27 consecutive pages every page has its own key. */
  lemma {:induction false} KeyIsNew(lo: nat, hi: nat)
    requires lo <= hi < lo + VPN_LIMIT
    ensures KeyOf(hi) !in KeysFrom(lo, hi)
  {
    if KeyOf(hi) in KeysFrom(lo, hi) {
      var v := FromKey(lo, hi, KeyOf(hi));
      NearKeys(v, hi);
      assert false;
    }
  }

  lemma {:induction false} NearKeys(v: nat, w: nat)
    requires v < w < v + VPN_LIMIT
    ensures KeyOf(v) != KeyOf(w)
  {
    SameKey(v, w);
    Residues(v, w);
  }

  lemma {:induction false} Residues(v: nat, w: nat)
    requires v < w < v + 0x800_0000
    ensures v % 0x800_0000 != w % 0x800_0000
  {
    var i, j := v / 0x800_0000, w / 0x800_0000;
    assert v == 0x800_0000 * i + v % 0x800_0000 && w == 0x800_0000 * j + w % 0x800_0000;
    assert i == j || i + 1 <= j;
  }

  // ----- enough frames

  /** All nodes on the way to pages lo..hi are in `room`. */
  ghost predicate Covers(room: set<Node>, lo: nat, hi: nat) {
    forall v :: lo <= v < hi ==> Path(KeyOf(v)) <= room
  }

  lemma {:induction false} MissingFits(at: map<Node, nat>, room: set<Node>, k: Key)
    requires at.Keys <= room && Path(k) <= room
    ensures |at| + Missing(at, k) <= |room|
  {
    var mid, leaf := Child(Root, k.i0), LeafOf(k);
    OneMoreCount(at.Keys, mid);
    OneMoreCount(at.Keys + {mid}, leaf);
    SubsetCount(at.Keys + {mid} + {leaf}, room);
  }

  lemma {:induction false} OneMoreCount(a: set<Node>, x: Node)
    ensures |a + {x}| == |a| + if x in a then 0 else 1
  {
    if x in a {
      assert a + {x} == a;
    }
  }

  /** Mapping stops early only when fewer frames were free than pages and new nodes need. */
  lemma {:induction false} StopsForWant(s: Space, t: Space, keys: set<Key>, perm: nat, room: set<Node>, k: Key)
    requires Adds(s, t, keys, perm) && t.at.Keys <= room && Path(k) <= room && |t.free| <= Missing(t.at, k)
    ensures |s.free| + |s.at| <= |room| + |keys|
  {
    MissingFits(t.at, room, k);
    assert |t.home| <= |s.home| + |keys| by {
      AddedKeys(s, t, keys, perm);
      assert |t.home| == |t.home.Keys| && |s.home| == |s.home.Keys|;
      UnionCount(s.home.Keys, keys);
    }
    assert |t.free| + |t.at| + |t.home| == |s.free| + |s.at| + |s.home| by {
      AddsKeeps(s, t, keys, perm);
      KeepsOpens(s, t);
    }
  }

  // ----- user spaces

  /** A user space maps the pages of its areas and the trampoline, and nothing else. */
  ghost predicate OnlyAreas(s: Space) {
    forall k :: k in s.pages ==> k in s.home || k == TrampolineKey()
  }

  lemma {:induction false} AddsOnlyAreas(s: Space, t: Space, keys: set<Key>, perm: nat)
    requires Adds(s, t, keys, perm) && OnlyAreas(s)
    ensures OnlyAreas(t)
  {
    AddedKeys(s, t, keys, perm);
    forall k | k in t.pages ensures k in t.home || k == TrampolineKey() {
      assert k in s.pages.Keys + keys;
    }
  }

  // ----- pages that are mapped to themselves

  /** From s to t the pages lo..hi were mapped to the frames of the same number; all others stayed. Sealed. */
  ghost predicate Lays(s: Space, t: Space, lo: nat, hi: nat, perm: nat) {
    forall j: nat {:trigger Open(j)} ::
      && Keeps(s, t) && t.home == s.home && t.pages.Keys == s.pages.Keys + KeysFrom(lo, hi)
      && (forall k :: k in s.pages ==> SamePage(s, t, k))
      && (forall v :: lo <= v < hi ==> KeyOf(v) in t.pages && t.pages[KeyOf(v)] == Page(v, perm))
  }

  lemma {:induction false} LaidKeys(s: Space, t: Space, lo: nat, hi: nat, perm: nat)
    requires Lays(s, t, lo, hi, perm)
    ensures Keeps(s, t) && t.home == s.home && t.pages.Keys == s.pages.Keys + KeysFrom(lo, hi)
  {
    assert Open(0);
  }

  lemma {:induction false} LaidPage(s: Space, t: Space, lo: nat, hi: nat, perm: nat, v: nat)
    requires Lays(s, t, lo, hi, perm) && lo <= v < hi
    ensures KeyOf(v) in t.pages && t.pages[KeyOf(v)] == Page(v, perm)
  {
    assert Open(0);
  }

  lemma {:induction false} BesideLaid(s: Space, t: Space, lo: nat, hi: nat, perm: nat, k: Key)
    requires Lays(s, t, lo, hi, perm) && k in s.pages
    ensures SamePage(s, t, k)
  {
    assert Open(0);
  }

  lemma {:induction false} LaysNone(areas: seq<MapArea>, s: Space, managed: set<nat>, lo: nat, perm: nat)
    requires Placed(areas, s, managed)
    ensures Lays(s, s, lo, lo, perm)
  {
    assert KeysFrom(lo, lo) == {};
    forall k | k in s.pages ensures SamePage(s, s, k) {
      if k in s.home {
        SlotOf(areas, s, managed, k);
      }
    }
  }

  lemma {:induction false} LaysNext(s: Space, t: Space, u: Space, lo: nat, v: nat, perm: nat)
    requires lo <= v && Lays(s, t, lo, v, perm) && Lays(t, u, v, v + 1, perm)
    ensures Lays(s, u, lo, v + 1, perm)
  {
    LaidKeysNext(s, t, u, lo, v, perm);
    forall k | k in s.pages ensures SamePage(s, u, k) {
      BesideLaid(s, t, lo, v, perm, k);
      BesideLaid(t, u, v, v + 1, perm, k);
    }
    forall w | lo <= w < v + 1 ensures KeyOf(w) in u.pages && u.pages[KeyOf(w)] == Page(w, perm) {
      LaidPageNext(s, t, u, lo, v, perm, w);
    }
  }

  lemma {:induction false} LaidKeysNext(s: Space, t: Space, u: Space, lo: nat, v: nat, perm: nat)
    requires lo <= v && Lays(s, t, lo, v, perm) && Lays(t, u, v, v + 1, perm)
    ensures Keeps(s, u) && u.home == s.home && u.pages.Keys == s.pages.Keys + KeysFrom(lo, v + 1)
  {
    LaidKeys(s, t, lo, v, perm);
    LaidKeys(t, u, v, v + 1, perm);
    KeepsOn(s, t, u);
    KeysNext(lo, v);
    OneKey(v);
    Regroup(s.pages.Keys, KeysFrom(lo, v), {KeyOf(v)});
  }

  lemma {:induction false} OneKey(v: nat)
    ensures KeysFrom(v, v) == {} && KeysFrom(v, v + 1) == {KeyOf(v)}
  {
    KeysNext(v, v);
  }

  lemma {:induction false} LaidPageNext(s: Space, t: Space, u: Space, lo: nat, v: nat, perm: nat, w: nat)
    requires lo <= w <= v && Lays(s, t, lo, v, perm) && Lays(t, u, v, v + 1, perm)
    ensures KeyOf(w) in u.pages && u.pages[KeyOf(w)] == Page(w, perm)
  {
    if w < v {
      LaidPage(s, t, lo, v, perm, w);
      BesideLaid(t, u, v, v + 1, perm, KeyOf(w));
    } else {
      LaidPage(t, u, v, v + 1, perm, v);
    }
  }

  /** s with page vpn mapped to itself, over the memory and nodes the table left behind. */
  ghost function SelfMapped(s: Space, after: Stage, vpn: nat, perm: nat): Space {
    Space(after.m, after.free, after.at, s.pages[KeyOf(vpn) := Page(vpn, perm)], s.home)
  }

  lemma {:induction false} SelfMappedSlot(areas: seq<MapArea>, s: Space, managed: set<nat>, after: Stage, vpn: nat,
                                          perm: nat, k: Key)
    requires Placed(areas, s, managed) && Extends(Stage(s.m, s.free, s.at), after) && KeyOf(vpn) !in s.pages
    requires k in s.home
    ensures var t := SelfMapped(s, after, vpn, perm);
      SlotOk(areas, t, k) && FrameOk(t, managed, k) && SamePage(s, t, k)
  {
    SlotOf(areas, s, managed, k);
    Outside(Stage(s.m, s.free, s.at), after, s.pages[k].ppn);
  }

  lemma {:induction false} SelfMappedAgrees(areas: seq<MapArea>, s: Space, managed: set<nat>, after: Stage, vpn: nat,
                                            perm: nat)
    requires Placed(areas, s, managed) && Extends(Stage(s.m, s.free, s.at), after) && KeyOf(vpn) !in s.pages
    ensures Placed(areas, SelfMapped(s, after, vpn, perm), managed)
  {
    var t := SelfMapped(s, after, vpn, perm);
    Mapped(areas, s, managed, TrampolineKey());
    forall a | 0 <= a < |areas| ensures AreaOk(areas[a]) {
      AreaOf(areas, s, managed, a);
    }
    forall k | k in t.home ensures SlotOk(areas, t, k) && FrameOk(t, managed, k) {
      SelfMappedSlot(areas, s, managed, after, vpn, perm, k);
    }
    forall a, v | 0 <= a < |areas| && v in areas[a].frames ensures PageOk(areas, t, a, v) {
      PageOf(areas, s, managed, a, v);
    }
    forall k, l | k in t.home && l in t.home && k != l ensures t.pages[k].ppn != t.pages[l].ppn {
      DifferentFrames(areas, s, managed, k, l);
    }
  }

  lemma {:induction false} SelfMappedKeeps(areas: seq<MapArea>, s: Space, managed: set<nat>, after: Stage, vpn: nat,
                                           perm: nat)
    requires Placed(areas, s, managed) && Extends(Stage(s.m, s.free, s.at), after) && KeyOf(vpn) !in s.pages
    ensures Keeps(s, SelfMapped(s, after, vpn, perm))
  {
    var t := SelfMapped(s, after, vpn, perm);
    assert KeyOf(vpn) !in s.home by {
      Mapped(areas, s, managed, KeyOf(vpn));
    }
    assert DataFrames(t) == DataFrames(s);
    ExtendsOpens(Stage(s.m, s.free, s.at), after);
    ThreeParts(s.free, s.at.Values, t.free, t.at.Values, DataFrames(s));
  }

  lemma {:induction false} ThreeParts(f: set<nat>, v: set<nat>, g: set<nat>, w: set<nat>, data: set<nat>)
    requires g + w == f + v
    ensures g + (w + data) == f + (v + data)
  {
    assert g + (w + data) == (g + w) + data;
    assert f + (v + data) == (f + v) + data;
  }

  /** Mapping one page to itself changes no other page. */
  lemma {:induction false} SelfMappedLays(areas: seq<MapArea>, s: Space, managed: set<nat>, after: Stage, vpn: nat,
                                          perm: nat)
    requires Placed(areas, s, managed) && Extends(Stage(s.m, s.free, s.at), after) && KeyOf(vpn) !in s.pages
    ensures Lays(s, SelfMapped(s, after, vpn, perm), vpn, vpn + 1, perm)
  {
    var t := SelfMapped(s, after, vpn, perm);
    SelfMappedKeeps(areas, s, managed, after, vpn, perm);
    KeysPut(s.pages, KeyOf(vpn), Page(vpn, perm));
    OneKey(vpn);
    forall k | k in s.pages ensures SamePage(s, t, k) {
      if k in s.home {
        SelfMappedSlot(areas, s, managed, after, vpn, perm, k);
      }
    }
  }

  // ----- one area more, still without pages

  lemma {:induction false} EmptyArea(areas: seq<MapArea>, area: MapArea, s: Space, managed: set<nat>)
    requires Placed(areas, s, managed) && area.frames == map[] && AreaOk(area)
    ensures Placed(areas + [area], s, managed)
  {
    var all := areas + [area];
    PlacedOpens(areas, s, managed);
    forall k | k in s.home ensures SlotOk(all, s, k) && FrameOk(s, managed, k) {
      assert SlotOk(areas, s, k);
    }
    forall a, v | 0 <= a < |all| && v in all[a].frames ensures PageOk(all, s, a, v) {
      assert all[a] == areas[a];
      assert PageOk(areas, s, a, v);
    }
  }

  // ----- one page less

  /** Pages `keys` are gone, all others stayed. Sealed. */
  ghost predicate Removes(s: Space, t: Space, keys: set<Key>) {
    forall j: nat {:trigger Open(j)} ::
      && Keeps(s, t) && t.at == s.at
      && t.pages.Keys == s.pages.Keys - keys && t.home.Keys == s.home.Keys - keys
      && (forall k :: k in s.pages && k !in keys ==> SamePage(s, t, k))
  }

  lemma {:induction false} RemovedKeys(s: Space, t: Space, keys: set<Key>)
    requires Removes(s, t, keys)
    ensures Keeps(s, t) && t.at == s.at
    ensures t.pages.Keys == s.pages.Keys - keys && t.home.Keys == s.home.Keys - keys
  {
    assert Open(0);
  }

  lemma {:induction false} RemainingPage(s: Space, t: Space, keys: set<Key>, k: Key)
    requires Removes(s, t, keys) && k in s.pages && k !in keys
    ensures SamePage(s, t, k)
  {
    assert Open(0);
  }

  lemma {:induction false} RemovesNone(areas: seq<MapArea>, s: Space, managed: set<nat>)
    requires Placed(areas, s, managed)
    ensures Removes(s, s, {})
  {
    forall k | k in s.pages ensures SamePage(s, s, k) {
      if k in s.home {
        SlotOf(areas, s, managed, k);
      }
    }
  }

  lemma {:induction false} RemovesOn(s: Space, t: Space, u: Space, keys: set<Key>, more: set<Key>)
    requires Removes(s, t, keys) && Removes(t, u, more)
    ensures Removes(s, u, keys + more)
  {
    RemovedKeys(s, t, keys);
    RemovedKeys(t, u, more);
    KeepsOn(s, t, u);
    Subtract(s.pages.Keys, keys, more);
    Subtract(s.home.Keys, keys, more);
    forall k | k in s.pages && k !in keys + more ensures SamePage(s, u, k) {
      RemainingPage(s, t, keys, k);
      RemainingPage(t, u, more, k);
    }
  }

  lemma {:induction false} Subtract(a: set<Key>, b: set<Key>, c: set<Key>)
    ensures (a - b) - c == a - (b + c)
  {
  }

  ghost function WithoutPage(areas: seq<MapArea>, a: nat, vpn: nat): seq<MapArea>
    requires a < |areas|
  {
    areas[a := areas[a].(frames := areas[a].frames - {vpn})]
  }

  /** The areas have the ranges they had, whatever pages they lost. Sealed. */
  ghost predicate SameExtents(before: seq<MapArea>, areas: seq<MapArea>) {
    forall j: nat {:trigger Open(j)} ::
      && |areas| == |before|
      && forall a :: 0 <= a < |areas| ==> areas[a].start == before[a].start && areas[a].end == before[a].end
  }

  lemma {:induction false} ExtentOf(before: seq<MapArea>, areas: seq<MapArea>, a: nat)
    requires SameExtents(before, areas) && a < |before|
    ensures |areas| == |before| && areas[a].start == before[a].start && areas[a].end == before[a].end
  {
    assert Open(0);
  }

  lemma {:induction false} ExtentsStay(areas: seq<MapArea>)
    ensures SameExtents(areas, areas)
  {
  }

  lemma {:induction false} ExtentsOn(first: seq<MapArea>, before: seq<MapArea>, a: nat, vpn: nat)
    requires SameExtents(first, before) && a < |before|
    ensures SameExtents(first, WithoutPage(before, a, vpn))
  {
    assert Open(0);
  }

  /** Frame p of page k came back, and the table dropped its entry. */
  ghost function PageRemoved(s: Space, m: seq<Frame>, k: Key): Space
    requires k in s.pages
  {
    Space(m, s.free + {s.pages[k].ppn}, s.at, s.pages - {k}, s.home - {k})
  }

  ghost predicate Dropped(s: Space, m: seq<Frame>, k: Key) {
    && k in s.pages && k in s.home
    && Extends(Stage(s.m, s.free + {s.pages[k].ppn}, s.at), Stage(m, s.free + {s.pages[k].ppn}, s.at))
  }

  lemma {:induction false} RemainsPut(areas: seq<MapArea>, s: Space, managed: set<nat>, m: seq<Frame>, k0: Key, k: Key)
    requires Placed(areas, s, managed) && Dropped(s, m, k0) && k in s.home && k != k0
    ensures k in s.pages && s.pages[k].ppn != s.pages[k0].ppn && s.pages[k].ppn < |s.m| == |m|
    ensures m[s.pages[k].ppn] == s.m[s.pages[k].ppn] && FrameOk(s, managed, k)
  {
    SlotOf(areas, s, managed, k);
    DifferentFrames(areas, s, managed, k, k0);
    var free := s.free + {s.pages[k0].ppn};
    Outside(Stage(s.m, free, s.at), Stage(m, free, s.at), s.pages[k].ppn);
  }

  lemma {:induction false} KeysCut<T>(m: map<Key, T>, k: Key)
    ensures (m - {k}).Keys == m.Keys - {k} && |m - {k}| == |m| - if k in m then 1 else 0
  {
    assert (m - {k}).Keys == m.Keys - {k};
    assert |m - {k}| == |(m - {k}).Keys| && |m| == |m.Keys|;
  }

  lemma {:induction false} PageRemovedSlots(areas: seq<MapArea>, s: Space, managed: set<nat>, m: seq<Frame>, a: nat,
                                            vpn: nat, k: Key)
    requires Placed(areas, s, managed) && a < |areas| && vpn in areas[a].frames && Dropped(s, m, KeyOf(vpn))
    requires k in s.home && k != KeyOf(vpn)
    ensures var t := PageRemoved(s, m, KeyOf(vpn));
      k in t.home && SlotOk(WithoutPage(areas, a, vpn), t, k) && FrameOk(t, managed, k)
  {
    SlotOf(areas, s, managed, k);
    RemainsPut(areas, s, managed, m, KeyOf(vpn), k);
    var Slot(b, v) := s.home[k];
    assert v != vpn;
    CutOther(areas, a, vpn, b, v);
  }

  lemma {:induction false} CutOther(areas: seq<MapArea>, a: nat, vpn: nat, b: nat, v: nat)
    requires a < |areas| && b < |areas| && v in areas[b].frames && v != vpn
    ensures var now := WithoutPage(areas, a, vpn);
      v in now[b].frames && now[b].frames[v] == areas[b].frames[v] && now[b].perm == areas[b].perm
  {
  }

  lemma {:induction false} PageRemovedPages(areas: seq<MapArea>, s: Space, managed: set<nat>, m: seq<Frame>, a: nat,
                                            vpn: nat, b: nat, v: nat)
    requires Placed(areas, s, managed) && a < |areas| && vpn in areas[a].frames && Dropped(s, m, KeyOf(vpn))
    requires b < |areas| && v in WithoutPage(areas, a, vpn)[b].frames
    ensures PageOk(WithoutPage(areas, a, vpn), PageRemoved(s, m, KeyOf(vpn)), b, v)
  {
    PageOf(areas, s, managed, b, v);
    PageOf(areas, s, managed, a, vpn);
    assert KeyOf(v) == KeyOf(vpn) ==> Slot(b, v) == Slot(a, vpn);
  }

  lemma {:induction false} PageRemovedAgrees(areas: seq<MapArea>, s: Space, managed: set<nat>, m: seq<Frame>, a: nat,
                                             vpn: nat)
    requires Placed(areas, s, managed) && a < |areas| && vpn in areas[a].frames && Dropped(s, m, KeyOf(vpn))
    ensures Placed(WithoutPage(areas, a, vpn), PageRemoved(s, m, KeyOf(vpn)), managed)
  {
    Mapped(areas, s, managed, TrampolineKey());
    forall b | 0 <= b < |areas| ensures AreaOk(WithoutPage(areas, a, vpn)[b]) {
      AreaOf(areas, s, managed, b);
    }
    PageRemovedAllSlots(areas, s, managed, m, a, vpn);
    PageRemovedAllPages(areas, s, managed, m, a, vpn);
    RemovedAllDiffer(areas, s, managed, m, KeyOf(vpn));
    PlacedFrom(WithoutPage(areas, a, vpn), PageRemoved(s, m, KeyOf(vpn)), managed);
  }

  lemma {:induction false} PlacedFrom(areas: seq<MapArea>, s: Space, managed: set<nat>)
    requires TrampolineKey() !in s.home && TrampolineKey() in s.pages
    requires forall a :: 0 <= a < |areas| ==> AreaOk(areas[a])
    requires forall k :: k in s.home ==> SlotOk(areas, s, k) && FrameOk(s, managed, k)
    requires forall a, v :: 0 <= a < |areas| && v in areas[a].frames ==> PageOk(areas, s, a, v)
    requires forall k, l :: k in s.home && l in s.home && k != l ==>
      k in s.pages && l in s.pages && s.pages[k].ppn != s.pages[l].ppn
    ensures Placed(areas, s, managed)
  {
  }

  lemma {:induction false} PageRemovedAllSlots(areas: seq<MapArea>, s: Space, managed: set<nat>, m: seq<Frame>, a: nat,
                                               vpn: nat)
    requires Placed(areas, s, managed) && a < |areas| && vpn in areas[a].frames && Dropped(s, m, KeyOf(vpn))
    ensures var now, t := WithoutPage(areas, a, vpn), PageRemoved(s, m, KeyOf(vpn));
      forall k :: k in t.home ==> SlotOk(now, t, k) && FrameOk(t, managed, k)
  {
    forall k | k in PageRemoved(s, m, KeyOf(vpn)).home
      ensures SlotOk(WithoutPage(areas, a, vpn), PageRemoved(s, m, KeyOf(vpn)), k)
      ensures FrameOk(PageRemoved(s, m, KeyOf(vpn)), managed, k)
    {
      PageRemovedSlots(areas, s, managed, m, a, vpn, k);
    }
  }

  lemma {:induction false} PageRemovedAllPages(areas: seq<MapArea>, s: Space, managed: set<nat>, m: seq<Frame>, a: nat,
                                               vpn: nat)
    requires Placed(areas, s, managed) && a < |areas| && vpn in areas[a].frames && Dropped(s, m, KeyOf(vpn))
    ensures var now, t := WithoutPage(areas, a, vpn), PageRemoved(s, m, KeyOf(vpn));
      forall b, v :: 0 <= b < |now| && v in now[b].frames ==> PageOk(now, t, b, v)
  {
    forall b, v | 0 <= b < |areas| && v in WithoutPage(areas, a, vpn)[b].frames
      ensures PageOk(WithoutPage(areas, a, vpn), PageRemoved(s, m, KeyOf(vpn)), b, v)
    {
      PageRemovedPages(areas, s, managed, m, a, vpn, b, v);
    }
  }

  lemma {:induction false} RemovedAllDiffer(areas: seq<MapArea>, s: Space, managed: set<nat>, m: seq<Frame>, k0: Key)
    requires Placed(areas, s, managed) && k0 in s.pages
    ensures var t := PageRemoved(s, m, k0);
      forall k, l :: k in t.home && l in t.home && k != l ==>
        k in t.pages && l in t.pages && t.pages[k].ppn != t.pages[l].ppn
  {
    var t := PageRemoved(s, m, k0);
    forall k, l | k in t.home && l in t.home && k != l
      ensures k in t.pages && l in t.pages && t.pages[k].ppn != t.pages[l].ppn
    {
      RemovedDiffer(areas, s, managed, m, k0, k, l);
    }
  }

  lemma {:induction false} RemovedDiffer(areas: seq<MapArea>, s: Space, managed: set<nat>, m: seq<Frame>, k0: Key,
                                         k: Key, l: Key)
    requires Placed(areas, s, managed) && k0 in s.pages && k in s.home - {k0} && l in s.home - {k0} && k != l
    ensures var t := PageRemoved(s, m, k0); k in t.pages && l in t.pages && t.pages[k].ppn != t.pages[l].ppn
  {
    DifferentFrames(areas, s, managed, k, l);
  }

  lemma {:induction false} DataRemoved(areas: seq<MapArea>, s: Space, managed: set<nat>, m: seq<Frame>, k0: Key)
    requires Placed(areas, s, managed) && Dropped(s, m, k0)
    ensures DataFrames(PageRemoved(s, m, k0)) == DataFrames(s) - {s.pages[k0].ppn} && s.pages[k0].ppn in DataFrames(s)
  {
    var t := PageRemoved(s, m, k0);
    forall q ensures q in DataFrames(t) <==> q in DataFrames(s) - {s.pages[k0].ppn} {
      if q in DataFrames(t) {
        var k :| k in t.home && k in t.pages && t.pages[k].ppn == q;
        assert k in s.home && k in s.pages && s.pages[k].ppn == q;
        DifferentFrames(areas, s, managed, k, k0);
      }
      if q in DataFrames(s) - {s.pages[k0].ppn} {
        var k :| k in s.home && k in s.pages && s.pages[k].ppn == q;
        assert k in t.home && k in t.pages && t.pages[k].ppn == q;
      }
    }
  }

  lemma {:induction false} FrameReturns(f: set<nat>, v: set<nat>, data: set<nat>, p: nat)
    requires p in data
    ensures (f + {p}) + (v + (data - {p})) == f + (v + data)
  {
  }

  lemma {:induction false} PageRemovedKeeps(areas: seq<MapArea>, s: Space, managed: set<nat>, m: seq<Frame>, k0: Key)
    requires Placed(areas, s, managed) && Dropped(s, m, k0)
    ensures Keeps(s, PageRemoved(s, m, k0))
  {
    var p := s.pages[k0].ppn;
    DataRemoved(areas, s, managed, m, k0);
    FrameReturns(s.free, s.at.Values, DataFrames(s), p);
    KeysCut(s.home, k0);
    SlotOf(areas, s, managed, k0);
    assert |s.free + {p}| == |s.free| + 1;
    forall q | 0 <= q < |s.m| && q !in s.free && q !in Owned(s) ensures m[q] == s.m[q] {
      Outside(Stage(s.m, s.free + {p}, s.at), Stage(m, s.free + {p}, s.at), q);
    }
  }

  /** Unmapping one page removes that page and changes no other. */
  lemma {:induction false} PageRemovedRemoves(areas: seq<MapArea>, s: Space, managed: set<nat>, m: seq<Frame>, k0: Key)
    requires Placed(areas, s, managed) && Dropped(s, m, k0)
    ensures Removes(s, PageRemoved(s, m, k0), {k0})
  {
    var t := PageRemoved(s, m, k0);
    PageRemovedKeeps(areas, s, managed, m, k0);
    KeysCut(s.pages, k0);
    KeysCut(s.home, k0);
    forall k | k in s.pages && k !in {k0} ensures SamePage(s, t, k) {
      if k in s.home {
        RemainsPut(areas, s, managed, m, k0, k);
      }
    }
  }

  // ----- giving everything back

  predicate Before(slot: Slot, a: nat, vpn: nat) {
    slot.a < a || (slot.a == a && slot.vpn < vpn)
  }

  /** The frames of the pages in areas before a, and in area a of the pages before vpn. */
  ghost function FreedBy(s: Space, a: nat, vpn: nat): set<nat> {
    set k | k in s.home && k in s.pages && Before(s.home[k], a, vpn) :: s.pages[k].ppn
  }

  lemma {:induction false} InFreedBy(s: Space, a: nat, vpn: nat, k: Key)
    requires k in s.home && k in s.pages && Before(s.home[k], a, vpn)
    ensures s.pages[k].ppn in FreedBy(s, a, vpn)
  {
  }

  lemma {:induction false} FromFreedBy(s: Space, a: nat, vpn: nat, p: nat) returns (k: Key)
    requires p in FreedBy(s, a, vpn)
    ensures k in s.home && k in s.pages && Before(s.home[k], a, vpn) && s.pages[k].ppn == p
  {
    k :| k in s.home && k in s.pages && Before(s.home[k], a, vpn) && s.pages[k].ppn == p;
  }

  /** The next page of area a: its frame is not free yet, and afterwards exactly it is freed in addition. */
  lemma {:induction false} FreesPage(areas: seq<MapArea>, s: Space, managed: set<nat>, a: nat, vpn: nat)
    requires Placed(areas, s, managed) && a < |areas| && vpn in areas[a].frames
    ensures var p := areas[a].frames[vpn];
      && p in managed && p !in s.free && p !in FreedBy(s, a, vpn)
      && FreedBy(s, a, vpn + 1) == FreedBy(s, a, vpn) + {p}
  {
    PageOf(areas, s, managed, a, vpn);
    var k0, p := KeyOf(vpn), areas[a].frames[vpn];
    SlotOf(areas, s, managed, k0);
    if p in FreedBy(s, a, vpn) {
      var k := FromFreedBy(s, a, vpn, p);
      DifferentFrames(areas, s, managed, k, k0);
      assert false;
    }
    forall q ensures q in FreedBy(s, a, vpn + 1) <==> q in FreedBy(s, a, vpn) + {p} {
      if q in FreedBy(s, a, vpn + 1) {
        var k := FromFreedBy(s, a, vpn + 1, q);
        SlotOf(areas, s, managed, k);
        if Before(s.home[k], a, vpn) {
          InFreedBy(s, a, vpn, k);
        }
      }
      if q in FreedBy(s, a, vpn) {
        var k := FromFreedBy(s, a, vpn, q);
        InFreedBy(s, a, vpn + 1, k);
      }
      InFreedBy(s, a, vpn + 1, k0);
    }
  }

  lemma {:induction false} FreesNoPage(areas: seq<MapArea>, s: Space, managed: set<nat>, a: nat, vpn: nat)
    requires Placed(areas, s, managed) && a < |areas| && vpn !in areas[a].frames
    ensures FreedBy(s, a, vpn + 1) == FreedBy(s, a, vpn)
  {
    forall k | k in s.home ensures Before(s.home[k], a, vpn + 1) <==> Before(s.home[k], a, vpn) {
      SlotOf(areas, s, managed, k);
    }
  }

  /** All pages of an area lie in its range. */
  lemma {:induction false} FreesArea(areas: seq<MapArea>, s: Space, managed: set<nat>, a: nat, next: nat)
    requires Placed(areas, s, managed) && a < |areas|
    requires a + 1 < |areas| ==> next == areas[a + 1].start
    ensures FreedBy(s, a + 1, next) == FreedBy(s, a, areas[a].end)
  {
    forall k | k in s.home ensures Before(s.home[k], a + 1, next) <==> Before(s.home[k], a, areas[a].end) {
      SlotOf(areas, s, managed, k);
      PageOf(areas, s, managed, s.home[k].a, s.home[k].vpn);
    }
  }

  lemma {:induction false} FreesAll(areas: seq<MapArea>, s: Space, managed: set<nat>, vpn: nat)
    requires Placed(areas, s, managed)
    ensures FreedBy(s, |areas|, vpn) == DataFrames(s)
  {
    forall k | k in s.home ensures Before(s.home[k], |areas|, vpn) {
      SlotOf(areas, s, managed, k);
    }
  }

  lemma {:induction false} FreesNothing(areas: seq<MapArea>, s: Space, managed: set<nat>, first: nat)
    requires Placed(areas, s, managed) && (areas == [] || first == areas[0].start)
    ensures FreedBy(s, 0, first) == {}
  {
    forall k | k in s.home ensures !Before(s.home[k], 0, first) {
      SlotOf(areas, s, managed, k);
      PageOf(areas, s, managed, s.home[k].a, s.home[k].vpn);
    }
  }

  // ----- an area leaves the list

  ghost function MovedUp(slot: Slot, i: nat): Slot {
    if slot.a > i then Slot(slot.a - 1, slot.vpn) else slot
  }

  /** The areas behind number i have moved up by one. */
  ghost function Renumbered(s: Space, i: nat): Space {
    s.(home := map k | k in s.home :: MovedUp(s.home[k], i))
  }

  /** Taking an area without pages off the list changes no page. */
  lemma {:induction false} AreaLeaves(areas: seq<MapArea>, s: Space, managed: set<nat>, i: nat)
    requires Placed(areas, s, managed) && i < |areas| && areas[i].frames == map[]
    ensures Placed(Without(areas, i), Renumbered(s, i), managed)
  {
    var now, t := Without(areas, i), Renumbered(s, i);
    Mapped(areas, s, managed, TrampolineKey());
    forall a | 0 <= a < |now| ensures AreaOk(now[a]) {
      AreaOf(areas, s, managed, if a < i then a else a + 1);
    }
    forall k | k in t.home ensures SlotOk(now, t, k) && FrameOk(t, managed, k) {
      SlotMovesUp(areas, s, managed, i, k);
    }
    forall a, v | 0 <= a < |now| && v in now[a].frames ensures PageOk(now, t, a, v) {
      PageMovesUp(areas, s, managed, i, a, v);
    }
    forall k, l | k in t.home && l in t.home && k != l ensures t.pages[k].ppn != t.pages[l].ppn {
      DifferentFrames(areas, s, managed, k, l);
    }
  }

  lemma {:induction false} SlotMovesUp(areas: seq<MapArea>, s: Space, managed: set<nat>, i: nat, k: Key)
    requires Placed(areas, s, managed) && i < |areas| && areas[i].frames == map[] && k in s.home
    ensures SlotOk(Without(areas, i), Renumbered(s, i), k) && FrameOk(Renumbered(s, i), managed, k)
  {
    SlotOf(areas, s, managed, k);
    var Slot(a, v) := s.home[k];
    assert a != i;
    assert Without(areas, i)[MovedUp(s.home[k], i).a] == areas[a];
  }

  lemma {:induction false} PageMovesUp(areas: seq<MapArea>, s: Space, managed: set<nat>, i: nat, a: nat, v: nat)
    requires Placed(areas, s, managed) && i < |areas| && a < |Without(areas, i)| && v in Without(areas, i)[a].frames
    ensures PageOk(Without(areas, i), Renumbered(s, i), a, v)
  {
    var b := if a < i then a else a + 1;
    assert Without(areas, i)[a] == areas[b];
    PageOf(areas, s, managed, b, v);
  }

  lemma {:induction false} SameOwned(s: Space, i: nat)
    ensures Owned(Renumbered(s, i)) == Owned(s) && |Renumbered(s, i).home| == |s.home|
  {
    var t := Renumbered(s, i);
    assert t.home.Keys == s.home.Keys;
    assert DataFrames(t) == DataFrames(s);
  }

  /** Pages `keys` are gone; the others are where they were, with their contents, though areas may have moved up.
      Sealed. */
  ghost predicate Loses(s: Space, t: Space, keys: set<Key>) {
    forall j: nat {:trigger Open(j)} ::
      && Keeps(s, t) && t.pages.Keys == s.pages.Keys - keys && t.home.Keys == s.home.Keys - keys
      && (forall k :: k in s.pages && k !in keys ==> k in t.pages && t.pages[k] == s.pages[k])
      && (forall k :: k in s.home && k in s.pages && k !in keys ==>
            s.pages[k].ppn < |s.m| == |t.m| && t.m[s.pages[k].ppn] == s.m[s.pages[k].ppn])
  }

  lemma {:induction false} LosesArea(s: Space, u: Space, keys: set<Key>, i: nat)
    requires Removes(s, u, keys)
    ensures Loses(s, Renumbered(u, i), keys)
  {
    var t := Renumbered(u, i);
    RemovedKeys(s, u, keys);
    assert t.home.Keys == u.home.Keys;
    RenumberedKeeps(s, u, i);
    forall k | k in s.pages && k !in keys
      ensures k in t.pages && t.pages[k] == s.pages[k]
        && (k in s.home ==> s.pages[k].ppn < |s.m| == |t.m| && t.m[s.pages[k].ppn] == s.m[s.pages[k].ppn])
    {
      RemainingPage(s, u, keys, k);
    }
  }

  lemma {:induction false} RenumberedKeeps(s: Space, u: Space, i: nat)
    requires Keeps(s, u)
    ensures Keeps(s, Renumbered(u, i))
  {
    SameOwned(u, i);
    KeepsOpens(s, u);
  }
}
