/** Address spaces in memory: mapping, unmapping, copying and dropping the areas of a process. */
module MemorySets {
  import opened Basics
  import opened Frames
  import opened PageTree
  import opened PageTables
  import opened Spaces

  /** How mapping ends: done, no frame for a data page (-1), or a panic for want of a table frame. */
  datatype MapResult = Mapped | NoMemory | Panicked

  /** Taking a free frame does not disturb a table. */
  lemma {:induction false} TakingIsHarmless(m: seq<Frame>, root: nat, at: map<Node, nat>, pages: map<Key, Page>,
                                            frames: seq<nat>, free: set<nat>, managed: set<nat>, p: nat)
    requires Table(m, root, at, pages) && Kept(frames, at, free, managed) && p in free && p < |m|
    ensures Table(m[p := ZeroFrame()], root, at, pages) && Kept(frames, at, free - {p}, managed) && p !in at.Values
  {
    KeptOpens(frames, at, free, managed);
    forall n | n in at && at[n] < |m| ensures m[p := ZeroFrame()][at[n]] == m[at[n]] {
      assert at[n] in at.Values;
    }
    TableFrame(m, m[p := ZeroFrame()], root, at, pages);
  }

  class MemorySet {
    const table: PageTable
    var areas: seq<MapArea>
    ghost var home: map<Key, Slot>

    ghost function Now(mem: FrameMemory): Space
      reads this`home, table, mem
    {
      Space(mem.ram, mem.free, table.at, table.pages, home)
    }

    /** The space is sound when its areas are `all`; while an area is being mapped it is not in `areas` yet. */
    ghost predicate Fits(all: seq<MapArea>, mem: FrameMemory)
      reads this`home, table, mem
    {
      forall j: nat {:trigger Open(j)} :: table.Valid(mem) && Placed(all, Now(mem), mem.Managed())
    }

    lemma FitsOpens(all: seq<MapArea>, mem: FrameMemory)
      requires Fits(all, mem)
      ensures table.Valid(mem) && Placed(all, Now(mem), mem.Managed())
    {
      assert Open(0);
    }

    ghost predicate Valid(mem: FrameMemory)
      reads this, table, mem
    {
      Fits(areas, mem)
    }

    lemma MemoryIsValid(mem: FrameMemory)
      requires Valid(mem)
      ensures mem.Valid()
    {
      FitsOpens(areas, mem);
    }

    /** A space without areas over a table that maps the trampoline and nothing else. */
    constructor (table: PageTable, mem: FrameMemory)
      requires table.Valid(mem) && table.pages.Keys == {TrampolineKey()}
      ensures Valid(mem) && this.table == table && areas == [] && home == map[]
    {
      this.table := table;
      areas, home := [], map[];
    }

    /** MapArea::map_one on a framed area: a cleared frame for page vpn, and its entry in the table. */
    method MapOne(area: MapArea, vpn: nat, mem: FrameMemory) returns (r: MapResult, after: MapArea)
      requires Fits(areas + [area], mem) && area.start <= vpn < area.end && area.perm < 256 && area.perm % 2 == 0
      modifies this`home, table, mem
      ensures r == Mapped ==> KeyOf(vpn) !in old(table.pages)
      ensures r == Mapped ==> Fits(areas + [after], mem) && Adds(old(Now(mem)), Now(mem), {KeyOf(vpn)}, area.perm)
      ensures r == Mapped ==> table.at.Keys == old(table.at).Keys + Path(KeyOf(vpn))
      ensures r == Mapped ==>
        && after == area.(frames := after.frames) && vpn in after.frames
        && after.frames == area.frames[vpn := after.frames[vpn]]
      ensures r == NoMemory <==> old(mem.free) == {}
      ensures r == NoMemory ==> Fits(areas + [area], mem) && Now(mem) == old(Now(mem)) && after == area
      ensures r == Panicked ==> KeyOf(vpn) in old(table.pages) || |old(mem.free)| <= Missing(old(table.at), KeyOf(vpn))
    {
      ghost var s := Now(mem);
      FitsOpens(areas + [area], mem);
      after := area;
      var frame := mem.Alloc();
      if frame.None? {
        return NoMemory, area;
      }
      var p := frame.value;
      TakingIsHarmless(s.m, table.root, table.at, table.pages, table.frames, s.free, mem.Managed(), p);
      after := area.(frames := area.frames[vpn := p]);
      var ok := Enter(area, vpn, p, mem, s);
      r := if ok then Mapped else Panicked;
    }

    /** The second half of map_one: frame p of s, taken and cleared, becomes page vpn. */
    method Enter(area: MapArea, vpn: nat, p: nat, mem: FrameMemory, ghost s: Space) returns (ok: bool)
      requires table.Valid(mem) && Placed(areas + [area], s, mem.Managed()) && p in mem.Managed()
      requires p in s.free && p < |s.m| && p < PPN_LIMIT && p !in s.at.Values
      requires Now(mem) == s.(m := s.m[p := ZeroFrame()], free := s.free - {p})
      requires area.start <= vpn < area.end && area.perm < 256 && area.perm % 2 == 0
      modifies this`home, table, mem
      ensures ok ==> Fits(areas + [WithPage(area, vpn, p)], mem) && Adds(s, Now(mem), {KeyOf(vpn)}, area.perm)
      ensures ok ==> KeyOf(vpn) !in s.pages && table.at.Keys == s.at.Keys + Path(KeyOf(vpn))
      ensures !ok ==> KeyOf(vpn) in s.pages || |s.free| <= Missing(s.at, KeyOf(vpn))
    {
      ok := table.Map(vpn, p, area.perm, mem);
      if !ok {
        assert |s.free - {p}| == |s.free| - 1;
        return;
      }
      home := home[KeyOf(vpn) := Slot(|areas|, vpn)];
      ghost var t := Stage(mem.ram, mem.free, table.at);
      PageAddedAgrees(areas, area, s, mem.Managed(), t, vpn, p);
      PageAddedAdds(areas + [area], s, mem.Managed(), t, |areas|, vpn, p, area.perm);
    }
  
    /** One round of MapArea::map. */
    method MapNext(area: MapArea, before: MapArea, vpn: nat, mem: FrameMemory, ghost s: Space, ghost room: set<Node>)
      returns (r: MapResult, after: MapArea)
      requires Fits(areas + [before], mem) && AreaOk(area) && area.start <= vpn < area.end
      requires Reached(s, Now(mem), area, before, vpn, room) && Clear(s.pages, area.start, vpn)
      modifies this`home, table, mem
      ensures r == Mapped ==> Fits(areas + [after], mem) && Reached(s, Now(mem), area, after, vpn + 1, room)
      ensures r == Mapped ==> Clear(s.pages, area.start, vpn + 1)
      ensures r == NoMemory ==> Fits(areas + [after], mem) && Partly(s, Now(mem), area, after) && mem.free == {}
      ensures r != Mapped ==> Short(s, area, room) || (r == Panicked && KeyOf(vpn) in s.pages)
    {
      SameAsBefore(s, Now(mem), area, before, vpn, room);
      ghost var t := Now(mem);
      r, after := MapOne(before, vpn, mem);
      Progress(r, s, t, Now(mem), area, before, after, vpn, room);
    }

    lemma Begin(area: MapArea, mem: FrameMemory, room: set<Node>)
      requires Fits(areas + [area], mem) && area.frames == map[]
      ensures Reached(Now(mem), Now(mem), area, area, area.start, room)
    {
      FitsOpens(areas + [area], mem);
      StartAdding(areas + [area], Now(mem), mem.Managed(), area, room);
    }

    /** MapArea::map: every page of the range, in order, until a frame is missing or a key is mapped already. With
        enough free frames for the pages and for all nodes in `room`, only a mapped key stops it. */
    method MapAll(area: MapArea, mem: FrameMemory, ghost s: Space, ghost room: set<Node>)
      returns (r: MapResult, after: MapArea)
      requires Fits(areas + [area], mem) && AreaOk(area) && area.frames == map[] && s == Now(mem)
      modifies this`home, table, mem
      ensures r == Mapped ==> Fits(areas + [after], mem) && Reached(s, Now(mem), area, after, area.end, room)
      ensures r == Mapped ==> Clear(s.pages, area.start, area.end)
      ensures r == NoMemory ==> Fits(areas + [after], mem) && Partly(s, Now(mem), area, after) && mem.free == {}
      ensures r != Mapped ==> Short(s, area, room) || (r == Panicked && !Clear(s.pages, area.start, area.end))
    {
      after := area;
      Begin(area, mem, room);
      var vpn := area.start;
      while vpn < area.end
        invariant area.start <= vpn <= area.end && Clear(s.pages, area.start, vpn)
        invariant Fits(areas + [after], mem) && Reached(s, Now(mem), area, after, vpn, room)
      {
        r, after := MapNext(area, after, vpn, mem, s, room);
        if r != Mapped {
          NotClear(s.pages, area.start, area.end, vpn);
          return;
        }
        vpn := vpn + 1;
      }
      r := Mapped;
    }
  
    /** push: map the area, then keep it. When a data frame is missing, the part that was mapped is kept too. With
        frames for all pages and nodes, it panics exactly when a page of the range shares its key with a mapped one. */
    method Push(area: MapArea, mem: FrameMemory, ghost s: Space, ghost room: set<Node>) returns (r: MapResult)
      requires Valid(mem) && AreaOk(area) && area.frames == map[] && s == Now(mem)
      modifies this, table, mem
      ensures r != Panicked ==> Valid(mem) && |areas| == |old(areas)| + 1 && areas == old(areas) + [areas[|areas| - 1]]
      ensures r == Mapped ==> Reached(s, Now(mem), area, areas[|areas| - 1], area.end, room)
      ensures r == Mapped ==> Clear(s.pages, area.start, area.end)
      ensures r == NoMemory ==> Partly(s, Now(mem), area, areas[|areas| - 1]) && mem.free == {}
      ensures r != Mapped ==> Short(s, area, room) || (r == Panicked && !Clear(s.pages, area.start, area.end))
    {
      FitsEmpty(area, mem);
      var after: MapArea;
      r, after := MapAll(area, mem, s, room);
      areas := areas + [after];
    }

    /** MapArea::map_one on an identically mapped area: no frame is taken, the page is the frame of its number.
        False is a panic: the key is mapped already, or a node frame is missing. */
    method MapSelf(vpn: nat, perm: nat, mem: FrameMemory, ghost s: Space) returns (ok: bool)
      requires Valid(mem) && s == Now(mem) && Encodable(Page(vpn, perm))
      modifies table, mem
      ensures ok ==> Valid(mem) && KeyOf(vpn) !in s.pages && Lays(s, Now(mem), vpn, vpn + 1, perm)
      ensures ok ==> table.at.Keys == s.at.Keys + Path(KeyOf(vpn))
      ensures !ok ==> KeyOf(vpn) in s.pages || |s.free| < Missing(s.at, KeyOf(vpn))
    {
      FitsOpens(areas, mem);
      ok := table.Map(vpn, vpn, perm, mem);
      if ok {
        ghost var t := Stage(mem.ram, mem.free, table.at);
        SelfMappedAgrees(areas, s, mem.Managed(), t, vpn, perm);
        SelfMappedLays(areas, s, mem.Managed(), t, vpn, perm);
      }
    }

    /** One round of MapArea::map on an identically mapped area. */
    method MapSelfNext(area: MapArea, vpn: nat, mem: FrameMemory, ghost s: Space, ghost room: set<Node>)
      returns (ok: bool)
      requires Valid(mem) && AreaOk(area) && area.end <= PPN_LIMIT && area.start <= vpn < area.end
      requires LaidTo(s, Now(mem), area, vpn, room)
      modifies table, mem
      ensures ok ==> Valid(mem) && LaidTo(s, Now(mem), area, vpn + 1, room)
      ensures !ok ==> !Clear(s.pages, area.start, area.end) || (Roomy(s, area, room) ==> |s.free| + |s.at| < |room|)
    {
      ghost var t := Now(mem);
      ok := MapSelf(vpn, area.perm, mem, t);
      if ok {
        LaidOn(s, t, Now(mem), area, vpn, room);
      } else {
        LaidStops(s, t, area, vpn, room);
      }
    }

    lemma BeginIdentical(area: MapArea, mem: FrameMemory, room: set<Node>)
      requires Valid(mem)
      ensures LaidTo(Now(mem), Now(mem), area, area.start, room)
    {
      FitsOpens(areas, mem);
      LaysNone(areas, Now(mem), mem.Managed(), area.start, area.perm);
      if Roomy(Now(mem), area, room) {
        RoomyOpens(Now(mem), area, room);
      }
    }

    /** push of an identically mapped area, as the kernel does for its sections, physical memory and devices. */
    method PushIdentical(area: MapArea, mem: FrameMemory, ghost s: Space, ghost room: set<Node>) returns (ok: bool)
      requires Valid(mem) && s == Now(mem) && AreaOk(area) && area.frames == map[] && area.end <= PPN_LIMIT
      modifies this, table, mem
      ensures ok ==> Valid(mem) && areas == old(areas) + [area] && Lays(s, Now(mem), area.start, area.end, area.perm)
      ensures ok ==> Clear(s.pages, area.start, area.end)
      ensures !ok ==> !Clear(s.pages, area.start, area.end) || (Roomy(s, area, room) ==> |s.free| + |s.at| < |room|)
    {
      BeginIdentical(area, mem, room);
      var vpn := area.start;
      while vpn < area.end
        invariant area.start <= vpn <= area.end && Valid(mem) && areas == old(areas)
        invariant LaidTo(s, Now(mem), area, vpn, room)
      {
        ok := MapSelfNext(area, vpn, mem, s, room);
        if !ok {
          return;
        }
        vpn := vpn + 1;
      }
      LaidToOpens(s, Now(mem), area, area.end, room);
      FitsEmpty(area, mem);
      areas := areas + [area];
      ok := true;
    }

    lemma FitsEmpty(area: MapArea, mem: FrameMemory)
      requires Fits(areas, mem) && area.frames == map[] && AreaOk(area)
      ensures Fits(areas + [area], mem)
    {
      FitsOpens(areas, mem);
      EmptyArea(areas, area, Now(mem), mem.Managed());
    }

    /** have_mapped: some area holds a frame for the page. */
    method HaveMapped(vpn: nat, mem: FrameMemory) returns (b: bool)
      requires Valid(mem)
      ensures b == Has(home, vpn)
    {
      FitsOpens(areas, mem);
      var a := 0;
      while a < |areas|
        invariant a <= |areas| && forall i :: 0 <= i < a ==> vpn !in areas[i].frames
      {
        if vpn in areas[a].frames {
          PageOf(areas, Now(mem), mem.Managed(), a, vpn);
          return true;
        }
        a := a + 1;
      }
      NowhereMapped(areas, Now(mem), mem.Managed(), vpn);
      b := false;
    }

    /** frames_used: the lengths of the ranges, whether their pages are still mapped or not. */
    method FramesUsed() returns (frames: int)
      ensures frames == RangeTotal(areas)
    {
      frames := 0;
      var a := 0;
      while a < |areas|
        invariant a <= |areas| && frames == RangeTotal(areas[..a])
      {
        assert areas[..a + 1][..a] == areas[..a];
        frames := frames + areas[a].end - areas[a].start;
        a := a + 1;
      }
      assert areas[..a] == areas;
    }

    /** MapArea::unmap_one on area a: the frame is dropped, which returns it, and the entry is cleared. */
    method UnmapOne(a: nat, vpn: nat, mem: FrameMemory, ghost s: Space)
      requires Valid(mem) && a < |areas| && vpn in areas[a].frames && s == Now(mem)
      modifies this, table, mem
      ensures Valid(mem) && areas == WithoutPage(old(areas), a, vpn) && Removes(s, Now(mem), {KeyOf(vpn)})
    {
      FitsOpens(areas, mem);
      ghost var k := KeyOf(vpn);
      PageOf(areas, s, mem.Managed(), a, vpn);
      SlotOf(areas, s, mem.Managed(), k);
      var p := areas[a].frames[vpn];
      areas := areas[a := areas[a].(frames := areas[a].frames - {vpn})];
      DroppingIsHarmless(table.frames, table.at, s.free, mem.Managed(), p);
      mem.Dealloc(p);
      table.Unmap(vpn, mem);
      home := home - {k};
      PageRemovedAgrees(old(areas), s, mem.Managed(), mem.ram, a, vpn);
      PageRemovedRemoves(old(areas), s, mem.Managed(), mem.ram, k);
    }
  
    lemma UnmapNone(mem: FrameMemory)
      requires Valid(mem)
      ensures Removes(Now(mem), Now(mem), {}) && home.Keys <= table.pages.Keys
    {
      FitsOpens(areas, mem);
      RemovesNone(areas, Now(mem), mem.Managed());
      HomeIsMapped(areas, Now(mem), mem.Managed());
    }

    lemma HasPage(a: nat, vpn: nat, mem: FrameMemory)
      requires Valid(mem) && a < |areas| && vpn in areas[a].frames
      ensures Has(home, vpn)
    {
      FitsOpens(areas, mem);
      PageOf(areas, Now(mem), mem.Managed(), a, vpn);
    }

    lemma HasNoPage(vpn: nat, mem: FrameMemory)
      requires Valid(mem) && forall i :: 0 <= i < |areas| ==> vpn !in areas[i].frames
      ensures !Has(home, vpn)
    {
      FitsOpens(areas, mem);
      NowhereMapped(areas, Now(mem), mem.Managed(), vpn);
    }

    /** The inner loop of unmap: whichever area has the page gives it up. */
    method UnmapPage(vpn: nat, mem: FrameMemory, ghost s: Space, ghost first: seq<MapArea>)
      requires Valid(mem) && s == Now(mem) && SameExtents(first, areas)
      modifies this, table, mem
      ensures Valid(mem) && Removes(s, Now(mem), MappedKey(s.home, vpn)) && SameExtents(first, areas)
    {
      UnmapNone(mem);
      ghost var gone := false;
      var a := 0;
      while a < |areas|
        invariant a <= |areas| && Valid(mem) && forall i :: 0 <= i < a ==> vpn !in areas[i].frames
        invariant SameExtents(first, areas)
        invariant !gone ==> Now(mem) == s
        invariant gone ==> Has(s.home, vpn) && !Has(home, vpn) && Removes(s, Now(mem), {KeyOf(vpn)})
      {
        if vpn in areas[a].frames {
          HasPage(a, vpn, mem);
          ExtentsOn(first, areas, a, vpn);
          UnmapOne(a, vpn, mem, Now(mem));
          RemovedKeys(s, Now(mem), {KeyOf(vpn)});
          gone := true;
        }
        a := a + 1;
      }
      HasNoPage(vpn, mem);
    }

    /** One round of unmap. */
    method UnmapNext(lo: nat, vpn: nat, mem: FrameMemory, ghost s: Space, ghost first: seq<MapArea>)
      requires Valid(mem) && lo <= vpn && Removes(s, Now(mem), MappedKeys(s.home, lo, vpn))
      requires s.home.Keys <= s.pages.Keys && SameExtents(first, areas)
      modifies this, table, mem
      ensures Valid(mem) && Removes(s, Now(mem), MappedKeys(s.home, lo, vpn + 1)) && SameExtents(first, areas)
    {
      ghost var t := Now(mem);
      StillHas(s, t, lo, vpn);
      UnmapPage(vpn, mem, t, first);
      RemovesOn(s, t, Now(mem), MappedKeys(s.home, lo, vpn), MappedKey(s.home, vpn));
    }

    /** MemorySet::unmap: exactly the mapped pages of the range are removed. */
    method UnmapRange(lo: nat, hi: nat, mem: FrameMemory, ghost s: Space)
      requires Valid(mem) && s == Now(mem) && lo <= hi
      modifies this, table, mem
      ensures Valid(mem) && Removes(s, Now(mem), MappedKeys(s.home, lo, hi)) && SameExtents(old(areas), areas)
    {
      UnmapNone(mem);
      ExtentsStay(areas);
      var vpn := lo;
      while vpn < hi
        invariant lo <= vpn <= hi && Valid(mem) && Removes(s, Now(mem), MappedKeys(s.home, lo, vpn))
        invariant SameExtents(old(areas), areas)
      {
        UnmapNext(lo, vpn, mem, s, old(areas));
        vpn := vpn + 1;
      }
    }
  
    /** Dropping area a: each of its frames goes back to the allocator. */
    method DropArea(a: nat, mem: FrameMemory, ghost s: Space)
      requires mem.Valid() && Placed(areas, s, mem.Managed()) && a < |areas|
      requires mem.free == s.free + FreedBy(s, a, areas[a].start)
      modifies mem`recycled, mem`free
      ensures mem.Valid() && mem.free == s.free + FreedBy(s, a, areas[a].end)
    {
      AreaOf(areas, s, mem.Managed(), a);
      var vpn := areas[a].start;
      while vpn < areas[a].end
        invariant areas[a].start <= vpn <= areas[a].end && mem.Valid() && mem.free == s.free + FreedBy(s, a, vpn)
      {
        if vpn in areas[a].frames {
          FreesPage(areas, s, mem.Managed(), a, vpn);
          mem.Dealloc(areas[a].frames[vpn]);
        } else {
          FreesNoPage(areas, s, mem.Managed(), a, vpn);
        }
        vpn := vpn + 1;
      }
    }

    /** recycle_data_pages: all areas are dropped. Their frames, and no others, become free; the table keeps its
        own frames (and its now meaningless entries). */
    method RecycleDataPages(mem: FrameMemory, ghost s: Space)
      requires Valid(mem) && s == Now(mem)
      modifies this`areas, this`home, mem`recycled, mem`free
      ensures areas == [] && home == map[] && mem.Valid() && mem.free == s.free + DataFrames(s) && table.Valid(mem)
    {
      FitsOpens(areas, mem);
      ghost var managed := mem.Managed();
      var a := 0;
      FreesNothing(areas, s, managed, if |areas| > 0 then areas[0].start else 0);
      while a < |areas|
        invariant a <= |areas| && mem.Valid()
        invariant mem.free == s.free + FreedBy(s, a, if a < |areas| then areas[a].start else 0)
        modifies mem`recycled, mem`free
      {
        DropArea(a, mem, s);
        FreesArea(areas, s, managed, a, if a + 1 < |areas| then areas[a + 1].start else 0);
        a := a + 1;
      }
      FreesAll(areas, s, managed, 0);
      KeptWithout(areas, s, managed, table.frames);
      areas, home := [], map[];
    }

    /** Dropping the page table: the frames of all nodes go back. */
    method DropTable(mem: FrameMemory)
      requires table.Valid(mem)
      modifies mem`recycled, mem`free
      ensures mem.Valid() && mem.free == old(mem.free) + table.at.Values
    {
      KeptOpens(table.frames, table.at, mem.free, mem.Managed());
      var i := 0;
      assert Elements(table.frames[..0]) == {};
      while i < |table.frames|
        invariant i <= |table.frames| && mem.Valid() && mem.free == old(mem.free) + Elements(table.frames[..i])
      {
        NextFrame(table.frames, i);
        mem.Dealloc(table.frames[i]);
        i := i + 1;
      }
      assert table.frames[..i] == table.frames;
    }

    /** Dropping the whole space: every frame it owned is free again, and no other changed. */
    method Drop(mem: FrameMemory, ghost s: Space)
      requires Valid(mem) && s == Now(mem)
      modifies this`areas, this`home, mem`recycled, mem`free
      ensures mem.Valid() && mem.free == s.free + Owned(s)
    {
      RecycleDataPages(mem, s);
      DropTable(mem);
    }
  
    /** Area a, whose range is lo..hi, has given up its pages before vpn, and nothing else has changed since s.
        Sealed. */
    ghost predicate GivenUp(before: seq<MapArea>, a: nat, lo: nat, vpn: nat, hi: nat, mem: FrameMemory, s: Space)
      reads this, table, mem
    {
      forall j: nat {:trigger Open(j)} ::
        Valid(mem) && a < |areas| && Emptying(before, areas, a, vpn, hi) && Removes(s, Now(mem), KeysFrom(lo, vpn))
    }

    lemma GivenUpOpens(before: seq<MapArea>, a: nat, lo: nat, vpn: nat, hi: nat, mem: FrameMemory, s: Space)
      requires GivenUp(before, a, lo, vpn, hi, mem, s)
      ensures Valid(mem) && a < |areas| && Emptying(before, areas, a, vpn, hi)
      ensures Removes(s, Now(mem), KeysFrom(lo, vpn))
    {
      assert Open(0);
    }

    /** One round of MapArea::unmap. */
    method UnmapAreaNext(a: nat, lo: nat, vpn: nat, hi: nat, mem: FrameMemory, ghost s: Space,
                         ghost before: seq<MapArea>)
      requires lo <= vpn < hi && GivenUp(before, a, lo, vpn, hi, mem, s)
      modifies this, table, mem
      ensures GivenUp(before, a, lo, vpn + 1, hi, mem, s)
    {
      GivenUpOpens(before, a, lo, vpn, hi, mem, s);
      ghost var t := Now(mem);
      EmptiesNext(before, areas, a, vpn, hi);
      UnmapOne(a, vpn, mem, t);
      RemovesOn(s, t, Now(mem), KeysFrom(lo, vpn), {KeyOf(vpn)});
      KeysNext(lo, vpn);
    }

    lemma StartsFull(a: nat, mem: FrameMemory)
      requires Valid(mem) && a < |areas| && Full(areas[a])
      ensures areas[a].start <= areas[a].end
      ensures GivenUp(areas, a, areas[a].start, areas[a].start, areas[a].end, mem, Now(mem))
    {
      FitsOpens(areas, mem);
      AreaOf(areas, Now(mem), mem.Managed(), a);
      forall v | v in areas[a].frames ensures areas[a].start <= v < areas[a].end {
        PageOf(areas, Now(mem), mem.Managed(), a, v);
      }
      UnmapNone(mem);
      assert KeysFrom(areas[a].start, areas[a].start) == {};
    }

    /** MapArea::unmap on area a, all of whose pages are mapped. */
    method UnmapArea(a: nat, mem: FrameMemory, ghost s: Space)
      requires Valid(mem) && a < |areas| && s == Now(mem) && Full(areas[a])
      modifies this, table, mem
      ensures GivenUp(old(areas), a, old(areas)[a].start, old(areas)[a].end, old(areas)[a].end, mem, s)
    {
      StartsFull(a, mem);
      var lo, hi := areas[a].start, areas[a].end;
      var vpn := lo;
      while vpn < hi
        invariant lo <= vpn <= hi && GivenUp(old(areas), a, lo, vpn, hi, mem, s)
      {
        UnmapAreaNext(a, lo, vpn, hi, mem, s, old(areas));
        vpn := vpn + 1;
      }
    }

    /** remove_area_with_start_vpn: the first area that starts there goes, with exactly its pages and their frames. */
    method RemoveArea(start: nat, mem: FrameMemory, ghost s: Space) returns (a: nat)
      requires Valid(mem) && s == Now(mem)
      requires forall b :: 0 <= b < |areas| && areas[b].start == start ==> Full(areas[b])
      modifies this, table, mem
      ensures Valid(mem) && a <= |old(areas)| && forall b :: 0 <= b < a ==> old(areas)[b].start != start
      ensures a == |old(areas)| ==> Now(mem) == s && areas == old(areas)
      ensures a < |old(areas)| ==> old(areas)[a].start == start && areas == Without(old(areas), a)
      ensures a < |old(areas)| ==> Loses(s, Now(mem), KeysFrom(start, old(areas)[a].end))
    {
      a := 0;
      while a < |areas| && areas[a].start != start
        invariant a <= |areas| && forall b :: 0 <= b < a ==> areas[b].start != start
      {
        a := a + 1;
      }
      if a < |areas| {
        UnmapArea(a, mem, s);
        GivenUpOpens(old(areas), a, start, old(areas)[a].end, old(areas)[a].end, mem, s);
        Emptied(old(areas), areas, a, old(areas)[a].end);
        ghost var u := Now(mem);
        TakeOff(a, mem);
        LosesArea(s, u, KeysFrom(start, old(areas)[a].end), a);
        assert areas == Without(old(areas), a);
      }
    }

    /** areas.remove(a) on an area that has given up its pages. */
    method TakeOff(a: nat, mem: FrameMemory)
      requires Valid(mem) && a < |areas| && areas[a].frames == map[]
      modifies this
      ensures Valid(mem) && areas == Without(old(areas), a) && Now(mem) == Renumbered(old(Now(mem)), a)
    {
      FitsOpens(areas, mem);
      AreaLeaves(areas, Now(mem), mem.Managed(), a);
      home := Renumbered(Now(mem), a).home;
      areas := areas[..a] + areas[a + 1..];
    }
  }

  /** Area a still has its pages from vpn to hi and no others; all other areas are as they were. Sealed. */
  ghost predicate Emptying(before: seq<MapArea>, areas: seq<MapArea>, a: nat, vpn: nat, hi: nat) {
    forall j: nat {:trigger Open(j)} ::
      && a < |areas| == |before| && (forall v :: v in areas[a].frames <==> vpn <= v < hi)
      && forall b :: 0 <= b < |areas| && b != a ==> areas[b] == before[b]
  }

  lemma {:induction false} EmptiesNext(before: seq<MapArea>, areas: seq<MapArea>, a: nat, vpn: nat, hi: nat)
    requires a < |areas| && Emptying(before, areas, a, vpn, hi) && vpn < hi
    ensures vpn in areas[a].frames && Emptying(before, WithoutPage(areas, a, vpn), a, vpn + 1, hi)
  {
    assert Open(0);
    assert vpn in areas[a].frames;
  }

  lemma {:induction false} Emptied(before: seq<MapArea>, areas: seq<MapArea>, a: nat, hi: nat)
    requires a < |before| && Emptying(before, areas, a, hi, hi)
    ensures |areas| == |before| && areas[a].frames == map[]
    ensures forall b :: 0 <= b < |areas| && b != a ==> areas[b] == before[b]
  {
    assert Open(0);
    assert areas[a].frames.Keys == {};
  }

  /** The lengths of all ranges together. */
  function RangeTotal(areas: seq<MapArea>): int {
    if areas == [] then 0
    else RangeTotal(areas[..|areas| - 1]) + areas[|areas| - 1].end - areas[|areas| - 1].start
  }

  /** Every page of the area's range is mapped, as long as nothing of it was unmapped. */
  predicate Full(area: MapArea) {
    forall v :: area.start <= v < area.end ==> v in area.frames
  }

  lemma {:induction false} NextFrame(frames: seq<nat>, i: nat)
    requires Distinct(frames) && i < |frames|
    ensures frames[i] in Elements(frames) && frames[i] !in Elements(frames[..i])
    ensures Elements(frames[..i + 1]) == Elements(frames[..i]) + {frames[i]}
  {
    ElementsPush(frames[..i], frames[i]);
    assert frames[..i + 1] == frames[..i] + [frames[i]];
  }

  /** Freeing the data frames leaves the table's frames as they are. */
  lemma {:induction false} KeptWithout(areas: seq<MapArea>, s: Space, managed: set<nat>, frames: seq<nat>)
    requires Placed(areas, s, managed) && Kept(frames, s.at, s.free, managed)
    ensures Kept(frames, s.at, s.free + DataFrames(s), managed)
  {
    KeptOpens(frames, s.at, s.free, managed);
    forall p | p in DataFrames(s) ensures p !in s.at.Values {
      var k :| k in s.home && k in s.pages && s.pages[k].ppn == p;
      SlotOf(areas, s, managed, k);
    }
  }

  /** The keys of the pages lo..hi that are mapped under their own page number. */
  ghost function MappedKeys(home: map<Key, Slot>, lo: nat, hi: nat): set<Key> {
    if hi <= lo then {} else MappedKeys(home, lo, hi - 1) + MappedKey(home, hi - 1)
  }

  ghost function MappedKey(home: map<Key, Slot>, vpn: nat): set<Key> {
    if Has(home, vpn) then {KeyOf(vpn)} else {}
  }

  lemma {:induction false} MappedBelow(home: map<Key, Slot>, lo: nat, hi: nat, k: Key)
    requires k in MappedKeys(home, lo, hi)
    ensures k in home && lo <= home[k].vpn < hi
  {
    if k in MappedKeys(home, lo, hi - 1) {
      MappedBelow(home, lo, hi - 1, k);
    }
  }

  lemma {:induction false} AllMapped(home: map<Key, Slot>, lo: nat, hi: nat)
    requires forall v :: lo <= v < hi ==> Has(home, v)
    ensures MappedKeys(home, lo, hi) == KeysFrom(lo, hi)
  {
    if lo < hi {
      AllMapped(home, lo, hi - 1);
      assert Has(home, hi - 1);
    }
  }

  /** Removing the pages below vpn does not change whether vpn is mapped. */
  lemma {:induction false} StillHas(s: Space, t: Space, lo: nat, vpn: nat)
    requires Removes(s, t, MappedKeys(s.home, lo, vpn)) && s.home.Keys <= s.pages.Keys
    ensures Has(t.home, vpn) <==> Has(s.home, vpn)
  {
    var keys := MappedKeys(s.home, lo, vpn);
    var k := KeyOf(vpn);
    RemovedKeys(s, t, keys);
    if k in keys {
      MappedBelow(s.home, lo, vpn, k);
    } else if k in s.home {
      assert k in s.pages;
      RemainingPage(s, t, keys, k);
    }
  }

  lemma {:induction false} HomeIsMapped(areas: seq<MapArea>, s: Space, managed: set<nat>)
    requires Placed(areas, s, managed)
    ensures s.home.Keys <= s.pages.Keys
  {
    forall k | k in s.home ensures k in s.pages {
      SlotOf(areas, s, managed, k);
    }
  }

  /** The page is mapped by an area under this very page number. */
  ghost predicate Has(home: map<Key, Slot>, vpn: nat) {
    KeyOf(vpn) in home && home[KeyOf(vpn)].vpn == vpn
  }

  lemma {:induction false} NowhereMapped(areas: seq<MapArea>, s: Space, managed: set<nat>, vpn: nat)
    requires Placed(areas, s, managed) && forall i :: 0 <= i < |areas| ==> vpn !in areas[i].frames
    ensures !Has(s.home, vpn)
  {
    if KeyOf(vpn) in s.home {
      SlotOf(areas, s, managed, KeyOf(vpn));
    }
  }

  lemma {:induction false} DroppingIsHarmless(frames: seq<nat>, at: map<Node, nat>, free: set<nat>,
                                              managed: set<nat>, p: nat)
    requires Kept(frames, at, free, managed) && p !in at.Values
    ensures Kept(frames, at, free + {p}, managed)
  {
    KeptOpens(frames, at, free, managed);
  }

  /** `room` holds the nodes of the table and those the area needs. */
  ghost predicate Roomy(s: Space, area: MapArea, room: set<Node>) {
    forall j: nat {:trigger Open(j)} :: s.at.Keys <= room && Covers(room, area.start, area.end)
  }

  lemma {:induction false} RoomyOpens(s: Space, area: MapArea, room: set<Node>)
    requires Roomy(s, area, room)
    ensures s.at.Keys <= room && Covers(room, area.start, area.end)
  {
    assert Open(0);
  }

  /** How far mapping came: pages start..vpn of the area are there, and no node outside `room`. Sealed. */
  ghost predicate Reached(s: Space, t: Space, area: MapArea, after: MapArea, vpn: nat, room: set<Node>) {
    forall j: nat {:trigger Open(j)} ::
      && after == area.(frames := after.frames) && (forall v :: v in after.frames <==> area.start <= v < vpn)
      && Adds(s, t, KeysFrom(area.start, vpn), area.perm)
      && (Roomy(s, area, room) ==> t.at.Keys <= room)
  }

  /** Too few frames are free for the pages of the area and the nodes in `room`. Sealed. */
  ghost predicate Short(s: Space, area: MapArea, room: set<Node>) {
    forall j: nat {:trigger Open(j)} ::
      Roomy(s, area, room) ==> |s.free| + |s.at| < |room| + (area.end - area.start)
  }

  /** Some first pages of the area were added before a frame was missing. Sealed. */
  ghost predicate Partly(s: Space, t: Space, area: MapArea, after: MapArea) {
    forall j: nat {:trigger Open(j)} ::
      && after == area.(frames := after.frames)
      && exists upto: nat :: Adds(s, t, KeysFrom(area.start, upto), area.perm)
  }

  lemma {:induction false} ReachedOpens(s: Space, t: Space, area: MapArea, after: MapArea, vpn: nat, room: set<Node>)
    requires Reached(s, t, area, after, vpn, room)
    ensures after == area.(frames := after.frames) && forall v :: v in after.frames <==> area.start <= v < vpn
    ensures Adds(s, t, KeysFrom(area.start, vpn), area.perm)
    ensures Roomy(s, area, room) ==> t.at.Keys <= room
  {
    assert Open(0);
  }

  /** No page lo..hi has the key of a mapped page. Sealed. */
  ghost predicate Clear(pages: map<Key, Page>, lo: nat, hi: nat) {
    forall j: nat {:trigger Open(j)} :: forall v :: lo <= v < hi ==> KeyOf(v) !in pages
  }

  lemma {:induction false} ClearAt(pages: map<Key, Page>, lo: nat, hi: nat, v: nat)
    requires Clear(pages, lo, hi) && lo <= v < hi
    ensures KeyOf(v) !in pages
  {
    assert Open(0);
  }

  lemma {:induction false} ClearNext(pages: map<Key, Page>, lo: nat, v: nat)
    requires Clear(pages, lo, v) && lo <= v && KeyOf(v) !in pages
    ensures Clear(pages, lo, v + 1)
  {
    forall w | lo <= w < v + 1 ensures KeyOf(w) !in pages {
      if w < v {
        ClearAt(pages, lo, v, w);
      }
    }
  }

  lemma {:induction false} NotClear(pages: map<Key, Page>, lo: nat, hi: nat, v: nat)
    requires lo <= v < hi
    ensures KeyOf(v) in pages ==> !Clear(pages, lo, hi)
  {
    if Clear(pages, lo, hi) {
      ClearAt(pages, lo, hi, v);
    }
  }

  /** How far an identically mapped area has come. Sealed. */
  ghost predicate LaidTo(s: Space, t: Space, area: MapArea, vpn: nat, room: set<Node>) {
    forall j: nat {:trigger Open(j)} ::
      && Lays(s, t, area.start, vpn, area.perm) && Clear(s.pages, area.start, vpn)
      && (Roomy(s, area, room) ==> t.at.Keys <= room)
  }

  lemma {:induction false} LaidToOpens(s: Space, t: Space, area: MapArea, vpn: nat, room: set<Node>)
    requires LaidTo(s, t, area, vpn, room)
    ensures Lays(s, t, area.start, vpn, area.perm) && Clear(s.pages, area.start, vpn)
    ensures Roomy(s, area, room) ==> t.at.Keys <= room
  {
    assert Open(0);
  }

  lemma {:induction false} LaidOn(s: Space, t: Space, u: Space, area: MapArea, vpn: nat, room: set<Node>)
    requires area.start <= vpn < area.end && LaidTo(s, t, area, vpn, room)
    requires KeyOf(vpn) !in t.pages && Lays(t, u, vpn, vpn + 1, area.perm)
    requires u.at.Keys == t.at.Keys + Path(KeyOf(vpn))
    ensures LaidTo(s, u, area, vpn + 1, room)
  {
    LaidToOpens(s, t, area, vpn, room);
    LaidKeys(s, t, area.start, vpn, area.perm);
    ClearNext(s.pages, area.start, vpn);
    LaysNext(s, t, u, area.start, vpn, area.perm);
    if Roomy(s, area, room) {
      RoomyOpens(s, area, room);
    }
  }

  lemma {:induction false} LaidStops(s: Space, t: Space, area: MapArea, vpn: nat, room: set<Node>)
    requires AreaOk(area) && area.start <= vpn < area.end && LaidTo(s, t, area, vpn, room)
    requires KeyOf(vpn) in t.pages || |t.free| < Missing(t.at, KeyOf(vpn))
    ensures !Clear(s.pages, area.start, area.end) || (Roomy(s, area, room) ==> |s.free| + |s.at| < |room|)
  {
    LaidToOpens(s, t, area, vpn, room);
    LaidKeys(s, t, area.start, vpn, area.perm);
    NotClear(s.pages, area.start, area.end, vpn);
    KeyIsNew(area.start, vpn);
    if Roomy(s, area, room) && KeyOf(vpn) !in t.pages {
      RoomyOpens(s, area, room);
      MissingFits(t.at, room, KeyOf(vpn));
      KeepsOpens(s, t);
    }
  }

  lemma {:induction false} StartAdding(areas: seq<MapArea>, s: Space, managed: set<nat>, area: MapArea, room: set<Node>)
    requires Placed(areas, s, managed) && area.frames == map[]
    ensures Reached(s, s, area, area, area.start, room)
  {
    assert KeysFrom(area.start, area.start) == {};
    forall k | k in s.home && k in s.pages ensures s.pages[k].ppn < |s.m| {
      SlotOf(areas, s, managed, k);
    }
    AddsNone(s, area.perm);
    if Roomy(s, area, room) {
      RoomyOpens(s, area, room);
    }
  }

  /** The pages mapped so far did not take the key of the next one. */
  lemma {:induction false} SameAsBefore(s: Space, t: Space, area: MapArea, after: MapArea, vpn: nat, room: set<Node>)
    requires AreaOk(area) && area.start <= vpn < area.end && Reached(s, t, area, after, vpn, room)
    ensures KeyOf(vpn) in t.pages <==> KeyOf(vpn) in s.pages
    ensures after == area.(frames := after.frames)
  {
    ReachedOpens(s, t, area, after, vpn, room);
    AddedKeys(s, t, KeysFrom(area.start, vpn), area.perm);
    KeyIsNew(area.start, vpn);
  }

  lemma {:induction false} AddsNext(s: Space, t: Space, u: Space, area: MapArea, before: MapArea, after: MapArea,
                                    vpn: nat, next: nat, room: set<Node>)
    requires area.start <= vpn < area.end && next == vpn + 1 && Reached(s, t, area, before, vpn, room)
    requires Adds(t, u, {KeyOf(vpn)}, area.perm) && u.at.Keys == t.at.Keys + Path(KeyOf(vpn))
    requires after == before.(frames := after.frames)
    requires (forall v :: v in after.frames <==> v == vpn || v in before.frames)
    ensures Reached(s, u, area, after, next, room)
  {
    ReachedOpens(s, t, area, before, vpn, room);
    if Roomy(s, area, room) {
      RoomyOpens(s, area, room);
    }
    KeysNext(area.start, vpn);
    AddsOn(s, t, u, KeysFrom(area.start, vpn), {KeyOf(vpn)}, area.perm);
  }

  /** What one more page, or its failure, means for the area. */
  lemma {:induction false} Progress(r: MapResult, s: Space, t: Space, u: Space, area: MapArea, before: MapArea,
                                    after: MapArea, vpn: nat, room: set<Node>)
    requires area.start <= vpn < area.end && Reached(s, t, area, before, vpn, room) && Clear(s.pages, area.start, vpn)
    requires KeyOf(vpn) in t.pages <==> KeyOf(vpn) in s.pages
    requires r == Mapped ==> KeyOf(vpn) !in t.pages && Adds(t, u, {KeyOf(vpn)}, area.perm)
    requires r == Mapped ==> u.at.Keys == t.at.Keys + Path(KeyOf(vpn)) && after == before.(frames := after.frames)
    requires r == Mapped ==> vpn in after.frames && after.frames == before.frames[vpn := after.frames[vpn]]
    requires r == NoMemory ==> t.free == {} && u == t && after == before
    requires r == Panicked ==> KeyOf(vpn) in t.pages || |t.free| <= Missing(t.at, KeyOf(vpn))
    ensures r == Mapped ==> Reached(s, u, area, after, vpn + 1, room) && Clear(s.pages, area.start, vpn + 1)
    ensures r == NoMemory ==> Partly(s, u, area, after)
    ensures r != Mapped ==> Short(s, area, room) || (r == Panicked && KeyOf(vpn) in s.pages)
  {
    if r == Mapped {
      ClearNext(s.pages, area.start, vpn);
      AddsNext(s, t, u, area, before, after, vpn, vpn + 1, room);
    } else if r == NoMemory || KeyOf(vpn) !in s.pages {
      Stops(s, t, area, before, vpn, room);
    }
  }

  lemma {:induction false} Stops(s: Space, t: Space, area: MapArea, after: MapArea, vpn: nat, room: set<Node>)
    requires area.start <= vpn < area.end && Reached(s, t, area, after, vpn, room)
    requires |t.free| <= Missing(t.at, KeyOf(vpn))
    ensures Short(s, area, room)
    ensures Partly(s, t, area, after)
  {
    ReachedOpens(s, t, area, after, vpn, room);
    if Roomy(s, area, room) {
      RoomyOpens(s, area, room);
      KeysCount(area.start, vpn);
      StopsForWant(s, t, KeysFrom(area.start, vpn), area.perm, room, KeyOf(vpn));
    }
  }
}
