/** mmap and munmap on the memory set of the current process. */
module Mmap {
  import opened Basics
  import opened Frames
  import opened PageTree
  import opened PageTables
  import opened Spaces
  import opened MemorySets

  // ----- how many table nodes a range of pages needs

  function LeafNode(q: nat): Node {
    Child(Child(Root, q / 512 % 512), q % 512)
  }

  function MidNode(r: nat): Node {
    Child(Root, r % 512)
  }

  ghost function Leaves(a: nat, b: nat): set<Node> {
    if b <= a then {} else Leaves(a, b - 1) + {LeafNode(b - 1)}
  }

  ghost function Mids(a: nat, b: nat): set<Node> {
    if b <= a then {} else Mids(a, b - 1) + {MidNode(b - 1)}
  }

  lemma {:induction false} LeavesCount(a: nat, b: nat)
    requires a <= b
    ensures |Leaves(a, b)| <= b - a
  {
    if a < b {
      LeavesCount(a, b - 1);
    }
  }

  lemma {:induction false} MidsCount(a: nat, b: nat)
    requires a <= b
    ensures |Mids(a, b)| <= b - a
  {
    if a < b {
      MidsCount(a, b - 1);
    }
  }

  lemma {:induction false} InLeaves(a: nat, b: nat, q: nat)
    requires a <= q < b
    ensures LeafNode(q) in Leaves(a, b)
  {
    if q < b - 1 {
      InLeaves(a, b - 1, q);
    }
  }

  lemma {:induction false} InMids(a: nat, b: nat, r: nat)
    requires a <= r < b
    ensures MidNode(r) in Mids(a, b)
  {
    if r < b - 1 {
      InMids(a, b - 1, r);
    }
  }

  /** Every node on the way to pages lo..hi. */
  ghost function Nodes(lo: nat, hi: nat): set<Node>
    requires lo < hi
  {
    Leaves(lo / 512, (hi - 1) / 512 + 1) + Mids(lo / 0x4_0000, (hi - 1) / 0x4_0000 + 1)
  }

  lemma {:induction false} PathIs(v: nat)
    ensures Path(KeyOf(v)) == {MidNode(v / 0x4_0000), LeafNode(v / 512)}
  {
    Fields(v);
    TwoShifts(v);
  }

  lemma {:induction false} Between512(lo: nat, v: nat, hi: nat)
    requires lo <= v < hi
    ensures lo / 512 <= v / 512 <= (hi - 1) / 512 && lo / 0x4_0000 <= v / 0x4_0000 <= (hi - 1) / 0x4_0000
  {
  }

  lemma {:induction false} NodesCover(lo: nat, hi: nat, room: set<Node>)
    requires lo < hi && Nodes(lo, hi) <= room
    ensures Covers(room, lo, hi)
  {
    forall v | lo <= v < hi ensures Path(KeyOf(v)) <= room {
      PathIs(v);
      Between512(lo, v, hi);
      InLeaves(lo / 512, (hi - 1) / 512 + 1, v / 512);
      InMids(lo / 0x4_0000, (hi - 1) / 0x4_0000 + 1, v / 0x4_0000);
    }
  }

  lemma {:induction false} Spread(lo: nat, hi: nat)
    requires lo < hi
    ensures (hi - 1) / 512 - lo / 512 <= (hi - lo) / 512 + 1
    ensures (hi - 1) / 0x4_0000 - lo / 0x4_0000 <= (hi - lo) / 0x4_0000 + 1
  {
  }

  /** n pages in a row lie in at most n/512 + 2 leaf tables and n/2^18 + 2 middle tables. */
  lemma {:induction false} FewNodes(lo: nat, hi: nat)
    requires lo < hi
    ensures |Nodes(lo, hi)| <= (hi - lo) / 512 + 2 + ((hi - lo) / 0x4_0000 + 2)
  {
    LeavesCount(lo / 512, (hi - 1) / 512 + 1);
    MidsCount(lo / 0x4_0000, (hi - 1) / 0x4_0000 + 1);
    Spread(lo, hi);
    UnionCount(Leaves(lo / 512, (hi - 1) / 512 + 1), Mids(lo / 0x4_0000, (hi - 1) / 0x4_0000 + 1));
  }

  // ----- the memory bound

  /** The reserve of 100 frames in the guard is enough for the table nodes of a request on machines of up to this
      many frames, about 192 MiB. The board has 2560: its memory goes from 0x8020_0000 to 0x80c0_0000. */
  const MOST_FRAMES := 49250

  lemma {:induction false} GuardSuffices(pages: nat, len: nat, usable: nat)
    requires pages == (len + 4095) / 4096 && usable <= MOST_FRAMES && usable >= len / 4096 + 100
    ensures pages + (pages / 512 + 2) + (pages / 0x4_0000 + 2) <= usable
  {
  }

  lemma {:induction false} NodesFit(lo: nat, hi: nat, len: nat, usable: nat)
    requires lo < hi && hi - lo == (len + 4095) / 4096 && len / 4096 + 100 <= usable <= MOST_FRAMES
    ensures hi - lo + |Nodes(lo, hi)| <= usable
  {
    FewNodes(lo, hi);
    GuardSuffices(hi - lo, len, usable);
  }

  /** Past the guard there are frames for all pages and all nodes, so that mapping cannot stop short. */
  lemma {:induction false} NeverShort(s: Space, area: MapArea, len: nat)
    requires area.start < area.end && area.end - area.start == (len + 4095) / 4096
    requires len / 4096 + 100 <= |s.free| <= MOST_FRAMES
    ensures !Short(s, area, s.at.Keys + Nodes(area.start, area.end))
  {
    var room := s.at.Keys + Nodes(area.start, area.end);
    NodesCover(area.start, area.end, room);
    NodesFit(area.start, area.end, len, |s.free|);
    UnionCount(s.at.Keys, Nodes(area.start, area.end));
    assert |s.at| == |s.at.Keys|;
    assert Roomy(s, area, room);
    assert Open(0);
  }

  // ----- the system calls

  /** port_to_permission: bits 0, 1, 2 of the port are R, W, X; the page is for user mode. */
  function PortToPermission(port: nat): (perm: nat)
    ensures port < 8 ==> perm < 256 && perm % 2 == 0
  {
    U + (if port % 2 == 1 then R else 0) + (if port / 2 % 2 == 1 then W else 0) + (if port / 4 % 2 == 1 then X else 0)
  }

  /** In numbers: the port moves up by one bit, and bit 4 is set. */
  lemma {:induction false} PortNumbers(port: nat)
    requires port < 8
    ensures PortToPermission(port) == 16 + 2 * port
  {
    assert port in {0, 1, 2, 3, 4, 5, 6, 7};
  }

  /** The hardware can use a mapping exactly when the port is neither write-only nor write-execute. */
  lemma {:induction false} UsablePorts(port: nat)
    requires 0 < port < 8
    ensures Usable(PortToPermission(port)) <==> port != 2 && port != 6
  {
    PortNumbers(port);
    assert port in {1, 2, 3, 4, 5, 6, 7};
  }

  /** VirtAddr::ceil of the end of the range. */
  function EndPage(addr: nat, len: nat): nat
    requires len > 0
  {
    (addr + len - 1 + 4096) / 4096
  }

  /** addr + len, or rounding it up to a page, leaves the 64 bits of an address: the range would end before
      it starts. */
  predicate Wraps(addr: nat, len: nat) {
    addr + len + 4095 >= 0x1_0000_0000_0000_0000
  }

  lemma {:induction false} PageCount(addr: nat, len: nat)
    requires addr % 4096 == 0 && len > 0
    ensures addr / 4096 < EndPage(addr, len) && EndPage(addr, len) - addr / 4096 == (len + 4095) / 4096
    ensures !Wraps(addr, len) ==> EndPage(addr, len) < 0x10_0000_0000_0000
  {
  }

  // ----- when a range is free

  /** Every page of an area has a sign-extended number, as in a process that never asked for another. */
  ghost predicate Signed(home: map<Key, Slot>) {
    forall k :: k in home ==> SignExtended(home[k].vpn)
  }

  /** The pages lo..hi have sign-extended numbers, and the trampoline is not among them. Below 2^38 all ranges are. */
  ghost predicate SignedRange(lo: nat, hi: nat) {
    forall v :: lo <= v < hi ==> SignExtended(v) && v != TRAMPOLINE_VPN
  }

  /** A sign-extended page that no area maps has a free key. */
  lemma {:induction false} SignedIsFree(areas: seq<MapArea>, s: Space, managed: set<nat>, v: nat)
    requires Placed(areas, s, managed) && OnlyAreas(s) && Signed(s.home)
    requires SignExtended(v) && v != TRAMPOLINE_VPN && !Has(s.home, v)
    ensures KeyOf(v) !in s.pages
  {
    if KeyOf(v) in s.home {
      SlotOf(areas, s, managed, KeyOf(v));
      SignedKeys(v, s.home[KeyOf(v)].vpn);
    } else if KeyOf(v) == TrampolineKey() {
      TrampolineIsOnTop();
      SignedKeys(v, TRAMPOLINE_VPN);
    }
  }

  /** Among sign-extended pages the overlap check of mmap is complete: what passes it clashes with nothing. */
  lemma {:induction false} SignedIsClear(areas: seq<MapArea>, s: Space, managed: set<nat>, lo: nat, hi: nat)
    requires Placed(areas, s, managed) && OnlyAreas(s) && Signed(s.home) && SignedRange(lo, hi)
    requires Uniform(s.home, lo, hi, false)
    ensures Clear(s.pages, lo, hi)
  {
    assert forall v :: lo <= v < hi ==> !Has(s.home, v) by {
      assert Open(0);
    }
    forall v | lo <= v < hi ensures KeyOf(v) !in s.pages {
      SignedIsFree(areas, s, managed, v);
    }
  }

  /** Otherwise it is not: a page 2^27 above a mapped one passes it, but has its key. */
  lemma {:induction false} AliasPasses(s: Space, v: nat)
    requires Has(s.home, v) && KeyOf(v) in s.pages
    ensures Uniform(s.home, v + VPN_LIMIT, v + VPN_LIMIT + 1, false)
    ensures !Clear(s.pages, v + VPN_LIMIT, v + VPN_LIMIT + 1)
  {
    OneTurn(v);
    NotClear(s.pages, v + VPN_LIMIT, v + VPN_LIMIT + 1, v + VPN_LIMIT);
  }

  /** With page 0 mapped, the call mmap(2^39, 4096, port) gets past all checks and panics. */
  lemma {:induction false} AliasCall(s: Space)
    requires Has(s.home, 0) && KeyOf(0) in s.pages
    ensures var addr, len := 0x80_0000_0000, 4096;
      && addr % 4096 == 0 && len <= 0x4000_0000 && !Wraps(addr, len)
      && Uniform(s.home, addr / 4096, EndPage(addr, len), false)
      && !Clear(s.pages, addr / 4096, EndPage(addr, len))
  {
    AliasPasses(s, 0);
  }

  /** The new pages are sign-extended when the request was. */
  lemma {:induction false} GrewSigned(s: Space, t: Space, lo: nat, hi: nat, perm: nat)
    requires Signed(s.home) && SignedRange(lo, hi) && Adds(s, t, KeysFrom(lo, hi), perm) && s.home.Keys <= s.pages.Keys
    requires Uniform(t.home, lo, hi, true)
    ensures Signed(t.home)
  {
    AddedKeys(s, t, KeysFrom(lo, hi), perm);
    forall k | k in t.home ensures SignExtended(t.home[k].vpn) {
      if k in s.home {
        OldPage(s, t, KeysFrom(lo, hi), perm, k);
      } else {
        var v := FromKey(lo, hi, k);
        assert Has(t.home, v) by {
          assert Open(0);
        }
      }
    }
  }

  lemma {:induction false} ShrankSigned(s: Space, t: Space, keys: set<Key>)
    requires Signed(s.home) && Removes(s, t, keys) && s.home.Keys <= s.pages.Keys
    ensures Signed(t.home)
  {
    RemovedKeys(s, t, keys);
    forall k | k in t.home ensures SignExtended(t.home[k].vpn) {
      assert k in s.home.Keys - keys;
      RemainingPage(s, t, keys, k);
    }
  }

  // ----- the checks

  /** Every page lo..hi is mapped, or with `want` false, none is. Sealed. */
  ghost predicate Uniform(home: map<Key, Slot>, lo: nat, hi: nat, want: bool) {
    forall j: nat {:trigger Open(j)} :: forall v :: lo <= v < hi ==> Has(home, v) == want
  }

  /** The overlap check of mmap, and with `want` the check of munmap: is every page of the range (not) mapped? */
  method AllPages(ms: MemorySet, mem: FrameMemory, lo: nat, hi: nat, want: bool) returns (all: bool)
    requires ms.Valid(mem) && lo <= hi
    ensures all <==> Uniform(ms.home, lo, hi, want)
  {
    var vpn := lo;
    while vpn < hi
      invariant lo <= vpn <= hi && forall v :: lo <= v < vpn ==> Has(ms.home, v) == want
    {
      var b := ms.HaveMapped(vpn, mem);
      if b != want {
        assert Open(0);
        return false;
      }
      vpn := vpn + 1;
    }
    all := true;
  }

  /** The pages of the range are new, under their own numbers, cleared and with the permissions of the port; nothing
      else changed. */
  ghost predicate Grew(s: Space, t: Space, addr: nat, len: nat, port: nat)
    requires len > 0
  {
    && Adds(s, t, KeysFrom(addr / 4096, EndPage(addr, len)), PortToPermission(port))
    && Uniform(t.home, addr / 4096, EndPage(addr, len), true)
  }

  ghost predicate Shrank(s: Space, t: Space, addr: nat, len: nat)
    requires len > 0
  {
    Removes(s, t, KeysFrom(addr / 4096, EndPage(addr, len)))
  }

  /** All outcomes of mmap; None is a panic. Whatever passes the guard and the overlap check is mapped in full: neither
      a data frame nor a table frame is ever missing. It panics exactly when the end of the range leaves the address
      space, or a page of the range has the key of a mapped page although no area holds it. -1 changes nothing. */
  ghost predicate MapOutcome(s: Space, t: Space, addr: nat, len: nat, port: nat, initFrames: nat, r: Option<int>) {
    if addr % 4096 != 0 || len > 0x4000_0000 || port > 7 || port == 0 then r == Some(-1) && t == s
    else if len == 0 then r == Some(0) && t == s
    else if |s.free| < len / 4096 + 100 + initFrames then r == Some(-1) && t == s
    else if addr + len + 4095 >= 0x1_0000_0000_0000_0000 then r == None
    else if !Uniform(s.home, addr / 4096, EndPage(addr, len), false) then r == Some(-1) && t == s
    else if !Clear(s.pages, addr / 4096, EndPage(addr, len)) then r == None
    else r == Some(4096 * (EndPage(addr, len) - addr / 4096)) && Grew(s, t, addr, len, port)
  }

  /** All outcomes of munmap; None is the panic when the end of the range leaves the address space. All pages of the
      range are removed and their frames are free again, or, when one of them is not mapped, nothing changes. */
  ghost predicate UnmapOutcome(s: Space, t: Space, addr: nat, len: nat, r: Option<int>) {
    if addr % 4096 != 0 || len > 0x4000_0000 then r == Some(-1) && t == s
    else if len == 0 then r == Some(0) && t == s
    else if addr + len + 4095 >= 0x1_0000_0000_0000_0000 then r == None && t == s
    else if !Uniform(s.home, addr / 4096, EndPage(addr, len), true) then r == Some(-1) && t == s
    else r == Some(4096 * (EndPage(addr, len) - addr / 4096)) && Shrank(s, t, addr, len)
  }

  /** map_virtual_pages on the memory set of the current process. */
  method MapVirtualPages(ms: MemorySet, mem: FrameMemory, addr: nat, len: nat, port: nat,
                         initFrames: nat) returns (r: Option<int>)
    requires ms.Valid(mem) && |mem.free| <= MOST_FRAMES
    modifies ms, ms.table, mem
    ensures r.Some? ==> ms.Valid(mem) && old(ms.areas) <= ms.areas
    ensures MapOutcome(old(ms.Now(mem)), ms.Now(mem), addr, len, port, initFrames, r)
  {
    if addr % 4096 != 0 || len > 0x4000_0000 || port > 7 || port == 0 {
      return Some(-1);
    }
    if len == 0 {
      return Some(0);
    }
    ms.MemoryIsValid(mem);
    var usable := mem.UsableFrames();
    if usable < len / 4096 + 100 + initFrames {
      return Some(-1);
    }
    r := MapChecked(ms, mem, addr, len, port);
  }

  /** What follows the guard: the range, the overlap check and the push. */
  method MapChecked(ms: MemorySet, mem: FrameMemory, addr: nat, len: nat, port: nat) returns (r: Option<int>)
    requires ms.Valid(mem) && addr % 4096 == 0 && 0 < len <= 0x4000_0000 && port < 8
    requires len / 4096 + 100 <= |mem.free| <= MOST_FRAMES
    modifies ms, ms.table, mem
    ensures r.Some? ==> ms.Valid(mem) && old(ms.areas) <= ms.areas
    ensures var s := old(ms.Now(mem));
      if Wraps(addr, len) then r == None
      else if !Uniform(s.home, addr / 4096, EndPage(addr, len), false) then r == Some(-1) && ms.Now(mem) == s
      else if !Clear(s.pages, addr / 4096, EndPage(addr, len)) then r == None
      else r == Some(4096 * (EndPage(addr, len) - addr / 4096)) && Grew(s, ms.Now(mem), addr, len, port)
  {
    if Wraps(addr, len) {
      return None;
    }
    PageCount(addr, len);
    var lo, hi := addr / 4096, EndPage(addr, len);
    var free := AllPages(ms, mem, lo, hi, false);
    if !free {
      return Some(-1);
    }
    var ok := PushNew(ms, mem, MapArea(lo, hi, map[], PortToPermission(port)), len);
    r := if ok then Some(4096 * (hi - lo)) else None;
  }

  /** The push behind the checks. Frames are not missing, so only a mapped key stops it. */
  method PushNew(ms: MemorySet, mem: FrameMemory, area: MapArea, ghost len: nat) returns (ok: bool)
    requires ms.Valid(mem) && area.frames == map[] && area.perm < 256 && area.perm % 2 == 0 && len <= 0x4000_0000
    requires area.start < area.end && area.end - area.start == (len + 4095) / 4096
    requires len / 4096 + 100 <= |mem.free| <= MOST_FRAMES
    modifies ms, ms.table, mem
    ensures ok <==> Clear(old(ms.table.pages), area.start, area.end)
    ensures ok ==> ms.Valid(mem) && Adds(old(ms.Now(mem)), ms.Now(mem), KeysFrom(area.start, area.end), area.perm)
    ensures ok ==> Uniform(ms.home, area.start, area.end, true) && old(ms.areas) <= ms.areas
  {
    ghost var s := ms.Now(mem);
    ghost var room := s.at.Keys + Nodes(area.start, area.end);
    NeverShort(s, area, len);
    var r := ms.Push(area, mem, s, room);
    ok := r == MemorySets.Mapped;
    if ok {
      AllThere(ms, mem, area, s, room);
    }
  }

  lemma AllThere(ms: MemorySet, mem: FrameMemory, area: MapArea, s: Space, room: set<Node>)
    requires ms.Valid(mem) && |ms.areas| > 0
    requires Reached(s, ms.Now(mem), area, ms.areas[|ms.areas| - 1], area.end, room)
    ensures Adds(s, ms.Now(mem), KeysFrom(area.start, area.end), area.perm)
    ensures Uniform(ms.home, area.start, area.end, true)
  {
    var a := |ms.areas| - 1;
    ReachedOpens(s, ms.Now(mem), area, ms.areas[a], area.end, room);
    forall v | area.start <= v < area.end ensures Has(ms.home, v) {
      ms.HasPage(a, v, mem);
    }
  }

  /** unmap_virtual_pages. The areas keep their ranges, so one that lost a page is not fully mapped any more. */
  method UnmapVirtualPages(ms: MemorySet, mem: FrameMemory, addr: nat, len: nat) returns (r: Option<int>)
    requires ms.Valid(mem)
    modifies ms, ms.table, mem
    ensures ms.Valid(mem) && SameExtents(old(ms.areas), ms.areas)
    ensures UnmapOutcome(old(ms.Now(mem)), ms.Now(mem), addr, len, r)
  {
    ExtentsStay(ms.areas);
    if addr % 4096 != 0 || len > 0x4000_0000 {
      return Some(-1);
    }
    if len == 0 {
      return Some(0);
    }
    if Wraps(addr, len) {
      return None;
    }
    PageCount(addr, len);
    var lo, hi := addr / 4096, EndPage(addr, len);
    var ok := UnmapChecked(ms, mem, lo, hi);
    r := Some(if ok then 4096 * (hi - lo) else -1);
  }

  /** The check for unmapped pages, and the removal. */
  method UnmapChecked(ms: MemorySet, mem: FrameMemory, lo: nat, hi: nat) returns (ok: bool)
    requires ms.Valid(mem) && lo <= hi
    modifies ms, ms.table, mem
    ensures ms.Valid(mem) && SameExtents(old(ms.areas), ms.areas) && (ok <==> Uniform(old(ms.home), lo, hi, true))
    ensures if ok then Removes(old(ms.Now(mem)), ms.Now(mem), KeysFrom(lo, hi)) else ms.Now(mem) == old(ms.Now(mem))
  {
    ExtentsStay(ms.areas);
    ok := AllPages(ms, mem, lo, hi, true);
    if ok {
      UniformKeys(ms.home, lo, hi);
      ms.UnmapRange(lo, hi, mem, ms.Now(mem));
    }
  }

  lemma {:induction false} UniformKeys(home: map<Key, Slot>, lo: nat, hi: nat)
    requires Uniform(home, lo, hi, true)
    ensures MappedKeys(home, lo, hi) == KeysFrom(lo, hi)
  {
    assert Open(0);
    AllMapped(home, lo, hi);
  }
}
