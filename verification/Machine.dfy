/** All address spaces of the machine over one pool of frames: every frame has exactly one owner. */
module Machines {
  import opened Basics
  import opened Frames
  import opened PageTree
  import opened PageTables
  import opened Spaces
  import opened MemorySets
  import opened Forks
  import opened Mmap
  import opened ForkGuard

  // ----- a space that is not part of an operation

  /** The table of a space, exited or not, at the moment s. Like Origin it does not depend on memory. */
  ghost predicate TableOrigin(ms: MemorySet, s: Space, managed: set<nat>)
    reads ms, ms.table
  {
    && ms.table.at == s.at && ms.table.pages == s.pages && ms.home == s.home
    && forall j: nat {:trigger Open(j)} ::
      Table(s.m, ms.table.root, s.at, s.pages) && Kept(ms.table.frames, s.at, s.free, managed)
  }

  lemma {:induction false} SameTable(m: seq<Frame>, root: nat, at: map<Node, nat>, pages: map<Key, Page>,
                                     frames: seq<nat>,
                                     free: set<nat>, managed: set<nat>, m': seq<Frame>, free': set<nat>)
    requires Table(m, root, at, pages) && Kept(frames, at, free, managed)
    requires |m'| == |m| && at.Values !! free' && forall p :: p in at.Values && p < |m| ==> m'[p] == m[p]
    ensures Table(m', root, at, pages) && Kept(frames, at, free', managed)
  {
    KeptOpens(frames, at, free, managed);
    forall n | n in at && at[n] < |m| ensures m'[at[n]] == m[at[n]] {
      assert at[n] in at.Values;
    }
    TableFrame(m, m', root, at, pages);
  }

  lemma {:induction false} SamePlaces(areas: seq<MapArea>, s: Space, managed: set<nat>, m: seq<Frame>, free: set<nat>)
    requires Placed(areas, s, managed) && |m| == |s.m| && DataFrames(s) !! free
    ensures Placed(areas, s.(m := m, free := free), managed)
  {
    var t := s.(m := m, free := free);
    PlacedOpens(areas, s, managed);
    forall k | k in t.home ensures SlotOk(areas, t, k) && FrameOk(t, managed, k) {
      assert SlotOk(areas, s, k) && FrameOk(s, managed, k);
      assert s.pages[k].ppn in DataFrames(s);
    }
    forall a, v | 0 <= a < |areas| && v in areas[a].frames ensures PageOk(areas, t, a, v) {
      assert PageOk(areas, s, a, v);
    }
  }

  /** A space is in use, has exited and only keeps its table, or is gone. */
  datatype Phase = Live | Exited | Dropped

  /** The space is sound at the moment s. */
  ghost predicate Held(ms: MemorySet, phase: Phase, s: Space, trampoline: nat, managed: set<nat>)
    reads ms, ms.table
  {
    match phase
    case Live =>
      Origin(ms, s, managed) && TrampolineKey() in s.pages && s.pages[TrampolineKey()] == Page(trampoline, R + X)
    case Exited => TableOrigin(ms, s, managed) && s.home == map[]
    case Dropped => s.at == map[] && s.pages == map[] && s.home == map[]
  }

  /** Memory changed, but not in the frames of s, and none of them became free. */
  ghost predicate Spared(s: Space, m: seq<Frame>, free: set<nat>) {
    forall j: nat {:trigger Open(j)} ::
      |m| == |s.m| && free !! Owned(s) && forall p :: p in Owned(s) && p < |s.m| ==> m[p] == s.m[p]
  }

  lemma TableSpared(ms: MemorySet, s: Space, managed: set<nat>, m: seq<Frame>, free: set<nat>)
    requires TableOrigin(ms, s, managed) && Spared(s, m, free)
    ensures TableOrigin(ms, s.(m := m, free := free), managed)
  {
    assert Open(0);
    SameTable(s.m, ms.table.root, s.at, s.pages, ms.table.frames, s.free, managed, m, free);
  }

  lemma LiveOn(ms: MemorySet, s: Space, managed: set<nat>, m: seq<Frame>, free: set<nat>)
    requires Origin(ms, s, managed) && Spared(s, m, free)
    ensures Origin(ms, s.(m := m, free := free), managed)
  {
    OriginOpens(ms, s, managed);
    assert |m| == |s.m| && DataFrames(s) !! free by {
      assert Open(0);
    }
    SamePlaces(ms.areas, s, managed, m, free);
    assert TableOrigin(ms, s, managed);
    TableSpared(ms, s, managed, m, free);
    assert Table(m, ms.table.root, s.at, s.pages) && Kept(ms.table.frames, s.at, free, managed) by {
      assert Open(0);
    }
  }

  lemma HeldOn(ms: MemorySet, phase: Phase, s: Space, trampoline: nat, managed: set<nat>, m: seq<Frame>, free: set<nat>)
    requires Held(ms, phase, s, trampoline, managed) && Spared(s, m, free)
    ensures Held(ms, phase, s.(m := m, free := free), trampoline, managed)
  {
    match phase
    case Live => LiveOn(ms, s, managed, m, free);
    case Exited => TableSpared(ms, s, managed, m, free);
    case Dropped =>
  }

  // ----- spaces that an operation leaves alone

  /** t is s as it was: the same table, pages and areas, none of its frames was freed, and all have their contents. */
  ghost predicate Untouched(s: Space, t: Space) {
    t == s.(m := t.m, free := t.free) && Spared(s, t.m, t.free)
  }

  /** Every page of an untouched space is on the frame it was on, byte for byte as it was. */
  lemma {:induction false} UntouchedPage(s: Space, t: Space, k: Key)
    requires Untouched(s, t) && k in s.home && k in s.pages && s.pages[k].ppn < |s.m|
    ensures SamePage(s, t, k)
  {
    assert s.pages[k].ppn in DataFrames(s);
    assert Open(0);
  }

  lemma {:induction false} UntouchedSelf(s: Space)
    requires s.free !! Owned(s)
    ensures Untouched(s, s)
  {
  }

  lemma {:induction false} UntouchedOn(s: Space, t: Space, u: Space)
    requires Untouched(s, t) && Untouched(t, u)
    ensures Untouched(s, u)
  {
    OwnedElsewhere(s, t.m, t.free);
    assert Open(0);
  }

  // ----- one owner for every frame

  /** No frame belongs to two spaces or is free as well, and every managed frame is free or belongs to one. Sealed. */
  ghost predicate Exclusive(now: seq<Space>, free: set<nat>, managed: set<nat>) {
    forall j: nat {:trigger Open(j)} ::
      && free <= managed
      && (forall i :: 0 <= i < |now| ==> Owned(now[i]) <= managed && Owned(now[i]) !! free)
      && (forall i, k :: 0 <= i < k < |now| ==> Owned(now[i]) !! Owned(now[k]))
      && (forall p :: p in managed && p !in free ==> exists i :: 0 <= i < |now| && p in Owned(now[i]))
  }

  lemma {:induction false} ExclusiveAt(now: seq<Space>, free: set<nat>, managed: set<nat>, i: nat, k: nat)
    requires Exclusive(now, free, managed) && i < |now| && k < |now|
    ensures Owned(now[i]) <= managed && Owned(now[i]) !! free && (i != k ==> Owned(now[i]) !! Owned(now[k]))
  {
    assert Open(0);
  }

  lemma {:induction false} OwnerOf(now: seq<Space>, free: set<nat>, managed: set<nat>, p: nat) returns (i: nat)
    requires Exclusive(now, free, managed) && p in managed && p !in free
    ensures i < |now| && p in Owned(now[i])
  {
    assert exists i :: 0 <= i < |now| && p in Owned(now[i]) by {
      assert Open(0);
    }
    i :| 0 <= i < |now| && p in Owned(now[i]);
  }

  ghost function TotalOwned(now: seq<Space>): nat {
    if now == [] then 0 else TotalOwned(now[..|now| - 1]) + |Owned(now[|now| - 1])|
  }

  ghost function AllOwned(now: seq<Space>): set<nat> {
    if now == [] then {} else AllOwned(now[..|now| - 1]) + Owned(now[|now| - 1])
  }

  lemma {:induction false} OneSpace(s: Space, m0: seq<Frame>, managed: set<nat>)
    requires FromFree(managed, m0, s) && Owned(s) !! s.free
    ensures Exclusive([s], s.free, managed)
  {
    FromFreeOpens(managed, m0, s);
    forall p | p in managed && p !in s.free ensures exists i :: 0 <= i < |[s]| && p in Owned([s][i]) {
      assert p in Owned([s][0]);
    }
  }

  lemma {:induction false} InAllOwned(now: seq<Space>, p: nat)
    ensures p in AllOwned(now) <==> exists i :: 0 <= i < |now| && p in Owned(now[i])
  {
    if now != [] {
      var n := |now| - 1;
      InAllOwned(now[..n], p);
      if p in Owned(now[n]) {
        assert 0 <= n < |now|;
      }
      if exists i :: 0 <= i < |now[..n]| && p in Owned(now[..n][i]) {
        var i :| 0 <= i < |now[..n]| && p in Owned(now[..n][i]);
        assert p in Owned(now[i]);
      }
    }
  }

  lemma {:induction false} CountOwned(now: seq<Space>)
    requires forall i, k :: 0 <= i < k < |now| ==> Owned(now[i]) !! Owned(now[k])
    ensures |AllOwned(now)| == TotalOwned(now)
  {
    if now != [] {
      var n := |now| - 1;
      CountOwned(now[..n]);
      forall p | p in AllOwned(now[..n]) ensures p !in Owned(now[n]) {
        InAllOwned(now[..n], p);
        var i :| 0 <= i < |now[..n]| && p in Owned(now[..n][i]);
        assert Owned(now[i]) !! Owned(now[n]);
      }
      assert AllOwned(now[..n]) !! Owned(now[n]);
    }
  }

  /** Conservation: usable frames and owned frames always add up to what the allocator was given. */
  lemma {:induction false} FramesAddUp(now: seq<Space>, free: set<nat>, managed: set<nat>)
    requires Exclusive(now, free, managed)
    ensures |free| + TotalOwned(now) == |managed|
  {
    assert forall i, k :: 0 <= i < k < |now| ==> Owned(now[i]) !! Owned(now[k]) by {
      assert Open(0);
    }
    CountOwned(now);
    assert free <= managed by {
      assert Open(0);
    }
    forall p ensures p in managed <==> p in free + AllOwned(now) {
      InAllOwned(now, p);
      if p in managed && p !in free {
        var i := OwnerOf(now, free, managed, p);
      }
      if p in AllOwned(now) {
        var i :| 0 <= i < |now| && p in Owned(now[i]);
        ExclusiveAt(now, free, managed, i, i);
      }
    }
    assert managed == free + AllOwned(now);
    forall p | p in free ensures p !in AllOwned(now) {
      InAllOwned(now, p);
      if p in AllOwned(now) {
        var i :| 0 <= i < |now| && p in Owned(now[i]);
        ExclusiveAt(now, free, managed, i, i);
      }
    }
    assert free !! AllOwned(now);
  }

  // ----- how the owners change

  /** Frames moved between the space and the free pool only, and no other memory changed. Sealed. */
  ghost predicate Moves(s: Space, t: Space) {
    forall j: nat {:trigger Open(j)} ::
      && |t.m| == |s.m| && t.free + Owned(t) == s.free + Owned(s)
      && (forall p :: 0 <= p < |s.m| && p !in s.free && p !in Owned(s) ==> t.m[p] == s.m[p])
  }

  lemma {:induction false} MovesOpens(s: Space, t: Space)
    requires Moves(s, t)
    ensures |t.m| == |s.m| && t.free + Owned(t) == s.free + Owned(s)
    ensures forall p :: 0 <= p < |s.m| && p !in s.free && p !in Owned(s) ==> t.m[p] == s.m[p]
  {
    assert Open(0);
  }

  lemma {:induction false} KeepsMoves(s: Space, t: Space)
    requires Keeps(s, t)
    ensures Moves(s, t)
  {
    KeepsOpens(s, t);
  }

  /** Space i became t; all others stayed, in the memory t left behind. */
  ghost function Shifted(now: seq<Space>, i: nat, t: Space): (r: seq<Space>)
    ensures |r| == |now|
    ensures forall j :: 0 <= j < |now| ==> r[j] == if j == i then t else now[j].(m := t.m, free := t.free)
  {
    seq(|now|, j requires 0 <= j < |now| => if j == i then t else now[j].(m := t.m, free := t.free))
  }

  lemma {:induction false} OwnedElsewhere(s: Space, m: seq<Frame>, free: set<nat>)
    ensures Owned(s.(m := m, free := free)) == Owned(s)
  {
    assert DataFrames(s.(m := m, free := free)) == DataFrames(s);
  }

  lemma {:induction false} OwnedShifted(now: seq<Space>, i: nat, t: Space, j: nat)
    requires i < |now| && j < |now|
    ensures Owned(Shifted(now, i, t)[j]) == if j == i then Owned(t) else Owned(now[j])
  {
    OwnedElsewhere(now[j], t.m, t.free);
  }

  /** An operation on one space moves frames between it and the free pool, and so every frame keeps one owner. */
  lemma {:induction false} ExclusiveShift(now: seq<Space>, i: nat, t: Space, managed: set<nat>)
    requires i < |now| && Exclusive(now, now[i].free, managed) && Moves(now[i], t) && Owned(t) !! t.free
    ensures Exclusive(Shifted(now, i, t), t.free, managed)
  {
    var s := now[i];
    var r := Shifted(now, i, t);
    assert t.free + Owned(t) == s.free + Owned(s) by {
      MovesOpens(s, t);
    }
    ExclusiveAt(now, s.free, managed, i, i);
    assert s.free <= managed by {
      assert Open(0);
    }
    forall j | 0 <= j < |r|
      ensures Owned(r[j]) <= managed && Owned(r[j]) !! t.free && (j != i ==> Owned(r[j]) !! Owned(t))
    {
      OwnedShifted(now, i, t, j);
      ExclusiveAt(now, s.free, managed, j, i);
      StillApart(Owned(r[j]), s.free, Owned(s), t.free, Owned(t), managed, j == i);
    }
    forall j, k | 0 <= j < k < |r| ensures Owned(r[j]) !! Owned(r[k]) {
      OwnedShifted(now, i, t, j);
      OwnedShifted(now, i, t, k);
      ExclusiveAt(now, s.free, managed, j, k);
    }
    forall p | p in managed && p !in t.free ensures exists j :: 0 <= j < |r| && p in Owned(r[j]) {
      if p in s.free + Owned(s) {
        assert p in Owned(r[i]);
      } else {
        var j := OwnerOf(now, s.free, managed, p);
        OwnedShifted(now, i, t, j);
        assert p in Owned(r[j]);
      }
    }
  }

  lemma {:induction false} StillApart(o: set<nat>, f: set<nat>, mine: set<nat>, g: set<nat>, yours: set<nat>,
                                      managed: set<nat>, same: bool)
    requires g + yours == f + mine && g !! yours && f <= managed && mine <= managed
    requires if same then o == yours else o !! f && o !! mine && o <= managed
    ensures o <= managed && o !! g && (!same ==> o !! yours)
  {
    if same {
      forall p | p in o ensures p in managed {
        assert p in f + mine;
      }
    } else {
      forall p | p in o ensures p !in g && p !in yours {
        assert p !in f + mine;
      }
    }
  }

  /** The other spaces are spared by the operation. */
  lemma {:induction false} OthersSpared(now: seq<Space>, i: nat, t: Space, managed: set<nat>, j: nat)
    requires i < |now| && j < |now| && j != i && Exclusive(now, now[i].free, managed) && Moves(now[i], t)
    requires now[j].m == now[i].m
    ensures Spared(now[j], t.m, t.free)
  {
    MovesOpens(now[i], t);
    ExclusiveAt(now, now[i].free, managed, j, i);
    forall p | p in Owned(now[j]) ensures p !in t.free && (p < |now[j].m| ==> t.m[p] == now[j].m[p]) {
      assert p !in now[i].free + Owned(now[i]);
    }
  }

  lemma {:induction false} OwnedApart(areas: seq<MapArea>, s: Space, managed: set<nat>, frames: seq<nat>)
    requires Placed(areas, s, managed) && Kept(frames, s.at, s.free, managed)
    ensures Owned(s) !! s.free && Owned(s) <= managed
  {
    KeptOpens(frames, s.at, s.free, managed);
    forall p | p in DataFrames(s) ensures p !in s.free && p in managed {
      var k :| k in s.home && k in s.pages && s.pages[k].ppn == p;
      SlotOf(areas, s, managed, k);
    }
  }

  /** What an operation on a space in use guarantees: frames only move, the trampoline stays, and a user space stays
      one. Sealed. */
  ghost predicate Fair(s: Space, t: Space) {
    forall j: nat {:trigger Open(j)} :: Moves(s, t) && TrampolineStays(s, t) && (OnlyAreas(s) ==> OnlyAreas(t))
  }

  ghost predicate TrampolineStays(s: Space, t: Space) {
    TrampolineKey() in s.pages ==> TrampolineKey() in t.pages && t.pages[TrampolineKey()] == s.pages[TrampolineKey()]
  }

  lemma {:induction false} FairOpens(s: Space, t: Space)
    requires Fair(s, t)
    ensures Moves(s, t) && TrampolineStays(s, t) && (OnlyAreas(s) ==> OnlyAreas(t))
  {
    assert Open(0);
  }

  lemma {:induction false} FairSelf(s: Space)
    ensures Fair(s, s)
  {
  }

  lemma {:induction false} FairAdds(s: Space, t: Space, keys: set<Key>, perm: nat)
    requires Adds(s, t, keys, perm)
    ensures Fair(s, t)
  {
    AddsKeeps(s, t, keys, perm);
    KeepsMoves(s, t);
    if TrampolineKey() in s.pages {
      OldPage(s, t, keys, perm, TrampolineKey());
    }
    if OnlyAreas(s) {
      AddsOnlyAreas(s, t, keys, perm);
    }
  }

  lemma {:induction false} FairRemoves(areas: seq<MapArea>, s: Space, managed: set<nat>, t: Space, keys: set<Key>)
    requires Removes(s, t, keys) && Placed(areas, s, managed) && TrampolineKey() !in keys
    ensures Fair(s, t)
  {
    RemovedKeys(s, t, keys);
    KeepsMoves(s, t);
    Spaces.Mapped(areas, s, managed, TrampolineKey());
    RemainingPage(s, t, keys, TrampolineKey());
    if OnlyAreas(s) {
      FewerKeys(s, t, keys);
    }
  }

  lemma {:induction false} FewerKeys(s: Space, t: Space, keys: set<Key>)
    requires OnlyAreas(s) && t.pages.Keys == s.pages.Keys - keys && t.home.Keys == s.home.Keys - keys
    ensures OnlyAreas(t)
  {
    forall k | k in t.pages ensures k in t.home || k == TrampolineKey() {
      assert k in s.pages.Keys - keys;
    }
  }

  lemma {:induction false} FairLoses(s: Space, t: Space, keys: set<Key>)
    requires Loses(s, t, keys) && TrampolineKey() !in keys
    ensures Fair(s, t)
  {
    LostKeys(s, t, keys, TrampolineKey());
    KeepsMoves(s, t);
    if OnlyAreas(s) {
      FewerKeys(s, t, keys);
    }
  }

  lemma {:induction false} LostKeys(s: Space, t: Space, keys: set<Key>, k: Key)
    requires Loses(s, t, keys)
    ensures Keeps(s, t) && t.pages.Keys == s.pages.Keys - keys && t.home.Keys == s.home.Keys - keys
    ensures k in s.pages && k !in keys ==> k in t.pages && t.pages[k] == s.pages[k]
  {
    assert Open(0);
  }

  lemma {:induction false} HasAll(home: map<Key, Slot>, lo: nat, hi: nat, v: nat)
    requires Uniform(home, lo, hi, true) && lo <= v < hi
    ensures Has(home, v)
  {
    assert Open(0);
  }

  /** The trampoline belongs to no area, so no range that areas map in full contains it. */
  lemma {:induction false} NotTrampoline(home: map<Key, Slot>, lo: nat, hi: nat)
    requires Uniform(home, lo, hi, true) && TrampolineKey() !in home
    ensures TrampolineKey() !in KeysFrom(lo, hi)
  {
    if TrampolineKey() in KeysFrom(lo, hi) {
      var v := FromKey(lo, hi, TrampolineKey());
      HasAll(home, lo, hi, v);
    }
  }

  lemma {:induction false} FairPartly(s: Space, t: Space, area: MapArea, after: MapArea)
    requires Partly(s, t, area, after)
    ensures Fair(s, t)
  {
    assert exists upto: nat :: Adds(s, t, KeysFrom(area.start, upto), area.perm) by {
      assert Open(0);
    }
    var upto: nat :| Adds(s, t, KeysFrom(area.start, upto), area.perm);
    FairAdds(s, t, KeysFrom(area.start, upto), area.perm);
  }

  // ----- user spaces

  /** All spaces but the kernel's, number 0, map their areas and the trampoline and nothing else. Sealed. */
  ghost predicate Users(now: seq<Space>, phase: seq<Phase>) {
    forall j: nat {:trigger Open(j)} ::
      |phase| == |now| && forall i :: 0 < i < |now| && phase[i] == Live ==> OnlyAreas(now[i])
  }

  lemma {:induction false} UserAt(now: seq<Space>, phase: seq<Phase>, i: nat)
    requires Users(now, phase) && 0 < i < |now|
    ensures |phase| == |now| && (phase[i] == Live ==> OnlyAreas(now[i]))
  {
    assert Open(0);
  }

  lemma {:induction false} UsersOn(now: seq<Space>, phase: seq<Phase>, after: seq<Space>, later: seq<Phase>, i: nat)
    requires Users(now, phase) && |after| == |later| && |now| == |phase| <= |after| <= |now| + 1
    requires forall j :: 0 <= j < |now| && j != i ==> after[j].pages == now[j].pages && after[j].home == now[j].home
    requires forall j :: 0 <= j < |now| && j != i ==> later[j] == phase[j]
    requires 0 < i < |after| && later[i] == Live ==> OnlyAreas(after[i])
    requires |after| > |now| ==> i == |now|
    ensures Users(after, later)
  {
    forall j | 0 < j < |after| && later[j] == Live ensures OnlyAreas(after[j]) {
      if j != i {
        UserAt(now, phase, j);
      }
    }
  }

  /** What sys_fork comes to: the caller was made to exit, or the copy was tried. */
  datatype ForkReply = Killed | Tried(result: ForkResult)

  lemma {:induction false} FairUsers(before: seq<Space>, phase: seq<Phase>, i: nat, t: Space)
    requires Users(before, phase) && i < |before| == |phase| && phase[i] == Live && Fair(before[i], t)
    ensures Users(Shifted(before, i, t), phase)
  {
    FairOpens(before[i], t);
    if i > 0 {
      UserAt(before, phase, i);
    }
    UsersOn(before, phase, Shifted(before, i, t), phase, i);
  }

  // ----- the machine

  /** The spaces of the kernel (number 0) and of all processes. `now` is what each looks like in the current memory. */
  class Machine {
    const mem: FrameMemory
    const trampoline: nat
    var spaces: seq<MemorySet>
    var phase: seq<Phase>
    ghost var now: seq<Space>

    ghost predicate Tied(i: nat)
      requires i < |spaces| && |phase| == |now| == |spaces|
      reads this, mem, spaces[i], spaces[i].table
    {
      && now[i].m == mem.ram && now[i].free == mem.free
      && Held(spaces[i], phase[i], now[i], trampoline, mem.Managed())
    }

    /** Different spaces are different objects with different tables. */
    ghost predicate Apart() reads this {
      forall i, j :: 0 <= i < j < |spaces| ==> spaces[i] != spaces[j] && spaces[i].table != spaces[j].table
    }

    ghost predicate Sound()
      requires |phase| == |now| == |spaces|
      reads this, mem, spaces, set i | 0 <= i < |spaces| :: spaces[i].table
    {
      && mem.Valid() && trampoline < PPN_LIMIT && Apart() && Users(now, phase)
      && (forall i :: 0 <= i < |spaces| ==> Tied(i))
      && Exclusive(now, mem.free, mem.Managed())
    }

    /** Sealed. */
    ghost predicate Valid()
      reads this, mem, spaces, set i | 0 <= i < |spaces| :: spaces[i].table
    {
      |phase| == |now| == |spaces| && forall k: nat {:trigger Open(k)} :: Sound()
    }

    predicate InUse(i: nat)
      reads this
    {
      i < |spaces| == |phase| && phase[i] == Live
    }

    /** All spaces but number i are as they were. */
    ghost predicate OthersAre(before: seq<Space>, i: nat)
      reads this
    {
      |before| <= |now| && forall j :: 0 <= j < |before| && j != i ==> Untouched(before[j], now[j])
    }

    /** The kernel has built its space; all frames it did not take are free. */
    constructor (kernel: MemorySet, mem: FrameMemory, trampoline: nat)
      requires kernel.Valid(mem) && trampoline < PPN_LIMIT
      requires FromFree(mem.Managed(), mem.ram, kernel.Now(mem)) && TrampolineKey() in kernel.table.pages
      requires kernel.table.pages[TrampolineKey()] == Page(trampoline, R + X)
      ensures Valid() && this.mem == mem && spaces == [kernel] && now == [kernel.Now(mem)] && fresh(this)
      ensures this.trampoline == trampoline && phase == [Live]
    {
      this.mem, this.trampoline := mem, trampoline;
      spaces, phase, now := [kernel], [Live], [kernel.Now(mem)];
      KernelAlone(kernel, mem);
      new;
      assert Tied(0);
    }

    lemma LiveSpace(i: nat)
      requires Valid() && InUse(i)
      ensures spaces[i].Valid(mem) && spaces[i].Now(mem) == now[i]
      ensures TrampolineKey() in now[i].pages && now[i].pages[TrampolineKey()] == Page(trampoline, R + X)
      ensures i > 0 ==> OnlyAreas(now[i])
    {
      assert Sound() by {
        assert Open(0);
      }
      assert Tied(i);
      OriginOpens(spaces[i], now[i], mem.Managed());
      if i > 0 {
        UserAt(now, phase, i);
      }
    }

    /** What is known of all spaces, or of all but number `skip`, while memory changes: they are as they were `before`,
        with the free frames f0 and the memory m0. Sealed. */
    ghost predicate Since(skip: int, before: seq<Space>, f0: set<nat>, m0: seq<Frame>)
      reads this
      reads set i | 0 <= i < |spaces| && i != skip :: spaces[i]
      reads set i | 0 <= i < |spaces| && i != skip :: spaces[i].table
    {
      && |before| == |phase| == |spaces| && Apart() && trampoline < PPN_LIMIT && Exclusive(before, f0, mem.Managed())
      && forall k: nat {:trigger Open(k)} ::
        && (forall j :: 0 <= j < |spaces| ==> before[j].m == m0 && before[j].free == f0)
        && (forall j :: 0 <= j < |spaces| && j != skip ==>
              Held(spaces[j], phase[j], before[j], trampoline, mem.Managed()))
    }

    lemma SinceNow(skip: int)
      requires Valid()
      ensures Since(skip, now, mem.free, mem.ram) && Users(now, phase) && mem.Valid()
      ensures forall j :: 0 <= j < |spaces| ==> now[j].m == mem.ram && now[j].free == mem.free
    {
      assert Sound() by {
        assert Open(0);
      }
      forall j | 0 <= j < |spaces|
        ensures now[j].m == mem.ram && now[j].free == mem.free
          && Held(spaces[j], phase[j], now[j], trampoline, mem.Managed())
      {
        assert Tied(j);
      }
    }

    lemma SinceOpens(skip: int, before: seq<Space>, f0: set<nat>, m0: seq<Frame>)
      requires Since(skip, before, f0, m0)
      ensures forall j :: 0 <= j < |spaces| ==> before[j].m == m0 && before[j].free == f0
      ensures forall j :: 0 <= j < |spaces| && j != skip ==>
        Held(spaces[j], phase[j], before[j], trampoline, mem.Managed())
    {
      assert Open(0);
    }

    lemma HeldNow(i: nat)
      requires Valid() && i < |spaces|
      ensures Held(spaces[i], phase[i], now[i], trampoline, mem.Managed())
    {
      assert Sound() by {
        assert Open(0);
      }
      assert Tied(i);
    }

    lemma OwnersNow()
      requires Valid()
      ensures Exclusive(now, mem.free, mem.Managed())
    {
      assert Open(0);
    }

    /** Conservation: free frames plus the frames of the kernel and of all processes are all frames, at every moment. */
    lemma Conservation()
      requires Valid()
      ensures |mem.free| + TotalOwned(now) == |mem.Managed()|
    {
      OwnersNow();
      FramesAddUp(now, mem.free, mem.Managed());
    }

    lemma DataFrame(i: nat, k: Key)
      requires Valid() && InUse(i) && k in now[i].home
      ensures k in now[i].pages && now[i].pages[k].ppn in DataFrames(now[i]) && now[i].pages[k].ppn < |mem.ram|
      ensures now[i].pages[k].ppn !in now[i].at.Values
    {
      SinceNow(-1);
      HeldNow(i);
      OriginOpens(spaces[i], now[i], mem.Managed());
      SlotOf(spaces[i].areas, now[i], mem.Managed(), k);
    }

    /** Isolation: two different pages of areas, of one process or of two, are on different frames, and no
        page is on a frame that is free or holds a node of any page table. */
    lemma Isolation(i: nat, k: Key, j: nat, l: Key)
      requires Valid() && InUse(i) && j < |spaces| && k in now[i].home
      ensures k in now[i].pages && now[i].pages[k].ppn !in mem.free && now[i].pages[k].ppn !in now[j].at.Values
      ensures phase[j] == Live && l in now[j].home && (i != j || k != l) ==>
        l in now[j].pages && now[i].pages[k].ppn != now[j].pages[l].ppn
    {
      DataFrame(i, k);
      OwnersNow();
      ExclusiveAt(now, mem.free, mem.Managed(), i, j);
      if phase[j] == Live && l in now[j].home {
        DataFrame(j, l);
        if i == j && k != l {
          HeldNow(i);
          OriginOpens(spaces[i], now[i], mem.Managed());
          DifferentFrames(spaces[i].areas, now[i], mem.Managed(), k, l);
        }
      }
    }

    // ----- operations on one space

    /** The invariant after an operation on space i alone, which made it t. */
    ghost method Settle(i: nat, before: seq<Space>, f0: set<nat>, m0: seq<Frame>, t: Space)
      requires i < |spaces| && Since(i, before, f0, m0) && mem.Valid() && before[i].m == m0 && before[i].free == f0
      requires Moves(before[i], t) && Owned(t) !! t.free && t.m == mem.ram && t.free == mem.free
      requires Held(spaces[i], phase[i], t, trampoline, mem.Managed()) && Users(Shifted(before, i, t), phase)
      modifies this`now
      ensures Valid() && now == Shifted(before, i, t) && OthersAre(before, i)
    {
      SinceOpens(i, before, f0, m0);
      ExclusiveShift(before, i, t, mem.Managed());
      now := Shifted(before, i, t);
      forall j | 0 <= j < |spaces| ensures Tied(j) && (j != i ==> Untouched(before[j], now[j])) {
        if j != i {
          OthersSpared(before, i, t, mem.Managed(), j);
          HeldOn(spaces[j], phase[j], before[j], trampoline, mem.Managed(), t.m, t.free);
        }
      }
    }

    /** A space in use that is sound after a fair change. */
    lemma StillHeld(i: nat, s: Space)
      requires i < |spaces| && spaces[i].Valid(mem) && Fair(s, spaces[i].Now(mem))
      requires TrampolineKey() in s.pages && s.pages[TrampolineKey()] == Page(trampoline, R + X)
      ensures var t := spaces[i].Now(mem);
        Held(spaces[i], Live, t, trampoline, mem.Managed()) && Moves(s, t) && Owned(t) !! t.free && mem.Valid()
    {
      var t := spaces[i].Now(mem);
      FairOpens(s, t);
      spaces[i].FitsOpens(spaces[i].areas, mem);
      OwnedApart(spaces[i].areas, t, mem.Managed(), spaces[i].table.frames);
    }

    /** The invariant after a fair change of space i, which stays in use. */
    ghost method SettleFair(i: nat, before: seq<Space>, f0: set<nat>, m0: seq<Frame>)
      requires InUse(i) && Since(i, before, f0, m0) && before[i].m == m0 && before[i].free == f0 && Users(before, phase)
      requires spaces[i].Valid(mem) && Fair(before[i], spaces[i].Now(mem))
      requires TrampolineKey() in before[i].pages && before[i].pages[TrampolineKey()] == Page(trampoline, R + X)
      modifies this`now
      ensures Valid() && now == Shifted(before, i, spaces[i].Now(mem)) && OthersAre(before, i)
    {
      var t := spaces[i].Now(mem);
      StillHeld(i, before[i]);
      FairUsers(before, phase, i, t);
      Settle(i, before, f0, m0, t);
    }

    /** mmap by the process of space i: every other space is untouched. */
    method Map(i: nat, addr: nat, len: nat, port: nat, initFrames: nat) returns (r: Option<int>)
      requires Valid() && InUse(i) && i > 0 && |mem.free| <= MOST_FRAMES
      modifies this`now, mem, spaces[i], spaces[i].table
      ensures spaces == old(spaces) && phase == old(phase) && |now| == |old(now)|
      ensures r.Some? ==> Valid() && OthersAre(old(now), i)
      ensures MapOutcome(old(now)[i], now[i], addr, len, port, initFrames, r)
      ensures r.Some? ==> old(spaces[i].areas) <= spaces[i].areas
      ensures r.Some? && !AllFull(old(spaces[i].areas)) ==> !AllFull(spaces[i].areas)
    {
      LiveSpace(i);
      SinceNow(i);
      ghost var before, f0, m0 := now, mem.free, mem.ram;
      r := MapVirtualPages(spaces[i], mem, addr, len, port, initFrames);
      if r.Some? {
        MapIsFair(before[i], spaces[i].Now(mem), addr, len, port, initFrames, r);
        NotFullFront(old(spaces[i].areas), spaces[i].areas);
        SettleFair(i, before, f0, m0);
      }
    }

    /** A process all of whose pages have sign-extended numbers, and that asks for such pages, never makes mmap panic,
        and has only such pages afterwards. */
    lemma SignedMapsSucceed(i: nat, t: Space, addr: nat, len: nat, port: nat, initFrames: nat, r: Option<int>)
      requires Valid() && InUse(i) && i > 0 && MapOutcome(now[i], t, addr, len, port, initFrames, r)
      requires Signed(now[i].home) && len > 0 && !Wraps(addr, len) && SignedRange(addr / 4096, EndPage(addr, len))
      ensures r.Some? && Signed(t.home)
    {
      LiveSpace(i);
      spaces[i].FitsOpens(spaces[i].areas, mem);
      MapIsSigned(spaces[i].areas, now[i], t, mem.Managed(), addr, len, port, initFrames, r);
    }

    /** munmap by the process of space i. After a success its areas are not fully mapped any more, and they never are
        again. */
    method Unmap(i: nat, addr: nat, len: nat) returns (r: Option<int>)
      requires Valid() && InUse(i)
      modifies this`now, mem, spaces[i], spaces[i].table
      ensures Valid() && spaces == old(spaces) && phase == old(phase) && OthersAre(old(now), i)
      ensures UnmapOutcome(old(now)[i], now[i], addr, len, r)
      ensures SameExtents(old(spaces[i].areas), spaces[i].areas)
      ensures r.Some? && r.value > 0 ==> !AllFull(spaces[i].areas)
      ensures !AllFull(old(spaces[i].areas)) ==> !AllFull(spaces[i].areas)
    {
      LiveSpace(i);
      SinceNow(i);
      ghost var before, f0, m0, areas := now, mem.free, mem.ram, spaces[i].areas;
      assert Placed(areas, before[i], mem.Managed()) by {
        spaces[i].FitsOpens(areas, mem);
      }
      r := UnmapVirtualPages(spaces[i], mem, addr, len);
      UnmapIsFair(areas, before[i], mem.Managed(), spaces[i].Now(mem), addr, len, r);
      SettleFair(i, before, f0, m0);
      if r.Some? && r.value > 0 {
        LostPage(areas, before[i], spaces[i], mem, addr, len);
      } else if !AllFull(areas) {
        StaysLost(areas, before[i], spaces[i], mem);
      }
    }

    /** push on space i, as when a program is loaded (the segments of the ELF file, the stack, the trap context) or,
        with i == 0, when a kernel stack is made. */
    method Push(i: nat, area: MapArea, ghost room: set<Node>) returns (r: MapResult)
      requires Valid() && InUse(i) && area.frames == map[] && AreaOk(area)
      modifies this`now, mem, spaces[i], spaces[i].table
      ensures spaces == old(spaces) && phase == old(phase) && (r != Panicked ==> Valid() && OthersAre(old(now), i))
      ensures r != Panicked ==> |spaces[i].areas| == |old(spaces[i].areas)| + 1
      ensures r != Panicked ==> old(spaces[i].areas) == spaces[i].areas[..|old(spaces[i].areas)|]
      ensures r != Panicked && !AllFull(old(spaces[i].areas)) ==> !AllFull(spaces[i].areas)
      ensures r == MemorySets.Mapped ==> Adds(old(now)[i], now[i], KeysFrom(area.start, area.end), area.perm)
      ensures r == NoMemory ==> Partly(old(now)[i], now[i], area, spaces[i].areas[|old(spaces[i].areas)|])
      ensures r == NoMemory ==> mem.free == {}
      ensures r != MemorySets.Mapped ==>
        Short(old(now)[i], area, room) || (r == Panicked && !Clear(old(now)[i].pages, area.start, area.end))
    {
      LiveSpace(i);
      SinceNow(i);
      ghost var before, f0, m0 := now, mem.free, mem.ram;
      r := spaces[i].Push(area, mem, before[i], room);
      if r != Panicked {
        NotFullFront(old(spaces[i].areas), spaces[i].areas);
        PushIsFair(r, before[i], spaces[i].Now(mem), area, spaces[i].areas[|spaces[i].areas| - 1], room);
        SettleFair(i, before, f0, m0);
      }
    }

    /** remove_area_with_start_vpn on space i, as when a kernel stack is dropped. */
    method RemoveArea(i: nat, start: nat) returns (a: nat)
      requires Valid() && InUse(i)
      requires forall b :: 0 <= b < |spaces[i].areas| && spaces[i].areas[b].start == start ==> Full(spaces[i].areas[b])
      modifies this`now, mem, spaces[i], spaces[i].table
      ensures Valid() && spaces == old(spaces) && phase == old(phase) && OthersAre(old(now), i)
      ensures a <= |old(spaces[i].areas)| && forall b :: 0 <= b < a ==> old(spaces[i].areas)[b].start != start
      ensures a == |old(spaces[i].areas)| ==> now[i] == old(now)[i] && spaces[i].areas == old(spaces[i].areas)
      ensures a < |old(spaces[i].areas)| ==> old(spaces[i].areas)[a].start == start
      ensures a < |old(spaces[i].areas)| ==> Loses(old(now)[i], now[i], KeysFrom(start, old(spaces[i].areas)[a].end))
    {
      LiveSpace(i);
      SinceNow(i);
      ghost var before, f0, m0, areas := now, mem.free, mem.ram, spaces[i].areas;
      assert Placed(areas, before[i], mem.Managed()) by {
        spaces[i].FitsOpens(areas, mem);
      }
      a := spaces[i].RemoveArea(start, mem, before[i]);
      RemoveIsFair(areas, before[i], mem.Managed(), spaces[i].Now(mem), a, start);
      SettleFair(i, before, f0, m0);
    }

    /** A store by the process of space i to word j of page vpn, translated by the hardware. It succeeds exactly for
        pages of its areas with a sign-extended number that it may write, and changes that word and nothing else: no
        other page, no page table and no other space. */
    method UserStore(i: nat, vpn: nat, j: nat, w: u64) returns (ok: bool)
      requires Valid() && InUse(i) && i > 0 && j < 512
      modifies this`now, mem`ram
      ensures Valid() && spaces == old(spaces) && phase == old(phase) && OthersAre(old(now), i)
      ensures ok <==> SignExtended(vpn) && MayWrite(old(now)[i], KeyOf(vpn))
      ensures !ok ==> mem.ram == old(mem.ram) && now[i] == old(now)[i]
      ensures ok ==> now[i] == WordStored(old(now)[i], KeyOf(vpn), j, w)
      ensures ok ==> WordIsIn(old(now)[i], now[i], KeyOf(vpn), j, w)
    {
      LiveSpace(i);
      SinceNow(i);
      ghost var before, f0, m0 := now, mem.free, mem.ram;
      ok := StoreWord(spaces[i], vpn, j, w, mem);
      if ok {
        StoredReadsBack(before[i], KeyOf(vpn), j, w);
      }
      SettleFair(i, before, f0, m0);
    }

    /** exit: recycle_data_pages on space i, which keeps its table until it is dropped. No memory changes. */
    method Exit(i: nat)
      requires Valid() && InUse(i) && i > 0
      modifies this`now, this`phase, mem, spaces[i]
      ensures Valid() && spaces == old(spaces) && phase == old(phase)[i := Exited] && OthersAre(old(now), i)
      ensures mem.free == old(mem.free) + DataFrames(old(now)[i]) && now[i].at == old(now)[i].at && now[i].home == map[]
      ensures mem.ram == old(mem.ram)
    {
      LiveSpace(i);
      SinceNow(i);
      ghost var before, f0, m0, areas := now, mem.free, mem.ram, spaces[i].areas;
      spaces[i].FitsOpens(areas, mem);
      spaces[i].RecycleDataPages(mem, before[i]);
      ghost var t := spaces[i].Now(mem);
      Recycled(areas, before[i], mem.Managed(), spaces[i].table.frames, t);
      Retire(i, before, f0, m0, Exited, t);
    }

    /** The last reference to space i is gone: everything it owns becomes free, nothing else changes. */
    method Drop(i: nat)
      requires Valid() && 0 < i < |spaces| && phase[i] != Dropped
      modifies this`now, this`phase, mem, spaces[i]
      ensures Valid() && spaces == old(spaces) && phase == old(phase)[i := Dropped] && OthersAre(old(now), i)
      ensures mem.free == old(mem.free) + Owned(old(now)[i]) && mem.ram == old(mem.ram) && now[i].at == map[]
      ensures now[i].home == map[]
    {
      SinceNow(i);
      HeldNow(i);
      ghost var before, f0, m0 := now, mem.free, mem.ram;
      ReleaseAll(spaces[i], phase[i], mem, trampoline, before[i]);
      ghost var t := Space(mem.ram, mem.free, map[], map[], map[]);
      NothingLeft(before[i], t);
      Retire(i, before, f0, m0, Dropped, t);
    }

    /** Space i, now t, is not in use any more. */
    method Retire(i: nat, ghost before: seq<Space>, ghost f0: set<nat>, ghost m0: seq<Frame>, last: Phase,
                  ghost t: Space)
      requires 0 < i < |spaces| && Since(i, before, f0, m0) && mem.Valid() && before[i].m == m0 && before[i].free == f0
      requires Moves(before[i], t) && Owned(t) !! t.free && t.m == mem.ram && t.free == mem.free && last != Live
      requires Held(spaces[i], last, t, trampoline, mem.Managed()) && Users(before, phase)
      modifies this`now, this`phase
      ensures Valid() && spaces == old(spaces) && phase == old(phase)[i := last] && OthersAre(before, i)
      ensures now == Shifted(before, i, t)
    {
      SinceOpens(i, before, f0, m0);
      phase := phase[i := last];
      UsersOn(before, old(phase), Shifted(before, i, t), phase, i);
      assert Since(i, before, f0, m0);
      Settle(i, before, f0, m0, t);
    }

    // ----- spaces that join

    /** A new space joins, on frames that were free. */
    ghost method Adopt(ms: MemorySet, before: seq<Space>, f0: set<nat>, m0: seq<Frame>)
      requires Since(-1, before, f0, m0) && ms.Valid(mem) && FromFree(f0, m0, ms.Now(mem))
      requires TrampolineKey() in ms.table.pages && ms.table.pages[TrampolineKey()] == Page(trampoline, R + X)
      modifies this`now
      ensures |now| == |spaces| + 1 && now == Refreshed(before, mem.ram, mem.free) + [ms.Now(mem)]
      ensures mem.Valid() && Exclusive(now, mem.free, mem.Managed())
      ensures Held(ms, Live, ms.Now(mem), trampoline, mem.Managed())
      ensures forall j :: 0 <= j < |spaces| ==> Held(spaces[j], phase[j], now[j], trampoline, mem.Managed())
      ensures OthersAre(before, |before|)
    {
      var c := ms.Now(mem);
      SinceOpens(-1, before, f0, m0);
      ms.FitsOpens(ms.areas, mem);
      OwnedApart(ms.areas, c, mem.Managed(), ms.table.frames);
      ExclusiveAdd(before, f0, m0, mem.Managed(), c);
      now := Refreshed(before, c.m, c.free) + [c];
      forall j | 0 <= j < |spaces|
        ensures Held(spaces[j], phase[j], now[j], trampoline, mem.Managed()) && Untouched(before[j], now[j])
      {
        NewSpares(before, f0, m0, mem.Managed(), c, j);
        HeldOn(spaces[j], phase[j], before[j], trampoline, mem.Managed(), c.m, c.free);
      }
    }

    method Append(ms: MemorySet)
      requires mem.Valid() && |phase| == |spaces| && |now| == |spaces| + 1 && Apart() && trampoline < PPN_LIMIT
      requires forall j :: 0 <= j < |spaces| ==> ms != spaces[j] && ms.table != spaces[j].table
      requires forall j :: 0 <= j < |now| ==> now[j].m == mem.ram && now[j].free == mem.free
      requires forall j :: 0 <= j < |spaces| ==> Held(spaces[j], phase[j], now[j], trampoline, mem.Managed())
      requires Exclusive(now, mem.free, mem.Managed()) && Held(ms, Live, now[|spaces|], trampoline, mem.Managed())
      requires Users(now, phase + [Live])
      modifies this`spaces, this`phase
      ensures Valid() && spaces == old(spaces) + [ms] && phase == old(phase) + [Live]
    {
      spaces, phase := spaces + [ms], phase + [Live];
      forall j | 0 <= j < |spaces| ensures Tied(j) {
      }
    }

    /** The new space takes its place behind the others. */
    method Join(ms: MemorySet, ghost before: seq<Space>, ghost f0: set<nat>, ghost m0: seq<Frame>)
      requires Since(-1, before, f0, m0) && ms.Valid(mem) && FromFree(f0, m0, ms.Now(mem))
      requires forall j :: 0 <= j < |spaces| ==> ms != spaces[j] && ms.table != spaces[j].table
      requires TrampolineKey() in ms.table.pages && ms.table.pages[TrampolineKey()] == Page(trampoline, R + X)
      requires OnlyAreas(ms.Now(mem)) && Users(before, phase)
      modifies this
      ensures Valid() && spaces == old(spaces) + [ms] && phase == old(phase) + [Live]
      ensures now == Refreshed(before, mem.ram, mem.free) + [ms.Now(mem)] && OthersAre(before, |before|)
    {
      Adopt(ms, before, f0, m0);
      UsersOn(before, phase, now, phase + [Live], |before|);
      Append(ms);
    }

    /** A new space with the trampoline and no areas; false is a panic for want of frames. */
    method NewSpace() returns (ok: bool)
      requires Valid()
      modifies this, mem
      ensures ok ==> Valid() && |spaces| == |old(spaces)| + 1 && spaces[..|old(spaces)|] == old(spaces)
      ensures ok ==> phase == old(phase) + [Live] && OthersAre(old(now), |old(now)|)
      ensures ok ==> now[|old(spaces)|].home == map[] && spaces[|old(spaces)|].areas == []
      ensures ok ==> fresh(spaces[|old(spaces)|]) && fresh(spaces[|old(spaces)|].table)
      ensures |old(mem.free)| >= 3 ==> ok
    {
      SinceNow(-1);
      ghost var before, f0, m0 := now, mem.free, mem.ram;
      var ms := NewUser(mem, trampoline);
      if ms.None? {
        return false;
      }
      Join(ms.value, before, f0, m0);
      ok := true;
    }

    /** fork by the process of space i: all spaces, the parent's among them, are untouched, and a child is a copy of the
        parent. There is a child exactly when every area is fully mapped and there are frames for it. */
    method Fork(i: nat) returns (r: ForkResult)
      requires Valid() && InUse(i) && i > 0
      modifies this, mem
      ensures r != Panic ==> Valid() && OthersAre(old(now), |old(now)|)
      ensures r == NoChild ==> spaces == old(spaces) && phase == old(phase) && mem.free == old(mem.free)
      ensures r.Forked? ==> spaces == old(spaces) + [r.child] && phase == old(phase) + [Live]
      ensures r.Forked? ==> fresh(r.child) && fresh(r.child.table)
      ensures r.Forked? ==> now == Refreshed(old(now), mem.ram, mem.free) + [r.child.Now(mem)]
      ensures r.Forked? ==> IsCopy(old(now)[i], r.child.Now(mem))
      ensures var s := old(now)[i];
        r.Forked? <==> AllFull(old(spaces[i].areas)) && |s.free| >= |Needed(s)| + |s.home|
    {
      LiveSpace(i);
      SinceNow(-1);
      ghost var before, f0, m0 := now, mem.free, mem.ram;
      r := FromExistedUser(spaces[i], mem, trampoline);
      if r == NoChild {
        Refresh(i, before, m0);
      } else if r.Forked? {
        JoinChild(r.child, before, f0, m0, i);
      }
    }

    /** sys_fork: with too few frames the caller exits; otherwise it forks. When all its areas are fully mapped and the
        reserve pays for the nodes of the child's table, what gets past the check is copied. */
    method SysFork(i: nat, initFrames: nat) returns (r: ForkReply)
      requires Valid() && InUse(i) && i > 0
      modifies this, mem, spaces[i]
      ensures r == Killed <==> |old(mem.free)| < RangeTotal(old(spaces[i].areas)) + 100 + initFrames
      ensures r == Killed ==>
        Valid() && OthersAre(old(now), i) && spaces == old(spaces) && phase == old(phase)[i := Exited]
      ensures r.Tried? && r.result != Panic ==> Valid() && OthersAre(old(now), |old(now)|)
      ensures r.Tried? && r.result.Forked? ==> spaces == old(spaces) + [r.result.child]
      ensures r.Tried? && r.result.Forked? ==> IsCopy(old(now)[i], r.result.child.Now(mem))
      ensures r.Tried? && AllFull(old(spaces[i].areas)) && |Needed(old(now)[i])| <= 100 + initFrames ==>
        r.result.Forked?
    {
      LiveSpace(i);
      SinceNow(-1);
      var used := spaces[i].FramesUsed();
      var usable := mem.UsableFrames();
      if usable < used + 100 + initFrames {
        Exit(i);
        return Killed;
      }
      if AllFull(spaces[i].areas) && |Needed(now[i])| <= 100 + initFrames {
        spaces[i].FitsOpens(spaces[i].areas, mem);
        GuardCovers(spaces[i].areas, now[i], mem.Managed(), initFrames);
      }
      var result := Fork(i);
      r := Tried(result);
    }

    /** The child of process i takes its place. */
    method JoinChild(child: MemorySet, ghost before: seq<Space>, ghost f0: set<nat>, ghost m0: seq<Frame>, ghost i: nat)
      requires Since(-1, before, f0, m0) && i < |before| && child.Valid(mem) && FromFree(f0, m0, child.Now(mem))
      requires forall j :: 0 <= j < |spaces| ==> child != spaces[j] && child.table != spaces[j].table
      requires TrampolineKey() in before[i].pages && before[i].pages[TrampolineKey()] == Page(trampoline, R + X)
      requires SameTrampoline(before[i], child.Now(mem)) && OnlyAreas(child.Now(mem)) && Users(before, phase)
      modifies this
      ensures Valid() && spaces == old(spaces) + [child] && phase == old(phase) + [Live]
      ensures now == Refreshed(before, mem.ram, mem.free) + [child.Now(mem)] && OthersAre(before, |before|)
    {
      Join(child, before, f0, m0);
    }

    /** The fork that found no frames: only memory that is free has changed. */
    ghost method Refresh(i: nat, before: seq<Space>, m0: seq<Frame>)
      requires Since(-1, before, mem.free, m0) && i < |spaces| && Users(before, phase)
      requires ParentSafe(spaces[i], before[i], mem)
      modifies this`now
      ensures Valid() && OthersAre(before, |before|)
    {
      SinceOpens(-1, before, mem.free, m0);
      SafeOpens(spaces[i], before[i], mem);
      spaces[i].MemoryIsValid(mem);
      ExclusiveSame(before, mem.free, mem.Managed(), mem.ram);
      now := Refreshed(before, mem.ram, mem.free);
      UsersOn(before, phase, now, phase, |before|);
      forall j | 0 <= j < |spaces| ensures Tied(j) && Untouched(before[j], now[j]) {
        FreeWriteSpares(before, mem.free, mem.Managed(), mem.ram, j);
        HeldOn(spaces[j], phase[j], before[j], trampoline, mem.Managed(), mem.ram, mem.free);
      }
    }
  }

  // ----- what the operations do to a space

  lemma {:induction false} MapIsFair(s: Space, t: Space, addr: nat, len: nat, port: nat, initFrames: nat,
                                     r: Option<int>)
    requires MapOutcome(s, t, addr, len, port, initFrames, r) && r.Some?
    ensures Fair(s, t)
  {
    if t == s {
      FairSelf(s);
    } else {
      FairAdds(s, t, KeysFrom(addr / 4096, EndPage(addr, len)), PortToPermission(port));
    }
  }

  lemma {:induction false} MapIsSigned(areas: seq<MapArea>, s: Space, t: Space, managed: set<nat>, addr: nat, len: nat,
                                       port: nat, initFrames: nat, r: Option<int>)
    requires MapOutcome(s, t, addr, len, port, initFrames, r) && Placed(areas, s, managed) && OnlyAreas(s)
    requires Signed(s.home) && len > 0 && !Wraps(addr, len) && SignedRange(addr / 4096, EndPage(addr, len))
    ensures r.Some? && Signed(t.home)
  {
    var lo, hi := addr / 4096, EndPage(addr, len);
    if Uniform(s.home, lo, hi, false) {
      SignedIsClear(areas, s, managed, lo, hi);
    }
    if t != s && r.Some? {
      HomeIsMapped(areas, s, managed);
      GrewSigned(s, t, lo, hi, PortToPermission(port));
    }
  }

  lemma {:induction false} UnmapIsFair(areas: seq<MapArea>, s: Space, managed: set<nat>, t: Space, addr: nat, len: nat,
                                       r: Option<int>)
    requires Placed(areas, s, managed) && UnmapOutcome(s, t, addr, len, r)
    ensures Fair(s, t)
  {
    if t == s {
      FairSelf(s);
    } else {
      var lo, hi := addr / 4096, EndPage(addr, len);
      Spaces.Mapped(areas, s, managed, TrampolineKey());
      NotTrampoline(s.home, lo, hi);
      FairRemoves(areas, s, managed, t, KeysFrom(lo, hi));
    }
  }

  /** The first page of the range is gone from an area whose range still has it. */
  lemma LostPage(areas: seq<MapArea>, s: Space, ms: MemorySet, mem: FrameMemory, addr: nat, len: nat)
    requires Placed(areas, s, mem.Managed()) && ms.Valid(mem) && SameExtents(areas, ms.areas) && len > 0
    requires addr % 4096 == 0
    requires Uniform(s.home, addr / 4096, EndPage(addr, len), true) && Shrank(s, ms.Now(mem), addr, len)
    ensures !AllFull(ms.areas)
  {
    var lo, hi := addr / 4096, EndPage(addr, len);
    PageCount(addr, len);
    HasAll(s.home, lo, hi, lo);
    SlotOf(areas, s, mem.Managed(), KeyOf(lo));
    var a := s.home[KeyOf(lo)].a;
    PageOf(areas, s, mem.Managed(), a, lo);
    ExtentOf(areas, ms.areas, a);
    RemovedKeys(s, ms.Now(mem), KeysFrom(lo, hi));
    InKeysFrom(lo, hi, lo);
    if lo in ms.areas[a].frames {
      ms.HasPage(a, lo, mem);
      assert false;
    }
    assert !Full(ms.areas[a]);
  }

  /** Nothing changed in the space: an area that has lost a page has lost it still. */
  lemma StaysLost(areas: seq<MapArea>, s: Space, ms: MemorySet, mem: FrameMemory)
    requires Placed(areas, s, mem.Managed()) && ms.Valid(mem) && SameExtents(areas, ms.areas) && !AllFull(areas)
    requires ms.home == s.home
    ensures !AllFull(ms.areas)
  {
    var a: nat :| a < |areas| && !Full(areas[a]);
    var v: nat :| areas[a].start <= v < areas[a].end && v !in areas[a].frames;
    ExtentOf(areas, ms.areas, a);
    if v in ms.areas[a].frames {
      ms.FitsOpens(ms.areas, mem);
      PageOf(ms.areas, ms.Now(mem), mem.Managed(), a, v);
      SlotOf(areas, s, mem.Managed(), KeyOf(v));
      assert false;
    }
    assert !Full(ms.areas[a]);
  }

  lemma {:induction false} NotFullFront(areas: seq<MapArea>, more: seq<MapArea>)
    requires areas <= more
    ensures !AllFull(areas) ==> !AllFull(more)
  {
    if !AllFull(areas) {
      var a: nat :| a < |areas| && !Full(areas[a]);
      assert more[a] == areas[a];
    }
  }

  lemma {:induction false} PushIsFair(r: MapResult, s: Space, t: Space, area: MapArea, after: MapArea, room: set<Node>)
    requires r == MemorySets.Mapped ==> Reached(s, t, area, after, area.end, room)
    requires r == NoMemory ==> Partly(s, t, area, after)
    ensures r != Panicked ==> Fair(s, t)
    ensures r == MemorySets.Mapped ==> Adds(s, t, KeysFrom(area.start, area.end), area.perm)
  {
    if r == MemorySets.Mapped {
      ReachedOpens(s, t, area, after, area.end, room);
      FairAdds(s, t, KeysFrom(area.start, area.end), area.perm);
    } else if r == NoMemory {
      FairPartly(s, t, area, after);
    }
  }

  lemma {:induction false} RemoveIsFair(areas: seq<MapArea>, s: Space, managed: set<nat>, t: Space, a: nat, start: nat)
    requires Placed(areas, s, managed) && a <= |areas| && (a == |areas| ==> t == s)
    requires a < |areas| ==> areas[a].start == start && Full(areas[a]) && Loses(s, t, KeysFrom(start, areas[a].end))
    ensures Fair(s, t)
  {
    if a == |areas| {
      FairSelf(s);
    } else {
      var keys := KeysFrom(start, areas[a].end);
      Spaces.Mapped(areas, s, managed, TrampolineKey());
      if TrampolineKey() in keys {
        AreaKeys(areas, s, managed, a, TrampolineKey());
      }
      FairLoses(s, t, keys);
    }
  }

  /** The process may write the page: an area maps it, writable, for user mode, and with permissions the hardware
      takes. */
  ghost predicate MayWrite(s: Space, k: Key) {
    k in s.home && k in s.pages && s.pages[k].ppn < |s.m| && Writable(s.pages[k].perm)
  }

  /** Bits 2 (W) and 4 (U) are set in permissions that the hardware takes. Sealed. */
  ghost predicate Writable(perm: nat) {
    forall j: nat {:trigger Open(j)} :: Usable(perm) && perm / 4 % 2 == 1 && perm / 16 % 2 == 1
  }

  lemma {:induction false} WritableIs(perm: nat)
    ensures Writable(perm) <==> Usable(perm) && perm / 4 % 2 == 1 && perm / 16 % 2 == 1
  {
    assert Open(0);
  }

  /** A page that mmap made can be written exactly when the port has both R and W. */
  lemma {:induction false} WritablePorts(port: nat)
    requires 0 < port < 8
    ensures Writable(PortToPermission(port)) <==> port == 3 || port == 7
  {
    PortNumbers(port);
    WritableIs(PortToPermission(port));
    assert port in {1, 2, 3, 4, 5, 6, 7};
  }

  /** One word of page k was stored. */
  ghost function WordStored(s: Space, k: Key, j: nat, w: u64): Space
    requires k in s.pages && s.pages[k].ppn < |s.m| && j < 512
  {
    s.(m := s.m[s.pages[k].ppn := s.m[s.pages[k].ppn][j := w]])
  }

  /** The word reads back from its page, and no other word of memory has changed. */
  ghost predicate WordIsIn(s: Space, t: Space, k: Key, j: nat, w: u64) {
    && k in s.pages && s.pages[k].ppn < |s.m| == |t.m| && j < 512 && t.m[s.pages[k].ppn][j] == w
    && forall q, x :: 0 <= q < |s.m| && 0 <= x < 512 && (q != s.pages[k].ppn || x != j) ==> t.m[q][x] == s.m[q][x]
  }

  lemma {:induction false} StoredReadsBack(s: Space, k: Key, j: nat, w: u64)
    requires k in s.pages && s.pages[k].ppn < |s.m| && j < 512
    ensures WordIsIn(s, WordStored(s, k, j, w), k, j, w)
  {
  }

  /** The hardware lets a store through exactly to the pages the process may write. */
  lemma {:induction false} StoreReaches(areas: seq<MapArea>, s: Space, managed: set<nat>, root: nat, vpn: nat)
    requires Placed(areas, s, managed) && Table(s.m, root, s.at, s.pages) && OnlyAreas(s)
    requires TrampolineKey() in s.pages && s.pages[TrampolineKey()].perm == R + X
    ensures var walk := HardwareTranslate(s.m, root, vpn);
      && ((walk.LeafPte? && walk.bits / 4 % 2 == 1 && walk.bits / 16 % 2 == 1)
          <==> (SignExtended(vpn) && MayWrite(s, KeyOf(vpn))))
      && (walk.LeafPte? ==> KeyOf(vpn) in s.pages && PpnOf(walk.bits) == s.pages[KeyOf(vpn)].ppn)
  {
    var k := KeyOf(vpn);
    HardwareSees(s.m, root, s.at, s.pages, vpn);
    if k in s.pages {
      LeafBits(s.pages[k].ppn, s.pages[k].perm);
      EntryReadsBack(s.pages[k].ppn, s.pages[k].perm + V);
      WritableIs(s.pages[k].perm);
    }
    if k in s.home {
      SlotOf(areas, s, managed, k);
    }
  }

  lemma KernelAlone(kernel: MemorySet, mem: FrameMemory)
    requires kernel.Valid(mem) && FromFree(mem.Managed(), mem.ram, kernel.Now(mem))
    ensures Exclusive([kernel.Now(mem)], mem.free, mem.Managed()) && mem.Valid()
    ensures Origin(kernel, kernel.Now(mem), mem.Managed()) && Users([kernel.Now(mem)], [Live])
  {
    kernel.FitsOpens(kernel.areas, mem);
    OwnedApart(kernel.areas, kernel.Now(mem), mem.Managed(), kernel.table.frames);
    OneSpace(kernel.Now(mem), mem.ram, mem.Managed());
  }

  /** A store from user mode. */
  method StoreWord(ms: MemorySet, vpn: nat, j: nat, w: u64, mem: FrameMemory) returns (ok: bool)
    requires ms.Valid(mem) && OnlyAreas(ms.Now(mem)) && TrampolineKey() in ms.table.pages && j < 512
    requires ms.table.pages[TrampolineKey()].perm == R + X
    modifies mem`ram
    ensures ms.Valid(mem) && (ok <==> SignExtended(vpn) && MayWrite(old(ms.Now(mem)), KeyOf(vpn)))
    ensures if ok then ms.Now(mem) == WordStored(old(ms.Now(mem)), KeyOf(vpn), j, w) else mem.ram == old(mem.ram)
    ensures Fair(old(ms.Now(mem)), ms.Now(mem))
  {
    ghost var s := ms.Now(mem);
    ms.FitsOpens(ms.areas, mem);
    StoreReaches(ms.areas, s, mem.Managed(), ms.table.root, vpn);
    var walk := HardwareTranslate(mem.ram, ms.table.root, vpn);
    ok := walk.LeafPte? && walk.bits / 4 % 2 == 1 && walk.bits / 16 % 2 == 1;
    if ok {
      var p := PpnOf(walk.bits);
      DataStore(ms.areas, s, mem.Managed(), ms.table.root, KeyOf(vpn), mem.ram[p][j := w]);
      mem.Store(p, mem.ram[p][j := w]);
    }
    StoreIsFair(s, ms.Now(mem));
  }

  lemma {:induction false} StoreIsFair(s: Space, t: Space)
    requires Keeps(s, t) && t == s.(m := t.m)
    ensures Fair(s, t)
  {
    KeepsMoves(s, t);
  }

  /** A dropped space owns nothing. */
  lemma {:induction false} NothingLeft(s: Space, t: Space)
    requires t == Space(s.m, s.free + Owned(s), map[], map[], map[])
    ensures Moves(s, t) && Owned(t) == {}
  {
    assert DataFrames(t) == {} && t.at.Values == {};
  }

  /** Dropping a MemorySet, which has given up its areas already when its process has exited. */
  method ReleaseAll(ms: MemorySet, phase: Phase, mem: FrameMemory, ghost trampoline: nat, ghost s: Space)
    requires mem.Valid() && s.m == mem.ram && s.free == mem.free && Held(ms, phase, s, trampoline, mem.Managed())
    requires phase != Dropped
    modifies ms`areas, ms`home, mem`recycled, mem`free
    ensures mem.Valid() && mem.free == s.free + Owned(s)
  {
    if phase == Exited {
      assert ms.table.Valid(mem) by {
        assert Open(0);
      }
      assert DataFrames(s) == {};
      ms.DropTable(mem);
    } else {
      OriginOpens(ms, s, mem.Managed());
      ms.Drop(mem, s);
    }
  }

  /** After recycling, the space owns its nodes and nothing else. */
  lemma {:induction false} Recycled(areas: seq<MapArea>, s: Space, managed: set<nat>, frames: seq<nat>, t: Space)
    requires Placed(areas, s, managed) && Kept(frames, s.at, s.free, managed)
    requires t == Space(s.m, s.free + DataFrames(s), s.at, s.pages, map[])
    ensures Moves(s, t) && Owned(t) !! t.free
  {
    assert DataFrames(t) == {};
    assert Owned(t) == s.at.Values;
    KeptWithout(areas, s, managed, frames);
    KeptOpens(frames, s.at, t.free, managed);
  }

  // ----- spaces that come and go

  /** All spaces over changed memory. */
  ghost function Refreshed(now: seq<Space>, m: seq<Frame>, free: set<nat>): (r: seq<Space>)
    ensures |r| == |now| && forall j :: 0 <= j < |now| ==> r[j] == now[j].(m := m, free := free)
  {
    seq(|now|, j requires 0 <= j < |now| => now[j].(m := m, free := free))
  }

  lemma {:induction false} OwnedRefreshed(now: seq<Space>, m: seq<Frame>, free: set<nat>, j: nat)
    requires j < |now|
    ensures Owned(Refreshed(now, m, free)[j]) == Owned(now[j])
  {
    OwnedElsewhere(now[j], m, free);
  }

  /** A space on frames that were free spares all others. */
  lemma {:induction false} NewSpares(now: seq<Space>, f0: set<nat>, m0: seq<Frame>, managed: set<nat>, c: Space, j: nat)
    requires Exclusive(now, f0, managed) && j < |now| && now[j].m == m0 && FromFree(f0, m0, c)
    ensures Spared(now[j], c.m, c.free)
  {
    FromFreeOpens(f0, m0, c);
    ExclusiveAt(now, f0, managed, j, j);
    assert c.free <= f0;
  }

  lemma {:induction false} ExclusiveAdd(now: seq<Space>, f0: set<nat>, m0: seq<Frame>, managed: set<nat>, c: Space)
    requires Exclusive(now, f0, managed) && FromFree(f0, m0, c) && Owned(c) !! c.free
    ensures Exclusive(Refreshed(now, c.m, c.free) + [c], c.free, managed)
  {
    var r := Refreshed(now, c.m, c.free) + [c];
    assert c.free + Owned(c) == f0 by {
      FromFreeOpens(f0, m0, c);
    }
    assert f0 <= managed by {
      assert Open(0);
    }
    forall j | 0 <= j < |r|
      ensures Owned(r[j]) <= managed && Owned(r[j]) !! c.free
      ensures j < |now| ==> Owned(r[j]) == Owned(now[j]) && Owned(r[j]) !! Owned(c)
    {
      if j < |now| {
        OwnedRefreshed(now, c.m, c.free, j);
        ExclusiveAt(now, f0, managed, j, j);
        SplitApart(Owned(now[j]), f0, c.free, Owned(c));
      }
    }
    forall j, k | 0 <= j < k < |r| ensures Owned(r[j]) !! Owned(r[k]) {
      if k < |now| {
        ExclusiveAt(now, f0, managed, j, k);
      }
    }
    forall p | p in managed && p !in c.free ensures exists j :: 0 <= j < |r| && p in Owned(r[j]) {
      if p in f0 {
        assert p in Owned(r[|now|]);
      } else {
        var j := OwnerOf(now, f0, managed, p);
        assert p in Owned(r[j]);
      }
    }
  }

  lemma {:induction false} SplitApart(o: set<nat>, f: set<nat>, g: set<nat>, mine: set<nat>)
    requires g + mine == f && o !! f
    ensures o !! g && o !! mine
  {
    forall p | p in o ensures p !in g && p !in mine {
      assert p !in g + mine;
    }
  }

  /** Nothing but memory that was free changed: every frame has the owner it had. */
  lemma {:induction false} ExclusiveSame(now: seq<Space>, free: set<nat>, managed: set<nat>, m: seq<Frame>)
    requires Exclusive(now, free, managed)
    ensures Exclusive(Refreshed(now, m, free), free, managed)
  {
    var r := Refreshed(now, m, free);
    assert free <= managed by {
      assert Open(0);
    }
    forall j | 0 <= j < |r| ensures Owned(r[j]) == Owned(now[j]) && Owned(r[j]) <= managed && Owned(r[j]) !! free {
      OwnedRefreshed(now, m, free, j);
      ExclusiveAt(now, free, managed, j, j);
    }
    forall j, k | 0 <= j < k < |r| ensures Owned(r[j]) !! Owned(r[k]) {
      ExclusiveAt(now, free, managed, j, k);
    }
    forall p | p in managed && p !in free ensures exists j :: 0 <= j < |r| && p in Owned(r[j]) {
      var j := OwnerOf(now, free, managed, p);
      assert p in Owned(r[j]);
    }
  }

  lemma {:induction false} FreeWriteSpares(now: seq<Space>, free: set<nat>, managed: set<nat>, m: seq<Frame>, j: nat)
    requires Exclusive(now, free, managed) && j < |now| && |m| == |now[j].m|
    requires forall p :: 0 <= p < |m| && p !in free ==> m[p] == now[j].m[p]
    ensures Spared(now[j], m, free)
  {
    ExclusiveAt(now, free, managed, j, j);
  }
}
