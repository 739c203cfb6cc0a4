/** Runs of the whole machine: whatever the kernel and the processes do, in any order, each on its own space. */
module MachineRuns {
  import opened Basics
  import opened Frames
  import opened PageTree
  import opened Spaces
  import opened MemorySets
  import opened Mmap
  import opened Forks
  import opened Machines

  /** What can happen next. Space 0 is the kernel's: areas are pushed and removed there for kernel stacks. */
  datatype Op =
    | NewProcess
    | MapPages(i: nat, addr: nat, len: nat, port: nat)
    | UnmapPages(i: nat, addr: nat, len: nat)
    | PushArea(i: nat, area: MapArea)
    | TakeArea(i: nat, start: nat)
    | StoreTo(i: nat, vpn: nat, j: nat, w: u64)
    | ForkProcess(i: nat)
    | ExitProcess(i: nat)
    | DropProcess(i: nat)

  /** The operation is one of space w itself. Forking changes nothing in the space that is copied. */
  predicate Acts(op: Op, w: nat) {
    match op
    case NewProcess => false
    case ForkProcess(_) => false
    case _ => op.i == w
  }

  /** None of the operations is one of space w. Sealed. */
  ghost predicate NoneActs(ops: seq<Op>, w: nat) {
    forall k: nat {:trigger Open(k)} :: forall n :: 0 <= n < |ops| ==> !Acts(ops[n], w)
  }

  lemma {:induction false} FirstAndRest(ops: seq<Op>, w: nat)
    requires NoneActs(ops, w) && ops != []
    ensures !Acts(ops[0], w) && NoneActs(ops[1..], w)
  {
    assert Open(0);
  }

  lemma {:induction false} UntouchedAll(ops: seq<Op>, w: nat, s: Space, t: Space, u: Space)
    requires ops != [] && (!Acts(ops[0], w) ==> Untouched(s, t)) && (NoneActs(ops[1..], w) ==> Untouched(t, u))
    ensures NoneActs(ops, w) ==> !Acts(ops[0], w) && NoneActs(ops[1..], w) && Untouched(s, u)
  {
    if NoneActs(ops, w) {
      FirstAndRest(ops, w);
      UntouchedOn(s, t, u);
    }
  }

  /** Spaces only join; those that do are new objects. */
  twostate predicate Joined(m: Machine)
    reads m, m.spaces
  {
    && |old(m.spaces)| <= |m.spaces| && m.spaces[..|old(m.spaces)|] == old(m.spaces)
    && forall j :: |old(m.spaces)| <= j < |m.spaces| ==> fresh(m.spaces[j]) && fresh(m.spaces[j].table)
  }

  lemma FreeIsBounded(m: Machine)
    requires m.Valid()
    ensures |m.mem.free| <= |m.mem.Managed()|
  {
    m.SinceNow(-1);
    m.mem.FreeIsManaged();
    SubsetCount(m.mem.free, m.mem.Managed());
  }

  lemma SameSpace(m: Machine, w: nat)
    requires m.Valid() && w < |m.spaces|
    ensures Untouched(m.now[w], m.now[w])
  {
    m.SinceNow(-1);
    m.OwnersNow();
    ExclusiveAt(m.now, m.mem.free, m.mem.Managed(), w, w);
    UntouchedSelf(m.now[w]);
  }

  /** The pages of the areas that start there are all mapped, as those of kernel stacks are. */
  predicate Removable(areas: seq<MapArea>, start: nat) {
    forall b :: 0 <= b < |areas| && areas[b].start == start ==> Full(areas[b])
  }

  predicate Loadable(area: MapArea) {
    area.frames == map[] && area.start <= area.end <= area.start + 0x800_0000 && area.perm < 256 && area.perm % 2 == 0
  }

  // ----- what an operation does

  /** The spaces of the machine at one moment, the state of each, and their areas. */
  datatype View = View(now: seq<Space>, phase: seq<Phase>, areas: seq<seq<MapArea>>)

  ghost function ViewOf(m: Machine): View
    reads m, m.spaces
  {
    View(m.now, m.phase, seq(|m.spaces|, j requires 0 <= j < |m.spaces| reads m, m.spaces => m.spaces[j].areas))
  }

  ghost predicate Whole(v: View) {
    |v.now| == |v.phase| == |v.areas|
  }

  ghost predicate InUse(v: View, i: nat) {
    i < |v.phase| && v.phase[i] == Live
  }

  /** The operation can be carried out: its space is in use, and its arguments are ones the kernel would pass. */
  ghost predicate Possible(v: View, op: Op)
    requires Whole(v)
  {
    match op
    case NewProcess => true
    case MapPages(i, _, _, _) => i > 0 && InUse(v, i)
    case UnmapPages(i, _, _) => InUse(v, i)
    case PushArea(i, area) => InUse(v, i) && Loadable(area)
    case TakeArea(i, start) => InUse(v, i) && Removable(v.areas[i], start)
    case StoreTo(i, _, j, _) => i > 0 && InUse(v, i) && j < 512
    case ForkProcess(i) => i > 0 && InUse(v, i)
    case ExitProcess(i) => i > 0 && InUse(v, i)
    case DropProcess(i) => 0 < i < |v.phase| && v.phase[i] != Dropped
  }

  /** What the operation does to its own space, and what it returns. */
  ghost predicate Did(v: View, w: View, op: Op, initFrames: nat, reply: int)
    requires Whole(v) && Whole(w) && |v.now| <= |w.now| && Possible(v, op)
  {
    match op
    case NewProcess => |w.now| == |v.now| + 1 && w.now[|v.now|].home == map[] && w.phase == v.phase + [Live]
    case MapPages(i, addr, len, port) => MapOutcome(v.now[i], w.now[i], addr, len, port, initFrames, Some(reply))
    case UnmapPages(i, addr, len) => UnmapOutcome(v.now[i], w.now[i], addr, len, Some(reply))
    case PushArea(i, area) =>
      if reply == 0 then Adds(v.now[i], w.now[i], KeysFrom(area.start, area.end), area.perm)
      else reply == -1 && w.now[i].free == {} && exists upto: nat ::
        Adds(v.now[i], w.now[i], KeysFrom(area.start, upto), area.perm)
    case TakeArea(i, start) =>
      && 0 <= reply <= |v.areas[i]| && (forall b :: 0 <= b < reply ==> v.areas[i][b].start != start)
      && (reply == |v.areas[i]| ==> w.now[i] == v.now[i])
      && (reply < |v.areas[i]| ==> v.areas[i][reply].start == start)
      && (reply < |v.areas[i]| ==> Loses(v.now[i], w.now[i], KeysFrom(start, v.areas[i][reply].end)))
    case StoreTo(i, vpn, j, word) =>
      if SignExtended(vpn) && MayWrite(v.now[i], KeyOf(vpn))
      then reply == 1 && WordIsIn(v.now[i], w.now[i], KeyOf(vpn), j, word)
      else reply == 0 && w.now[i] == v.now[i]
    case ForkProcess(i) =>
      if AllFull(v.areas[i]) && |v.now[i].free| >= |Needed(v.now[i])| + |v.now[i].home|
      then reply == 0 && |w.now| == |v.now| + 1 && IsCopy(v.now[i], w.now[|v.now|])
      else reply == -1 && |w.now| == |v.now|
    case ExitProcess(i) =>
      w.phase == v.phase[i := Exited] && w.now[i].home == map[] && w.now[i].free == v.now[i].free + DataFrames(v.now[i])
    case DropProcess(i) =>
      w.phase == v.phase[i := Dropped] && w.now[i].at == map[] && w.now[i].free == v.now[i].free + Owned(v.now[i])
  }

  /** One step: the operation is done, or not possible and nothing happens. Sealed. */
  ghost predicate Stepped(v: View, w: View, op: Op, initFrames: nat, reply: int) {
    forall k: nat {:trigger Open(k)} ::
      && Whole(v) && Whole(w) && |v.now| <= |w.now|
      && if Possible(v, op) then Did(v, w, op, initFrames, reply) else w == v
  }

  lemma {:induction false} NotPossible(v: View, op: Op, initFrames: nat, reply: int)
    requires Whole(v) && !Possible(v, op)
    ensures Stepped(v, v, op, initFrames, reply)
  {
  }

  /** The operations were carried out one after the other. */
  ghost predicate Traced(trace: seq<View>, ops: seq<Op>, replies: seq<int>, initFrames: nat)
    decreases |ops|
  {
    && |trace| == |ops| + 1 == |replies| + 1
    && (ops == [] || (Stepped(trace[0], trace[1], ops[0], initFrames, replies[0])
                      && Traced(trace[1..], ops[1..], replies[1..], initFrames)))
  }

  lemma {:induction false} ForkStepped(v: View, w: View, i: nat, initFrames: nat, reply: int)
    requires Whole(v) && Whole(w) && |v.now| <= |w.now| && i > 0 && InUse(v, i) && reply in {0, -1}
    requires reply == 0 <==> AllFull(v.areas[i]) && |v.now[i].free| >= |Needed(v.now[i])| + |v.now[i].home|
    requires |w.now| == |v.now| + if reply == 0 then 1 else 0
    requires reply == 0 ==> IsCopy(v.now[i], w.now[|v.now|])
    ensures Stepped(v, w, ForkProcess(i), initFrames, reply)
  {
  }

  lemma {:induction false} PushStepped(v: View, w: View, i: nat, area: MapArea, initFrames: nat, reply: int, upto: nat)
    requires Whole(v) && Whole(w) && |v.now| <= |w.now| && InUse(v, i) && Loadable(area) && reply in {0, -1}
    requires Adds(v.now[i], w.now[i], KeysFrom(area.start, upto), area.perm)
    requires if reply == 0 then upto == area.end else w.now[i].free == {}
    ensures Stepped(v, w, PushArea(i, area), initFrames, reply)
  {
  }

  lemma {:induction false} TakeStepped(v: View, w: View, i: nat, start: nat, initFrames: nat, a: nat)
    requires Whole(v) && Whole(w) && |v.now| <= |w.now| && InUse(v, i) && a <= |v.areas[i]|
    requires forall b :: 0 <= b < a ==> v.areas[i][b].start != start
    requires a == |v.areas[i]| ==> w.now[i] == v.now[i]
    requires a < |v.areas[i]| ==> v.areas[i][a].start == start
    requires a < |v.areas[i]| ==> Loses(v.now[i], w.now[i], KeysFrom(start, v.areas[i][a].end))
    ensures Removable(v.areas[i], start) ==> Stepped(v, w, TakeArea(i, start), initFrames, a)
  {
  }

  lemma {:induction false} ExitStepped(v: View, w: View, i: nat, initFrames: nat)
    requires Whole(v) && Whole(w) && |v.now| <= |w.now| && i > 0 && InUse(v, i) && w.phase == v.phase[i := Exited]
    requires w.now[i].home == map[] && w.now[i].free == v.now[i].free + DataFrames(v.now[i])
    ensures Stepped(v, w, ExitProcess(i), initFrames, 0)
  {
  }

  lemma {:induction false} DropStepped(v: View, w: View, i: nat, initFrames: nat)
    requires Whole(v) && Whole(w) && |v.now| <= |w.now| && 0 < i < |v.phase| && v.phase[i] != Dropped
    requires w.phase == v.phase[i := Dropped] && w.now[i].at == map[]
    requires w.now[i].free == v.now[i].free + Owned(v.now[i])
    ensures Stepped(v, w, DropProcess(i), initFrames, 0)
  {
  }

  // ----- the steps

  /** mmap by the process of space i. */
  method DoMap(m: Machine, i: nat, addr: nat, len: nat, port: nat, initFrames: nat, ghost w: nat)
    returns (alive: bool, reply: int)
    requires m.Valid() && w < |m.spaces| && m.InUse(i) && i > 0 && |m.mem.free| <= MOST_FRAMES
    modifies m`now, m.mem, m.spaces[i], m.spaces[i].table
    ensures m.spaces == old(m.spaces)
    ensures alive ==> m.Valid() && |m.now| == |old(m.now)|
    ensures alive && i != w ==> Untouched(old(m.now)[w], m.now[w]) && m.phase[w] == old(m.phase)[w]
    ensures alive ==> Stepped(old(ViewOf(m)), ViewOf(m), MapPages(i, addr, len, port), initFrames, reply)
  {
    var r := m.Map(i, addr, len, port, initFrames);
    alive, reply := r.Some?, if r.Some? then r.value else 0;
  }

  /** munmap by the process of space i. */
  method DoUnmap(m: Machine, i: nat, addr: nat, len: nat, ghost initFrames: nat, ghost w: nat)
    returns (alive: bool, reply: int)
    requires m.Valid() && w < |m.spaces| && m.InUse(i)
    modifies m`now, m.mem, m.spaces[i], m.spaces[i].table
    ensures m.spaces == old(m.spaces)
    ensures alive ==> m.Valid() && |m.now| == |old(m.now)|
    ensures alive && i != w ==> Untouched(old(m.now)[w], m.now[w]) && m.phase[w] == old(m.phase)[w]
    ensures alive ==> Stepped(old(ViewOf(m)), ViewOf(m), UnmapPages(i, addr, len), initFrames, reply)
  {
    var r := m.Unmap(i, addr, len);
    alive, reply := r.Some?, if r.Some? then r.value else 0;
  }

  /** push on space i. */
  method DoPush(m: Machine, i: nat, area: MapArea, ghost initFrames: nat, ghost w: nat)
    returns (alive: bool, reply: int)
    requires m.Valid() && w < |m.spaces| && m.InUse(i) && Loadable(area)
    modifies m`now, m.mem, m.spaces[i], m.spaces[i].table
    ensures m.spaces == old(m.spaces)
    ensures alive ==> m.Valid() && |m.now| == |old(m.now)|
    ensures alive && i != w ==> Untouched(old(m.now)[w], m.now[w]) && m.phase[w] == old(m.phase)[w]
    ensures alive ==> Stepped(old(ViewOf(m)), ViewOf(m), PushArea(i, area), initFrames, reply)
  {
    ghost var v := ViewOf(m);
    m.SinceNow(-1);
    var r := m.Push(i, area, {});
    alive, reply := r != Panicked, if r == NoMemory then -1 else 0;
    if alive {
      m.SinceNow(-1);
      ghost var upto := area.end;
      if r == NoMemory {
        upto := PartlyUpTo(v.now[i], m.now[i], area, m.spaces[i].areas[|v.areas[i]|]);
      }
      PushStepped(v, ViewOf(m), i, area, initFrames, reply, upto);
    }
  }

  /** remove_area_with_start_vpn on space i. */
  method DoTake(m: Machine, i: nat, start: nat, ghost initFrames: nat, ghost w: nat) returns (alive: bool, reply: int)
    requires m.Valid() && w < |m.spaces| && m.InUse(i) && Removable(m.spaces[i].areas, start)
    modifies m`now, m.mem, m.spaces[i], m.spaces[i].table
    ensures m.spaces == old(m.spaces)
    ensures alive ==> m.Valid() && |m.now| == |old(m.now)|
    ensures alive && i != w ==> Untouched(old(m.now)[w], m.now[w]) && m.phase[w] == old(m.phase)[w]
    ensures alive ==> Stepped(old(ViewOf(m)), ViewOf(m), TakeArea(i, start), initFrames, reply)
  {
    ghost var v := ViewOf(m);
    alive := true;
    reply := m.RemoveArea(i, start);
    TakeStepped(v, ViewOf(m), i, start, initFrames, reply);
  }

  /** A store by the process of space i. */
  method DoStore(m: Machine, i: nat, vpn: nat, j: nat, word: u64, ghost initFrames: nat, ghost w: nat)
    returns (alive: bool, reply: int)
    requires m.Valid() && w < |m.spaces| && m.InUse(i) && i > 0 && j < 512
    modifies m`now, m.mem`ram
    ensures m.spaces == old(m.spaces)
    ensures alive ==> m.Valid() && |m.now| == |old(m.now)|
    ensures alive && i != w ==> Untouched(old(m.now)[w], m.now[w]) && m.phase[w] == old(m.phase)[w]
    ensures alive ==> Stepped(old(ViewOf(m)), ViewOf(m), StoreTo(i, vpn, j, word), initFrames, reply)
  {
    var ok := m.UserStore(i, vpn, j, word);
    alive, reply := true, if ok then 1 else 0;
  }

  /** exit of the process of space i. */
  method DoExit(m: Machine, i: nat, ghost initFrames: nat, ghost w: nat)
    requires m.Valid() && w < |m.spaces| && m.InUse(i) && i > 0
    modifies m`now, m`phase, m.mem, m.spaces[i]
    ensures m.spaces == old(m.spaces) && m.Valid() && |m.now| == |old(m.now)|
    ensures i != w ==> Untouched(old(m.now)[w], m.now[w]) && m.phase[w] == old(m.phase)[w]
    ensures Stepped(old(ViewOf(m)), ViewOf(m), ExitProcess(i), initFrames, 0)
  {
    ghost var v := ViewOf(m);
    m.SinceNow(-1);
    m.Exit(i);
    m.SinceNow(-1);
    ExitStepped(v, ViewOf(m), i, initFrames);
  }

  /** The last reference to space i is gone. */
  method DoDrop(m: Machine, i: nat, ghost initFrames: nat, ghost w: nat)
    requires m.Valid() && w < |m.spaces| && 0 < i < |m.spaces| && m.phase[i] != Dropped
    modifies m`now, m`phase, m.mem, m.spaces[i]
    ensures m.spaces == old(m.spaces) && m.Valid() && |m.now| == |old(m.now)|
    ensures i != w ==> Untouched(old(m.now)[w], m.now[w]) && m.phase[w] == old(m.phase)[w]
    ensures Stepped(old(ViewOf(m)), ViewOf(m), DropProcess(i), initFrames, 0)
  {
    ghost var v := ViewOf(m);
    m.SinceNow(-1);
    m.Drop(i);
    m.SinceNow(-1);
    DropStepped(v, ViewOf(m), i, initFrames);
  }

  lemma {:induction false} PartlyUpTo(s: Space, t: Space, area: MapArea, after: MapArea) returns (upto: nat)
    requires Partly(s, t, area, after)
    ensures Adds(s, t, KeysFrom(area.start, upto), area.perm)
  {
    assert exists upto: nat :: Adds(s, t, KeysFrom(area.start, upto), area.perm) by {
      assert Open(0);
    }
    upto :| Adds(s, t, KeysFrom(area.start, upto), area.perm);
  }

  /** A new space joins: every space there was stays as it is. */
  method DoNew(m: Machine, ghost initFrames: nat, ghost w: nat) returns (alive: bool, reply: int)
    requires m.Valid() && w < |m.spaces|
    modifies m, m.mem
    ensures alive ==> m.Valid() && Joined(m) && |m.now| == |m.spaces|
    ensures alive ==> Untouched(old(m.now)[w], m.now[w]) && m.phase[w] == old(m.phase)[w]
    ensures alive ==> Stepped(old(ViewOf(m)), ViewOf(m), NewProcess, initFrames, reply)
  {
    reply := 0;
    alive := m.NewSpace();
  }

  /** fork by the process of space i: every space there was stays as it is. */
  method DoFork(m: Machine, i: nat, ghost initFrames: nat, ghost w: nat) returns (alive: bool, reply: int)
    requires m.Valid() && w < |m.spaces| && m.InUse(i) && i > 0
    modifies m, m.mem
    ensures alive ==> m.Valid() && Joined(m) && |m.now| == |m.spaces|
    ensures alive ==> Untouched(old(m.now)[w], m.now[w]) && m.phase[w] == old(m.phase)[w]
    ensures alive ==> Stepped(old(ViewOf(m)), ViewOf(m), ForkProcess(i), initFrames, reply)
  {
    ghost var v := ViewOf(m);
    m.SinceNow(-1);
    var r := m.Fork(i);
    alive, reply := r != Panic, if r.Forked? then 0 else -1;
    if alive {
      ForkStepped(v, ViewOf(m), i, initFrames, reply);
    }
  }

  /** One step of a space that is not joined by another. */
  method Act(m: Machine, op: Op, initFrames: nat, ghost w: nat) returns (alive: bool, reply: int)
    requires m.Valid() && w < |m.spaces| && |m.mem.free| <= MOST_FRAMES && !op.NewProcess? && !op.ForkProcess?
    requires op.i < |m.spaces| && Possible(ViewOf(m), op)
    modifies m`now, m`phase, m.mem, m.spaces[op.i], m.spaces[op.i].table
    ensures m.spaces == old(m.spaces)
    ensures alive ==> m.Valid() && |m.now| == |old(m.now)|
    ensures alive && op.i != w ==> Untouched(old(m.now)[w], m.now[w]) && m.phase[w] == old(m.phase)[w]
    ensures alive ==> Stepped(old(ViewOf(m)), ViewOf(m), op, initFrames, reply)
  {
    alive, reply := true, 0;
    match op {
      case MapPages(i, addr, len, port) => alive, reply := DoMap(m, i, addr, len, port, initFrames, w);
      case UnmapPages(i, addr, len) => alive, reply := DoUnmap(m, i, addr, len, initFrames, w);
      case PushArea(i, area) => alive, reply := DoPush(m, i, area, initFrames, w);
      case TakeArea(i, start) => alive, reply := DoTake(m, i, start, initFrames, w);
      case StoreTo(i, vpn, j, word) => alive, reply := DoStore(m, i, vpn, j, word, initFrames, w);
      case ExitProcess(i) => DoExit(m, i, initFrames, w);
      case DropProcess(i) => DoDrop(m, i, initFrames, w);
    }
  }

  /** One step in which a space may join. */
  method Spawn(m: Machine, op: Op, ghost initFrames: nat, ghost w: nat) returns (alive: bool, reply: int)
    requires m.Valid() && w < |m.spaces| && (op.NewProcess? || (op.ForkProcess? && op.i > 0 && m.InUse(op.i)))
    modifies m, m.mem
    ensures alive ==> m.Valid() && Joined(m) && |m.now| == |m.spaces|
    ensures alive ==> Untouched(old(m.now)[w], m.now[w]) && m.phase[w] == old(m.phase)[w]
    ensures alive ==> Stepped(old(ViewOf(m)), ViewOf(m), op, initFrames, reply)
  {
    match op {
      case NewProcess => alive, reply := DoNew(m, initFrames, w);
      case ForkProcess(i) => alive, reply := DoFork(m, i, initFrames, w);
    }
  }

  /** Whether the operation can be carried out now. */
  method CanDo(m: Machine, op: Op) returns (can: bool)
    requires m.Valid()
    ensures can == Possible(ViewOf(m), op)
  {
    match op {
      case NewProcess => can := true;
      case MapPages(i, _, _, _) => can := i > 0 && m.InUse(i);
      case UnmapPages(i, _, _) => can := m.InUse(i);
      case PushArea(i, area) => can := m.InUse(i) && Loadable(area);
      case TakeArea(i, start) => can := m.InUse(i) && Removable(m.spaces[i].areas, start);
      case StoreTo(i, _, j, _) => can := i > 0 && m.InUse(i) && j < 512;
      case ForkProcess(i) => can := i > 0 && m.InUse(i);
      case ExitProcess(i) => can := i > 0 && m.InUse(i);
      case DropProcess(i) => can := 0 < i < |m.spaces| && m.phase[i] != Dropped;
    }
  }

  /** One step, as far as it is possible; not alive is a panic. A space that it is not an operation of stays as it
      is. */
  method Step(m: Machine, op: Op, initFrames: nat, ghost w: nat) returns (alive: bool, reply: int)
    requires m.Valid() && |m.mem.Managed()| <= MOST_FRAMES && w < |m.spaces|
    modifies m, m.mem, m.spaces, set s | s in m.spaces :: s.table
    ensures alive ==> m.Valid() && Joined(m) && |m.now| == |m.spaces|
    ensures alive && !Acts(op, w) ==> Untouched(old(m.now)[w], m.now[w]) && m.phase[w] == old(m.phase)[w]
    ensures alive ==> Stepped(old(ViewOf(m)), ViewOf(m), op, initFrames, reply)
  {
    FreeIsBounded(m);
    SameSpace(m, w);
    alive, reply := true, 0;
    var can := CanDo(m, op);
    if !can {
      NotPossible(ViewOf(m), op, initFrames, reply);
    } else if op.NewProcess? || op.ForkProcess? {
      alive, reply := Spawn(m, op, initFrames, w);
    } else {
      alive, reply := Act(m, op, initFrames, w);
    }
  }

  /** Safety over every run: every operation does what it is for, the invariant holds, no frame is lost or shared, and a
      space that none of the operations is one of is as it was before the run, its pages byte for byte. */
  method Run(m: Machine, ops: seq<Op>, initFrames: nat, ghost w: nat)
    returns (alive: bool, replies: seq<int>, ghost trace: seq<View>)
    requires m.Valid() && |m.mem.Managed()| <= MOST_FRAMES && w < |m.spaces|
    modifies m, m.mem, m.spaces, set s | s in m.spaces :: s.table
    ensures alive ==> m.Valid() && |m.now| == |m.spaces| >= |old(m.spaces)|
    ensures alive ==> |m.mem.free| + TotalOwned(m.now) == |m.mem.Managed()|
    ensures alive && NoneActs(ops, w) ==>
      Untouched(old(m.now)[w], m.now[w]) && m.phase[w] == old(m.phase)[w]
    ensures alive ==> Traced(trace, ops, replies, initFrames) && trace[0] == old(ViewOf(m)) && trace[|ops|] == ViewOf(m)
    decreases |ops|
  {
    SameSpace(m, w);
    ghost var first := ViewOf(m);
    if ops == [] {
      m.Conservation();
      return true, [], [first];
    }
    ghost var s := m.now[w];
    var reply;
    alive, reply := Step(m, ops[0], initFrames, w);
    if alive {
      ghost var t := m.now[w];
      alive, replies, trace := Run(m, ops[1..], initFrames, w);
      if alive {
        TracedMore(first, trace, ops, reply, replies, initFrames);
        replies, trace := [reply] + replies, [first] + trace;
      }
      if alive {
        UntouchedAll(ops, w, s, t, m.now[w]);
      }
    } else {
      replies, trace := [], [first];
    }
  }

  lemma {:induction false} TracedMore(v: View, trace: seq<View>, ops: seq<Op>, reply: int, replies: seq<int>,
                                      initFrames: nat)
    requires ops != [] && Traced(trace, ops[1..], replies, initFrames)
    requires Stepped(v, trace[0], ops[0], initFrames, reply)
    ensures Traced([v] + trace, ops, [reply] + replies, initFrames)
  {
    assert ([v] + trace)[1..] == trace && ([reply] + replies)[1..] == replies;
  }

  /** Boot: the frame allocator over the managed range, then the kernel's own space. */
  method Boot(ram: seq<Frame>, l: nat, r: nat, trampoline: nat, sections: seq<MapArea>) returns (m: Option<Machine>)
    requires l <= r <= |ram| && r <= PPN_LIMIT && trampoline < PPN_LIMIT
    requires forall a :: 0 <= a < |sections| ==>
      AreaOk(sections[a]) && sections[a].frames == map[] && sections[a].end <= PPN_LIMIT
    ensures m.Some? ==> fresh(m.value) && m.value.Valid() && |m.value.now| == 1
    ensures m.Some? ==> |m.value.mem.free| + |Owned(m.value.now[0])| == r - l
    ensures m.Some? ==> Identity(m.value.now[0].pages, sections, |sections|)
  {
    var mem := new FrameMemory(ram, l, r);
    var kernel := NewKernel(mem, trampoline, sections);
    if kernel.None? {
      return None;
    }
    StillFromFree(mem.Managed(), ram, kernel.value.Now(mem));
    var machine := new Machine(kernel.value, mem, trampoline);
    machine.Conservation();
    IntervalSize(l, r);
    OneOwner(machine.now);
    m := Some(machine);
  }

  lemma {:induction false} StillFromFree(f0: set<nat>, m0: seq<Frame>, c: Space)
    requires FromFree(f0, m0, c)
    ensures FromFree(f0, c.m, c)
  {
    FromFreeOpens(f0, m0, c);
  }

  lemma {:induction false} OneOwner(now: seq<Space>)
    requires |now| == 1
    ensures TotalOwned(now) == |Owned(now[0])|
  {
    assert now[..0] == [];
    assert TotalOwned(now[..0]) == 0;
  }
}
