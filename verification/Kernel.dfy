/** The task manager, processor and process system calls, running in place on the task blocks. */
module Kernels {
  import opened Basics
  import opened Processes

  /** One child handed over to initproc. */
  ghost function HandedOver(tasks: map<nat, Task>, kid: nat): map<nat, Task>
    requires kid in tasks && INIT in tasks && kid != INIT
  {
    var moved := tasks[kid := tasks[kid].(parent := Some(INIT))];
    moved[INIT := tasks[INIT].(children := tasks[INIT].children + [kid])]
  }

  /** Handing over one more child, as the loop in exit does. */
  lemma {:induction false} AdoptOne(tasks: map<nat, Task>, kids: seq<nat>, i: nat)
    requires INIT in tasks && i < |kids| && kids[i] in tasks && kids[i] != INIT
    ensures var before := Adopted(tasks, kids[..i]);
      kids[i] in before && INIT in before && Adopted(tasks, kids[..i + 1]) == HandedOver(before, kids[i])
  {
    var before, after := Adopted(tasks, kids[..i]), Adopted(tasks, kids[..i + 1]);
    assert kids[..i + 1] == kids[..i] + [kids[i]];
    var want := HandedOver(before, kids[i]);
    assert after.Keys == want.Keys;
    forall t | t in after ensures after[t] == want[t] {
      assert t in kids[..i + 1] <==> t in kids[..i] || t == kids[i];
    }
  }

  lemma {:induction false} AdoptNone(tasks: map<nat, Task>, kids: seq<nat>)
    requires INIT in tasks
    ensures Adopted(tasks, kids[..0]) == tasks
  {
    var none := Adopted(tasks, kids[..0]);
    assert none.Keys == tasks.Keys;
    assert forall t :: t in tasks ==> none[t] == tasks[t];
  }

  /** Marking the task a zombie before or after its children are handed over makes no difference. */
  lemma {:induction false} ZombieFirst(s: State, code: int)
    requires s.current.Some? && s.current.value in s.tasks && s.current.value != INIT && INIT in s.tasks
    ensures var t := s.current.value;
      var kids := s.tasks[t].children;
      var marked := s.tasks[t := s.tasks[t].(status := Zombie, exitCode := code)];
      var adopted := Adopted(marked, kids);
      t in adopted && Exited(s, code).tasks == adopted[t := adopted[t].(children := [])]
  {
    var t := s.current.value;
    var kids := s.tasks[t].children;
    var marked := s.tasks[t := s.tasks[t].(status := Zombie, exitCode := code)];
    var adopted := Adopted(marked, kids);
    var l, r := Exited(s, code).tasks, adopted[t := adopted[t].(children := [])];
    assert l.Keys == r.Keys;
    forall x | x in l ensures l[x] == r[x] {
    }
  }

  lemma {:induction false} KidsAreTasks(s: State, t: nat)
    requires Inv(s) && t in s.tasks
    ensures forall i :: 0 <= i < |s.tasks[t].children| ==>
      s.tasks[t].children[i] in s.tasks && s.tasks[t].children[i] != INIT
  {
    InvOpens(s);
    forall i | 0 <= i < |s.tasks[t].children|
      ensures s.tasks[t].children[i] in s.tasks && s.tasks[t].children[i] != INIT
    {
      Listed(s, t, s.tasks[t].children[i]);
    }
  }

  lemma {:induction false} NoMatchNoZombie(tasks: map<nat, Task>, kids: seq<nat>, pid: int)
    requires FirstMatch(tasks, kids, pid, 0) == |kids|
    ensures FirstZombie(tasks, kids, pid, 0) == |kids|
  {
    var z := FirstZombie(tasks, kids, pid, 0);
    assert forall j :: 0 <= j < |kids| ==> !Collectable(tasks, kids[j], pid);
  }

  /** Child c is one that waitpid(pid) asks for. */
  ghost predicate AskedFor(s: State, c: nat, pid: int) {
    c in s.tasks && (pid == -1 || pid == 0 || s.tasks[c].pid == pid)
  }

  /** All outcomes of waitpid. */
  ghost predicate WaitOutcome(s: State, t: State, pid: int, writable: bool, r: int, written: Option<int>) {
    && s.current.Some? && s.current.value in s.tasks
    && var kids := s.tasks[s.current.value].children;
      if forall i :: 0 <= i < |kids| ==> !AskedFor(s, kids[i], pid) then r == -1 && written == None && t == s
      else if forall i :: 0 <= i < |kids| && AskedFor(s, kids[i], pid) ==> s.tasks[kids[i]].status != Zombie
      then r == -2 && written == None && t == s
      else exists z: nat :: WaitFound(s, t, pid, writable, r, written, z)
  }

  /** Child z is the first zombie that was asked for; it was reaped. */
  ghost predicate WaitFound(s: State, t: State, pid: int, writable: bool, r: int, written: Option<int>, z: nat)
    requires s.current.Some? && s.current.value in s.tasks
  {
    var kids := s.tasks[s.current.value].children;
    && z < |kids| && AskedFor(s, kids[z], pid) && s.tasks[kids[z]].status == Zombie && TakesOff(s, t, z)
    && (forall i :: 0 <= i < z && AskedFor(s, kids[i], pid) ==> s.tasks[kids[i]].status != Zombie)
    && (if writable then kids[z] in s.exits && r == s.tasks[kids[z]].pid && written == Some(s.exits[kids[z]])
        else r == -1 && written == None)
  }

  lemma {:induction false} NobodyAskedFor(s: State, pid: int)
    requires Inv(s) && s.current.Some? && s.current.value in s.tasks
    requires var kids := s.tasks[s.current.value].children; FirstMatch(s.tasks, kids, pid, 0) == |kids|
    ensures WaitOutcome(s, s, pid, true, -1, None) && WaitOutcome(s, s, pid, false, -1, None)
  {
  }

  lemma {:induction false} NobodyExited(s: State, pid: int)
    requires Inv(s) && s.current.Some? && s.current.value in s.tasks
    requires var kids := s.tasks[s.current.value].children;
      FirstMatch(s.tasks, kids, pid, 0) < |kids| && FirstZombie(s.tasks, kids, pid, 0) == |kids|
    ensures WaitOutcome(s, s, pid, true, -2, None) && WaitOutcome(s, s, pid, false, -2, None)
  {
    var kids := s.tasks[s.current.value].children;
    KidsAreTasks(s, s.current.value);
    var i := FirstMatch(s.tasks, kids, pid, 0);
    assert AskedFor(s, kids[i], pid);
    forall j | 0 <= j < |kids| && AskedFor(s, kids[j], pid) ensures s.tasks[kids[j]].status != Zombie {
      assert !Collectable(s.tasks, kids[j], pid);
    }
  }

  lemma {:induction false} FirstOfThem(s: State, pid: int)
    requires Inv(s) && s.current.Some? && s.current.value in s.tasks
    ensures var kids := s.tasks[s.current.value].children;
      var z := FirstZombie(s.tasks, kids, pid, 0);
      && (forall i :: 0 <= i < z && AskedFor(s, kids[i], pid) ==> s.tasks[kids[i]].status != Zombie)
      && (z < |kids| ==> AskedFor(s, kids[z], pid) && kids[z] in s.exits)
      && (z < |kids| && kids[z] in s.exits ==> s.exits[kids[z]] == s.tasks[kids[z]].exitCode)
  {
    var kids := s.tasks[s.current.value].children;
    forall i | 0 <= i < FirstZombie(s.tasks, kids, pid, 0) && AskedFor(s, kids[i], pid)
      ensures s.tasks[kids[i]].status != Zombie
    {
      assert !Collectable(s.tasks, kids[i], pid);
    }
    InvOpens(s);
  }

  lemma {:induction false} InitHasZero(s: State)
    requires Inv(s)
    ensures INIT in s.tasks && s.tasks[INIT].pid == 0
  {
    InvOpens(s);
  }

  class Kernel {
    var tasks: map<nat, Task>
    var ready: seq<nat>
    var current: Option<nat>
    var nextPid: nat
    var recycled: seq<nat>
    var created: nat
    ghost var exits: map<nat, int>
    ghost var log: seq<Reap>

    ghost function Now(): State
      reads this
    {
      State(tasks, ready, current, nextPid, recycled, created, exits, log)
    }

    ghost predicate Valid()
      reads this
    {
      Inv(Now())
    }

    constructor ()
      ensures Valid() && Now() == Booted()
    {
      tasks, ready, current := map[INIT := Task(0, Ready, None, [], 0)], [INIT], None;
      nextPid, recycled, created, exits, log := 1, [], 1, map[], [];
      BootedIsSound();
    }

    /** One round of Processor::run. The queue is never empty here, so the "No more tasks" panic is not reached. */
    method Run()
      requires Valid() && current == None
      modifies this
      ensures Valid() && Now() == After(old(Now()), Dispatch) && FrontRuns(old(Now()), Now())
    {
      DispatchKeeps(Now());
      var t := ready[0];
      ready := ready[1..];
      tasks := tasks[t := tasks[t].(status := Running)];
      current := Some(t);
    }

    method Suspend()
      requires Valid() && current.Some?
      modifies this
      ensures Valid() && Now() == After(old(Now()), Yield) && GoesToBack(old(Now()), Now())
    {
      YieldKeeps(Now());
      var t := current.value;
      current := None;
      tasks := tasks[t := tasks[t].(status := Ready)];
      ready := ready + [t];
    }

    /** PidAllocator::alloc: an identifier that no task has and that cannot be handed out again until it is returned. */
    method AllocPid() returns (pid: nat)
      requires Valid()
      modifies this`nextPid, this`recycled
      ensures (forall t :: t in tasks ==> tasks[t].pid != pid) && pid < nextPid && pid !in recycled
      ensures Pids(Now()) && pid == FreshPid(old(Now())) && Now() == WithPid(old(Now()))
    {
      assert Pids(Now()) by {
        InvOpens(Now());
      }
      FreshPidIsFree(Now());
      if |recycled| > 0 {
        pid := recycled[|recycled| - 1];
        recycled := recycled[..|recycled| - 1];
      } else {
        nextPid := nextPid + 1;
        pid := nextPid - 1;
      }
    }

    /** fork and add_task behind a successful copy of the address space. */
    method AddChild() returns (pid: nat)
      requires Valid() && current.Some?
      modifies this
      ensures Valid() && Now() == After(old(Now()), Fork(true, true))
      ensures NewChild(old(Now()), Now(), pid)
    {
      ghost var s := Now();
      ForkKeeps(s);
      pid := AllocPid();
      var p, c := current.value, created;
      tasks := tasks[p := tasks[p].(children := tasks[p].children + [c])][c := Task(pid, Ready, Some(p), [], 0)];
      created := created + 1;
      ready := ready + [c];
    }

    /** The loop over the children: one after the other they become children of initproc. */
    method HandOver(kids: seq<nat>)
      requires INIT in tasks && forall i :: 0 <= i < |kids| ==> kids[i] in tasks && kids[i] != INIT
      modifies this`tasks
      ensures tasks == Adopted(old(tasks), kids)
    {
      AdoptNone(tasks, kids);
      var i := 0;
      while i < |kids|
        invariant i <= |kids| && tasks == Adopted(old(tasks), kids[..i])
      {
        AdoptOne(old(tasks), kids, i);
        tasks := tasks[kids[i] := tasks[kids[i]].(parent := Some(INIT))];
        tasks := tasks[INIT := tasks[INIT].(children := tasks[INIT].children + [kids[i]])];
        i := i + 1;
      }
      assert kids[..i] == kids;
    }

    /** exit_current_and_run_next: the children go to initproc, in order; the task becomes a zombie. */
    method ExitCurrent(code: int)
      requires Valid() && current.Some? && current.value != INIT
      modifies this
      ensures Valid() && Now() == After(old(Now()), Exit(code)) && LeavesBehind(old(Now()), Now(), code)
    {
      ghost var s := Now();
      ExitKeeps(s, code);
      KidsAreTasks(s, s.current.value);
      ZombieFirst(s, code);
      var t := current.value;
      var kids := tasks[t].children;
      tasks := tasks[t := tasks[t].(status := Zombie, exitCode := code)];
      current := None;
      exits := exits[t := code];
      HandOver(kids);
      tasks := tasks[t := tasks[t].(children := [])];
    }

    /** sys_fork. With too little memory the caller exits with -1 and never sees a result. */
    method SysFork(enough: bool, copied: bool) returns (r: int)
      requires Valid() && current.Some? && (!enough ==> current.value != INIT)
      modifies this
      ensures Valid() && Now() == After(old(Now()), Fork(enough, copied))
      ensures enough && copied ==> r > 0 && NewChild(old(Now()), Now(), r)
      ensures enough && !copied ==> r == -1 && Now() == old(Now())
      ensures !enough ==> LeavesBehind(old(Now()), Now(), -1)
    {
      r := -1;
      if !enough {
        ExitCurrent(-1);
        return;
      }
      if copied {
        InitHasZero(Now());
        r := AddChild();
      }
    }

    /** sys_spawn. */
    method SysSpawn(found: bool, copied: bool) returns (r: int)
      requires Valid() && current.Some?
      modifies this
      ensures Valid() && Now() == After(old(Now()), Spawn(found, copied))
      ensures if found && copied then r > 0 && NewChild(old(Now()), Now(), r) else r == -1 && Now() == old(Now())
    {
      r := -1;
      if found && copied {
        InitHasZero(Now());
        r := AddChild();
      }
    }

    /** The first `find` of waitpid. */
    method FindMatch(kids: seq<nat>, pid: int) returns (i: nat)
      ensures i == FirstMatch(tasks, kids, pid, 0)
    {
      i := 0;
      while i < |kids| && !Matches(tasks, kids[i], pid)
        invariant i <= |kids| && FirstMatch(tasks, kids, pid, 0) == FirstMatch(tasks, kids, pid, i)
      {
        i := i + 1;
      }
    }

    /** The second `find` of waitpid. */
    method FindZombie(kids: seq<nat>, pid: int) returns (i: nat)
      ensures i == FirstZombie(tasks, kids, pid, 0)
    {
      i := 0;
      while i < |kids| && !Collectable(tasks, kids[i], pid)
        invariant i <= |kids| && FirstZombie(tasks, kids, pid, 0) == FirstZombie(tasks, kids, pid, i)
      {
        i := i + 1;
      }
    }

    /** sys_waitpid_non_blocking. -1: no such child; -2: none of them has exited. Otherwise the first such zombie is
        taken off the list, and its identifier is returned with the code it exited with, unless the caller's pointer
        is not writable: then the result is -1 although the child is gone. A pid of -1 or 0 means any child. */
    method WaitPid(pid: int, writable: bool) returns (r: int, written: Option<int>)
      requires Valid() && current.Some?
      modifies this
      ensures Valid() && Now() == After(old(Now()), Wait(pid))
      ensures WaitOutcome(old(Now()), Now(), pid, writable, r, written)
      ensures pid > 0 && r >= 0 ==> r == pid
    {
      ghost var s := Now();
      CurrentIsTask(s);
      var me := current.value;
      var kids := tasks[me].children;
      var any := FindMatch(kids, pid);
      if any == |kids| {
        NoMatchNoZombie(tasks, kids, pid);
        NobodyAskedFor(s, pid);
        return -1, None;
      }
      var z := FindZombie(kids, pid);
      if z == |kids| {
        NobodyExited(s, pid);
        return -2, None;
      }
      FirstOfThem(s, pid);
      WaitKeeps(s, z);
      var c := kids[z];
      tasks := tasks[me := tasks[me].(children := kids[..z] + kids[z + 1..])];
      log := log + [Reap(c, tasks[c].pid, tasks[c].exitCode)];
      if writable {
        r, written := tasks[c].pid, Some(tasks[c].exitCode);
      } else {
        r, written := -1, None;
      }
      FoundIt(s, Now(), pid, writable, r, written, z);
    }

    lemma FoundIt(s: State, t: State, pid: int, writable: bool, r: int, written: Option<int>, z: nat)
      requires s.current.Some? && s.current.value in s.tasks && WaitFound(s, t, pid, writable, r, written, z)
      ensures WaitOutcome(s, t, pid, writable, r, written)
    {
      var kids := s.tasks[s.current.value].children;
      assert AskedFor(s, kids[z], pid) && s.tasks[kids[z]].status == Zombie;
    }

    /** The block of a reaped task is dropped: PidAllocator::dealloc, whose assertions hold. */
    method DropTask(t: nat)
      requires Valid() && t in tasks && Gone(Now(), t)
      modifies this
      ensures Valid() && Now() == After(old(Now()), Release(t))
      ensures t !in tasks && SameBut(old(Now()), Now(), {t}) && recycled == old(recycled) + [old(tasks)[t].pid]
    {
      ReleaseKeeps(Now(), t);
      assert tasks[t].pid < nextPid && tasks[t].pid !in recycled by {
        InvOpens(Now());
      }
      recycled := recycled + [tasks[t].pid];
      tasks := tasks - {t};
    }
  }
}
