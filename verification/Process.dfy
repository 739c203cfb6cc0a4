/** The life cycle of processes as a state machine: what every step of the scheduler and of the process system
    calls does to the task blocks, the ready queue and the process identifiers. */
module Processes {
  import opened Basics

  datatype Status = Ready | Running | Zombie

  /** A task control block. Tasks are named by the order of their creation, which stands for the address of the
      block; the process identifier is recycled, the name is not. */
  datatype Task = Task(pid: nat, status: Status, parent: Option<nat>, children: seq<nat>, exitCode: int)

  /** One reaping: the task, its identifier and the exit code found in its block. */
  datatype Reap = Reap(task: nat, pid: nat, code: int)

  const INIT: nat := 0

  /** `tasks` are all blocks that still exist, `exits` the codes passed to exit so far, `log` what was reaped. */
  datatype State = State(tasks: map<nat, Task>, ready: seq<nat>, current: Option<nat>,
                         nextPid: nat, recycled: seq<nat>, created: nat, exits: map<nat, int>, log: seq<Reap>)

  // ----- the invariant

  /** Task t was waited for. */
  ghost predicate Gone(s: State, t: nat) {
    exists i :: 0 <= i < |s.log| && s.log[i].task == t
  }

  /** t hangs below a living, older parent that lists it. */
  ghost predicate HasParent(s: State, t: nat)
    requires t in s.tasks
  {
    var p := s.tasks[t].parent;
    && p.Some? && p.value in s.tasks && p.value < t && s.tasks[p.value].status != Zombie
    && t in s.tasks[p.value].children
  }

  /** Child number i of p names p as its parent and has not been waited for. */
  ghost predicate HasChild(s: State, p: nat, i: nat)
    requires p in s.tasks && i < |s.tasks[p].children|
  {
    var c := s.tasks[p].children[i];
    c in s.tasks && c != INIT && s.tasks[c].parent == Some(p) && !Gone(s, c)
  }

  ghost predicate ChildrenOk(s: State, p: nat)
    requires p in s.tasks
  {
    && Distinct(s.tasks[p].children) && (s.tasks[p].status == Zombie ==> s.tasks[p].children == [])
    && forall i :: 0 <= i < |s.tasks[p].children| ==> HasChild(s, p, i)
  }

  /** A tree rooted at initproc: parent and children links agree, and zombies are leaves. */
  ghost predicate Family(s: State) {
    && INIT in s.tasks && s.tasks[INIT].status != Zombie
    && (forall t :: t in s.tasks ==> t < s.created && ChildrenOk(s, t))
    && (forall t :: t in s.tasks && t != INIT && !Gone(s, t) ==> HasParent(s, t))
  }

  /** Whoever is not a zombie is either in the ready queue, once, or running. */
  ghost predicate Scheduled(s: State) {
    && Distinct(s.ready)
    && (forall t :: t in s.ready <==> t in s.tasks && s.tasks[t].status == Ready)
    && (forall t :: s.current == Some(t) <==> t in s.tasks && s.tasks[t].status == Running)
  }

  /** Identifiers in use are distinct and none of them is available. */
  ghost predicate Pids(s: State) {
    && Distinct(s.recycled) && (forall i :: 0 <= i < |s.recycled| ==> s.recycled[i] < s.nextPid)
    && (forall t :: t in s.tasks ==> s.tasks[t].pid < s.nextPid && s.tasks[t].pid !in s.recycled)
    && (forall t, u :: t in s.tasks && u in s.tasks && t != u ==> s.tasks[t].pid != s.tasks[u].pid)
    && (INIT in s.tasks ==> s.tasks[INIT].pid == 0)
  }

  /** Zombies carry the code they exited with; nobody is reaped twice, or with another code. */
  ghost predicate Books(s: State) {
    && (forall t :: t in s.exits ==> t < s.created && (t in s.tasks ==> s.tasks[t].status == Zombie))
    && (forall t :: t in s.tasks && s.tasks[t].status == Zombie ==> t in s.exits && s.exits[t] == s.tasks[t].exitCode)
    && (forall i, j :: 0 <= i < j < |s.log| ==> s.log[i].task != s.log[j].task)
    && (forall i :: 0 <= i < |s.log| ==> s.log[i].task in s.exits && s.log[i].code == s.exits[s.log[i].task])
  }

  ghost predicate Inv(s: State) {
    forall j: nat {:trigger Open(j)} :: Family(s) && Scheduled(s) && Pids(s) && Books(s)
  }

  lemma {:induction false} InvOpens(s: State)
    requires Inv(s)
    ensures Family(s) && Scheduled(s) && Pids(s) && Books(s)
  {
    assert Open(0);
  }

  // ----- what the invariant means

  /** The end of the chain of parents. */
  ghost function Ancestor(s: State, t: nat): nat {
    if t in s.tasks && s.tasks[t].parent.Some? && s.tasks[t].parent.value < t
    then Ancestor(s, s.tasks[t].parent.value) else t
  }

  /** Every process that was not waited for descends from initproc. */
  lemma {:induction false} RootedAtInit(s: State, t: nat)
    requires Inv(s) && t in s.tasks && !Gone(s, t)
    ensures Ancestor(s, t) == INIT
  {
    InvOpens(s);
    if t == INIT {
      assert s.tasks[INIT].parent.Some? ==> !(s.tasks[INIT].parent.value < INIT);
    } else {
      assert HasParent(s, t);
      var p := s.tasks[t].parent.value;
      RootedAtInit(s, p);
    }
  }

  /** t is a child of p exactly when p is its parent and it was not waited for; then it is listed once. */
  lemma {:induction false} LinksAgree(s: State, p: nat, t: nat)
    requires Inv(s) && p in s.tasks && t in s.tasks && t != INIT
    ensures t in s.tasks[p].children <==> s.tasks[t].parent == Some(p) && !Gone(s, t)
    ensures Distinct(s.tasks[p].children)
  {
    InvOpens(s);
    assert ChildrenOk(s, p);
    if t in s.tasks[p].children {
      var i :| 0 <= i < |s.tasks[p].children| && s.tasks[p].children[i] == t;
      assert HasChild(s, p, i);
    }
    if s.tasks[t].parent == Some(p) && !Gone(s, t) {
      assert HasParent(s, t);
    }
  }

  const TRAMPOLINE := 0xFFFF_FFFF_FFFF_F000
  const KERNEL_STACK_SIZE := 8192
  const PAGE_SIZE := 4096

  /** kernel_stack_position: from the trampoline downwards, a guard page below each stack. */
  function StackTop(pid: nat): int {
    TRAMPOLINE - pid * (KERNEL_STACK_SIZE + PAGE_SIZE)
  }

  function StackBottom(pid: nat): int {
    StackTop(pid) - KERNEL_STACK_SIZE
  }

  /** Kernel stacks of different processes never overlap; at least the guard page lies between them. */
  lemma {:induction false} StacksApart(s: State, t: nat, u: nat)
    requires Inv(s) && t in s.tasks && u in s.tasks && t != u
    ensures StackTop(s.tasks[t].pid) + PAGE_SIZE <= StackBottom(s.tasks[u].pid)
         || StackTop(s.tasks[u].pid) + PAGE_SIZE <= StackBottom(s.tasks[t].pid)
  {
    InvOpens(s);
    StackOrder(s.tasks[t].pid, s.tasks[u].pid);
  }

  /** Where a kernel stack lies: two pages, the first at the trampoline, each next one three pages lower. */
  lemma {:induction false} StackPlace(pid: nat)
    ensures StackTop(pid) == 0xFFFF_FFFF_FFFF_F000 - 12288 * pid && StackTop(pid) - StackBottom(pid) == 8192
    ensures StackTop(pid) <= 0xFFFF_FFFF_FFFF_F000 && StackTop(pid) % 4096 == 0
  {
    assert StackTop(pid) == 4096 * (0xF_FFFF_FFFF_FFFF - 3 * pid);
  }

  lemma {:induction false} StackOrder(p: nat, q: nat)
    requires p != q
    ensures StackTop(p) + PAGE_SIZE <= StackBottom(q) || StackTop(q) + PAGE_SIZE <= StackBottom(p)
  {
  }

  /** Two entries of the log are about two tasks, and each has the code its task passed to exit. */
  lemma {:induction false} ReapedOnce(s: State, i: nat, j: nat)
    requires Inv(s) && i < |s.log| && j < |s.log|
    ensures s.log[i].task in s.exits && s.log[i].code == s.exits[s.log[i].task]
    ensures i != j ==> s.log[i].task != s.log[j].task
  {
    InvOpens(s);
  }

  // ----- the steps

  function WithStatus(s: State, t: nat, status: Status): map<nat, Task>
    requires t in s.tasks
  {
    s.tasks[t := s.tasks[t].(status := status)]
  }

  /** Processor::run: the front of the ready queue starts to run. */
  function Dispatched(s: State): State
    requires s.ready != [] && s.ready[0] in s.tasks
  {
    s.(tasks := WithStatus(s, s.ready[0], Running), ready := s.ready[1..], current := Some(s.ready[0]))
  }

  /** suspend_current_and_run_next: the running task goes to the back of the queue. */
  function Yielded(s: State): State
    requires s.current.Some? && s.current.value in s.tasks
  {
    s.(tasks := WithStatus(s, s.current.value, Ready), ready := s.ready + [s.current.value], current := None)
  }

  /** PidAllocator::alloc: the latest recycled identifier, else a new one. */
  function FreshPid(s: State): nat {
    if |s.recycled| > 0 then s.recycled[|s.recycled| - 1] else s.nextPid
  }

  function WithPid(s: State): State {
    if |s.recycled| > 0 then s.(recycled := s.recycled[..|s.recycled| - 1]) else s.(nextPid := s.nextPid + 1)
  }

  /** TaskControlBlock::fork and add_task: a new ready child of the running task. */
  function Forked(s: State): State
    requires s.current.Some? && s.current.value in s.tasks
  {
    var p, c := s.current.value, s.created;
    var parent := s.tasks[p].(children := s.tasks[p].children + [c]);
    WithPid(s).(tasks := s.tasks[p := parent][c := Task(FreshPid(s), Ready, Some(p), [], 0)],
                ready := s.ready + [c], created := c + 1)
  }

  /** The blocks with the children `kids` handed over to initproc. */
  function Adopted(tasks: map<nat, Task>, kids: seq<nat>): map<nat, Task>
    requires INIT in tasks
  {
    map t | t in tasks ::
      if t == INIT then tasks[t].(children := tasks[t].children + kids)
      else if t in kids then tasks[t].(parent := Some(INIT)) else tasks[t]
  }

  /** exit_current_and_run_next by a task other than initproc. */
  function Exited(s: State, code: int): State
    requires s.current.Some? && s.current.value in s.tasks && s.current.value != INIT && INIT in s.tasks
  {
    var t := s.current.value;
    var adopted := Adopted(s.tasks, s.tasks[t].children);
    s.(tasks := adopted[t := adopted[t].(status := Zombie, exitCode := code, children := [])],
       current := None, exits := s.exits[t := code])
  }

  /** The part of waitpid that takes child number i off the list. */
  function Waited(s: State, i: nat): State
    requires s.current.Some? && s.current.value in s.tasks && i < |s.tasks[s.current.value].children|
    requires s.tasks[s.current.value].children[i] in s.tasks
  {
    var p := s.current.value;
    var c := s.tasks[p].children[i];
    s.(tasks := s.tasks[p := s.tasks[p].(children := Without(s.tasks[p].children, i))],
       log := s.log + [Reap(c, s.tasks[c].pid, s.tasks[c].exitCode)])
  }

  /** The last reference to a reaped block is dropped: its identifier can be used again. */
  function Released(s: State, t: nat): State
    requires t in s.tasks
  {
    s.(tasks := s.tasks - {t}, recycled := s.recycled + [s.tasks[t].pid])
  }

  // ----- what the steps do, field by field

  /** Every task but those in `some` is as it was. */
  ghost predicate SameBut(s: State, t: State, some: set<nat>) {
    && (forall x :: x in s.tasks && x !in some ==> x in t.tasks && t.tasks[x] == s.tasks[x])
    && (forall x :: x in t.tasks && x !in some ==> x in s.tasks)
  }

  /** The task that was first in the queue runs, and the others have moved up. */
  ghost predicate FrontRuns(s: State, t: State) {
    && s.ready != [] && t.current == Some(s.ready[0]) && s.ready == [s.ready[0]] + t.ready
    && s.ready[0] in s.tasks && s.ready[0] in t.tasks
    && t.tasks[s.ready[0]] == s.tasks[s.ready[0]].(status := Running) && SameBut(s, t, {s.ready[0]})
  }

  /** The task that ran is last in the queue. */
  ghost predicate GoesToBack(s: State, t: State) {
    && s.current.Some? && t.current == None && t.ready == s.ready + [s.current.value]
    && s.current.value in s.tasks && s.current.value in t.tasks
    && t.tasks[s.current.value] == s.tasks[s.current.value].(status := Ready) && SameBut(s, t, {s.current.value})
  }

  /** There is one task more, with identifier pid, ready behind all others: the last child of the one that runs. */
  ghost predicate NewChild(s: State, t: State, pid: nat) {
    && s.current.Some? && t.current == s.current && s.created !in s.tasks && s.created in t.tasks
    && s.current.value in s.tasks && s.current.value in t.tasks && s.current.value != s.created
    && t.tasks[s.created].parent == s.current && t.tasks[s.created].pid == pid
    && t.tasks[s.created].status == Ready && t.tasks[s.created].children == []
    && t.tasks[s.current.value].children == s.tasks[s.current.value].children + [s.created]
    && t.tasks[s.current.value] == s.tasks[s.current.value].(children := t.tasks[s.current.value].children)
    && SameBut(s, t, {s.created, s.current.value}) && (forall x :: x in s.tasks ==> s.tasks[x].pid != pid)
    && t.ready == s.ready + [s.created] && t.created == s.created + 1
  }

  /** The task that ran is a zombie with this code and without children; they are initproc's last children now, in the
      order they had. */
  ghost predicate LeavesBehind(s: State, t: State, code: int) {
    && s.current.Some? && t.current == None && t.ready == s.ready && t.created == s.created
    && var me := s.current.value;
      && me in s.tasks && me in t.tasks && me != INIT && INIT in s.tasks && INIT in t.tasks
      && t.tasks[me] == s.tasks[me].(status := Zombie, exitCode := code, children := [])
      && t.tasks[INIT] == s.tasks[INIT].(children := s.tasks[INIT].children + s.tasks[me].children)
      && (forall x :: x in s.tasks[me].children ==>
            x in s.tasks && x in t.tasks && t.tasks[x] == s.tasks[x].(parent := Some(INIT)))
      && (forall x :: x in s.tasks && x != me && x != INIT && x !in s.tasks[me].children ==>
            x in t.tasks && t.tasks[x] == s.tasks[x])
      && (forall x :: x in t.tasks ==> x in s.tasks) && me in t.exits && t.exits[me] == code
  }

  /** Child number z is off the list of the task that runs, and in the log with its code; no other field changed. */
  ghost predicate TakesOff(s: State, t: State, z: nat) {
    && s.current.Some? && t.current == s.current && t.ready == s.ready && s.current.value in s.tasks
    && s.current.value in t.tasks && SameBut(s, t, {s.current.value})
    && var kids := s.tasks[s.current.value].children;
      && z < |kids| && kids[z] in s.tasks
      && t.tasks[s.current.value] == s.tasks[s.current.value].(children := kids[..z] + kids[z + 1..])
      && t.log == s.log + [Reap(kids[z], s.tasks[kids[z]].pid, s.tasks[kids[z]].exitCode)]
  }

  // ----- every step keeps the invariant

  lemma {:induction false} SameGone(s: State, u: State)
    requires u.log == s.log
    ensures forall t :: Gone(u, t) == Gone(s, t)
  {
  }

  /** Changing the status of a task between Ready and Running leaves the family alone. */
  lemma {:induction false} StatusKeepsFamily(s: State, t: nat, status: Status, u: State)
    requires Family(s) && t in s.tasks && status != Zombie && s.tasks[t].status != Zombie
    requires u.tasks == WithStatus(s, t, status) && u.created == s.created && u.log == s.log
    ensures Family(u)
  {
    SameGone(s, u);
    forall x | x in u.tasks ensures x < u.created && ChildrenOk(u, x) {
      assert ChildrenOk(s, x);
      forall i | 0 <= i < |u.tasks[x].children| ensures HasChild(u, x, i) {
        assert HasChild(s, x, i);
      }
    }
    forall x | x in u.tasks && x != INIT && !Gone(u, x) ensures HasParent(u, x) {
      assert HasParent(s, x);
    }
  }

  lemma {:induction false} StatusKeepsPids(s: State, t: nat, status: Status, u: State)
    requires Pids(s) && t in s.tasks && u.tasks == WithStatus(s, t, status) && u.nextPid == s.nextPid
    requires u.recycled == s.recycled
    ensures Pids(u)
  {
  }

  lemma {:induction false} StatusKeepsBooks(s: State, t: nat, status: Status, u: State)
    requires Books(s) && t in s.tasks && status != Zombie && s.tasks[t].status != Zombie
    requires u.tasks == WithStatus(s, t, status) && u.created == s.created && u.log == s.log && u.exits == s.exits
    ensures Books(u)
  {
  }

  lemma {:induction false} DispatchSchedules(s: State)
    requires Scheduled(s) && s.ready != [] && s.current == None
    ensures s.ready[0] in s.tasks && s.tasks[s.ready[0]].status == Ready && Scheduled(Dispatched(s))
  {
    var t := s.ready[0];
    assert t in s.ready;
    var u := Dispatched(s);
    forall x ensures x in u.ready <==> x in u.tasks && u.tasks[x].status == Ready {
      InFront(s.ready, x);
      assert x in s.ready <==> x in s.tasks && s.tasks[x].status == Ready;
    }
    forall x ensures u.current == Some(x) <==> x in u.tasks && u.tasks[x].status == Running {
      assert s.current == Some(x) <==> x in s.tasks && s.tasks[x].status == Running;
    }
  }

  lemma {:induction false} InFront(q: seq<nat>, x: nat)
    requires q != [] && Distinct(q)
    ensures x in q[1..] <==> x in q && x != q[0]
  {
    if x in q && x != q[0] {
      var i :| 0 <= i < |q| && q[i] == x;
      assert q[1..][i - 1] == x;
    }
  }

  /** While nobody runs somebody is ready: initproc, if no one else. */
  lemma {:induction false} NeverIdle(s: State)
    requires Inv(s) && s.current == None
    ensures s.ready != [] && s.ready[0] in s.tasks
  {
    InvOpens(s);
    assert s.current != Some(INIT);
    assert INIT in s.ready;
    assert s.ready[0] in s.ready;
  }

  lemma {:induction false} DispatchRunsFront(s: State)
    requires s.ready != [] && s.ready[0] in s.tasks
    ensures FrontRuns(s, Dispatched(s))
  {
  }

  lemma {:induction false} YieldGoesToBack(s: State)
    requires s.current.Some? && s.current.value in s.tasks
    ensures GoesToBack(s, Yielded(s))
  {
  }

  lemma {:induction false} DispatchKeeps(s: State)
    requires Inv(s) && s.current == None
    ensures s.ready != [] && s.ready[0] in s.tasks && Inv(Dispatched(s)) && FrontRuns(s, Dispatched(s))
  {
    NeverIdle(s);
    DispatchRunsFront(s);
    InvOpens(s);
    DispatchSchedules(s);
    StatusKeepsFamily(s, s.ready[0], Running, Dispatched(s));
    StatusKeepsPids(s, s.ready[0], Running, Dispatched(s));
    StatusKeepsBooks(s, s.ready[0], Running, Dispatched(s));
  }

  lemma {:induction false} YieldSchedules(s: State)
    requires Scheduled(s) && s.current.Some?
    ensures s.current.value in s.tasks && s.tasks[s.current.value].status == Running && Scheduled(Yielded(s))
  {
    var t := s.current.value;
    assert s.current == Some(t);
    var u := Yielded(s);
    assert t !in s.ready;
    forall x ensures x in u.ready <==> x in u.tasks && u.tasks[x].status == Ready {
      AtBack(s.ready, t, x);
      assert x in s.ready <==> x in s.tasks && s.tasks[x].status == Ready;
    }
    forall x ensures u.current == Some(x) <==> x in u.tasks && u.tasks[x].status == Running {
      assert s.current == Some(x) <==> x in s.tasks && s.tasks[x].status == Running;
    }
  }

  lemma {:induction false} AtBack(q: seq<nat>, t: nat, x: nat)
    ensures x in q + [t] <==> x == t || x in q
    ensures Distinct(q) && t !in q ==> Distinct(q + [t])
  {
    assert (q + [t])[|q|] == t;
  }

  lemma {:induction false} YieldKeeps(s: State)
    requires Inv(s) && s.current.Some?
    ensures s.current.value in s.tasks && Inv(Yielded(s)) && GoesToBack(s, Yielded(s))
  {
    InvOpens(s);
    YieldSchedules(s);
    YieldGoesToBack(s);
    StatusKeepsFamily(s, s.current.value, Ready, Yielded(s));
    StatusKeepsPids(s, s.current.value, Ready, Yielded(s));
    StatusKeepsBooks(s, s.current.value, Ready, Yielded(s));
  }

  lemma {:induction false} Listed(s: State, p: nat, c: nat)
    requires Family(s) && p in s.tasks
    ensures c in s.tasks[p].children ==> c in s.tasks && c != INIT && s.tasks[c].parent == Some(p) && !Gone(s, c)
  {
    assert ChildrenOk(s, p);
    if c in s.tasks[p].children {
      var i :| 0 <= i < |s.tasks[p].children| && s.tasks[p].children[i] == c;
      assert HasChild(s, p, i);
    }
  }

  // ----- fork

  lemma {:induction false} ForkFamily(s: State)
    requires Family(s) && Books(s) && s.current.Some? && s.current.value in s.tasks
    requires s.tasks[s.current.value].status == Running
    ensures Family(Forked(s))
  {
    var p, c, u := s.current.value, s.created, Forked(s);
    SameGone(s, u);
    assert c !in s.tasks;
    assert !Gone(s, c);
    forall x | x in u.tasks ensures x < u.created && ChildrenOk(u, x) {
      if x != c {
        ForkChildren(s, x);
      }
    }
    forall x | x in u.tasks && x != INIT && !Gone(u, x) ensures HasParent(u, x) {
      AtBack(s.tasks[p].children, c, c);
      if x != c {
        assert HasParent(s, x);
        AtBack(s.tasks[p].children, c, x);
      }
    }
  }

  lemma {:induction false} ForkChildren(s: State, x: nat)
    requires Family(s) && s.current.Some? && s.current.value in s.tasks && s.tasks[s.current.value].status == Running
    requires x in s.tasks && !Gone(s, s.created)
    ensures x in Forked(s).tasks && ChildrenOk(Forked(s), x)
  {
    var p, c, u := s.current.value, s.created, Forked(s);
    SameGone(s, u);
    assert ChildrenOk(s, x);
    if x == p {
      Listed(s, p, c);
      AtBack(s.tasks[p].children, c, c);
    }
    forall i | 0 <= i < |u.tasks[x].children| ensures HasChild(u, x, i) {
      if i < |s.tasks[x].children| {
        assert HasChild(s, x, i);
      }
    }
  }

  lemma {:induction false} ForkSchedules(s: State)
    requires Scheduled(s) && s.current.Some? && s.created !in s.tasks
    ensures s.current.value in s.tasks && s.tasks[s.current.value].status == Running && Scheduled(Forked(s))
  {
    var p, c := s.current.value, s.created;
    assert s.current == Some(p);
    var u := Forked(s);
    assert c !in s.ready;
    forall x ensures x in u.ready <==> x in u.tasks && u.tasks[x].status == Ready {
      AtBack(s.ready, c, x);
      assert x in s.ready <==> x in s.tasks && s.tasks[x].status == Ready;
    }
    forall x ensures u.current == Some(x) <==> x in u.tasks && u.tasks[x].status == Running {
      assert s.current == Some(x) <==> x in s.tasks && s.tasks[x].status == Running;
    }
  }

  lemma {:induction false} FreshPidIsFree(s: State)
    requires Pids(s)
    ensures forall t :: t in s.tasks ==> s.tasks[t].pid != FreshPid(s)
    ensures FreshPid(s) < WithPid(s).nextPid && FreshPid(s) !in WithPid(s).recycled && Distinct(WithPid(s).recycled)
    ensures forall i :: 0 <= i < |WithPid(s).recycled| ==> WithPid(s).recycled[i] < WithPid(s).nextPid
    ensures forall x :: x in WithPid(s).recycled ==> x in s.recycled
    ensures |s.recycled| > 0 ==> WithPid(s).recycled + [FreshPid(s)] == s.recycled && WithPid(s).nextPid == s.nextPid
    ensures |s.recycled| == 0 ==> FreshPid(s) == s.nextPid && WithPid(s).nextPid == s.nextPid + 1
  {
    if |s.recycled| > 0 {
      assert s.recycled[|s.recycled| - 1] in s.recycled;
    }
  }

  lemma {:induction false} ForkPids(s: State)
    requires Pids(s) && s.current.Some? && s.current.value in s.tasks && s.created !in s.tasks && INIT in s.tasks
    ensures Pids(Forked(s))
  {
    FreshPidIsFree(s);
    var u := Forked(s);
    forall t | t in u.tasks ensures u.tasks[t].pid < u.nextPid && u.tasks[t].pid !in u.recycled {
      if t != s.created {
        assert s.tasks[t].pid !in s.recycled;
      }
    }
  }

  lemma {:induction false} ForkBooks(s: State)
    requires Books(s) && s.current.Some? && s.current.value in s.tasks && s.created !in s.tasks
    ensures Books(Forked(s))
  {
  }

  lemma {:induction false} ForkKeeps(s: State)
    requires Inv(s) && s.current.Some?
    ensures s.current.value in s.tasks && Inv(Forked(s)) && NewChild(s, Forked(s), FreshPid(s))
  {
    ForkMakesChild(s);
    InvOpens(s);
    assert s.created !in s.tasks;
    ForkSchedules(s);
    ForkFamily(s);
    ForkPids(s);
    ForkBooks(s);
  }

  lemma {:induction false} ForkMakesChild(s: State)
    requires Inv(s) && s.current.Some?
    ensures s.current.value in s.tasks && NewChild(s, Forked(s), FreshPid(s))
  {
    InvOpens(s);
    assert s.current == Some(s.current.value);
    assert s.created !in s.tasks;
    FreshPidIsFree(s);
    assert SameBut(s, Forked(s), {s.created, s.current.value});
  }

  // ----- exit

  lemma {:induction false} TwoLists(a: seq<nat>, b: seq<nat>, x: nat)
    requires Distinct(a) && Distinct(b) && forall y :: y in a ==> y !in b
    ensures Distinct(a + b) && (x in a + b <==> x in a || x in b)
  {
    assert forall i :: 0 <= i < |a| ==> a[i] in a;
    assert forall i :: 0 <= i < |b| ==> b[i] in b;
    if x in b {
      var i :| 0 <= i < |b| && b[i] == x;
      assert (a + b)[|a| + i] == x;
    }
  }

  ghost predicate CanExit(s: State) {
    && s.current.Some? && s.current.value in s.tasks && s.tasks[s.current.value].status == Running
    && s.current.value != INIT
  }

  /** Initproc takes over the children: they are not among its own yet. */
  lemma {:induction false} InitAdopts(s: State, x: nat)
    requires Family(s) && CanExit(s)
    ensures var mine, kids := s.tasks[INIT].children, s.tasks[s.current.value].children;
      Distinct(mine + kids) && (x in mine + kids <==> x in mine || x in kids)
  {
    var mine, kids := s.tasks[INIT].children, s.tasks[s.current.value].children;
    assert ChildrenOk(s, INIT) && ChildrenOk(s, s.current.value);
    forall y | y in mine ensures y !in kids {
      Listed(s, INIT, y);
      Listed(s, s.current.value, y);
    }
    TwoLists(mine, kids, x);
  }

  lemma {:induction false} ExitChildren(s: State, code: int, p: nat)
    requires Family(s) && CanExit(s) && p in s.tasks
    ensures ChildrenOk(Exited(s, code), p)
  {
    var t, u := s.current.value, Exited(s, code);
    var kids := s.tasks[t].children;
    SameGone(s, u);
    assert ChildrenOk(s, p) && ChildrenOk(s, t);
    InitAdopts(s, INIT);
    forall i | 0 <= i < |u.tasks[p].children| ensures HasChild(u, p, i) {
      var c := u.tasks[p].children[i];
      Listed(s, t, c);
      if i < |s.tasks[p].children| {
        assert HasChild(s, p, i);
      } else {
        assert c == kids[i - |s.tasks[p].children|];
      }
    }
  }

  lemma {:induction false} ExitParent(s: State, code: int, x: nat)
    requires Family(s) && CanExit(s) && x in s.tasks && x != INIT && !Gone(s, x)
    ensures HasParent(Exited(s, code), x)
  {
    var t, u := s.current.value, Exited(s, code);
    assert HasParent(s, x);
    Listed(s, t, x);
    InitAdopts(s, x);
  }

  lemma {:induction false} ExitFamily(s: State, code: int)
    requires Family(s) && CanExit(s)
    ensures Family(Exited(s, code))
  {
    var u := Exited(s, code);
    SameGone(s, u);
    forall x | x in u.tasks ensures x < u.created && ChildrenOk(u, x) {
      ExitChildren(s, code, x);
    }
    forall x | x in u.tasks && x != INIT && !Gone(u, x) ensures HasParent(u, x) {
      ExitParent(s, code, x);
    }
  }

  lemma {:induction false} ExitSchedules(s: State, code: int)
    requires Scheduled(s) && CanExit(s) && INIT in s.tasks
    ensures Scheduled(Exited(s, code))
  {
    var t, u := s.current.value, Exited(s, code);
    forall x ensures x in u.ready <==> x in u.tasks && u.tasks[x].status == Ready {
      assert x in s.ready <==> x in s.tasks && s.tasks[x].status == Ready;
    }
    forall x ensures u.current == Some(x) <==> x in u.tasks && u.tasks[x].status == Running {
      assert s.current == Some(x) <==> x in s.tasks && s.tasks[x].status == Running;
    }
  }

  lemma {:induction false} ExitPids(s: State, code: int)
    requires Pids(s) && CanExit(s) && INIT in s.tasks
    ensures Pids(Exited(s, code))
  {
    var u := Exited(s, code);
    assert u.tasks.Keys == s.tasks.Keys && forall x :: x in u.tasks ==> u.tasks[x].pid == s.tasks[x].pid;
  }

  lemma {:induction false} ExitBooks(s: State, code: int)
    requires Books(s) && CanExit(s) && INIT in s.tasks && s.current.value < s.created
    ensures Books(Exited(s, code))
  {
    var t, u := s.current.value, Exited(s, code);
    assert t !in s.exits;
    forall x | x in u.tasks && u.tasks[x].status == Zombie ensures x in u.exits && u.exits[x] == u.tasks[x].exitCode {
      if x != t {
        assert s.tasks[x].status == Zombie;
      }
    }
  }

  lemma {:induction false} ExitKids(s: State)
    requires Inv(s) && s.current.Some? && s.current.value != INIT
    ensures CanExit(s) && INIT in s.tasks
    ensures forall x :: x in s.tasks[s.current.value].children ==> x in s.tasks && x != INIT && x != s.current.value
  {
    InvOpens(s);
    var me := s.current.value;
    assert s.current == Some(me);
    forall x | x in s.tasks[me].children ensures x in s.tasks && x != INIT && x != me {
      Listed(s, me, x);
      assert HasParent(s, x);
    }
  }

  lemma {:induction false} ExitLeaves(s: State, code: int)
    requires CanExit(s) && INIT in s.tasks
    requires forall x :: x in s.tasks[s.current.value].children ==> x in s.tasks && x != INIT && x != s.current.value
    ensures LeavesBehind(s, Exited(s, code), code)
  {
  }

  lemma {:induction false} ExitKeeps(s: State, code: int)
    requires Inv(s) && s.current.Some? && s.current.value != INIT
    ensures INIT in s.tasks && s.current.value in s.tasks && Inv(Exited(s, code))
    ensures LeavesBehind(s, Exited(s, code), code)
  {
    ExitKids(s);
    ExitLeaves(s, code);
    InvOpens(s);
    assert s.current == Some(s.current.value);
    ExitFamily(s, code);
    ExitSchedules(s, code);
    ExitPids(s, code);
    ExitBooks(s, code);
  }

  // ----- wait

  ghost predicate CanReap(s: State, i: nat) {
    && s.current.Some? && s.current.value in s.tasks && i < |s.tasks[s.current.value].children|
    && s.tasks[s.current.value].children[i] in s.tasks && s.tasks[s.tasks[s.current.value].children[i]].status == Zombie
  }

  lemma {:induction false} TakenOut(q: seq<nat>, i: nat, x: nat)
    requires i < |q| && Distinct(q)
    ensures Distinct(Without(q, i)) && (x in Without(q, i) <==> x in q && x != q[i])
  {
    var r := Without(q, i);
    assert forall j :: 0 <= j < |r| ==> r[j] == q[if j < i then j else j + 1];
    if x in q && x != q[i] {
      var j :| 0 <= j < |q| && q[j] == x;
      assert r[if j < i then j else j - 1] == x;
    }
  }

  lemma {:induction false} NowGone(s: State, i: nat, x: nat)
    requires CanReap(s, i)
    ensures Gone(Waited(s, i), x) <==> Gone(s, x) || x == s.tasks[s.current.value].children[i]
  {
    var u := Waited(s, i);
    assert u.log[|s.log|].task == s.tasks[s.current.value].children[i];
    if Gone(s, x) {
      var j :| 0 <= j < |s.log| && s.log[j].task == x;
      assert u.log[j].task == x;
    }
  }

  lemma {:induction false} WaitChildren(s: State, i: nat, p: nat)
    requires Family(s) && CanReap(s, i) && p in s.tasks
    ensures ChildrenOk(Waited(s, i), p)
  {
    var me, u := s.current.value, Waited(s, i);
    assert ChildrenOk(s, p) && ChildrenOk(s, me);
    TakenOut(s.tasks[me].children, i, 0);
    forall j | 0 <= j < |u.tasks[p].children| ensures HasChild(u, p, j) {
      var c := u.tasks[p].children[j];
      assert c in u.tasks[p].children;
      TakenOut(s.tasks[me].children, i, c);
      Listed(s, p, c);
      Listed(s, me, s.tasks[me].children[i]);
      NowGone(s, i, c);
    }
  }

  lemma {:induction false} WaitFamily(s: State, i: nat)
    requires Family(s) && CanReap(s, i)
    ensures Family(Waited(s, i))
  {
    var me, u := s.current.value, Waited(s, i);
    assert ChildrenOk(s, me);
    forall x | x in u.tasks ensures x < u.created && ChildrenOk(u, x) {
      WaitChildren(s, i, x);
    }
    forall x | x in u.tasks && x != INIT && !Gone(u, x) ensures HasParent(u, x) {
      NowGone(s, i, x);
      assert HasParent(s, x);
      TakenOut(s.tasks[me].children, i, x);
    }
  }

  lemma {:induction false} WaitBooks(s: State, i: nat)
    requires Books(s) && Family(s) && CanReap(s, i)
    ensures Books(Waited(s, i))
  {
    var me, u := s.current.value, Waited(s, i);
    var c := s.tasks[me].children[i];
    Listed(s, me, c);
    forall x | x in u.tasks && u.tasks[x].status == Zombie ensures x in u.exits && u.exits[x] == u.tasks[x].exitCode {
      assert s.tasks[x].status == Zombie;
    }
    assert forall j :: 0 <= j < |s.log| ==> s.log[j].task != c;
  }

  lemma {:induction false} WaitTakesOff(s: State, i: nat)
    requires CanReap(s, i)
    ensures TakesOff(s, Waited(s, i), i)
  {
  }

  lemma {:induction false} WaitKeeps(s: State, i: nat)
    requires Inv(s) && CanReap(s, i)
    ensures Inv(Waited(s, i)) && TakesOff(s, Waited(s, i), i)
  {
    InvOpens(s);
    WaitTakesOff(s, i);
    WaitFamily(s, i);
    WaitBooks(s, i);
    WaitRest(s, i);
  }

  lemma {:induction false} WaitRest(s: State, i: nat)
    requires Scheduled(s) && Pids(s) && CanReap(s, i)
    ensures Scheduled(Waited(s, i)) && Pids(Waited(s, i))
  {
    var u := Waited(s, i);
    assert forall x :: x in u.tasks <==> x in s.tasks;
    assert forall x :: x in s.tasks ==> u.tasks[x].pid == s.tasks[x].pid && u.tasks[x].status == s.tasks[x].status;
  }

  // ----- the block is dropped

  lemma {:induction false} GoneIsZombie(s: State, t: nat)
    requires Books(s) && Gone(s, t) && t in s.tasks
    ensures s.tasks[t].status == Zombie
  {
    var i :| 0 <= i < |s.log| && s.log[i].task == t;
    assert s.log[i].task in s.exits;
  }

  lemma {:induction false} ReleaseFamily(s: State, t: nat)
    requires Family(s) && Books(s) && t in s.tasks && Gone(s, t)
    ensures Family(Released(s, t))
  {
    var u := Released(s, t);
    SameGone(s, u);
    GoneIsZombie(s, t);
    forall x | x in u.tasks ensures x < u.created && ChildrenOk(u, x) {
      assert ChildrenOk(s, x);
      forall i | 0 <= i < |u.tasks[x].children| ensures HasChild(u, x, i) {
        assert HasChild(s, x, i);
      }
    }
    forall x | x in u.tasks && x != INIT && !Gone(u, x) ensures HasParent(u, x) {
      assert HasParent(s, x);
    }
  }

  lemma {:induction false} ReleasePids(s: State, t: nat)
    requires Pids(s) && t in s.tasks
    ensures Pids(Released(s, t))
  {
    var u := Released(s, t);
    AtBack(s.recycled, s.tasks[t].pid, 0);
    forall x | x in u.tasks ensures u.tasks[x].pid < u.nextPid && u.tasks[x].pid !in u.recycled {
      AtBack(s.recycled, s.tasks[t].pid, s.tasks[x].pid);
    }
  }

  lemma {:induction false} ReleaseRest(s: State, t: nat)
    requires Scheduled(s) && Books(s) && t in s.tasks && Gone(s, t)
    ensures Scheduled(Released(s, t)) && Books(Released(s, t))
  {
    var u := Released(s, t);
    GoneIsZombie(s, t);
    forall x ensures x in u.ready <==> x in u.tasks && u.tasks[x].status == Ready {
      assert x in s.ready <==> x in s.tasks && s.tasks[x].status == Ready;
    }
    forall x ensures u.current == Some(x) <==> x in u.tasks && u.tasks[x].status == Running {
      assert s.current == Some(x) <==> x in s.tasks && s.tasks[x].status == Running;
    }
  }

  lemma {:induction false} ReleaseKeeps(s: State, t: nat)
    requires Inv(s) && t in s.tasks && Gone(s, t)
    ensures Inv(Released(s, t)) && t !in Released(s, t).tasks && SameBut(s, Released(s, t), {t})
    ensures Released(s, t).recycled == s.recycled + [s.tasks[t].pid] && Released(s, t).ready == s.ready
  {
    InvOpens(s);
    ReleaseFamily(s, t);
    ReleasePids(s, t);
    ReleaseRest(s, t);
  }

  // ----- which child waitpid takes

  predicate Matches(tasks: map<nat, Task>, c: nat, pid: int) {
    pid == -1 || pid == 0 || (c in tasks && pid == tasks[c].pid)
  }

  predicate Collectable(tasks: map<nat, Task>, c: nat, pid: int) {
    c in tasks && tasks[c].status == Zombie && Matches(tasks, c, pid)
  }

  /** The first child from number i on that matches, |kids| when there is none. */
  function FirstMatch(tasks: map<nat, Task>, kids: seq<nat>, pid: int, i: nat): (r: nat)
    requires i <= |kids|
    ensures i <= r <= |kids| && (r < |kids| ==> Matches(tasks, kids[r], pid))
    ensures forall j :: i <= j < r ==> !Matches(tasks, kids[j], pid)
    decreases |kids| - i
  {
    if i == |kids| || Matches(tasks, kids[i], pid) then i else FirstMatch(tasks, kids, pid, i + 1)
  }

  /** The first child from number i on that matches and is a zombie, |kids| when there is none. */
  function FirstZombie(tasks: map<nat, Task>, kids: seq<nat>, pid: int, i: nat): (r: nat)
    requires i <= |kids|
    ensures i <= r <= |kids| && (r < |kids| ==> Collectable(tasks, kids[r], pid))
    ensures forall j :: i <= j < r ==> !Collectable(tasks, kids[j], pid)
    decreases |kids| - i
  {
    if i == |kids| || Collectable(tasks, kids[i], pid) then i else FirstZombie(tasks, kids, pid, i + 1)
  }

  /** Whoever forks has a child to wait for: asked for the new identifier, waitpid finds exactly that child, and it has
      not exited. */
  lemma {:induction false} ForkThenWait(s: State, t: State, pid: nat)
    requires Inv(s) && Inv(t) && NewChild(s, t, pid)
    ensures pid > 0
    ensures var kids := t.tasks[s.current.value].children;
      && FirstMatch(t.tasks, kids, pid, 0) == |kids| - 1 && kids[|kids| - 1] == s.created
      && FirstZombie(t.tasks, kids, pid, 0) == |kids|
  {
    InvOpens(s);
    InvOpens(t);
    var kids := t.tasks[s.current.value].children;
    forall i | 0 <= i < |kids| - 1 ensures !Matches(t.tasks, kids[i], pid) {
      assert kids[i] in kids;
      Listed(s, s.current.value, s.tasks[s.current.value].children[i]);
      Listed(t, s.current.value, kids[i]);
    }
    assert Matches(t.tasks, kids[|kids| - 1], pid);
  }

  // ----- runs

  /** What can happen next. A fork may find too little memory beforehand (`enough`), in which case the caller is made
      to exit with -1, or fail to copy (`copied`). Initproc does not exit. */
  datatype Event =
    | Dispatch
    | Yield
    | Fork(enough: bool, copied: bool)
    | Spawn(found: bool, copied: bool)
    | Exit(code: int)
    | Wait(pid: int)
    | Release(task: nat)

  ghost predicate Possible(s: State, e: Event) {
    match e
    case Dispatch => s.current == None
    case Yield => s.current.Some?
    case Fork(enough, _) => s.current.Some? && (!enough ==> s.current.value != INIT)
    case Spawn(_, _) => s.current.Some?
    case Exit(_) => s.current.Some? && s.current.value != INIT
    case Wait(_) => s.current.Some?
    case Release(t) => t in s.tasks && Gone(s, t)
  }

  ghost function After(s: State, e: Event): State
    requires Inv(s) && Possible(s, e)
  {
    CurrentIsTask(s);
    match e
    case Dispatch => Dispatched(s)
    case Yield => Yielded(s)
    case Fork(enough, copied) => if !enough then Exited(s, -1) else if copied then Forked(s) else s
    case Spawn(found, copied) => if found && copied then Forked(s) else s
    case Exit(code) => Exited(s, code)
    case Wait(pid) =>
      var kids := s.tasks[s.current.value].children;
      var i := FirstZombie(s.tasks, kids, pid, 0);
      if i < |kids| then Waited(s, i) else s
    case Release(t) => Released(s, t)
  }

  lemma {:induction false} CurrentIsTask(s: State)
    requires Inv(s)
    ensures s.current.Some? ==> s.current.value in s.tasks && s.tasks[s.current.value].status == Running
    ensures INIT in s.tasks && (s.current == None ==> s.ready != [] && s.ready[0] in s.tasks)
  {
    InvOpens(s);
    if s.current.Some? {
      assert s.current == Some(s.current.value);
    } else {
      NeverIdle(s);
    }
  }

  lemma {:induction false} StepKeeps(s: State, e: Event)
    requires Inv(s) && Possible(s, e)
    ensures Inv(After(s, e))
  {
    CurrentIsTask(s);
    match e
    case Dispatch => DispatchKeeps(s);
    case Yield => YieldKeeps(s);
    case Fork(enough, copied) =>
      if !enough {
        ExitKeeps(s, -1);
      } else {
        ForkKeeps(s);
      }
    case Spawn(_, _) => ForkKeeps(s);
    case Exit(code) => ExitKeeps(s, code);
    case Wait(pid) =>
      var kids := s.tasks[s.current.value].children;
      var i := FirstZombie(s.tasks, kids, pid, 0);
      if i < |kids| {
        WaitKeeps(s, i);
      }
    case Release(t) => ReleaseKeeps(s, t);
  }

  ghost predicate AllPossible(s: State, run: seq<Event>)
    requires Inv(s)
    decreases |run|
  {
    run == [] || (Possible(s, run[0]) && (StepKeeps(s, run[0]); AllPossible(After(s, run[0]), run[1..])))
  }

  ghost function AfterRun(s: State, run: seq<Event>): State
    requires Inv(s) && AllPossible(s, run)
    decreases |run|
  {
    if run == [] then s else (StepKeeps(s, run[0]); AfterRun(After(s, run[0]), run[1..]))
  }

  /** Safety over every run: from a sound state only sound states are reached. */
  lemma {:induction false} RunKeeps(s: State, run: seq<Event>)
    requires Inv(s) && AllPossible(s, run)
    ensures Inv(AfterRun(s, run))
    decreases |run|
  {
    if run != [] {
      StepKeeps(s, run[0]);
      RunKeeps(After(s, run[0]), run[1..]);
    }
  }

  /** The kernel after add_initproc: one ready process. */
  function Booted(): State {
    State(map[INIT := Task(0, Ready, None, [], 0)], [INIT], None, 1, [], 1, map[], [])
  }

  lemma {:induction false} BootedIsSound()
    ensures Inv(Booted())
  {
    var s := Booted();
    assert ChildrenOk(s, INIT);
  }
}
