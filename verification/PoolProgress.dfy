/** What the steps of the thread pool achieve when no other thread comes in between: tasks are accepted, run and
    finished, threads are added and leave. */
module PoolProgress {
  import opened PoolModel

  ghost predicate Can(p: Pool, a: Action)
  {
    Usable(p) && Enabled(p, a)
  }

  /** The state after some steps in a row, each of which can be taken. */
  ghost predicate Leads(p: Pool, actions: seq<Action>, q: Pool)
    decreases |actions|
  {
    if actions == [] then p == q else Can(p, actions[0]) && Leads(Next(p, actions[0]), actions[1..], q)
  }

  lemma Leads1(p: Pool, a: Action)
    requires Can(p, a)
    ensures Leads(p, [a], Next(p, a))
  {
    assert [a][1..] == [];
  }

  lemma LeadsMore(p: Pool, a: Action, actions: seq<Action>, q: Pool)
    requires Can(p, a) && Leads(Next(p, a), actions, q)
    ensures Leads(p, [a] + actions, q)
  {
    assert ([a] + actions)[1..] == actions;
  }

  /** An open pool with room accepts a task. */
  lemma OpenPoolAccepts(p: Pool, task: Task) returns (q: Pool)
    requires Inv(p) && p.lock.Free? && !p.shutdown && p.size < |p.ring|
    ensures Leads(p, [Submit(task), Store], q)
    ensures q.accepted == p.accepted + [task] && q.size == p.size + 1 && q.lock.Free?
    ensures q.dequeued == p.dequeued && q.workers == p.workers
  {
    hide Inv;
    StepKeeps(p, Submit(task));
    var p1 := Next(p, Submit(task));
    StepKeeps(p1, Store);
    q := Next(p1, Store);
    Leads1(p1, Store);
    LeadsMore(p, Submit(task), [Store], q);
    assert [Submit(task)] + [Store] == [Submit(task), Store];
  }

  /** A worker that comes to its lock, or is woken while no exits are wanted, takes the oldest waiting task, runs it,
      and comes back to its lock. */
  lemma WorkerRunsOldest(p: Pool, w: nat) returns (q: Pool)
    requires Inv(p) && p.lock.Free? && !p.shutdown && p.size > 0 && w < |p.workers|
    requires p.workers[w].phase.AtLock? || (p.workers[w].phase.Sleeping? && p.waitExit == 0)
    ensures Leads(p, [if p.workers[w].phase.AtLock? then Acquire(w) else Wake(w), Take(w), Begin(w), End(w)], q)
    ensures |p.dequeued| < |p.accepted| && q.dequeued == p.dequeued + [p.accepted[|p.dequeued|]]
    ensures q.size == p.size - 1 && q.accepted == p.accepted && q.lock.Free?
    ensures q.log == p.log + [Start(|p.dequeued|), Finish(|p.dequeued|)]
    ensures q.finished == p.finished + {|p.dequeued|} && q.busy == p.busy && q.live == p.live
    ensures |q.workers| == |p.workers| && q.workers[w].phase == AtLock
  {
    hide Inv, Contents, TicketsOk, SlotsOk, LockOk;
    var a := if p.workers[w].phase.AtLock? then Acquire(w) else Wake(w);
    StepKeeps(p, a);
    var p1 := Next(p, a);
    StepKeeps(p1, Take(w));
    var p2 := Next(p1, Take(w));
    OldestAtFront(p1);
    StepKeeps(p2, Begin(w));
    var p3 := Next(p2, Begin(w));
    StepKeeps(p3, End(w));
    q := Next(p3, End(w));
    Leads1(p3, End(w));
    LeadsMore(p2, Begin(w), [End(w)], q);
    LeadsMore(p1, Take(w), [Begin(w)] + [End(w)], q);
    LeadsMore(p, a, [Take(w)] + ([Begin(w)] + [End(w)]), q);
    assert [a] + ([Take(w)] + ([Begin(w)] + [End(w)])) == [a, Take(w), Begin(w), End(w)];
  }

  lemma OldestAtFront(p: Pool)
    requires Inv(p) && p.size > 0
    ensures p.front < |p.ring| && |p.dequeued| < |p.accepted| && p.ring[p.front] == p.accepted[|p.dequeued|]
  {
    hide TicketsOk, SlotsOk, CountsOk, LockOk;
    RingPop(p.ring, p.front, p.size);
    assert Contents(p.ring, p.front, p.size)[0] == p.ring[p.front];
  }

  /** A worker that wakes up while exits are wanted leaves, unless that would leave too few. */
  lemma SleeperLeavesOnRequest(p: Pool, w: nat)
    requires Inv(p) && p.lock.Free? && w < |p.workers| && p.workers[w].phase.Sleeping? && p.waitExit > 0
    ensures Can(p, Wake(w)) && Next(p, Wake(w)).waitExit == p.waitExit - 1
    ensures Next(p, Wake(w)).workers[w].phase == Retired <==> p.live > p.minThr
    ensures Next(p, Wake(w)).live == if p.live > p.minThr then p.live - 1 else p.live
  {
    InvUsable(p);
  }

  /** After the shutdown, every worker that comes to its lock or wakes up leaves. */
  lemma WorkersLeaveAfterShutdown(p: Pool, w: nat)
    requires Inv(p) && p.lock.Free? && p.shutdown && w < |p.workers|
    requires p.workers[w].phase.AtLock? || p.workers[w].phase.Sleeping?
    ensures var a := if p.workers[w].phase.AtLock? then Acquire(w) else Wake(w);
      Can(p, a) && Next(p, a).workers[w].phase.Gone()
  {
    InvUsable(p);
  }

  /** A whole round of the admin's loop: with ten tasks or more waiting, it fills the free slots, ten at most and no
      more than the maximum allows; and it asks ten workers to leave when fewer than half of them are busy and there are
      more than the minimum. */
  lemma AdminRound(p: Pool, alive: seq<bool>, births: seq<Creation>) returns (q: Pool)
    requires Inv(p) && p.lock.Free? && !p.shutdown && p.admin.LoopTest?
    requires |alive| == |births| == p.maxThr && Honest(p, alive)
    ensures Leads(p, [AdminTest, AdminSizes, AdminBusy, AdminGrow(alive, births), AdminShrink], q)
    ensures |p.threads| == |alive| && p.live <= p.maxThr
    ensures q.live == p.live +
      (if p.size >= 10 then Least(FreeSlots(p.threads, alive, 0), 10, p.maxThr - p.live) else 0)
    ensures q.waitExit == if p.busy * 2 < p.live && p.live > p.minThr then 10 else p.waitExit
    ensures q.admin.LoopTest? && q.accepted == p.accepted && q.dequeued == p.dequeued
  {
    hide Inv, Grow, FreeSlots, Honest;
    InvSizes(p);
    StepKeeps(p, AdminTest);
    var p1 := Next(p, AdminTest);
    StepKeeps(p1, AdminSizes);
    var p2 := Next(p1, AdminSizes);
    StepKeeps(p2, AdminBusy);
    var p3 := Next(p2, AdminBusy);
    var grow := AdminGrow(alive, births);
    HonestSame(p, p3, alive);
    StepKeeps(p3, grow);
    GrowFills(p3, 0, 0, alive, births);
    GrowKeepsSizes(p3, 0, 0, alive, births);
    var p4 := Next(p3, grow);
    StepKeeps(p4, AdminShrink);
    q := Next(p4, AdminShrink);
    Leads1(p4, AdminShrink);
    LeadsMore(p3, grow, [AdminShrink], q);
    LeadsMore(p2, AdminBusy, [grow] + [AdminShrink], q);
    LeadsMore(p1, AdminSizes, [AdminBusy] + ([grow] + [AdminShrink]), q);
    LeadsMore(p, AdminTest, [AdminSizes] + ([AdminBusy] + ([grow] + [AdminShrink])), q);
    assert [AdminTest] + ([AdminSizes] + ([AdminBusy] + ([grow] + [AdminShrink])))
        == [AdminTest, AdminSizes, AdminBusy, grow, AdminShrink];
  }

  lemma InvSizes(p: Pool)
    requires Inv(p)
    ensures |p.threads| == p.maxThr && p.live <= p.maxThr
  {
  }

  lemma HonestSame(p: Pool, q: Pool, alive: seq<bool>)
    requires Honest(p, alive) && q.threads == p.threads && q.workers == p.workers
    ensures Honest(q, alive)
  {
  }
}
