/** What holds in every state of every run of the thread pool. */
module PoolTheorems {
  import opened PoolModel

  /** A run: the states it passes through and the steps between them, in any interleaving of the threads. */
  datatype Run = Run(states: seq<Pool>, actions: seq<Action>)

  ghost predicate IsStep(p: Pool, a: Action, q: Pool)
  {
    Usable(p) && Enabled(p, a) && q == Next(p, a)
  }

  ghost predicate IsRun(r: Run, s: Setup)
  {
    && s.Ok() && |r.states| == |r.actions| + 1
    && r.states[0] == Created(s)
    && forall i | 0 <= i < |r.actions| :: IsStep(r.states[i], r.actions[i], r.states[i + 1])
  }

  lemma {:induction false} RunKeepsInv(r: Run, s: Setup, i: nat)
    requires IsRun(r, s) && i < |r.states|
    ensures Inv(r.states[i])
  {
    hide Inv, Usable, Enabled, Next;
    if i == 0 {
      CreatedInv(s);
    } else {
      RunKeepsInv(r, s, i - 1);
      assert IsStep(r.states[i - 1], r.actions[i - 1], r.states[i - 1 + 1]);
      StepKeeps(r.states[i - 1], r.actions[i - 1]);
    }
  }

  // ---------- the queue ----------

  /** First in, first out, in every interleaving: what was accepted is what was taken, followed by what waits. */
  lemma QueueIsFifo(r: Run, s: Setup, i: nat)
    requires IsRun(r, s) && i < |r.states|
    ensures var p := r.states[i];
      && p.size <= |p.ring| && (p.front < |p.ring| || p.size == 0)
      && (|p.ring| > 0 ==> p.rear == (p.front + p.size) % |p.ring|)
      && p.accepted == p.dequeued + Contents(p.ring, p.front, p.size)
  {
    hide Next, Enabled, Created;
    RunKeepsInv(r, s, i);
  }

  datatype Place = InQueue(position: nat) | InHands(worker: nat) | Done

  /** Task number t (in the order of acceptance) is at this place. */
  ghost predicate IsAt(p: Pool, t: nat, place: Place)
  {
    match place
    case InQueue(k) => k < p.size && t == |p.dequeued| + k
    case InHands(w) => Hands(p.workers, w, t)
    case Done => t in p.finished
  }

  function PlaceOf(p: Pool, t: nat): Place
    requires t < |p.holder| || |p.dequeued| <= t
  {
    if t >= |p.dequeued| then InQueue(t - |p.dequeued|)
    else if t in p.finished then Done
    else InHands(p.holder[t])
  }

  /** Every accepted task is in exactly one place: at one position of the queue, in the hands of one worker
      (which then holds that very task), or finished. */
  lemma TaskInOnePlace(r: Run, s: Setup, i: nat, t: nat)
    requires IsRun(r, s) && i < |r.states|
    requires t < |r.states[i].accepted|
    ensures var p := r.states[i];
      && (t < |p.holder| || |p.dequeued| <= t)
      && (forall place :: IsAt(p, t, place) <==> place == PlaceOf(p, t))
      && (forall w: nat | Hands(p.workers, w, t) :: p.workers[w].phase.task == p.accepted[t])
  {
    hide Next, Enabled, Created, Hands;
    RunKeepsInv(r, s, i);
  }

  // ---------- the counters ----------

  /** The thread count stays within its bounds although the admin acts on stale values; the busy count is exact;
      the number of exits asked for is at most ten. */
  lemma CountersInBounds(r: Run, s: Setup, i: nat)
    requires IsRun(r, s) && i < |r.states|
    ensures var p := r.states[i];
      && s.minThr <= p.live <= s.maxThr
      && p.busy == Count(p.workers, Busy) && p.busy <= p.live
      && p.waitExit <= DEFAULT_THREAD_NUM
  {
    hide Next, Enabled, Created, Count;
    RunKeepsInv(r, s, i);
    RunKeepsSizes(r, s, i);
    CountLess(r.states[i].workers, Busy, OnPayroll);
  }

  lemma {:induction false} CountSame(ws: seq<Worker>, p: Worker -> bool, q: Worker -> bool)
    requires forall i | 0 <= i < |ws| :: p(ws[i]) == q(ws[i])
    ensures Count(ws, p) == Count(ws, q)
  {
    CountLess(ws, p, q);
    CountLess(ws, q, p);
  }

  /** Until the shutdown, the thread count is the number of workers that have not gone plus the number of threads that
      could not be created: it is exact if and only if every pthread_create has succeeded. */
  lemma LiveCountExact(r: Run, s: Setup, i: nat)
    requires IsRun(r, s) && i < |r.states|
    requires !r.states[i].shutdown
    ensures var p := r.states[i]; p.live == Count(p.workers, Present) + p.unborn
    ensures var p := r.states[i]; p.live == Count(p.workers, Present) <==> p.unborn == 0
  {
    hide Next, Enabled, Created, Count;
    RunKeepsInv(r, s, i);
    CountSame(r.states[i].workers, OnPayroll, Present);
  }

  /** No two present workers share a slot of the thread table. */
  lemma SlotsDistinct(r: Run, s: Setup, i: nat, v: nat, w: nat)
    requires IsRun(r, s) && i < |r.states|
    requires v < w < |r.states[i].workers|
    requires Present(r.states[i].workers[v]) && Present(r.states[i].workers[w])
    ensures r.states[i].workers[v].slot != r.states[i].workers[w].slot
    ensures r.states[i].workers[v].slot < s.maxThr
  {
    hide Next, Enabled;
    RunKeepsInv(r, s, i);
    RunKeepsSizes(r, s, i);
  }

  lemma {:induction false} RunKeepsSizes(r: Run, s: Setup, i: nat)
    requires IsRun(r, s) && i < |r.states|
    ensures r.states[i].minThr == s.minThr && r.states[i].maxThr == s.maxThr
  {
    if i > 0 {
      RunKeepsSizes(r, s, i - 1);
      var p, a := r.states[i - 1], r.actions[i - 1];
      assert IsStep(p, a, r.states[i - 1 + 1]);
      if a.AdminGrow? {
        GrowKeepsSizes(p, 0, 0, a.alive, a.births);
      }
    } else {
      CreatedInv(s);
    }
  }

  // ---------- the shutdown ----------

  /** What may still happen to the queue after the flag has been set in state p: nothing, unless some thread holds
      the lock and looked at the flag before; that thread may still do the one thing it holds the lock for. */
  ghost predicate AfterShutdown(p: Pool, q: Pool)
  {
    && q.shutdown
    && match p.lock
       case Free => q.lock.Free? && q.accepted == p.accepted && q.dequeued == p.dequeued
       case Adding(task) =>
         && q.dequeued == p.dequeued
         && if q.lock.Free? then q.accepted == p.accepted + [task] else q.lock == p.lock && q.accepted == p.accepted
       case Taking(w) =>
         && q.accepted == p.accepted
         && if q.lock.Free? then p.dequeued < q.dequeued && |q.dequeued| == |p.dequeued| + 1
            else q.lock == p.lock && q.dequeued == p.dequeued
  }

  lemma ShutStep(p: Pool, a: Action)
    requires Usable(p) && Enabled(p, a)
    ensures var q := Next(p, a);
      && p.accepted <= q.accepted && p.dequeued <= q.dequeued
      && (p.shutdown ==> AfterShutdown(p, q))
  {
    if a.AdminGrow? {
      GrowKeepsSizes(p, 0, 0, a.alive, a.births);
    }
  }

  lemma ShutJoin(p: Pool, q: Pool, r: Pool)
    requires AfterShutdown(p, q) && AfterShutdown(q, r)
    ensures AfterShutdown(p, r)
  {
  }

  /** Nothing accepted or taken is ever forgotten.  The store of the shutdown flag, which takes no lock, may fall
      between a region's look at the flag and what the region does then; so after it at most one more task is
      accepted or taken, and that by the region that held the lock when the flag was set. */
  lemma {:induction false} ShutdownFreezesQueue(r: Run, s: Setup, i: nat, j: nat)
    requires IsRun(r, s) && i <= j < |r.states|
    ensures var p, q := r.states[i], r.states[j];
      && p.accepted <= q.accepted && p.dequeued <= q.dequeued
      && (p.shutdown ==> AfterShutdown(p, q))
  {
    hide Usable, Enabled, Next, AfterShutdown;
    if i < j {
      ShutdownFreezesQueue(r, s, i, j - 1);
      var p, q := r.states[j - 1], r.states[j - 1 + 1];
      assert IsStep(p, r.actions[j - 1], q);
      ShutStep(p, r.actions[j - 1]);
      if r.states[i].shutdown {
        assert p.shutdown by { ShutStays(r.states[i], p); }
        ShutJoin(r.states[i], p, q);
      }
    } else if r.states[i].shutdown {
      ShutRefl(r.states[i]);
    }
  }

  lemma ShutRefl(p: Pool)
    requires p.shutdown
    ensures AfterShutdown(p, p)
  {
  }

  lemma ShutStays(p: Pool, q: Pool)
    requires AfterShutdown(p, q)
    ensures q.shutdown
  {
  }

  /** The store of the flag between a producer's look at it and its use of the queue: the task is accepted after the
      shutdown. */
  lemma AcceptedAfterShutdown(first: Task, task: Task) returns (r: Run, s: Setup)
    ensures IsRun(r, s) && |r.states| == 4
    ensures r.states[2].shutdown && r.states[2].accepted == [] && r.states[3].accepted == [task]
  {
    s := Setup(0, 0, [first], []);
    var p0 := Created(s);
    var p1 := Next(p0, Submit(task));
    var p2 := Next(p1, Shutdown);
    r := Run([p0, p1, p2, Next(p2, Store)], [Submit(task), Shutdown, Store]);
  }

  /** The same for a worker: the task is taken after the shutdown. */
  lemma TakenAfterShutdown(first: Task, task: Task) returns (r: Run, s: Setup)
    ensures IsRun(r, s) && |r.states| == 6
    ensures r.states[4].shutdown && r.states[4].dequeued == [] && r.states[5].dequeued == [task]
  {
    s := Setup(1, 1, [first], [Born]);
    assert s.births[..0] == [];
    assert Started(Blank(1, [first]), []) == Blank(1, [first]);
    var p0 := Created(s);
    assert p0 == Spawn(Blank(1, [first]), 0, Born).(minThr := 1);
    var p1 := Next(p0, Submit(task));
    var p2 := Next(p1, Store);
    var p3 := Next(p2, Acquire(0));
    var p4 := Next(p3, Shutdown);
    r := Run([p0, p1, p2, p3, p4, Next(p4, Take(0))], [Submit(task), Store, Acquire(0), Shutdown, Take(0)]);
  }

  // ---------- leaving on request ----------

  predicate IsRetired(w: Worker)
  {
    w.phase.Retired?
  }

  function Shrinks(actions: seq<Action>): nat
  {
    if actions == [] then 0
    else Shrinks(actions[..|actions| - 1]) + (if actions[|actions| - 1].AdminShrink? then 1 else 0)
  }

  lemma {:induction false} CountIdle(ws: seq<Worker>, vs: seq<Worker>, p: Worker -> bool)
    requires |ws| <= |vs| && vs[..|ws|] == ws
    requires forall w | |ws| <= w < |vs| :: !p(vs[w])
    ensures Count(vs, p) == Count(ws, p)
    decreases |vs|
  {
    if |ws| < |vs| {
      assert vs[..|vs| - 1][..|ws|] == ws;
      CountIdle(ws, vs[..|vs| - 1], p);
    } else {
      assert vs == ws;
    }
  }

  /** A step raises the number of workers gone on request, plus the number still wanted gone, by ten at
      most, and only when the admin asks. */
  lemma RetireStep(p: Pool, a: Action)
    requires Inv(p) && Usable(p) && Enabled(p, a)
    ensures var q := Next(p, a);
      Count(q.workers, IsRetired) + q.waitExit <=
        Count(p.workers, IsRetired) + p.waitExit + (if a.AdminShrink? then DEFAULT_THREAD_NUM else 0)
  {
    hide Inv, Grow, Count;
    var q := Next(p, a);
    match a
    case Acquire(w) => CountUpdate(p.workers, w, q.workers[w], IsRetired);
    case Wake(w) => CountUpdate(p.workers, w, q.workers[w], IsRetired);
    case Take(w) => CountUpdate(p.workers, w, q.workers[w], IsRetired);
    case Begin(w) => CountUpdate(p.workers, w, q.workers[w], IsRetired);
    case End(w) => CountUpdate(p.workers, w, q.workers[w], IsRetired);
    case AdminGrow(alive, births) =>
      GrowKeepsSizes(p, 0, 0, alive, births);
      CountIdle(p.workers, q.workers, IsRetired);
    case Submit(_) =>
    case Store =>
    case Shutdown =>
    case AdminTest =>
    case AdminSizes =>
    case AdminBusy =>
    case AdminShrink =>
  }

  /** At most ten workers leave for each time the admin found too many of them. */
  lemma {:induction false} RetirementsAreAsked(r: Run, s: Setup, i: nat)
    requires IsRun(r, s) && i < |r.states|
    ensures Count(r.states[i].workers, IsRetired) + r.states[i].waitExit <= DEFAULT_THREAD_NUM * Shrinks(r.actions[..i])
  {
    hide Inv, Usable, Enabled, Next;
    if i == 0 {
      NoneRetired(s.maxThr, s.ring, s.births);
    } else {
      RetirementsAreAsked(r, s, i - 1);
      RunKeepsInv(r, s, i - 1);
      assert IsStep(r.states[i - 1], r.actions[i - 1], r.states[i - 1 + 1]);
      RetireStep(r.states[i - 1], r.actions[i - 1]);
      assert r.actions[..i][..i - 1] == r.actions[..i - 1];
    }
  }

  lemma {:induction false} NoneRetired(maxThr: nat, ring: seq<Task>, births: seq<Creation>)
    requires |births| <= maxThr
    ensures var p := Started(Blank(maxThr, ring), births); Count(p.workers, IsRetired) == 0 && p.waitExit == 0
  {
    if births != [] {
      var n := |births| - 1;
      NoneRetired(maxThr, ring, births[..n]);
      CountAppend(Started(Blank(maxThr, ring), births[..n]).workers, Worker(AtLock, n), IsRetired);
    }
  }

  // ---------- no task is run twice ----------

  ghost predicate Runs(ws: seq<Worker>, w: nat, t: nat)
  {
    w < |ws| && ws[w].phase.Working? && ws[w].phase.ticket == t
  }

  /** The log starts each ticket at most once and finishes it at most once, and agrees with the workers. */
  ghost predicate LogOk(log: seq<Event>, ws: seq<Worker>, holder: seq<nat>, finished: set<nat>)
  {
    && (forall i, j | 0 <= i < j < |log| :: log[i] != log[j])
    && (forall t: nat :: Start(t) in log <==> t < |holder| && (t in finished || Runs(ws, holder[t], t)))
    && (forall t: nat :: Finish(t) in log <==> t in finished)
  }

  lemma LogSame(log: seq<Event>, ws: seq<Worker>, vs: seq<Worker>, holder: seq<nat>, finished: set<nat>)
    requires LogOk(log, ws, holder, finished)
    requires forall w: nat, t: nat :: Runs(ws, w, t) <==> Runs(vs, w, t)
    ensures LogOk(log, vs, holder, finished)
  {
  }

  lemma LogTest(p: Pool, w: nat)
    requires LogOk(p.log, p.workers, p.holder, p.finished)
    requires w < |p.workers| && (p.workers[w].phase.AtLock? || p.workers[w].phase.Sleeping?)
    ensures var q := TestTake(p, w); LogOk(q.log, q.workers, q.holder, q.finished)
  {
    var q := TestTake(p, w);
    assert forall v: nat, t: nat :: Runs(p.workers, v, t) <==> Runs(q.workers, v, t);
    LogSame(p.log, p.workers, q.workers, p.holder, p.finished);
  }

  lemma LogTake(p: Pool, w: nat)
    requires Inv(p) && LogOk(p.log, p.workers, p.holder, p.finished) && p.lock == Taking(w)
    requires w < |p.workers| && p.front < |p.ring| && p.size > 0
    ensures var q := TakeTask(p, w); LogOk(q.log, q.workers, q.holder, q.finished)
  {
    LockHolder(p, w);
    var q := TakeTask(p, w);
    assert forall v: nat, t: nat :: Runs(p.workers, v, t) <==> Runs(q.workers, v, t);
    LogSame(p.log, p.workers, q.workers, p.holder, p.finished);
    LogDraw(p.log, q.workers, p.holder, p.finished, w);
  }

  lemma LogDraw(log: seq<Event>, ws: seq<Worker>, holder: seq<nat>, finished: set<nat>, w: nat)
    requires LogOk(log, ws, holder, finished)
    requires w < |ws| && !ws[w].phase.Working? && |holder| !in finished
    ensures LogOk(log, ws, holder + [w], finished)
  {
  }

  lemma LogWake(p: Pool, w: nat)
    requires Inv(p) && LogOk(p.log, p.workers, p.holder, p.finished)
    requires w < |p.workers| && p.workers[w].phase.Sleeping?
    ensures var q := WokenUp(p, w); LogOk(q.log, q.workers, q.holder, q.finished)
  {
    hide LogOk, TicketsOk, SlotsOk;
    if p.waitExit > 0 {
      if p.live > p.minThr {
        var q := WokenUp(p, w);
        assert forall v: nat, t: nat :: Runs(p.workers, v, t) <==> Runs(q.workers, v, t);
        LogSame(p.log, p.workers, q.workers, p.holder, p.finished);
      } else {
        LogTest(p.(waitExit := p.waitExit - 1), w);
      }
    } else {
      LogTest(p, w);
    }
  }

  lemma LogBegin(p: Pool, w: nat)
    requires Inv(p) && LogOk(p.log, p.workers, p.holder, p.finished)
    requires w < |p.workers| && p.workers[w].phase.Holding?
    ensures var q := BeginWork(p, w); LogOk(q.log, q.workers, q.holder, q.finished)
  {
    hide QueueOk, CountsOk, SlotsOk, StopsOk;
    var q, mine := BeginWork(p, w), p.workers[w].phase.ticket;
    assert Hands(p.workers, w, mine);
    assert forall v: nat, t: nat :: Runs(q.workers, v, t) <==> Runs(p.workers, v, t) || (v == w && t == mine);
    assert Start(mine) !in p.log;
  }

  lemma LogEnd(p: Pool, w: nat)
    requires Inv(p) && LogOk(p.log, p.workers, p.holder, p.finished)
    requires w < |p.workers| && p.workers[w].phase.Working?
    ensures var q := EndWork(p, w); LogOk(q.log, q.workers, q.holder, q.finished)
  {
    hide QueueOk, CountsOk, SlotsOk, StopsOk;
    var q, mine := EndWork(p, w), p.workers[w].phase.ticket;
    assert Hands(p.workers, w, mine);
    assert forall v: nat, t: nat :: Runs(q.workers, v, t) <==> Runs(p.workers, v, t) && v != w;
    assert Runs(p.workers, w, mine);
    assert Finish(mine) !in p.log;
  }

  lemma LogGrow(p: Pool, alive: seq<bool>, births: seq<Creation>)
    requires |alive| == |births| == |p.threads| == p.maxThr && LogOk(p.log, p.workers, p.holder, p.finished)
    ensures var q := Grow(p, 0, 0, alive, births); LogOk(q.log, q.workers, q.holder, q.finished)
  {
    hide LogOk;
    GrowKeepsSizes(p, 0, 0, alive, births);
    var q := Grow(p, 0, 0, alive, births);
    forall v: nat, t: nat
      ensures Runs(p.workers, v, t) <==> Runs(q.workers, v, t)
    {
      assert v < |p.workers| ==> q.workers[v] == q.workers[..|p.workers|][v];
    }
    LogSame(p.log, p.workers, q.workers, p.holder, p.finished);
  }

  lemma LogStep(p: Pool, a: Action)
    requires Inv(p) && Usable(p) && Enabled(p, a) && LogOk(p.log, p.workers, p.holder, p.finished)
    ensures var q := Next(p, a); LogOk(q.log, q.workers, q.holder, q.finished)
  {
    hide Inv, LogOk, TestTake, TakeTask, WokenUp, BeginWork, EndWork, Grow;
    match a
    case Submit(task) =>
    case Store =>
    case Acquire(w) => LogTest(p, w);
    case Wake(w) => LogWake(p, w);
    case Take(w) => LogTake(p, w);
    case Begin(w) => LogBegin(p, w);
    case End(w) => LogEnd(p, w);
    case Shutdown =>
    case AdminTest =>
    case AdminSizes =>
    case AdminBusy =>
    case AdminGrow(alive, births) => LogGrow(p, alive, births);
    case AdminShrink =>
  }

  /** In every run, no task is started twice or finished twice; a task is started once it is being worked on
      or finished, and not before. */
  lemma {:induction false} NoTaskRunsTwice(r: Run, s: Setup, i: nat)
    requires IsRun(r, s) && i < |r.states|
    ensures LogOk(r.states[i].log, r.states[i].workers, r.states[i].holder, r.states[i].finished)
  {
    hide Inv, LogOk, Usable, Enabled, Next;
    if i == 0 {
      StartedWorkers(s.maxThr, s.ring, s.births);
      EmptyLog(Created(s).workers);
    } else {
      NoTaskRunsTwice(r, s, i - 1);
      RunKeepsInv(r, s, i - 1);
      assert IsStep(r.states[i - 1], r.actions[i - 1], r.states[i - 1 + 1]);
      LogStep(r.states[i - 1], r.actions[i - 1]);
    }
  }

  lemma EmptyLog(ws: seq<Worker>)
    ensures LogOk([], ws, [], {})
  {
  }

  // ---------- a pool of one ----------

  /** Start 0, finish 0, start 1, finish 1, ... */
  function Turn(i: nat): Event
  {
    if i % 2 == 0 then Start(i / 2) else Finish(i / 2)
  }

  /** With one worker that drew n tickets, the log is the first turns: all 2 n of them, or fewer while the
      last ticket is still in its hands.  If the worker could not be created, nothing is ever logged. */
  ghost predicate TakesTurns(p: Pool)
  {
    && p.minThr == p.maxThr == 1 && |p.workers| <= 1
    && (p.workers == [] ==> p.log == [])
    && (|p.workers| == 1 ==>
      var n, phase := |p.dequeued|, p.workers[0].phase;
      && !phase.Retired?
      && (phase.Holding? || phase.Working? ==> phase.ticket == n - 1)
      && |p.log| == (if phase.Holding? then 2 * n - 2 else if phase.Working? then 2 * n - 1 else 2 * n)
      && forall i | 0 <= i < |p.log| :: p.log[i] == Turn(i))
  }

  lemma TurnsStep(p: Pool, a: Action)
    requires Inv(p) && Usable(p) && Enabled(p, a) && TakesTurns(p)
    ensures TakesTurns(Next(p, a))
  {
    hide QueueOk, SlotsOk, TicketsOk, StopsOk, TestTake, WokenUp, TakeTask, TakesTurns;
    TurnsLive(p);
    match a
    case Submit(task) => TurnsSame(p, Next(p, a));
    case Store => TurnsSame(p, Next(p, a));
    case Acquire(w) => TurnsTest(p, w);
    case Wake(w) => TurnsWake(p, w);
    case Take(w) => TurnsTake(p, w);
    case Begin(w) => TurnsBegin(p, w);
    case End(w) => TurnsEnd(p, w);
    case Shutdown => TurnsSame(p, Next(p, a));
    case AdminTest => TurnsSame(p, Next(p, a));
    case AdminSizes => TurnsSame(p, Next(p, a));
    case AdminBusy => TurnsSame(p, Next(p, a));
    case AdminGrow(alive, births) => TurnsSame(p, Next(p, a));
    case AdminShrink => TurnsSame(p, Next(p, a));
  }

  lemma TurnsLive(p: Pool)
    requires Inv(p) && TakesTurns(p)
    ensures p.live == p.maxThr == 1
  {
  }

  lemma TurnsSame(p: Pool, q: Pool)
    requires TakesTurns(p) && q.minThr == p.minThr && q.maxThr == p.maxThr
    requires q.workers == p.workers && q.log == p.log && q.dequeued == p.dequeued
    ensures TakesTurns(q)
  {
  }

  lemma TurnsTest(p: Pool, w: nat)
    requires TakesTurns(p) && w < |p.workers| && (p.workers[w].phase.AtLock? || p.workers[w].phase.Sleeping?)
    ensures TakesTurns(TestTake(p, w))
  {
  }

  lemma TurnsWake(p: Pool, w: nat)
    requires TakesTurns(p) && p.live == 1 && w < |p.workers| && p.workers[w].phase.Sleeping?
    ensures TakesTurns(WokenUp(p, w))
  {
    hide TakesTurns, TestTake;
    TurnsMin(p);
    if p.waitExit > 0 {
      var q := p.(waitExit := p.waitExit - 1);
      TurnsSame(p, q);
      TurnsTest(q, w);
    } else {
      TurnsTest(p, w);
    }
  }

  lemma TurnsMin(p: Pool)
    requires TakesTurns(p)
    ensures p.minThr == 1
  {
  }

  lemma TurnsTake(p: Pool, w: nat)
    requires Inv(p) && TakesTurns(p) && p.lock == Taking(w)
    ensures w < |p.workers| && p.front < |p.ring| && p.size > 0 && TakesTurns(TakeTask(p, w))
  {
    hide QueueOk, SlotsOk, TicketsOk, StopsOk;
    LockHolder(p, w);
  }

  lemma TurnsBegin(p: Pool, w: nat)
    requires TakesTurns(p) && w < |p.workers| && p.workers[w].phase.Holding?
    ensures TakesTurns(BeginWork(p, w))
  {
    var t := p.workers[w].phase.ticket;
    assert |p.log| == 2 * t;
    assert Turn(2 * t) == Start(t);
  }

  lemma TurnsEnd(p: Pool, w: nat)
    requires TakesTurns(p) && w < |p.workers| && p.workers[w].phase.Working?
    ensures TakesTurns(EndWork(p, w))
  {
    var t := p.workers[w].phase.ticket;
    assert |p.log| == 2 * t + 1;
    assert Turn(2 * t + 1) == Finish(t);
  }

  /** The pool that Init creates runs the accepted tasks one at a time and in the order they were accepted, in
      every interleaving, up to and past the shutdown: its log is a prefix of start 0, finish 0, start 1, ... and
      never gets ahead of the accepted tasks. */
  lemma {:induction false} OneWorkerRunsInOrder(r: Run, s: Setup, i: nat)
    requires IsRun(r, s) && s.minThr == s.maxThr == 1 && i < |r.states|
    ensures TakesTurns(r.states[i])
    ensures forall k | 0 <= k < |r.states[i].log| ::
      r.states[i].log[k] == Turn(k) && Turn(k).ticket < |r.states[i].accepted|
  {
    hide Inv, TakesTurns, Usable, Enabled, Next;
    if i == 0 {
      TurnsAtFirst(s);
    } else {
      OneWorkerRunsInOrder(r, s, i - 1);
      RunKeepsInv(r, s, i - 1);
      assert IsStep(r.states[i - 1], r.actions[i - 1], r.states[i - 1 + 1]);
      TurnsStep(r.states[i - 1], r.actions[i - 1]);
    }
    RunKeepsInv(r, s, i);
    TurnsAccepted(r.states[i]);
  }

  lemma TurnsAtFirst(s: Setup)
    requires s.Ok() && s.minThr == s.maxThr == 1
    ensures TakesTurns(Created(s))
  {
    StartedWorkers(s.maxThr, s.ring, s.births);
    CreatedInv(s);
  }

  lemma TurnsAccepted(p: Pool)
    requires TakesTurns(p) && Inv(p)
    ensures forall k | 0 <= k < |p.log| :: p.log[k] == Turn(k) && Turn(k).ticket < |p.accepted|
  {
    hide SlotsOk, TicketsOk, CountsOk;
    forall k | 0 <= k < |p.log|
      ensures Turn(k).ticket < |p.accepted|
    {
      assert k < 2 * |p.dequeued| && |p.dequeued| <= |p.accepted|;
      HalfBelow(k, |p.dequeued|);
    }
  }

  lemma HalfBelow(k: nat, n: nat)
    requires k < 2 * n
    ensures k / 2 < n
  {
  }
}
