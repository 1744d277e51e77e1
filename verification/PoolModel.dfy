/** The thread pool of demo/SpeechPersistentDemo/threadpool.c as a transition system: any number of
    producers, any number of workers, one admin thread.  A step is a region that runs under a lock, or a single
    access to an unlocked field; a condition wait may return at any time.  The shutdown flag is read under the
    pool's lock but set without it, so a region that goes on after its read is two steps, with the lock held. */
module PoolModel {
  import opened RingArithmetic

  // MIN_WAIT_TASK_NUM, DEFAULT_THREAD_NUM
  const MIN_WAIT_TASK_NUM := 10
  const DEFAULT_THREAD_NUM := 10

  /** threadpool_task_t: a function pointer and its argument. */
  datatype Task = Task(routine: int, arg: int)

  /** Where a worker is.  A ticket is the number of the task among all the tasks taken from the queue. */
  datatype Phase =
    | AtLock                                // about to lock the pool
    | Sleeping                              // in the condition wait, the pool unlocked
    | Admitted                              // has the lock, a task waits, and the pool was open when it looked
    | Holding(ticket: nat, task: Task)      // has taken a task, has not counted itself busy
    | Working(ticket: nat, task: Task)      // running the task
    | Retired                               // gone, asked to by the admin
    | Stopped                               // gone, because of the shutdown
  {
    predicate Gone() { Retired? || Stopped? }

    predicate HasTicket(t: nat) { (Holding? || Working?) && ticket == t }
  }

  datatype Worker = Worker(phase: Phase, slot: nat)

  /** Where the admin thread is in its loop, with the values it has read so far. */
  datatype Admin =
    | LoopTest
    | Asleep
    | KnowsSizes(queueSize: nat, live: nat)
    | KnowsBusy(queueSize: nat, live: nat, busy: int)
    | HasGrown(live: nat, busy: int)
    | Left

  /** Who holds the pool's lock between two steps: a producer or a worker that has found the pool open and has not
      yet done what it came for. */
  datatype Lock = Free | Adding(task: Task) | Taking(worker: nat)

  /** What a pthread_create comes to.  Its result is not looked at; if it fails, any value may be left in the slot. */
  datatype Creation = Born | Failed(leftover: nat)

  /** Start and end of the run of a task. */
  datatype Event = Start(ticket: nat) | Finish(ticket: nat)

  datatype Pool = Pool(
    // struct threadpool_t
    minThr: nat, maxThr: nat, live: nat, busy: int, waitExit: nat,
    ring: seq<Task>, front: nat, rear: nat, size: nat,
    threads: seq<nat>, shutdown: bool, lock: Lock,
    // the threads themselves
    workers: seq<Worker>, admin: Admin,
    // history
    unborn: nat, accepted: seq<Task>, dequeued: seq<Task>, holder: seq<nat>, finished: set<nat>, log: seq<Event>)

  /** Thread identifiers are worker numbers plus one; 0 marks a slot that was never used. */
  function Tid(worker: nat): nat
  {
    worker + 1
  }

  // ---------- the initial state: threadpool_create ----------

  /** The arguments of threadpool_create, the memory of its queue, and what its calls of pthread_create come to. */
  datatype Setup = Setup(minThr: nat, maxThr: nat, ring: seq<Task>, births: seq<Creation>) {
    predicate Ok() { |births| == minThr <= maxThr }
  }

  /** The pool before its first thread is started. */
  function Blank(maxThr: nat, ring: seq<Task>): Pool
  {
    Pool(0, maxThr, 0, 0, 0, ring, 0, 0, 0, seq(maxThr, _ => 0), false, Free, [], LoopTest, 0, [], [], [], {}, [])
  }

  /** A call of pthread_create for slot i, which counts as a thread whatever it comes to. */
  function Spawn(p: Pool, i: nat, c: Creation): Pool
    requires i < |p.threads|
  {
    match c
    case Born =>
      p.(threads := p.threads[i := Tid(|p.workers|)], workers := p.workers + [Worker(AtLock, i)], live := p.live + 1)
    case Failed(leftover) =>
      p.(threads := p.threads[i := leftover], live := p.live + 1, unborn := p.unborn + 1)
  }

  /** The first slots filled, one after the other. */
  function Started(p: Pool, births: seq<Creation>): (q: Pool)
    requires |births| <= |p.threads|
    ensures |q.threads| == |p.threads|
  {
    if births == [] then p
    else
      var n := |births| - 1;
      Spawn(Started(p, births[..n]), n, births[n])
  }

  function Created(s: Setup): Pool
    requires s.Ok()
  {
    Started(Blank(s.maxThr, s.ring), s.births).(minThr := s.minThr)
  }

  // ---------- the steps ----------

  datatype Action =
    | Submit(task: Task)
    | Store
    | Acquire(worker: nat)
    | Wake(worker: nat)
    | Take(worker: nat)
    | Begin(worker: nat)
    | End(worker: nat)
    | Shutdown
    | AdminTest
    | AdminSizes
    | AdminBusy
    | AdminGrow(alive: seq<bool>, births: seq<Creation>)
    | AdminShrink

  ghost predicate Enabled(p: Pool, a: Action)
  {
    match a
    case Submit(_) => p.lock.Free?
    case Store => p.lock.Adding?
    case Acquire(w) => p.lock.Free? && w < |p.workers| && p.workers[w].phase.AtLock?
    case Wake(w) => p.lock.Free? && w < |p.workers| && p.workers[w].phase.Sleeping?
    case Take(w) => p.lock == Taking(w)
    case Begin(w) => w < |p.workers| && p.workers[w].phase.Holding?
    case End(w) => w < |p.workers| && p.workers[w].phase.Working?
    case Shutdown => true
    case AdminTest => p.admin.LoopTest?
    case AdminSizes => p.lock.Free? && p.admin.Asleep?
    case AdminBusy => p.admin.KnowsSizes?
    case AdminGrow(alive, births) =>
      && p.admin.KnowsBusy?
      && (WantsMore(p, p.admin.queueSize, p.admin.live) ==> p.lock.Free?)
      && |alive| == |births| == p.maxThr && Honest(p, alive)
    case AdminShrink =>
      && p.admin.HasGrown?
      && (WantsFewer(p, p.admin.live, p.admin.busy) ==> p.lock.Free?)
  }

  /** The liveness probe may call a gone thread alive, but never a present one dead. */
  ghost predicate Honest(p: Pool, alive: seq<bool>)
  {
    forall i, w | 0 <= i < |alive| && i < |p.threads| && 0 <= w < |p.workers| && p.threads[i] == Tid(w) ::
      alive[i] || p.workers[w].phase.Gone()
  }

  function At(p: Pool, w: nat, phase: Phase): Pool
    requires w < |p.workers|
  {
    p.(workers := p.workers[w := p.workers[w].(phase := phase)])
  }

  /** threadpool_add_task up to its last test of the flag: a full queue makes the producer wait (no change), a shut
      down pool refuses (no change); otherwise the producer goes on, with the lock. */
  function TestAdd(p: Pool, task: Task): Pool
  {
    if p.size == |p.ring| || p.shutdown then p else p.(lock := Adding(task))
  }

  /** The rest of threadpool_add_task, to the unlock. */
  function StoreTask(p: Pool): Pool
    requires p.lock.Adding? && p.rear < |p.ring|
  {
    p.(ring := p.ring[p.rear := p.lock.task], rear := (p.rear + 1) % |p.ring|, size := p.size + 1,
       accepted := p.accepted + [p.lock.task], lock := Free)
  }

  /** threadpool_thread's locked region from the loop test to the last test of the flag. */
  function TestTake(p: Pool, w: nat): Pool
    requires w < |p.workers|
  {
    if p.size == 0 && !p.shutdown then At(p, w, Sleeping)
    else if p.shutdown then At(p, w, Stopped)
    else At(p, w, Admitted).(lock := Taking(w))
  }

  /** Return from the condition wait: a wish of the admin for fewer threads is served first. */
  function WokenUp(p: Pool, w: nat): Pool
    requires w < |p.workers|
  {
    if p.waitExit > 0 then
      var q := p.(waitExit := p.waitExit - 1);
      if q.live > q.minThr then At(q, w, Retired).(live := q.live - 1)
      else TestTake(q, w)
    else TestTake(p, w)
  }

  /** The rest of threadpool_thread's locked region: the oldest task is taken. */
  function TakeTask(p: Pool, w: nat): Pool
    requires w < |p.workers| && p.front < |p.ring| && p.size > 0
  {
    var task := p.ring[p.front];
    At(p, w, Holding(|p.dequeued|, task)).(
      front := (p.front + 1) % |p.ring|, size := p.size - 1, lock := Free,
      dequeued := p.dequeued + [task], holder := p.holder + [w])
  }

  function BeginWork(p: Pool, w: nat): Pool
    requires w < |p.workers| && p.workers[w].phase.Holding?
  {
    var h := p.workers[w].phase;
    At(p, w, Working(h.ticket, h.task)).(busy := p.busy + 1, log := p.log + [Start(h.ticket)])
  }

  function EndWork(p: Pool, w: nat): Pool
    requires w < |p.workers| && p.workers[w].phase.Working?
  {
    var t := p.workers[w].phase.ticket;
    At(p, w, AtLock).(busy := p.busy - 1, finished := p.finished + {t}, log := p.log + [Finish(t)])
  }

  /** The loop of admin_thread that adds threads, from slot i on, `add` of them started already. */
  function Grow(p: Pool, i: nat, add: nat, alive: seq<bool>, births: seq<Creation>): Pool
    requires |alive| == |births| == |p.threads| == p.maxThr
    decreases p.maxThr - i
  {
    if i < p.maxThr && add < DEFAULT_THREAD_NUM && p.live < p.maxThr then
      if p.threads[i] == 0 || !alive[i] then Grow(Spawn(p, i, births[i]), i + 1, add + 1, alive, births)
      else Grow(p, i + 1, add, alive, births)
    else p
  }

  /** The slots from number i on that a thread may be started in. */
  function FreeSlots(threads: seq<nat>, alive: seq<bool>, i: nat): nat
    requires |alive| == |threads|
    decreases |threads| - i
  {
    if i >= |threads| then 0
    else (if threads[i] == 0 || !alive[i] then 1 else 0) + FreeSlots(threads, alive, i + 1)
  }

  function Least(a: nat, b: nat, c: nat): nat
  {
    if a <= b && a <= c then a else if b <= c then b else c
  }

  predicate WantsMore(p: Pool, queueSize: nat, live: nat)
  {
    queueSize >= MIN_WAIT_TASK_NUM && live <= p.maxThr
  }

  predicate WantsFewer(p: Pool, live: nat, busy: int)
  {
    busy * 2 < live && live > p.minThr
  }

  function AdminGrowStep(p: Pool, alive: seq<bool>, births: seq<Creation>): Pool
    requires p.admin.KnowsBusy? && |alive| == |births| == |p.threads| == p.maxThr
  {
    var a := p.admin;
    var q := if WantsMore(p, a.queueSize, a.live) then Grow(p, 0, 0, alive, births) else p;
    q.(admin := HasGrown(a.live, a.busy))
  }

  function AdminShrinkStep(p: Pool): Pool
    requires p.admin.HasGrown?
  {
    var q := if WantsFewer(p, p.admin.live, p.admin.busy) then p.(waitExit := DEFAULT_THREAD_NUM) else p;
    q.(admin := LoopTest)
  }

  function Next(p: Pool, a: Action): Pool
    requires Usable(p) && Enabled(p, a)
  {
    match a
    case Submit(task) => TestAdd(p, task)
    case Store => StoreTask(p)
    case Acquire(w) => TestTake(p, w)
    case Wake(w) => WokenUp(p, w)
    case Take(w) => TakeTask(p, w)
    case Begin(w) => BeginWork(p, w)
    case End(w) => EndWork(p, w)
    case Shutdown => p.(shutdown := true)
    case AdminTest => p.(admin := if p.shutdown then Left else Asleep)
    case AdminSizes => p.(admin := KnowsSizes(p.size, p.live))
    case AdminBusy => p.(admin := KnowsBusy(p.admin.queueSize, p.admin.live, p.busy))
    case AdminGrow(alive, births) => AdminGrowStep(p, alive, births)
    case AdminShrink => AdminShrinkStep(p)
  }

  // ---------- counting workers ----------

  predicate OnPayroll(w: Worker)
  {
    !w.phase.Retired?
  }

  predicate Present(w: Worker)
  {
    !w.phase.Gone()
  }

  predicate Busy(w: Worker)
  {
    w.phase.Working?
  }

  function Count(ws: seq<Worker>, p: Worker -> bool): nat
  {
    if ws == [] then 0 else Count(ws[..|ws| - 1], p) + (if p(ws[|ws| - 1]) then 1 else 0)
  }

  lemma {:induction false} CountUpdate(ws: seq<Worker>, i: nat, w: Worker, p: Worker -> bool)
    requires i < |ws|
    ensures Count(ws[i := w], p) + (if p(ws[i]) then 1 else 0) == Count(ws, p) + (if p(w) then 1 else 0)
  {
    var n := |ws| - 1;
    if i < n {
      CountUpdate(ws[..n], i, w, p);
      assert ws[i := w][..n] == ws[..n][i := w];
    } else {
      assert ws[i := w][..n] == ws[..n];
    }
  }

  lemma CountAppend(ws: seq<Worker>, w: Worker, p: Worker -> bool)
    ensures Count(ws + [w], p) == Count(ws, p) + (if p(w) then 1 else 0)
  {
    assert (ws + [w])[..|ws|] == ws;
  }

  lemma {:induction false} CountLess(ws: seq<Worker>, p: Worker -> bool, q: Worker -> bool)
    requires forall i | 0 <= i < |ws| :: p(ws[i]) ==> q(ws[i])
    ensures Count(ws, p) <= Count(ws, q)
  {
    if ws != [] {
      CountLess(ws[..|ws| - 1], p, q);
    }
  }

  // ---------- the invariant ----------

  /** The queue in order, oldest task first. */
  function Contents(ring: seq<Task>, front: nat, size: nat): (q: seq<Task>)
    requires size <= |ring| && (front < |ring| || size == 0)
    ensures |q| == size
  {
    Window(ring, front, size)
  }

  ghost predicate RingOk(ring: seq<Task>, front: nat, rear: nat, size: nat)
  {
    && size <= |ring|
    && (if |ring| == 0 then front == rear == 0 else front < |ring| && rear == (front + size) % |ring|)
  }

  /** Accepted tasks are the dequeued ones followed by the queue. */
  ghost predicate QueueOk(p: Pool)
  {
    && RingOk(p.ring, p.front, p.rear, p.size)
    && p.accepted == p.dequeued + Contents(p.ring, p.front, p.size)
  }

  /** The thread count also counts the threads that never came into being. */
  ghost predicate CountsOk(ws: seq<Worker>, live: nat, unborn: nat, busy: int)
  {
    live == Count(ws, OnPayroll) + unborn && busy == Count(ws, Busy)
  }

  /** The worker inside the locked region is the one that holds the lock, and what it came for is there. */
  ghost predicate LockOk(lock: Lock, ws: seq<Worker>, size: nat, max: nat)
  {
    && (lock.Adding? ==> size < max)
    && (lock.Taking? ==> size > 0 && lock.worker < |ws|)
    && (forall w | 0 <= w < |ws| :: ws[w].phase.Admitted? <==> lock == Taking(w))
  }

  ghost predicate StopsOk(ws: seq<Worker>, shutdown: bool)
  {
    !shutdown ==> forall w | 0 <= w < |ws| :: !ws[w].phase.Stopped?
  }

  /** Every present worker is recorded in its own slot. */
  ghost predicate SlotsOk(threads: seq<nat>, ws: seq<Worker>)
  {
    forall w | 0 <= w < |ws| :: Present(ws[w]) ==> ws[w].slot < |threads| && threads[ws[w].slot] == Tid(w)
  }

  ghost predicate Hands(ws: seq<Worker>, w: nat, t: nat)
  {
    w < |ws| && ws[w].phase.HasTicket(t)
  }

  /** Every ticket is finished or in the hands of the worker that drew it, of no other worker, and not both. */
  ghost predicate TicketsOk(ws: seq<Worker>, holder: seq<nat>, finished: set<nat>, dequeued: seq<Task>)
  {
    && |holder| == |dequeued|
    && (forall t | 0 <= t < |holder| :: t in finished || Hands(ws, holder[t], t))
    && (forall w: nat, t: nat | Hands(ws, w, t) ::
          t < |holder| && holder[t] == w && t !in finished && ws[w].phase.task == dequeued[t])
    && (forall t | t in finished :: t < |holder|)
  }

  /** What a step needs in order to be carried out at all. */
  ghost predicate Usable(p: Pool)
  {
    && RingOk(p.ring, p.front, p.rear, p.size) && |p.threads| == p.maxThr
    && (p.lock.Adding? ==> p.size < |p.ring|)
    && (p.lock.Taking? ==> p.size > 0 && p.lock.worker < |p.workers|)
  }

  ghost predicate Inv(p: Pool)
  {
    && QueueOk(p)
    && p.minThr <= p.live <= p.maxThr && p.waitExit <= DEFAULT_THREAD_NUM && |p.threads| == p.maxThr
    && CountsOk(p.workers, p.live, p.unborn, p.busy)
    && LockOk(p.lock, p.workers, p.size, |p.ring|)
    && StopsOk(p.workers, p.shutdown)
    && SlotsOk(p.threads, p.workers)
    && TicketsOk(p.workers, p.holder, p.finished, p.dequeued)
  }

  lemma InvUsable(p: Pool)
    requires Inv(p)
    ensures Usable(p)
  {
  }

  // ---------- every step keeps the invariant ----------

  lemma RingPush(ring: seq<Task>, front: nat, size: nat, rear: nat, task: Task)
    requires front < |ring| && size < |ring| && rear == (front + size) % |ring|
    ensures rear < |ring|
    ensures Contents(ring[rear := task], front, size + 1) == Contents(ring, front, size) + [task]
    ensures (rear + 1) % |ring| == (front + (size + 1)) % |ring|
  {
    var n := |ring|;
    ModIsWrap(front + size, n);
    ModIsWrap(rear + 1, n);
    ModIsWrap(front + size + 1, n);
    WindowAppend(ring, ring[rear := task], front, size, [task]);
  }

  lemma RingPop(ring: seq<Task>, front: nat, size: nat)
    requires front < |ring| && 0 < size <= |ring|
    ensures var next := (front + 1) % |ring|;
      && next < |ring|
      && Contents(ring, front, size) == [ring[front]] + Contents(ring, next, size - 1)
      && (next + (size - 1)) % |ring| == (front + size) % |ring|
  {
    var n := |ring|;
    ModIsWrap(front + 1, n);
    ModIsWrap(front + size, n);
    var next := Wrap(front + 1, n);
    ModIsWrap(next + (size - 1), n);
    WindowDrop(ring, front, size, 1);
    WindowStraight(ring, front, size, 1);
    assert Contents(ring, front, size) == Contents(ring, front, size)[..1] + Contents(ring, front, size)[1..];
  }

  lemma SubmitKeeps(p: Pool, task: Task)
    requires Inv(p) && p.lock.Free?
    ensures Inv(TestAdd(p, task))
  {
    hide TicketsOk, SlotsOk, CountsOk, StopsOk;
    QueueSame(p, TestAdd(p, task));
  }

  lemma StoreKeeps(p: Pool)
    requires Inv(p) && p.lock.Adding?
    ensures p.rear < |p.ring| && Inv(StoreTask(p))
  {
    hide TicketsOk, SlotsOk, CountsOk, StopsOk;
    RingPush(p.ring, p.front, p.size, p.rear, p.lock.task);
    assert p.accepted + [p.lock.task] == p.dequeued + (Contents(p.ring, p.front, p.size) + [p.lock.task]);
  }

  // One worker changes its phase.

  lemma CountsMove(ws: seq<Worker>, w: nat, next: Worker)
    requires w < |ws|
    ensures Count(ws[w := next], OnPayroll) + (if OnPayroll(ws[w]) then 1 else 0) ==
      Count(ws, OnPayroll) + (if OnPayroll(next) then 1 else 0)
    ensures Count(ws[w := next], Busy) + (if Busy(ws[w]) then 1 else 0) ==
      Count(ws, Busy) + (if Busy(next) then 1 else 0)
  {
    CountUpdate(ws, w, next, OnPayroll);
    CountUpdate(ws, w, next, Busy);
  }

  lemma SlotsMove(threads: seq<nat>, ws: seq<Worker>, w: nat, phase: Phase)
    requires SlotsOk(threads, ws) && w < |ws| && Present(ws[w])
    ensures SlotsOk(threads, ws[w := ws[w].(phase := phase)])
  {
  }

  lemma StopsMove(ws: seq<Worker>, w: nat, phase: Phase, shutdown: bool)
    requires StopsOk(ws, shutdown) && w < |ws| && (phase.Stopped? ==> shutdown)
    ensures StopsOk(ws[w := ws[w].(phase := phase)], shutdown)
  {
  }

  /** A worker with empty hands keeps them empty. */
  lemma TicketsIdle(ws: seq<Worker>, holder: seq<nat>, finished: set<nat>, dequeued: seq<Task>, w: nat, next: Worker)
    requires TicketsOk(ws, holder, finished, dequeued) && w < |ws|
    requires (forall t: nat :: !Hands(ws, w, t)) && !next.phase.Holding? && !next.phase.Working?
    ensures TicketsOk(ws[w := next], holder, finished, dequeued)
  {
    var vs := ws[w := next];
    forall v: nat, t: nat
      ensures Hands(vs, v, t) <==> Hands(ws, v, t)
    {
    }
  }

  /** A worker with empty hands draws the next ticket. */
  lemma TicketsTake(ws: seq<Worker>, holder: seq<nat>, finished: set<nat>, dequeued: seq<Task>,
                    w: nat, next: Worker, task: Task)
    requires TicketsOk(ws, holder, finished, dequeued) && w < |ws|
    requires (forall t: nat :: !Hands(ws, w, t)) && next.phase == Holding(|dequeued|, task)
    ensures TicketsOk(ws[w := next], holder + [w], finished, dequeued + [task])
  {
    var vs := ws[w := next];
    forall v: nat, t: nat
      ensures Hands(vs, v, t) <==> Hands(ws, v, t) || (v == w && t == |dequeued|)
    {
    }
  }

  /** A worker goes from holding its task to running it. */
  lemma TicketsBegin(ws: seq<Worker>, holder: seq<nat>, finished: set<nat>, dequeued: seq<Task>, w: nat, next: Worker)
    requires TicketsOk(ws, holder, finished, dequeued) && w < |ws| && ws[w].phase.Holding?
    requires next.phase == Working(ws[w].phase.ticket, ws[w].phase.task)
    ensures TicketsOk(ws[w := next], holder, finished, dequeued)
  {
    var vs := ws[w := next];
    forall v: nat, t: nat
      ensures Hands(vs, v, t) <==> Hands(ws, v, t)
    {
    }
  }

  /** A worker finishes its task. */
  lemma TicketsEnd(ws: seq<Worker>, holder: seq<nat>, finished: set<nat>, dequeued: seq<Task>, w: nat, next: Worker)
    requires TicketsOk(ws, holder, finished, dequeued) && w < |ws| && ws[w].phase.Working?
    requires next.phase == AtLock
    ensures TicketsOk(ws[w := next], holder, finished + {ws[w].phase.ticket}, dequeued)
  {
    var vs := ws[w := next];
    var mine := ws[w].phase.ticket;
    assert Hands(ws, w, mine);
    forall v: nat, t: nat
      ensures Hands(vs, v, t) <==> Hands(ws, v, t) && v != w
    {
    }
  }

  lemma EmptyHands(ws: seq<Worker>, w: nat)
    requires w < |ws| && !ws[w].phase.Holding? && !ws[w].phase.Working?
    ensures forall t: nat :: !Hands(ws, w, t)
  {
  }

  lemma LockMove(lock: Lock, ws: seq<Worker>, size: nat, max: nat, w: nat, next: Worker)
    requires LockOk(lock, ws, size, max) && w < |ws| && !ws[w].phase.Admitted? && !next.phase.Admitted?
    ensures LockOk(lock, ws[w := next], size, max)
  {
  }

  lemma LockEnter(ws: seq<Worker>, size: nat, max: nat, w: nat, next: Worker)
    requires LockOk(Free, ws, size, max) && w < |ws| && next.phase.Admitted? && size > 0
    ensures LockOk(Taking(w), ws[w := next], size, max)
  {
  }

  lemma LockLeave(ws: seq<Worker>, size: nat, max: nat, w: nat, next: Worker)
    requires LockOk(Taking(w), ws, size, max) && w < |ws| && !next.phase.Admitted?
    ensures LockOk(Free, ws[w := next], size - 1, max)
  {
  }

  lemma AcquireKeeps(p: Pool, w: nat)
    requires Inv(p) && p.lock.Free? && w < |p.workers| && (p.workers[w].phase.AtLock? || p.workers[w].phase.Sleeping?)
    ensures Inv(TestTake(p, w))
  {
    hide TicketsOk, SlotsOk, StopsOk, QueueOk, LockOk, Hands;
    var q := TestTake(p, w);
    var phase := q.workers[w].phase;
    EmptyHands(p.workers, w);
    CountsMove(p.workers, w, q.workers[w]);
    SlotsMove(p.threads, p.workers, w, phase);
    StopsMove(p.workers, w, phase, p.shutdown);
    TicketsIdle(p.workers, p.holder, p.finished, p.dequeued, w, q.workers[w]);
    QueueSame(p, q);
    if phase.Admitted? {
      LockEnter(p.workers, p.size, |p.ring|, w, q.workers[w]);
    } else {
      LockMove(p.lock, p.workers, p.size, |p.ring|, w, q.workers[w]);
    }
  }

  lemma LockHolder(p: Pool, w: nat)
    requires Inv(p) && p.lock == Taking(w)
    ensures w < |p.workers| && p.workers[w].phase.Admitted? && p.size > 0 && p.front < |p.ring|
  {
  }

  lemma TakeKeeps(p: Pool, w: nat)
    requires Inv(p) && p.lock == Taking(w)
    ensures w < |p.workers| && p.front < |p.ring| && p.size > 0 && Inv(TakeTask(p, w))
  {
    LockHolder(p, w);
    TakeKeepsRest(p, w);
  }

  lemma TakeKeepsRest(p: Pool, w: nat)
    requires Inv(p) && p.lock == Taking(w) && w < |p.workers| && p.workers[w].phase.Admitted?
    requires p.front < |p.ring| && p.size > 0
    ensures Inv(TakeTask(p, w))
  {
    hide TicketsOk, SlotsOk, StopsOk, Contents, LockOk, Hands;
    var q := TakeTask(p, w);
    EmptyHands(p.workers, w);
    CountsMove(p.workers, w, q.workers[w]);
    SlotsMove(p.threads, p.workers, w, q.workers[w].phase);
    StopsMove(p.workers, w, q.workers[w].phase, p.shutdown);
    TicketsTake(p.workers, p.holder, p.finished, p.dequeued, w, q.workers[w], p.ring[p.front]);
    LockLeave(p.workers, p.size, |p.ring|, w, q.workers[w]);
    RingPop(p.ring, p.front, p.size);
    assert q.dequeued + Contents(q.ring, q.front, q.size) == p.dequeued + Contents(p.ring, p.front, p.size);
  }

  lemma WakeKeeps(p: Pool, w: nat)
    requires Inv(p) && p.lock.Free? && w < |p.workers| && p.workers[w].phase.Sleeping?
    ensures Inv(WokenUp(p, w))
  {
    hide TicketsOk, SlotsOk, StopsOk, Contents, LockOk, Hands, TestTake;
    if p.waitExit > 0 {
      var q := p.(waitExit := p.waitExit - 1);
      assert QueueOk(q) by { QueueSame(p, q); }
      if q.live > q.minThr {
        var r := WokenUp(p, w);
        EmptyHands(p.workers, w);
        CountsMove(p.workers, w, r.workers[w]);
        SlotsMove(p.threads, p.workers, w, Retired);
        StopsMove(p.workers, w, Retired, p.shutdown);
        TicketsIdle(p.workers, p.holder, p.finished, p.dequeued, w, r.workers[w]);
        LockMove(p.lock, p.workers, p.size, |p.ring|, w, r.workers[w]);
        QueueSame(p, r);
      } else {
        AcquireKeeps(q, w);
      }
    } else {
      AcquireKeeps(p, w);
    }
  }

  lemma QueueSame(p: Pool, q: Pool)
    requires QueueOk(p) && p.ring == q.ring && p.front == q.front && p.rear == q.rear && p.size == q.size
    requires p.accepted == q.accepted && p.dequeued == q.dequeued
    ensures QueueOk(q)
  {
  }

  lemma BeginKeeps(p: Pool, w: nat)
    requires Inv(p) && w < |p.workers| && p.workers[w].phase.Holding?
    ensures Inv(BeginWork(p, w))
  {
    hide TicketsOk, SlotsOk, StopsOk, QueueOk, LockOk, Hands;
    var q := BeginWork(p, w);
    CountsMove(p.workers, w, q.workers[w]);
    SlotsMove(p.threads, p.workers, w, q.workers[w].phase);
    StopsMove(p.workers, w, q.workers[w].phase, p.shutdown);
    TicketsBegin(p.workers, p.holder, p.finished, p.dequeued, w, q.workers[w]);
    LockMove(p.lock, p.workers, p.size, |p.ring|, w, q.workers[w]);
    QueueSame(p, q);
  }

  lemma EndKeeps(p: Pool, w: nat)
    requires Inv(p) && w < |p.workers| && p.workers[w].phase.Working?
    ensures Inv(EndWork(p, w))
  {
    hide TicketsOk, SlotsOk, StopsOk, QueueOk, LockOk, Hands;
    var q := EndWork(p, w);
    CountsMove(p.workers, w, q.workers[w]);
    SlotsMove(p.threads, p.workers, w, AtLock);
    StopsMove(p.workers, w, AtLock, p.shutdown);
    TicketsEnd(p.workers, p.holder, p.finished, p.dequeued, w, q.workers[w]);
    LockMove(p.lock, p.workers, p.size, |p.ring|, w, q.workers[w]);
    QueueSame(p, q);
  }

  lemma TicketsGrow(ws: seq<Worker>, holder: seq<nat>, finished: set<nat>, dequeued: seq<Task>, i: nat)
    requires TicketsOk(ws, holder, finished, dequeued)
    ensures TicketsOk(ws + [Worker(AtLock, i)], holder, finished, dequeued)
  {
    var vs := ws + [Worker(AtLock, i)];
    forall v: nat, t: nat
      ensures Hands(vs, v, t) <==> Hands(ws, v, t)
    {
    }
  }

  lemma SlotsGrow(threads: seq<nat>, ws: seq<Worker>, i: nat, leftover: nat)
    requires SlotsOk(threads, ws) && i < |threads|
    requires forall w | 0 <= w < |ws| && ws[w].slot == i :: !Present(ws[w])
    ensures SlotsOk(threads[i := Tid(|ws|)], ws + [Worker(AtLock, i)])
    ensures SlotsOk(threads[i := leftover], ws)
  {
  }

  lemma LockGrow(lock: Lock, ws: seq<Worker>, size: nat, max: nat, i: nat)
    requires LockOk(lock, ws, size, max)
    ensures LockOk(lock, ws + [Worker(AtLock, i)], size, max)
  {
  }

  lemma SpawnKeeps(p: Pool, i: nat, c: Creation)
    requires Inv(p) && i < p.maxThr && p.live < p.maxThr
    requires forall w | 0 <= w < |p.workers| && p.workers[w].slot == i :: !Present(p.workers[w])
    ensures Inv(Spawn(p, i, c))
  {
    hide TicketsOk, SlotsOk, QueueOk, LockOk, Hands;
    CountAppend(p.workers, Worker(AtLock, i), OnPayroll);
    CountAppend(p.workers, Worker(AtLock, i), Busy);
    TicketsGrow(p.workers, p.holder, p.finished, p.dequeued, i);
    SlotsGrow(p.threads, p.workers, i, if c.Failed? then c.leftover else 0);
    LockGrow(p.lock, p.workers, p.size, |p.ring|, i);
    QueueSame(p, Spawn(p, i, c));
  }

  /** The present workers in the slots still to be probed were there when the probes were made. */
  ghost predicate ProbesHold(p: Pool, i: nat, alive: seq<bool>)
  {
    forall w | 0 <= w < |p.workers| && i <= p.workers[w].slot < |alive| && Present(p.workers[w]) ::
      alive[p.workers[w].slot]
  }

  lemma ProbesLater(p: Pool, i: nat, alive: seq<bool>, c: Creation)
    requires i < |p.threads| && ProbesHold(p, i, alive)
    ensures ProbesHold(p, i + 1, alive) && ProbesHold(Spawn(p, i, c), i + 1, alive)
  {
  }

  lemma {:induction false} GrowKeeps(p: Pool, i: nat, add: nat, alive: seq<bool>, births: seq<Creation>)
    requires Inv(p) && |alive| == |births| == p.maxThr && ProbesHold(p, i, alive)
    ensures Inv(Grow(p, i, add, alive, births))
    decreases p.maxThr - i
  {
    hide Inv, ProbesHold, Spawn;
    InvThreads(p);
    if i < p.maxThr && add < DEFAULT_THREAD_NUM && p.live < p.maxThr {
      ProbesLater(p, i, alive, births[i]);
      if p.threads[i] == 0 || !alive[i] {
        ProbeDead(p, i, alive);
        SpawnKeeps(p, i, births[i]);
        SpawnShape(p, i, births[i]);
        GrowKeeps(Spawn(p, i, births[i]), i + 1, add + 1, alive, births);
      } else {
        GrowKeeps(p, i + 1, add, alive, births);
      }
    }
  }

  lemma InvThreads(p: Pool)
    requires Inv(p)
    ensures |p.threads| == p.maxThr
  {
  }

  lemma SpawnShape(p: Pool, i: nat, c: Creation)
    requires i < |p.threads|
    ensures Spawn(p, i, c).maxThr == p.maxThr && |Spawn(p, i, c).threads| == |p.threads|
  {
  }

  lemma ProbeDead(p: Pool, i: nat, alive: seq<bool>)
    requires Inv(p) && ProbesHold(p, i, alive) && i < |alive| == |p.threads| && (p.threads[i] == 0 || !alive[i])
    ensures forall w | 0 <= w < |p.workers| && p.workers[w].slot == i :: !Present(p.workers[w])
  {
  }

  lemma HonestProbes(p: Pool, alive: seq<bool>)
    requires Inv(p) && Honest(p, alive)
    ensures ProbesHold(p, 0, alive)
  {
  }

  lemma InvWaitExit(p: Pool)
    requires Inv(p)
    ensures p.waitExit <= DEFAULT_THREAD_NUM
  {
  }

  lemma AdminMoves(p: Pool, admin: Admin)
    requires Inv(p)
    ensures Inv(p.(admin := admin))
  {
    AdminKeeps(p, p.(admin := admin));
  }

  lemma AdminKeeps(p: Pool, q: Pool)
    requires Inv(p)
    requires q.waitExit <= DEFAULT_THREAD_NUM && (p.shutdown ==> q.shutdown)
    requires q == p.(admin := q.admin, waitExit := q.waitExit, shutdown := q.shutdown)
    ensures Inv(q)
  {
    hide TicketsOk, SlotsOk, QueueOk, CountsOk, LockOk;
    QueueSame(p, q);
  }

  /** Every step of every thread keeps the invariant. */
  lemma StepKeeps(p: Pool, a: Action)
    requires Inv(p) && Enabled(p, a)
    ensures Usable(p) && Inv(Next(p, a))
  {
    hide Inv, ProbesHold, TestTake, WokenUp, TakeTask, TestAdd, StoreTask, BeginWork, EndWork, Grow;
    InvUsable(p);
    match a
    case Submit(task) => SubmitKeeps(p, task);
    case Store => StoreKeeps(p);
    case Acquire(w) => AcquireKeeps(p, w);
    case Wake(w) => WakeKeeps(p, w);
    case Take(w) => TakeKeeps(p, w);
    case Begin(w) => BeginKeeps(p, w);
    case End(w) => EndKeeps(p, w);
    case Shutdown => InvWaitExit(p); AdminKeeps(p, Next(p, a));
    case AdminTest => InvWaitExit(p); AdminKeeps(p, Next(p, a));
    case AdminSizes => InvWaitExit(p); AdminKeeps(p, Next(p, a));
    case AdminBusy => InvWaitExit(p); AdminKeeps(p, Next(p, a));
    case AdminGrow(alive, births) =>
      HonestProbes(p, alive);
      if WantsMore(p, p.admin.queueSize, p.admin.live) {
        GrowKeeps(p, 0, 0, alive, births);
        AdminMoves(Grow(p, 0, 0, alive, births), Next(p, a).admin);
      } else {
        AdminMoves(p, Next(p, a).admin);
      }
    case AdminShrink =>
      InvWaitExit(p);
      AdminKeeps(p, Next(p, a));
  }

  // ---------- how many threads the admin adds ----------

  ghost predicate AllBorn(births: seq<Creation>)
  {
    forall k | 0 <= k < |births| :: births[k].Born?
  }

  lemma {:induction false} FreeSlotsSame(a: seq<nat>, b: seq<nat>, alive: seq<bool>, i: nat)
    requires |a| == |b| == |alive| && forall k | i <= k < |a| :: a[k] == b[k]
    ensures FreeSlots(a, alive, i) == FreeSlots(b, alive, i)
    decreases |a| - i
  {
    if i < |a| {
      FreeSlotsSame(a, b, alive, i + 1);
    }
  }

  /** What the loop leaves alone; the new workers are at their lock. */
  lemma {:induction false} GrowKeepsSizes(p: Pool, i: nat, add: nat, alive: seq<bool>, births: seq<Creation>)
    requires |alive| == |births| == |p.threads| == p.maxThr
    ensures var q := Grow(p, i, add, alive, births);
      && q.minThr == p.minThr && q.maxThr == p.maxThr && q.log == p.log && q.finished == p.finished
      && q.dequeued == p.dequeued && q.accepted == p.accepted && q.holder == p.holder
      && q.shutdown == p.shutdown && q.waitExit == p.waitExit && q.lock == p.lock
      && |q.workers| >= |p.workers| && q.workers[..|p.workers|] == p.workers
      && (forall w | |p.workers| <= w < |q.workers| :: q.workers[w].phase == AtLock)
    decreases p.maxThr - i
  {
    if i < p.maxThr && add < DEFAULT_THREAD_NUM && p.live < p.maxThr {
      if p.threads[i] == 0 || !alive[i] {
        var s := Spawn(p, i, births[i]);
        GrowKeepsSizes(s, i + 1, add + 1, alive, births);
        var q := Grow(s, i + 1, add + 1, alive, births);
        assert q.workers[..|p.workers|] == q.workers[..|s.workers|][..|p.workers|] == p.workers;
        assert |s.workers| > |p.workers| ==> q.workers[|p.workers|] == q.workers[..|s.workers|][|p.workers|];
      } else {
        GrowKeepsSizes(p, i + 1, add, alive, births);
      }
    }
  }

  /** It touches no slot but free and dead ones. */
  lemma {:induction false} GrowSpares(p: Pool, i: nat, add: nat, alive: seq<bool>, births: seq<Creation>)
    requires |alive| == |births| == |p.threads| == p.maxThr && i <= p.maxThr
    ensures var q := Grow(p, i, add, alive, births);
      && |q.threads| == |p.threads|
      && forall k | 0 <= k < |p.threads| && (k < i || (p.threads[k] != 0 && alive[k])) :: q.threads[k] == p.threads[k]
    decreases p.maxThr - i
  {
    if i < p.maxThr && add < DEFAULT_THREAD_NUM && p.live < p.maxThr {
      if p.threads[i] == 0 || !alive[i] {
        GrowSpares(Spawn(p, i, births[i]), i + 1, add + 1, alive, births);
      } else {
        GrowSpares(p, i + 1, add, alive, births);
      }
    }
  }

  /** The loop starts a thread in every free or dead slot, until there are ten more or as many as may be. */
  lemma {:induction false} GrowFills(p: Pool, i: nat, add: nat, alive: seq<bool>, births: seq<Creation>)
    requires |alive| == |births| == |p.threads| == p.maxThr && i <= p.maxThr
    requires p.live <= p.maxThr && add <= DEFAULT_THREAD_NUM
    ensures var q := Grow(p, i, add, alive, births);
      && q.live == p.live + Least(FreeSlots(p.threads, alive, i), DEFAULT_THREAD_NUM - add, p.maxThr - p.live)
      && |q.workers| - |p.workers| + q.unborn - p.unborn == q.live - p.live
      && (AllBorn(births) ==> q.unborn == p.unborn)
    decreases p.maxThr - i
  {
    if i < p.maxThr && add < DEFAULT_THREAD_NUM && p.live < p.maxThr {
      if p.threads[i] == 0 || !alive[i] {
        var s := Spawn(p, i, births[i]);
        FreeSlotsSame(p.threads, s.threads, alive, i + 1);
        GrowFills(s, i + 1, add + 1, alive, births);
      } else {
        GrowFills(p, i + 1, add, alive, births);
      }
    }
  }

  lemma {:induction false} StartedWorkers(maxThr: nat, ring: seq<Task>, births: seq<Creation>)
    requires |births| <= maxThr
    ensures var p := Started(Blank(maxThr, ring), births);
      && |p.workers| + p.unborn == p.live == |births| && (AllBorn(births) ==> p.unborn == 0)
      && (forall w | 0 <= w < |p.workers| :: p.workers[w].phase == AtLock)
      && p.size == p.busy == p.waitExit == 0 && p.log == [] && p.holder == [] && p.finished == {}
      && p.dequeued == p.accepted == []
      && !p.shutdown && p.lock.Free?
  {
    if births != [] {
      StartedWorkers(maxThr, ring, births[..|births| - 1]);
    }
  }

  // ---------- the initial state ----------

  lemma {:induction false} StartedInv(maxThr: nat, ring: seq<Task>, births: seq<Creation>)
    requires |births| <= maxThr
    ensures var p := Started(Blank(maxThr, ring), births);
      && Inv(p) && p.maxThr == maxThr && p.live == |births|
      && (forall w | 0 <= w < |p.workers| :: p.workers[w].slot < |births|)
  {
    if births == [] {
      BlankInv(maxThr, ring);
    } else {
      hide Inv, Blank;
      var n := |births| - 1;
      StartedInv(maxThr, ring, births[..n]);
      SpawnKeeps(Started(Blank(maxThr, ring), births[..n]), n, births[n]);
    }
  }

  lemma BlankInv(maxThr: nat, ring: seq<Task>)
    ensures Inv(Blank(maxThr, ring))
  {
    if |ring| > 0 {
      ModIsWrap(0, |ring|);
    }
    var p := Blank(maxThr, ring);
    assert QueueOk(p);
    assert TicketsOk(p.workers, p.holder, p.finished, p.dequeued);
  }

  lemma CreatedInv(s: Setup)
    requires s.Ok()
    ensures Inv(Created(s)) && Created(s).minThr == s.minThr && Created(s).maxThr == s.maxThr
  {
    hide TicketsOk, SlotsOk, StopsOk, CountsOk, LockOk;
    StartedInv(s.maxThr, s.ring, s.births);
    QueueSame(Started(Blank(s.maxThr, s.ring), s.births), Created(s));
  }
}
