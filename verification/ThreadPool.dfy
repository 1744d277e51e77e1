/** The thread pool of demo/SpeechPersistentDemo/threadpool.c in its own form: the locked regions as methods
    over the fields of struct threadpool_t.  Each is a step of PoolModel, so what is proved there about every run
    holds of these fields.  A region that goes on after its look at the shutdown flag is cut there, since the flag is
    set without the lock. */
module ThreadPool {
  import opened RingArithmetic
  import opened PoolModel

  /** What a producer's look at the queue and the flag comes to. */
  datatype AddResult = MayAdd | Refused | MustWait

  /** What a worker does after its look at the queue and the flag. */
  datatype Outcome = Wait | Exit | TakeOne

  class SharedPool {
    const minThrNum: nat
    const maxThrNum: nat
    var liveThrNum: nat
    var busyThrNum: int
    var waitExitThrNum: nat
    const threads: array<nat>
    const taskQueue: array<Task>
    var queueFront: nat
    var queueRear: nat
    var queueSize: nat
    var shutdown: bool
    // what pthread_create gives the next thread
    var nextTid: nat
    // the threads and the history, which the source keeps in no field
    ghost var lock: Lock
    ghost var workers: seq<Worker>
    ghost var admin: Admin
    ghost var unborn: nat
    ghost var accepted: seq<Task>
    ghost var dequeued: seq<Task>
    ghost var holder: seq<nat>
    ghost var finished: set<nat>
    ghost var log: seq<Event>

    ghost function Model(): Pool
      reads this, threads, taskQueue
    {
      Pool(minThrNum, maxThrNum, liveThrNum, busyThrNum, waitExitThrNum,
           taskQueue[..], queueFront, queueRear, queueSize, threads[..], shutdown, lock,
           workers, admin, unborn, accepted, dequeued, holder, finished, log)
    }

    ghost predicate Valid()
      reads this, threads, taskQueue
    {
      Inv(Model()) && nextTid == Tid(|workers|)
    }

    /** threadpool_create; births is what its calls of pthread_create come to. */
    constructor (minThrNum: nat, maxThrNum: nat, queueMaxSize: nat, births: seq<Creation>)
      requires |births| == minThrNum <= maxThrNum
      ensures Valid() && fresh(threads) && fresh(taskQueue)
      ensures taskQueue.Length == queueMaxSize
      ensures Model() == Created(Setup(minThrNum, maxThrNum, taskQueue[..], births))
      ensures liveThrNum == minThrNum && busyThrNum == waitExitThrNum == queueSize == 0 && !shutdown && lock.Free?
      ensures |workers| + unborn == minThrNum && (AllBorn(births) ==> unborn == 0)
      ensures forall w | 0 <= w < |workers| :: workers[w].phase == AtLock
    {
      hide QueueOk, TicketsOk, SlotsOk, CountsOk, StopsOk, LockOk;
      this.minThrNum, this.maxThrNum := minThrNum, maxThrNum;
      busyThrNum, liveThrNum, waitExitThrNum := 0, minThrNum, 0;
      queueFront, queueRear, queueSize := 0, 0, 0;
      shutdown, nextTid := false, Tid(0);
      threads := new nat[maxThrNum](_ => 0);
      taskQueue := new Task[queueMaxSize](_ => Task(0, 0));
      lock, workers, admin, unborn := Free, [], LoopTest, 0;
      accepted, dequeued, holder, finished, log := [], [], [], {}, [];
      new;
      StartFirst(births);
      CreatedInv(Setup(minThrNum, maxThrNum, taskQueue[..], births));
      StartedWorkers(maxThrNum, taskQueue[..], births);
    }

    /** The loop of threadpool_create that starts the first threads; they are counted before. */
    method StartFirst(births: seq<Creation>)
      requires |births| == minThrNum == liveThrNum <= maxThrNum == threads.Length && nextTid == Tid(|workers|)
      requires Model() == Blank(maxThrNum, taskQueue[..]).(minThr := minThrNum, live := minThrNum)
      modifies threads, this`workers, this`nextTid, this`unborn
      ensures nextTid == Tid(|workers|)
      ensures Model() == Started(Blank(maxThrNum, taskQueue[..]), births).(minThr := minThrNum)
    {
      ghost var blank := Blank(maxThrNum, taskQueue[..]);
      for i := 0 to minThrNum
        invariant nextTid == Tid(|workers|)
        invariant Model() == Started(blank, births[..i]).(minThr := minThrNum, live := minThrNum)
        invariant Started(blank, births[..i]).live == i
      {
        CreateThread(i, births[i]);
        assert births[..i + 1][..i] == births[..i];
      }
      assert births[..minThrNum] == births;
    }

    /** pthread_create for slot i. */
    method CreateThread(i: nat, c: Creation)
      requires i < threads.Length && nextTid == Tid(|workers|)
      modifies threads, this`workers, this`nextTid, this`unborn
      ensures nextTid == Tid(|workers|) && Model() == Spawn(old(Model()), i, c).(live := liveThrNum)
    {
      match c
      case Born =>
        threads[i], nextTid := nextTid, nextTid + 1;
        workers := workers + [Worker(AtLock, i)];
      case Failed(leftover) =>
        threads[i] := leftover;
        unborn := unborn + 1;
    }

    /** threadpool_add_task up to its last test of the flag. */
    method AddTaskTests(task: Task) returns (result: AddResult)
      requires Valid() && lock.Free?
      modifies this`lock
      ensures Valid() && Model() == Next(old(Model()), Submit(task))
      ensures result == if shutdown then Refused else if queueSize == taskQueue.Length then MustWait else MayAdd
      ensures lock == if result.MayAdd? then Adding(task) else Free
    {
      StepKeeps(Model(), Submit(task));
      if queueSize == taskQueue.Length && !shutdown {
        return MustWait;
      }
      if shutdown {
        return Refused;
      }
      lock := Adding(task);
      return MayAdd;
    }

    /** The rest of threadpool_add_task. */
    method AddTaskStores(task: Task)
      requires Valid() && lock == Adding(task)
      modifies this`queueRear, this`queueSize, this`accepted, this`lock, taskQueue
      ensures Valid() && Model() == Next(old(Model()), Store)
      ensures accepted == old(accepted) + [task] && lock.Free?
    {
      hide Inv;
      StepKeeps(Model(), Store);
      RoomInRing(Model());
      Enqueue(task);
    }

    /** Puts a task into the free cell at the rear of the ring, and unlocks. */
    method Enqueue(task: Task)
      requires queueRear < taskQueue.Length && lock == Adding(task)
      modifies this`queueRear, this`queueSize, this`accepted, this`lock, taskQueue
      ensures Model() == StoreTask(old(Model()))
    {
      ghost var before := Model();
      if taskQueue[queueRear].arg != 0 {
        taskQueue[queueRear] := taskQueue[queueRear].(arg := 0);
      }
      taskQueue[queueRear] := task;
      assert taskQueue[..] == before.ring[before.rear := task];
      queueRear := (queueRear + 1) % taskQueue.Length;
      queueSize := queueSize + 1;
      accepted := accepted + [task];
      lock := Free;
    }

    static lemma RoomInRing(p: Pool)
      requires Inv(p) && p.lock.Adding?
      ensures p.rear < |p.ring|
    {
      StoreKeeps(p);
    }

    /** threadpool_add_task, once through; destroyed says whether threadpool_destroy sets the flag between the look at
        it and the store.  The task joins the queue just when the pool was open and not full at the look. */
    method AddTask(task: Task, destroyed: bool) returns (result: AddResult)
      requires Valid() && lock.Free?
      modifies this`queueRear, this`queueSize, this`accepted, this`lock, this`shutdown, taskQueue
      ensures Valid() && lock.Free?
      ensures result == if old(shutdown) then Refused
                        else if old(queueSize) == taskQueue.Length then MustWait else MayAdd
      ensures accepted == if result.MayAdd? then old(accepted) + [task] else old(accepted)
      ensures shutdown <==> old(shutdown) || (result.MayAdd? && destroyed)
    {
      hide Inv;
      result := AddTaskTests(task);
      if result.MayAdd? {
        if destroyed {
          Destroy();
        }
        AddTaskStores(task);
      }
    }

    /** The part of threadpool_thread's locked region from the loop test to the last test of the flag. */
    method TestsFlag(ghost w: nat) returns (out: Outcome)
      requires Valid() && lock.Free?
      requires w < |workers| && (workers[w].phase.AtLock? || workers[w].phase.Sleeping?)
      modifies this`workers, this`lock
      ensures Valid() && Model() == TestTake(old(Model()), w)
      ensures |workers| == |old(workers)|
      ensures out == if shutdown then Exit else if queueSize == 0 then Wait else TakeOne
      ensures out.Wait? <==> workers[w].phase.Sleeping?
      ensures out.Exit? <==> workers[w].phase.Stopped?
      ensures out.TakeOne? <==> lock == Taking(w)
    {
      hide QueueOk, TicketsOk, SlotsOk, CountsOk, StopsOk, LockOk, Hands;
      AcquireKeeps(Model(), w);
      if queueSize == 0 && !shutdown {
        workers := workers[w := workers[w].(phase := Sleeping)];
        return Wait;
      }
      if shutdown {
        workers := workers[w := workers[w].(phase := Stopped)];
        return Exit;
      }
      workers := workers[w := workers[w].(phase := Admitted)];
      lock := Taking(w);
      return TakeOne;
    }

    /** The rest of the region: the oldest task leaves the ring. */
    method WorkerTakes(ghost w: nat) returns (task: Task)
      requires Valid() && lock == Taking(w)
      modifies this`queueFront, this`queueSize, this`workers, this`dequeued, this`holder, this`lock
      ensures Valid() && Model() == Next(old(Model()), Take(w))
      ensures |old(accepted)| > |old(dequeued)| && task == old(accepted)[|old(dequeued)|]
      ensures dequeued == old(dequeued) + [task] && queueSize == old(queueSize) - 1 && lock.Free?
      ensures w < |workers| && workers[w].phase == Holding(|old(dequeued)|, task)
    {
      hide Inv;
      StepKeeps(Model(), Take(w));
      TakeKeeps(Model(), w);
      OldestFirst(Model());
      task := Dequeue(w);
    }

    /** Takes the task at the front out of the ring, and unlocks. */
    method Dequeue(ghost w: nat) returns (task: Task)
      requires w < |workers| && queueFront < taskQueue.Length && queueSize > 0
      modifies this`queueFront, this`queueSize, this`workers, this`dequeued, this`holder, this`lock
      ensures Model() == TakeTask(old(Model()), w) && task == taskQueue[old(queueFront)]
      ensures |workers| == |old(workers)|
    {
      task := taskQueue[queueFront];
      queueFront := (queueFront + 1) % taskQueue.Length;
      queueSize := queueSize - 1;
      workers := workers[w := workers[w].(phase := Holding(|dequeued|, task))];
      dequeued := dequeued + [task];
      holder := holder + [w];
      lock := Free;
    }

    static lemma OldestFirst(p: Pool)
      requires Inv(p) && p.size > 0
      ensures p.front < |p.ring| && |p.accepted| > |p.dequeued| && p.ring[p.front] == p.accepted[|p.dequeued|]
    {
      hide TicketsOk, SlotsOk, CountsOk;
      WindowStraight(p.ring, p.front, p.size, 1);
      assert Contents(p.ring, p.front, p.size)[..1][0] == p.ring[p.front];
    }

    /** threadpool_thread at its lock. */
    method WorkerLocks(ghost w: nat) returns (out: Outcome)
      requires Valid() && lock.Free? && w < |workers| && workers[w].phase.AtLock?
      modifies this`workers, this`lock
      ensures Valid() && Model() == Next(old(Model()), Acquire(w))
      ensures out == if shutdown then Exit else if queueSize == 0 then Wait else TakeOne
    {
      out := TestsFlag(w);
    }

    /** threadpool_thread when its condition wait returns, for whatever reason. */
    method WorkerWakes(ghost w: nat) returns (out: Outcome)
      requires Valid() && lock.Free? && w < |workers| && workers[w].phase.Sleeping?
      modifies this`workers, this`lock, this`waitExitThrNum, this`liveThrNum
      ensures Valid() && Model() == Next(old(Model()), Wake(w))
      ensures var leaves := old(waitExitThrNum) > 0 && old(liveThrNum) > minThrNum;
        && out == (if leaves || shutdown then Exit else if queueSize == 0 then Wait else TakeOne)
        && liveThrNum == (if leaves then old(liveThrNum) - 1 else old(liveThrNum))
        && (leaves <==> workers[w].phase.Retired?)
      ensures waitExitThrNum == if old(waitExitThrNum) > 0 then old(waitExitThrNum) - 1 else 0
      ensures minThrNum <= liveThrNum && |workers| == |old(workers)|
      ensures out.Exit? <==> workers[w].phase.Gone()
      ensures out.Wait? <==> workers[w].phase.Sleeping?
      ensures out.TakeOne? <==> lock == Taking(w)
    {
      hide QueueOk, TicketsOk, SlotsOk, CountsOk, StopsOk, LockOk, Hands;
      ghost var before := Model();
      WakeKeeps(before, w);
      if waitExitThrNum > 0 {
        waitExitThrNum := waitExitThrNum - 1;
        if liveThrNum > minThrNum {
          liveThrNum := liveThrNum - 1;
          workers := workers[w := workers[w].(phase := Retired)];
          return Exit;
        }
      }
      StillValid(before, Model());
      out := TestsFlag(w);
    }

    static lemma StillValid(p: Pool, q: Pool)
      requires Inv(p) && q == p.(waitExit := q.waitExit) && q.waitExit <= p.waitExit
      ensures Inv(q)
    {
      hide TicketsOk, SlotsOk, CountsOk, StopsOk, LockOk;
    }

    /** The worker counts itself busy. */
    method WorkerBegins(ghost w: nat)
      requires Valid() && w < |workers| && workers[w].phase.Holding?
      modifies this
      ensures Valid() && Model() == Next(old(Model()), Begin(w))
      ensures var h := old(workers[w]).phase;
        && busyThrNum == old(busyThrNum) + 1 && log == old(log) + [Start(h.ticket)]
        && workers == old(workers)[w := old(workers[w]).(phase := Working(h.ticket, h.task))]
    {
      hide QueueOk, TicketsOk, SlotsOk, CountsOk, StopsOk, LockOk, Hands;
      BeginKeeps(Model(), w);
      ghost var h := workers[w].phase;
      busyThrNum := busyThrNum + 1;
      workers := workers[w := workers[w].(phase := Working(h.ticket, h.task))];
      log := log + [Start(h.ticket)];
    }

    /** The worker has run its task. */
    method WorkerEnds(ghost w: nat)
      requires Valid() && w < |workers| && workers[w].phase.Working?
      modifies this
      ensures Valid() && Model() == Next(old(Model()), End(w))
      ensures var t := old(workers[w]).phase.ticket;
        && busyThrNum == old(busyThrNum) - 1 && log == old(log) + [Finish(t)] && finished == old(finished) + {t}
        && workers == old(workers)[w := old(workers[w]).(phase := AtLock)]
    {
      hide QueueOk, TicketsOk, SlotsOk, CountsOk, StopsOk, LockOk, Hands;
      EndKeeps(Model(), w);
      ghost var t := workers[w].phase.ticket;
      busyThrNum := busyThrNum - 1;
      workers := workers[w := workers[w].(phase := AtLock)];
      finished := finished + {t};
      log := log + [Finish(t)];
    }

    /** The loop test of admin_thread. */
    method AdminTests() returns (goesOn: bool)
      requires Valid() && admin.LoopTest?
      modifies this`admin
      ensures Valid() && Model() == Next(old(Model()), AdminTest)
      ensures goesOn == !shutdown && admin == if goesOn then Asleep else Left
    {
      StepKeeps(Model(), AdminTest);
      goesOn := !shutdown;
      admin := if goesOn then Asleep else Left;
    }

    /** The first locked region of admin_thread, after its sleep. */
    method AdminReadsSizes() returns (queueSizeSeen: nat, liveSeen: nat)
      requires Valid() && lock.Free? && admin.Asleep?
      modifies this`admin
      ensures Valid() && Model() == Next(old(Model()), AdminSizes)
      ensures queueSizeSeen == queueSize && liveSeen == liveThrNum && admin == KnowsSizes(queueSizeSeen, liveSeen)
    {
      StepKeeps(Model(), AdminSizes);
      queueSizeSeen := queueSize;
      liveSeen := liveThrNum;
      admin := KnowsSizes(queueSizeSeen, liveSeen);
    }

    /** The second one. */
    method AdminReadsBusy(queueSizeSeen: nat, liveSeen: nat) returns (busySeen: int)
      requires Valid() && admin == KnowsSizes(queueSizeSeen, liveSeen)
      modifies this`admin
      ensures Valid() && Model() == Next(old(Model()), AdminBusy)
      ensures busySeen == busyThrNum && admin == KnowsBusy(queueSizeSeen, liveSeen, busySeen)
    {
      StepKeeps(Model(), AdminBusy);
      busySeen := busyThrNum;
      admin := KnowsBusy(queueSizeSeen, liveSeen, busySeen);
    }

    /** A thread more in slot i, counted whether it comes into being or not. */
    method StartThread(i: nat, c: Creation)
      requires i < threads.Length && nextTid == Tid(|workers|)
      modifies threads, this`workers, this`nextTid, this`unborn, this`liveThrNum
      ensures nextTid == Tid(|workers|) && Model() == Spawn(old(Model()), i, c)
      ensures liveThrNum == old(liveThrNum) + 1
    {
      CreateThread(i, c);
      liveThrNum := liveThrNum + 1;
    }

    /** The loop of admin_thread that starts up to ten threads in free or dead slots. */
    method GrowLoop(alive: seq<bool>, births: seq<Creation>)
      requires |alive| == |births| == maxThrNum == threads.Length && nextTid == Tid(|workers|)
      requires liveThrNum <= maxThrNum
      modifies threads, this`workers, this`nextTid, this`unborn, this`liveThrNum
      ensures nextTid == Tid(|workers|)
      ensures Model() == Grow(old(Model()), 0, 0, alive, births)
      ensures liveThrNum <= old(liveThrNum) + DEFAULT_THREAD_NUM
      ensures liveThrNum == old(liveThrNum) +
        Least(FreeSlots(old(threads[..]), alive, 0), DEFAULT_THREAD_NUM, maxThrNum - old(liveThrNum))
      ensures |workers| - |old(workers)| + unborn - old(unborn) == liveThrNum - old(liveThrNum)
      ensures AllBorn(births) ==> unborn == old(unborn)
      ensures forall k | 0 <= k < maxThrNum && old(threads[k]) != 0 && alive[k] :: threads[k] == old(threads[k])
    {
      hide Grow, Spawn, FreeSlots, Least;
      var i, add := 0, 0;
      ghost var before := Model();
      GrowFills(before, 0, 0, alive, births);
      GrowSpares(before, 0, 0, alive, births);
      while i < maxThrNum && add < DEFAULT_THREAD_NUM && liveThrNum < maxThrNum
        invariant nextTid == Tid(|workers|)
        invariant i <= maxThrNum && add <= DEFAULT_THREAD_NUM && liveThrNum == before.live + add
        invariant Grow(before, 0, 0, alive, births) == Grow(Model(), i, add, alive, births)
      {
        GrowUnfolds(Model(), i, add, alive, births);
        if threads[i] == 0 || !alive[i] {
          StartThread(i, births[i]);
          add := add + 1;
        }
        i := i + 1;
      }
      GrowUnfolds(Model(), i, add, alive, births);
      assert forall k | 0 <= k < maxThrNum :: threads[k] == Model().threads[k];
    }

    /** The part of admin_thread that may add threads, on the fields. */
    method GrowRegion(queueSizeSeen: nat, liveSeen: nat, ghost busySeen: int, alive: seq<bool>, births: seq<Creation>)
      requires admin == KnowsBusy(queueSizeSeen, liveSeen, busySeen) && nextTid == Tid(|workers|)
      requires |alive| == |births| == maxThrNum == threads.Length && liveThrNum <= maxThrNum
      modifies threads, this`workers, this`nextTid, this`unborn, this`liveThrNum, this`admin
      ensures nextTid == Tid(|workers|) && Model() == AdminGrowStep(old(Model()), alive, births)
      ensures liveThrNum == old(liveThrNum) +
        (if queueSizeSeen >= 10 && liveSeen <= maxThrNum
         then Least(FreeSlots(old(threads[..]), alive, 0), 10, maxThrNum - old(liveThrNum)) else 0)
      ensures |workers| - |old(workers)| + unborn - old(unborn) == liveThrNum - old(liveThrNum)
      ensures AllBorn(births) ==> unborn == old(unborn)
      ensures forall k | 0 <= k < maxThrNum && old(threads[k]) != 0 && alive[k] :: threads[k] == old(threads[k])
      ensures liveThrNum <= old(liveThrNum) + DEFAULT_THREAD_NUM && admin == HasGrown(liveSeen, busySeen)
    {
      hide Grow, FreeSlots, Least;
      if queueSizeSeen >= MIN_WAIT_TASK_NUM && liveSeen <= maxThrNum {
        GrowLoop(alive, births);
      }
      admin := HasGrown(liveSeen, busySeen);
    }

    /** The part of admin_thread that may add threads: when it saw ten tasks or more waiting, it starts a thread in each
        free or dead slot, but ten at most, and no more than the maximum allows. */
    method AdminGrows(queueSizeSeen: nat, liveSeen: nat, ghost busySeen: int, alive: seq<bool>, births: seq<Creation>)
      requires Valid() && admin == KnowsBusy(queueSizeSeen, liveSeen, busySeen)
      requires WantsMore(Model(), queueSizeSeen, liveSeen) ==> lock.Free?
      requires |alive| == |births| == maxThrNum && Honest(Model(), alive)
      modifies this, threads
      ensures Valid() && Model() == Next(old(Model()), AdminGrow(alive, births))
      ensures minThrNum <= liveThrNum <= maxThrNum && liveThrNum <= old(liveThrNum) + DEFAULT_THREAD_NUM
      ensures liveThrNum == old(liveThrNum) +
        (if queueSizeSeen >= 10 && liveSeen <= maxThrNum
         then Least(FreeSlots(old(threads[..]), alive, 0), 10, maxThrNum - old(liveThrNum)) else 0)
      ensures |workers| - |old(workers)| + unborn - old(unborn) == liveThrNum - old(liveThrNum)
      ensures AllBorn(births) ==> unborn == old(unborn)
      ensures forall k | 0 <= k < maxThrNum && old(threads[k]) != 0 && alive[k] :: threads[k] == old(threads[k])
      ensures admin == HasGrown(liveSeen, busySeen)
    {
      hide Inv, Honest, FreeSlots, Least, AdminGrowStep;
      StepKeeps(Model(), AdminGrow(alive, births));
      InvThreads(Model());
      InvBounds(Model());
      GrowRegion(queueSizeSeen, liveSeen, busySeen, alive, births);
      InvBounds(Model());
    }

    static lemma GrowUnfolds(p: Pool, i: nat, add: nat, alive: seq<bool>, births: seq<Creation>)
      requires |alive| == |births| == |p.threads| == p.maxThr
      ensures Grow(p, i, add, alive, births) ==
        if i < p.maxThr && add < DEFAULT_THREAD_NUM && p.live < p.maxThr then
          if p.threads[i] == 0 || !alive[i] then Grow(Spawn(p, i, births[i]), i + 1, add + 1, alive, births)
          else Grow(p, i + 1, add, alive, births)
        else p
    {
    }

    static lemma InvBounds(p: Pool)
      requires Inv(p)
      ensures p.minThr <= p.live <= p.maxThr
    {
    }

    /** The part of admin_thread that asks idle workers to leave. */
    method AdminShrinks(liveSeen: nat, busySeen: int)
      requires Valid() && admin == HasGrown(liveSeen, busySeen)
      requires WantsFewer(Model(), liveSeen, busySeen) ==> lock.Free?
      modifies this
      ensures Valid() && Model() == Next(old(Model()), AdminShrink)
      ensures waitExitThrNum == if busySeen * 2 < liveSeen && liveSeen > minThrNum then 10 else old(waitExitThrNum)
      ensures admin == LoopTest
    {
      hide QueueOk, TicketsOk, SlotsOk, CountsOk, StopsOk, LockOk, Hands;
      StepKeeps(Model(), AdminShrink);
      if busySeen * 2 < liveSeen && liveSeen > minThrNum {
        waitExitThrNum := DEFAULT_THREAD_NUM;
      }
      admin := LoopTest;
    }

    /** The first statement of threadpool_destroy that matters to the threads. */
    method Destroy()
      requires Valid()
      modifies this`shutdown
      ensures Valid() && Model() == old(Model()).(shutdown := true)
    {
      StepKeeps(Model(), Shutdown);
      shutdown := true;
    }
  }
}
