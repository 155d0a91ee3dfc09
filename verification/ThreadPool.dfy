/** The thread pool of `ngx_thread_pool.c` as a step system: the event loop posts tasks and collects
    completed ones, the pool's threads run them.  Mutex, condition variable and spin lock are part of
    the state; each operation on them, and each change of a shared field, is one step. */
module ThreadPool {
  import opened Processes

  /** A task structure, by its identity. */
  type Task = nat

  /** Where a pool thread is in ngx_thread_pool_cycle(). */
  datatype Worker =
    | Start | Decrement | Check | Sleeping | Woken | Take | Leave(task: Task)
    | Running(task: Task) | Finish(task: Task) | Append(task: Task) | Release | Notify

  /** Where the event loop is: in ngx_thread_task_post(), in ngx_thread_pool_handler(), or in neither.
      The completion handlers, which may post again, run while `batch` is not empty. */
  datatype Loop =
    | Free
    | PostLock(task: Task) | PostCheck(task: Task) | PostSignal(task: Task) | PostEnqueue(task: Task)
    | PostCount | PostUnlock
    | DoneLock | DoneTake | DoneUnlock

  datatype Owner = Nobody | EventLoop | Thread(w: nat)

  /** `notified` says that the event loop is to call ngx_thread_pool_handler() when it comes round; several calls of
      ngx_notify() before that count once.  `posted`, `started` and `completed` are the history: the tasks put in the
      queue, taken from it, and handed to their completion handlers, in order. */
  datatype State = State(
    queue: seq<Task>, waiting: int, mutex: Owner,
    done: seq<Task>, doneLock: Owner, notified: bool, batch: seq<Task>, active: set<Task>,
    workers: seq<Worker>, loop: Loop,
    posted: seq<Task>, started: seq<Task>, completed: seq<Task>)
  {
    function To(w: nat, place: Worker): State
      requires w < |workers|
    {
      this.(workers := workers[w := place])
    }
  }

  datatype Config = Config(threads: nat, maxQueue: int)

  ghost predicate Init(c: Config, s: State) {
    s == State([], 0, Nobody, [], Nobody, false, [], {}, seq(c.threads, w => Start), Free, [], [], [])
  }

  /** One step of pool thread `w`. */
  ghost predicate WorkerStep(s: State, s': State, w: nat)
    requires w < |s.workers|
  {
    match s.workers[w]
    case Start => s.mutex == Nobody && s' == s.(mutex := Thread(w)).To(w, Decrement)
    case Decrement => s' == s.(waiting := s.waiting - 1).To(w, Check)
    // waiting on the condition variable gives the mutex up
    case Check => s' == if s.queue == [] then s.(mutex := Nobody).To(w, Sleeping) else s.To(w, Take)
    // a thread may also wake up without a signal
    case Sleeping => s' == s.To(w, Woken)
    case Woken => s.mutex == Nobody && s' == s.(mutex := Thread(w)).To(w, Check)
    case Take =>
      s.queue != [] && s' == s.(queue := s.queue[1..], started := s.started + [s.queue[0]]).To(w, Leave(s.queue[0]))
    case Leave(t) => s' == s.(mutex := Nobody).To(w, Running(t))
    case Running(t) => s' == s.To(w, Finish(t))
    case Finish(t) => s.doneLock == Nobody && s' == s.(doneLock := Thread(w)).To(w, Append(t))
    case Append(t) => s' == s.(done := s.done + [t]).To(w, Release)
    case Release => s' == s.(doneLock := Nobody).To(w, Notify)
    case Notify => s' == s.(notified := true).To(w, Start)
  }

  /** One step of the event loop. */
  ghost predicate LoopStep(c: Config, s: State, s': State) {
    match s.loop
    case Free =>
      // a call of ngx_thread_task_post(), which refuses a task that is active
      || (exists t: Task :: s' == if t in s.active then s else s.(loop := PostLock(t)))
      // a call of ngx_thread_pool_handler()
      || (s.batch == [] && s.notified && s' == s.(notified := false, loop := DoneLock))
      // the next task of the batch gets to its completion handler
      || (s.batch != [] && s' == s.(batch := s.batch[1..], active := s.active - {s.batch[0]},
          completed := s.completed + [s.batch[0]]))
    case PostLock(t) => s.mutex == Nobody && s' == s.(mutex := EventLoop, loop := PostCheck(t))
    case PostCheck(t) =>
      s' == if s.waiting >= c.maxQueue then s.(loop := PostUnlock)
          else s.(active := s.active + {t}, loop := PostSignal(t))
    // the signal wakes one thread, if one sleeps
    case PostSignal(t) =>
      var n := s.(loop := PostEnqueue(t));
      if forall w :: 0 <= w < |s.workers| ==> s.workers[w] != Sleeping then s' == n
      else exists w: nat :: w < |s.workers| && s.workers[w] == Sleeping && s' == n.To(w, Woken)
    case PostEnqueue(t) => s' == s.(queue := s.queue + [t], posted := s.posted + [t], loop := PostCount)
    case PostCount => s' == s.(waiting := s.waiting + 1, loop := PostUnlock)
    case PostUnlock => s' == s.(mutex := Nobody, loop := Free)
    case DoneLock => s.doneLock == Nobody && s' == s.(doneLock := EventLoop, loop := DoneTake)
    case DoneTake => s' == s.(batch := s.done, done := [], loop := DoneUnlock)
    case DoneUnlock => s' == s.(doneLock := Nobody, loop := Free)
  }

  ghost predicate Follows(c: Config, s: State, s': State) {
    LoopStep(c, s, s') || exists w: nat :: w < |s.workers| && WorkerStep(s, s', w)
  }

  ghost predicate Run(c: Config, run: seq<State>) {
    && |run| > 0 && Init(c, run[0])
    && forall i: nat :: i < |run| - 1 ==> Follows(c, run[i], run[i + 1])
  }

  // ----- what every state of every run satisfies

  predicate InMutex(place: Worker) { place == Decrement || place == Check || place == Take || place.Leave? }

  predicate LoopInMutex(loop: Loop) {
    loop.PostCheck? || loop.PostSignal? || loop.PostEnqueue? || loop.PostCount? || loop.PostUnlock?
  }

  predicate InDoneLock(place: Worker) { place.Append? || place.Release? }

  predicate LoopInDoneLock(loop: Loop) { loop.DoneTake? || loop.DoneUnlock? }

  /** The mutex excludes, and a thread about to dequeue has something to dequeue. */
  ghost predicate MutexHeld(s: State) {
    && (forall w: nat :: w < |s.workers| ==> (InMutex(s.workers[w]) <==> s.mutex == Thread(w)))
    && (LoopInMutex(s.loop) <==> s.mutex == EventLoop)
    && (forall w: nat :: w < |s.workers| && s.workers[w] == Take ==> s.queue != [])
  }

  /** The spin lock excludes, and the event loop fetches done tasks when it has none. */
  ghost predicate DoneLockHeld(s: State) {
    && (forall w: nat :: w < |s.workers| ==> (InDoneLock(s.workers[w]) <==> s.doneLock == Thread(w)))
    && (LoopInDoneLock(s.loop) <==> s.doneLock == EventLoop)
    && (s.loop.DoneLock? || s.loop.DoneTake? ==> s.batch == [])
  }

  ghost predicate Exclusive(s: State) { MutexHeld(s) && DoneLockHeld(s) }

  predicate HasTask(place: Worker) { place.Leave? || place.Running? || place.Finish? || place.Append? }

  /** The property of having task `t`. */
  function Has(t: Task): Worker -> bool { (place: Worker) => HasTask(place) && place.task == t }

  /** How often task `t` occurs. */
  ghost function Times(q: seq<Task>, t: Task): nat { multiset(q)[t] }

  /** In how many places task `t` is: pending, with a thread, done, or in the detached batch. */
  ghost function Places(s: State, t: Task): nat {
    Times(s.queue, t) + Count(s.workers, Has(t)) + Times(s.done, t) + Times(s.batch, t) +
    if s.loop == PostSignal(t) || s.loop == PostEnqueue(t) then 1 else 0
  }

  /** Every active task is in exactly one place, and no other task is anywhere. */
  ghost predicate OnePlace(s: State) {
    && (forall t: Task :: Places(s, t) == if t in s.active then 1 else 0)
    && (s.loop.PostLock? || s.loop.PostCheck? ==> s.loop.task !in s.active)
  }

  /** Tasks are started in the order in which they were posted, and each post is completed once, when
      its task stops being active. */
  ghost predicate History(s: State) {
    && s.posted == s.started + s.queue
    && forall t: Task :: Times(s.completed, t)
        + (if t in s.active && s.loop != PostSignal(t) && s.loop != PostEnqueue(t) then 1 else 0) ==
                         Times(s.posted, t)
  }

  /** A thread that has decremented `waiting` and not yet dequeued. */
  predicate Ahead(place: Worker) { place == Check || place == Sleeping || place == Woken || place == Take }

  predicate Asleep(place: Worker) { place == Sleeping }

  predicate Roused(place: Worker) { place == Check || place == Woken || place == Take }

  /** What `waiting` counts, how long the queue gets, and that sleepers are woken for pending tasks. */
  ghost predicate Counted(c: Config, s: State) {
    && s.waiting == |s.queue| - Count(s.workers, Ahead) - (if s.loop == PostCount then 1 else 0)
    && |s.queue| + (if s.loop.PostSignal? || s.loop.PostEnqueue? then 1 else 0) <= Max(c) + |s.workers|
    && (Count(s.workers, Asleep) > 0 ==> |s.queue| + (if s.loop.PostEnqueue? then 1 else 0) <= Count(s.workers, Roused))
  }

  function Max(c: Config): nat { if c.maxQueue > 0 then c.maxQueue else 0 }

  /** Done tasks are announced, or about to be, or the event loop is already on its way to fetch them. */
  ghost predicate Noticed(s: State) {
    s.done != [] ==>
      || s.notified || s.loop == DoneLock || s.loop == DoneTake
      || exists w :: 0 <= w < |s.workers| && (s.workers[w] == Release || s.workers[w] == Notify)
  }

  ghost predicate Inv(c: Config, s: State) {
    |s.workers| == c.threads && Exclusive(s) && OnePlace(s) && History(s) && Counted(c, s) && Noticed(s)
  }

  // ----- each step keeps it

  lemma WorkerExclusive(s: State, s': State, w: nat)
    requires Exclusive(s) && w < |s.workers| && WorkerStep(s, s', w)
    ensures Exclusive(s')
  {
    hide MutexHeld, DoneLockHeld, WorkerStep;
    WorkerMutex(s, s', w);
    WorkerDoneLock(s, s', w);
  }

  lemma WorkerMutex(s: State, s': State, w: nat)
    requires MutexHeld(s) && w < |s.workers| && WorkerStep(s, s', w)
    ensures MutexHeld(s')
  {
    WorkerLocks(s, s', w);
  }

  lemma WorkerDoneLock(s: State, s': State, w: nat)
    requires DoneLockHeld(s) && w < |s.workers| && WorkerStep(s, s', w)
    ensures DoneLockHeld(s')
  {
    WorkerLocks(s, s', w);
  }

  /** A step of a thread concerns its own place and, if any lock, one lock. */
  lemma WorkerLocks(s: State, s': State, w: nat)
    requires w < |s.workers| && WorkerStep(s, s', w)
    ensures |s'.workers| == |s.workers| && s'.loop == s.loop && s'.batch == s.batch
    ensures forall v: nat :: v < |s.workers| && v != w ==> s'.workers[v] == s.workers[v]
    ensures s'.queue == [] ==> s.queue == [] || s.workers[w] == Take
  {
  }

  lemma LoopExclusive(c: Config, s: State, s': State)
    requires Exclusive(s) && LoopStep(c, s, s')
    ensures Exclusive(s')
  {
    hide MutexHeld, DoneLockHeld, LoopStep;
    LoopMutex(c, s, s');
    LoopDoneLock(c, s, s');
  }

  lemma LoopMutex(c: Config, s: State, s': State)
    requires MutexHeld(s) && LoopStep(c, s, s')
    ensures MutexHeld(s')
  {
  }

  lemma LoopDoneLock(c: Config, s: State, s': State)
    requires DoneLockHeld(s) && LoopStep(c, s, s')
    ensures DoneLockHeld(s')
  {
  }

  lemma TimesFirst(q: seq<Task>, t: Task)
    requires q != []
    ensures Times(q, t) == Times(q[1..], t) + if t == q[0] then 1 else 0
  {
    assert q == [q[0]] + q[1..];
  }

  lemma TimesLast(q: seq<Task>, x: Task, t: Task)
    ensures Times(q + [x], t) == Times(q, t) + if t == x then 1 else 0
  {
  }

  lemma TimesNone(t: Task)
    ensures Times([], t) == 0
  {
  }

  lemma WorkerPlaces(s: State, s': State, w: nat, t: Task)
    requires w < |s.workers| && WorkerStep(s, s', w)
    ensures Places(s', t) == Places(s, t)
  {
    hide Count, Times, WorkerStep, Has;
    WorkerTimes(s, s', w, t);
    CountMove(s.workers, Has(t), w, s'.workers[w]);
  }

  /** A thread moves a task between the lists and its own hands. */
  lemma WorkerTimes(s: State, s': State, w: nat, t: Task)
    requires w < |s.workers| && WorkerStep(s, s', w)
    ensures |s'.workers| == |s.workers| && s'.workers == s.workers[w := s'.workers[w]]
    ensures s'.batch == s.batch && s'.loop == s.loop
    ensures Times(s'.queue, t) + Times(s'.done, t) + (if Has(t)(s'.workers[w]) then 1 else 0)
         == Times(s.queue, t) + Times(s.done, t) + (if Has(t)(s.workers[w]) then 1 else 0)
  {
    hide Count, Times;
    match s.workers[w]
    case Take => TimesFirst(s.queue, t);
    case Append(u) => TimesLast(s.done, u, t);
    case _ =>
  }

  lemma WorkerOnePlace(s: State, s': State, w: nat)
    requires OnePlace(s) && w < |s.workers| && WorkerStep(s, s', w)
    ensures OnePlace(s')
  {
    hide Count, Places;
    forall t: Task
      ensures Places(s', t) == if t in s'.active then 1 else 0
    {
      WorkerPlaces(s, s', w, t);
    }
  }

  lemma PlacesAt(s: State, t: Task)
    requires OnePlace(s)
    ensures Places(s, t) == if t in s.active then 1 else 0
  {
    hide Places;
  }

  lemma LoopPlaces(c: Config, s: State, s': State, t: Task)
    requires OnePlace(s) && LoopStep(c, s, s') && (s.loop.DoneTake? ==> s.batch == [])
    ensures Places(s', t) == if t in s'.active then 1 else 0
  {
    hide OnePlace, Places, LoopStep;
    if s.loop.Free? {
      LoopPlacesFree(c, s, s', t);
    } else if s.loop.PostSignal? {
      LoopPlacesSignal(c, s, s', t);
    } else {
      LoopPlacesOther(c, s, s', t);
    }
  }

  lemma LoopPlacesOther(c: Config, s: State, s': State, t: Task)
    requires OnePlace(s) && LoopStep(c, s, s') && (s.loop.DoneTake? ==> s.batch == [])
    requires !s.loop.Free? && !s.loop.PostSignal?
    ensures Places(s', t) == if t in s'.active then 1 else 0
  {
    hide Count, Times, OnePlace;
    PlacesAt(s, t);
    PostIdle(s);
    TimesNone(t);
    if s.loop.PostEnqueue? {
      TimesLast(s.queue, s.loop.task, t);
    }
  }

  lemma PostIdle(s: State)
    requires OnePlace(s)
    ensures s.loop.PostCheck? ==> s.loop.task !in s.active
  {
    hide Places;
  }

  lemma LoopPlacesSignal(c: Config, s: State, s': State, t: Task)
    requires OnePlace(s) && LoopStep(c, s, s') && s.loop.PostSignal?
    ensures Places(s', t) == if t in s'.active then 1 else 0
  {
    hide Count, Times, OnePlace;
    PlacesAt(s, t);
    SignalKeepsTasks(c, s, s', t);
  }

  lemma LoopPlacesFree(c: Config, s: State, s': State, t: Task)
    requires OnePlace(s) && LoopStep(c, s, s') && s.loop.Free?
    ensures Places(s', t) == if t in s'.active then 1 else 0
  {
    hide Count, Times, OnePlace;
    PlacesAt(s, t);
    if s.batch != [] {
      TimesFirst(s.batch, t);
      TimesFirst(s.batch, s.batch[0]);
      PlacesAt(s, s.batch[0]);
    }
  }

  lemma LoopOnePlace(c: Config, s: State, s': State)
    requires OnePlace(s) && LoopStep(c, s, s') && (s.loop.DoneTake? ==> s.batch == [])
    ensures OnePlace(s')
  {
    hide Count, Places;
    forall t: Task
      ensures Places(s', t) == if t in s'.active then 1 else 0
    {
      LoopPlaces(c, s, s', t);
    }
  }

  /** Waking a thread does not give it a task. */
  lemma SignalKeepsTasks(c: Config, s: State, s': State, t: Task)
    requires LoopStep(c, s, s')
    ensures Count(s'.workers, Has(t)) == Count(s.workers, Has(t))
  {
    hide Count;
    if s'.workers != s.workers {
      var w: nat :| w < |s.workers| && s.workers[w] == Sleeping && s'.workers == s.workers[w := Woken];
      CountMove(s.workers, Has(t), w, Woken);
    }
  }

  lemma WorkerHistory(s: State, s': State, w: nat)
    requires History(s) && w < |s.workers| && WorkerStep(s, s', w)
    ensures History(s')
  {
    hide Times;
    if s.workers[w] == Take {
      assert s.queue == [s.queue[0]] + s.queue[1..];
      assert s'.started + s'.queue == s.started + s.queue;
    }
  }

  lemma LoopHistory(c: Config, s: State, s': State)
    requires OnePlace(s) && History(s) && LoopStep(c, s, s')
    ensures History(s')
  {
    hide Count, Times;
    assert s'.posted == s'.started + s'.queue;
    forall t: Task
      ensures Times(s'.completed, t) + (if t in s'.active && s'.loop != PostSignal(t)
              && s'.loop != PostEnqueue(t) then 1 else 0) ==
              Times(s'.posted, t)
    {
      LoopTimes(c, s, s', t);
    }
  }

  lemma LoopTimes(c: Config, s: State, s': State, t: Task)
    requires OnePlace(s) && History(s) && LoopStep(c, s, s')
    ensures Times(s'.completed, t) + (if t in s'.active && s'.loop != PostSignal(t)
            && s'.loop != PostEnqueue(t) then 1 else 0) ==
            Times(s'.posted, t)
  {
    hide Count, Times;
    assert Times(s.completed, t) + (if t in s.active && s.loop != PostSignal(t) && s.loop != PostEnqueue(t) then 1
        else 0) ==
           Times(s.posted, t);
    match s.loop
    case Free =>
      if s.batch != [] {
        TimesFirst(s.batch, s.batch[0]);
        TimesLast(s.completed, s.batch[0], t);
        assert Places(s, s.batch[0]) == if s.batch[0] in s.active then 1 else 0;
      }
    case PostEnqueue(u) =>
      TimesLast(s.posted, u, t);
      assert Places(s, u) == if u in s.active then 1 else 0;
    case _ =>
  }

  lemma WorkerCounted(c: Config, s: State, s': State, w: nat)
    requires |s.workers| == c.threads && Exclusive(s) && Counted(c, s) && w < |s.workers| && WorkerStep(s, s', w)
    ensures Counted(c, s')
  {
    WorkerMoves(s, s', w);
    hide Count, WorkerStep, MutexHeld, DoneLockHeld, Ahead, Asleep, Roused;
    CountMove(s.workers, Ahead, w, s'.workers[w]);
    CountMove(s.workers, Asleep, w, s'.workers[w]);
    CountMove(s.workers, Roused, w, s'.workers[w]);
  }

  /** What a step of a thread does to the counts; one that goes to sleep has found the queue empty. */
  lemma WorkerMoves(s: State, s': State, w: nat)
    requires MutexHeld(s) && w < |s.workers| && WorkerStep(s, s', w)
    ensures |s'.workers| == |s.workers| && s'.workers == s.workers[w := s'.workers[w]] && s'.loop == s.loop
    ensures |s'.queue| <= |s.queue|
    ensures s'.waiting - s.waiting == |s'.queue| - |s.queue| - More(Ahead, s.workers[w], s'.workers[w])
    ensures More(Roused, s.workers[w], s'.workers[w]) >= |s'.queue| - |s.queue|
            || (s'.queue == [] && !s.loop.PostEnqueue?)
    ensures More(Asleep, s.workers[w], s'.workers[w]) > 0 ==> s'.queue == [] && !s.loop.PostEnqueue?
  {
  }

  /** What a move from `a` to `b` adds to the number of threads with the property. */
  function More(f: Worker -> bool, a: Worker, b: Worker): int { (if f(b) then 1 else 0) - if f(a) then 1 else 0 }

  lemma LoopCounted(c: Config, s: State, s': State)
    requires |s.workers| == c.threads && Exclusive(s) && Counted(c, s) && LoopStep(c, s, s')
    ensures Counted(c, s')
  {
    hide Count;
    if s.loop.PostSignal? {
      SignalCounted(c, s, s');
    } else {
      hide MutexHeld, DoneLockHeld;
    }
  }

  lemma SignalCounted(c: Config, s: State, s': State)
    requires |s.workers| == c.threads && Counted(c, s) && LoopStep(c, s, s') && s.loop.PostSignal?
    ensures Counted(c, s')
  {
    hide Count;
    if forall w :: 0 <= w < |s.workers| ==> s.workers[w] != Sleeping {
      CountNone(s.workers, Asleep);
    } else {
      var w: nat :| w < |s.workers| && s.workers[w] == Sleeping && s'.workers == s.workers[w := Woken];
      CountMove(s.workers, Ahead, w, Woken);
      CountMove(s.workers, Asleep, w, Woken);
      CountMove(s.workers, Roused, w, Woken);
      CountSome(s.workers, Asleep, w);
    }
  }

  lemma WorkerNoticed(s: State, s': State, w: nat)
    requires Noticed(s) && w < |s.workers| && WorkerStep(s, s', w)
    ensures Noticed(s')
  {
    WorkerLocks(s, s', w);
    if s.workers[w].Append? {
      assert s'.workers[w] == Release;
    } else if s.workers[w] == Release {
      assert s'.workers[w] == Notify;
    } else if v :| 0 <= v < |s.workers| && (s.workers[v] == Release || s.workers[v] == Notify) {
      assert v != w ==> s'.workers[v] == s.workers[v];
    }
  }

  lemma LoopNoticed(c: Config, s: State, s': State)
    requires Noticed(s) && LoopStep(c, s, s')
    ensures Noticed(s')
  {
    if v :| 0 <= v < |s.workers| && (s.workers[v] == Release || s.workers[v] == Notify) {
      assert s'.workers[v] == s.workers[v];
    }
  }

  lemma StepInv(c: Config, s: State, s': State)
    requires Inv(c, s) && Follows(c, s, s')
    ensures Inv(c, s')
  {
    hide Exclusive, OnePlace, History, Counted, Noticed, LoopStep, WorkerStep;
    if LoopStep(c, s, s') {
      LoopExclusive(c, s, s');
      LoopThreads(c, s, s');
      LoopOnePlace(c, s, s');
      LoopHistory(c, s, s');
      LoopCounted(c, s, s');
      LoopNoticed(c, s, s');
    } else {
      var w: nat :| w < |s.workers| && WorkerStep(s, s', w);
      WorkerExclusive(s, s', w);
      WorkerOnePlace(s, s', w);
      WorkerHistory(s, s', w);
      WorkerCounted(c, s, s', w);
      WorkerNoticed(s, s', w);
      WorkerLocks(s, s', w);
    }
  }

  lemma LoopThreads(c: Config, s: State, s': State)
    requires LoopStep(c, s, s')
    ensures |s'.workers| == |s.workers| && (s.loop == DoneTake && Exclusive(s) ==> s.batch == [])
  {
  }

  lemma InitInv(c: Config, s: State)
    requires Init(c, s)
    ensures Inv(c, s)
  {
    forall t: Task
      ensures Places(s, t) == 0
    {
      CountNone(s.workers, Has(t));
    }
    CountNone(s.workers, Ahead);
    CountNone(s.workers, Asleep);
  }

  lemma {:induction false} RunInv(c: Config, run: seq<State>, i: nat)
    requires Run(c, run) && i < |run|
    ensures Inv(c, run[i])
  {
    if i == 0 {
      InitInv(c, run[0]);
    } else {
      RunInv(c, run, i - 1);
      StepInv(c, run[i - 1], run[i]);
    }
  }

  // ----- the theorems

  /** Each active task is in exactly one of the queue, the threads, the done list and the batch. */
  lemma ActiveInOnePlace(c: Config, run: seq<State>, i: nat, t: Task)
    requires Run(c, run) && i < |run|
    ensures Places(run[i], t) == if t in run[i].active then 1 else 0
  {
    RunInv(c, run, i);
  }

  /** Tasks start in the order of their posts, and a task that is not active has been completed
      exactly as often as it has been posted. */
  lemma StartedInOrder(c: Config, run: seq<State>, i: nat, t: Task)
    requires Run(c, run) && i < |run|
    ensures run[i].started <= run[i].posted
    ensures t !in run[i].active ==> Times(run[i].completed, t) == Times(run[i].posted, t)
    ensures Times(run[i].completed, t) <= Times(run[i].posted, t) <= Times(run[i].completed, t) + 1
  {
    RunInv(c, run, i);
  }

  /** `waiting` is the length of the queue without the threads that have decremented it and not yet dequeued;
      while a post has put its task in the queue and not yet counted it, it is one less. */
  lemma WaitingMeans(c: Config, run: seq<State>, i: nat)
    requires Run(c, run) && i < |run|
    ensures run[i].waiting == |run[i].queue| - Count(run[i].workers, Ahead) - (if run[i].loop == PostCount then 1
            else 0)
  {
    RunInv(c, run, i);
  }

  /** How long the queue can get. */
  lemma QueueBounded(c: Config, run: seq<State>, i: nat)
    requires Run(c, run) && i < |run|
    ensures |run[i].queue| <= Max(c) + c.threads
  {
    RunInv(c, run, i);
  }

  /** No task is stranded: while a thread sleeps, no more tasks are pending than threads are awake on their way to
      the queue; so with a task pending some thread is on its way, unless all are past the queue with a task. */
  lemma NoTaskStranded(c: Config, run: seq<State>, i: nat)
    requires Run(c, run) && i < |run|
    ensures var s := run[i];
            && ((exists w :: 0 <= w < |s.workers| && s.workers[w] == Sleeping) ==>
                  |s.queue| + (if s.loop.PostEnqueue? then 1 else 0) <= Count(s.workers, Roused))
            && (s.queue != [] && Count(s.workers, Roused) == 0 ==>
                  forall w :: 0 <= w < |s.workers| ==> !Ahead(s.workers[w]))
  {
    RunInv(c, run, i);
    var s := run[i];
    if w :| 0 <= w < |s.workers| && s.workers[w] == Sleeping {
      CountSome(s.workers, Asleep, w);
    }
    forall w | 0 <= w < |s.workers| && Roused(s.workers[w])
      ensures Count(s.workers, Roused) > 0
    {
      CountSome(s.workers, Roused, w);
    }
  }

  /** No completed task is left behind: while there is one that the event loop has not fetched, the event loop is to
      be called, is at it, or a thread is about to announce it. */
  lemma NoCompletionLost(c: Config, run: seq<State>, i: nat)
    requires Run(c, run) && i < |run| && run[i].done != []
    ensures var s := run[i];
            || s.notified || s.loop == DoneLock || s.loop == DoneTake
            || exists w :: 0 <= w < |s.workers| && (s.workers[w] == Release || s.workers[w] == Notify)
  {
    RunInv(c, run, i);
  }

  // ----- what is refused, and progress without disturbance

  /** A task may be posted just when it is not active, and a post is refused only when as many tasks as configured
      are pending; if fewer threads than tasks beyond that number are on their way, it is refused. */
  lemma RefusedWhenFull(c: Config, run: seq<State>, i: nat, s': State, t: Task)
    requires Run(c, run) && i < |run| && LoopStep(c, run[i], s')
    ensures run[i].loop == Free ==> (LoopStep(c, run[i], run[i].(loop := PostLock(t))) <==> t !in run[i].active)
    ensures run[i].loop.PostCheck? && s'.loop == PostUnlock ==> |run[i].queue| >= c.maxQueue && s'.queue == run[i].queue
    ensures run[i].loop.PostCheck? && s'.loop != PostUnlock ==>
              |run[i].queue| < c.maxQueue + Count(run[i].workers, Ahead)
  {
    RunInv(c, run, i);
    hide Run, Exclusive, OnePlace, History, Noticed, Count;
    var s := run[i];
    if s.loop == Free && t in s.active {
      assert s.(loop := PostLock(t)) != s;
    }
  }

  /** From state `i` on, the next `n` steps of the run are those of the event loop. */
  ghost predicate LoopAlone(c: Config, run: seq<State>, i: nat, n: nat) {
    i + n < |run| && forall k: nat :: i <= k < i + n ==> LoopStep(c, run[k], run[k + 1])
  }

  /** An undisturbed post with the mutex free and fewer than the configured tasks waiting puts its task at the end of
      the queue, and otherwise changes nothing. */
  lemma PostDone(c: Config, run: seq<State>, i: nat, t: Task)
    requires LoopAlone(c, run, i, 6) && run[i].loop == PostLock(t) && run[i].mutex == Nobody
    ensures var s := run[i];
            if s.waiting < c.maxQueue then
              var s' := run[i + 6];
              && s'.loop == Free && s'.mutex == Nobody && s'.queue == s.queue + [t]
              && s'.active == s.active + {t} && s'.waiting == s.waiting + 1
            else
              run[i + 3] == s.(loop := Free)
  {
    PostStep(c, run, i, 6, i);
    PostStep(c, run, i, 6, i + 1);
    PostStep(c, run, i, 6, i + 2);
    hide LoopAlone, LoopStep;
    if run[i].waiting < c.maxQueue {
      PostStep(c, run, i, 6, i + 3);
      PostStep(c, run, i, 6, i + 4);
      PostStep(c, run, i, 6, i + 5);
    }
  }

  /** A step of ngx_thread_task_post(), but for the threads it may wake. */
  lemma PostStep(c: Config, run: seq<State>, i: nat, n: nat, k: nat)
    requires LoopAlone(c, run, i, n) && i <= k < i + n
    ensures var s, s' := run[k], run[k + 1];
            match s.loop
            case PostLock(t) => s' == s.(mutex := EventLoop, loop := PostCheck(t))
            case PostCheck(t) =>
              s' == if s.waiting >= c.maxQueue then s.(loop := PostUnlock)
                    else s.(active := s.active + {t}, loop := PostSignal(t))
            case PostSignal(t) => s' == s.(workers := s'.workers, loop := PostEnqueue(t))
            case PostEnqueue(t) => s' == s.(queue := s.queue + [t], posted := s.posted + [t], loop := PostCount)
            case PostCount => s' == s.(waiting := s.waiting + 1, loop := PostUnlock)
            case PostUnlock => s' == s.(mutex := Nobody, loop := Free)
            case _ => true
  {
    assert LoopStep(c, run[k], run[k + 1]);
    hide LoopAlone;
  }

  /** From state `i` on, the next `n` steps of the run are those of thread `w`. */
  ghost predicate ThreadAlone(run: seq<State>, i: nat, n: nat, w: nat) {
    i + n < |run| && forall k: nat :: i <= k < i + n ==>
      w < |run[k].workers| == |run[k + 1].workers| && WorkerStep(run[k], run[k + 1], w)
  }

  /** An undisturbed thread that comes for a task with the mutex free and a task pending runs the first one. */
  lemma TaskRun(run: seq<State>, i: nat, w: nat)
    requires ThreadAlone(run, i, 5, w)
    requires run[i].workers[w] == Start && run[i].mutex == Nobody && run[i].queue != []
    ensures var s, s' := run[i], run[i + 5];
            && w < |s'.workers| && s'.workers[w] == Running(s.queue[0]) && s'.queue == s.queue[1..]
            && s'.mutex == Nobody && s'.waiting == s.waiting - 1
  {
    ThreadAt(run, i, 5, w, i);
    ThreadAt(run, i, 5, w, i + 1);
    ThreadAt(run, i, 5, w, i + 2);
    ThreadAt(run, i, 5, w, i + 3);
    ThreadAt(run, i, 5, w, i + 4);
    hide ThreadAlone;
  }

  lemma ThreadAt(run: seq<State>, i: nat, n: nat, w: nat, k: nat)
    requires ThreadAlone(run, i, n, w) && i <= k < i + n
    ensures w < |run[k].workers| == |run[k + 1].workers| && WorkerStep(run[k], run[k + 1], w)
  {
  }
}
