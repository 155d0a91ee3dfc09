/** The interprocess mutex of `ngx_shmtx.c`, with atomic operations and POSIX semaphores, as a step
    system: each read of shared memory, each compare-and-set, each fetch-and-add and each semaphore
    operation is one step of one process, and steps of different processes interleave in any way. */
module Shmtx {
  import opened Words
  import opened Processes

  /** Where a process is.  The places of ngx_shmtx_lock() before it registers as a waiter are `Read`,
      `Cas` and `Missed`; `ReadAgain`, `CasAgain` and `Unregister` are those after. */
  datatype Place =
    | Idle
    | TryRead | TryCas
    | Read | Cas | Missed
    | Register | ReadAgain | CasAgain | Unregister | SemWait
    | Holding
    | UnlockCas(holding: bool) | WakeRead | WakeCas(seen: word) | Post

  /** The processes' ids, and whether sem_init() succeeded. */
  datatype Config = Config(pids: seq<word>, semaphore: bool) {
    ghost predicate Valid() {
      && |pids| < HALF_WORD
      && (forall p :: 0 <= p < |pids| ==> pids[p] != 0)
      && (forall p, q :: 0 <= p < q < |pids| ==> pids[p] != pids[q])
    }
  }

  datatype State = State(lock: word, wait: word, sem: nat, procs: seq<Place>) {
    function At(p: nat, place: Place): State
      requires p < |procs|
    {
      this.(procs := procs[p := place])
    }
  }

  ghost predicate Init(c: Config, s: State) {
    s == State(0, 0, 0, seq(|c.pids|, p => Idle))
  }

  /** One step of process `p`. */
  ghost predicate Step(c: Config, s: State, s': State, p: nat)
    requires p < |s.procs| == |c.pids|
  {
    var pid := c.pids[p];
    match s.procs[p]
    // the process calls ngx_shmtx_trylock(), ngx_shmtx_lock() or ngx_shmtx_unlock()
    case Idle => s' == s.At(p, TryRead) || s' == s.At(p, Read) || s' == s.At(p, UnlockCas(false))
    case TryRead => s' == s.At(p, if s.lock == 0 then TryCas else Idle)
    case TryCas => s' == if s.lock == 0 then s.(lock := pid).At(p, Holding) else s.At(p, Idle)
    case Read => s' == s.At(p, if s.lock == 0 then Cas else Missed)
    case Cas => s' == if s.lock == 0 then s.(lock := pid).At(p, Holding) else s.At(p, Missed)
    // spinning, or yielding without a semaphore, is reading the lock again
    case Missed => s' == s.At(p, Read) || (c.semaphore && s' == s.At(p, Register))
    case Register => s' == s.(wait := WrapAdd(s.wait, 1)).At(p, ReadAgain)
    case ReadAgain => s' == s.At(p, if s.lock == 0 then CasAgain else SemWait)
    case CasAgain => s' == if s.lock == 0 then s.(lock := pid).At(p, Unregister) else s.At(p, SemWait)
    case Unregister => s' == s.(wait := WrapAdd(s.wait, -1)).At(p, Holding)
    // sem_wait() may be interrupted and is then called again
    case SemWait => s' == s || (s.sem > 0 && s' == s.(sem := s.sem - 1).At(p, Read))
    case Holding => s' == s.At(p, UnlockCas(true))
    case UnlockCas(_) =>
      s' == if s.lock == pid then s.(lock := 0).At(p, if c.semaphore then WakeRead else Idle) else s.At(p, Idle)
    case WakeRead => s' == s.At(p, if Signed(s.wait) <= 0 then Idle else WakeCas(s.wait))
    case WakeCas(seen) => s' == if s.wait == seen then s.(wait := WrapAdd(seen, -1)).At(p, Post) else s.At(p, WakeRead)
    case Post => s' == s.(sem := s.sem + 1).At(p, Idle)
  }

  /** A run: any interleaving of steps, from the initial state. */
  ghost predicate Run(c: Config, run: seq<State>) {
    && c.Valid() && |run| > 0 && Init(c, run[0])
    && forall i: nat :: i < |run| - 1 ==> Follows(c, run[i], run[i + 1])
  }

  ghost predicate Follows(c: Config, s: State, s': State) {
    |s.procs| == |c.pids| && exists p: nat :: p < |s.procs| && Step(c, s, s', p)
  }

  // ----- what every state of every run satisfies

  /** The process has the lock. */
  predicate Owns(place: Place) {
    place == Holding || place == Unregister || place == UnlockCas(true)
  }

  /** The process is counted in `wait`, or a post meant for it has been taken out of the count. */
  predicate Registered(place: Place) {
    place == ReadAgain || place == CasAgain || place == Unregister || place == SemWait
  }

  /** The process is inside ngx_shmtx_lock() or ngx_shmtx_unlock(), awake and without the lock.  One inside
      ngx_shmtx_trylock() does not count, as it wakes nobody, nor one that unlocks what it does not have. */
  predicate Looking(place: Place) {
    && !Owns(place) && place != Idle && place != SemWait && place != UnlockCas(false)
    && place != TryRead && place != TryCas
  }

  predicate Posting(place: Place) { place == Post }

  /** Exactly the owner's id is in the lock word. */
  ghost predicate LockIsOwner(c: Config, s: State)
    requires |s.procs| == |c.pids|
  {
    && (forall p :: 0 <= p < |s.procs| ==> (Owns(s.procs[p]) <==> s.lock == c.pids[p]))
    && (s.lock == 0 || exists p :: 0 <= p < |s.procs| && Owns(s.procs[p]))
  }

  /** The count of waiters, the semaphore and the posts under way balance the registered waiters. */
  ghost predicate Balanced(s: State) {
    && Signed(s.wait) + s.sem + Count(s.procs, Posting) == Count(s.procs, Registered)
    && s.sem + Count(s.procs, Posting) <= |s.procs|
  }

  /** While the lock is free and a process sleeps, somebody is about to take the lock, to look for
      waiters or to post, or has posted. */
  ghost predicate NobodyForgotten(s: State) {
    s.lock == 0 && (exists p :: 0 <= p < |s.procs| && s.procs[p] == SemWait) ==>
      s.sem > 0 || exists q :: 0 <= q < |s.procs| && Looking(s.procs[q])
  }

  ghost predicate NoSemaphore(c: Config, s: State) {
    !c.semaphore ==> forall p :: 0 <= p < |s.procs| ==>
      s.procs[p] != Register && !Registered(s.procs[p]) && s.procs[p] != Post && s.procs[p] != WakeRead
          && !s.procs[p].WakeCas?
  }

  /** A waker only takes a waiter out of the count when it has seen one. */
  ghost predicate SawWaiters(s: State) {
    forall p :: 0 <= p < |s.procs| && s.procs[p].WakeCas? ==> Signed(s.procs[p].seen) > 0
  }

  ghost predicate Inv(c: Config, s: State) {
    && c.Valid() && |s.procs| == |c.pids|
    && LockIsOwner(c, s) && Balanced(s) && NobodyForgotten(s) && NoSemaphore(c, s) && SawWaiters(s)
  }

  lemma InitInv(c: Config, s: State)
    requires c.Valid() && Init(c, s)
    ensures Inv(c, s)
  {
    CountNone(s.procs, Posting);
    CountNone(s.procs, Registered);
  }

  lemma StepOwner(c: Config, s: State, s': State, p: nat)
    requires Inv(c, s) && p < |s.procs| && Step(c, s, s', p)
    ensures |s'.procs| == |s.procs| && LockIsOwner(c, s')
  {
    hide Balanced, NobodyForgotten, NoSemaphore, SawWaiters, Count;
    assert forall q :: 0 <= q < |s.procs| && q != p ==> s'.procs[q] == s.procs[q];
    if s'.lock != 0 && s'.lock == s.lock {
      var o :| 0 <= o < |s.procs| && Owns(s.procs[o]);
      assert o != p ==> Owns(s'.procs[o]);
    }
  }

  lemma StepPlaces(c: Config, s: State, s': State, p: nat)
    requires Inv(c, s) && p < |s.procs| && Step(c, s, s', p)
    ensures |s'.procs| == |s.procs| && NoSemaphore(c, s') && SawWaiters(s')
  {
    hide Balanced, NobodyForgotten, LockIsOwner, Count;
  }

  lemma SignedAdd(w: word, d: int)
    requires -1 <= d <= 1 && -HALF_WORD <= Signed(w) + d < HALF_WORD
    ensures Signed(WrapAdd(w, d)) == Signed(w) + d
  {
  }

  lemma StepBalanced(c: Config, s: State, s': State, p: nat)
    requires Inv(c, s) && p < |s.procs| && Step(c, s, s', p)
    ensures Balanced(s')
  {
    hide LockIsOwner, NobodyForgotten, NoSemaphore, SawWaiters, Count, Step, Posting, Registered, WrapAdd, Signed;
    var place, d := StepMoves(c, s, s', p);
    CountMove(s.procs, Posting, p, place);
    CountMove(s.procs, Registered, p, place);
    SignedAdd(s.wait, d);
  }

  /** What a step adds to `wait`, against what it does to the counts. */
  lemma StepMoves(c: Config, s: State, s': State, p: nat) returns (place: Place, d: int)
    requires Inv(c, s) && p < |s.procs| && Step(c, s, s', p)
    ensures s'.procs == s.procs[p := place]
    ensures -1 <= d <= 1 && s'.wait == WrapAdd(s.wait, d)
    ensures var posted := (if Posting(place) then 1 else 0) - (if Posting(s.procs[p]) then 1 else 0);
            var registered := (if Registered(place) then 1 else 0) - (if Registered(s.procs[p]) then 1 else 0);
            && registered == d + (s'.sem - s.sem) + posted
            && (posted + (s'.sem - s.sem) > 0 ==> d == -1 && Signed(s.wait) > 0)
  {
    hide LockIsOwner, NobodyForgotten, NoSemaphore, Count, Balanced;
    place := s'.procs[p];
    d := match s.procs[p] case Register => 1 case Unregister => -1 case WakeCas(_) => if place == Post then -1 else 0
         case _ => 0;
  }

  /** When nobody is looking, and nothing has been posted, all sleepers are counted in `wait`. */
  lemma SleepersCounted(c: Config, s: State, p: nat)
    requires Inv(c, s) && p < |s.procs| && s.procs[p] == SemWait && s.sem == 0
    requires Count(s.procs, Posting) == 0
    ensures Signed(s.wait) > 0
  {
    CountSome(s.procs, Registered, p);
  }

  lemma StepNobodyForgotten(c: Config, s: State, s': State, p: nat)
    requires Inv(c, s) && p < |s.procs| && Step(c, s, s', p)
    ensures NobodyForgotten(s')
  {
    hide LockIsOwner, NoSemaphore, Count, Balanced;
    var sleeping := s'.lock == 0 && s'.sem == 0 && exists w :: 0 <= w < |s'.procs| && s'.procs[w] == SemWait;
    if sleeping && !Looking(s'.procs[p]) {
      var w :| 0 <= w < |s'.procs| && s'.procs[w] == SemWait;
      assert w != p ==> s.procs[w] == SemWait;
      LookerLeaves(c, s, s', p, w);
    }
  }

  /** A process that stops looking leaves another one that looks, or a post. */
  lemma LookerLeaves(c: Config, s: State, s': State, p: nat, w: nat)
    requires Inv(c, s) && p < |s.procs| && Step(c, s, s', p) && |s'.procs| == |s.procs|
    requires s'.lock == 0 && s'.sem == 0 && w < |s'.procs| && s'.procs[w] == SemWait && !Looking(s'.procs[p])
    ensures exists q :: 0 <= q < |s'.procs| && Looking(s'.procs[q])
  {
    hide Count, Balanced, NobodyForgotten, NoSemaphore, SawWaiters, LockIsOwner, Looking;
    StepOwner(c, s, s', p);
    assert forall q :: 0 <= q < |s.procs| && q != p ==> s'.procs[q] == s.procs[q];
    if s.procs[p] == WakeRead {
      NoWaiterSeen(c, s, s', p, w);
    } else {
      NotLooking(c, s, s', p, w);
      OtherLooker(c, s, w);
    }
  }

  /** A waker that goes away has seen that nobody waits, so that a sleeper is counted on by another process. */
  lemma NoWaiterSeen(c: Config, s: State, s': State, p: nat, w: nat)
    requires Inv(c, s) && p < |s.procs| && s.procs[p] == WakeRead && Step(c, s, s', p) && |s'.procs| == |s.procs|
    requires s'.sem == 0 && w < |s'.procs| && s'.procs[w] == SemWait && !Looking(s'.procs[p])
    ensures exists q :: 0 <= q < |s'.procs| && Looking(s'.procs[q])
  {
    hide Count, LockIsOwner, NobodyForgotten, NoSemaphore, SawWaiters, Balanced;
    assert forall q :: 0 <= q < |s.procs| && q != p ==> s'.procs[q] == s.procs[q];
    if forall q :: 0 <= q < |s'.procs| && q != p ==> !Looking(s'.procs[q]) {
      CountNone(s.procs, Posting);
      SleepersCounted(c, s, w);
    }
  }

  /** Any other process that does not look after a step without taking the lock did not look before it. */
  lemma NotLooking(c: Config, s: State, s': State, p: nat, w: nat)
    requires Inv(c, s) && p < |s.procs| && s.procs[p] != WakeRead && Step(c, s, s', p) && |s'.procs| == |s.procs|
    requires LockIsOwner(c, s')
    requires s'.lock == 0 && s'.sem == 0 && w < |s'.procs| && s'.procs[w] == SemWait && !Looking(s'.procs[p])
    ensures !Looking(s.procs[p]) && s.lock == 0 && s.sem == 0 && s.procs[w] == SemWait
  {
    hide Count, Balanced, NobodyForgotten, SawWaiters;
    assert w != p ==> s.procs[w] == SemWait;
  }

  lemma OtherLooker(c: Config, s: State, w: nat)
    requires Inv(c, s) && s.lock == 0 && s.sem == 0 && w < |s.procs| && s.procs[w] == SemWait
    ensures exists q :: 0 <= q < |s.procs| && Looking(s.procs[q])
  {
    hide Count, Balanced, LockIsOwner, NoSemaphore, SawWaiters, Looking;
  }

  lemma StepInv(c: Config, s: State, s': State)
    requires Inv(c, s) && Follows(c, s, s')
    ensures Inv(c, s')
  {
    var p: nat :| p < |s.procs| && Step(c, s, s', p);
    StepOwner(c, s, s', p);
    StepPlaces(c, s, s', p);
    StepBalanced(c, s, s', p);
    StepNobodyForgotten(c, s, s', p);
  }

  lemma {:induction false} RunInv(c: Config, run: seq<State>, i: nat)
    requires Run(c, run) && i < |run|
    ensures Inv(c, run[i])
  {
    if i == 0 {
      InitInv(c, run[0]);
    } else {
      RunInv(c, run, i - 1);
      StepInv(c, run[i - 1], run[i]);
    }
  }

  // ----- the theorems

  /** At no time do two processes have the lock, and unlocking by the owner always succeeds. */
  lemma MutualExclusion(c: Config, run: seq<State>, i: nat, p: nat, q: nat)
    requires Run(c, run) && i < |run| && p < |run[i].procs| == |c.pids| && q < |run[i].procs|
    requires Owns(run[i].procs[p])
    ensures Owns(run[i].procs[q]) ==> p == q
    ensures run[i].lock == c.pids[p] != 0
  {
    RunInv(c, run, i);
    assert LockIsOwner(c, run[i]);
  }

  /** Waiters, semaphore and posts balance at all times. */
  lemma WaitersBalance(c: Config, run: seq<State>, i: nat)
    requires Run(c, run) && i < |run|
    ensures var s := run[i];
            Signed(s.wait) + s.sem + Count(s.procs, Posting) == Count(s.procs, Registered)
  {
    RunInv(c, run, i);
  }

  /** No wake-up is lost: when the lock is free, the semaphore is 0 and a process sleeps on it, some
      other process is awake inside ngx_shmtx_lock(), or inside ngx_shmtx_unlock() with waiters to look for. */
  lemma NoLostWakeup(c: Config, run: seq<State>, i: nat, p: nat)
    requires Run(c, run) && i < |run| && p < |run[i].procs|
    requires run[i].procs[p] == SemWait && run[i].lock == 0 && run[i].sem == 0
    ensures exists q :: 0 <= q < |run[i].procs| && q != p && Looking(run[i].procs[q])
  {
    RunInv(c, run, i);
  }

  // ----- progress of a process that is not disturbed

  /** From state `i` on, the next `n` steps of the run are those of process `p`. */
  ghost predicate Alone(c: Config, run: seq<State>, i: nat, n: nat, p: nat) {
    && i + n < |run| && p < |c.pids|
    && forall k: nat :: i <= k < i + n ==> |run[k].procs| == |c.pids| && Step(c, run[k], run[k + 1], p)
  }

  /** The process is inside ngx_shmtx_lock(), and not asleep. */
  predicate Locking(place: Place) {
    place == Read || place == Cas || place == Missed || place == Register || place == ReadAgain || place == CasAgain
  }

  /** An undisturbed ngx_shmtx_trylock() or ngx_shmtx_lock() gets a free lock: the former in its two steps, the latter
      at the latest after four.  A trylock on a lock that is taken comes back without it. */
  lemma FreeLockTaken(c: Config, run: seq<State>, i: nat, p: nat)
    requires Run(c, run) && Alone(c, run, i, 4, p) && p < |run[i].procs|
    ensures |run[i + 1].procs| == |run[i + 2].procs| == |c.pids|
    ensures run[i].procs[p] == TryRead ==>
              if run[i].lock == 0 then run[i + 2].procs[p] == Holding else run[i + 1].procs[p] == Idle
    ensures Locking(run[i].procs[p]) && run[i].lock == 0 ==>
              exists k: nat :: i < k <= i + 4 && p < |run[k].procs| && Owns(run[k].procs[p])
  {
    RunInv(c, run, i);
    hide Inv, Run, Init, Owns;
    StepAt(c, run, i, 4, p, i);
    StepAt(c, run, i, 4, p, i + 1);
    StepAt(c, run, i, 4, p, i + 2);
    StepAt(c, run, i, 4, p, i + 3);
    OwnsPlaces();
  }

  lemma OwnsPlaces()
    ensures Owns(Holding) && Owns(Unregister)
  {
  }

  lemma StepAt(c: Config, run: seq<State>, i: nat, n: nat, p: nat, k: nat)
    requires Alone(c, run, i, n, p) && i <= k < i + n
    ensures p < |run[k].procs| == |c.pids| && Step(c, run[k], run[k + 1], p) && |run[k + 1].procs| == |c.pids|
  {
  }

  /** An undisturbed ngx_shmtx_unlock() by the owner frees the lock, and if more processes wait than posts are to be
      had, the semaphore is posted and one waiter less is counted. */
  lemma UnlockWakes(c: Config, run: seq<State>, i: nat, p: nat)
    requires Run(c, run) && Alone(c, run, i, 5, p) && p < |run[i].procs| && run[i].procs[p] == Holding
    ensures run[i + 2].lock == 0
    ensures var s, s' := run[i], run[i + 5];
            c.semaphore && Count(s.procs, Registered) > s.sem + Count(s.procs, Posting) ==>
              s'.lock == 0 && s'.sem == s.sem + 1 && Signed(s'.wait) == Signed(s.wait) - 1
              && p < |s'.procs| && s'.procs[p] == Idle
  {
    WaitersBalance(c, run, i);
    MutualExclusion(c, run, i, p, p);
    StepAt(c, run, i, 5, p, i);
    StepAt(c, run, i, 5, p, i + 1);
    hide Run, Count, Registered, Posting, Alone, WrapAdd, Signed;
    if c.semaphore && Signed(run[i].wait) > 0 {
      StepAt(c, run, i, 5, p, i + 2);
      StepAt(c, run, i, 5, p, i + 3);
      StepAt(c, run, i, 5, p, i + 4);
      WaiterWoken(c, run[i + 2], run[i + 3], run[i + 4], run[i + 5], p);
    }
  }

  lemma WaiterWoken(c: Config, s: State, s1: State, s2: State, s3: State, p: nat)
    requires p < |s.procs| == |s1.procs| == |s2.procs| == |c.pids| && s.procs[p] == WakeRead && Signed(s.wait) > 0
    requires Step(c, s, s1, p) && Step(c, s1, s2, p) && Step(c, s2, s3, p)
    ensures |s3.procs| == |s.procs| && s3.procs[p] == Idle && s3.lock == s.lock && s3.sem == s.sem + 1
    ensures Signed(s3.wait) == Signed(s.wait) - 1
  {
    SignedAdd(s.wait, -1);
    hide WrapAdd, Signed;
  }
}
