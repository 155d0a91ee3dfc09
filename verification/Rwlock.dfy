/** The reader-writer lock of `ngx_rwlock.c` as a step system: each read of the lock word, each
    compare-and-set and the plain store of a downgrade is one step of one process. */
module Rwlock {
  import opened Words
  import opened Processes

  /** NGX_RWLOCK_WLOCK. */
  const WLOCK: word := WORD_SIZE - 1

  /** Where a process is; `writer` is how it holds the lock. */
  datatype Place =
    | Idle
    | WriteRead | WriteCas
    | ReadRead | ReadCas(seen: word)
    | Reading | Writing
    | UnlockRead(writer: bool) | UnlockWriter(writer: bool) | UnlockReader(writer: bool,
        seen: word) | UnlockAgain(writer: bool)
    | DownRead(writer: bool) | DownStore(writer: bool)

  datatype State = State(lock: word, procs: seq<Place>) {
    function At(p: nat, place: Place): State
      requires p < |procs|
    {
      this.(procs := procs[p := place])
    }
  }

  ghost predicate Init(n: nat, s: State) { s == State(0, seq(n, p => Idle)) }

  /** The place of a process that holds the lock in a given way. */
  function Holder(writer: bool): Place { if writer then Writing else Reading }

  /** One step of process `p`.  A process unlocks and downgrades only what it holds. */
  ghost predicate Step(s: State, s': State, p: nat)
    requires p < |s.procs|
  {
    match s.procs[p]
    case Idle => s' == s.At(p, WriteRead) || s' == s.At(p, ReadRead)
    case WriteRead => s' == s.At(p, if s.lock == 0 then WriteCas else WriteRead)
    case WriteCas => s' == if s.lock == 0 then s.(lock := WLOCK).At(p, Writing) else s.At(p, WriteRead)
    case ReadRead => s' == s.At(p, if s.lock != WLOCK then ReadCas(s.lock) else ReadRead)
    case ReadCas(seen) => s' == if s.lock == seen then s.(lock := WrapAdd(seen, 1)).At(p, Reading)
        else s.At(p, ReadRead)
    case Reading => s' == s.At(p, UnlockRead(false)) || s' == s.At(p, DownRead(false))
    case Writing => s' == s.At(p, UnlockRead(true)) || s' == s.At(p, DownRead(true))
    case UnlockRead(w) => s' == s.At(p, if s.lock == WLOCK then UnlockWriter(w) else UnlockReader(w, s.lock))
    case UnlockWriter(_) => s' == if s.lock == WLOCK then s.(lock := 0).At(p, Idle) else s.At(p, Idle)
    case UnlockReader(w, seen) => s' == if s.lock == seen then s.(lock := WrapAdd(seen, -1)).At(p, Idle)
        else s.At(p, UnlockAgain(w))
    case UnlockAgain(w) => s' == s.At(p, UnlockReader(w, s.lock))
    case DownRead(w) => s' == s.At(p, if s.lock == WLOCK then DownStore(w) else Holder(w))
    case DownStore(_) => s' == s.(lock := 1).At(p, Reading)
  }

  ghost predicate Follows(s: State, s': State) {
    exists p: nat :: p < |s.procs| && Step(s, s', p)
  }

  /** A run of `n` processes. */
  ghost predicate Run(n: nat, run: seq<State>) {
    && n < WLOCK && |run| > 0 && Init(n, run[0])
    && forall i: nat :: i < |run| - 1 ==> Follows(run[i], run[i + 1])
  }

  predicate HoldsWrite(place: Place) {
    place == Writing || place == UnlockRead(true) || place == UnlockWriter(true) || place == DownRead(true)
        || place == DownStore(true)
  }

  predicate HoldsRead(place: Place) {
    place == Reading || place == UnlockRead(false) || place == UnlockAgain(false) || place == DownRead(false) ||
    (place.UnlockReader? && !place.writer)
  }

  /** The places that cannot be reached: a process never takes the other kind's way out. */
  predicate Sane(place: Place) {
    match place
    case ReadCas(seen) => seen != WLOCK
    case UnlockWriter(writer) => writer
    case UnlockReader(writer, seen) => !writer && seen != WLOCK
    case UnlockAgain(writer) => !writer
    case DownStore(writer) => writer
    case _ => true
  }

  /** The lock word is all ones just when one process has the lock for writing and none for reading;
      otherwise it is the number of readers, and there is no writer. */
  ghost predicate WordCounts(s: State) {
    if s.lock == WLOCK then Count(s.procs, HoldsWrite) == 1 && Count(s.procs, HoldsRead) == 0
    else Count(s.procs, HoldsWrite) == 0 && Count(s.procs, HoldsRead) == s.lock
  }

  ghost predicate Inv(n: nat, s: State) {
    |s.procs| == n < WLOCK && WordCounts(s) && forall p :: 0 <= p < n ==> Sane(s.procs[p])
  }

  /** A process that holds the lock is counted. */
  lemma HolderCounted(n: nat, s: State, p: nat)
    requires Inv(n, s) && p < n
    ensures HoldsWrite(s.procs[p]) ==> s.lock == WLOCK
    ensures HoldsRead(s.procs[p]) ==> s.lock != WLOCK && s.lock > 0
    ensures Count(s.procs, HoldsRead) <= n
  {
    if HoldsWrite(s.procs[p]) {
      CountSome(s.procs, HoldsWrite, p);
    }
    if HoldsRead(s.procs[p]) {
      CountSome(s.procs, HoldsRead, p);
    }
  }

  lemma StepCounts(n: nat, s: State, s': State, p: nat)
    requires Inv(n, s) && p < n && Step(s, s', p)
    ensures WordCounts(s')
  {
    hide Count;
    HolderCounted(n, s, p);
    NewReaderFits(n, s, p);
    var place := if |s'.procs| == n then s'.procs[p] else Idle;
    assert s'.procs == s.procs[p := place];
    CountMove(s.procs, HoldsWrite, p, place);
    CountMove(s.procs, HoldsRead, p, place);
  }

  /** With fewer than 2^64 - 1 processes, one more reader does not look like a writer. */
  lemma NewReaderFits(n: nat, s: State, p: nat)
    requires Inv(n, s) && p < n
    ensures !HoldsRead(s.procs[p]) && s.lock != WLOCK ==> s.lock + 1 < WLOCK
  {
    CountMove(s.procs, HoldsRead, p, Reading);
  }

  lemma StepInv(n: nat, s: State, s': State)
    requires Inv(n, s) && Follows(s, s')
    ensures Inv(n, s')
  {
    var p: nat :| p < |s.procs| && Step(s, s', p);
    StepCounts(n, s, s', p);
    HolderCounted(n, s, p);
    hide Count, WordCounts;
  }

  lemma {:induction false} RunInv(n: nat, run: seq<State>, i: nat)
    requires Run(n, run) && i < |run|
    ensures Inv(n, run[i])
  {
    if i == 0 {
      CountNone(run[0].procs, HoldsWrite);
      CountNone(run[0].procs, HoldsRead);
    } else {
      RunInv(n, run, i - 1);
      StepInv(n, run[i - 1], run[i]);
    }
  }

  /** At all times the lock word is all ones just when exactly one process holds the lock for
      writing and none for reading, and is the number of readers otherwise. */
  lemma LockWordMeans(n: nat, run: seq<State>, i: nat)
    requires Run(n, run) && i < |run|
    ensures var s := run[i];
            var writers, readers := Count(s.procs, HoldsWrite), Count(s.procs, HoldsRead);
            && (s.lock == WLOCK <==> writers == 1) && writers <= 1 && (writers == 1 ==> readers == 0)
            && (s.lock != WLOCK ==> readers == s.lock)
  {
    RunInv(n, run, i);
  }

  /** A writer excludes everybody else. */
  lemma WriterExcludes(n: nat, run: seq<State>, i: nat, p: nat, q: nat)
    requires Run(n, run) && i < |run| && p < |run[i].procs| && q < |run[i].procs|
    requires HoldsWrite(run[i].procs[p]) && p != q
    ensures !HoldsWrite(run[i].procs[q]) && !HoldsRead(run[i].procs[q])
  {
    RunInv(n, run, i);
    var s := run[i];
    HolderCounted(n, s, p);
    HolderCounted(n, s, q);
    CountMove(s.procs, HoldsWrite, p, Idle);
    if HoldsWrite(s.procs[q]) {
      CountSome(s.procs[p := Idle], HoldsWrite, q);
    }
  }

  /** Whatever way a process holds the lock, its way out of it takes that hold back and no other:
      unlocking a writer frees the lock, unlocking a reader takes one off the count, and a
      downgrade makes the writer the only reader. */
  lemma ReleaseIsOwn(n: nat, run: seq<State>, i: nat, s': State, p: nat)
    requires Run(n, run) && i < |run| && p < |run[i].procs| && Step(run[i], s', p)
    ensures var s := run[i];
            && (HoldsWrite(s.procs[p]) && !HoldsWrite(s'.procs[p]) ==>
                  s.lock == WLOCK && s'.lock == if HoldsRead(s'.procs[p]) then 1 else 0)
            && (HoldsRead(s.procs[p]) && !HoldsRead(s'.procs[p]) ==>
                  s'.procs[p] == Idle && 0 < s.lock != WLOCK && s'.lock == s.lock - 1)
  {
    RunInv(n, run, i);
    HolderCounted(n, run[i], p);
  }

  // ----- progress of a process that is not disturbed

  /** From state `i` on, the next `k` steps of the run are those of process `p`. */
  ghost predicate Alone(run: seq<State>, i: nat, k: nat, p: nat) {
    && i + k < |run|
    && forall j: nat :: i <= j < i + k ==> p < |run[j].procs| == |run[j + 1].procs| && Step(run[j], run[j + 1], p)
  }

  lemma StepAt(run: seq<State>, i: nat, k: nat, p: nat, j: nat)
    requires Alone(run, i, k, p) && i <= j < i + k
    ensures p < |run[j].procs| == |run[j + 1].procs| && Step(run[j], run[j + 1], p)
  {
  }

  /** An undisturbed writer gets a free lock; an undisturbed reader gets a lock that no writer has, and is one more
      reader. */
  lemma LockTaken(run: seq<State>, i: nat, p: nat)
    requires Alone(run, i, 3, p)
    ensures run[i].procs[p] == WriteRead && run[i].lock == 0 ==> run[i + 2].procs[p] == Writing
    ensures run[i].procs[p] == ReadRead && run[i].lock != WLOCK ==>
              run[i + 2].procs[p] == Reading && run[i + 2].lock == WrapAdd(run[i].lock, 1)
    ensures run[i].procs[p].ReadCas? && run[i].lock != WLOCK ==>
              run[i + 1].procs[p] == Reading || run[i + 3].procs[p] == Reading
  {
    StepAt(run, i, 3, p, i);
    StepAt(run, i, 3, p, i + 1);
    StepAt(run, i, 3, p, i + 2);
    hide Alone, WrapAdd;
  }

  /** An undisturbed release is done after two steps, and after three when others came in between; a downgrade after
      two. */
  lemma LockReleased(n: nat, run: seq<State>, i: nat, p: nat)
    requires Run(n, run) && Alone(run, i, 3, p)
    ensures run[i].procs[p].UnlockRead? ==> run[i + 2].procs[p] == Idle
    ensures run[i].procs[p].UnlockReader? ==> run[i + 1].procs[p] == Idle || run[i + 3].procs[p] == Idle
    ensures run[i].procs[p] == DownRead(true) ==> run[i + 2].procs[p] == Reading && run[i + 2].lock == 1
  {
    RunInv(n, run, i);
    StepAt(run, i, 3, p, i);
    StepAt(run, i, 3, p, i + 1);
    StepAt(run, i, 3, p, i + 2);
    HolderCounted(n, run[i], p);
    hide Alone, WrapAdd, Run, Inv;
  }
}
