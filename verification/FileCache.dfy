/** The state of the open file cache of `ngx_open_file_cache.c`, and what each change of it keeps. */
module FileCache {
  import opened Words
  import opened Sequences

  /** What stat() reports of a file. */
  datatype Info = Info(uniq: nat, mtime: int, size: nat, isDir: bool, isFile: bool, isLink: bool, isExec: bool)

  /** How symbolic links are treated, and from which byte of the name on. */
  datatype Links = Links(mode: nat, from: nat)

  /** An ngx_cached_open_file_t: a cached file, directory or error. */
  datatype File = File(name: string, created: int, accessed: int, fd: Option<nat>, info: Info, err: nat,
                       uses: nat, count: nat, close: bool, links: Links)

  /** An outstanding cleanup record: somebody still uses descriptor `fd`, got from the entry `file`. */
  datatype Ref = Ref(file: nat, fd: nat)

  /** Everything at one moment.  `files` are the allocated entries, `queue` is the expire queue from its
      head (used last) to its tail, `open` are the descriptors the cache has opened and not closed, and
      `owner` says which entry holds each of them. */
  datatype State = State(files: map<nat, File>, tree: map<string, nat>, queue: seq<nat>, current: nat,
                         owner: map<nat, nat>, open: set<nat>, refs: multiset<Ref>, clock: int)

  /** count is a field of 24 bits. */
  const COUNT_LIMIT := 0x100_0000

  ghost predicate InTree(s: State, id: nat) {
    id in s.files && s.files[id].name in s.tree && s.tree[s.files[id].name] == id
  }

  /** Tree and queue hold the same entries, each once, and `current` is their number. */
  ghost predicate Indexed(s: State) {
    && (forall name :: name in s.tree ==> s.tree[name] in s.files && s.files[s.tree[name]].name == name)
    && NoDup(s.queue)
    && (forall id :: id in s.queue <==> InTree(s, id))
    && s.current == |s.queue| == |s.tree|
  }

  /** The queue is ordered by the time of the last use. */
  ghost predicate Aged(s: State) {
    && (forall i :: 0 <= i < |s.queue| ==> s.queue[i] in s.files && s.files[s.queue[i]].accessed <= s.clock)
    && (forall i, j :: 0 <= i < j < |s.queue| ==>
         s.queue[i] in s.files && s.queue[j] in s.files
         && s.files[s.queue[j]].accessed <= s.files[s.queue[i]].accessed)
  }

  /** How many cleanup records refer to the entry `id` for the descriptor `fd`. */
  ghost function Held(refs: multiset<Ref>, id: nat, fd: Option<nat>): nat {
    if fd.None? then 0 else refs[Ref(id, fd.value)]
  }

  /** `count` is the number of outstanding records; an entry without a descriptor has none; entries out of
      the tree are those marked for closing that are still in use. */
  ghost predicate FileOk(f: File, id: nat, inTree: bool, refs: multiset<Ref>) {
    && f.count == Held(refs, id, f.fd) < COUNT_LIMIT
    && (f.err != 0 || f.info.isDir ==> f.fd.None?)
    && (inTree <==> !(f.close && f.count > 0))
    && (inTree && f.err == 0 ==> !f.close)
  }

  ghost predicate Counted(s: State) {
    && (forall id :: id in s.files ==> FileOk(s.files[id], id, InTree(s, id), s.refs))
    && (forall r :: r in s.refs ==> r.file in s.files && s.files[r.file].fd == Some(r.fd))
  }

  /** Each descriptor that an entry holds is open and held by no other entry; what else is open is `loose`. */
  ghost predicate Owned(s: State, loose: set<nat>) {
    && (forall id :: id in s.files && s.files[id].fd.Some? ==>
         s.files[id].fd.value in s.owner && s.owner[s.files[id].fd.value] == id)
    && (forall d :: d in s.owner ==> s.owner[d] in s.files && s.files[s.owner[d]].fd == Some(d))
    && s.open == s.owner.Keys + loose && loose !! s.owner.Keys
  }

  ghost predicate Sound(s: State, loose: set<nat>) {
    Indexed(s) && Aged(s) && Counted(s) && Owned(s, loose)
  }

  // ----- the expire queue

  /** Taking an element out of the queue. */
  function Without(q: seq<nat>, x: nat): seq<nat> {
    if q == [] then [] else if q[0] == x then q[1..] else [q[0]] + Without(q[1..], x)
  }

  lemma {:induction false} WithoutAt(q: seq<nat>, x: nat) returns (k: nat)
    requires x in q
    ensures k < |q| && q[k] == x && Without(q, x) == q[..k] + q[k + 1..]
  {
    if q[0] == x {
      k := 0;
    } else {
      var j := WithoutAt(q[1..], x);
      k := j + 1;
      assert q[..k] + q[k + 1..] == [q[0]] + (q[1..][..j] + q[1..][j + 1..]);
    }
  }

  lemma {:induction false} WithoutNone(q: seq<nat>, x: nat)
    requires x !in q
    ensures Without(q, x) == q
  {
    if q != [] {
      WithoutNone(q[1..], x);
    }
  }

  /** What is left of a queue without repetitions. */
  lemma WithoutKeeps(q: seq<nat>, x: nat)
    requires x in q && NoDup(q)
    ensures |Without(q, x)| == |q| - 1 && NoDup(Without(q, x))
    ensures forall y :: y in Without(q, x) <==> y in q && y != x
  {
    hide Without;
    var k := WithoutAt(q, x);
    var a, b := q[..k], q[k + 1..];
    assert q == a + [x] + b;
    forall y ensures y in a + b <==> y in q && y != x {
      assert x !in a && x !in b;
    }
  }

  /** Taking an element out and changing the entries elsewhere keeps the order. */
  lemma AgedWithout(s: State, s': State, x: nat)
    requires Aged(s) && NoDup(s.queue) && s'.queue == Without(s.queue, x) && s'.clock >= s.clock
    requires forall y :: y != x && y in s.files ==> y in s'.files && s'.files[y].accessed == s.files[y].accessed
    ensures Aged(s')
  {
    var k := |s.queue|;
    if x in s.queue {
      k := WithoutAt(s.queue, x);
    } else {
      WithoutNone(s.queue, x);
    }
    forall i | 0 <= i < |s'.queue|
      ensures s'.queue[i] == s.queue[if i < k then i else i + 1] && s'.queue[i] != x
    {
    }
  }

  // ----- what changes of one entry keep

  /** The state with entry `id` moved to the head of the queue, or put there. */
  ghost predicate Headed(s: State, s': State, id: nat) {
    && id in s'.files && s'.files == s.files[id := s'.files[id]]
    && s'.files[id].accessed == s'.clock && s.clock <= s'.clock
    && s'.queue == [id] + Without(s.queue, id)
  }

  /** Descriptors after entry `id` gave up `had` and got `has`. */
  ghost function Hand(owner: map<nat, nat>, had: Option<nat>, has: Option<nat>, id: nat): map<nat, nat> {
    var rest := if had.None? then owner else owner - {had.value};
    if has.None? then rest else rest[has.value := id]
  }

  /** Only records of the entry `id` differ, and what it has of them is for its descriptor. */
  ghost predicate RefsOf(refs: multiset<Ref>, refs': multiset<Ref>, id: nat, fd: Option<nat>) {
    && (forall r: Ref :: r.file != id ==> refs'[r] == refs[r])
    && (forall r: Ref :: r.file == id && r in refs' ==> fd == Some(r.fd))
  }

  /** Changing an entry that keeps its name. */
  lemma CountedChange(s: State, s': State, id: nat)
    requires Counted(s) && id in s'.files && s'.files == s.files[id := s'.files[id]]
    requires forall x :: x in s.files && x != id ==> (InTree(s', x) <==> InTree(s, x))
    requires RefsOf(s.refs, s'.refs, id, s'.files[id].fd)
    requires FileOk(s'.files[id], id, InTree(s', id), s'.refs)
    ensures Counted(s')
  {
    forall r | r in s'.refs ensures r.file in s'.files && s'.files[r.file].fd == Some(r.fd) {
      if r.file != id {
        assert r in s.refs;
      }
    }
  }

  lemma OwnedChange(s: State, s': State, id: nat, had: Option<nat>, loose: set<nat>, loose': set<nat>)
    requires Owned(s, loose) && id in s'.files && s'.files == s.files[id := s'.files[id]]
    requires had == if id in s.files then s.files[id].fd else None
    requires s'.owner == Hand(s.owner, had, s'.files[id].fd, id)
    requires s'.files[id].fd.Some? ==> s'.files[id].fd == had || s'.files[id].fd.value !in s.owner
    requires s'.open == s'.owner.Keys + loose' && loose' !! s'.owner.Keys
    ensures Owned(s', loose')
  {
  }

  lemma HeadedQueue(s: State, s': State, id: nat)
    requires NoDup(s.queue) && Aged(s) && Headed(s, s', id)
    ensures Aged(s')
  {
    AgedWithout(s, s'.(queue := Without(s.queue, id)), id);
  }

  lemma HeadedIndexed(s: State, s': State, id: nat)
    requires Indexed(s) && Headed(s, s', id) && s'.tree == s.tree[s'.files[id].name := id]
    requires if id in s.files then InTree(s, id) && s'.files[id].name == s.files[id].name
             else s'.files[id].name !in s.tree
    requires s'.current == if id in s.files then s.current else s.current + 1
    ensures Indexed(s')
    ensures forall x :: InTree(s', x) <==> InTree(s, x) || x == id
  {
    forall x ensures InTree(s', x) <==> InTree(s, x) || x == id {
    }
    if id in s.queue {
      WithoutKeeps(s.queue, id);
    } else {
      WithoutNone(s.queue, id);
    }
  }

  /** An entry of the tree was used, or a new one was made: it is at the head of the queue. */
  lemma Used(s: State, s': State, id: nat, had: Option<nat>, loose: set<nat>, loose': set<nat>)
    requires Sound(s, loose) && Headed(s, s', id) && s'.tree == s.tree[s'.files[id].name := id]
    requires if id in s.files then InTree(s, id) && s'.files[id].name == s.files[id].name
             else s'.files[id].name !in s.tree
    requires s'.current == if id in s.files then s.current else s.current + 1
    requires RefsOf(s.refs, s'.refs, id, s'.files[id].fd) && FileOk(s'.files[id], id, true, s'.refs)
    requires had == if id in s.files then s.files[id].fd else None
    requires s'.owner == Hand(s.owner, had, s'.files[id].fd, id)
    requires s'.files[id].fd.Some? ==> s'.files[id].fd == had || s'.files[id].fd.value !in s.owner
    requires s'.open == s'.owner.Keys + loose' && loose' !! s'.owner.Keys
    ensures Sound(s', loose')
  {
    hide InTree, Aged, Owned, FileOk, RefsOf, Without, Hand, Counted, NoDup;
    HeadedIndexed(s, s', id);
    HeadedQueue(s, s', id);
    CountedChange(s, s', id);
    OwnedChange(s, s', id, had, loose, loose');
  }

  /** The state with entry `id` out of tree and queue. */
  ghost predicate Removed(s: State, s': State, id: nat) {
    && InTree(s, id) && s'.tree == s.tree - {s.files[id].name} && s'.queue == Without(s.queue, id)
    && s'.current == s.current - 1 && s'.clock >= s.clock
  }

  lemma RemovedIndexed(s: State, s': State, id: nat)
    requires Indexed(s) && Removed(s, s', id)
    requires forall x :: x != id ==> (x in s'.files <==> x in s.files)
    requires forall x :: x != id && x in s.files ==> s'.files[x].name == s.files[x].name
    requires id in s'.files ==> s'.files[id].name == s.files[id].name
    ensures Indexed(s')
    ensures forall x :: InTree(s', x) <==> InTree(s, x) && x != id
  {
    WithoutKeeps(s.queue, id);
    forall x ensures InTree(s', x) <==> InTree(s, x) && x != id {
    }
    forall name | name in s'.tree ensures s'.tree[name] in s'.files && s'.files[s'.tree[name]].name == name {
      assert s'.tree[name] != id;
    }
  }

  /** An entry that is in use leaves the tree marked for closing. */
  lemma Retired(s: State, s': State, id: nat, loose: set<nat>)
    requires Sound(s, loose) && Removed(s, s', id) && s.files[id].count > 0 && id in s'.files
    requires s'.files == s.files[id := s.files[id].(close := true, uses := s'.files[id].uses)]
    requires s'.owner == s.owner && s'.open == s.open && s'.refs == s.refs
    ensures Sound(s', loose)
  {
    hide Aged, Without, NoDup, Indexed, Counted;
    assert NoDup(s.queue) && FileOk(s.files[id], id, true, s.refs) by {
      hide *;
      SoundParts(s, loose, id);
    }
    RemovedIndexed(s, s', id);
    AgedWithout(s, s', id);
    assert RefsOf(s.refs, s.refs, id, s.files[id].fd) by {
      hide *;
      SoundParts(s, loose, id);
    }
    assert FileOk(s'.files[id], id, false, s'.refs);
    CountedChange(s, s', id);
    OwnedSame(s, s', id, loose);
  }

  lemma OwnedSame(s: State, s': State, id: nat, loose: set<nat>)
    requires Owned(s, loose) && id in s.files && id in s'.files && s'.files == s.files[id := s'.files[id]]
    requires s'.files[id].fd == s.files[id].fd && s'.owner == s.owner && s'.open == s.open
    ensures Owned(s', loose)
  {
  }

  lemma SoundParts(s: State, loose: set<nat>, id: nat)
    requires Sound(s, loose) && id in s.files
    ensures NoDup(s.queue) && FileOk(s.files[id], id, InTree(s, id), s.refs)
    ensures RefsOf(s.refs, s.refs, id, s.files[id].fd)
  {
  }

  /** An entry that nobody uses goes away with its records. */
  lemma CountedGone(s: State, s': State, id: nat)
    requires Counted(s) && s'.files == s.files - {id}
    requires forall x :: x in s'.files ==> (InTree(s', x) <==> InTree(s, x))
    requires forall r: Ref :: r.file != id ==> s'.refs[r] == s.refs[r]
    requires forall r: Ref :: r in s'.refs ==> r.file != id
    ensures Counted(s')
  {
    forall r | r in s'.refs ensures r.file in s'.files && s'.files[r.file].fd == Some(r.fd) {
      assert r in s.refs;
    }
  }

  lemma OwnedGone(s: State, s': State, id: nat, loose: set<nat>)
    requires Owned(s, loose) && id in s.files && s'.files == s.files - {id}
    requires s'.owner == Hand(s.owner, s.files[id].fd, None, id)
    requires s'.open == s'.owner.Keys + loose
    ensures Owned(s', loose)
  {
  }

  /** An entry that nobody uses leaves the tree, its descriptor is closed and its memory is freed. */
  lemma Freed(s: State, s': State, id: nat, loose: set<nat>)
    requires Sound(s, loose) && Removed(s, s', id) && s.files[id].count == 0
    requires s'.files == s.files - {id} && s'.refs == s.refs
    requires s'.owner == Hand(s.owner, s.files[id].fd, None, id)
    requires s'.open == s'.owner.Keys + loose
    ensures Sound(s', loose)
  {
    hide Aged, Without, NoDup, Counted, Indexed, Owned, Hand, FileOk;
    assert NoDup(s.queue) by {
      hide *;
      SoundParts(s, loose, id);
    }
    RemovedIndexed(s, s', id);
    AgedWithout(s, s', id);
    forall r | r in s'.refs ensures r.file != id {
      hide *;
      Unused(s, id, loose, r);
    }
    CountedGone(s, s', id);
    OwnedGone(s, s', id, loose);
  }

  /** A record of an entry out of the tree is given back; the last one takes the entry with it. */
  lemma Returned(s: State, s': State, id: nat, r: Ref)
    requires Sound(s, {}) && id in s.files && !InTree(s, id)
    requires r in s.refs && r.file == id && s'.refs == s.refs - multiset{r}
    requires s'.tree == s.tree && s'.queue == s.queue && s'.current == s.current && s'.clock >= s.clock
    requires if s.files[id].count > 1
             then s'.files == s.files[id := s.files[id].(count := s.files[id].count - 1)]
                  && s'.owner == s.owner && s'.open == s.open
             else s'.files == s.files - {id} && s'.owner == Hand(s.owner, s.files[id].fd, None, id)
                  && s'.open == s'.owner.Keys
    ensures Sound(s', {})
  {
    hide Hand, Owned, Counted, Indexed, Aged;
    ReturnedQueue(s, s', id);
    ReturnedCounted(s, s', id, r);
    if s.files[id].count > 1 {
      OwnedSame(s, s', id, {});
    } else {
      OwnedGone(s, s', id, {});
    }
  }

  lemma ReturnedQueue(s: State, s': State, id: nat)
    requires Indexed(s) && Aged(s) && id in s.files && !InTree(s, id)
    requires s'.tree == s.tree && s'.queue == s.queue && s'.current == s.current && s'.clock >= s.clock
    requires s'.files == s.files - {id}
             || (id in s'.files && s'.files == s.files[id := s'.files[id]] && s'.files[id].name == s.files[id].name)
    ensures Indexed(s') && Aged(s') && forall x :: InTree(s', x) <==> InTree(s, x)
  {
    forall x ensures InTree(s', x) <==> InTree(s, x) {
    }
    forall i | 0 <= i < |s.queue| ensures s.queue[i] != id {
      assert s.queue[i] in s.queue;
    }
  }

  lemma ReturnedCounted(s: State, s': State, id: nat, r: Ref)
    requires Counted(s) && id in s.files && !InTree(s, id)
    requires r in s.refs && r.file == id && s'.refs == s.refs - multiset{r}
    requires forall x :: InTree(s', x) <==> InTree(s, x)
    requires if s.files[id].count > 1
             then s'.files == s.files[id := s.files[id].(count := s.files[id].count - 1)]
             else s'.files == s.files - {id}
    ensures Counted(s')
  {
    hide InTree;
    assert FileOk(s.files[id], id, InTree(s, id), s.refs);
    forall q: Ref | q in s.refs && q.file == id ensures q == r {
    }
    if s.files[id].count > 1 {
      CountedChange(s, s', id);
    } else {
      CountedGone(s, s', id);
    }
  }

  /** Nothing refers to the descriptor of an entry without outstanding records. */
  lemma Unused(s: State, id: nat, loose: set<nat>, r: Ref)
    requires Sound(s, loose) && id in s.files && s.files[id].count == 0 && r in s.refs
    ensures r.file != id && s.files[id].fd != Some(r.fd)
  {
  }

  /** What is known of an entry of the tree. */
  lemma TreeEntry(s: State, id: nat, loose: set<nat>)
    requires Sound(s, loose) && InTree(s, id)
    ensures id in s.queue && FileOk(s.files[id], id, true, s.refs) && s.current > 0
    ensures s.files[id].fd.Some? ==> s.files[id].fd.value in s.owner && s.owner[s.files[id].fd.value] == id
    ensures s.open == s.owner.Keys + loose && loose !! s.owner.Keys
    ensures forall r :: r in s.refs && s.files[id].count == 0 ==> s.files[id].fd != Some(r.fd)
    ensures RefsOf(s.refs, s.refs, id, s.files[id].fd)
  {
    assert FileOk(s.files[id], id, true, s.refs);
    forall r | r in s.refs && s.files[id].count == 0 ensures s.files[id].fd != Some(r.fd) {
      Unused(s, id, loose, r);
    }
  }

  lemma TreeTail(s: State, loose: set<nat>)
    requires Sound(s, loose)
    ensures NoDup(s.queue) && s.current == |s.queue|
    ensures s.open == s.owner.Keys + loose && loose !! s.owner.Keys
    ensures s.queue != [] ==> InTree(s, s.queue[|s.queue| - 1]) && s.queue[|s.queue| - 1] in s.files
  {
    if s.queue != [] {
      assert s.queue[|s.queue| - 1] in s.queue;
    }
  }

  lemma RefsOpen(s: State, loose: set<nat>)
    requires Sound(s, loose)
    ensures s.owner.Keys <= s.open && forall r :: r in s.refs ==> r.fd in s.owner
  {
  }

  lemma NotQueued(s: State, id: nat)
    requires Indexed(s) && id !in s.files
    ensures Without(s.queue, id) == s.queue
  {
    assert !InTree(s, id);
    WithoutNone(s.queue, id);
  }

  lemma WithoutLast(q: seq<nat>)
    requires q != [] && NoDup(q)
    ensures Without(q, q[|q| - 1]) == q[..|q| - 1]
  {
    var k := WithoutAt(q, q[|q| - 1]);
  }

  /** Time passes between the operations. */
  lemma Later(s: State, s': State, loose: set<nat>)
    requires Sound(s, loose) && s.clock <= s'.clock && s' == s.(clock := s'.clock)
    ensures Sound(s', loose)
  {
    hide NoDup, Owned, FileOk;
    forall x ensures InTree(s', x) <==> InTree(s, x) {
    }
    assert Owned(s', loose) by {
      hide *;
      OwnedLater(s, s', loose);
    }
  }

  lemma OwnedLater(s: State, s': State, loose: set<nat>)
    requires Owned(s, loose) && s' == s.(clock := s'.clock)
    ensures Owned(s', loose)
  {
  }

  /** What is known of the entry of an outstanding record. */
  lemma HeldEntry(s: State, r: Ref)
    requires Sound(s, {}) && r in s.refs
    ensures r.file in s.files && s.files[r.file].fd == Some(r.fd) && s.files[r.file].count == s.refs[r]
    ensures s.files[r.file].close <==> !InTree(s, r.file)
    ensures FileOk(s.files[r.file], r.file, InTree(s, r.file), s.refs)
    ensures r.fd in s.owner && s.owner[r.fd] == r.file && s.open == s.owner.Keys
    ensures forall x :: x in s.refs && x.fd == r.fd ==> x == r
    ensures RefsOf(s.refs, s.refs - multiset{r}, r.file, Some(r.fd))
  {
    hide Indexed, Aged, InTree;
    assert FileOk(s.files[r.file], r.file, InTree(s, r.file), s.refs);
    forall x | x in s.refs && x.fd == r.fd ensures x == r {
      assert s.owner[x.fd] == x.file;
    }
  }

  lemma HandBack(owner: map<nat, nat>, id: nat, fd: Option<nat>)
    requires fd.Some? ==> fd.value in owner && owner[fd.value] == id
    ensures Hand(owner, fd, fd, id) == owner
  {
  }
}
