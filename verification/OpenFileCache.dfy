/** The operations of `ngx_open_file_cache.c`, without vnode events. */
module OpenFileCache {
  import opened Words
  import opened Sequences
  import opened FileCache

  /** What one look at the file system tells about a name: there is no such file, it cannot be opened, its
      descriptor cannot be examined, or it is opened as `fd`. */
  datatype Snapshot =
    | Missing(code: nat)
    | Denied(info: Info, code: nat)
    | Unexaminable(info: Info)
    | Present(info: Info, fd: nat)

  /** The parts of ngx_open_file_info_t that the cache reads and fills in. */
  datatype Request = Request(fd: Option<nat>, info: Info, err: nat, valid: int, minUses: nat,
                             errors: bool, testDir: bool, links: Links)

  /** When the file system was last asked about a name, what it told, and how links were to be treated. */
  datatype Look = Look(time: int, snap: Snapshot, links: Links)

  datatype Outcome = Opened(info: Info, fd: Option<nat>) | Failed(code: nat)

  /** The entry was not used often enough to keep its file open. */
  predicate Dormant(f: File) { f.fd.None? && f.err == 0 && !f.info.isDir }

  /** The entry is young enough, and is for what the request asks. */
  predicate Current(f: File, want: Request, now: int) {
    && (want.info.uniq == 0 || want.info.uniq == f.info.uniq)
    && now - f.created < want.valid
    && want.links == f.links
  }

  /** The request is answered without looking at the file system. */
  predicate FromCache(e: Option<File>, want: Request, now: int) {
    e.Some? && !Dormant(e.value) && Current(e.value, want, now)
  }

  /** stat() alone settles what the name is: the open file is still there, or it is an expected directory. */
  predicate Settled(e: Option<File>, want: Request, info: Info) {
    if e.Some? && e.value.fd.Some? then info.uniq == e.value.info.uniq
    else info.isDir && (want.testDir || (e.Some? && e.value.info.isDir))
  }

  /** What a request is to be told, and the descriptor it gets. */
  function Expected(e: Option<File>, want: Request, snap: Snapshot, now: int): Outcome {
    if FromCache(e, want, now) then
      if e.value.err == 0 then Opened(e.value.info, e.value.fd) else Failed(e.value.err)
    else
      match snap
      case Missing(code) => Failed(code)
      case Denied(info, code) => if Settled(e, want, info) then Opened(info, HeldBy(e)) else Failed(code)
      case Unexaminable(info) => if Settled(e, want, info) then Opened(info, HeldBy(e)) else Failed(0)
      case Present(info, fd) =>
        Opened(info, if Settled(e, want, info) then HeldBy(e) else if info.isDir then None else Some(fd))
  }

  /** The descriptor of the entry, if there is one. */
  function HeldBy(e: Option<File>): Option<nat> { if e.Some? then e.value.fd else None }

  /** The name of an open file has become a directory that has the inode number of that file.  As the number is in
      use while the file is open, the directory is on another file system, which is not compared. */
  predicate Collides(e: Option<File>, want: Request, snap: Snapshot, now: int) {
    && e.Some? && e.value.fd.Some? && !FromCache(e, want, now)
    && !snap.Missing? && snap.info.isDir && snap.info.uniq == e.value.info.uniq
  }

  /** The answer is what the look told; a file that cannot be opened may still be known by its descriptor. */
  predicate Reflects(of: Request, ok: bool, snap: Snapshot) {
    match snap
    case Missing(code) => !ok && of.err == code
    case Denied(info, code) => if ok then of.err == 0 && of.info == info else of.err == code
    case Unexaminable(info) => of.err == 0 && (ok ==> of.info == info)
    case Present(info, _) => ok && of.err == 0 && of.info == info
  }

  /** The answer is what the last look at the name told, which is the one now or was less than `valid` seconds ago.
      The file system is spared just when there was such a look, with links treated as asked for, and the entry
      was kept with a descriptor, an error or as a directory, and is not known to be another file. */
  ghost predicate Recent(before: map<string, Look>, looked: map<string, Look>, name: string, e: Option<File>,
                         want: Request, snap: Snapshot, now: int, of: Request, ok: bool)
  {
    && (if && name in before && now - before[name].time < want.valid && before[name].links == want.links
           && e.Some? && (e.value.fd.Some? || e.value.err != 0 || e.value.info.isDir)
           && (want.info.uniq == 0 || want.info.uniq == e.value.info.uniq)
        then looked == before
        else looked == before[name := Look(now, snap, want.links)])
    && name in looked && Reflects(of, ok, looked[name].snap)
    && (looked[name].time == now || now - looked[name].time < want.valid)
  }

  /** The entry has the time of the look, and what it told. */
  predicate AsSeen(f: File, look: Look) {
    && f.created == look.time && f.links == look.links
    && match look.snap
       case Missing(code) => f.err == code != 0
       case Denied(info, code) => if f.err == 0 then f.info == info else f.err == code
       case Unexaminable(info) => f.err == 0 && f.info == info
       case Present(info, _) => f.err == 0 && f.info == info
  }

  /** Every entry of the tree is as the last look at its name told. */
  ghost predicate Dated(s: State, looked: map<string, Look>) {
    forall id :: InTree(s, id) ==> s.files[id].name in looked && AsSeen(s.files[id], looked[s.files[id].name])
  }

  /** A file has a descriptor; a directory and an error have none. */
  predicate Fitting(of: Request) {
    of.fd.Some? <==> of.err == 0 && !of.info.isDir
  }

  /** A file has a descriptor and an error has none; a directory may have kept one. */
  predicate Known(of: Request) {
    if of.err == 0 && !of.info.isDir then of.fd.Some? else of.err != 0 ==> of.fd.None?
  }

  /** The records after a request was answered: a file that was opened has one more. */
  ghost function RefsAfter(refs: multiset<Ref>, id: nat, of: Request): multiset<Ref> {
    if of.err == 0 && !of.info.isDir && of.fd.Some? then refs + multiset{Ref(id, of.fd.value)} else refs
  }

  /** The descriptor opened for a request that no entry has yet. */
  ghost function Fresh(of: Request): set<nat> {
    if of.fd.Some? && Fitting(of) then {of.fd.value} else {}
  }

  /** Entries that expired were marked for closing if they are in use, and freed otherwise; `mine` aside, all
      others are as before. */
  ghost predicate Kept(files: map<nat, File>, files': map<nat, File>, gone: seq<nat>, mine: set<nat>) {
    && (forall x :: x in files' && x !in mine ==> x in files)
    && (forall x :: x in files && x !in mine ==>
         if x !in gone then x in files' && files'[x] == files[x]
         else if files[x].count == 0 then x !in files'
         else x in files' && files'[x] == files[x].(close := true))
  }

  lemma InTreeIn(s: State, id: nat)
    requires InTree(s, id)
    ensures id in s.files && s.files[id].name in s.tree && s.tree[s.files[id].name] == id
  {
  }

  /** The last `k` entries of the queue expired, all but the first of them, if that one was `forced`, after a
      time without use. */
  ghost predicate Expired(files: map<nat, File>, q: seq<nat>, files': map<nat, File>, q': seq<nat>, k: nat,
                          forced: bool, since: int)
  {
    && k <= |q| && q' == q[..|q| - k]
    && (forall i :: |q| - k <= i < |q| && !(forced && i == |q| - 1) ==> q[i] in files && files[q[i]].accessed < since)
    && Kept(files, files', q[|q| - k..], {})
  }

  /** The entry at the tail of the queue was used not long ago, so that it does not expire. */
  ghost predicate TailYoung(files: map<nat, File>, q: seq<nat>, since: int) {
    q != [] ==> q[|q| - 1] in files && since <= files[q[|q| - 1]].accessed
  }

  lemma ExpiredNone(files: map<nat, File>, q: seq<nat>, forced: bool, since: int)
    ensures Expired(files, q, files, q, 0, forced, since)
  {
    assert q[..|q|] == q;
  }

  lemma ExpiredMore(files: map<nat, File>, q: seq<nat>, files1: map<nat, File>, q1: seq<nat>, k: nat,
                    forced: bool, since: int, files2: map<nat, File>, q2: seq<nat>)
    requires Expired(files, q, files1, q1, k, forced, since) && q1 != [] && NoDup(q) && NoDup(q1)
    requires var id := q1[|q1| - 1];
             && id in files1 && (files1[id].accessed < since || (forced && k == 0))
             && files2 == (if files1[id].count > 0 then files1[id := files1[id].(close := true)] else files1 - {id})
             && q2 == Without(q1, id)
    ensures Expired(files, q, files2, q2, k + 1, forced, since)
  {
    hide Without, Kept, NoDup;
    var m := |q| - k - 1;
    WithoutLast(q1);
    assert q1 == q[..m + 1] && q1[|q1| - 1] == q[m] && q1[..|q1| - 1] == q[..m];
    KeptMore(files, files1, files2, q, m);
  }

  lemma KeptMore(files: map<nat, File>, files1: map<nat, File>, files2: map<nat, File>, q: seq<nat>, m: nat)
    requires m < |q| && NoDup(q) && Kept(files, files1, q[m + 1..], {}) && q[m] in files1
    requires files2 == if files1[q[m]].count > 0 then files1[q[m] := files1[q[m]].(close := true)] else files1 - {q[m]}
    ensures Kept(files, files2, q[m..], {}) && q[m] in files && files1[q[m]] == files[q[m]]
  {
    assert q[m] !in q[m + 1..];
    assert q[m..] == [q[m]] + q[m + 1..];
  }

  /** The state after giving back the record `r`. */
  lemma CleanedUp(s: State, s': State, r: Ref, minUses: nat)
    requires Sound(s, {}) && r in s.refs && r.file in s.files && s.files[r.file].fd == Some(r.fd)
    requires s.files[r.file].count > 0
    requires var f := s.files[r.file];
             var kept := f.count > 1 || (!f.close && f.uses >= minUses);
             && s'.tree == s.tree && s'.current == s.current && s'.clock == s.clock && s'.refs == s.refs - multiset{r}
             && s'.queue == (if f.close then s.queue else [r.file] + Without(s.queue, r.file))
             && s'.owner == (if kept then s.owner else Hand(s.owner, f.fd, None, r.file))
             && s'.open == (if kept then s.open else s.open - {r.fd})
             && var left := f.(count := f.count - 1);
             var used := left.(accessed := s.clock, fd := if kept then f.fd else None);
             s'.files == if !f.close then s.files[r.file := used]
                         else if f.count > 1 then s.files[r.file := left]
                         else s.files - {r.file}
    ensures Sound(s', {})
  {
    hide Sound, Without, RefsOf;
    HeldEntry(s, r);
    if s.files[r.file].close {
      Returned(s, s', r.file, r);
    } else {
      assert s.tree[s.files[r.file].name := r.file] == s.tree;
      HandBack(s.owner, r.file, s.files[r.file].fd);
      RefsGone(s.refs, r, s'.files[r.file].fd, s.files[r.file].count);
      Used(s, s', r.file, s.files[r.file].fd, {}, {});
    }
  }

  lemma RefsGone(refs: multiset<Ref>, r: Ref, fd: Option<nat>, count: nat)
    requires RefsOf(refs, refs - multiset{r}, r.file, Some(r.fd)) && count == refs[r]
    requires fd == Some(r.fd) || (fd.None? && count == 1)
    ensures RefsOf(refs, refs - multiset{r}, r.file, fd)
  {
    forall x: Ref | x.file == r.file && x in refs - multiset{r} ensures fd == Some(x.fd) {
      assert x == r;
    }
  }

  /** The entry `id` was used once more and was taken out of the queue. */
  ghost predicate Taken(s: State, s': State, id: nat) {
    && Sound(s, {}) && InTree(s, id) && id in s'.files
    && s'.files == s.files[id := s.files[id].(uses := s'.files[id].uses)] && s'.queue == Without(s.queue, id)
    && s' == s.(files := s'.files, queue := s'.queue)
    && s'.files[id].uses == (s.files[id].uses + 1) % 0x1_0000_0000
  }

  /** The entries after `id` left the tree. */
  ghost function Leaving(files: map<nat, File>, id: nat, uses: nat): map<nat, File>
    requires id in files
  {
    if files[id].count == 0 then files - {id} else files[id := files[id].(uses := uses, close := true)]
  }

  lemma HandNone(owner: map<nat, nat>, fd: Option<nat>, id: nat)
    ensures Hand(owner, fd, None, id) == if fd.Some? then owner - {fd.value} else owner
  {
  }

  /** A name that was not in the tree does not get there by expiry. */
  lemma StillAbsent(s: State, s': State, k: nat, forced: bool, since: int, loose: set<nat>, name: string, place: nat)
    requires Sound(s, loose) && Sound(s', loose) && Expired(s.files, s.queue, s'.files, s'.queue, k, forced, since)
    requires name !in s.tree && place !in s.files
    ensures name !in s'.tree && place !in s'.files
  {
    hide Sound, Expired;
    SoundIndexed(s, loose);
    SoundIndexed(s', loose);
    forall id | id in s'.queue ensures id in s.queue && id in s.files && id in s'.files && s'.files[id] == s.files[id] {
      Stays(s, s', k, forced, since, id);
    }
    forall id | InTree(s', id) ensures s'.files[id].name in s.tree {
      assert id in s'.queue && InTree(s, id);
    }
    assert place !in s'.files by {
      NoneNew(s, s', k, forced, since, place);
    }
  }

  lemma SoundIndexed(s: State, loose: set<nat>)
    requires Sound(s, loose)
    ensures Indexed(s)
  {
  }

  lemma Stays(s: State, s': State, k: nat, forced: bool, since: int, id: nat)
    requires Expired(s.files, s.queue, s'.files, s'.queue, k, forced, since) && Indexed(s) && id in s'.queue
    ensures id in s.queue && id in s.files && id in s'.files && s'.files[id] == s.files[id]
  {
    hide Aged, Counted, Owned;
    var i :| 0 <= i < |s'.queue| && s'.queue[i] == id;
    assert s.queue[i] == id && InTree(s, id);
    assert id !in s.queue[|s.queue| - k..];
  }

  lemma NoneNew(s: State, s': State, k: nat, forced: bool, since: int, place: nat)
    requires Expired(s.files, s.queue, s'.files, s'.queue, k, forced, since) && place !in s.files
    ensures place !in s'.files
  {
  }

  /** A request was answered with an entry of the tree, or with a new one; `had` was its descriptor. */
  lemma Answered(s: State, s': State, id: nat, had: Option<nat>, of: Request, loose: set<nat>)
    requires Sound(s, loose) && Headed(s, s', id) && s'.tree == s.tree[s'.files[id].name := id]
    requires if id in s.files then InTree(s, id) && s'.files[id].name == s.files[id].name
             else s'.files[id].name !in s.tree
    requires s'.current == if id in s.files then s.current else s.current + 1
    requires had == if id in s.files then s.files[id].fd else None
    requires Fitting(of) && s'.files[id].fd == of.fd && s'.files[id].err == of.err
    requires of.err == 0 ==> s'.files[id].info.isDir == of.info.isDir && !s'.files[id].close
    requires var count := if id in s.files then s.files[id].count else 0;
             && count < COUNT_LIMIT - 1 && (count > 0 ==> of.fd == had)
             && s'.files[id].count == if of.fd.Some? then count + 1 else count
    requires of.fd.Some? && of.fd != had ==> of.fd.value !in s.owner
    requires loose == if of.fd.Some? && of.fd != had then {of.fd.value} else {}
    requires s'.owner == Hand(s.owner, had, of.fd, id) && s'.open == s'.owner.Keys
    requires s'.refs == if of.fd.Some? then s.refs + multiset{Ref(id, of.fd.value)} else s.refs
    ensures Sound(s', {})
  {
    hide Sound, InTree, Hand;
    AnsweredRefs(s, s', id, had, of, loose);
    Used(s, s', id, had, loose, {});
  }

  lemma AnsweredRefs(s: State, s': State, id: nat, had: Option<nat>, of: Request, loose: set<nat>)
    requires Sound(s, loose) && (id in s.files ==> InTree(s, id)) && id in s'.files
    requires had == if id in s.files then s.files[id].fd else None
    requires Fitting(of) && s'.files[id].fd == of.fd && s'.files[id].err == of.err
    requires of.err == 0 ==> s'.files[id].info.isDir == of.info.isDir && !s'.files[id].close
    requires var count := if id in s.files then s.files[id].count else 0;
             && count < COUNT_LIMIT - 1 && (count > 0 ==> of.fd == had)
             && s'.files[id].count == if of.fd.Some? then count + 1 else count
    requires s'.refs == if of.fd.Some? then s.refs + multiset{Ref(id, of.fd.value)} else s.refs
    ensures RefsOf(s.refs, s'.refs, id, of.fd) && FileOk(s'.files[id], id, true, s'.refs)
  {
    hide Sound, InTree;
    assert id in s.files ==> FileOk(s.files[id], id, true, s.refs) by {
      if id in s.files {
        TreeEntry(s, id, loose);
      }
    }
    assert forall r: Ref :: r.file == id && r in s.refs ==> id in s.files && s.files[id].fd == Some(r.fd) by {
      RefsHeld(s, loose);
    }
    if of.fd.Some? && of.fd != had {
      assert Ref(id, of.fd.value) !in s.refs;
    }
  }

  lemma RefsHeld(s: State, loose: set<nat>)
    requires Sound(s, loose)
    ensures forall r: Ref :: r in s.refs ==> r.file in s.files && s.files[r.file].fd == Some(r.fd)
  {
  }

  lemma OwnerShrinks(s: State, s': State, loose: set<nat>, of: Request)
    requires Sound(s, loose) && Sound(s', loose)
    requires loose == Fresh(of)
    ensures Fresh(of) !! s'.owner.Keys
  {
  }

  lemma Entered(files: map<nat, File>, files1: map<nat, File>, files2: map<nat, File>, files': map<nat, File>,
                place: nat)
    requires place !in files && place in files1 && place in files2 && place in files'
    requires files1 == files[place := files1[place]] && files2 == files1[place := files2[place]]
    requires files' == files2[place := files'[place]]
    ensures files' == files[place := files'[place]] && files' - {place} == files
  {
  }

  lemma Inserted(s: State, s': State, place: nat, of: Request, loose: set<nat>)
    requires Sound(s, loose) && place !in s.files && place in s'.files && s'.files == s.files[place := s'.files[place]]
    requires Known(of)
    requires Fresh(of) !! s.owner.Keys
    requires loose == Fresh(of)
    requires var f := s'.files[place];
             && f.name !in s.tree && s'.tree == s.tree[f.name := place] && s'.current == s.current + 1
             && s'.queue == [place] + s.queue && f.accessed == s'.clock == s.clock
             && f.fd == of.fd && f.err == of.err && (of.err == 0 ==> f.info == of.info && !f.close)
             && f.count == if of.err == 0 && !of.info.isDir then 1 else 0
    requires s'.owner == Hand(s.owner, None, of.fd, place) && s'.open == s.open
    requires s'.refs == RefsAfter(s.refs, place, of)
    ensures Sound(s', {}) <==> Fitting(of)
  {
    hide Sound, Without, InTree;
    if Fitting(of) {
      TreeTail(s, loose);
      SoundIndexed(s, loose);
      NotQueued(s, place);
      Answered(s, s', place, None, of, loose);
    } else {
      Spoiled(s', place);
    }
  }

  /** The entry says what the request found out now. */
  predicate Remembers(f: File, of: Request, now: int) {
    && f.fd == of.fd && f.err == of.err && f.links == of.links && f.created == f.accessed == now
    && (of.err == 0 ==> f.info == of.info)
  }

  /** A descriptor in use stays, and another one is new. */
  ghost predicate Replaces(s: State, id: nat, of: Request)
    requires id in s.files
  {
    var f := s.files[id];
    && f.count < COUNT_LIMIT - 1 && (f.count > 0 ==> of.fd == f.fd && Fitting(of))
    && (of.fd.Some? && Fitting(of) && of.fd != f.fd ==> of.fd.value !in s.owner)
  }

  /** The descriptors of the other entries, and of this one as long as it is kept. */
  ghost function Rest(s: State, id: nat, of: Request): map<nat, nat>
    requires id in s.files
  {
    var had := s.files[id].fd;
    if had.None? || (of.fd == had && Fitting(of)) then s.owner else s.owner - {had.value}
  }

  lemma Refreshed(s: State, s': State, id: nat, of: Request)
    requires Sound(s, {}) && InTree(s, id) && Known(of) && Replaces(s, id, of)
    requires id in s'.files && s'.files == s.files[id := s'.files[id]] && s'.queue == [id] + Without(s.queue, id)
    requires s'.tree == s.tree && s'.current == s.current && s'.clock == s.clock
    requires var f, f' := s.files[id], s'.files[id];
             && f'.name == f.name && f'.accessed == s.clock && f'.fd == of.fd && f'.err == of.err
             && (of.err == 0 ==> f'.info == of.info && !f'.close)
             && f'.count == if of.err == 0 && !of.info.isDir then f.count + 1 else f.count
    requires s'.refs == RefsAfter(s.refs, id, of)
    requires s'.owner == Hand(Rest(s, id, of), None, of.fd, id)
    requires Fitting(of) ==> s'.open == Rest(s, id, of).Keys + (if of.fd.Some? then {of.fd.value} else {})
    ensures Sound(s', {}) <==> Fitting(of)
  {
    hide Sound, Without;
    if Fitting(of) {
      var had := s.files[id].fd;
      var loose := if of.fd.Some? && of.fd != had then {of.fd.value} else {};
      TreeEntry(s, id, {});
      assert s.tree[s.files[id].name := id] == s.tree;
      assert s'.owner == Hand(s.owner, had, of.fd, id);
      Widened(s, s.(open := s.open + loose), loose);
      Answered(s.(open := s.open + loose), s', id, had, of, loose);
    } else {
      Spoiled(s', id);
    }
  }

  lemma OwnedWider(s: State, s': State, loose: set<nat>)
    requires Owned(s, {}) && s' == s.(open := s.open + loose) && loose !! s.owner.Keys
    ensures Owned(s', loose)
  {
  }

  lemma CountedWider(s: State, s': State, loose: set<nat>)
    requires Counted(s) && s' == s.(open := s.open + loose)
    ensures Counted(s')
  {
    hide FileOk;
    forall x ensures InTree(s', x) <==> InTree(s, x) {
    }
  }

  lemma IndexedWider(s: State, s': State, loose: set<nat>)
    requires Indexed(s) && Aged(s) && s' == s.(open := s.open + loose)
    ensures Indexed(s') && Aged(s')
  {
    hide NoDup;
    forall x ensures InTree(s', x) <==> InTree(s, x) {
    }
  }

  lemma Widened(s: State, s': State, loose: set<nat>)
    requires Sound(s, {}) && s' == s.(open := s.open + loose) && loose !! s.owner.Keys
    ensures Sound(s', loose)
  {
    hide Indexed, Aged, Counted, Owned;
    OwnedWider(s, s', loose);
    CountedWider(s, s', loose);
    IndexedWider(s, s', loose);
  }

  /** The request was told what it is to be told. */
  predicate Tells(of: Request, ok: bool, outcome: Outcome) {
    match outcome
    case Opened(info, fd) => ok && of.err == 0 && of.info == info && of.fd == fd
    case Failed(code) => !ok && of.err == code
  }

  /** The entry `id` is at the head of the queue; all others are as before. */
  ghost predicate Reused(s: State, s': State, id: nat) {
    && id in s.files && id in s'.files && s'.files == s.files[id := s'.files[id]]
    && s'.files[id].uses == (s.files[id].uses + 1) % 0x1_0000_0000
    && s'.queue == [id] + Without(s.queue, id) && s'.tree == s.tree
  }

  /** The entry for the name, if there was one, left the tree; all others are as before. */
  ghost predicate Lost(s: State, s': State, e: Option<nat>) {
    match e
    case None => s'.files == s.files && s'.queue == s.queue && s'.tree == s.tree
    case Some(id) =>
      && id in s.files && s'.files == Leaving(s.files, id, (s.files[id].uses + 1) % 0x1_0000_0000)
      && s'.queue == Without(s.queue, id) && s'.tree == s.tree - {s.files[id].name}
  }

  /** There is a new entry for the name, for which the old one left the tree and `k` others expired. */
  ghost predicate Renewed(s: State, s': State, name: string, e: Option<nat>, place: nat, k: nat, since: int) {
    && name in s'.tree && s'.tree[name] == place && place in s'.files && place !in s.files
    && s'.files[place].uses == 1 && s'.queue != [] && s'.queue[0] == place && k <= 3
    && (0 < k < 3 ==> TailYoung(s'.files - {place}, s'.queue[1..], since))
    && match e
       case None => Expired(s.files, s.queue, s'.files - {place}, s'.queue[1..], k, true, since)
       case Some(id) =>
         && id in s.files && s.files[id].count > 0
         && Expired(Leaving(s.files, id, (s.files[id].uses + 1) % 0x1_0000_0000), Without(s.queue, id),
                    s'.files - {place}, s'.queue[1..], k, true, since)
  }

  /** What a request that was not answered from the cache changed: `e` is the entry there was for its name. */
  ghost predicate Changed(s: State, s': State, name: string, e: Option<nat>, want: Request, of: Request, ok: bool,
                          place: nat, k: nat, max: nat, since: int)
    requires e.Some? ==> e.value in s.files
  {
    if !ok && (of.err == 0 || !want.errors) then
      Lost(s, s', e) && s'.refs == s.refs
    else
      && name in s'.tree && s'.tree[name] in s'.files && Remembers(s'.files[s'.tree[name]], of, s'.clock)
      && (if ok && !of.info.isDir then of.fd.Some? && s'.refs == s.refs + multiset{Ref(s'.tree[name], of.fd.value)}
          else s'.refs == s.refs)
      && if e.Some? && (s.files[e.value].count == 0 || (of.fd == s.files[e.value].fd && Fitting(of))) then
           s'.tree[name] == e.value && Reused(s, s', e.value)
         else
           && Renewed(s, s', name, e, place, k, since)
           && (k > 0 ==> |if e.None? then s.queue else Without(s.queue, e.value)| >= max)
  }

  lemma LostChanged(s: State, s': State, name: string, id: nat, want: Request, of: Request, ok: bool,
                    place: nat, k: nat, max: nat, since: int)
    requires Removed(s, s', id) && id in s.files
    requires s'.files == Leaving(s.files, id, (s.files[id].uses + 1) % 0x1_0000_0000) && s'.refs == s.refs && !ok
             && (of.err == 0 || !want.errors)
    ensures Changed(s, s', name, Some(id), want, of, ok, place, k, max, since)
  {
  }

  /** Nothing changed, as nothing may be cached. */
  lemma NoneChanged(s: State, s': State, name: string, want: Request, of: Request, ok: bool, place: nat, k: nat,
                    max: nat, since: int)
    requires s'.files == s.files && s'.queue == s.queue && s'.tree == s.tree && s'.refs == s.refs
    requires !ok && (of.err == 0 || !want.errors)
    ensures Changed(s, s', name, None, want, of, ok, place, k, max, since)
  {
  }

  /** There is a new entry for a name that had none. */
  lemma NewChanged(s: State, s': State, name: string, want: Request, of: Request, ok: bool, place: nat, k: nat,
                   max: nat, since: int)
    requires (ok <==> of.err == 0) && (ok || want.errors) && Known(of)
    requires name in s'.tree && s'.tree[name] == place && place in s'.files && place !in s.files
    requires Remembers(s'.files[place], of, s'.clock) && s'.refs == RefsAfter(s.refs, place, of)
    requires s'.files[place].uses == 1 && s'.queue != [] && s'.queue[0] == place && k <= 3
    requires 0 < k < 3 ==> TailYoung(s'.files - {place}, s'.queue[1..], since)
    requires Expired(s.files, s.queue, s'.files - {place}, s'.queue[1..], k, true, since)
    requires k > 0 ==> |s.queue| >= max
    ensures Changed(s, s', name, None, want, of, ok, place, k, max, since)
  {
    hide Expired, TailYoung;
  }

  /** The descriptor that was opened for a request, unless it is the one the entry has. */
  ghost function NewlyOpen(f: File, of: Request): set<nat> {
    if of.fd.Some? && of.fd != f.fd then {of.fd.value} else {}
  }

  lemma NameInTree(s: State, name: string)
    requires Sound(s, {}) && name in s.tree
    ensures InTree(s, s.tree[name]) && s.tree[name] in s.files && s.files[s.tree[name]].name == name
  {
  }

  lemma UnusedQueued(s: State, id: nat)
    requires Sound(s, {}) && s.refs == multiset{}
    ensures id in s.files ==> id in s.queue
  {
    if id in s.files {
      assert FileOk(s.files[id], id, InTree(s, id), s.refs);
    }
  }

  /** The outstanding records of other entries than these. */
  ghost function OffTree(refs: multiset<Ref>, gone: set<nat>): (left: multiset<Ref>)
    ensures forall r :: left[r] == if r.file in gone then 0 else refs[r]
    decreases |refs|
  {
    if r :| r in refs && r.file in gone then
      assert refs == refs[r := 0] + multiset{r}[r := refs[r]];
      OffTree(refs[r := 0], gone)
    else
      refs
  }

  /** The entries, without users of those in the queue. */
  ghost function Zeroed(files: map<nat, File>, q: seq<nat>): map<nat, File> {
    map id | id in files :: if id in q then files[id].(count := 0) else files[id]
  }

  /** The users of the entries in the tree are forgotten; `left` are the records of the others. */
  ghost function Abandon(s: State, left: multiset<Ref>): State { s.(files := Zeroed(s.files, s.queue), refs := left) }

  lemma Abandoned(s: State)
    requires Sound(s, {})
    ensures Sound(Abandon(s, OffTree(s.refs, set id | id in s.queue)), {})
  {
    hide Indexed, Aged, Counted, Owned, Abandon, OffTree;
    AbandonedIndexed(s, OffTree(s.refs, set id | id in s.queue));
    AbandonedCounted(s);
    AbandonedOwned(s, OffTree(s.refs, set id | id in s.queue));
  }

  lemma AbandonedIndexed(s: State, left: multiset<Ref>)
    requires Indexed(s) && Aged(s)
    ensures Indexed(Abandon(s, left)) && Aged(Abandon(s, left))
  {
    hide NoDup;
    assert forall id :: InTree(Abandon(s, left), id) <==> InTree(s, id);
  }

  lemma AbandonedCounted(s: State)
    requires Indexed(s) && Counted(s)
    ensures Counted(Abandon(s, OffTree(s.refs, set id | id in s.queue)))
  {
    hide NoDup, FileOk, OffTree;
    var s' := Abandon(s, OffTree(s.refs, set id | id in s.queue));
    forall id | id in s'.files
      ensures FileOk(s'.files[id], id, InTree(s', id), s'.refs)
    {
      assert InTree(s', id) <==> InTree(s, id);
      AbandonedFile(s.files[id], id, InTree(s, id), s.refs, s'.refs);
    }
  }

  /** An entry of the tree without its users, or one that is off the tree. */
  lemma AbandonedFile(f: File, id: nat, inTree: bool, refs: multiset<Ref>, left: multiset<Ref>)
    requires FileOk(f, id, inTree, refs)
    requires forall r: Ref :: r.file == id ==> left[r] == if inTree then 0 else refs[r]
    ensures FileOk(if inTree then f.(count := 0) else f, id, inTree, left)
  {
  }

  lemma AbandonedOwned(s: State, left: multiset<Ref>)
    requires Owned(s, {})
    ensures Owned(Abandon(s, left), {})
  {
  }

  lemma ZeroedAt(files: map<nat, File>, q: seq<nat>, id: nat)
    requires id in q
    ensures id in Zeroed(files, q) <==> id in files
    ensures id in files ==> Zeroed(files, q)[id] == files[id].(count := 0)
  {
  }

  lemma ZeroedLess(files: map<nat, File>, q: seq<nat>)
    requires q != [] && NoDup(q)
    ensures Zeroed(files - {q[|q| - 1]}, q[..|q| - 1]) == Zeroed(files, q) - {q[|q| - 1]}
  {
  }

  /** The entries that are not in the queue from place `n` on. */
  ghost function Behind(files: map<nat, File>, q: seq<nat>, n: nat): map<nat, File>
    requires n <= |q|
  {
    map id | id in files && id !in q[n..] :: files[id]
  }

  lemma BehindAll(files: map<nat, File>, q: seq<nat>)
    ensures Behind(files, q, |q|) == files
  {
  }

  lemma BehindLess(files: map<nat, File>, q: seq<nat>, n: nat)
    requires n < |q|
    ensures Behind(files, q, n) == Behind(files, q, n + 1) - {q[n]}
  {
    assert q[n..] == [q[n]] + q[n + 1..];
  }

  /** The cache after all entries of the tree have gone. */
  lemma Deserted(s: State, s': State)
    requires s'.queue == [] && s'.refs == s.refs && s'.files == Behind(s.files, s.queue, 0)
    requires Sound(Abandon(s', OffTree(s.refs, set id | id in s.queue)), {})
    ensures s'.tree == map[] && s'.current == 0
    ensures s'.open == set id | id in s'.files && s'.files[id].fd.Some? :: s'.files[id].fd.value
    ensures Sound(s', {}) <==> forall r :: r in s.refs ==> r.file !in s.queue
    ensures s.refs == multiset{} ==> s'.files == map[] && s'.open == {}
  {
    hide Sound, OffTree;
    var left := OffTree(s.refs, set id | id in s.queue);
    var a := Abandon(s', left);
    NoneZeroed(s', left);
    DesertedOpen(a);
    if r :| r in s.refs && r.file in s.queue {
      assert r.file !in s'.files;
      LostRecord(s', r);
    } else {
      assert left == s.refs;
    }
    if s.refs == multiset{} {
      Emptied(a);
    }
  }

  lemma NoneZeroed(s: State, left: multiset<Ref>)
    requires s.queue == []
    ensures Abandon(s, left) == s.(refs := left)
  {
  }

  lemma LostRecord(s: State, r: Ref)
    requires r in s.refs && r.file !in s.files
    ensures !Sound(s, {})
  {
  }

  lemma DesertedOpen(s: State)
    requires Sound(s, {}) && s.queue == []
    ensures s.tree == map[] && s.current == 0
    ensures s.open == set id | id in s.files && s.files[id].fd.Some? :: s.files[id].fd.value
  {
    var fds := set id | id in s.files && s.files[id].fd.Some? :: s.files[id].fd.value;
    forall d | d in s.open
      ensures d in fds
    {
      assert s.owner[d] in s.files && s.files[s.owner[d]].fd == Some(d);
    }
  }

  /** With nothing in the queue and no user left there are no entries and no open descriptors. */
  lemma Emptied(s: State)
    requires Sound(s, {}) && s.queue == [] && s.refs == multiset{}
    ensures s.files == map[] && s.tree == map[] && s.open == {} && s.current == 0
  {
    forall id ensures id in s.files ==> id in s.queue {
      UnusedQueued(s, id);
    }
  }

  /** The entry `id` answered the request: it is younger, and has one more user if it is a file. */
  ghost predicate Served(s: State, s': State, id: nat, of: Request) {
    && Reused(s, s', id) && s'.open == s.open && s'.current == s.current
    && var f, f' := s.files[id], s'.files[id];
    && (of.err == 0 ==> of.fd == f.fd)
    && if of.err == 0 && !of.info.isDir then
         f' == f.(uses := f'.uses, accessed := s.clock, count := f.count + 1)
         && of.fd.Some? && s'.refs == s.refs + multiset{Ref(id, of.fd.value)}
       else
         f' == f.(uses := f'.uses, accessed := s.clock) && s'.refs == s.refs
  }

  /** An entry of the tree is not both marked and used; what is off the tree is. */
  lemma Unmarked(s: State, id: nat)
    requires Sound(s, {}) && id in s.files
    ensures InTree(s, id) <==> !(s.files[id].close && s.files[id].count > 0)
  {
    assert FileOk(s.files[id], id, InTree(s, id), s.refs);
  }

  lemma ExpiredDated(s: State, files: map<nat, File>, q: seq<nat>, s': State, gone: map<nat, File>, q': seq<nat>,
                     k: nat, forced: bool, since: int, id: nat)
    requires Sound(s', {}) && Expired(files, q, gone, q', k, forced, since) && InTree(s', id)
    requires id in gone && gone[id] == s'.files[id]
    ensures id in files && s'.files[id] == files[id] && !(files[id].close && files[id].count > 0)
  {
    Unmarked(s', id);
  }

  lemma ServedDated(s: State, s': State, id: nat, of: Request, looked: map<string, Look>)
    requires Served(s, s', id, of) && Dated(s, looked)
    ensures Dated(s', looked)
  {
    forall x | InTree(s', x)
      ensures s'.files[x].name in looked && AsSeen(s'.files[x], looked[s'.files[x].name])
    {
      assert InTree(s, x);
    }
  }

  /** An entry that was there before and is as it was. */
  lemma SameDated(s: State, s': State, id: nat, name: string, looked: map<string, Look>, look: Look)
    requires Sound(s, {}) && Dated(s, looked) && InTree(s', id) && id in s.files && s'.files[id] == s.files[id]
    requires s.files[id].name != name && !(s.files[id].close && s.files[id].count > 0)
    ensures s'.files[id].name in looked[name := look]
    ensures AsSeen(s'.files[id], looked[name := look][s'.files[id].name])
  {
    Unmarked(s, id);
  }

  /** After the file system was asked, every entry is as the last look at its name told. */
  lemma ChangedDated(s: State, s': State, name: string, e: Option<nat>, want: Request, of: Request, ok: bool,
                     place: nat, k: nat, max: nat, since: int, looked: map<string, Look>, snap: Snapshot)
    requires Sound(s, {}) && Sound(s', {}) && Dated(s, looked)
    requires e == if name in s.tree then Some(s.tree[name]) else None
    requires (e.Some? ==> e.value in s.files) && Changed(s, s', name, e, want, of, ok, place, k, max, since)
    requires Reflects(of, ok, snap) && (ok ==> of.err == 0) && of.links == want.links
    ensures Dated(s', looked[name := Look(s'.clock, snap, want.links)])
  {
    hide Without, NoDup;
    var look := Look(s'.clock, snap, want.links);
    forall id | InTree(s', id)
      ensures s'.files[id].name in looked[name := look]
      ensures AsSeen(s'.files[id], looked[name := look][s'.files[id].name])
    {
      if s'.files[id].name == name {
        NamedDated(s, s', name, e, want, of, ok, place, k, max, since, snap, id);
      } else {
        OtherKept(s, s', name, e, want, of, ok, place, k, max, since, id);
        SameDated(s, s', id, name, looked, look);
      }
    }
  }

  lemma NamedDated(s: State, s': State, name: string, e: Option<nat>, want: Request, of: Request, ok: bool,
                   place: nat, k: nat, max: nat, since: int, snap: Snapshot, id: nat)
    requires Sound(s, {}) && InTree(s', id) && s'.files[id].name == name
    requires e == if name in s.tree then Some(s.tree[name]) else None
    requires (e.Some? ==> e.value in s.files) && Changed(s, s', name, e, want, of, ok, place, k, max, since)
    requires Reflects(of, ok, snap) && (ok ==> of.err == 0) && of.links == want.links
    ensures AsSeen(s'.files[id], Look(s'.clock, snap, want.links))
  {
    hide Without, NoDup, Renewed, Reused;
    assert s'.tree[name] == id;
    if e.Some? {
      NameInTree(s, name);
    }
  }

  lemma OtherKept(s: State, s': State, name: string, e: Option<nat>, want: Request, of: Request, ok: bool,
                  place: nat, k: nat, max: nat, since: int, id: nat)
    requires Sound(s, {}) && Sound(s', {}) && InTree(s', id) && s'.files[id].name != name
    requires e == if name in s.tree then Some(s.tree[name]) else None
    requires (e.Some? ==> e.value in s.files) && Changed(s, s', name, e, want, of, ok, place, k, max, since)
    ensures id in s.files && s'.files[id] == s.files[id] && !(s.files[id].close && s.files[id].count > 0)
  {
    hide Sound, Without, NoDup;
    Unmarked(s', id);
    if e.Some? {
      NameInTree(s, name);
    }
    if name in s'.tree {
      NameInTree(s', name);
    }
  }

  /** What is told from the cache is what the last look told. */
  lemma ToldAsSeen(s: State, looked: map<string, Look>, name: string, want: Request, snap: Snapshot, now: int,
                   of: Request, ok: bool)
    requires Sound(s, {}) && Dated(s, looked) && name in s.tree && s.tree[name] in s.files
    requires FromCache(Some(s.files[s.tree[name]]), want, now)
    requires Tells(of, ok, Expected(Some(s.files[s.tree[name]]), want, snap, now))
    ensures Recent(looked, looked, name, Some(s.files[s.tree[name]]), want, snap, now, of, ok)
  {
    NameInTree(s, name);
  }

  lemma ToldAnew(e: Option<File>, want: Request, snap: Snapshot, now: int, of: Request, ok: bool)
    requires !FromCache(e, want, now) && Tells(of, ok, Expected(e, want, snap, now))
    ensures Reflects(of, ok, snap) && (ok ==> of.err == 0)
  {
  }

  lemma NoneDated(s: State, looked: map<string, Look>)
    requires s.tree == map[]
    ensures Dated(s, looked)
  {
  }

  /** Giving back a record and expiry leave the entries of the tree as the last look at their names told. */
  lemma CleanedDated(s: State, s1: State, s': State, id: nat, k: nat, since: int, looked: map<string, Look>)
    requires Sound(s, {}) && Sound(s', {}) && Dated(s, looked) && id in s.files
    requires Expired(s1.files, s1.queue, s'.files, s'.queue, k, false, since)
    requires forall x :: x in s1.files && x != id ==> x in s.files && s1.files[x] == s.files[x]
    requires id in s1.files ==>
               var f := s.files[id];
               s1.files[id] == f.(count := s1.files[id].count, accessed := s1.files[id].accessed, fd := s1.files[id].fd)
               && (f.close ==> s1.files[id].count > 0)
    ensures Dated(s', looked)
  {
    hide Sound, NoDup;
    forall x | InTree(s', x)
      ensures s'.files[x].name in looked && AsSeen(s'.files[x], looked[s'.files[x].name])
    {
      Unmarked(s', x);
      assert x in s1.files && s'.files[x] == s1.files[x];
      Unmarked(s, x);
    }
  }

  lemma DatedLater(s: State, now: int, looked: map<string, Look>)
    requires Dated(s, looked)
    ensures Dated(s.(clock := now), looked)
  {
    assert forall id :: InTree(s.(clock := now), id) <==> InTree(s, id);
  }

  lemma CachedMeans(f: File, want: Request, now: int)
    ensures FromCache(Some(f), want, now) <==> !Dormant(f) && Current(f, want, now)
    ensures !FromCache(None, want, now)
  {
  }

  lemma AskedRecent(s: State, looked: map<string, Look>, name: string, f: Option<File>, want: Request, snap: Snapshot,
                    now: int, of: Request, ok: bool)
    requires Sound(s, {}) && Dated(s, looked) && (name in s.tree ==> s.tree[name] in s.files)
    requires f == (if name in s.tree then Some(s.files[s.tree[name]]) else None) && !FromCache(f, want, now)
    requires Reflects(of, ok, snap)
    ensures Recent(looked, looked[name := Look(now, snap, want.links)], name, f, want, snap, now, of, ok)
  {
    if name in s.tree {
      NameInTree(s, name);
    }
  }

  /** The file system was asked: the answer is what it told, and so are the entries. */
  lemma Asked(s: State, s': State, name: string, e: Option<nat>, want: Request, of: Request, ok: bool, place: nat,
              k: nat, max: nat, since: int, looked: map<string, Look>, snap: Snapshot, now: int)
    requires Sound(s, {}) && Dated(s, looked) && e == if name in s.tree then Some(s.tree[name]) else None
    requires (e.Some? ==> e.value in s.files) && Changed(s, s', name, e, want, of, ok, place, k, max, since)
    requires var f := if e.Some? then Some(s.files[e.value]) else None;
             !FromCache(f, want, now) && Tells(of, ok, Expected(f, want, snap, now))
    requires of.links == want.links && s'.clock == now
    ensures var looked' := looked[name := Look(now, snap, want.links)];
            && Recent(looked, looked', name, if e.Some? then Some(s.files[e.value]) else None, want, snap, now, of, ok)
            && (Sound(s', {}) ==> Dated(s', looked'))
  {
    hide Sound, Dated, Changed, FromCache, Tells, Expected, Reflects, Recent;
    var f := if e.Some? then Some(s.files[e.value]) else None;
    ToldAnew(f, want, snap, now, of, ok);
    AskedRecent(s, looked, name, f, want, snap, now, of, ok);
    if Sound(s', {}) {
      ChangedDated(s, s', name, e, want, of, ok, place, k, max, since, looked, snap);
    }
  }

  /** What one look at the file system makes of a request. */
  predicate Seen(of0: Request, snap: Snapshot, of: Request, ok: bool) {
    && of == of0.(fd := of.fd, info := of.info, err := of.err)
    && (ok <==> snap.Present? || (!snap.Missing?
                                  && if of0.fd.Some? then of0.info.uniq == snap.info.uniq
                                     else of0.testDir && snap.info.isDir))
    && if !ok then
         of.fd.None? && of.info == of0.info && of.err == (if snap.Unexaminable? then 0 else snap.code)
       else
         && of.err == 0 && of.info == snap.info
         && if of0.fd.Some? && of0.info.uniq == snap.info.uniq then of.fd == of0.fd
            else if snap.info.isDir then of.fd.None?
            else snap.Present? && of.fd == Some(snap.fd)
  }

  lemma NoCollision(e: Option<File>, want: Request, snap: Snapshot, now: int)
    requires e.None? || e.value.fd.None? || FromCache(e, want, now)
    ensures !Collides(e, want, snap, now)
  {
  }

  /** A request that was checked against the file system for the entry: it has the entry's descriptor if that
      still is the same file, and another one only for another file. */
  predicate Compared(f: File, of: Request) {
    && Known(of)
    && (of.fd.Some? && of.fd == f.fd <==> of.err == 0 && f.fd.Some? && of.info.uniq == f.info.uniq)
    && (of.info.isDir && of.fd.Some? ==> of.fd == f.fd)
  }

  lemma SeenCompared(f: File, of0: Request, snap: Snapshot, of: Request, ok: bool)
    requires Seen(of0, snap, of, ok) && of0.fd == f.fd && of0.info.uniq == f.info.uniq && (ok || of.err != 0)
    requires snap.Present? && f.fd.Some? ==> snap.fd != f.fd.value
    ensures Compared(f, of)
    ensures NewlyOpen(f, of) == if ok && of.fd != of0.fd && of.fd.Some? then {of.fd.value} else {}
  {
  }

  lemma ServeTells(f: File, want: Request, snap: Snapshot, of: Request, now: int)
    requires FromCache(Some(f), want, now) && of.err == f.err && (of.err == 0 ==> of.info == f.info && of.fd == f.fd)
    ensures Tells(of, of.err == 0, Expected(Some(f), want, snap, now))
  {
  }

  lemma SeenTells(e: Option<File>, want: Request, of0: Request, snap: Snapshot, of: Request, ok: bool, now: int)
    requires Seen(of0, snap, of, ok) && !FromCache(e, want, now)
    requires of0.fd == if e.Some? then e.value.fd else None
    requires of0.fd.Some? ==> of0.info.uniq == e.value.info.uniq
    requires of0.testDir <==> want.testDir || (e.Some? && e.value.info.isDir)
    ensures Tells(of, ok, Expected(e, want, snap, now))
    ensures ok ==> (Fitting(of) <==> !Collides(e, want, snap, now))
    ensures !ok ==> Fitting(of) || of.err == 0
    ensures Collides(e, want, snap, now) ==> ok
  {
  }

  /** A directory with a descriptor spoils the cache. */
  lemma Spoiled(s: State, id: nat)
    requires id in s.files && (s.files[id].info.isDir || s.files[id].err != 0) && s.files[id].fd.Some?
    ensures !Sound(s, {})
  {
    assert !FileOk(s.files[id], id, InTree(s, id), s.refs);
  }

  /** The entries out of the tree are those marked for closing with users left, and they keep their descriptor. */
  lemma OutOfTree(s: State, id: nat)
    requires Sound(s, {}) && id in s.files
    ensures id !in s.queue <==> s.files[id].close && s.files[id].count > 0
    ensures id !in s.queue ==> s.files[id].fd.Some? && s.files[id].fd.value in s.open
  {
    assert FileOk(s.files[id], id, InTree(s, id), s.refs);
  }

  class Cache {
    var files: map<nat, File>
    var tree: map<string, nat>
    var queue: seq<nat>
    var current: nat
    var time: int
    const max: nat
    const inactive: int
    ghost var owner: map<nat, nat>
    ghost var open: set<nat>
    ghost var refs: multiset<Ref>
    ghost var looked: map<string, Look>

    ghost function S(): State
      reads this
    {
      State(files, tree, queue, current, owner, open, refs, time)
    }

    ghost predicate Valid()
      reads this
    {
      Sound(S(), {}) && Dated(S(), looked) && current <= if max == 0 then 1 else max
    }

    ghost function Entry(name: string): Option<File>
      requires Valid()
      reads this
    {
      if name in tree then Some(files[tree[name]]) else None
    }

    /** ngx_open_file_cache_init(). */
    constructor (max: nat, inactive: int, now: int)
      ensures Valid() && this.max == max && this.inactive == inactive && time == now
      ensures files == map[] && refs == multiset{} && open == {}
    {
      this.max, this.inactive, time := max, inactive, now;
      files, tree, queue, current := map[], map[], [], 0;
      owner, open, refs, looked := map[], {}, multiset{}, map[];
    }

    /** ngx_close_file(): the descriptor is open, and nobody uses it any more. */
    method CloseFile(d: nat)
      requires d in open && forall r :: r in refs ==> r.fd != d
      modifies `owner, `open
      ensures open == old(open) - {d} && owner == old(owner) - {d}
    {
      open, owner := open - {d}, owner - {d};
    }

    /** ngx_open_and_stat_file(). */
    method OpenAndStat(name: string, of0: Request, snap: Snapshot) returns (of: Request, ok: bool)
      requires snap.Present? ==> snap.fd !in open && snap.fd !in owner && forall r :: r in refs ==> r.fd != snap.fd
      requires of0.err == 0 && (of0.fd.Some? ==> of0.fd.value in open)
      modifies `owner, `open, `looked
      ensures owner == old(owner) && looked == old(looked)[name := Look(time, snap, of0.links)]
      ensures Seen(of0, snap, of, ok)
      ensures open == old(open) + (if ok && of.fd != of0.fd && of.fd.Some? then {of.fd.value} else {})
      ensures ok && of.fd != of0.fd && of.fd.Some? ==> of.fd.value !in old(open)
    {
      of := of0;
      looked := looked[name := Look(time, snap, of0.links)];
      if of.fd.Some? {
        if snap.Missing? {
          return of.(fd := None, err := snap.code), false;
        }
        if of.info.uniq == snap.info.uniq {
          return of.(info := snap.info), true;
        }
      } else if of.testDir {
        if snap.Missing? {
          return of.(fd := None, err := snap.code), false;
        }
        if snap.info.isDir {
          return of.(info := snap.info), true;
        }
      }
      if snap.Missing? || snap.Denied? {
        return of.(fd := None, err := snap.code), false;
      }
      if snap.Unexaminable? {
        return of.(fd := None), false;
      }
      open := open + {snap.fd};
      if snap.info.isDir {
        CloseFile(snap.fd);
        of := of.(fd := None);
      } else {
        of := of.(fd := Some(snap.fd));
      }
      return of.(info := snap.info), true;
    }

    /** ngx_close_cached_file(). */
    method CloseCached(id: nat, minUses: nat)
      requires id in files
      requires files[id].fd.Some? && files[id].count == 0 ==>
                 files[id].fd.value in open && forall r :: r in refs ==> r.fd != files[id].fd.value
      modifies `files, `queue, `owner, `open
      ensures var f := old(files)[id];
              var kept := f.count > 0 || (!f.close && f.uses >= minUses);
              && owner == (if kept then old(owner) else Hand(old(owner), f.fd, None, id))
              && open == (if kept || f.fd.None? then old(open) else old(open) - {f.fd.value})
              && queue == (if f.close then old(queue) else [id] + Without(old(queue), id))
              && if f.close then files == (if kept then old(files) else old(files) - {id})
                 else files == old(files)[id := f.(accessed := time, fd := if kept then f.fd else None)]
    {
      if !files[id].close {
        files := files[id := files[id].(accessed := time)];
        queue := [id] + Without(queue, id);
        if files[id].uses >= minUses || files[id].count > 0 {
          return;
        }
      }
      if files[id].count > 0 {
        return;
      }
      if files[id].fd.Some? {
        CloseFile(files[id].fd.value);
        files := files[id := files[id].(fd := None)];
      }
      if !files[id].close {
        return;
      }
      files := files - {id};
    }

    /** ngx_expire_old_cached_files(): `k` entries go, from the tail of the queue on.  With `n0` = 0 the first
        of them goes in any case; the others, and all with `n0` = 1, only after a time without use. */
    method ExpireOld(n0: nat, ghost loose: set<nat>) returns (ghost k: nat)
      requires Sound(S(), loose) && n0 < 3
      modifies `files, `tree, `queue, `current, `owner, `open
      ensures Sound(S(), loose)
      ensures Expired(old(files), old(queue), files, queue, k, n0 == 0, time - inactive)
      ensures current == old(current) - k
      ensures k <= 3 - n0 && (n0 == 0 && old(queue) != [] ==> k > 0)
      ensures k < 3 - n0 ==> TailYoung(files, queue, time - inactive)
    {
      hide Sound, Expired, Without, NoDup, InTree;
      var n := n0;
      TreeTail(S(), loose);
      k := 0;
      ExpiredNone(files, queue, n0 == 0, time - inactive);
      while n < 3
        invariant n0 <= n <= 3 && k == n - n0
        invariant Sound(S(), loose) && time == old(time)
        invariant Expired(old(files), old(queue), files, queue, k, n0 == 0, time - inactive)
        invariant (k == 0 ==> queue == old(queue)) && current == old(current) - k
      {
        if queue == [] {
          return;
        }
        var id := queue[|queue| - 1];
        TreeTail(S(), loose);
        if n != 0 && time - files[id].accessed <= inactive {
          return;
        }
        n := n + 1;
        ghost var files1, queue1 := files, queue;
        Drop(id, loose);
        ExpiredMore(old(files), old(queue), files1, queue1, k, n0 == 0, time - inactive, files, queue);
        k := k + 1;
      }
    }

    /** An entry leaves queue and tree. */
    method Drop(id: nat, ghost loose: set<nat>)
      requires Sound(S(), loose) && InTree(S(), id)
      modifies `files, `tree, `queue, `current, `owner, `open
      ensures Sound(S(), loose) && Removed(old(S()), S(), id)
      ensures files == if old(files)[id].count > 0 then old(files)[id := old(files)[id].(close := true)]
                       else old(files) - {id}
    {
      hide Sound, Indexed, InTree, RefsOf;
      ghost var s := S();
      TreeEntry(s, id, loose);
      assert id in s.files && s.files[id].name in s.tree by {
        InTreeIn(s, id);
      }
      queue := Without(queue, id);
      tree := tree - {files[id].name};
      current := current - 1;
      if files[id].err == 0 && !files[id].info.isDir {
        files := files[id := files[id].(close := true)];
        CloseCached(id, 0);
      } else {
        files := files - {id};
      }
      if s.files[id].count > 0 {
        Retired(s, S(), id, loose);
      } else {
        Freed(s, S(), id, loose);
      }
    }

    /** ngx_open_file_cleanup(): the user of a descriptor is done with it. */
    method Cleanup(r: Ref, minUses: nat, now: int) returns (ghost k: nat)
      requires Valid() && r in refs && time <= now
      modifies this
      ensures Valid() && time == now && refs == old(refs) - multiset{r} && k <= 2
      ensures k < 2 ==> TailYoung(files, queue, now - inactive)
      ensures r.file in old(files)
      ensures var f := old(files)[r.file];
              var kept := f.count > 1 || f.uses >= minUses;
              var q := if f.close then old(queue) else [r.file] + Without(old(queue), r.file);
              var left := f.(count := f.count - 1);
              var used := left.(accessed := now, fd := if kept then f.fd else None);
              var files1 := if !f.close then old(files)[r.file := used]
                            else if f.count > 1 then old(files)[r.file := left]
                            else old(files) - {r.file};
              Expired(files1, q, files, queue, k, false, now - inactive)
    {
      hide Sound, Expired, Without, InTree, Hand, RefsOf, Dated, TailYoung, NoDup;
      Later(S(), S().(clock := now), {});
      DatedLater(S(), now, looked);
      time := now;
      ghost var s := S();
      GiveBack(r, minUses);
      ghost var s1 := S();
      k := ExpireOld(1, {});
      CleanedDated(s, s1, S(), r.file, k, now - inactive, looked);
    }

    /** The part of ngx_open_file_cleanup() before others expire. */
    method GiveBack(r: Ref, minUses: nat)
      requires Sound(S(), {}) && r in refs
      modifies `files, `queue, `owner, `open, `refs
      ensures Sound(S(), {}) && refs == old(refs) - multiset{r} && r.file in old(files)
      ensures var f := old(files)[r.file];
              var kept := f.count > 1 || f.uses >= minUses;
              var left := f.(count := f.count - 1);
              var used := left.(accessed := time, fd := if kept then f.fd else None);
              && f.count > 0
              && queue == (if f.close then old(queue) else [r.file] + Without(old(queue), r.file))
              && files == if !f.close then old(files)[r.file := used]
                          else if f.count > 1 then old(files)[r.file := left]
                          else old(files) - {r.file}
    {
      hide Sound, Without, InTree, Hand, RefsOf, NoDup, FileOk;
      ghost var s := S();
      HeldEntry(s, r);
      var id := r.file;
      refs := refs - multiset{r};
      files := files[id := files[id].(count := files[id].count - 1)];
      CloseCached(id, minUses);
      CleanedUp(s, S(), r, minUses);
    }

    /** The entry goes to the head of the queue; a file that was opened is in use from now on. */
    method Found(id: nat, of: Request)
      requires id in files && (of.err == 0 && !of.info.isDir ==> of.fd.Some?)
      modifies `files, `queue, `refs
      ensures files == old(files)[id := old(files)[id].(accessed := time)] && queue == [id] + old(queue)
      ensures refs == RefsAfter(old(refs), id, of)
    {
      files := files[id := files[id].(accessed := time)];
      queue := [id] + queue;
      if of.err == 0 && !of.info.isDir {
        refs := refs + multiset{Ref(id, of.fd.value)};
      }
    }

    /** The entry takes over what the request found out. */
    method Store(id: nat, of: Request)
      requires id in files
      modifies `files, `owner
      ensures owner == Hand(old(owner), None, of.fd, id) && id in files && files == old(files)[id := files[id]]
      ensures var f, f' := old(files)[id], files[id];
              && f'.fd == of.fd && f'.err == of.err && f'.links == of.links && f'.created == time
              && f'.name == f.name && f'.uses == f.uses && f'.accessed == f.accessed
              && (of.err == 0 ==> f'.info == of.info && !f'.close)
              && (of.err != 0 ==> f'.info == f.info && f'.close == f.close)
              && f'.count == if of.err == 0 && !of.info.isDir then f.count + 1 else f.count
    {
      files := files[id := files[id].(fd := of.fd, err := of.err, links := of.links)];
      if of.err == 0 {
        files := files[id := files[id].(info := of.info, close := false)];
        if !of.info.isDir {
          files := files[id := files[id].(count := files[id].count + 1)];
        }
      }
      files := files[id := files[id].(created := time)];
      if of.fd.Some? {
        owner := owner[of.fd.value := id];
      }
    }

    /** Nothing may be cached: the entry goes away. */
    method Fail(id: nat, ghost s: State)
      requires Taken(s, S(), id)
      modifies `files, `tree, `current, `owner, `open
      ensures Sound(S(), {}) && Removed(s, S(), id) && files == Leaving(s.files, id, old(files)[id].uses)
    {
      hide Sound, InTree, RefsOf, Hand;
      TreeEntry(s, id, {});
      InTreeIn(s, id);
      tree := tree - {files[id].name};
      current := current - 1;
      if files[id].count == 0 {
        if files[id].fd.Some? {
          CloseFile(files[id].fd.value);
        }
        files := files - {id};
        Freed(s, S(), id, {}) by {
          HandNone(s.owner, s.files[id].fd, id);
        }
      } else {
        files := files[id := files[id].(close := true)];
        Retired(s, S(), id, {});
      }
    }

    /** A new entry. */
    method Insert(name: string, of: Request, place: nat, junk: File, ghost loose: set<nat>)
      requires Sound(S(), loose) && name !in tree && place !in files
      requires Known(of)
      requires Fresh(of) !! owner.Keys
      requires loose == Fresh(of)
      modifies `files, `tree, `queue, `current, `owner, `refs
      ensures Sound(S(), {}) <==> Fitting(of)
      ensures current == old(current) + 1 && name in tree && tree[name] == place && place in files
      ensures files - {place} == old(files) && queue == [place] + old(queue)
      ensures refs == RefsAfter(old(refs), place, of)
      ensures var f := files[place];
              && f.name == name && f.fd == of.fd && f.err == of.err && f.links == of.links
              && f.created == f.accessed == time
              && f.uses == 1 && (of.err == 0 ==> f.info == of.info)
    {
      hide Sound, Without, RefsOf, InTree, Fitting, Fresh, Hand, RefsAfter, Removed;
      ghost var s := S();
      files := files[place := junk.(name := name, uses := 1, count := 0)];
      tree := tree[name := place];
      current := current + 1;
      ghost var files1 := files;
      Store(place, of);
      ghost var files2 := files;
      Found(place, of);
      Entered(s.files, files1, files2, files, place);
      Inserted(s, S(), place, of, loose);
    }

    /** Others make room for a new entry. */
    method Create(name: string, of: Request, place: nat, junk: File, ghost loose: set<nat>) returns (ghost k: nat)
      requires Sound(S(), loose) && name !in tree && place !in files && current <= if max == 0 then 1 else max
      requires Known(of)
      requires Fresh(of) !! owner.Keys
      requires loose == Fresh(of)
      modifies `files, `tree, `queue, `current, `owner, `open, `refs
      ensures Sound(S(), {}) <==> Fitting(of)
      ensures current <= if max == 0 then 1 else max
      ensures name in tree && tree[name] == place && place in files && queue != [] && queue[0] == place
      ensures Expired(old(files), old(queue), files - {place}, queue[1..], k, true, time - inactive)
      ensures k <= 3 && (k > 0 ==> old(current) >= max)
      ensures 0 < k < 3 ==> TailYoung(files - {place}, queue[1..], time - inactive)
      ensures refs == RefsAfter(old(refs), place, of)
      ensures var f := files[place];
              && f.name == name && f.fd == of.fd && f.err == of.err && f.links == of.links
              && f.created == f.accessed == time
              && f.uses == 1 && (of.err == 0 ==> f.info == of.info)
    {
      hide Sound, Expired, Without, InTree, Fresh, Fitting, RefsAfter;
      k := 0;
      TreeTail(S(), loose);
      ExpiredNone(files, queue, true, time - inactive);
      ghost var s := S();
      if current >= max {
        k := ExpireOld(0, loose);
        StillAbsent(s, S(), k, true, time - inactive, loose, name, place);
        OwnerShrinks(s, S(), loose, of);
      }
      ghost var q := queue;
      Insert(name, of, place, junk, loose);
      assert queue[1..] == q;
    }

    /** The entry takes over what the request found out, and goes to the head of the queue. */
    method Refresh(id: nat, of: Request, ghost s: State)
      requires Sound(s, {}) && InTree(s, id) && id in files && Known(of)
      requires files == s.files[id := s.files[id].(uses := files[id].uses)] && queue == Without(s.queue, id)
      requires tree == s.tree && current == s.current && refs == s.refs && time == s.clock
      requires Replaces(s, id, of) && owner == Rest(s, id, of)
      requires Fitting(of) ==> open == owner.Keys + (if of.fd.Some? then {of.fd.value} else {})
      modifies `files, `queue, `owner, `refs
      ensures Sound(S(), {}) <==> Fitting(of)
      ensures id in files && files == s.files[id := files[id]] && queue == [id] + Without(s.queue, id)
      ensures refs == RefsAfter(s.refs, id, of)
      ensures Remembers(files[id], of, time) && files[id].uses == old(files)[id].uses
    {
      hide Sound, Without, RefsOf, InTree, Fitting, Rest, Replaces, Hand, RefsAfter;
      Store(id, of);
      Found(id, of);
      assert files == s.files[id := files[id]];
      Refreshed(s, S(), id, of);
    }

    /** The entry, which is in use, makes way for a new one. */
    method Replace(name: string, id: nat, of: Request, place: nat, junk: File, ghost s: State) returns (ghost k: nat)
      requires Taken(s, S().(open := s.open), id) && s.files[id].name == name && s.files[id].count > 0
      requires place !in files && current <= (if max == 0 then 1 else max) && Known(of)
      requires Fresh(of) !! owner.Keys && open == s.open + Fresh(of)
      modifies `files, `tree, `queue, `current, `owner, `open, `refs
      ensures Sound(S(), {}) <==> Fitting(of)
      ensures current <= if max == 0 then 1 else max
      ensures Renewed(s, S(), name, Some(id), place, k, time - inactive)
      ensures k > 0 ==> |Without(s.queue, id)| >= max
      ensures refs == RefsAfter(s.refs, place, of)
      ensures place in files && Remembers(files[place], of, time)
    {
      hide Sound, Expired, Without, InTree, Fitting, Fresh;
      ghost var uses := files[id].uses;
      InTreeIn(s, id);
      TreeEntry(s, id, {});
      tree := tree - {name};
      current := current - 1;
      files := files[id := files[id].(close := true)];
      ghost var s1 := S().(open := s.open);
      Retired(s, s1, id, {});
      Widened(s1, S(), Fresh(of));
      assert files == Leaving(s.files, id, uses);
      k := Create(name, of, place, junk, Fresh(of));
    }

    /** The entry is brought up to date with what the request found out. */
    method Renew(name: string, id: nat, of: Request, place: nat, junk: File, ghost s: State, ghost want: Request)
      returns (ghost k: nat)
      requires Taken(s, S().(open := s.open), id) && s.files[id].name == name && !Dormant(s.files[id])
      requires place !in files && current <= (if max == 0 then 1 else max) && files[id].count < COUNT_LIMIT - 1
      requires Compared(s.files[id], of) && (of.err != 0 ==> want.errors)
      requires open == s.open + NewlyOpen(s.files[id], of) && NewlyOpen(s.files[id], of) !! owner.Keys
      modifies `files, `tree, `queue, `current, `owner, `open, `refs
      ensures Sound(S(), {}) <==> Fitting(of)
      ensures current <= if max == 0 then 1 else max
      ensures Changed(s, S(), name, Some(id), want, of, of.err == 0, place, k, max, time - inactive)
    {
      hide Sound, Expired, Without, InTree, RefsOf;
      TreeEntry(s, id, {});
      InTreeIn(s, id);
      k := 0;
      var file := files[id];
      var update;
      if of.info.isDir {
        update := file.info.isDir || file.err != 0;
      } else if of.err == 0 {
        update := file.info.isDir || file.err != 0 || of.info.uniq == file.info.uniq;
      } else {
        update := file.err != 0 || file.info.isDir;
      }
      if !update {
        if file.count == 0 {
          CloseFile(file.fd.value);
        } else {
          k := Replace(name, id, of, place, junk, s);
          return;
        }
      }
      Refresh(id, of, s);
    }

    /** The file system is asked about the entry. */
    method Examine(name: string, id: nat, want: Request, snap: Snapshot, ghost s: State) returns (of: Request, ok: bool)
      requires Taken(s, S(), id) && !Dormant(files[id]) && !Current(files[id], want, time)
      requires snap.Present? ==> snap.fd !in open
      modifies `owner, `open, `looked
      ensures owner == old(owner) && (!ok ==> open == old(open)) && of.errors == want.errors && of.links == want.links
      ensures looked == old(looked)[name := Look(time, snap, want.links)]
      ensures Tells(of, ok, Expected(Some(s.files[id]), want, snap, time))
      ensures ok || of.err != 0 ==>
                Compared(s.files[id], of) && (Fitting(of) <==> !Collides(Some(s.files[id]), want, snap, time))
      ensures ok || of.err != 0 ==>
                open == s.open + NewlyOpen(s.files[id], of) && NewlyOpen(s.files[id], of) !! owner.Keys
      ensures !ok ==> !Collides(Some(s.files[id]), want, snap, time)
    {
      hide Sound, Without, InTree, RefsOf, Tells, Expected, Collides, Compared;
      TreeEntry(s, id, {});
      InTreeIn(s, id);
      RefsOpen(s, {});
      of := want.(fd := None, err := 0);
      if files[id].info.isDir {
        of := of.(testDir := true);
      }
      of := of.(fd := files[id].fd, info := of.info.(uniq := files[id].info.uniq));
      ghost var of0 := of;
      of, ok := OpenAndStat(name, of, snap);
      SeenTells(Some(s.files[id]), want, of0, snap, of, ok, time);
      if ok || of.err != 0 {
        SeenCompared(s.files[id], of0, snap, of, ok);
      }
    }

    /** The entry is checked against the file system. */
    method Retest(name: string, id: nat, want: Request, snap: Snapshot, place: nat, junk: File, ghost s: State)
      returns (of: Request, ok: bool, ghost k: nat)
      requires Taken(s, S(), id) && s.files[id].name == name
      requires !Dormant(files[id]) && !Current(files[id], want, time)
      requires place !in files && current <= (if max == 0 then 1 else max) && files[id].count < COUNT_LIMIT - 1
      requires snap.Present? ==> snap.fd !in open
      modifies `files, `tree, `queue, `current, `owner, `open, `refs, `looked
      ensures looked == old(looked)[name := Look(time, snap, want.links)] && of.links == want.links
      ensures Sound(S(), {}) <==> !Collides(Some(s.files[id]), want, snap, time)
      ensures current <= if max == 0 then 1 else max
      ensures Tells(of, ok, Expected(Some(s.files[id]), want, snap, time))
      ensures Changed(s, S(), name, Some(id), want, of, ok, place, k, max, time - inactive)
    {
      hide Sound, Without, InTree, Changed, Expected, Collides, Compared, Leaving, NewlyOpen;
      k := 0;
      InTreeIn(s, id);
      of, ok := Examine(name, id, want, snap, s);
      if !ok && (of.err == 0 || !of.errors) {
        Fail(id, s);
        LostChanged(s, S(), name, id, want, of, ok, place, k, max, time - inactive);
        return;
      }
      k := Renew(name, id, of, place, junk, s, want);
      ok := of.err == 0;
    }

    /** A file that was not used often enough to keep it open is opened again. */
    method Reopen(name: string, id: nat, want: Request, snap: Snapshot, ghost place: nat, ghost s: State)
      returns (of: Request, ok: bool)
      requires Taken(s, S(), id) && s.files[id].name == name && Dormant(files[id])
      requires current <= (if max == 0 then 1 else max) && (snap.Present? ==> snap.fd !in open)
      modifies `files, `tree, `queue, `current, `owner, `open, `refs, `looked
      ensures looked == old(looked)[name := Look(time, snap, want.links)] && of.links == want.links
      ensures Sound(S(), {}) && current <= if max == 0 then 1 else max
      ensures Tells(of, ok, Expected(Some(s.files[id]), want, snap, time))
      ensures Changed(s, S(), name, Some(id), want, of, ok, place, 0, max, time - inactive)
    {
      hide Sound, Expired, Without, InTree, RefsOf, Tells, Expected;
      TreeEntry(s, id, {});
      InTreeIn(s, id);
      RefsOpen(s, {});
      of := want.(fd := None, err := 0);
      ghost var of0 := of;
      of, ok := OpenAndStat(name, of, snap);
      SeenTells(Some(s.files[id]), want, of0, snap, of, ok, time);
      if !ok && (of.err == 0 || !of.errors) {
        Fail(id, s);
        return;
      }
      Refresh(id, of, s);
      ok := of.err == 0;
    }

    /** The entry answers the request. */
    method Serve(name: string, id: nat, want: Request, ghost snap: Snapshot, ghost s: State)
      returns (of: Request, ok: bool)
      requires Taken(s, S(), id) && s.files[id].name == name
      requires !Dormant(files[id]) && Current(files[id], want, time) && files[id].count < COUNT_LIMIT - 1
      modifies `files, `queue, `refs
      ensures Sound(S(), {})
      ensures Tells(of, ok, Expected(Some(s.files[id]), want, snap, time))
      ensures Served(s, S(), id, of)
    {
      hide Sound, Without, InTree, RefsOf, Tells, Expected;
      of := want.(fd := None, err := 0);
      TreeEntry(s, id, {});
      InTreeIn(s, id);
      if files[id].err == 0 {
        of := of.(fd := files[id].fd, info := files[id].info);
        if !files[id].info.isDir {
          files := files[id := files[id].(count := files[id].count + 1)];
        }
      } else {
        of := of.(err := files[id].err);
      }
      Found(id, of);
      ok := of.err == 0;
      HandBack(s.owner, id, s.files[id].fd);
      assert s.tree[name := id] == s.tree;
      assert files == s.files[id := files[id]];
      Answered(s, S(), id, s.files[id].fd, of, {});
      ServeTells(s.files[id], want, snap, of, time);
    }

    /** There is no entry for the name. */
    method NotFound(name: string, want: Request, snap: Snapshot, place: nat, junk: File)
      returns (of: Request, ok: bool, ghost k: nat)
      requires Sound(S(), {}) && current <= (if max == 0 then 1 else max) && name !in tree && place !in files
      requires (snap.Present? ==> snap.fd !in open)
      modifies `files, `tree, `queue, `current, `owner, `open, `refs, `looked
      ensures looked == old(looked)[name := Look(time, snap, want.links)] && of.links == want.links
      ensures Sound(S(), {}) && current <= if max == 0 then 1 else max
      ensures Tells(of, ok, Expected(None, want, snap, time))
      ensures Changed(old(S()), S(), name, None, want, of, ok, place, k, max, time - inactive)
    {
      hide Sound, Expired, Without, InTree, RefsOf, Tells, Expected, Changed, TailYoung, Collides, Settled;
      ghost var s := S();
      k := 0;
      RefsOpen(s, {});
      of := want.(fd := None, err := 0);
      ghost var of0 := of;
      of, ok := OpenAndStat(name, of, snap);
      SeenTells(None, want, of0, snap, of, ok, time);
      if !ok && (of.err == 0 || !of.errors) {
        assert open == s.open;
        NoneChanged(s, S(), name, want, of, ok, place, k, max, time - inactive);
        return;
      }
      Widened(s, S(), Fresh(of));
      TreeTail(s, {});
      k := Create(name, of, place, junk, Fresh(of));
      ok := of.err == 0;
      NewChanged(s, S(), name, want, of, ok, place, k, max, time - inactive);
    }

    /** ngx_open_cached_file(), with a cache.  `place` is where the memory for a new entry would be, with
        whatever was left there in it. */
    method OpenCached(name: string, want: Request, snap: Snapshot, now: int, place: nat, junk: File)
      returns (of: Request, ok: bool, ghost k: nat)
      requires Valid() && time <= now && place !in files && (snap.Present? ==> snap.fd !in open)
      requires name in tree ==> tree[name] in files && files[tree[name]].count < COUNT_LIMIT - 1
      modifies this
      ensures time == now
      ensures Valid() <==> !Collides(old(Entry(name)), want, snap, now)
      ensures Tells(of, ok, Expected(old(Entry(name)), want, snap, now))
      ensures old(Entry(name)).Some? ==> old(tree)[name] in old(files)
      ensures if FromCache(old(Entry(name)), want, now) then
                Served(old(S()).(clock := now), S(), old(tree)[name], of)
              else
                Changed(old(S()).(clock := now), S(), name,
                        if name in old(tree) then Some(old(tree)[name]) else None, want, of, ok,
                        place, k, max, now - inactive)
      ensures Recent(old(looked), looked, name, old(Entry(name)), want, snap, now, of, ok)
    {
      hide Sound, Expired, Without, InTree, RefsOf, Tells, Expected, Changed, Served, Collides, FromCache,
          Dated, Recent;
      Later(S(), S().(clock := now), {});
      DatedLater(S(), now, looked);
      time := now;
      ghost var s, looked0 := S(), looked;
      k := 0;
      if name in tree {
        var id := tree[name];
        NameInTree(s, name);
        CachedMeans(s.files[id], want, now);
        files := files[id := files[id].(uses := (files[id].uses + 1) % 0x1_0000_0000)];
        queue := Without(queue, id);
        if files[id].fd.None? && files[id].err == 0 && !files[id].info.isDir {
          of, ok := Reopen(name, id, want, snap, place, s);
          NoCollision(Some(s.files[id]), want, snap, now);
          Asked(s, S(), name, Some(id), want, of, ok, place, 0, max, now - inactive, looked0, snap, now);
        } else if (want.info.uniq == 0 || want.info.uniq == files[id].info.uniq)
                  && time - files[id].created < want.valid && want.links == files[id].links {
          of, ok := Serve(name, id, want, snap, s);
          NoCollision(Some(s.files[id]), want, snap, now);
          ServedDated(s, S(), id, of, looked);
          ToldAsSeen(s, looked, name, want, snap, now, of, ok);
        } else {
          of, ok, k := Retest(name, id, want, snap, place, junk, s);
          Asked(s, S(), name, Some(id), want, of, ok, place, k, max, now - inactive, looked0, snap, now);
        }
        return;
      }
      of, ok, k := NotFound(name, want, snap, place, junk);
      NoCollision(None, want, snap, now);
      CachedMeans(junk, want, now);
      Asked(s, S(), name, None, want, of, ok, place, k, max, now - inactive, looked0, snap, now);
    }

    /** The entry at the tail of the queue is freed and its descriptor closed, whoever uses it. */
    method Forget(ghost left: multiset<Ref>)
      requires Sound(Abandon(S(), left), {}) && queue != []
      modifies `files, `tree, `queue, `current, `owner, `open
      ensures Sound(Abandon(S(), left), {})
      ensures queue == old(queue)[..|old(queue)| - 1] && files == old(files) - {old(queue)[|old(queue)| - 1]}
    {
      hide Sound, InTree, Without, NoDup, Zeroed;
      ghost var s := Abandon(S(), left);
      var id := queue[|queue| - 1];
      TreeTail(s, {});
      ZeroedAt(files, queue, id);
      TreeEntry(s, id, {});
      InTreeIn(s, id);
      WithoutLast(queue);
      ZeroedLess(files, queue);
      queue := queue[..|queue| - 1];
      tree := tree - {files[id].name};
      current := current - 1;
      if files[id].fd.Some? {
        owner := owner - {files[id].fd.value};
        open := open - {files[id].fd.value};
      }
      files := files - {id};
      Freed(s, Abandon(S(), left), id, {});
    }

    /** ngx_open_file_cache_cleanup(): all entries of the tree are freed and their descriptors closed, used or not.
        Entries off the tree stay with their users.  The cache is sound afterwards just when no entry of the tree
        had a user. */
    method CacheCleanup()
      requires Valid()
      modifies `files, `tree, `queue, `current, `owner, `open
      ensures tree == map[] && queue == [] && current == 0
      ensures files == Behind(old(files), old(queue), 0)
      ensures open == set id | id in files && files[id].fd.Some? :: files[id].fd.value
      ensures Valid() <==> forall r :: r in refs ==> r.file !in old(queue)
      ensures refs == multiset{} ==> files == map[] && open == {}
    {
      hide Sound, InTree, Without, NoDup, Zeroed, Behind, OffTree, Dated;
      ghost var s0, left := S(), OffTree(refs, set id | id in queue);
      Abandoned(s0);
      BehindAll(files, queue);
      while queue != []
        invariant Sound(Abandon(S(), left), {}) && |queue| <= |s0.queue| && queue == s0.queue[..|queue|]
        invariant files == Behind(s0.files, s0.queue, |queue|)
        decreases |queue|
      {
        BehindLess(s0.files, s0.queue, |queue| - 1);
        Forget(left);
      }
      Deserted(s0, S());
      NoneDated(S(), looked);
    }
  }

  /** A request with no wishes. */
  const PLAIN_REQUEST := Request(None, Info(0, 0, 0, false, false, false, false), 0, 0, 0, false, false, Links(0, 0))

  /** A new cache, and the file "a" with inode number 7 opened in it, which is still used. */
  method OneFile(junk: File) returns (c: Cache)
    ensures fresh(c) && c.Valid() && c.max == 10 && c.time == 0
    ensures c.tree.Keys == {"a"} && c.tree["a"] == 0 && c.files.Keys == {0} && c.queue == [0]
    ensures c.refs == multiset{Ref(0, 3)} && c.files[0].fd == Some(3) && c.files[0].count == 1 && c.files[0].err == 0
    ensures c.files[0].info == Info(7, 0, 0, false, true, false, false) && c.files[0].created == 0
  {
    hide Sound;
    c := new Cache(10, 60, 0);
    NoFiles(c.S());
    ghost var s := c.S();
    var of, ok, k := c.OpenCached("a", PLAIN_REQUEST, Present(Info(7, 0, 0, false, true, false, false), 3), 0, 0, junk);
    OnlyOne(s, c.S(), "a", 0, k, -60);
    HeldOne(c.S(), 0, 3);
    OneName(c.S(), 0);
  }

  /** From a new cache on: a file is opened, and when its name has become a directory that has the inode number of
      that file, asking for it again spoils the cache.  Files are told apart by inode numbers alone. */
  method CollisionReached(junk: File) returns (c: Cache)
    ensures fresh(c) && !c.Valid()
  {
    hide Sound;
    c := OneFile(junk);
    var of, ok, k := c.OpenCached("a", PLAIN_REQUEST, Denied(Info(7, 0, 0, true, false, false, false), 13), 0, 1, junk);
  }

  /** From a new cache on: a file is opened, and the cache is destroyed while the file is used. */
  method CleanedInUse(junk: File) returns (c: Cache)
    ensures fresh(c) && !c.Valid()
    ensures c.refs == multiset{Ref(0, 3)} && 3 !in c.open
  {
    hide Sound;
    c := OneFile(junk);
    ghost var r := Ref(0, 3);
    assert r in c.refs && r.file in c.queue;
    c.CacheCleanup();
  }

  lemma OneName(s: State, id: nat)
    requires Sound(s, {}) && s.files.Keys == {id} && s.queue != [] && s.queue[0] == id
    ensures s.queue == [id] && s.tree.Keys == {s.files[id].name}
  {
    forall i | 0 <= i < |s.queue|
      ensures s.queue[i] == id
    {
      assert s.queue[i] in s.queue;
      assert s.queue[i] in s.files.Keys;
    }
    assert s.queue[|s.queue| - 1] == s.queue[0];
    assert id in s.queue;
    forall name | name in s.tree
      ensures name == s.files[id].name
    {
      assert s.tree[name] in s.files.Keys;
    }
  }

  lemma OnlyOne(s: State, s': State, name: string, place: nat, k: nat, since: int)
    requires s.files == map[] && Renewed(s, s', name, None, place, k, since)
    ensures forall x :: x in s'.files ==> x == place
  {
    var rest := s'.files - {place};
    forall x ensures x !in rest {
    }
    forall x | x in s'.files ensures x == place {
      assert x != place ==> x in rest;
    }
  }

  lemma HeldOne(s: State, id: nat, fd: nat)
    requires Sound(s, {}) && id in s.files && s.files[id].fd == Some(fd) && s.refs == multiset{Ref(id, fd)}
    ensures s.files[id].count == 1
  {
    assert FileOk(s.files[id], id, InTree(s, id), s.refs);
  }

  lemma NoFiles(s: State)
    requires Sound(s, {}) && s.files == map[]
    ensures s.tree == map[]
  {
  }
}
