/** The steps by which the page layer turns one well-formed division of the pages into another.
    Each lemma takes the descriptors a piece of code has written and gives the new division. */
module SlabSteps {
  import opened Words
  import opened Sequences
  import opened SlabList
  import opened SlabRuns

  /** The page of chunks `p` is on the list of its slot. */
  ghost predicate OnSlot(use: seq<Use>, lists: Lists, minShift: nat, p: nat)
    requires p < |use|
  {
    use[p].Chunks? && use[p].shift >= minShift && Slot(use[p].shift - minShift) in lists &&
    p in lists[Slot(use[p].shift - minShift)]
  }

  lemma OnList(m: Mem, use: seq<Use>, lists: Lists, minShift: nat, afloat: set<nat>, c: Ref, p: nat)
    requires Ok(m, use, lists, minShift, afloat) && c in lists && p in lists[c]
    ensures c == Free ==> FreeHead(use, p) && p !in afloat
    ensures c.Slot? ==> p < |use| && use[p] == Chunks(minShift + c.slot)
  {
  }

  /** No page is on two lists. */
  lemma ListsDisjoint(m: Mem, use: seq<Use>, lists: Lists, minShift: nat, afloat: set<nat>, c: Ref, d: Ref)
    requires Ok(m, use, lists, minShift, afloat) && c in lists && d in lists && c != d
    ensures forall p: nat :: p in lists[c] ==> p !in lists[d]
  {
    forall p: nat | p in lists[c]
      ensures p !in lists[d]
    {
      OnList(m, use, lists, minShift, afloat, c, p);
      if p in lists[d] {
        OnList(m, use, lists, minShift, afloat, d, p);
      }
    }
  }

  lemma WithoutMembers(l: seq<nat>, k: nat)
    requires k < |l| && NoDup(l)
    ensures forall q: nat :: q in Without(l, k) <==> q in l && q != l[k]
  {
    forall q: nat
      ensures q in Without(l, k) <==> q in l && q != l[k]
    {
      if q in l && q != l[k] {
        var i :| 0 <= i < |l| && l[i] == q;
        assert Without(l, k)[if i < k then i else i - 1] == q;
      }
    }
  }

  /** Taking a page off a list leaves all lists well-formed. */
  lemma UnlinkThreads(m: Mem, use: seq<Use>, lists: Lists, minShift: nat, afloat: set<nat>, c: Ref, k: nat)
    requires Ok(m, use, lists, minShift, afloat) && c in lists && k < |lists[c]|
    ensures var p, lists' := lists[c][k], lists[c := Without(lists[c], k)];
            && p < |m.pages| && m.Has(m.pages[p].prev) && m.Has(m.pages[p].next)
            && m.pages[p].prev != At(p) && m.pages[p].next != At(p)
            && (forall d <- lists' :: Listed(Unlinked(m, p), d, lists'[d]))
            && (forall q: nat :: m.pages[p].prev == At(q) || m.pages[p].next == At(q) ==> q in lists[c] && q != p)
            && m.pages[p].next != Null
  {
    var l := lists[c];
    var p, lists' := l[k], lists[c := Without(l, k)];
    UnlinkedList(m, c, l, k);
    UnlinkedFields(m, p);
    assert Placed(m, c, l, k);
    var m' := Unlinked(m, p);
    forall q: nat | m.pages[p].prev == At(q) || m.pages[p].next == At(q)
      ensures q in l && q != p
    {
      assert k > 0 ==> l[k - 1] in l;
      assert k + 1 < |l| ==> l[k + 1] in l;
    }
    forall d | d in lists'
      ensures Listed(m', d, lists'[d])
    {
      if d != c {
        ListsDisjoint(m, use, lists, minShift, afloat, c, d);
        ListedElsewhere(m, m', d, lists[d]);
      }
    }
  }

  /** The page that points back to the head of its run is not on the free list. */
  lemma BackLinkUnlisted(m: Mem, use: seq<Use>, lists: Lists, minShift: nat, afloat: set<nat>, i: nat)
    requires Ok(m, use, lists, minShift, afloat)
    requires FreeHead(use, i) && 1 < use[i].len && i + use[i].len <= |use|
    ensures forall c <- lists :: i + use[i].len - 1 !in lists[c]
  {
    assert Fits(use, i);
    var q: nat := i + use[i].len - 1;
    assert use[q] == Body(true, i);
    forall c | c in lists
      ensures q !in lists[c]
    {
    }
  }

  /** A free run leaves the free list. */
  lemma UnlinkFreeOk(m: Mem, use: seq<Use>, lists: Lists, minShift: nat, afloat: set<nat>, k: nat)
    requires Ok(m, use, lists, minShift, afloat) && k < |lists[Free]|
    ensures var p := lists[Free][k];
            && p < |m.pages| && m.Has(m.pages[p].prev) && m.Has(m.pages[p].next)
            && Ok(Unlinked(m, p), use, lists[Free := Without(lists[Free], k)], minShift, afloat + {p})
  {
    UnlinkThreads(m, use, lists, minShift, afloat, Free, k);
    var l := lists[Free];
    var p, lists' := l[k], lists[Free := Without(l, k)];
    assert p in l;
    UnlinkedFields(m, p);
    WithoutMembers(l, k);
    var m' := Unlinked(m, p);
    forall i: nat | i < |use|
      ensures Encodes(m', use, afloat + {p}, i)
    {
      hide Unlinked;
      assert Encodes(m, use, afloat, i) && Encodes(m, use, afloat, p);
      if FreeHead(use, i) && 1 < use[i].len && i + use[i].len <= |use| {
        BackLinkUnlisted(m, use, lists, minShift, afloat, i);
      }
    }
  }

  /** A page of chunks leaves its slot's list. */
  lemma UnlinkSlotOk(m: Mem, use: seq<Use>, lists: Lists, minShift: nat, afloat: set<nat>, slot: nat, k: nat)
    requires Ok(m, use, lists, minShift, afloat) && Slot(slot) in lists && k < |lists[Slot(slot)]|
    ensures var p := lists[Slot(slot)][k];
            && p < |m.pages| && m.Has(m.pages[p].prev) && m.Has(m.pages[p].next) && use[p] == Chunks(minShift + slot)
            && Ok(Unlinked(m, p), use, lists[Slot(slot) := Without(lists[Slot(slot)], k)], minShift, afloat)
            && p !in Without(lists[Slot(slot)], k)
  {
    var c := Slot(slot);
    UnlinkThreads(m, use, lists, minShift, afloat, c, k);
    var l := lists[c];
    var p, lists' := l[k], lists[c := Without(l, k)];
    assert p in l;
    UnlinkedFields(m, p);
    WithoutMembers(l, k);
    var m' := Unlinked(m, p);
    forall i: nat | i < |use|
      ensures Encodes(m', use, afloat, i)
    {
      hide Unlinked;
      assert Encodes(m, use, afloat, i) && Encodes(m, use, afloat, p);
      if FreeHead(use, i) && 1 < use[i].len && i + use[i].len <= |use| {
        BackLinkUnlisted(m, use, lists, minShift, afloat, i);
      }
    }
  }

  /** A page of chunks enters its slot's list. */
  lemma PushSlotOk(m: Mem, use: seq<Use>, lists: Lists, minShift: nat, afloat: set<nat>, slot: nat, p: nat, kind: Kind)
    requires Ok(m, use, lists, minShift, afloat) && Slot(slot) in lists
    requires p < |use| && use[p] == Chunks(minShift + slot) && p !in lists[Slot(slot)]
             && kind == KindOf(minShift + slot)
    ensures m.Has(m.Get(Slot(slot)).next)
    ensures Ok(Pushed(m, Slot(slot), p, kind), use, lists[Slot(slot) := [p] + lists[Slot(slot)]], minShift, afloat)
  {
    var c := Slot(slot);
    var l := lists[c];
    PushedList(m, c, l, p, kind);
    PushedFields(m, c, p, kind);
    LinkIs(c, l, 0);
    var m', lists' := Pushed(m, c, p, kind), lists[c := [p] + l];
    hide Pushed, Encodes, Listed, Layout, Apart;
    forall d | d in lists'
      ensures Listed(m', d, lists'[d])
    {
      if d != c {
        PushSlotListed(m, use, lists, minShift, afloat, slot, p, kind, d);
      }
    }
    forall i: nat | i < |use|
      ensures Encodes(m', use, afloat, i)
    {
      PushSlotEncodes(m, use, lists, minShift, afloat, slot, p, kind, i);
    }
  }

  lemma PushSlotListed(m: Mem, use: seq<Use>, lists: Lists, minShift: nat, afloat: set<nat>, slot: nat, p: nat,
          kind: Kind,
                       d: Ref)
    requires Ok(m, use, lists, minShift, afloat) && Slot(slot) in lists && m.Has(m.Get(Slot(slot)).next)
    requires p < |use| && use[p] == Chunks(minShift + slot) && p !in lists[Slot(slot)]
             && kind == KindOf(minShift + slot)
    requires d in lists && d != Slot(slot)
    ensures Listed(Pushed(m, Slot(slot), p, kind), d, lists[d])
  {
    var c, l := Slot(slot), lists[Slot(slot)];
    PushedList(m, c, l, p, kind);
    PushedFields(m, c, p, kind);
    LinkIs(c, l, 0);
    ListsDisjoint(m, use, lists, minShift, afloat, c, d);
    assert p !in lists[d] by { if p in lists[d] { OnList(m, use, lists, minShift, afloat, d, p); } }
    hide Pushed, Encodes, Layout, Apart;
    ListedElsewhere(m, Pushed(m, c, p, kind), d, lists[d]);
  }

  lemma PushSlotEncodes(m: Mem, use: seq<Use>, lists: Lists, minShift: nat, afloat: set<nat>, slot: nat, p: nat,
          kind: Kind,
                        i: nat)
    requires Ok(m, use, lists, minShift, afloat) && Slot(slot) in lists && i < |use| && m.Has(m.Get(Slot(slot)).next)
    requires p < |use| && use[p] == Chunks(minShift + slot) && p !in lists[Slot(slot)]
             && kind == KindOf(minShift + slot)
    ensures Encodes(Pushed(m, Slot(slot), p, kind), use, afloat, i)
  {
    var c, l := Slot(slot), lists[Slot(slot)];
    PushedList(m, c, l, p, kind);
    PushedFields(m, c, p, kind);
    LinkIs(c, l, 0);
    hide Pushed, Apart;
    assert Encodes(m, use, afloat, i);
    if FreeHead(use, i) && 1 < use[i].len && i + use[i].len <= |use| {
      BackLinkUnlisted(m, use, lists, minShift, afloat, i);
      assert Fits(use, i);
    }
    assert |l| > 0 ==> l[0] in l;
  }

  lemma PushFreeThreads(m: Mem, use: seq<Use>, lists: Lists, minShift: nat, afloat: set<nat>, p: nat)
    requires Ok(m, use, lists, minShift, afloat) && p in afloat
    ensures m.Has(m.free.next) && m.free.next != At(p) && p !in lists[Free]
    ensures forall q: nat :: m.free.next == At(q) ==> q in lists[Free]
    ensures m.free.next != Null
    ensures forall d <- lists :: Listed(Pushed(m, Free, p, Whole), d, lists[Free := [p] + lists[Free]][d])
  {
    var c := Free;
    var l := lists[c];
    PushedList(m, c, l, p, Whole);
    PushedFields(m, c, p, Whole);
    LinkIs(c, l, 0);
    assert |l| > 0 ==> l[0] in l;
    var m', lists' := Pushed(m, c, p, Whole), lists[c := [p] + l];
    hide Pushed;
    forall d | d in lists'
      ensures Listed(m', d, lists'[d])
    {
      if d != c {
        ListsDisjoint(m, use, lists, minShift, afloat, c, d);
        assert p !in lists[d] by { if p in lists[d] { OnList(m, use, lists, minShift, afloat, d, p); } }
        ListedElsewhere(m, m', d, lists[d]);
      }
    }
  }

  /** A run afloat enters the free list, which makes it an ordinary free run. */
  lemma PushFreeOk(m: Mem, use: seq<Use>, lists: Lists, minShift: nat, afloat: set<nat>, p: nat)
    requires Ok(m, use, lists, minShift, afloat) && p in afloat
    requires m.pages[p].slab == use[p].len
    requires 1 < use[p].len && p + use[p].len < |use| ==> m.pages[p + use[p].len - 1].prev == At(p)
    requires Apart(use, afloat - {p})
    ensures m.Has(m.free.next)
    ensures Ok(Pushed(m, Free, p, Whole), use, lists[Free := [p] + lists[Free]], minShift, afloat - {p})
  {
    PushFreeThreads(m, use, lists, minShift, afloat, p);
    PushedFields(m, Free, p, Whole);
    var m', lists' := Pushed(m, Free, p, Whole), lists[Free := [p] + lists[Free]];
    hide Pushed, Encodes, Listed, Layout, Apart;
    forall i: nat | i < |use|
      ensures Encodes(m', use, afloat - {p}, i)
    {
      PushFreeEncodes(m, use, lists, minShift, afloat, p, i);
    }
  }

  lemma PushFreeEncodes(m: Mem, use: seq<Use>, lists: Lists, minShift: nat, afloat: set<nat>, p: nat, i: nat)
    requires Ok(m, use, lists, minShift, afloat) && p in afloat && i < |use| && m.pages[p].slab == use[p].len
    requires 1 < use[p].len && p + use[p].len < |use| ==> m.pages[p + use[p].len - 1].prev == At(p)
    requires m.Has(m.free.next)
    ensures Encodes(Pushed(m, Free, p, Whole), use, afloat - {p}, i)
  {
    hide Pushed, Apart;
    PushFreeThreads(m, use, lists, minShift, afloat, p);
    PushedFields(m, Free, p, Whole);
    assert Encodes(m, use, afloat, i);
    if FreeHead(use, i) && 1 < use[i].len && i + use[i].len <= |use| {
      BackLinkUnlisted(m, use, lists, minShift, afloat, i);
      assert Fits(use, i);
    }
  }

  /** Rewriting descriptors that are on no list. */
  lemma ListedAll(m: Mem, m': Mem, lists: Lists)
    requires |m'.pages| == |m.pages| && |m'.slots| == |m.slots|
    requires forall c | IsHead(c) && m.Has(c) :: m'.Get(c).next == m.Get(c).next
    requires forall c <- lists :: Listed(m, c, lists[c])
    requires forall c <- lists :: forall q <- lists[c] :: q < |m.pages| ==>
               m'.pages[q].next == m.pages[q].next && m'.pages[q].prev == m.pages[q].prev
    ensures forall c <- lists :: Listed(m', c, lists[c])
  {
    forall c | c in lists
      ensures Listed(m', c, lists[c])
    {
      ListedElsewhere(m, m', c, lists[c]);
    }
  }

  /** The descriptors of [s, s + n) rewritten, all others and all heads left alone. */
  ghost predicate Rewritten(m: Mem, m': Mem, s: nat, n: nat) {
    && |m'.pages| == |m.pages| && m'.slots == m.slots && m'.free == m.free
    && forall q: nat :: q < |m.pages| && !(s <= q < s + n) ==> m'.pages[q] == m.pages[q]
  }

  /** A run afloat becomes busy. */
  lemma OccupyOk(m: Mem, m': Mem, use: seq<Use>, lists: Lists, minShift: nat, afloat: set<nat>, p: nat, n: nat)
    requires Ok(m, use, lists, minShift, afloat) && p in afloat && use[p].len == n && p + n <= |use|
    requires Rewritten(m, m', p, n)
    requires m'.pages[p].slab == PAGE_START + n && m'.pages[p].next == Null && m'.pages[p].kind == Whole
    requires forall q :: p < q < p + n ==>
               m'.pages[q].slab == PAGE_BUSY && m'.pages[q].next == Null && m'.pages[q].kind == Whole
    ensures Ok(m', WithRun(use, p, n, false), lists, minShift, afloat - {p})
  {
    OccupyShape(m, m', use, lists, minShift, afloat, p, n);
    hide Encodes, Layout, Rewritten, WithRun, Apart;
    forall i: nat | i < |use|
      ensures Encodes(m', WithRun(use, p, n, false), afloat - {p}, i)
    {
      OccupyEncodes(m, m', use, lists, minShift, afloat, p, n, i);
    }
  }

  lemma OccupyShape(m: Mem, m': Mem, use: seq<Use>, lists: Lists, minShift: nat, afloat: set<nat>, p: nat, n: nat)
    requires Ok(m, use, lists, minShift, afloat) && p in afloat && use[p].len == n && p + n <= |use|
    requires Rewritten(m, m', p, n)
    ensures Layout(WithRun(use, p, n, false)) && |WithRun(use, p, n, false)| == |use| && |m'.pages| == |m.pages|
    ensures Threaded(m', WithRun(use, p, n, false), lists, minShift, afloat - {p})
    ensures Apart(WithRun(use, p, n, false), afloat - {p})
    ensures forall q <- afloat - {p} :: FreeHead(WithRun(use, p, n, false), q)
  {
    hide Encodes, Listed;
    assert Fits(use, p);
    ConvertLayout(use, p, n, false);
    assert forall c <- lists :: forall q <- lists[c] :: !(p <= q < p + n);
    ListedAll(m, m', lists);
  }

  lemma OccupyEncodes(m: Mem, m': Mem, use: seq<Use>, lists: Lists, minShift: nat, afloat: set<nat>, p: nat, n: nat,
                      i: nat)
    requires Ok(m, use, lists, minShift, afloat) && p in afloat && use[p].len == n && p + n <= |use| && i < |use|
    requires Rewritten(m, m', p, n)
    requires m'.pages[p].slab == PAGE_START + n && m'.pages[p].next == Null && m'.pages[p].kind == Whole
    requires forall q :: p < q < p + n ==>
               m'.pages[q].slab == PAGE_BUSY && m'.pages[q].next == Null && m'.pages[q].kind == Whole
    ensures Encodes(m', WithRun(use, p, n, false), afloat - {p}, i)
  {
    hide Threaded, Apart;
    assert Encodes(m, use, afloat, i) && Fits(use, i) && Fits(use, p);
  }

  /** A busy run, or a page of chunks that is on no list, becomes a free run afloat. */
  lemma VacateOk(m: Mem, m': Mem, use: seq<Use>, lists: Lists, minShift: nat, afloat: set<nat>, p: nat, n: nat)
    requires Ok(m, use, lists, minShift, afloat) && RunAt(use, p, n) && !FreeHead(use, p)
    requires Rewritten(m, m', p, n) && forall c <- lists :: p !in lists[c]
    requires forall q :: p < q < p + n ==>
               m'.pages[q].slab == PAGE_FREE && m'.pages[q].next == Null && m'.pages[q].kind == Whole
    ensures Ok(m', WithRun(use, p, n, true), lists, minShift, afloat + {p})
  {
    assert Fits(use, p);
    ConvertLayout(use, p, n, true);
    var use' := WithRun(use, p, n, true);
    assert forall c <- lists :: forall q <- lists[c] :: !(p <= q < p + n);
    ListedAll(m, m', lists);
    hide Layout, Listed, Encodes;
    forall i: nat | i < |use|
      ensures Encodes(m', use', afloat + {p}, i)
    {
      VacateEncodes(m, m', use, lists, minShift, afloat, p, n, i);
    }
  }

  lemma VacateEncodes(m: Mem, m': Mem, use: seq<Use>, lists: Lists, minShift: nat, afloat: set<nat>, p: nat, n: nat,
          i: nat)
    requires Ok(m, use, lists, minShift, afloat) && RunAt(use, p, n) && !FreeHead(use, p) && i < |use|
    requires Rewritten(m, m', p, n)
    requires forall q :: p < q < p + n ==>
               m'.pages[q].slab == PAGE_FREE && m'.pages[q].next == Null && m'.pages[q].kind == Whole
    ensures Encodes(m', WithRun(use, p, n, true), afloat + {p}, i)
  {
    hide Threaded, Apart, Listed;
    assert Fits(use, p);
    assert Encodes(m, use, afloat, i) && Fits(use, i);
  }

  /** Two runs afloat, one behind the other, become one. */
  lemma JoinOk(m: Mem, m': Mem, use: seq<Use>, lists: Lists, minShift: nat, afloat: set<nat>, p: nat, r: nat, k: nat)
    requires Ok(m, use, lists, minShift, afloat) && p in afloat && r in afloat
    requires r == p + use[p].len && use[r].len == k && r + k <= |use|
    requires Rewritten(m, m', p, r + k - p)
    requires m'.pages[r].slab == PAGE_FREE && m'.pages[r].next == Null && m'.pages[r].kind == Whole
    requires forall q :: p < q < r + k && q != r ==> m'.pages[q] == m.pages[q]
    ensures Ok(m', WithRun(use, p, r + k - p, true), lists, minShift, afloat - {r})
  {
    assert Fits(use, p) && Fits(use, r);
    JoinLayout(use, p, r - p, k, true);
    var use' := WithRun(use, p, r + k - p, true);
    assert forall c <- lists :: forall q <- lists[c] :: !(p <= q < r + k);
    ListedAll(m, m', lists);
    forall i: nat | i < |use'|
      ensures Encodes(m', use', afloat - {r}, i)
    {
      JoinEncodesAt(m, m', use, lists, minShift, afloat, p, r, k, i);
    }
    hide Encodes, Listed, Layout;
    JoinApart(use, afloat, p, r, k);
  }

  lemma JoinEncodesAt(m: Mem, m': Mem, use: seq<Use>, lists: Lists, minShift: nat, afloat: set<nat>, p: nat, r: nat,
          k: nat, i: nat)
    requires Ok(m, use, lists, minShift, afloat) && p in afloat && r in afloat && i < |use|
    requires r == p + use[p].len && use[r].len == k && r + k <= |use|
    requires Rewritten(m, m', p, r + k - p)
    requires m'.pages[r].slab == PAGE_FREE && m'.pages[r].next == Null && m'.pages[r].kind == Whole
    requires forall q :: p < q < r + k && q != r ==> m'.pages[q] == m.pages[q]
    ensures Encodes(m', WithRun(use, p, r + k - p, true), afloat - {r}, i)
  {
    assert Fits(use, p) && Fits(use, r) && Fits(use, i) && Encodes(m, use, afloat, i);
    hide Threaded, Layout, Apart;
  }

  lemma JoinApart(use: seq<Use>, afloat: set<nat>, p: nat, r: nat, k: nat)
    requires Layout(use) && Apart(use, afloat) && FreeHead(use, p) && FreeHead(use, r) && p in afloat && r in afloat
    requires r == p + use[p].len && use[r].len == k && r + k <= |use|
    ensures Apart(WithRun(use, p, r + k - p, true), afloat - {r})
  {
    var u := WithRun(use, p, r + k - p, true);
    assert Fits(use, p) && Fits(use, r);
    forall i: nat | FreeHead(u, i) && i !in afloat - {r} && i + u[i].len !in afloat - {r}
      ensures !FreeHead(u, i + u[i].len)
    {
      assert Fits(use, i);
      assert FreeHead(use, i) && u[i] == use[i];
    }
  }

  /** The descriptors behind the first `n` pages of the free run at `p`, about to become a run. */
  function Divided(m: Mem, p: nat, len: nat, n: nat): Mem
    requires 0 < n < len < PAGE_START && p + len <= |m.pages|
  {
    var m1 := m.SetPrev(At(p + len - 1), At(p + n), Whole);
    m1.Put(At(p + n), m1.pages[p + n].(slab := len - n))
  }

  ghost predicate DividedAs(m: Mem, m': Mem, p: nat, len: nat, q: nat)
    requires p < q < p + len <= |m.pages|
  {
    && Rewritten(m, m', q, p + len - q)
    && m'.pages[q].slab == p + len - q
    && m'.pages[p + len - 1].prev == At(q) && m'.pages[p + len - 1].kind == Whole
    && (forall r: nat :: q <= r < p + len ==> m'.pages[r].next == m.pages[r].next)
    && (forall r: nat :: q < r < p + len ==> m'.pages[r].slab == m.pages[r].slab)
    && (forall r: nat :: q <= r < p + len - 1 ==> m'.pages[r].kind == m.pages[r].kind)
  }

  lemma DividedFields(m: Mem, p: nat, len: nat, q: nat)
    requires p < q < p + len <= |m.pages| && len < PAGE_START
    ensures DividedAs(m, Divided(m, p, len, q - p), p, len, q)
  {
  }

  function Replaced(l: seq<nat>, k: nat, q: nat): seq<nat>
    requires k < |l|
  {
    l[k := q]
  }

  lemma ReplacedMembers(l: seq<nat>, k: nat, q: nat)
    requires k < |l| && NoDup(l)
    ensures forall r: nat :: r in Replaced(l, k, q) <==> r == q || (r in l && r != l[k])
  {
    var l' := Replaced(l, k, q);
    forall r: nat
      ensures r in l' <==> r == q || (r in l && r != l[k])
    {
      if r == q {
        assert l'[k] == r;
      } else if r in l && r != l[k] {
        var i :| 0 <= i < |l| && l[i] == r;
        assert l'[i] == r;
      }
    }
  }

  lemma SplitNeighbours(m: Mem, m2: Mem, use: seq<Use>, lists: Lists, minShift: nat, afloat: set<nat>, k: nat, p: nat,
          q: nat)
    requires Ok(m, use, lists, minShift, afloat) && k < |lists[Free]| && p == lists[Free][k]
    requires FreeHead(use, p) && p < q < p + use[p].len <= |m.pages| && Rewritten(m, m2, q, p + use[p].len - q)
    ensures m2.pages[p] == m.pages[p] && m2.Has(m2.pages[p].prev) && m2.Has(m2.pages[p].next)
    ensures m2.pages[p].prev != At(p) && m2.pages[p].next != At(p) && m2.pages[p].prev != At(q)
            && m2.pages[p].next != At(q)
    ensures Neighbours(m2, lists, p)
    ensures forall c <- lists :: Listed(m2, c, lists[c])
    ensures forall c <- lists :: q !in lists[c]
  {
    var l, n := lists[Free], p + use[p].len - q;
    InnerUnlisted(m, use, lists, minShift, afloat, p);
    hide Layout, Apart, Encodes, Fits, FreeHead;
    ListedAll(m, m2, lists);
    SplitLinks(m2, l, k, q);
  }

  lemma SplitLinks(m: Mem, l: seq<nat>, k: nat, q: nat)
    requires Listed(m, Free, l) && k < |l| && q < |m.pages| && q !in l
    ensures var p := l[k];
            && p < |m.pages| && m.Has(m.pages[p].prev) && m.Has(m.pages[p].next)
            && m.pages[p].prev != At(p) && m.pages[p].next != At(p) && m.pages[p].prev != At(q)
            && m.pages[p].next != At(q)
            && (m.pages[p].next == Free || m.pages[p].next.At?) && (m.pages[p].prev == Free || m.pages[p].prev.At?)
            && forall r: nat :: m.pages[p].prev == At(r) || m.pages[p].next == At(r) ==> r in l && r != p
  {
    SubstitutedList(m, Free, l, k, q);
    assert Placed(m, Free, l, k);
    assert k > 0 ==> l[k - 1] in l;
    assert k + 1 < |l| ==> l[k + 1] in l;
  }

  /** Of the pages of a free run, at most the first is on a list. */
  lemma InnerUnlisted(m: Mem, use: seq<Use>, lists: Lists, minShift: nat, afloat: set<nat>, p: nat)
    requires Ok(m, use, lists, minShift, afloat) && FreeHead(use, p)
    ensures forall c <- lists :: forall r <- lists[c] :: !(p < r < p + use[p].len)
  {
    assert Fits(use, p);
  }

  lemma SplitThreads(m: Mem, m2: Mem, use: seq<Use>, lists: Lists, minShift: nat, afloat: set<nat>, k: nat, p: nat,
          q: nat)
    requires Ok(m, use, lists, minShift, afloat) && k < |lists[Free]| && p == lists[Free][k]
    requires FreeHead(use, p) && p < q < p + use[p].len <= |m.pages| && Rewritten(m, m2, q, p + use[p].len - q)
    ensures m2.pages[p] == m.pages[p] && m2.Has(m2.pages[p].prev) && m2.Has(m2.pages[p].next)
    ensures m2.pages[p].prev != At(p) && m2.pages[p].next != At(p) && m2.pages[p].prev != At(q)
            && m2.pages[p].next != At(q)
    ensures Neighbours(m2, lists, p)
    ensures var lists' := lists[Free := Replaced(lists[Free], k, q)];
            forall d <- lists' :: Listed(Substituted(m2, p, q), d, lists'[d])
  {
    var l := lists[Free];
    SplitNeighbours(m, m2, use, lists, minShift, afloat, k, p, q);
    SubstitutedList(m2, Free, l, k, q);
    SubstitutedFields(m2, p, q);
    var m' := Substituted(m2, p, q);
    var lists' := lists[Free := Replaced(l, k, q)];
    hide Substituted, Layout, Apart, Encodes, Listed;
    forall d | d in lists'
      ensures Listed(m', d, lists'[d])
    {
      if d != Free {
        ListsDisjoint(m, use, lists, minShift, afloat, Free, d);
        HeadOfList(m2, d, lists[d]);
        ListedElsewhere(m2, m', d, lists[d]);
      }
    }
  }

  lemma HeadOfList(m: Mem, c: Ref, l: seq<nat>)
    requires Listed(m, c, l)
    ensures IsHead(c) && m.Has(c)
  {
  }

  lemma SplitApart(use: seq<Use>, afloat: set<nat>, p: nat, n: nat, k: nat)
    requires Layout(use) && Apart(use, afloat) && FreeHead(use, p) && p !in afloat && use[p].len == n + k && 0 < n
             && 0 < k
    requires p + n + k <= |use| && forall r <- afloat :: FreeHead(use, r)
    ensures Apart(WithRun(WithRun(use, p, n, true), p + n, k, true), afloat + {p})
  {
    var u := WithRun(WithRun(use, p, n, true), p + n, k, true);
    assert Fits(use, p);
    forall i: nat | FreeHead(u, i) && i !in afloat + {p} && i + u[i].len !in afloat + {p}
      ensures !FreeHead(u, i + u[i].len)
    {
      if i != p + n {
        assert Fits(use, i);
        assert FreeHead(use, i) && u[i] == use[i];
      }
    }
  }

  /** Where the neighbours of the head of a free run are. */
  ghost predicate Neighbours(m: Mem, lists: Lists, p: nat)
    requires Free in lists && p < |m.pages|
  {
    && (m.pages[p].next == Free || m.pages[p].next.At?)
    && (m.pages[p].prev == Free || m.pages[p].prev.At?)
    && forall r: nat :: m.pages[p].prev == At(r) || m.pages[p].next == At(r) ==> r in lists[Free] && r != p
  }

  lemma SplitEncodes(m: Mem, m2: Mem, m': Mem, use: seq<Use>, lists: Lists, minShift: nat, afloat: set<nat>,
                     p: nat, q: nat, len: nat, i: nat)
    requires Ok(m, use, lists, minShift, afloat) && p in lists[Free] && use[p].len == len && p < q < p + len <= |use|
    requires i < |use| && DividedAs(m, m2, p, len, q) && SubstitutedAs(m2, m', p, q) && Neighbours(m2, lists, p)
    ensures Encodes(m', WithRun(WithRun(use, p, q - p, true), q, p + len - q, true), afloat + {p}, i)
  {
    assert Encodes(m, use, afloat, i) && Encodes(m, use, afloat, p) && Fits(use, p) && Fits(use, i);
    assert forall r: nat :: m2.pages[p].prev == At(r) || m2.pages[p].next == At(r) ==> FreeHead(use, r) && r != p;
    hide Layout, Apart, DividedAs, SubstitutedAs, Neighbours, Fits, Encodes;
    SplitEncodesPage(m, m2, m', use, WithRun(WithRun(use, p, q - p, true), q, p + len - q, true), afloat, p, q, len, i);
  }

  lemma SplitEncodesPage(m: Mem, m2: Mem, m': Mem, use: seq<Use>, use': seq<Use>, afloat: set<nat>,
                         p: nat, q: nat, len: nat, i: nat)
    requires FreeHead(use, p) && p !in afloat && use[p].len == len && p < q < p + len <= |use| && i < |use|
    requires |m.pages| == |use| < PAGE_START && use' == WithRun(WithRun(use, p, q - p, true), q, p + len - q, true)
    requires Encodes(m, use, afloat, i) && Encodes(m, use, afloat, p) && Fits(use, p) && Fits(use, i)
    requires DividedAs(m, m2, p, len, q) && SubstitutedAs(m2, m', p, q)
    requires forall r: nat :: m2.pages[p].prev == At(r) || m2.pages[p].next == At(r) ==> FreeHead(use, r) && r != p
    ensures Encodes(m', use', afloat + {p}, i)
  {
  }

  lemma SplitBounds(m: Mem, use: seq<Use>, lists: Lists, minShift: nat, afloat: set<nat>, k: nat, p: nat)
    requires Ok(m, use, lists, minShift, afloat) && k < |lists[Free]| && p == lists[Free][k]
    ensures FreeHead(use, p) && p !in afloat && p + use[p].len <= |m.pages| && use[p].len < PAGE_START
    ensures Layout(use) && Apart(use, afloat) && forall r <- afloat :: FreeHead(use, r)
  {
    assert p in lists[Free];
    assert Fits(use, p);
  }

  /** How the first pages of a free run are taken: `m2` has the rest made up as a run of its own,
      `m'` has that rest in the place of the whole run on the free list. */
  ghost predicate Split(m: Mem, m2: Mem, m': Mem, use: seq<Use>, use': seq<Use>, lists: Lists, lists': Lists,
                        k: nat, p: nat, q: nat)
  {
    && FreeHead(use, p) && p < q < p + use[p].len <= |m.pages| && p + use[p].len <= |use| && use[p].len < PAGE_START
    && Free in lists && k < |lists[Free]| && p == lists[Free][k]
    && m2 == Divided(m, p, use[p].len, q - p)
    && p < |m2.pages| && q < |m2.pages| && m2.Has(m2.pages[p].prev) && m2.Has(m2.pages[p].next)
    && m' == Substituted(m2, p, q)
    && use' == WithRun(WithRun(use, p, q - p, true), q, p + use[p].len - q, true)
    && lists' == lists[Free := Replaced(lists[Free], k, q)]
  }

  lemma SplitEncodesAt(m: Mem, m2: Mem, m': Mem, use: seq<Use>, use': seq<Use>, lists: Lists, lists': Lists,
                       minShift: nat, afloat: set<nat>, k: nat, p: nat, q: nat, i: nat)
    requires Ok(m, use, lists, minShift, afloat) && Split(m, m2, m', use, use', lists, lists', k, p, q) && i < |use|
    ensures |m'.pages| == |use'| == |use| && Encodes(m', use', afloat + {p}, i)
  {
    hide Ok, Divided, Substituted, Encodes, Replaced, WithRun, DividedAs, SubstitutedAs, Neighbours;
    assert p in lists[Free];
    SplitSizes(m, use, lists, minShift, afloat);
    SplitLengths(use, p, q);
    SplitFields(m, m2, m', use, use', lists, lists', minShift, afloat, k, p, q);
    SplitEncodes(m, m2, m', use, lists, minShift, afloat, p, q, use[p].len, i);
  }

  lemma SplitFields(m: Mem, m2: Mem, m': Mem, use: seq<Use>, use': seq<Use>, lists: Lists, lists': Lists,
                    minShift: nat, afloat: set<nat>, k: nat, p: nat, q: nat)
    requires Ok(m, use, lists, minShift, afloat) && Split(m, m2, m', use, use', lists, lists', k, p, q)
    ensures DividedAs(m, m2, p, use[p].len, q) && SubstitutedAs(m2, m', p, q) && Neighbours(m2, lists, p)
    ensures |m'.pages| == |m2.pages| == |m.pages| && |m'.slots| == |m.slots|
    ensures forall d <- lists' :: Listed(m', d, lists'[d])
  {
    DividedFields(m, p, use[p].len, q);
    SplitThreads(m, m2, use, lists, minShift, afloat, k, p, q);
    SubstitutedFields(m2, p, q);
  }

  lemma SplitThreaded(m: Mem, m2: Mem, m': Mem, use: seq<Use>, use': seq<Use>, lists: Lists, lists': Lists,
                      minShift: nat, afloat: set<nat>, k: nat, p: nat, q: nat)
    requires Ok(m, use, lists, minShift, afloat) && Split(m, m2, m', use, use', lists, lists', k, p, q)
    ensures Threaded(m', use', lists', minShift, afloat + {p})
  {
    SplitFields(m, m2, m', use, use', lists, lists', minShift, afloat, k, p, q);
    SplitMembers(m, m2, m', use, use', lists, lists', minShift, afloat, k, p, q);
    hide Divided, Substituted, Listed, Encodes, Apart, NoDup, Replaced, DividedAs, SubstitutedAs, Neighbours, Layout;
  }

  lemma SplitMembers(m: Mem, m2: Mem, m': Mem, use: seq<Use>, use': seq<Use>, lists: Lists, lists': Lists,
                     minShift: nat, afloat: set<nat>, k: nat, p: nat, q: nat)
    requires Ok(m, use, lists, minShift, afloat) && Split(m, m2, m', use, use', lists, lists', k, p, q)
    ensures forall r: nat :: r in lists'[Free] <==> FreeHead(use', r) && r !in afloat + {p}
    ensures forall c <- lists :: c.Slot? ==>
              lists'[c] == lists[c] && forall r <- lists[c] :: r < |use| && use'[r] == use[r]
  {
    assert Fits(use, p);
    assert NoDup(lists[Free]) by { assert Listed(m, Free, lists[Free]); ListNoDup(m, Free, lists[Free]); }
    hide Divided, Substituted, Listed, Encodes, Apart, NoDup, Replaced;
    ReplacedMembers(lists[Free], k, q);
    forall r: nat
      ensures r in lists'[Free] <==> FreeHead(use', r) && r !in afloat + {p}
    {
      if r < |use| {
        assert Fits(use, r);
      }
    }
  }

  /** The first pages of a free run go afloat; the rest takes the run's place on the free list. */
  lemma SplitOk(m: Mem, m2: Mem, m': Mem, use: seq<Use>, use': seq<Use>, lists: Lists, lists': Lists,
                minShift: nat, afloat: set<nat>, k: nat, p: nat, q: nat)
    requires Ok(m, use, lists, minShift, afloat) && Split(m, m2, m', use, use', lists, lists', k, p, q)
    ensures Ok(m', use', lists', minShift, afloat + {p})
  {
    hide Encodes, Threaded, Layout, Apart, Listed, Divided, Substituted, Fits, WithRun, Replaced, NoDup, FreeHead;
    SplitThreaded(m, m2, m', use, use', lists, lists', minShift, afloat, k, p, q);
    forall i: nat | i < |use'|
      ensures |m'.pages| == |use'| == |use| && Encodes(m', use', afloat + {p}, i)
    {
      SplitEncodesAt(m, m2, m', use, use', lists, lists', minShift, afloat, k, p, q, i);
    }
    SplitEncodesAt(m, m2, m', use, use', lists, lists', minShift, afloat, k, p, q, p);
    SplitRuns(m, m2, m', use, use', lists, lists', minShift, afloat, k, p, q);
  }

  lemma SplitRuns(m: Mem, m2: Mem, m': Mem, use: seq<Use>, use': seq<Use>, lists: Lists, lists': Lists,
                  minShift: nat, afloat: set<nat>, k: nat, p: nat, q: nat)
    requires Ok(m, use, lists, minShift, afloat) && Split(m, m2, m', use, use', lists, lists', k, p, q)
    ensures Layout(use') && Apart(use', afloat + {p}) && forall r <- afloat + {p} :: FreeHead(use', r)
  {
    SplitBounds(m, use, lists, minShift, afloat, k, p);
    hide Encodes, Threaded, Layout, Apart, Listed, Divided, Substituted, Fits, WithRun, Replaced;
    SplitShape(use, use', afloat, p, q);
  }

  lemma SplitShape(use: seq<Use>, use': seq<Use>, afloat: set<nat>, p: nat, q: nat)
    requires Layout(use) && Apart(use, afloat) && FreeHead(use, p) && p !in afloat && p < q < p + use[p].len <= |use|
    requires forall r <- afloat :: FreeHead(use, r)
    requires use' == WithRun(WithRun(use, p, q - p, true), q, p + use[p].len - q, true)
    ensures Layout(use') && Apart(use', afloat + {p}) && forall r <- afloat + {p} :: FreeHead(use', r)
  {
    hide Layout, Apart;
    SplitHeads(use, p, q - p, q);
    DivideLayout(use, p, q - p, p + use[p].len - q, true);
    SplitApart(use, afloat, p, q - p, p + use[p].len - q);
  }

  lemma SplitHeads(use: seq<Use>, p: nat, n: nat, q: nat)
    requires Layout(use) && FreeHead(use, p) && 0 < n < use[p].len && q == p + n && p + use[p].len <= |use|
    ensures var use' := WithRun(WithRun(use, p, n, true), q, use[p].len - n, true);
            forall r: nat :: FreeHead(use, r) ==> FreeHead(use', r)
  {
    assert Fits(use, p);
  }

  lemma ListNoDup(m: Mem, c: Ref, l: seq<nat>)
    requires Listed(m, c, l)
    ensures NoDup(l)
  {
  }

  /** Whatever was in use still is, in the same way and with the same descriptors, but for the
      pages [s, s + n). */
  ghost predicate SameElsewhere(m: Mem, m': Mem, use: seq<Use>, use': seq<Use>, s: nat, n: nat) {
    && |use'| == |use| == |m.pages| == |m'.pages|
    && forall i :: 0 <= i < |use| && !(s <= i < s + n) ==>
         if Taken(use[i]) then use'[i] == use[i] && SameUse(m.pages[i], m'.pages[i]) else !Taken(use'[i])
  }

  /** Descriptors that differ at most in whom they link to. */
  predicate SameUse(a: Page, b: Page) { a.slab == b.slab && (a.next == Null <==> b.next == Null) }

  lemma SameTransitive(m: Mem, m1: Mem, m2: Mem, use: seq<Use>, use1: seq<Use>, use2: seq<Use>, s: nat, n: nat)
    requires SameElsewhere(m, m1, use, use1, s, n) && SameElsewhere(m1, m2, use1, use2, s, n)
    ensures SameElsewhere(m, m2, use, use2, s, n)
  {
  }

  predicate Taken(u: Use) { u.Chunks? || !u.free }

  lemma SplitSameAt(m: Mem, m2: Mem, m': Mem, use: seq<Use>, use': seq<Use>, lists: Lists, minShift: nat,
          afloat: set<nat>,
                    p: nat, q: nat, i: nat)
    requires Ok(m, use, lists, minShift, afloat) && p in lists[Free]
             && p < q < p + use[p].len <= |m.pages| == |m'.pages|
    requires DividedAs(m, m2, p, use[p].len, q) && SubstitutedAs(m2, m', p, q) && Neighbours(m2, lists, p)
    requires use' == WithRun(WithRun(use, p, q - p, true), q, p + use[p].len - q, true) && i < |use|
    ensures p <= i < p + use[p].len ==> !Taken(use[i])
    ensures if Taken(use[i]) then use'[i] == use[i] && m'.pages[i] == m.pages[i] else !Taken(use'[i])
  {
    assert Fits(use, p);
    hide Layout, Apart, Encodes, Fits;
  }

  lemma SplitSlots(m: Mem, m2: Mem, m': Mem, lists: Lists, p: nat, len: nat, q: nat)
    requires p < q < p + len <= |m.pages| && DividedAs(m, m2, p, len, q) && Free in lists && Neighbours(m2, lists, p)
    requires m2.Has(m2.pages[p].prev) && m2.Has(m2.pages[p].next) && m' == Substituted(m2, p, q)
    ensures m'.slots == m.slots
  {
  }

  lemma SplitSame(m: Mem, m2: Mem, m': Mem, use: seq<Use>, use': seq<Use>, lists: Lists, lists': Lists,
                  minShift: nat, afloat: set<nat>, k: nat, p: nat, q: nat)
    requires Ok(m, use, lists, minShift, afloat) && Split(m, m2, m', use, use', lists, lists', k, p, q)
    ensures SameElsewhere(m, m', use, use', p, q - p)
    ensures m'.slots == m.slots
    ensures FreeCount(use', |use|) == FreeCount(use, |use|)
  {
    hide Layout, Apart, Encodes, Fits, DividedAs, SubstitutedAs, Neighbours, Listed, Divided, Substituted, Threaded,
        WithRun;
    SplitFields(m, m2, m', use, use', lists, lists', minShift, afloat, k, p, q);
    SplitSlots(m, m2, m', lists, p, use[p].len, q);
    assert p in lists[Free];
    forall i: nat | i < |use|
      ensures if Taken(use[i]) then use'[i] == use[i] && m'.pages[i] == m.pages[i] else !Taken(use'[i])
    {
      SplitSameAt(m, m2, m', use, use', lists, minShift, afloat, p, q, i);
    }
    FreeCountSame(use, use', |use|);
  }

  lemma UnlinkFreeSame(m: Mem, use: seq<Use>, lists: Lists, minShift: nat, afloat: set<nat>, k: nat)
    requires Ok(m, use, lists, minShift, afloat) && k < |lists[Free]|
    ensures var p := lists[Free][k];
            && p < |m.pages| && m.Has(m.pages[p].prev) && m.Has(m.pages[p].next)
            && SameElsewhere(m, Unlinked(m, p), use, use, 0, 0) && Unlinked(m, p).slots == m.slots
            && (forall q: nat :: q < |use| && !FreeHead(use, q) ==> Unlinked(m, p).pages[q] == m.pages[q])
            && Unlinked(m, p).pages[p] == m.pages[p]
            && (forall q: nat :: q < |m.pages| ==> Unlinked(m, p).pages[q].slab == m.pages[q].slab)
  {
    UnlinkThreads(m, use, lists, minShift, afloat, Free, k);
    assert Placed(m, Free, lists[Free], k);
    UnlinkedFields(m, lists[Free][k]);
  }

  lemma SplitLengths(use: seq<Use>, p: nat, q: nat)
    requires p < |use| && use[p].Head? && p < q < p + use[p].len <= |use|
    ensures |WithRun(WithRun(use, p, q - p, true), q, p + use[p].len - q, true)| == |use|
  {
  }

  lemma SplitSizes(m: Mem, use: seq<Use>, lists: Lists, minShift: nat, afloat: set<nat>)
    requires Ok(m, use, lists, minShift, afloat)
    ensures |m.pages| == |use| && Free in lists
  {
    assert m.Has(Free);
  }

  lemma SplitMade(m: Mem, use: seq<Use>, lists: Lists, minShift: nat, k: nat, p: nat, q: nat)
    returns (m2: Mem, m': Mem, use': seq<Use>, lists': Lists)
    requires Ok(m, use, lists, minShift, {}) && k < |lists[Free]| && p == lists[Free][k]
    requires FreeHead(use, p) && p < q < p + use[p].len <= |use| && use[p].len < PAGE_START
    ensures Split(m, m2, m', use, use', lists, lists', k, p, q)
  {
    hide Divided, Substituted, Ok, WithRun;
    SplitSizes(m, use, lists, minShift, {});
    m2 := Divided(m, p, use[p].len, q - p);
    DividedFields(m, p, use[p].len, q);
    SplitNeighbours(m, m2, use, lists, minShift, {}, k, p, q);
    m' := Substituted(m2, p, q);
    use' := WithRun(WithRun(use, p, q - p, true), q, p + use[p].len - q, true);
    lists' := lists[Free := Replaced(lists[Free], k, q)];
  }

  /** All of the above for a pool without runs afloat. */
  lemma SplitDone(m: Mem, m2: Mem, m': Mem, use: seq<Use>, use': seq<Use>, lists: Lists, lists': Lists,
                  minShift: nat, k: nat, p: nat, q: nat)
    requires Ok(m, use, lists, minShift, {}) && Split(m, m2, m', use, use', lists, lists', k, p, q)
    ensures Ok(m', use', lists', minShift, {p}) && SameElsewhere(m, m', use, use', p, q - p) && m'.slots == m.slots
    ensures |use'| == |use| && use'[p] == Head(true, q - p) && FreeCount(use', |use|) == FreeCount(use, |use|)
  {
    hide Divided, Substituted, Ok, SameElsewhere, FreeCount, Replaced;
    SplitOk(m, m2, m', use, use', lists, lists', minShift, {}, k, p, q);
    SplitSame(m, m2, m', use, use', lists, lists', minShift, {}, k, p, q);
    assert {} + {p} == {p};
  }

  // ----- giving pages back

  lemma UnlinkSlotSame(m: Mem, use: seq<Use>, lists: Lists, minShift: nat, afloat: set<nat>, slot: nat, k: nat)
    requires Ok(m, use, lists, minShift, afloat) && Slot(slot) in lists && k < |lists[Slot(slot)]|
    ensures var p := lists[Slot(slot)][k];
            && p < |m.pages| && m.Has(m.pages[p].prev) && m.Has(m.pages[p].next)
            && SameElsewhere(m, Unlinked(m, p), use, use, 0, 0) && m.pages[p].next != Null
  {
    UnlinkThreads(m, use, lists, minShift, afloat, Slot(slot), k);
    UnlinkedFields(m, lists[Slot(slot)][k]);
    assert forall q: nat :: q in lists[Slot(slot)] ==> m.pages[q].next != Null by {
      forall q: nat | q in lists[Slot(slot)]
        ensures m.pages[q].next != Null
      {
        var j :| 0 <= j < |lists[Slot(slot)]| && lists[Slot(slot)][j] == q;
        assert Placed(m, Slot(slot), lists[Slot(slot)], j);
      }
    }
  }

  /** The first word of a page of chunks, or of a run afloat, may be rewritten. */
  lemma SlabWriteOk(m: Mem, use: seq<Use>, lists: Lists, minShift: nat, afloat: set<nat>, p: nat, slab: word)
    requires Ok(m, use, lists, minShift, afloat) && p < |use| && (use[p].Chunks? || p in afloat)
    ensures Ok(m.(pages := m.pages[p := m.pages[p].(slab := slab)]), use, lists, minShift, afloat)
  {
    var m' := m.(pages := m.pages[p := m.pages[p].(slab := slab)]);
    ListedAll(m, m', lists);
    forall i: nat | i < |use|
      ensures Encodes(m', use, afloat, i)
    {
      assert Encodes(m, use, afloat, i);
    }
  }

  /** The last page of a run afloat gets its pointer back to the head. */
  lemma BackLinkWriteOk(m: Mem, use: seq<Use>, lists: Lists, minShift: nat, afloat: set<nat>, p: nat, q: nat)
    requires Ok(m, use, lists, minShift, afloat) && p in afloat && q < |use| && use[q] == Body(true, p)
    ensures Ok(m.(pages := m.pages[q := m.pages[q].(prev := At(p), kind := Whole)]), use, lists, minShift, afloat)
  {
    var m' := m.(pages := m.pages[q := m.pages[q].(prev := At(p), kind := Whole)]);
    assert forall c <- lists :: q !in lists[c];
    ListedAll(m, m', lists);
    forall i: nat | i < |use|
      ensures Encodes(m', use, afloat, i)
    {
      assert Encodes(m, use, afloat, i) && Fits(use, i);
    }
  }

  /** Writing the length of a run before or after unlinking it comes to the same. */
  lemma SlabCommutes(m: Mem, p: nat, slab: word)
    requires p < |m.pages| && m.Has(m.pages[p].prev) && m.Has(m.pages[p].next)
    requires m.pages[p].prev != At(p) && m.pages[p].next != At(p)
    ensures var m1 := m.(pages := m.pages[p := m.pages[p].(slab := slab)]);
            && m1.Has(m1.pages[p].prev) && m1.Has(m1.pages[p].next) && |Unlinked(m, p).pages| == |m.pages|
            && Unlinked(m1, p) == Unlinked(m,
                p).(pages := Unlinked(m, p).pages[p := Unlinked(m, p).pages[p].(slab := slab)])
  {
    var m1 := m.(pages := m.pages[p := m.pages[p].(slab := slab)]);
    UnlinkedFields(m, p);
    UnlinkedFields(m1, p);
    assert Unlinked(m1, p).pages == Unlinked(m, p).pages[p := Unlinked(m, p).pages[p].(slab := slab)];
  }

  /** What a page is used for can be told from its descriptor. */
  lemma Decode(m: Mem, use: seq<Use>, lists: Lists, minShift: nat, afloat: set<nat>, i: nat)
    requires Ok(m, use, lists, minShift, afloat) && i < |use| && i !in afloat
    ensures m.pages[i].kind != Whole <==> use[i].Chunks?
    ensures m.pages[i].kind == Whole && m.pages[i].next != Null <==> FreeHead(use, i)
    ensures m.pages[i].kind == Whole && m.pages[i].slab == PAGE_FREE <==> use[i].Body? && use[i].free
    ensures FreeHead(use, i) ==> m.pages[i].slab == use[i].len
  {
    assert Encodes(m, use, afloat, i) && Fits(use, i);
  }

  /** The free run at `q` leaves the free list and becomes part of the run afloat before it. */
  function Absorbed(m: Mem, q: nat): Mem
    requires q < |m.pages| && m.Has(m.pages[q].prev) && m.Has(m.pages[q].next)
    requires |Unlinked(m, q).pages| == |m.pages|
  {
    var m' := Unlinked(m, q);
    m'.(pages := m'.pages[q := Page(PAGE_FREE, Null, Null, Whole)])
  }

  lemma AbsorbOk(m: Mem, use: seq<Use>, lists: Lists, minShift: nat, p: nat, q: nat, k: nat)
    requires Ok(m, use, lists, minShift, {p}) && FreeHead(use, p) && q == p + use[p].len && FreeHead(use, q)
    requires q + use[q].len <= |use| && p != q && k < |lists[Free]| && lists[Free][k] == q
    ensures q < |m.pages| && m.Has(m.pages[q].prev) && m.Has(m.pages[q].next) && |Unlinked(m, q).pages| == |m.pages|
    ensures Ok(Absorbed(m, q), WithRun(use, p, q + use[q].len - p, true), lists[Free := Without(lists[Free], k)],
            minShift, {p})
    ensures SameElsewhere(m, Absorbed(m, q), use, WithRun(use, p, q + use[q].len - p, true), p, q - p)
    ensures Absorbed(m, q).pages[p].slab == m.pages[p].slab && Absorbed(m, q).slots == m.slots
  {
    UnlinkFreeOk(m, use, lists, minShift, {p}, k);
    UnlinkFreeSame(m, use, lists, minShift, {p}, k);
    assert {p} + {q} - {q} == {p};
    assert Fits(use, p) && Fits(use, q);
    var use' := WithRun(use, p, q + use[q].len - p, true);
    hide Unlinked, Ok, Fits, WithRun;
    JoinOk(Unlinked(m, q), Absorbed(m, q), use, lists[Free := Without(lists[Free], k)], minShift, {p} + {q}, p, q,
        use[q].len);
    SameJoin(m, Unlinked(m, q), Absorbed(m, q), use, p, q);
  }

  lemma SameJoin(m: Mem, m1: Mem, m2: Mem, use: seq<Use>, p: nat, q: nat)
    requires SameElsewhere(m, m1, use, use, 0, 0) && q < |use|
    requires |m2.pages| == |m1.pages| && forall i: nat :: i < |m1.pages| && i != q ==> m2.pages[i] == m1.pages[i]
    requires Layout(use) && FreeHead(use, p) && q == p + use[p].len && FreeHead(use, q) && q + use[q].len <= |use|
    ensures SameElsewhere(m, m2, use, WithRun(use, p, q + use[q].len - p, true), p, q - p)
  {
    assert Fits(use, p) && Fits(use, q);
  }

  /** Joining free runs does not change how many pages are free. */
  lemma JoinCount(use: seq<Use>, p: nat, q: nat)
    requires Layout(use) && FreeHead(use, p) && q == p + use[p].len && FreeHead(use, q) && q + use[q].len <= |use|
    ensures FreeCount(WithRun(use, p, q + use[q].len - p, true), |use|) == FreeCount(use, |use|)
  {
    assert Fits(use, p) && Fits(use, q);
    FreeCountSame(use, WithRun(use, p, q + use[q].len - p, true), |use|);
  }

  /** The run afloat at `p` becomes part of the free run at `h` before it, which leaves the free list. */
  function AbsorbedInto(m: Mem, h: nat, p: nat, len: word): Mem
    requires h < |m.pages| && p < |m.pages| && m.Has(m.pages[h].prev) && m.Has(m.pages[h].next)
    requires |Unlinked(m, h).pages| == |m.pages|
  {
    var m' := Unlinked(m, h);
    m'.(pages := m'.pages[h := m'.pages[h].(slab := len)][p := Page(PAGE_FREE, Null, Null, Whole)])
  }

  lemma AbsorbIntoOk(m: Mem, use: seq<Use>, lists: Lists, minShift: nat, h: nat, p: nat, k: nat)
    requires Ok(m, use, lists, minShift, {p}) && FreeHead(use, p) && FreeHead(use, h) && p == h + use[h].len
    requires p + use[p].len <= |use| && p != h && k < |lists[Free]| && lists[Free][k] == h
    ensures h < |m.pages| && m.Has(m.pages[h].prev) && m.Has(m.pages[h].next) && |Unlinked(m, h).pages| == |m.pages|
    ensures use[h].len + use[p].len < PAGE_START
    ensures var m', use' := AbsorbedInto(m, h, p, use[h].len + use[p].len), WithRun(use, h, p + use[p].len - h, true);
            && Ok(m', use', lists[Free := Without(lists[Free], k)], minShift, {h})
            && SameElsewhere(m, m', use, use', p, use[p].len) && m'.slots == m.slots
  {
    hide Unlinked, Ok, WithRun, Layout, SameElsewhere, AbsorbedInto;
    AbsorbFacts(m, use, lists, minShift, h, p);
    UnlinkFreeOk(m, use, lists, minShift, {p}, k);
    UnlinkFreeSame(m, use, lists, minShift, {p}, k);
    assert {p} + {h} - {p} == {h};
    var m1, lists', len := Unlinked(m, h), lists[Free := Without(lists[Free], k)], use[h].len + use[p].len;
    SlabWriteOk(m1, use, lists', minShift, {p} + {h}, h, len);
    var m2 := m1.(pages := m1.pages[h := m1.pages[h].(slab := len)]);
    var m3 := AbsorbedInto(m, h, p, len);
    AbsorbedIs(m, h, p, len);
    JoinOk(m2, m3, use, lists', minShift, {p} + {h}, h, p, use[p].len);
    SameJoinInto(m, m1, m3, use, h, p);
  }

  lemma AbsorbedIs(m: Mem, h: nat, p: nat, len: word)
    requires h < |m.pages| && p < |m.pages| && p != h && m.Has(m.pages[h].prev) && m.Has(m.pages[h].next)
    requires |Unlinked(m, h).pages| == |m.pages|
    ensures var m1 := Unlinked(m, h);
            var m2 := m1.(pages := m1.pages[h := m1.pages[h].(slab := len)]);
            AbsorbedInto(m, h, p, len) == m2.(pages := m2.pages[p := Page(PAGE_FREE, Null, Null, Whole)])
  {
  }

  lemma AbsorbFacts(m: Mem, use: seq<Use>, lists: Lists, minShift: nat, h: nat, p: nat)
    requires Ok(m, use, lists, minShift, {p}) && FreeHead(use, p) && FreeHead(use, h) && p == h + use[h].len
    requires p + use[p].len <= |use|
    ensures Layout(use) && use[h].len + use[p].len < PAGE_START && |m.pages| == |use| && Free in lists && 0 < use[p].len
  {
    assert Fits(use, p) && Fits(use, h);
  }

  lemma SameJoinInto(m: Mem, m1: Mem, m2: Mem, use: seq<Use>, h: nat, p: nat)
    requires SameElsewhere(m, m1, use, use, 0, 0)
    requires |m2.pages| == |m1.pages| && forall i: nat :: i < |m1.pages| && i != h && i != p ==>
             m2.pages[i] == m1.pages[i]
    requires Layout(use) && FreeHead(use, h) && p == h + use[h].len && FreeHead(use, p) && p + use[p].len <= |use|
    ensures SameElsewhere(m, m2, use, WithRun(use, h, p + use[p].len - h, true), p, use[p].len)
  {
    assert Fits(use, p) && Fits(use, h);
  }

  /** The page behind a free run starts a run of its own, or is a page of chunks. */
  lemma AfterRun(use: seq<Use>, h: nat, e: nat)
    requires Layout(use) && FreeHead(use, h) && e == h + use[h].len < |use|
    ensures !use[e].Body?
    ensures Apart(use, {}) ==> Taken(use[e])
  {
    assert Fits(use, e) && Fits(use, h);
    var g := if use[e].Body? then use[e].head else h;
    assert Fits(use, g) && g <= e - 1;
    assert g < e - 1 ==> use[e - 1] == Body(use[g].free, g);
    assert h < e - 1 ==> use[e - 1] == Body(true, h);
    if Apart(use, {}) {
      assert !FreeHead(use, h + use[h].len);
    }
  }
}
