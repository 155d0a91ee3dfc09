/** The slab allocator of `ngx_slab.c`, in place on its page descriptors. */
module SlabPool {
  import opened Words
  import opened Sequences
  import opened SlabList
  import opened SlabRuns
  import opened SlabSteps
  import opened Arith
  import opened Bits
  import opened SlabChunks
  import opened SlabBlocks
  import opened SlabCuts
  import opened SlabScan

  predicate Short(use: seq<Use>, p: nat, n: nat) { FreeHead(use, p) && use[p].len < n }

  /** Pages [s, s + n) are all free. */
  ghost predicate FreeWindow(use: seq<Use>, s: nat, n: nat) {
    s + n <= |use| && forall i :: s <= i < s + n ==> !use[i].Chunks? && use[i].free
  }

  /** The slot lists have the same members, but for `page`. */
  ghost predicate SlotMembers(lists: Lists, lists': Lists, page: nat) {
    && lists'.Keys == lists.Keys
    && forall c <- lists :: c.Slot? ==> forall p: nat :: p in lists'[c] <==> p in lists[c] && p != page
  }

  class SlabPool {
    const pages: array<Page>
    const slots: array<Page>
    const memory: array<word>
    const stats: array<Stat>
    var free: Page
    var pfree: nat
    const minShift: nat
    /** The end of the pool's memory, counted from the first page. */
    const end: nat
    ghost var use: seq<Use>
    ghost var lists: Lists
    ghost var live: Live

    ghost function View(): Mem
      reads this`free, pages, slots
    {
      Mem(pages[..], slots[..], free)
    }

    ghost predicate PagesOk(afloat: set<nat>)
      reads this, pages, slots
    {
      pages != slots && Ok(View(), use, lists, minShift, afloat)
    }

    /** ngx_slab_init(): the memory [base, limit) behind the pool's header holds the heads of the
        slot lists, the statistics, the descriptors of the pages, and the pages. */
    constructor (base: nat, limit: nat, minShift: nat)
      requires minShift < PAGE_SHIFT && base + HeadSize(minShift) <= limit < WORD_SIZE
      requires PagesStart(base, limit, minShift) <= limit && PageCount(base, limit, minShift) > 0
      ensures PoolOk() && this.minShift == minShift
      ensures pages.Length == pfree == PageCount(base, limit, minShift)
      ensures end == limit - PagesStart(base, limit, minShift) && PAGE_SIZE * pages.Length <= end
      ensures forall a: nat :: BlockAt(use, live, a) == 0
      ensures fresh(pages) && fresh(slots) && fresh(memory) && fresh(stats)
    {
      PagesFit(base, limit, minShift);
      var n, slotCount := PageCount(base, limit, minShift), PAGE_SHIFT - minShift;
      this.minShift := minShift;
      slots := new Page[slotCount](i requires 0 <= i => Page(0, Slot(i), Null, Whole));
      stats := new Stat[slotCount](i => Stat(0, 0, 0, 0));
      pages := new Page[n](i => Page(PAGE_FREE, Null, Null, Whole));
      memory := new word[PAGE_WORDS * n];
      free := Page(0, At(0), Null, Whole);
      pfree := n;
      end := limit - PagesStart(base, limit, minShift);
      use := FreshUse(n);
      lists := FreshLists(slotCount);
      live := seq(n, i => {});
      new;
      pages[0] := Page(n, Free, Free, Whole);
      hide Ok, Chunked, FreeCount, Counted, BlockAt;
      FreshOk(View(), use, lists, minShift, n);
      FreshChunked(View(), memory[..], stats[..], use, lists, live, minShift, n);
    }

    function Get(r: Ref): Page
      requires match r
               case Null => false
               case Free => true
               case Slot(i) => i < slots.Length
               case At(p) => p < pages.Length
      reads this`free, pages, slots
    {
      match r
      case Free => free
      case Slot(i) => slots[i]
      case At(p) => pages[p]
    }

    method Put(r: Ref, page: Page)
      requires View().Has(r) && pages != slots
      modifies this`free, pages, slots
      ensures View() == old(View()).Put(r, page)
    {
      match r
      case Free => free := page;
      case Slot(i) => slots[i] := page;
      case At(p) => pages[p] := page;
    }

    method SetNext(r: Ref, next: Ref)
      requires View().Has(r) && pages != slots
      modifies this`free, pages, slots
      ensures View() == old(View()).SetNext(r, next)
    {
      Put(r, Get(r).(next := next));
    }

    method SetPrev(r: Ref, prev: Ref, kind: Kind)
      requires View().Has(r) && pages != slots
      modifies this`free, pages, slots
      ensures View() == old(View()).SetPrev(r, prev, kind)
    {
      Put(r, Get(r).(prev := prev, kind := kind));
    }

    /** Unlink a page from the list it is on. */
    method Unlink(p: nat)
      requires pages != slots && p < pages.Length
      requires View().Has(View().pages[p].prev) && View().Has(View().pages[p].next)
      modifies this`free, pages, slots
      ensures View() == Unlinked(old(View()), p)
    {
      var prev := pages[p].prev;
      SetNext(prev, pages[p].next);
      SetPrev(pages[p].next, pages[p].prev, pages[p].kind);
    }

    /** ngx_slab_alloc_pages(): the first run on the free list that is long enough, cut to size. */
    method AllocPages(n: nat) returns (r: Ref)
      requires PagesOk({}) && 0 < n < PAGE_START
      requires pfree == FreeCount(use, |use|)
      modifies this`free, this`pfree, this`use, this`lists, pages, slots
      ensures PagesOk({}) && pfree == FreeCount(use, |use|)
      ensures r.Null? || r.At?
      ensures r.Null? ==> View() == old(View()) && use == old(use) && lists == old(lists) &&
                          forall s: nat :: !FreeWindow(use, s, n)
      ensures r.At? ==>
                && FreeWindow(old(use), r.page, n) && pfree == old(pfree) - n
                && use[r.page] == Head(false, n)
                && (forall i :: r.page < i < r.page + n ==> use[i] == Body(false, r.page))
                && SameElsewhere(old(View()), View(), old(use), use, r.page, n)
                && slots[..] == old(slots[..]) && lists == old(lists)[Free := lists[Free]]
    {
      assert View().Has(Free) && Free in lists && Listed(View(), Free, lists[Free]);
      var page := free.next;
      ghost var k := 0;
      ghost var l := lists[Free];
      while page != Free
        invariant k <= |l| && page == Link(Free, l, k)
        invariant forall j :: 0 <= j < k ==> Short(use, l[j], n)
        invariant View() == old(View()) && use == old(use) && lists == old(lists) && pfree == old(pfree) && PagesOk({})
        decreases |l| - k
      {
        Listing(k);
        var p := page.page;
        if pages[p].slab >= n {
          TakePages(p, n, k);
          pfree := pfree - n;
          return At(p);
        }
        page := pages[p].next;
        k := k + 1;
      }
      NoWindow(View(), use, lists, minShift, n);
      return Null;
    }

    /** The page at place `k` of the free list heads a free run and says how long it is. */
    lemma Listing(k: nat)
      requires PagesOk({}) && Free in lists && k < |lists[Free]|
      ensures var p := lists[Free][k];
              FreeHead(use, p) && p < pages.Length && pages[p].slab == use[p].len && p + use[p].len <= |use| &&
              pages[p].next == Link(Free, lists[Free], k + 1)
    {
      var p := lists[Free][k];
      assert p in lists[Free];
      assert Placed(View(), Free, lists[Free], k);
      assert Encodes(View(), use, {}, p) && Fits(use, p);
    }

    method TakePages(p: nat, n: nat, ghost k: nat)
      requires PagesOk({}) && Free in lists && k < |lists[Free]| && p == lists[Free][k] && 0 < n < PAGE_START
      requires FreeHead(use, p) && n <= use[p].len && p + use[p].len <= |use| && p < pages.Length
               && pages[p].slab == use[p].len
      modifies this`free, this`use, this`lists, pages, slots
      ensures PagesOk({})
      ensures FreeCount(use, |use|) == FreeCount(old(use), |use|) - n
      ensures FreeWindow(old(use), p, n)
      ensures use[p] == Head(false, n) && (forall i :: p < i < p + n ==> use[i] == Body(false, p))
      ensures SameElsewhere(old(View()), View(), old(use), use, p, n)
      ensures slots[..] == old(slots[..]) && lists == old(lists)[Free := lists[Free]]
    {
      RunIsWindow(use, p, n);
      if pages[p].slab > n {
        SplitRun(p, n, k);
      } else {
        TakeRun(p, k);
      }
      ghost var u := use;
      Occupy(p, n);
      OccupyCount(u, p, n);
    }

    /** The links rewritten when the first pages of a run are cut off. */
    method Carve(p: nat, len: nat, q: nat)
      requires pages != slots && p < q < p + len <= pages.Length && len < PAGE_START
      requires var m2 := Divided(View(), p, len, q - p); m2.Has(m2.pages[p].prev) && m2.Has(m2.pages[p].next)
      modifies this`free, pages, slots
      ensures View() == Substituted(Divided(old(View()), p, len, q - p), p, q)
    {
      SetPrev(At(p + len - 1), At(q), Whole);
      Put(At(q), pages[q].(slab := p + len - q));
      assert View() == Divided(old(View()), p, len, q - p);
      SetNext(At(q), pages[p].next);
      SetPrev(At(q), pages[p].prev, pages[p].kind);
      SetNext(pages[p].prev, At(q));
      SetPrev(pages[p].next, At(q), Whole);
    }

    /** The first `n` pages of the run at `p` leave the free list; the rest stays in their place. */
    method SplitRun(p: nat, n: nat, ghost k: nat)
      requires PagesOk({}) && Free in lists && k < |lists[Free]| && p == lists[Free][k]
      requires FreeHead(use, p) && p + use[p].len <= |use| && p < pages.Length && pages[p].slab == use[p].len
      requires 0 < n < use[p].len < PAGE_START
      modifies this`free, this`use, this`lists, pages, slots
      ensures PagesOk({p}) && use[p] == Head(true, n)
      ensures FreeCount(use, |use|) == FreeCount(old(use), |use|)
      ensures SameElsewhere(old(View()), View(), old(use), use, p, n)
      ensures slots[..] == old(slots[..]) && lists == old(lists)[Free := lists[Free]]
    {
      hide Divided, Substituted, Ok, SameElsewhere, FreeCount, WithRun, Replaced;
      ghost var m2, m', use', lists' := SplitMade(View(), use, lists, minShift, k, p, p + n);
      SplitDone(View(), m2, m', use, use', lists, lists', minShift, k, p, p + n);
      Carve(p, pages[p].slab, p + n);
      use, lists := use', lists';
    }

    method TakeRun(p: nat, ghost k: nat)
      requires PagesOk({}) && Free in lists && k < |lists[Free]| && p == lists[Free][k] && FreeHead(use, p)
               && p < pages.Length
      modifies this`free, this`lists, pages, slots
      ensures PagesOk({p})
      ensures SameElsewhere(old(View()), View(), use, use, 0, 0)
      ensures slots[..] == old(slots[..]) && lists == old(lists)[Free := lists[Free]]
    {
      ghost var m := View();
      UnlinkFreeOk(m, use, lists, minShift, {}, k);
      UnlinkFreeSame(m, use, lists, minShift, {}, k);
      hide Ok, Unlinked, SameElsewhere;
      Unlink(p);
      lists := lists[Free := Without(lists[Free], k)];
      assert {} + {p} == {p};
    }

    /** Mark the run at `p`, which is off the free list, busy. */
    method Occupy(p: nat, n: nat)
      requires PagesOk({p}) && use[p].len == n && p + n <= |use| && 0 < n < PAGE_START
      modifies this`use, pages
      ensures PagesOk({}) && use == WithRun(old(use), p, n, false)
      ensures Rewritten(old(View()), View(), p, n)
    {
      ghost var m, u := View(), use;
      pages[p] := Page(PAGE_START + n, Null, Null, Whole);
      var i := p + 1;
      while i < p + n
        invariant p < i <= p + n && use == u
        invariant Rewritten(m, View(), p, n)
        invariant pages[p] == Page(PAGE_START + n, Null, Null, Whole)
        invariant forall q :: p < q < i ==> pages[q] == Page(PAGE_BUSY, Null, Null, Whole)
      {
        pages[i] := Page(PAGE_BUSY, Null, Null, Whole);
        i := i + 1;
      }
      OccupyOk(m, View(), use, lists, minShift, {p}, p, n);
      use := WithRun(use, p, n, false);
      assert {p} - {p} == {};
    }

    /** ngx_slab_free_pages(): the run becomes free, together with the free runs beside it. */
    method FreePages(page: nat, n: nat)
      requires PagesOk({}) && pfree == FreeCount(use, |use|)
      requires RunAt(use, page, n) && Taken(use[page])
      requires use[page].Chunks? ==> OnSlot(use, lists, minShift, page)
      modifies this`free, this`pfree, this`use, this`lists, pages, slots
      ensures PagesOk({}) && pfree == FreeCount(use, |use|) == old(pfree) + n
      ensures FreeWindow(use, page, n)
      ensures SameElsewhere(old(View()), View(), old(use), use, page, n)
      ensures SlotMembers(old(lists), lists, page)
    {
      hide Ok, SameElsewhere, FreeCount, Layout, WithRun, SlotMembers, FreeWindow;
      ghost var m, u, ls := View(), use, lists;
      VacateFacts(m, u, lists, minShift, page, n);
      pfree := pfree + n;
      Vacate(page, n);
      ghost var u1, m1, ls1 := use, View(), lists;
      var extra := JoinNext(page, n - 1);
      ghost var u2, m2 := use, View();
      AfloatLayout(m2, u2, lists, minShift, page);
      var head;
      head, extra := JoinPrev(page, extra);
      ghost var u3, m3 := use, View();
      AfloatLayout(m3, u3, lists, minShift, head);
      Attach(head, extra);
      SlotMembersKept(ls, ls1, lists, page);
      FreedWindow(u3, head, page, u2[page].len, n);
      SameTransitive(m, m1, m2, u, u1, u2, page, n);
      SameShrink(m2, m3, u2, u3, page, u2[page].len, n);
      SameWiden(m3, View(), u3, page, n);
      SameTransitive(m, m2, m3, u, u2, u3, page, n);
      SameTransitive(m, m3, View(), u, u3, use, page, n);
    }

    /** A free run right before the run at `page` takes it in. */
    method JoinPrev(page: nat, extra: nat) returns (head: nat, extra': nat)
      requires PagesOk({page}) && pages[page].slab == use[page].len == extra + 1
      modifies this`free, this`use, this`lists, pages, slots
      ensures PagesOk({head}) && pages[head].slab == use[head].len == extra' + 1
      ensures head <= page && head + use[head].len == page + old(use[page].len) <= |use|
      ensures |use| == |old(use)| && (head > 0 ==> Taken(use[head - 1]))
      ensures SameElsewhere(old(View()), View(), old(use), use, page, old(use[page].len))
      ensures FreeCount(use, |use|) == FreeCount(old(use), |use|)
      ensures forall i :: page + old(use[page].len) <= i < |use| ==> use[i] == old(use[i])
      ensures lists == old(lists)[Free := lists[Free]]
    {
      hide Ok, FreeCount;
      OkSizes(View(), use, lists, minShift, {page});
      head, extra' := page, extra;
      AfterAfloat(View(), use, lists, minShift, page);
      if page > 0 {
        var join := page - 1;
        BeforeAfloat(View(), use, lists, minShift, page);
        if pages[join].kind == Whole {
          if pages[join].slab == PAGE_FREE {
            join := pages[join].prev.page;
          }
          if pages[join].next != Null {
            extra' := extra + pages[join].slab;
            MergePrev(join, page);
            head := join;
          }
        }
      }
    }

    method MergePrev(join: nat, page: nat)
      requires PagesOk({page}) && page < pages.Length && pages[page].slab == use[page].len
               && page + use[page].len <= |use|
      requires FreeHead(use, join) && join < page == join + use[join].len && pages[join].slab == use[join].len
      modifies this`free, this`use, this`lists, pages, slots
      ensures PagesOk({join}) && use == old(WithRun(use, join, page + use[page].len - join, true))
      ensures pages[join].slab == use[join].len
      ensures SameElsewhere(old(View()), View(), old(use), use, page, old(use[page].len))
      ensures lists == old(lists)[Free := lists[Free]]
      ensures FreeCount(use, |use|) == FreeCount(old(use), |use|)
    {
      hide Ok, Unlinked, SameElsewhere, FreeCount, WithRun, AbsorbedInto, Layout, Apart;
      AfterAfloat(View(), use, lists, minShift, page);
      ghost var k := PlaceOf(View(), use, lists, minShift, page, join);
      AbsorbIntoOk(View(), use, lists, minShift, join, page, k);
      MergePrevFacts(View(), use, lists, minShift, join, page, k);
      MoveInto(join, page, pages[join].slab + pages[page].slab);
      use, lists := WithRun(use, join, page + use[page].len - join, true), lists[Free := Without(lists[Free], k)];
    }

    method MoveInto(join: nat, page: nat, len: word)
      requires pages != slots && join < pages.Length && page < pages.Length && join != page
      requires var m := View(); m.Has(m.pages[join].prev) && m.Has(m.pages[join].next)
      requires pages[join].prev != At(join) && pages[join].next != At(join)
               && |Unlinked(View(), join).pages| == |View().pages|
      modifies this`free, pages, slots
      ensures View() == AbsorbedInto(old(View()), join, page, len)
      ensures pages[join].slab == len
    {
      SlabCommutes(View(), join, len);
      ghost var m := View();
      pages[join] := pages[join].(slab := len);
      assert View() == m.(pages := m.pages[join := m.pages[join].(slab := len)]);
      hide Unlinked;
      Unlink(join);
      pages[page] := Page(PAGE_FREE, Null, Null, Whole);
    }

    /** The finished run gets its back pointer and goes to the front of the free list. */
    method Attach(page: nat, extra: nat)
      requires PagesOk({page}) && page < pages.Length && pages[page].slab == use[page].len == extra + 1
      requires page + use[page].len <= |use|
      requires page > 0 ==> Taken(use[page - 1])
      requires page + use[page].len < |use| ==> Taken(use[page + use[page].len])
      modifies this`free, this`lists, pages, slots
      ensures PagesOk({}) && SameElsewhere(old(View()), View(), use, use, 0, 0)
      ensures lists == old(lists)[Free := lists[Free]]
    {
      hide Ok, Pushed, SameElsewhere, Apart, Taken;
      ghost var m := View();
      AfloatHead(m, use, lists, minShift, page);
      AttachFacts(m, use, lists, minShift, page);
      if extra > 0 {
        PointBack(page, extra);
      }
      ghost var m1 := View();
      PushFreeOk(m1, use, lists, minShift, {page}, page);
      PushFreeSame(m, m1, use, lists, minShift, page);
      Push(Free, page, Whole);
      lists := lists[Free := [page] + lists[Free]];
      assert {page} - {page} == {};
    }

    /** The last page of the run at `page` gets its pointer to the head. */
    method PointBack(page: nat, extra: nat)
      requires PagesOk({page}) && page + extra < |use| && use[page + extra] == Body(true, page)
      modifies this`free, pages, slots
      ensures PagesOk({page}) && slots[..] == old(slots[..]) && free == old(free)
      ensures pages[page + extra].prev == At(page) && pages[page] == old(pages[page])
      ensures forall i: nat :: i < |use| && Taken(use[i]) ==> pages[i] == old(pages[i])
    {
      BackLinkWriteOk(View(), use, lists, minShift, {page}, page, page + extra);
      SetPrev(At(page + extra), At(page), Whole);
    }

    /** Link a page in at the front of a list. */
    method Push(c: Ref, p: nat, kind: Kind)
      requires pages != slots && IsHead(c) && View().Has(c) && p < pages.Length && View().Has(View().Get(c).next)
      modifies this`free, pages, slots
      ensures View() == Pushed(old(View()), c, p, kind)
    {
      SetPrev(At(p), c, kind);
      SetNext(At(p), Get(c).next);
      SetPrev(pages[p].next, At(p), kind);
      SetNext(c, At(p));
    }

    /** The pages of the run are wiped, and a page of chunks leaves its slot's list. */
    method Vacate(page: nat, n: nat)
      requires PagesOk({}) && RunAt(use, page, n) && Taken(use[page])
      requires use[page].Chunks? ==> OnSlot(use, lists, minShift, page)
      modifies this`free, this`use, this`lists, pages, slots
      ensures PagesOk({page}) && use == WithRun(old(use), page, n, true) && pages[page].slab == n
      ensures SameElsewhere(old(View()), View(), old(use), use, page, n)
      ensures SlotMembers(old(lists), lists, page)
    {
      ghost var m, u, ls := View(), use, lists;
      pages[page] := pages[page].(slab := n);
      var i := page + 1;
      while i < page + n
        invariant page < i <= page + n && use == u && lists == ls && slots[..] == m.slots && free == m.free
        invariant Rewritten(m, View(), page, n)
        invariant pages[page] == m.pages[page].(slab := n)
        invariant forall q :: page < q < i ==> pages[q] == Page(PAGE_FREE, Null, Null, Whole)
      {
        pages[i] := Page(PAGE_FREE, Null, Null, Whole);
        i := i + 1;
      }
      NextTells(m, use, lists, minShift, page);
      if pages[page].next != Null {
        UnlinkChunks(page, m, n);
      } else {
        BusyUnlisted(m, use, lists, minShift, page);
        VacateOk(m, View(), use, lists, minShift, {}, page, n);
        use := WithRun(use, page, n, true);
      }
      assert {} + {page} == {page};
    }

    /** The step of `Vacate` for a page of chunks, whose first word has been overwritten. */
    method UnlinkChunks(page: nat, ghost m: Mem, n: nat)
      requires pages != slots && Ok(m, use, lists, minShift, {}) && RunAt(use, page, n) && Taken(use[page])
      requires use[page].Chunks? && OnSlot(use, lists, minShift, page)
      requires View() == m.(pages := m.pages[page := m.pages[page].(slab := n)])
      modifies this`free, this`use, this`lists, pages, slots
      ensures PagesOk({page}) && use == WithRun(old(use), page, n, true) && pages[page].slab == n
      ensures SameElsewhere(m, View(), old(use), use, page, n)
      ensures SlotMembers(old(lists), lists, page)
    {
      ghost var lists' := UnlinkChunksOk(m, View(), use, lists, minShift, page, n);
      hide Ok, SameElsewhere, SlotMembers, WithRun, Unlinked, RunAt;
      Unlink(page);
      use, lists := WithRun(use, page, n, true), lists';
    }

    /** A free run right behind the run at `page` is added to it. */
    method JoinNext(page: nat, extra: nat) returns (extra': nat)
      requires PagesOk({page}) && pages[page].slab == use[page].len == extra + 1
      modifies this`free, this`use, this`lists, pages, slots
      ensures PagesOk({page}) && pages[page].slab == use[page].len == extra' + 1 && page + use[page].len <= |use|
      ensures old(use[page].len) <= use[page].len
      ensures page + use[page].len < |use| ==> Taken(use[page + use[page].len])
      ensures SameElsewhere(old(View()), View(), old(use), use, page, old(use[page].len))
      ensures FreeCount(use, |use|) == FreeCount(old(use), |use|)
      ensures forall i :: 0 <= i < page ==> use[i] == old(use[i])
      ensures lists == old(lists)[Free := lists[Free]]
    {
      hide Ok, FreeCount;
      OkSizes(View(), use, lists, minShift, {page});
      extra' := extra;
      AfterAfloat(View(), use, lists, minShift, page);
      if page + use[page].len < |use| && FreeHead(use, page + use[page].len) {
        BehindFree(View(), use, lists, minShift, page, page + use[page].len);
      }
      var join := page + pages[page].slab;
      if join < pages.Length {
        Decode(View(), use, lists, minShift, {page}, join);
        if pages[join].kind == Whole {
          if pages[join].next != Null {
            extra' := extra + pages[join].slab;
            MergeNext(page, join);
          }
        }
      }
    }

    method MergeNext(page: nat, join: nat)
      requires PagesOk({page}) && page < pages.Length && pages[page].slab == use[page].len
      requires join == page + use[page].len < pages.Length && FreeHead(use, join)
      modifies this`free, this`use, this`lists, pages, slots
      ensures PagesOk({page}) && pages[page].slab == use[page].len == old(use[page].len + use[join].len)
      ensures page + use[page].len <= |use|
      ensures page + use[page].len < |use| ==> Taken(use[page + use[page].len])
      ensures SameElsewhere(old(View()), View(), old(use), use, page, old(use[page].len))
      ensures FreeCount(use, |use|) == FreeCount(old(use), |use|)
      ensures forall i :: 0 <= i < page ==> use[i] == old(use[i])
      ensures lists == old(lists)[Free := lists[Free]]
    {
      hide Ok, SameElsewhere, FreeCount, WithRun, Taken;
      ghost var m, u := View(), use;
      AfloatHead(m, u, lists, minShift, page);
      MergeFacts(m, u, lists, minShift, page, join);
      Lengthen(page, pages[page].slab + pages[join].slab);
      ghost var m1 := View();
      Absorb(page, join);
      SameBeforeWrite(m, m1, View(), u, use, page, join - page);
    }

    /** The length of a run afloat is changed in its descriptor. */
    method Lengthen(page: nat, len: word)
      requires PagesOk({page}) && page < pages.Length && page < |use|
      modifies pages
      ensures PagesOk({page}) && View() == old(View().(pages := View().pages[page := View().pages[page].(slab := len)]))
    {
      hide Ok;
      ghost var m := View();
      SlabWriteOk(m, use, lists, minShift, {page}, page, len);
      pages[page] := pages[page].(slab := len);
      assert View() == m.(pages := m.pages[page := m.pages[page].(slab := len)]);
    }

    method Absorb(page: nat, join: nat)
      requires PagesOk({page}) && page < pages.Length && FreeHead(use, page) && FreeHead(use, join)
      requires join == page + use[page].len < pages.Length && join + use[join].len <= |use| && page != join
      modifies this`free, this`use, this`lists, pages, slots
      ensures PagesOk({page}) && use == old(WithRun(use, page, join + use[join].len - page, true))
      ensures pages[page].slab == old(pages[page].slab)
      ensures SameElsewhere(old(View()), View(), old(use), use, page, join - page)
      ensures lists == old(lists)[Free := lists[Free]]
    {
      hide Ok, Unlinked, SameElsewhere, WithRun;
      OkSizes(View(), use, lists, minShift, {page});
      ghost var m, ls := View(), lists;
      ghost var k := PlaceOf(m, use, lists, minShift, page, join);
      AbsorbOk(m, use, lists, minShift, page, join, k);
      Unlink(join);
      pages[join] := Page(PAGE_FREE, Null, Null, Whole);
      assert View() == Absorbed(m, join);
      use, lists := WithRun(use, page, join + use[join].len - page, true), ls[Free := Without(ls[Free], k)];
    }

    // ----- chunks

    /** The pages and the chunks are in order, and `pfree` counts the free pages. */
    ghost predicate Sound()
      reads this, pages, slots, memory
    {
      PagesOk({}) && pfree == FreeCount(use, |use|) && Chunked(View(), memory[..], use, lists, live, minShift)
    }

    /** The page of chunks `p`, now full, leaves its slot's list. */
    method Detach(p: nat, kind: Kind)
      requires PagesOk({}) && p < |use| && OnSlot(use, lists, minShift, p) && kind == KindOf(use[p].shift)
      modifies this`free, this`lists, pages, slots
      ensures PagesOk({}) && !OnSlot(use, lists, minShift, p) && SameMembersBut(old(lists), lists, p)
      ensures SameElsewhere(old(View()), View(), use, use, p, 1)
      ensures pages[p].slab == old(pages[p].slab) && pages[p].next == Null
    {
      ghost var m := View();
      ghost var lists' := DetachOk(m, use, lists, minShift, p);
      hide Ok, SameElsewhere, SameMembersBut, Unlinked;
      Unlink(p);
      ghost var m1 := View();
      pages[p] := pages[p].(next := Null);
      pages[p] := pages[p].(prev := Null, kind := kind);
      assert View() == Detached(m1, p);
      lists := lists';
    }

    /** All pages are in order but `p`, whose marks are right while its place may not be. */
    ghost predicate Unsettled(p: nat, shift: nat)
      reads this, pages, slots, memory
    {
      && PagesOk({}) && pfree == FreeCount(use, |use|)
      && ChunkedBut(View(), memory[..], use, lists, live, minShift, p)
      && p < |use| && use[p] == Chunks(shift) && minShift <= shift < PAGE_SHIFT
      && Cut(pages[p].slab, PageWords(memory[..], p), shift, live[p])
      && OnSlot(use, lists, minShift, p)
    }

    /** A page that has become full leaves its slot's list. */
    method Settle(p: nat, shift: nat, full: bool)
      requires Unsettled(p, shift) && live[p] != {} && (full <==> Full(shift, live[p]))
      modifies this`free, this`lists, pages, slots
      ensures Sound()
    {
      hide Ok, Cut, Full, FreeCount, PageWords, SameElsewhere, SameMembersBut, OnSlot;
      ghost var m, ls := View(), lists;
      if full {
        Detach(p, KindOf(shift));
        DetachChunked(m, View(), memory[..], use, ls, lists, live, minShift, p, shift);
      } else {
        StayChunked(m, memory[..], use, ls, live, minShift, p, shift);
      }
    }

    /** A chunk of a page with small chunks. */
    method TakeSmall(p: nat, shift: nat) returns (c: nat)
      requires Sound() && p < |use| && use[p] == Chunks(shift) && shift < EXACT_SHIFT && OnSlot(use, lists, minShift, p)
      modifies this`free, this`lists, this`live, pages, slots, memory
      ensures Sound() && c < Count(shift) && c !in old(live)[p] && live == old(live)[p := old(live)[p] + {c}]
      ensures OnlyMap(old(memory[..]), memory[..], p, shift)
    {
      hide Ok, Chunked, FreeCount, Count, Reserved, MapWords, Pow2, Or, PageWords, Cut, Full, Bit, OnSlot;
      ghost var m, words := View(), memory[..];
      InOrder(m, words, use, lists, live, minShift, p, shift);
      SmallFacts(m, words, use, lists, live, minShift, p, shift);
      var n, i := FindSmall(memory, p, shift);
      c := 64 * n + i;
      FreeSmall(m, words, use, lists, live, minShift, p, shift, n, i);
      memory[PAGE_WORDS * p + n] := Or(memory[PAGE_WORDS * p + n], Power(i));
      SmallMarked(words, memory[..], p, shift, n, i);
      MarkedSlab(m, words, memory[..], use, lists, live, minShift, p, shift, c);
      live := live[p := live[p] + {c}];
      FullSmall(m.pages[p].slab, PageWords(memory[..], p), shift, live[p]);
      var full := false;
      WordBusy(memory[..], p, n);
      if memory[PAGE_WORDS * p + n] == BUSY {
        full := RestBusy(memory, p, n + 1, MapWords(shift));
      }
      Settle(p, shift, full);
    }

    /** Mark chunk `c` in the descriptor of page `p`. */
    method MarkPage(p: nat, shift: nat, c: nat, m: word)
      requires Sound() && p < |use| && use[p] == Chunks(shift) && EXACT_SHIFT <= shift < PAGE_SHIFT
      requires Reserved(shift) <= c < Count(shift) && c !in live[p] && OnSlot(use, lists, minShift, p)
      requires m == Power(if shift == EXACT_SHIFT then c else MAP_SHIFT + c)
      modifies this`live, pages
      ensures Unsettled(p, shift) && live == old(live)[p := old(live)[p] + {c}]
    {
      ghost var v, words := View(), memory[..];
      InOrder(v, words, use, lists, live, minShift, p, shift);
      hide Ok, Chunked, ChunkedBut, FreeCount, Count, Reserved, Pow2, Or, PageWords, Cut, OnSlot, Full;
      MarkWord(v.pages[p].slab, shift, c);
      SlabWriteOk(v, use, lists, minShift, {}, p, MarkSlab(v.pages[p].slab, shift, c));
      MarkChunked(v, words, words, use, lists, live, minShift, p, shift, c);
      pages[p] := pages[p].(slab := Or(pages[p].slab, m));
      assert View() == Reworded(v, p, MarkSlab(v.pages[p].slab, shift, c));
      live := live[p := live[p] + {c}];
    }

    /** A chunk of a page with chunks of 64 bytes. */
    method TakeExact(p: nat) returns (c: nat)
      requires Sound() && p < |use| && use[p] == Chunks(EXACT_SHIFT) && OnSlot(use, lists, minShift, p)
      modifies this`free, this`lists, this`live, pages, slots
      ensures Sound() && c < Count(EXACT_SHIFT) && c !in old(live)[p] && live == old(live)[p := old(live)[p] + {c}]
    {
      ExactFacts(View(), memory[..], use, lists, live, minShift, p);
      hide Ok, Chunked, ChunkedBut, FreeCount, Count, Reserved, Pow2, Or, PageWords, Cut, OnSlot, Full, Bit;
      c := LowestClear(pages[p].slab);
      MarkPage(p, EXACT_SHIFT, c, Power(c));
      FullExact(pages[p].slab, PageWords(memory[..], p), live[p]);
      Settle(p, EXACT_SHIFT, pages[p].slab == BUSY);
    }

    /** A chunk of a page with larger chunks. */
    method TakeBig(p: nat, shift: nat) returns (c: nat)
      requires Sound() && p < |use| && use[p] == Chunks(shift) && EXACT_SHIFT < shift < PAGE_SHIFT
      requires OnSlot(use, lists, minShift, p)
      modifies this`free, this`lists, this`live, pages, slots
      ensures Sound() && c < Count(shift) && c !in old(live)[p] && live == old(live)[p := old(live)[p] + {c}]
    {
      BigFacts(View(), memory[..], use, lists, live, minShift, p, shift);
      hide Ok, Chunked, ChunkedBut, FreeCount, Count, Reserved, Pow2, Or, PageWords, Cut, OnSlot, Full, Bit, And,
          MapMask;
      c := FindBig(pages[p].slab, shift);
      MarkPage(p, shift, c, Power(MAP_SHIFT + c));
      FullBig(pages[p].slab, PageWords(memory[..], p), shift, live[p]);
      Settle(p, shift, And(pages[p].slab, MAP_MASK) == MapMask(shift));
    }

    /** Word `i` of the bitmap of a page about to be cut into small chunks, of which `n` are taken. */
    method FillWord(p: nat, shift: nat, n: nat, i: nat, v: word, ghost words: seq<word>)
      requires PAGE_WORDS * p + PAGE_WORDS <= memory.Length && shift < EXACT_SHIFT
      requires i < MapWords(shift) <= PAGE_WORDS && v == FilledWord(n, i)
      requires MapFilled(words, memory[..], p, shift, n, i)
      modifies memory
      ensures MapFilled(words, memory[..], p, shift, n, i + 1)
    {
      hide MapWords;
      SetWordAt(memory[..], p, i, v);
      memory[PAGE_WORDS * p + i] := v;
    }

    /** The bitmap of a page about to be cut into small chunks. */
    method FillMap(p: nat, shift: nat)
      requires PAGE_WORDS * p + PAGE_WORDS <= memory.Length && shift < EXACT_SHIFT
      modifies memory
      ensures SameWordsBut(old(memory[..]), memory[..], p) && FreshMap(PageWords(memory[..], p), shift)
      ensures OnlyMap(old(memory[..]), memory[..], p, shift)
    {
      hide MapWords, OnesBelow, Reserved, MapFilled, FreshMap, PageWords, OnlyMap, SameWordsBut;
      var n := Reserved(shift);
      ghost var words := memory[..];
      MapRoom(shift);
      MapUnchanged(words, p, shift, n + 1);
      var i := 0;
      while i < (n + 1) / 64
        invariant i <= (n + 1) / 64 < MapWords(shift) && MapFilled(words, memory[..], p, shift, n + 1, i)
      {
        FillWord(p, shift, n + 1, i, BUSY, words);
        i := i + 1;
      }
      FillWord(p, shift, n + 1, i, OnesBelow((n + 1) % 64), words);
      i := i + 1;
      while i < MapWords(shift)
        invariant (n + 1) / 64 < i <= MapWords(shift) && MapFilled(words, memory[..], p, shift, n + 1, i)
      {
        FillWord(p, shift, n + 1, i, 0, words);
        i := i + 1;
      }
      MapDone(words, memory[..], p, shift);
    }

    /** The page becomes the only one on its slot's list. */
    method LinkFresh(p: nat, slot: nat, slab: word, kind: Kind)
      requires pages != slots && p < pages.Length && slot < slots.Length
      modifies pages, slots
      ensures View() == FreshPage(old(View()), p, slot, slab, kind)
    {
      pages[p] := Page(slab, Slot(slot), Slot(slot), kind);
      slots[slot] := slots[slot].(next := At(p));
    }

    /** A busy page is cut into chunks, and the first usable one is handed out. */
    method CutPage(p: nat, shift: nat) returns (c: nat)
      requires Sound() && p < |use| && use[p] == Head(false, 1) && minShift <= shift < PAGE_SHIFT
      requires Slot(shift - minShift) in lists && lists[Slot(shift - minShift)] == []
      modifies this`use, this`lists, this`live, pages, slots, memory
      ensures Sound() && c == Reserved(shift) && OnlyMap(old(memory[..]), memory[..], p, shift)
      ensures use == old(use)[p := Chunks(shift)] && live == old(live)[p := {c}]
    {
      hide Ok, Chunked, FreeCount, Count, Pow2, PageWords, Cut, Reserved, SameWordsBut, FreshPage;
      ghost var m, words := View(), memory[..];
      CutFacts(m, words, use, lists, live, minShift, p, shift - minShift);
      ghost var slab := DressPage(p, shift);
      c := Reserved(shift);
      ghost var use', lists', live' := CutDone(m, View(), words, memory[..], use, lists, live, minShift, p,
              shift - minShift, slab);
      use, lists, live := use', lists', live';
    }

    /** The descriptor and the bitmap of a page about to be cut. */
    method DressPage(p: nat, shift: nat) returns (ghost slab: word)
      requires pages != slots && p < pages.Length && PAGE_WORDS * p + PAGE_WORDS <= memory.Length
      requires minShift <= shift < PAGE_SHIFT && shift - minShift < slots.Length
      modifies pages, slots, memory
      ensures View() == FreshPage(old(View()), p, shift - minShift, slab, KindOf(shift))
      ensures SameWordsBut(old(memory[..]), memory[..], p)
              && Cut(slab, PageWords(memory[..], p), shift, {Reserved(shift)})
      ensures OnlyMap(old(memory[..]), memory[..], p, shift)
    {
      hide Count, Pow2, Or, PageWords, Cut, FreshMap, MapWords;
      var slot := shift - minShift;
      if shift < EXACT_SHIFT {
        FillMap(p, shift);
        FreshSmall(PageWords(memory[..], p), shift);
        slab := shift;
        LinkFresh(p, slot, shift, Small);
      } else if shift == EXACT_SHIFT {
        FreshExact(PageWords(memory[..], p));
        slab := 1;
        LinkFresh(p, slot, 1, Exact);
      } else {
        FreshBig(PageWords(memory[..], p), shift);
        slab := FreshWord(shift);
        LinkFresh(p, slot, Or(Shl(1, MAP_SHIFT), shift), Big);
      }
    }

    /** A full page gets back on its slot's list. */
    method Relink(p: nat, shift: nat)
      requires Sound() && p < |use| && use[p] == Chunks(shift) && !OnSlot(use, lists, minShift, p)
      modifies this`free, this`lists, pages, slots
      ensures Unsettled(p, shift) && pages[p].slab == old(pages[p].slab)
    {
      hide Ok, Chunked, ChunkedBut, FreeCount, Count, Pow2, PageWords, Cut, Pushed, OnSlot, KindOf;
      ghost var m := View();
      RelinkFacts(m, memory[..], use, lists, live, minShift, p, shift);
      PushAgain(shift - minShift, p, KindOf(shift));
      ghost var lists' := RelinkOk(m, View(), memory[..], use, lists, live, minShift, p, shift - minShift);
      lists := lists';
    }

    /** Link a page in at the front of a slot's list, in the order ngx_slab_free_locked() does. */
    method PushAgain(slot: nat, p: nat, kind: Kind)
      requires pages != slots && slot < slots.Length && p < pages.Length && slots[slot].next != At(p)
               && View().Has(slots[slot].next)
      modifies this`free, pages, slots
      ensures View() == Pushed(old(View()), Slot(slot), p, kind)
    {
      ghost var m := View();
      pages[p] := pages[p].(next := slots[slot].next);
      slots[slot] := slots[slot].(next := At(p));
      pages[p] := pages[p].(prev := Slot(slot), kind := kind);
      SetPrev(pages[p].next, At(p), kind);
      RelinkPushed(m, View(), slot, p, kind);
    }

    /** Clear the mark of chunk `c` in the descriptor of page `p`. */
    method ClearPage(p: nat, shift: nat, c: nat, m: word)
      requires Unsettled(p, shift) && EXACT_SHIFT <= shift && c in live[p]
      requires m == Power(if shift == EXACT_SHIFT then c else MAP_SHIFT + c)
      modifies this`live, pages
      ensures Unsettled(p, shift) && live == old(live)[p := old(live)[p] - {c}]
    {
      ghost var v, words := View(), memory[..];
      LiveRange(v.pages[p].slab, PageWords(words, p), shift, live[p], c);
      hide Ok, Chunked, ChunkedBut, FreeCount, Count, Reserved, Pow2, And, Not, PageWords, Cut, OnSlot, Full;
      ClearWord(v.pages[p].slab, shift, c);
      SlabWriteOk(v, use, lists, minShift, {}, p, ClearSlab(v.pages[p].slab, shift, c));
      ClearChunked(v, words, words, use, lists, live, minShift, p, shift, c);
      pages[p] := pages[p].(slab := And(pages[p].slab, Not(m)));
      assert View() == Reworded(v, p, ClearSlab(v.pages[p].slab, shift, c));
      live := live[p := live[p] - {c}];
    }

    /** Clear the mark of chunk 64n + i in the bitmap of page `p`. */
    method ClearSmall(p: nat, shift: nat, n: nat, i: nat)
      requires Unsettled(p, shift) && shift < EXACT_SHIFT && i < 64 && 64 * n + i in live[p]
      modifies this`live, memory
      ensures Unsettled(p, shift) && live == old(live)[p := old(live)[p] - {64 * n + i}]
      ensures OnlyMap(old(memory[..]), memory[..], p, shift)
    {
      hide Ok, Chunked, ChunkedBut, FreeCount, Count, Reserved, MapWords, Pow2, And, Not, PageWords, Cut, OnSlot, Full;
      ghost var v, words, c := View(), memory[..], 64 * n + i;
      UnsettledSizes(v, words, use, lists, live, minShift, p);
      LiveRange(v.pages[p].slab, PageWords(words, p), shift, live[p], c);
      memory[PAGE_WORDS * p + n] := And(memory[PAGE_WORDS * p + n], Not(Power(i)));
      SmallCleared(words, memory[..], p, shift, n, i);
      ClearChunked(v, words, memory[..], use, lists, live, minShift, p, shift, c);
      assert Reworded(v, p, v.pages[p].slab) == v;
      live := live[p := live[p] - {c}];
    }

    /** A page whose last chunk has come back becomes a free page. */
    method Release(p: nat, shift: nat, empty: bool)
      requires Unsettled(p, shift) && (empty <==> live[p] == {}) && !Full(shift, live[p])
      modifies this`free, this`pfree, this`use, this`lists, pages, slots
      ensures Sound() && TakenElsewhere(old(use), use, p, 1)
      ensures if empty then !Taken(use[p]) else use == old(use)
    {
      hide Ok, Cut, Full, FreeCount, PageWords, SameElsewhere, SlotMembers, OnSlot;
      ghost var m, u, ls := View(), use, lists;
      if empty {
        ReleaseFacts(m, u, ls, minShift, p);
        FreePages(p, 1);
        ReleasedChunked(m, View(), memory[..], u, use, ls, lists, live, minShift, p);
      } else {
        StayChunked(m, memory[..], use, ls, live, minShift, p, shift);
      }
    }

    /** Whether the bitmap of page `p` has only its own marks left. */
    method SmallEmpty(p: nat, shift: nat) returns (empty: bool)
      requires PAGE_WORDS * p + PAGE_WORDS <= memory.Length && shift < EXACT_SHIFT
      ensures empty <==> OnlyOwn(PageWords(memory[..], p), shift)
    {
      Sizes(shift);
      hide Count, Pow2, MapWords, OwnMask, Reserved, And, Not;
      var n := Reserved(shift);
      var i := n / 64;
      assert PageWords(memory[..], p)[i] == memory[PAGE_WORDS * p + i];
      if And(memory[PAGE_WORDS * p + i], Not(OwnMask(shift))) != 0 {
        return false;
      }
      i := i + 1;
      while i < MapWords(shift)
        invariant n / 64 < i <= MapWords(shift)
        invariant forall k :: n / 64 < k < i ==> PageWords(memory[..], p)[k] == 0
      {
        if memory[PAGE_WORDS * p + i] != 0 {
          assert PageWords(memory[..], p)[i] != 0;
          return false;
        }
        i := i + 1;
      }
      return true;
    }

    // ----- blocks

    /** Everything is in order, and the statistics are right. */
    ghost predicate PoolOk()
      reads this, pages, slots, memory, stats
    {
      Sound() && stats.Length == slots.Length && Counted(stats[..], use, live, minShift)
    }

    /** The shift of the chunks for requests of `size` bytes. */
    method ChunkShift(size: nat) returns (shift: nat)
      requires size <= MAX_SIZE && minShift < PAGE_SHIFT
      ensures shift == ShiftOf(size, minShift)
    {
      hide Pow2, Shifted;
      if size > Pow2(minShift) {
        shift := 1;
        var s: nat := (size - 1) / 2;
        ShiftedOnce(size - 1);
        while s != 0
          invariant 1 <= shift && Shifted(size - 1, shift, s) && Pow2(shift - 1) <= size - 1
          decreases s
        {
          ShiftedMore(size - 1, shift, s);
          shift, s := shift + 1, s / 2;
        }
        ShiftedMore(size - 1, shift, 0);
        ShiftBounds(size, minShift, shift);
      } else {
        shift := minShift;
      }
      ShiftIs(size, minShift, shift);
    }

    /** One more chunk is counted as handed out, on a page that may have been cut for it. */
    method Count1(shift: nat, ghost use0: seq<Use>, ghost live0: Live, p: nat, ghost c: nat, cut: bool)
      requires Sound() && stats.Length == slots.Length && Counted(stats[..], use0, live0, minShift)
      requires p < |use| == |use0| && use[p] == Chunks(shift)
      requires TakenElsewhere(use0, use, p, 1) && c !in live0[p] && live == live0[p := live0[p] + {c}]
      requires if cut then !Taken(use0[p]) && live0[p] == {} else use0[p] == Chunks(shift)
      modifies stats
      ensures PoolOk() && StatsElsewhere(old(stats[..]), stats[..], shift - minShift)
      ensures stats[shift - minShift].reqs == old(stats[shift - minShift].reqs)
      ensures stats[shift - minShift].fails == old(stats[shift - minShift].fails)
    {
      hide Ok, Chunked, FreeCount, Count, Reserved, Pow2, TakenElsewhere, Cut, PageWords;
      InOrder(View(), memory[..], use, lists, live, minShift, p, shift);
      SlotIn(View(), memory[..], use, lists, live, minShift, shift);
      Sizes(shift);
      var slot := shift - minShift;
      ghost var was := stats[..];
      if cut {
        stats[slot] := stats[slot].(total := stats[slot].total + Count(shift) - Reserved(shift));
      }
      stats[slot] := stats[slot].(used := stats[slot].used + 1);
      CountedMore(was, stats[..], use0, live0, use, live, minShift, p, shift, c);
    }

    /** A request, or a failure, is counted. */
    method Tick(slot: nat, request: bool)
      requires PoolOk() && slot < stats.Length
      modifies stats
      ensures PoolOk() && StatsElsewhere(old(stats[..]), stats[..], slot)
      ensures stats[slot].reqs == old(stats[slot].reqs) + if request then 1 else 0
      ensures stats[slot].fails == old(stats[slot].fails) + if request then 0 else 1
    {
      hide Ok, Chunked, FreeCount, Tallied;
      ghost var was := stats[..];
      if request {
        stats[slot] := stats[slot].(reqs := stats[slot].reqs + 1);
      } else {
        stats[slot] := stats[slot].(fails := stats[slot].fails + 1);
      }
      TicksKept(was, stats[..], use, live, minShift);
    }

    /** A chunk of a page cut for the purpose. */
    method AllocCut(shift: nat) returns (r: Option<nat>)
      requires PoolOk() && minShift <= shift < PAGE_SHIFT
      requires Slot(shift - minShift) in lists && lists[Slot(shift - minShift)] == []
      modifies this`free, this`pfree, this`use, this`lists, this`live, pages, slots, memory, stats
      ensures PoolOk() && StatsElsewhere(old(stats[..]), stats[..], shift - minShift)
      ensures stats[shift - minShift].reqs == old(stats[shift - minShift].reqs)
      ensures stats[shift - minShift].fails == old(stats[shift - minShift].fails)
      ensures BlocksKept(old(use), old(live), old(memory[..]), memory[..])
      ensures r.Some? ==> Handed(old(use), old(live), use, live, r.value, Pow2(shift))
      ensures r.None? ==> use == old(use) && live == old(live) && NoChunk(use, live, shift)
    {
      hide Ok, Chunked, FreeCount, Counted, Count, Reserved, Pow2, Full, OnSlot, SameElsewhere, TakenElsewhere,
          Handed, NoChunk, FreeWindow;
      ghost var u, lv, ls, m, words := use, live, lists, View(), memory[..];
      SlotIn(m, words, u, ls, lv, minShift, shift);
      var page := AllocPages(1);
      if page.At? {
        var p := page.page;
        NewPageFacts(m, View(), memory[..], u, use, ls, lists, lv, minShift, p);
        ghost var u1 := use;
        var c := CutPage(p, shift);
        CutTaken(u, u1, use, lv, live, p, shift, c);
        Count1(shift, u, lv, p, c, true);
        HandedChunk(u, lv, use, live, p, c, shift);
        MapAside(words, p, shift);
        KeptBefore(u, lv, use, live, ChunkAddr(p, shift, c), Pow2(shift), words, memory[..]);
        return Some(ChunkAddr(p, shift, c));
      }
      NoneLeft(m, memory[..], u, ls, lv, minShift, shift);
      return None;
    }

    /** A chunk of a page that has chunks of the right size, or of a page cut for the purpose. */
    method AllocChunk(shift: nat) returns (r: Option<nat>)
      requires PoolOk() && minShift <= shift < PAGE_SHIFT
      modifies this`free, this`pfree, this`use, this`lists, this`live, pages, slots, memory, stats
      ensures PoolOk() && StatsElsewhere(old(stats[..]), stats[..], shift - minShift)
      ensures stats[shift - minShift].reqs == old(stats[shift - minShift].reqs) + 1
      ensures stats[shift - minShift].fails == old(stats[shift - minShift].fails) + if r.None? then 1 else 0
      ensures BlocksKept(old(use), old(live), old(memory[..]), memory[..])
      ensures r.Some? ==> Handed(old(use), old(live), use, live, r.value, Pow2(shift))
      ensures r.None? ==> use == old(use) && live == old(live) && NoChunk(use, live, shift)
    {
      var slot := shift - minShift;
      hide Ok, Chunked, FreeCount, Counted, Count, Reserved, Pow2, Full, OnSlot, SameElsewhere, TakenElsewhere,
          Handed, NoChunk, FreeWindow;
      ghost var u, lv, ls, words := use, live, lists, memory[..];
      FirstListed(View(), words, u, ls, lv, minShift, slot);
      Tick(slot, true);
      var page := slots[slot].next;
      if Get(page).next != page {
        var p := page.page;
        var c := TakeChunk(p, shift);
        StillTaken(u, lv, live, p, shift, c);
        Count1(shift, u, lv, p, c, false);
        HandedChunk(u, lv, use, live, p, c, shift);
        MapAside(words, p, shift);
        KeptBefore(u, lv, use, live, ChunkAddr(p, shift, c), Pow2(shift), words, memory[..]);
        return Some(ChunkAddr(p, shift, c));
      }
      r := AllocCut(shift);
      if r.None? {
        Tick(slot, false);
      }
    }

    /** What has changed at most the bitmap of a page of chunks has left the blocks alone. */
    lemma MapAside(was: seq<word>, p: nat, shift: nat)
      requires Sound() && p < |use| && use[p] == Chunks(shift) && shift < PAGE_SHIFT && |live| == |use|
      requires OnlyMap(was, memory[..], p, shift)
      ensures BlocksKept(use, live, was, memory[..])
    {
      hide Chunked, BlocksKept, OnlyMap, FreeCount;
      MapSize(was, memory[..], p, shift);
      MapApart(View(), memory[..], use, lists, live, minShift, was, memory[..], p, shift);
    }

    /** A free chunk of page `p`, by the kind of the page. */
    method TakeChunk(p: nat, shift: nat) returns (c: nat)
      requires Sound() && p < |use| && use[p] == Chunks(shift) && shift < PAGE_SHIFT && OnSlot(use, lists, minShift, p)
      modifies this`free, this`lists, this`live, pages, slots, memory
      ensures Sound() && c < Count(shift) && c !in old(live)[p] && live == old(live)[p := old(live)[p] + {c}]
      ensures OnlyMap(old(memory[..]), memory[..], p, shift)
    {
      hide Ok, Chunked, FreeCount, Count, OnSlot;
      if shift < EXACT_SHIFT {
        c := TakeSmall(p, shift);
      } else if shift == EXACT_SHIFT {
        c := TakeExact(p);
      } else {
        c := TakeBig(p, shift);
      }
    }

    /** ngx_slab_alloc_locked(): the address of a block for `size` bytes. */
    method AllocLocked(size: nat) returns (r: Option<nat>)
      requires PoolOk() && size < WORD_SIZE
      modifies this`free, this`pfree, this`use, this`lists, this`live, pages, slots, memory, stats
      ensures PoolOk()
      ensures BlocksKept(old(use), old(live), old(memory[..]), memory[..])
      ensures r.Some? ==> Handed(old(use), old(live), use, live, r.value, BlockSize(size, minShift))
      ensures r.None? ==> use == old(use) && live == old(live) && NoRoom(use, live, size, minShift)
      ensures size > MAX_SIZE ==> stats[..] == old(stats[..])
      ensures size <= MAX_SIZE ==>
                var slot := ShiftOf(size, minShift) - minShift;
                && StatsElsewhere(old(stats[..]), stats[..], slot)
                && stats[slot].reqs == old(stats[slot].reqs) + 1
                && stats[slot].fails == old(stats[slot].fails) + if r.None? then 1 else 0
    {
      if size > MAX_SIZE {
        r := AllocWhole(PagesOf(size));
      } else {
        var shift := ChunkShift(size);
        r := AllocChunk(shift);
        if r.None? {
          NoChunkLeft(use, live, shift);
        }
      }
    }

    /** A block of whole pages. */
    method AllocWhole(n: nat) returns (r: Option<nat>)
      requires PoolOk() && 0 < n < PAGE_START
      modifies this`free, this`pfree, this`use, this`lists, pages, slots
      ensures PoolOk()
      ensures r.Some? ==> Handed(old(use), live, use, live, r.value, n * PAGE_SIZE)
      ensures r.None? ==> use == old(use) && forall s: nat :: !FreeWindow(use, s, n)
    {
      hide Ok, Chunked, FreeCount, Counted, SameElsewhere, TakenElsewhere, Handed, FreeWindow;
      ghost var m, u, ls := View(), use, lists;
      var page := AllocPages(n);
      if page.At? {
        WholeFacts(m, View(), memory[..], stats[..], u, use, ls, lists, live, minShift, page.page, n);
        return Some(page.page * PAGE_SIZE);
      }
      return None;
    }

    /** Chunk 64n + i of a page with small chunks comes back. */
    method ReturnSmall(p: nat, shift: nat, n: nat, i: nat) returns (empty: bool)
      requires Sound() && p < |use| && use[p] == Chunks(shift) && shift < EXACT_SHIFT && i < 64 && 64 * n + i in live[p]
      modifies this`free, this`pfree, this`use, this`lists, this`live, pages, slots, memory
      ensures Sound() && live == old(live)[p := old(live)[p] - {64 * n + i}] && TakenElsewhere(old(use), use, p, 1)
      ensures OnlyMap(old(memory[..]), memory[..], p, shift)
      ensures empty <==> live[p] == {}
      ensures if empty then !Taken(use[p]) else use == old(use)
    {
      hide Ok, Chunked, ChunkedBut, FreeCount, Count, Reserved, Pow2, PageWords, Cut, OnSlot, Full, OnlyOwn,
          TakenElsewhere;
      ghost var c := 64 * n + i;
      ReturnFacts(View(), memory[..], use, lists, live, minShift, p, shift, c);
      if pages[p].next == Null {
        Relink(p, shift);
      }
      ClearSmall(p, shift, n, i);
      NotFullWithout(shift, live[p], c);
      EmptySmall(pages[p].slab, PageWords(memory[..], p), shift, live[p]);
      empty := SmallEmpty(p, shift);
      Release(p, shift, empty);
    }

    /** Chunk `c` of a page with chunks of 64 bytes comes back. */
    method ReturnExact(p: nat, c: nat) returns (empty: bool)
      requires Sound() && p < |use| && use[p] == Chunks(EXACT_SHIFT) && c in live[p]
      modifies this`free, this`pfree, this`use, this`lists, this`live, pages, slots
      ensures Sound() && live == old(live)[p := old(live)[p] - {c}] && TakenElsewhere(old(use), use, p, 1)
      ensures empty <==> live[p] == {}
      ensures if empty then !Taken(use[p]) else use == old(use)
    {
      hide Ok, Chunked, ChunkedBut, FreeCount, Count, Reserved, Pow2, PageWords, Cut, OnSlot, Full, TakenElsewhere;
      ReturnFacts(View(), memory[..], use, lists, live, minShift, p, EXACT_SHIFT, c);
      if pages[p].slab == BUSY {
        Relink(p, EXACT_SHIFT);
      }
      ClearPage(p, EXACT_SHIFT, c, Power(c));
      NotFullWithout(EXACT_SHIFT, live[p], c);
      EmptyExact(pages[p].slab, PageWords(memory[..], p), live[p]);
      empty := pages[p].slab == 0;
      Release(p, EXACT_SHIFT, empty);
    }

    /** Chunk `c` of a page with larger chunks comes back. */
    method ReturnBig(p: nat, shift: nat, c: nat) returns (empty: bool)
      requires Sound() && p < |use| && use[p] == Chunks(shift) && EXACT_SHIFT < shift && c in live[p]
      modifies this`free, this`pfree, this`use, this`lists, this`live, pages, slots
      ensures Sound() && live == old(live)[p := old(live)[p] - {c}] && TakenElsewhere(old(use), use, p, 1)
      ensures empty <==> live[p] == {}
      ensures if empty then !Taken(use[p]) else use == old(use)
    {
      hide Ok, Chunked, ChunkedBut, FreeCount, Count, Reserved, Pow2, And, PageWords, Cut, OnSlot, Full, TakenElsewhere;
      ReturnFacts(View(), memory[..], use, lists, live, minShift, p, shift, c);
      if pages[p].next == Null {
        Relink(p, shift);
      }
      ClearPage(p, shift, c, Power(MAP_SHIFT + c));
      NotFullWithout(shift, live[p], c);
      EmptyBig(pages[p].slab, PageWords(memory[..], p), shift, live[p]);
      empty := And(pages[p].slab, MAP_MASK) == 0;
      Release(p, shift, empty);
    }

    /** A chunk of page `p` is no longer counted, nor is the page if it has been given back. */
    method Uncount(p: nat, shift: nat, empty: bool, ghost c: nat, ghost use0: seq<Use>, ghost live0: Live)
      requires Sound() && stats.Length == slots.Length && Counted(stats[..], use0, live0, minShift)
      requires p < |use| == |use0| == |live0| && minShift <= shift < PAGE_SHIFT && use0[p] == Chunks(shift)
      requires TakenElsewhere(use0, use, p, 1) && c in live0[p] && live == live0[p := live0[p] - {c}]
      requires (empty <==> live[p] == {}) && if empty then !Taken(use[p]) else use == use0
      modifies stats
      ensures PoolOk() && StatsElsewhere(old(stats[..]), stats[..], shift - minShift)
      ensures stats[shift - minShift].reqs == old(stats[shift - minShift].reqs)
      ensures stats[shift - minShift].fails == old(stats[shift - minShift].fails)
    {
      hide Ok, Chunked, FreeCount, Count, Reserved, Pow2, TakenElsewhere;
      SlotIn(View(), memory[..], use, lists, live, minShift, shift);
      Sizes(shift);
      var slot := shift - minShift;
      ghost var was := stats[..];
      SumsCover(was, use0, live0, minShift, p, shift, c);
      if empty {
        stats[slot] := stats[slot].(total := stats[slot].total - (Count(shift) - Reserved(shift)));
      }
      stats[slot] := stats[slot].(used := stats[slot].used - 1);
      CountedLess(was, stats[..], use0, live0, use, live, minShift, p, shift, c);
    }

    /** The block at `a` is a chunk of page `p` and comes back. */
    method ReturnChunk(p: nat, shift: nat, c: nat)
      requires PoolOk() && p < |use| && use[p] == Chunks(shift) && c in live[p]
      modifies this`free, this`pfree, this`use, this`lists, this`live, pages, slots, memory, stats
      ensures PoolOk() && shift < PAGE_SHIFT
              && Handed(use, live, old(use), old(live), ChunkAddr(p, shift, c), Pow2(shift))
      ensures BlocksKept(use, live, old(memory[..]), memory[..])
      ensures minShift <= shift && StatsElsewhere(old(stats[..]), stats[..], shift - minShift)
      ensures stats[shift - minShift].reqs == old(stats[shift - minShift].reqs)
      ensures stats[shift - minShift].fails == old(stats[shift - minShift].fails)
    {
      hide Ok, Chunked, ChunkedBut, FreeCount, Counted, Count, Reserved, Pow2, OnSlot, TakenElsewhere, Handed, Cut,
          PageWords;
      ghost var u, lv, ls, m, words := use, live, lists, View(), memory[..];
      ReturnFacts(m, words, u, ls, lv, minShift, p, shift, c);
      var empty;
      if shift < EXACT_SHIFT {
        empty := ReturnSmall(p, shift, c / 64, c % 64);
      } else if shift == EXACT_SHIFT {
        empty := ReturnExact(p, c);
      } else {
        empty := ReturnBig(p, shift, c);
      }
      TakenBack(u, use, lv, live, p, shift, c);
      Uncount(p, shift, empty, c, u, lv);
      HandedChunk(use, live, u, lv, p, c, shift);
      OkSizes(m, u, ls, minShift, {});
      MapApart(m, words, u, ls, lv, minShift, words, memory[..], p, shift);
      KeptBefore(use, live, u, lv, ChunkAddr(p, shift, c), Pow2(shift), words, memory[..]);
    }

    /** The block at page `p` is the whole run of `n` pages and comes back. */
    method ReturnPages(p: nat, n: nat)
      requires PoolOk() && p < |use| && use[p] == Head(false, n)
      modifies this`free, this`pfree, this`use, this`lists, pages, slots
      ensures PoolOk() && Handed(use, live, old(use), live, p * PAGE_SIZE, n * PAGE_SIZE)
    {
      hide Ok, Chunked, FreeCount, Counted, SameElsewhere, SlotMembers, FreeWindow, Handed, Layout;
      ghost var m, u, ls := View(), use, lists;
      RunFacts(m, u, ls, minShift, p, n);
      FreePages(p, n);
      ReturnedPages(m, View(), memory[..], stats[..], u, use, ls, lists, live, minShift, p, n);
    }

    /** ngx_slab_free_locked(): the block at `a` comes back, if there is one; a pointer that is not
        to a block is refused.  The caller must not pass the address of a bitmap. */
    method FreeLocked(a: int) returns (ok: bool)
      requires PoolOk() && PAGE_SIZE * pages.Length <= end
      requires 0 <= a <= end ==> a < PAGE_SIZE * pages.Length && !BitmapChunk(use, a)
      modifies this`free, this`pfree, this`use, this`lists, this`live, pages, slots, memory, stats
      ensures PoolOk() && RequestsSame(old(stats[..]), stats[..])
      ensures if a < 0 then !ok && use == old(use) && live == old(live)
              else FreedBlock(ok, old(use), old(live), use, live, a)
      ensures BlocksKept(use, live, old(memory[..]), memory[..])
      ensures !ok ==> View() == old(View()) && memory[..] == old(memory[..])
    {
      hide Ok, Chunked, FreeCount, Counted, BlockAt, Handed, OnSlot, And, Pow2, Not, BitmapChunk;
      Outside(View(), memory[..], use, lists, live, minShift, a);
      KeptSame(use, live, memory[..]);
      if a < 0 || a > end {
        return false;
      }
      KindTold(View(), memory[..], use, lists, live, minShift, a / PAGE_SIZE);
      match pages[a / PAGE_SIZE].kind
      case Whole =>
        ok := FreeWhole(a);
        Outside(View(), memory[..], use, lists, live, minShift, a);
        KeptSame(use, live, memory[..]);
      case Exact => ok := FreeExact(a);
      case Small => ok := FreeSmallAt(a);
      case Big => ok := FreeBig(a);
    }

    /** A pointer to a page that is not cut. */
    method FreeWhole(a: nat) returns (ok: bool)
      requires PoolOk() && a < PAGE_SIZE * pages.Length && !use[a / PAGE_SIZE].Chunks?
      modifies this`free, this`pfree, this`use, this`lists, pages, slots
      ensures PoolOk() && FreedBlock(ok, old(use), live, use, live, a)
      ensures !ok ==> View() == old(View())
    {
      var n := a / PAGE_SIZE;
      var slab := pages[n].slab;
      ToldWhole(View(), use, lists, live, minShift, a);
      hide Ok, Chunked, FreeCount, Counted, BlockAt, Handed, And, Not;
      if a % PAGE_SIZE != 0 || And(slab, PAGE_START) == 0 || slab == PAGE_BUSY {
        return false;
      }
      ReturnPages(n, And(slab, Not(PAGE_START)));
      return true;
    }

    /** A pointer to a page with chunks of 64 bytes. */
    method FreeExact(a: nat) returns (ok: bool)
      requires PoolOk() && a < PAGE_SIZE * pages.Length && !BitmapChunk(use, a)
               && use[a / PAGE_SIZE] == Chunks(EXACT_SHIFT)
      modifies this`free, this`pfree, this`use, this`lists, this`live, pages, slots, memory, stats
      ensures PoolOk() && RequestsSame(old(stats[..]), stats[..]) && FreedBlock(ok, old(use), old(live), use, live, a)
      ensures BlocksKept(use, live, old(memory[..]), memory[..])
      ensures !ok ==> View() == old(View()) && memory[..] == old(memory[..])
    {
      hide Ok, Chunked, FreeCount, Counted, BlockAt, Handed, And, BitmapChunk, InBitmap, Count, Pow2;
      var n := a / PAGE_SIZE;
      var c := a % PAGE_SIZE / 64;
      Outside(View(), memory[..], use, lists, live, minShift, a);
      NoChunkAt(use, live, a, EXACT_SHIFT);
      Pow2Table();
      if a % 64 != 0 {
        KeptSame(use, live, memory[..]);
        return false;
      }
      ToldChunk(View(), memory[..], use, lists, live, minShift, a, EXACT_SHIFT);
      if And(pages[n].slab, Power(c)) == 0 {
        KeptSame(use, live, memory[..]);
        return false;
      }
      ReturnChunk(n, EXACT_SHIFT, c);
      return true;
    }

    /** A pointer to a page with smaller chunks. */
    method FreeSmallAt(a: nat) returns (ok: bool)
      requires PoolOk() && a < PAGE_SIZE * pages.Length && !BitmapChunk(use, a)
      requires And(pages[a / PAGE_SIZE].slab, SHIFT_MASK) < EXACT_SHIFT
      requires use[a / PAGE_SIZE] == Chunks(And(pages[a / PAGE_SIZE].slab, SHIFT_MASK))
      modifies this`free, this`pfree, this`use, this`lists, this`live, pages, slots, memory, stats
      ensures PoolOk() && RequestsSame(old(stats[..]), stats[..]) && FreedBlock(ok, old(use), old(live), use, live, a)
      ensures BlocksKept(use, live, old(memory[..]), memory[..])
      ensures !ok ==> View() == old(View()) && memory[..] == old(memory[..])
    {
      hide Ok, Chunked, FreeCount, Counted, BlockAt, Handed, And, BitmapChunk, InBitmap, Count, Pow2;
      var n := a / PAGE_SIZE;
      var shift := And(pages[n].slab, SHIFT_MASK);
      var c := a % PAGE_SIZE / Pow2(shift);
      Outside(View(), memory[..], use, lists, live, minShift, a);
      NoChunkAt(use, live, a, shift);
      if a % Pow2(shift) != 0 {
        KeptSame(use, live, memory[..]);
        return false;
      }
      ToldSmall(View(), memory[..], use, lists, live, minShift, a, shift);
      if And(memory[PAGE_WORDS * n + c / 64], Power(c % 64)) == 0 {
        KeptSame(use, live, memory[..]);
        return false;
      }
      ReturnChunk(n, shift, c);
      return true;
    }

    /** A pointer to a page with larger chunks. */
    method FreeBig(a: nat) returns (ok: bool)
      requires PoolOk() && a < PAGE_SIZE * pages.Length && !BitmapChunk(use, a)
      requires EXACT_SHIFT < And(pages[a / PAGE_SIZE].slab, SHIFT_MASK)
      requires use[a / PAGE_SIZE] == Chunks(And(pages[a / PAGE_SIZE].slab, SHIFT_MASK))
      modifies this`free, this`pfree, this`use, this`lists, this`live, pages, slots, memory, stats
      ensures PoolOk() && RequestsSame(old(stats[..]), stats[..]) && FreedBlock(ok, old(use), old(live), use, live, a)
      ensures BlocksKept(use, live, old(memory[..]), memory[..])
      ensures !ok ==> View() == old(View()) && memory[..] == old(memory[..])
    {
      hide Ok, Chunked, FreeCount, Counted, BlockAt, Handed, And, BitmapChunk, InBitmap, Count, Pow2;
      var n := a / PAGE_SIZE;
      var shift := And(pages[n].slab, SHIFT_MASK);
      var c := a % PAGE_SIZE / Pow2(shift);
      Outside(View(), memory[..], use, lists, live, minShift, a);
      ShiftInPage(View(), memory[..], use, lists, live, minShift, a / PAGE_SIZE);
      NoChunkAt(use, live, a, shift);
      if a % Pow2(shift) != 0 {
        KeptSame(use, live, memory[..]);
        return false;
      }
      ToldChunk(View(), memory[..], use, lists, live, minShift, a, shift);
      if And(pages[n].slab, Power(MAP_SHIFT + c)) == 0 {
        KeptSame(use, live, memory[..]);
        return false;
      }
      ReturnChunk(n, shift, c);
      return true;
    }

    // ----- what holds whenever the pool is at rest

    /** Outstanding blocks do not overlap. */
    lemma OutstandingDisjoint(a: nat, b: nat)
      requires PoolOk() && a < b && BlockAt(use, live, a) > 0 && BlockAt(use, live, b) > 0
      ensures a + BlockAt(use, live, a) <= b
    {
      hide Chunked, BlockAt;
      BlocksDisjoint(View(), memory[..], use, lists, live, minShift, a, b);
    }

    /** An outstanding block lies within the pages, clear of the bitmap of its page. */
    lemma OutstandingInside(a: nat)
      requires PoolOk() && BlockAt(use, live, a) > 0
      ensures a + BlockAt(use, live, a) <= PAGE_SIZE * pages.Length
      ensures var u := use[a / PAGE_SIZE];
              u.Chunks? && u.shift < EXACT_SHIFT ==> a % PAGE_SIZE >= 8 * MapWords(u.shift)
    {
      hide Chunked, BlockAt;
      BlockInside(View(), memory[..], use, lists, live, minShift, a);
    }

    /** With nothing outstanding the free list is one run of all pages, and no page is cut. */
    lemma NothingOutstanding()
      requires PoolOk() && pages.Length > 0 && forall a: nat :: BlockAt(use, live, a) == 0
      ensures use == WithRun(use, 0, |use|, true) && lists[Free] == [0] && pages[0].slab == pages.Length == pfree
      ensures forall c <- lists :: c != Free ==> lists[c] == []
    {
      hide Chunked, BlockAt;
      EmptyPool(View(), memory[..], use, lists, live, minShift);
    }

    /** The owner of a block writes a word of it: the pool takes no harm, and no other word changes. */
    method WriteWord(a: nat, i: nat, value: word)
      requires PoolOk() && BlockAt(use, live, a) > 0 && a <= 8 * i && 8 * i + 8 <= a + BlockAt(use, live, a)
      modifies memory
      ensures PoolOk() && i < memory.Length && memory[..] == old(memory[..])[i := value]
    {
      hide Ok, Chunked, FreeCount, Counted, BlockAt;
      ghost var words := memory[..];
      OkSizes(View(), use, lists, minShift, {});
      BlockInside(View(), words, use, lists, live, minShift, a);
      WordsOf(View(), words, use, lists, live, minShift);
      memory[i] := value;
      WrittenChunked(View(), words, memory[..], use, lists, live, minShift, a, i);
    }
  }

  lemma KeptSame(use: seq<Use>, live: Live, words: seq<word>)
    requires |use| == |live|
    ensures BlocksKept(use, live, words, words)
  {
  }

  lemma ShiftInPage(m: Mem, memory: seq<word>, use: seq<Use>, lists: Lists, live: Live, minShift: nat, p: nat)
    requires Chunked(m, memory, use, lists, live, minShift) && p < |use| && use[p].Chunks?
    ensures use[p].shift < PAGE_SHIFT
  {
    assert ChunkAt(m, memory, use, lists, live, minShift, p);
  }

  lemma MapSize(was: seq<word>, now: seq<word>, p: nat, shift: nat)
    requires OnlyMap(was, now, p, shift)
    ensures |now| == |was|
  {
  }

  lemma WrittenChunked(m: Mem, words: seq<word>, words': seq<word>, use: seq<Use>, lists: Lists, live: Live,
          minShift: nat,
                       a: nat, i: nat)
    requires Layout(use) && Chunked(m, words, use, lists, live, minShift) && |live| == |use|
    requires BlockAt(use, live, a) > 0 && a <= 8 * i && 8 * i + 8 <= a + BlockAt(use, live, a)
    requires i < |words| == |words'| && words' == words[i := words'[i]]
    ensures Chunked(m, words', use, lists, live, minShift)
  {
    WordsOf(m, words, use, lists, live, minShift);
    hide ChunkAt, BlockAt, Layout;
    forall q: nat | q < |use|
      ensures ChunkAt(m, words', use, lists, live, minShift, q)
    {
      WrittenChunk(m, words, words', use, lists, live, minShift, a, i, q);
    }
  }

  lemma WrittenChunk(m: Mem, words: seq<word>, words': seq<word>, use: seq<Use>, lists: Lists, live: Live,
          minShift: nat,
                     a: nat, i: nat, q: nat)
    requires Layout(use) && Chunked(m, words, use, lists, live, minShift) && |live| == |use| == |m.pages|
    requires BlockAt(use, live, a) > 0 && a <= 8 * i && 8 * i + 8 <= a + BlockAt(use, live, a)
    requires i < |words| == |words'| == PAGE_WORDS * |use| && words' == words[i := words'[i]] && q < |use|
    ensures ChunkAt(m, words', use, lists, live, minShift, q)
  {
    assert ChunkAt(m, words, use, lists, live, minShift, q);
    hide Cut, BlockAt, Layout, Chunked, Full, MapWords, PageWords;
    PageWritten(words, words', i, q);
    if use[q].Chunks? && i / PAGE_WORDS == q {
      BlockWord(m, words, use, lists, live, minShift, a, i, q);
      CutWritten(m.pages[q].slab, PageWords(words, q), use[q].shift, live[q], i % PAGE_WORDS, words'[i]);
    }
  }

  lemma PageWritten(words: seq<word>, words': seq<word>, i: nat, q: nat)
    requires i < |words| == |words'| && words' == words[i := words'[i]] && PAGE_WORDS * q + PAGE_WORDS <= |words|
    ensures PageWords(words', q) ==
            if i / PAGE_WORDS == q then PageWords(words, q)[i % PAGE_WORDS := words'[i]] else PageWords(words, q)
  {
  }

  lemma CutWritten(slab: word, words: seq<word>, shift: nat, live: set<nat>, k: nat, value: word)
    requires Cut(slab, words, shift, live) && k < PAGE_WORDS && (shift < EXACT_SHIFT ==> MapWords(shift) <= k)
    ensures Cut(slab, words[k := value], shift, live)
  {
    hide Pow2, Count, Reserved, And, Bit, Marked, MapWords;
    forall c: nat | c < Count(shift)
      ensures Marked(slab, words[k := value], shift, c) <==> Marked(slab, words, shift, c)
    {
      MarkedWritten(slab, words, shift, k, value, c);
    }
  }

  lemma MarkedWritten(slab: word, words: seq<word>, shift: nat, k: nat, value: word, c: nat)
    requires shift < PAGE_SHIFT && |words| == PAGE_WORDS && k < PAGE_WORDS && c < Count(shift)
    requires shift < EXACT_SHIFT ==> MapWords(shift) <= k
    ensures Marked(slab, words[k := value], shift, c) <==> Marked(slab, words, shift, c)
  {
    hide Pow2, Count, Bit, MapWords;
    Sizes(shift);
  }

  /** A free page before the start of a run is the last page of its own run. */
  lemma RunBefore(use: seq<Use>, p: nat) returns (h: nat)
    requires Layout(use) && 0 < p < |use| && !use[p].Body? && !Taken(use[p - 1])
    ensures h < p && FreeHead(use, h) && h + use[h].len == p
    ensures use[p - 1].Head? ==> h == p - 1
    ensures use[p - 1].Body? ==> use[p - 1] == Body(true, h) && h < p - 1
  {
    assert Fits(use, p - 1);
    h := if use[p - 1].Head? then p - 1 else use[p - 1].head;
    assert Fits(use, h);
  }

  /** What lies before a run afloat. */
  lemma BeforeAfloat(m: Mem, use: seq<Use>, lists: Lists, minShift: nat, p: nat)
    requires Ok(m, use, lists, minShift, {p}) && 0 < p
    ensures m.pages[p - 1].kind == Whole && m.pages[p - 1].slab == PAGE_FREE ==> m.pages[p - 1].prev.At?
    ensures var j := if m.pages[p - 1].kind == Whole && m.pages[p - 1].slab == PAGE_FREE then m.pages[p - 1].prev.page
            else p - 1;
            && j < |use| && j < p
            && (if m.pages[p - 1].kind == Whole && m.pages[j].next != Null
                then FreeHead(use, j) && j + use[j].len == p && m.pages[j].slab == use[j].len
                     && (j > 0 ==> Taken(use[j - 1]))
                else Taken(use[p - 1]))
  {
    assert Encodes(m, use, {p}, p - 1) && Fits(use, p - 1);
    if !Taken(use[p - 1]) {
      var h := RunBefore(use, p);
      assert Encodes(m, use, {p}, h);
      if h > 0 {
        NoTwoFree(use, {p}, h);
      }
    }
  }

  lemma NoTwoFree(use: seq<Use>, afloat: set<nat>, h: nat)
    requires Layout(use) && Apart(use, afloat) && FreeHead(use, h) && 0 < h && h !in afloat
    requires forall p <- afloat :: p > h
    ensures Taken(use[h - 1])
  {
    if !Taken(use[h - 1]) {
      var g := RunBefore(use, h);
    }
  }

  /** Whether a page in use has a list to leave. */
  lemma NextTells(m: Mem, use: seq<Use>, lists: Lists, minShift: nat, p: nat)
    requires Ok(m, use, lists, minShift, {}) && p < |use| && Taken(use[p]) && !use[p].Body?
    ensures use[p].Head? ==> m.pages[p].next == Null
    ensures use[p].Chunks? && use[p].shift >= minShift && Slot(use[p].shift - minShift) in lists ==>
              p in lists[Slot(use[p].shift - minShift)] ==> m.pages[p].next != Null
  {
    assert Encodes(m, use, {}, p);
    if use[p].Chunks? && use[p].shift >= minShift && Slot(use[p].shift - minShift) in lists {
      var l := lists[Slot(use[p].shift - minShift)];
      if p in l {
        var k :| 0 <= k < |l| && l[k] == p;
        assert Placed(m, Slot(use[p].shift - minShift), l, k);
      }
    }
  }

  /** What lies behind a free run that follows a run afloat. */
  lemma BehindFree(m: Mem, use: seq<Use>, lists: Lists, minShift: nat, p: nat, q: nat)
    requires Ok(m, use, lists, minShift, {p}) && FreeHead(use, p) && q == p + use[p].len && FreeHead(use, q)
    ensures q + use[q].len <= |use| < PAGE_START && q != p && q in lists[Free]
    ensures q + use[q].len < |use| ==> Taken(use[q + use[q].len])
    ensures m.pages[q].slab == use[q].len
    ensures forall i :: p <= i < q + use[q].len ==> !Taken(use[i])
  {
    assert Fits(use, p) && Fits(use, q) && Encodes(m, use, {p}, q);
    if q + use[q].len < |use| {
      AfterRun(use, q, q + use[q].len);
      assert !FreeHead(use, q + use[q].len);
    }
  }

  lemma AfloatHead(m: Mem, use: seq<Use>, lists: Lists, minShift: nat, p: nat)
    requires Ok(m, use, lists, minShift, {p})
    ensures FreeHead(use, p) && |m.pages| == |use| && Free in lists
  {
    assert m.Has(Free);
  }

  lemma MergeFacts(m: Mem, use: seq<Use>, lists: Lists, minShift: nat, p: nat, q: nat)
    requires Ok(m, use, lists, minShift, {p}) && FreeHead(use, p) && q == p + use[p].len && FreeHead(use, q)
    ensures 0 < use[p].len && 0 < use[q].len && q + use[q].len <= |use| < PAGE_START && |m.pages| == |use|
    ensures m.pages[q].slab == use[q].len
    ensures var use' := WithRun(use, p, q + use[q].len - p, true);
            && FreeCount(use', |use|) == FreeCount(use, |use|) && use'[p] == Head(true, use[p].len + use[q].len)
            && (q + use[q].len < |use| ==> Taken(use'[q + use[q].len])) && forall i :: 0 <= i < p ==> use'[i] == use[i]
  {
    BehindFree(m, use, lists, minShift, p, q);
    JoinCount(use, p, q);
    assert Fits(use, p) && Fits(use, q);
  }

  lemma MergePrevFacts(m: Mem, use: seq<Use>, lists: Lists, minShift: nat, h: nat, p: nat, k: nat)
    requires Ok(m, use, lists, minShift, {p}) && FreeHead(use, h) && FreeHead(use, p) && p == h + use[h].len
    requires p + use[p].len <= |use| && k < |lists[Free]| && lists[Free][k] == h
    ensures m.pages[h].prev != At(h) && m.pages[h].next != At(h) && Free in lists
    ensures FreeCount(WithRun(use, h, p + use[p].len - h, true), |use|) == FreeCount(use, |use|)
    ensures WithRun(use, h, p + use[p].len - h, true)[h].Head?
    ensures WithRun(use, h, p + use[p].len - h, true)[h].len == use[h].len + use[p].len
  {
    JoinCount(use, h, p);
    UnlinkThreads(m, use, lists, minShift, {p}, Free, k);
    assert Fits(use, h) && Fits(use, p);
  }

  /** A change to the first page of a window can be made part of a change of the window. */
  lemma SameBeforeWrite(m: Mem, m1: Mem, m2: Mem, use: seq<Use>, use2: seq<Use>, p: nat, n: nat)
    requires SameElsewhere(m1, m2, use, use2, p, n) && 0 < n && p < |m.pages| == |m1.pages|
    requires m1 == m.(pages := m.pages[p := m.pages[p].(slab := m1.pages[p].slab)])
    ensures SameElsewhere(m, m2, use, use2, p, n)
  {
  }

  /** Where a free run is on the free list. */
  lemma PlaceOf(m: Mem, use: seq<Use>, lists: Lists, minShift: nat, p: nat, q: nat) returns (k: nat)
    requires Ok(m, use, lists, minShift, {p}) && FreeHead(use, q) && p != q
    ensures k < |lists[Free]| && lists[Free][k] == q
  {
    assert q in lists[Free];
    k :| k < |lists[Free]| && lists[Free][k] == q;
  }

  lemma RunLast(use: seq<Use>, i: nat)
    requires Layout(use) && FreeHead(use, i)
    ensures 0 < use[i].len && i + use[i].len <= |use| && !Taken(use[i + use[i].len - 1])
  {
    assert Fits(use, i);
  }

  lemma VacateCount(use: seq<Use>, p: nat, n: nat)
    requires Layout(use) && RunAt(use, p, n) && Taken(use[p])
    ensures FreeCount(WithRun(use, p, n, true), |use|) == FreeCount(use, |use|) + n
  {
    assert Fits(use, p);
    FreeCountChange(use, WithRun(use, p, n, true), p, n, |use|);
  }

  lemma FreedWindow(use: seq<Use>, head: nat, p: nat, len: nat, n: nat)
    requires Layout(use) && FreeHead(use, head) && head <= p && p + len <= head + use[head].len && n <= len
    ensures FreeWindow(use, p, len) && FreeWindow(use, p, n)
  {
    assert Fits(use, head);
  }

  lemma AfloatLayout(m: Mem, use: seq<Use>, lists: Lists, minShift: nat, p: nat)
    requires Ok(m, use, lists, minShift, {p})
    ensures Layout(use) && FreeHead(use, p) && Free in lists && 0 < use[p].len
    ensures FreeWindow(use, p, use[p].len)
  {
    assert Fits(use, p);
  }

  lemma VacateFacts(m: Mem, use: seq<Use>, lists: Lists, minShift: nat, p: nat, n: nat)
    requires Ok(m, use, lists, minShift, {}) && RunAt(use, p, n) && Taken(use[p])
    ensures Layout(use) && Free in lists
    ensures FreeCount(WithRun(use, p, n, true), |use|) == FreeCount(use, |use|) + n
  {
    VacateCount(use, p, n);
  }

  lemma SlotMembersKept(ls: Lists, ls1: Lists, ls2: Lists, page: nat)
    requires SlotMembers(ls, ls1, page) && Free in ls1 && Free in ls2 && ls2 == ls1[Free := ls2[Free]]
    ensures SlotMembers(ls, ls2, page)
  {
    assert ls2.Keys == ls1.Keys;
  }

  lemma SameShrink(m: Mem, m': Mem, use: seq<Use>, use': seq<Use>, s: nat, len: nat, n: nat)
    requires SameElsewhere(m, m', use, use', s, len) && FreeWindow(use, s, len) && FreeWindow(use', s, len) && n <= len
    ensures SameElsewhere(m, m', use, use', s, n)
  {
  }

  lemma SameWiden(m: Mem, m': Mem, use: seq<Use>, s: nat, n: nat)
    requires SameElsewhere(m, m', use, use, 0, 0)
    ensures SameElsewhere(m, m', use, use, s, n)
  {
  }

  lemma AttachFacts(m: Mem, use: seq<Use>, lists: Lists, minShift: nat, p: nat)
    requires Ok(m, use, lists, minShift, {p}) && FreeHead(use, p) && p + use[p].len <= |use|
    requires p > 0 ==> Taken(use[p - 1])
    requires p + use[p].len < |use| ==> Taken(use[p + use[p].len])
    ensures Apart(use, {p} - {p}) && m.Has(m.free.next)
    ensures forall q :: p < q < p + use[p].len ==> use[q] == Body(true, p)
  {
    assert Fits(use, p);
    assert Listed(m, Free, lists[Free]);
    assert |lists[Free]| > 0 ==> Placed(m, Free, lists[Free], 0);
    forall i: nat | FreeHead(use, i)
      ensures !FreeHead(use, i + use[i].len)
    {
      assert Fits(use, i);
      RunLast(use, i);
    }
  }

  lemma PushFreeSame(m: Mem, m1: Mem, use: seq<Use>, lists: Lists, minShift: nat, p: nat)
    requires Ok(m1, use, lists, minShift, {p}) && |m.pages| == |use| && m1.Has(m1.free.next)
    requires forall i: nat :: i < |use| && Taken(use[i]) ==> m1.pages[i] == m.pages[i]
    ensures SameElsewhere(m, Pushed(m1, Free, p, Whole), use, use, 0, 0)
  {
    PushFreeThreads(m1, use, lists, minShift, {p}, p);
    PushedFields(m1, Free, p, Whole);
  }

  lemma BusyUnlisted(m: Mem, use: seq<Use>, lists: Lists, minShift: nat, p: nat)
    requires Ok(m, use, lists, minShift, {}) && p < |use| && use[p].Head? && !use[p].free
    ensures forall c <- lists :: p !in lists[c]
  {
  }

  /** What unlinking the page of chunks `p` makes of it, when its first word says `n` already. */
  lemma UnlinkChunksOk(m: Mem, m1: Mem, use: seq<Use>, lists: Lists, minShift: nat, p: nat, n: nat)
    returns (lists': Lists)
    requires Ok(m, use, lists, minShift, {}) && RunAt(use, p, n) && use[p].Chunks? && OnSlot(use, lists, minShift, p)
    requires n < PAGE_START && m1 == m.(pages := m.pages[p := m.pages[p].(slab := n)])
    ensures m1.Has(m1.pages[p].prev) && m1.Has(m1.pages[p].next)
    ensures Ok(Unlinked(m1, p), WithRun(use, p, n, true), lists', minShift, {p}) && Unlinked(m1, p).pages[p].slab == n
    ensures SameElsewhere(m, Unlinked(m1, p), use, WithRun(use, p, n, true), p, n)
    ensures SlotMembers(lists, lists', p)
  {
    hide Unlinked, Without, Listed, NoDup, Ok, SameElsewhere;
    var slot := use[p].shift - minShift;
    var k := SlotPlace(m, use, lists, minShift, p);
    var l := lists[Slot(slot)];
    lists' := lists[Slot(slot) := Without(l, k)];
    SlabWriteOk(m, use, lists, minShift, {}, p, n);
    UnlinkSlotOk(m1, use, lists, minShift, {}, slot, k);
    UnlinkSlotSame(m1, use, lists, minShift, {}, slot, k);
    WithoutMembers(l, k);
    var m2 := Unlinked(m1, p);
    UnlinkedSlab(m1, m2, use, p);
    SameWiden(m1, m2, use, p, n);
    SameBeforeWrite(m, m1, m2, use, use, p, n);
    ChunksUnlisted(m2, use, lists', minShift, p, slot);
    VacateOk(m2, m2, use, lists', minShift, {}, p, n);
    assert {} + {p} == {p};
    SameVacated(m, m2, use, p, n);
  }

  lemma OkSizes(m: Mem, use: seq<Use>, lists: Lists, minShift: nat, afloat: set<nat>)
    requires Ok(m, use, lists, minShift, afloat)
    ensures |m.pages| == |use| && Free in lists && Layout(use)
  {
    assert m.Has(Free);
  }

  lemma UnsettledSizes(m: Mem, memory: seq<word>, use: seq<Use>, lists: Lists, live: Live, minShift: nat, p: nat)
    requires ChunkedBut(m, memory, use, lists, live, minShift, p) && p < |use|
    ensures |m.pages| == |use| == |live| && |memory| == PAGE_WORDS * |use|
    ensures PAGE_WORDS * p + PAGE_WORDS <= |memory|
  {
  }

  lemma SlotPlace(m: Mem, use: seq<Use>, lists: Lists, minShift: nat, p: nat) returns (k: nat)
    requires Ok(m, use, lists, minShift, {}) && p < |use| && use[p].Chunks? && OnSlot(use, lists, minShift, p)
    ensures Slot(use[p].shift - minShift) in lists && |m.pages| == |use|
    ensures k < |lists[Slot(use[p].shift - minShift)]| && lists[Slot(use[p].shift - minShift)][k] == p
    ensures NoDup(lists[Slot(use[p].shift - minShift)])
  {
    var l := lists[Slot(use[p].shift - minShift)];
    k :| 0 <= k < |l| && l[k] == p;
    ListNoDup(m, Slot(use[p].shift - minShift), l);
  }

  lemma UnlinkedSlab(m: Mem, m': Mem, use: seq<Use>, p: nat)
    requires SameElsewhere(m, m', use, use, 0, 0) && p < |use| && Taken(use[p])
    ensures |m'.pages| == |m.pages| == |use| && m'.pages[p].slab == m.pages[p].slab
  {
  }

  lemma SameVacated(m: Mem, m': Mem, use: seq<Use>, p: nat, n: nat)
    requires SameElsewhere(m, m', use, use, p, n) && p + n <= |use|
    ensures SameElsewhere(m, m', use, WithRun(use, p, n, true), p, n)
  {
  }

  lemma ChunksUnlisted(m: Mem, use: seq<Use>, lists: Lists, minShift: nat, p: nat, slot: nat)
    requires Ok(m, use, lists, minShift, {}) && p < |use| && use[p] == Chunks(minShift + slot)
    requires Slot(slot) in lists && p !in lists[Slot(slot)]
    ensures forall c <- lists :: p !in lists[c]
  {
  }

  /** What lies behind a run afloat. */
  lemma AfterAfloat(m: Mem, use: seq<Use>, lists: Lists, minShift: nat, p: nat)
    requires Ok(m, use, lists, minShift, {p})
    ensures FreeHead(use, p) && p + use[p].len <= |use|
    ensures p + use[p].len < |use| ==> p + use[p].len != p && !use[p + use[p].len].Body?
  {
    assert Fits(use, p);
    if p + use[p].len < |use| {
      AfterRun(use, p, p + use[p].len);
    }
  }

  lemma RunIsWindow(use: seq<Use>, p: nat, n: nat)
    requires Layout(use) && FreeHead(use, p) && n <= use[p].len && p + use[p].len <= |use|
    ensures FreeWindow(use, p, n)
  {
    assert Fits(use, p);
  }

  lemma OccupyCount(use: seq<Use>, p: nat, n: nat)
    requires Layout(use) && FreeHead(use, p) && use[p].len == n && p + n <= |use|
    ensures FreeCount(WithRun(use, p, n, false), |use|) == FreeCount(use, |use|) - n
  {
    assert Fits(use, p);
    FreeCountChange(WithRun(use, p, n, false), use, p, n, |use|);
  }

  /** If every free run is shorter than `n`, there is no room for `n` pages anywhere. */
  lemma NoWindow(m: Mem, use: seq<Use>, lists: Lists, minShift: nat, n: nat)
    requires Ok(m, use, lists, minShift, {}) && 0 < n
    requires forall j :: 0 <= j < |lists[Free]| ==> Short(use, lists[Free][j], n)
    ensures forall s: nat :: !FreeWindow(use, s, n)
  {
    forall s: nat
      ensures !FreeWindow(use, s, n)
    {
      if FreeWindow(use, s, n) {
        var h := RunOf(use, s);
        assert h in lists[Free];
        WindowInRun(use, h, s, n);
      }
    }
  }

  lemma RunOf(use: seq<Use>, s: nat) returns (h: nat)
    requires Layout(use) && s < |use| && !use[s].Chunks? && use[s].free
    ensures FreeHead(use, h) && h <= s < h + use[h].len <= |use|
  {
    assert Fits(use, s);
    h := if use[s].Head? then s else use[s].head;
    assert Fits(use, h);
  }

  /** A stretch of free pages lies within one run, because free runs do not touch. */
  lemma WindowInRun(use: seq<Use>, h: nat, s: nat, n: nat)
    requires Layout(use) && Apart(use, {}) && FreeWindow(use, s, n)
    requires FreeHead(use, h) && h <= s < h + use[h].len <= |use|
    ensures s + n <= h + use[h].len
  {
    assert Fits(use, h);
    var e := h + use[h].len;
    if e < s + n {
      AfterRun(use, h, e);
    }
  }

  // ----- handing out chunks

  function Detached(m: Mem, p: nat): Mem
    requires p < |m.pages|
  {
    m.(pages := m.pages[p := m.pages[p].(next := Null, prev := Null)])
  }

  lemma DetachOk(m: Mem, use: seq<Use>, lists: Lists, minShift: nat, p: nat) returns (lists': Lists)
    requires Ok(m, use, lists, minShift, {}) && p < |use| && OnSlot(use, lists, minShift, p)
    ensures m.Has(m.pages[p].prev) && m.Has(m.pages[p].next)
    ensures |Unlinked(m, p).pages| == |m.pages| && Unlinked(m, p).pages[p].kind == KindOf(use[p].shift)
    ensures Ok(Detached(Unlinked(m, p), p), use, lists', minShift, {})
    ensures !OnSlot(use, lists', minShift, p) && SameMembersBut(lists, lists', p)
    ensures SameElsewhere(m, Detached(Unlinked(m, p), p), use, use, p, 1)
    ensures Unlinked(m, p).pages[p].slab == m.pages[p].slab
  {
    hide Ok, Unlinked, Without, NoDup, SameElsewhere;
    var slot := use[p].shift - minShift;
    var k := SlotPlace(m, use, lists, minShift, p);
    var l := lists[Slot(slot)];
    lists' := lists[Slot(slot) := Without(l, k)];
    UnlinkSlotOk(m, use, lists, minShift, {}, slot, k);
    UnlinkSlotSame(m, use, lists, minShift, {}, slot, k);
    WithoutMembers(l, k);
    var m1 := Unlinked(m, p);
    UnlinkedSlab(m, m1, use, p);
    KindThere(m1, use, lists', minShift, p);
    ChunksUnlisted(m1, use, lists', minShift, p, slot);
    LinksWriteOk(m1, Detached(m1, p), use, lists', minShift, p);
    SameDetached(m, m1, Detached(m1, p), use, p);
  }

  lemma KindThere(m: Mem, use: seq<Use>, lists: Lists, minShift: nat, p: nat)
    requires Ok(m, use, lists, minShift, {}) && p < |use| && use[p].Chunks?
    ensures m.pages[p].kind == KindOf(use[p].shift)
  {
    assert Encodes(m, use, {}, p);
  }

  lemma SameDetached(m: Mem, m1: Mem, m2: Mem, use: seq<Use>, p: nat)
    requires SameElsewhere(m, m1, use, use, 0, 0) && |m2.pages| == |m1.pages|
    requires forall i :: 0 <= i < |m1.pages| && i != p ==> m2.pages[i] == m1.pages[i]
    ensures SameElsewhere(m, m2, use, use, p, 1)
  {
  }

  /** A page with small chunks on its slot's list has a word that is not full. */
  lemma SmallFacts(m: Mem, memory: seq<word>, use: seq<Use>, lists: Lists, live: Live, minShift: nat, p: nat,
          shift: nat)
    requires Chunked(m, memory, use, lists, live, minShift) && p < |use| && use[p] == Chunks(shift)
    requires shift < EXACT_SHIFT && OnSlot(use, lists, minShift, p)
    ensures PAGE_WORDS * p + PAGE_WORDS <= |memory| && MapWords(shift) <= PAGE_WORDS
    ensures !AllBusy(PageWords(memory, p), MapWords(shift))
  {
    assert ChunkAt(m, memory, use, lists, live, minShift, p);
    FullSmall(m.pages[p].slab, PageWords(memory, p), shift, live[p]);
  }

  /** A clear bit of the bitmap stands for a free chunk. */
  lemma FreeSmall(m: Mem, memory: seq<word>, use: seq<Use>, lists: Lists, live: Live, minShift: nat,
                  p: nat, shift: nat, n: nat, i: nat)
    requires Chunked(m, memory, use, lists, live, minShift) && p < |use| && use[p] == Chunks(shift)
    requires shift < EXACT_SHIFT && n < MapWords(shift) && i < 64 && PAGE_WORDS * p + PAGE_WORDS <= |memory|
    requires MapWords(shift) <= PAGE_WORDS && !Bit(memory[PAGE_WORDS * p + n], i)
    ensures Reserved(shift) <= 64 * n + i < Count(shift) && 64 * n + i !in live[p]
  {
    assert ChunkAt(m, memory, use, lists, live, minShift, p);
    MarkedSmall(m.pages[p].slab, PageWords(memory, p), shift, n, i);
  }

  /** What marking chunk `c` leaves to be settled. */
  lemma MarkedSlab(m: Mem, memory: seq<word>, memory': seq<word>, use: seq<Use>, lists: Lists, live: Live,
                   minShift: nat, p: nat, shift: nat, c: nat)
    requires Chunked(m, memory, use, lists, live, minShift) && p < |use| && use[p] == Chunks(shift)
    requires shift < EXACT_SHIFT && Reserved(shift) <= c < Count(shift) && c !in live[p]
             && SameWordsBut(memory, memory', p)
    requires |memory'| == |memory| && PAGE_WORDS * p + PAGE_WORDS <= |memory|
    requires PageWords(memory', p) == MarkMap(PageWords(memory, p), shift, c)
    ensures var live' := live[p := live[p] + {c}];
            && ChunkedBut(m, memory', use, lists, live', minShift, p) && minShift <= shift
            && Cut(m.pages[p].slab, PageWords(memory', p), shift, live'[p]) && OnSlot(use, lists, minShift, p)
  {
    assert ChunkAt(m, memory, use, lists, live, minShift, p);
    assert Reworded(m, p, m.pages[p].slab) == m;
    MarkChunked(m, memory, memory', use, lists, live, minShift, p, shift, c);
  }

  lemma WordBusy(memory: seq<word>, p: nat, n: nat)
    requires PAGE_WORDS * p + PAGE_WORDS <= |memory| && n < PAGE_WORDS && AllBusy(PageWords(memory, p), n)
    ensures memory[PAGE_WORDS * p + n] == BUSY <==> AllBusy(PageWords(memory, p), n + 1)
  {
    assert PageWords(memory, p)[n] == memory[PAGE_WORDS * p + n];
  }

  /** A page that is not full stays on its slot's list. */
  lemma StayChunked(m: Mem, memory: seq<word>, use: seq<Use>, lists: Lists, live: Live, minShift: nat, p: nat,
          shift: nat)
    requires ChunkedBut(m, memory, use, lists, live, minShift, p) && p < |use| && use[p] == Chunks(shift)
    requires minShift <= shift < PAGE_SHIFT && live[p] != {} && PAGE_WORDS * p + PAGE_WORDS <= |memory|
    requires Cut(m.pages[p].slab, PageWords(memory, p), shift, live[p]) && OnSlot(use, lists, minShift, p)
    requires !Full(shift, live[p])
    ensures Chunked(m, memory, use, lists, live, minShift)
  {
    assert ChunkAt(m, memory, use, lists, live, minShift, p);
  }

  lemma SmallMarked(memory: seq<word>, memory': seq<word>, p: nat, shift: nat, n: nat, i: nat)
    requires PAGE_WORDS * p + PAGE_WORDS <= |memory| && shift < EXACT_SHIFT && n < MapWords(shift) <= PAGE_WORDS
             && i < 64
    requires memory' == memory[PAGE_WORDS * p + n := Or(memory[PAGE_WORDS * p + n], Power(i))]
    ensures 64 * n + i < Count(shift) && SameWordsBut(memory, memory', p) && OnlyMap(memory, memory', p, shift)
    ensures PageWords(memory', p) == MarkMap(PageWords(memory, p), shift, 64 * n + i)
  {
    Sizes(shift);
    MarkedSmall(0, PageWords(memory, p), shift, n, i);
  }

  lemma InOrder(m: Mem, memory: seq<word>, use: seq<Use>, lists: Lists, live: Live, minShift: nat, p: nat, shift: nat)
    requires Chunked(m, memory, use, lists, live, minShift) && p < |use| && use[p] == Chunks(shift)
    ensures |m.pages| == |live| == |use| && PAGE_WORDS * p + PAGE_WORDS <= |memory|
    ensures minShift <= shift < PAGE_SHIFT && Cut(m.pages[p].slab, PageWords(memory, p), shift, live[p])
            && live[p] != {}
  {
    assert ChunkAt(m, memory, use, lists, live, minShift, p);
  }

  lemma MarkWord(slab: word, shift: nat, c: nat)
    requires EXACT_SHIFT <= shift < PAGE_SHIFT && c < Count(shift)
    ensures MarkSlab(slab, shift, c) == Or(slab, Power(if shift == EXACT_SHIFT then c else MAP_SHIFT + c))
    ensures forall s: seq<word> :: |s| == PAGE_WORDS ==> MarkMap(s, shift, c) == s
  {
    Sizes(shift);
  }

  /** A page of 64-byte chunks on its slot's list has a clear bit, and a clear bit is a free chunk. */
  lemma ExactFacts(m: Mem, memory: seq<word>, use: seq<Use>, lists: Lists, live: Live, minShift: nat, p: nat)
    requires Chunked(m, memory, use, lists, live, minShift) && p < |use| && use[p] == Chunks(EXACT_SHIFT)
    requires OnSlot(use, lists, minShift, p)
    ensures |m.pages| == |use| == |live| && m.pages[p].slab != BUSY && Count(EXACT_SHIFT) == 64
            && Reserved(EXACT_SHIFT) == 0
    ensures forall c: nat :: c < 64 && !Bit(m.pages[p].slab, c) ==> c !in live[p]
  {
    Sizes(EXACT_SHIFT);
    InOrder(m, memory, use, lists, live, minShift, p, EXACT_SHIFT);
    FullExact(m.pages[p].slab, PageWords(memory, p), live[p]);
    assert ChunkAt(m, memory, use, lists, live, minShift, p);
    hide Bit, PageWords, Count;
    forall c: nat | c < 64 && !Bit(m.pages[p].slab, c)
      ensures c !in live[p]
    {
      assert !Marked(m.pages[p].slab, PageWords(memory, p), EXACT_SHIFT, c);
    }
  }

  lemma BigFacts(m: Mem, memory: seq<word>, use: seq<Use>, lists: Lists, live: Live, minShift: nat, p: nat, shift: nat)
    requires Chunked(m, memory, use, lists, live, minShift) && p < |use| && use[p] == Chunks(shift)
    requires OnSlot(use, lists, minShift, p) && EXACT_SHIFT < shift
    ensures |m.pages| == |use| == |live| && shift < PAGE_SHIFT && Reserved(shift) == 0
    ensures And(m.pages[p].slab, MAP_MASK) != MapMask(shift)
    ensures forall j: nat :: MAP_SHIFT + Count(shift) <= j < 64 ==> !Bit(m.pages[p].slab, j)
    ensures forall c: nat :: c < Count(shift) && !Bit(m.pages[p].slab, MAP_SHIFT + c) ==> c !in live[p]
  {
    InOrder(m, memory, use, lists, live, minShift, p, shift);
    FullBig(m.pages[p].slab, PageWords(memory, p), shift, live[p]);
    assert ChunkAt(m, memory, use, lists, live, minShift, p);
    hide Bit, PageWords, Count, And, MapMask;
    forall c: nat | c < Count(shift) && !Bit(m.pages[p].slab, MAP_SHIFT + c)
      ensures c !in live[p]
    {
      assert !Marked(m.pages[p].slab, PageWords(memory, p), shift, c);
    }
  }

  lemma CutDone(m: Mem, m': Mem, memory: seq<word>, memory': seq<word>, use: seq<Use>, lists: Lists, live: Live,
                minShift: nat, p: nat, slot: nat, slab: word) returns (use': seq<Use>, lists': Lists, live': Live)
    requires Ok(m, use, lists, minShift, {}) && Chunked(m, memory, use, lists, live, minShift) && p < |use|
             && use[p] == Head(false, 1)
    requires Slot(slot) in lists && lists[Slot(slot)] == [] && slot < |m.slots| && minShift + slot < PAGE_SHIFT
             && |m.pages| == |use|
    requires m' == FreshPage(m, p, slot, slab, KindOf(minShift + slot)) && SameWordsBut(memory, memory', p)
    requires |memory'| == |memory| == PAGE_WORDS * |use|
    requires Cut(slab, PageWords(memory', p), minShift + slot, {Reserved(minShift + slot)})
    ensures |live| == |use| && use' == use[p := Chunks(minShift + slot)]
            && live' == live[p := {Reserved(minShift + slot)}]
    ensures Ok(m', use', lists', minShift, {}) && Chunked(m', memory', use', lists', live', minShift)
    ensures |use'| == |use| && FreeCount(use', |use|) == FreeCount(use, |use|)
  {
    CutFacts(m, memory, use, lists, live, minShift, p, slot);
    hide Ok, Chunked, FreeCount, PageWords, Cut, Reserved, SameWordsBut, FreshPage;
    CutOk(m, m', use, lists, minShift, p, slot, slab);
    CutChunked(m, m', memory, memory', use, lists, live, minShift, p, slot, slab, Reserved(minShift + slot));
    use', lists', live' := use[p := Chunks(minShift + slot)], lists[Slot(slot) := [p]],
        live[p := {Reserved(minShift + slot)}];
  }

  lemma CutFacts(m: Mem, memory: seq<word>, use: seq<Use>, lists: Lists, live: Live, minShift: nat, p: nat, slot: nat)
    requires Ok(m, use, lists, minShift, {}) && Chunked(m, memory, use, lists, live, minShift) && p < |use|
    requires use[p] == Head(false, 1) && Slot(slot) in lists
    ensures slot < |m.slots| && |m.pages| == |use| == |live| && |memory| == PAGE_WORDS * |use|
    ensures FreeCount(use[p := Chunks(minShift + slot)], |use|) == FreeCount(use, |use|)
  {
    CutApart(use, p, minShift + slot);
  }

  // ----- taking chunks back

  /** A page that is on no list finds its slot's list ready for it. */
  lemma RelinkFacts(m: Mem, memory: seq<word>, use: seq<Use>, lists: Lists, live: Live, minShift: nat, p: nat,
          shift: nat)
    requires Ok(m, use, lists, minShift, {}) && Chunked(m, memory, use, lists, live, minShift) && p < |use|
    requires use[p] == Chunks(shift) && !OnSlot(use, lists, minShift, p)
    ensures minShift <= shift < PAGE_SHIFT && |m.pages| == |use| == |live| && PAGE_WORDS * p + PAGE_WORDS <= |memory|
    ensures var slot := shift - minShift;
            && slot < |m.slots| && Slot(slot) in lists && p !in lists[Slot(slot)]
            && m.Has(m.slots[slot].next) && m.slots[slot].next != At(p)
  {
    hide Ok, Chunked, Pushed;
    InOrder(m, memory, use, lists, live, minShift, p, shift);
    SlotThere(m, memory, use, lists, live, minShift, shift - minShift);
    SlotReady(m, use, lists, minShift, p, shift - minShift);
  }

  lemma SlotThere(m: Mem, memory: seq<word>, use: seq<Use>, lists: Lists, live: Live, minShift: nat, slot: nat)
    requires Chunked(m, memory, use, lists, live, minShift) && minShift + slot < PAGE_SHIFT
    ensures slot < |m.slots|
  {
  }

  lemma SlotReady(m: Mem, use: seq<Use>, lists: Lists, minShift: nat, p: nat, slot: nat)
    requires Ok(m, use, lists, minShift, {}) && p < |use| && use[p] == Chunks(minShift + slot)
    requires slot < |m.slots| && !OnSlot(use, lists, minShift, p)
    ensures Slot(slot) in lists && p !in lists[Slot(slot)]
    ensures m.Has(m.slots[slot].next) && m.slots[slot].next != At(p)
  {
    hide Pushed, Layout, Encodes, Apart;
    assert m.Has(Slot(slot)) && m.Get(Slot(slot)) == m.slots[slot];
    PushedList(m, Slot(slot), lists[Slot(slot)], p, KindOf(minShift + slot));
  }

  lemma RelinkOk(m: Mem, m': Mem, memory: seq<word>, use: seq<Use>, lists: Lists, live: Live, minShift: nat,
                 p: nat, slot: nat) returns (lists': Lists)
    requires Ok(m, use, lists, minShift, {}) && Chunked(m, memory, use, lists, live, minShift) && p < |use|
    requires use[p] == Chunks(minShift + slot) && Slot(slot) in lists && p !in lists[Slot(slot)]
    requires slot < |m.slots| && |m.pages| == |use| && m.Has(m.slots[slot].next) && m.slots[slot].next != At(p)
    requires m' == Pushed(m, Slot(slot), p, KindOf(minShift + slot)) && PAGE_WORDS * p + PAGE_WORDS <= |memory|
    ensures |live| == |use| == |m'.pages| && m'.pages[p].slab == m.pages[p].slab
    ensures Ok(m', use, lists', minShift, {}) && OnSlot(use, lists', minShift, p)
    ensures ChunkedBut(m', memory, use, lists', live, minShift, p)
    ensures Cut(m'.pages[p].slab, PageWords(memory, p), minShift + slot, live[p])
  {
    hide Ok, Chunked, Pushed, Cut, PageWords, OnSlot, SameElsewhere;
    lists' := lists[Slot(slot) := [p] + lists[Slot(slot)]];
    InOrder(m, memory, use, lists, live, minShift, p, minShift + slot);
    PushSlotOk(m, use, lists, minShift, {}, slot, p, KindOf(minShift + slot));
    PushSlotSame(m, m', use, lists, minShift, slot, p);
    RelinkChunked(m, m', memory, use, lists, lists', live, minShift, p, slot);
  }

  lemma SameLength(m: Mem, m': Mem, use: seq<Use>, use': seq<Use>, s: nat, n: nat)
    requires SameElsewhere(m, m', use, use', s, n)
    ensures |use'| == |use| == |m.pages| == |m'.pages|
  {
  }

  lemma RelinkChunked(m: Mem, m': Mem, memory: seq<word>, use: seq<Use>, lists: Lists, lists': Lists, live: Live,
                      minShift: nat, p: nat, slot: nat)
    requires Chunked(m, memory, use, lists, live, minShift) && p < |use| && use[p] == Chunks(minShift + slot)
    requires Slot(slot) in lists && lists' == lists[Slot(slot) := [p] + lists[Slot(slot)]]
    requires SameElsewhere(m, m', use, use, p, 1) && |m'.slots| == |m.slots|
    ensures ChunkedBut(m', memory, use, lists', live, minShift, p) && OnSlot(use, lists', minShift, p)
  {
    hide Cut, PageWords, SameElsewhere;
    assert p in lists'[Slot(slot)];
    SameLength(m, m', use, use, p, 1);
    ChunksKept(m, m', memory, memory, use, use, lists, lists', live, live, minShift, p);
  }

  lemma PushSlotSame(m: Mem, m': Mem, use: seq<Use>, lists: Lists, minShift: nat, slot: nat, p: nat)
    requires Ok(m, use, lists, minShift, {}) && Slot(slot) in lists && p < |use|
    requires slot < |m.slots| && |m.pages| == |use| && m.Has(m.slots[slot].next) && m.slots[slot].next != At(p)
    requires m' == Pushed(m, Slot(slot), p, KindOf(minShift + slot))
    ensures SameElsewhere(m, m', use, use, p, 1) && |m'.slots| == |m.slots| && m'.pages[p].slab == m.pages[p].slab
  {
    LinkedTo(m, use, lists, minShift, slot);
    hide Ok;
    PushedFields(m, Slot(slot), p, KindOf(minShift + slot));
    hide Pushed;
  }

  /** The first page on a slot's list is a page of chunks. */
  lemma LinkedTo(m: Mem, use: seq<Use>, lists: Lists, minShift: nat, slot: nat)
    requires Ok(m, use, lists, minShift, {}) && Slot(slot) in lists && slot < |m.slots|
    ensures m.slots[slot].next.At? ==> var q := m.slots[slot].next.page; q < |m.pages| && m.pages[q].next != Null
  {
    var l := lists[Slot(slot)];
    assert m.Get(Slot(slot)) == m.slots[slot];
    assert |l| > 0 ==> Placed(m, Slot(slot), l, 0);
  }

  /** Linking a page in in another order comes to the same. */
  lemma RelinkPushed(m: Mem, m': Mem, slot: nat, p: nat, kind: Kind)
    requires slot < |m.slots| && p < |m.pages|
    requires var b := m.slots[slot].next;
             && m.Has(b) && b != At(p)
             && var m1 := m.(pages := m.pages[p := m.pages[p].(next := b)]);
                var m2 := m1.(slots := m1.slots[slot := m1.slots[slot].(next := At(p))]);
                var m3 := m2.(pages := m2.pages[p := m2.pages[p].(prev := Slot(slot), kind := kind)]);
                m' == m3.SetPrev(b, At(p), kind)
    ensures m' == Pushed(m, Slot(slot), p, kind)
  {
    var w := Pushed(m, Slot(slot), p, kind);
    assert m'.pages == w.pages;
    assert m'.slots == w.slots;
  }

  lemma LiveRange(slab: word, map': seq<word>, shift: nat, live: set<nat>, c: nat)
    requires Cut(slab, map', shift, live) && c in live
    ensures shift < PAGE_SHIFT && Reserved(shift) <= c < Count(shift)
    ensures shift < EXACT_SHIFT ==> c / 64 < MapWords(shift) <= PAGE_WORDS
  {
    Sizes(shift);
  }

  lemma ClearWord(slab: word, shift: nat, c: nat)
    requires EXACT_SHIFT <= shift < PAGE_SHIFT && c < Count(shift)
    ensures ClearSlab(slab, shift, c) == And(slab, Not(Power(if shift == EXACT_SHIFT then c else MAP_SHIFT + c)))
    ensures forall s: seq<word> :: |s| == PAGE_WORDS ==> ClearMap(s, shift, c) == s
  {
    Sizes(shift);
  }

  lemma SmallCleared(memory: seq<word>, memory': seq<word>, p: nat, shift: nat, n: nat, i: nat)
    requires PAGE_WORDS * p + PAGE_WORDS <= |memory| && shift < EXACT_SHIFT && n < MapWords(shift) <= PAGE_WORDS
             && i < 64
    requires memory' == memory[PAGE_WORDS * p + n := And(memory[PAGE_WORDS * p + n], Not(Power(i)))]
    ensures 64 * n + i < Count(shift) && SameWordsBut(memory, memory', p) && OnlyMap(memory, memory', p, shift)
    ensures PageWords(memory', p) == ClearMap(PageWords(memory, p), shift, 64 * n + i)
  {
    Sizes(shift);
    MarkedSmall(0, PageWords(memory, p), shift, n, i);
  }

  lemma ReleaseFacts(m: Mem, use: seq<Use>, lists: Lists, minShift: nat, p: nat)
    requires p < |use| && Ok(m, use, lists, minShift, {}) && OnSlot(use, lists, minShift, p)
    ensures RunAt(use, p, 1) && Taken(use[p])
  {
  }

  lemma ReleasedChunked(m: Mem, m': Mem, memory: seq<word>, use: seq<Use>, use': seq<Use>, lists: Lists, lists': Lists,
                        live: Live, minShift: nat, p: nat)
    requires ChunkedBut(m, memory, use, lists, live, minShift, p) && p < |use| && live[p] == {}
             && |m'.slots| == |m.slots|
    requires SameElsewhere(m, m', use, use', p, 1) && SlotMembers(lists, lists', p) && FreeWindow(use', p, 1)
    ensures Chunked(m', memory, use', lists', live, minShift) && TakenElsewhere(use, use', p, 1) && !Taken(use'[p])
  {
    EmptiedChunked(m, m', memory, use, use', lists, lists', live, minShift, p);
  }

  /** The first `i` words of a fresh bitmap with `n` marks. */
  function FilledWord(n: nat, k: nat): word {
    if k < n / 64 then BUSY else if k == n / 64 then OnesBelow(n % 64) else 0
  }

  ghost predicate Filled(map': seq<word>, n: nat, i: nat)
    requires i <= |map'|
  {
    forall k: nat :: k < i ==> map'[k] == FilledWord(n, k)
  }

  /** The first `i` words of the bitmap of page `p` are written, and no other words. */
  ghost predicate MapFilled(words: seq<word>, memory: seq<word>, p: nat, shift: nat, n: nat, i: nat) {
    && SameWordsBut(words, memory, p) && OnlyMap(words, memory, p, shift)
    && PAGE_WORDS * p + PAGE_WORDS <= |memory| && i <= PAGE_WORDS && Filled(PageWords(memory, p), n, i)
  }

  lemma MapUnchanged(words: seq<word>, p: nat, shift: nat, n: nat)
    requires PAGE_WORDS * p + PAGE_WORDS <= |words|
    ensures MapFilled(words, words, p, shift, n, 0)
  {
  }

  lemma MapDone(words: seq<word>, memory: seq<word>, p: nat, shift: nat)
    requires shift < EXACT_SHIFT && MapFilled(words, memory, p, shift, Reserved(shift) + 1, MapWords(shift))
    ensures SameWordsBut(words, memory, p) && FreshMap(PageWords(memory, p), shift)
    ensures OnlyMap(words, memory, p, shift) && |memory| == |words|
  {
    hide MapWords, Reserved, OnesBelow;
  }

  lemma MapRoom(shift: nat)
    requires shift < EXACT_SHIFT
    ensures (Reserved(shift) + 1) / 64 < MapWords(shift) <= PAGE_WORDS
  {
    Sizes(shift);
    hide Count, Reserved, MapWords, Pow2;
  }

  lemma SetWordAt(memory: seq<word>, p: nat, i: nat, v: word)
    requires PAGE_WORDS * p + PAGE_WORDS <= |memory| && i < PAGE_WORDS
    ensures PageWords(memory[PAGE_WORDS * p + i := v], p) == PageWords(memory, p)[i := v]
    ensures SameWordsBut(memory, memory[PAGE_WORDS * p + i := v], p)
  {
  }

  // ----- blocks

  /** Records of other slots stay. */
  ghost predicate StatsElsewhere(stats: seq<Stat>, stats': seq<Stat>, slot: int) {
    |stats'| == |stats| && 0 <= slot < |stats| && forall i :: 0 <= i < |stats| && i != slot ==> stats'[i] == stats[i]
  }

  /** Why a request fails: among any pages in a row, as many as it takes, one is not free, or not a
      single page and not a single chunk of the right size is free. */
  ghost predicate NoRoom(use: seq<Use>, live: Live, size: nat, minShift: nat)
    requires |live| == |use| && minShift < PAGE_SHIFT
  {
    if size > MAX_SIZE then forall s: nat :: !FreeWindow(use, s, PagesOf(size))
    else Exhausted(use, live, ShiftOf(size, minShift))
  }

  lemma CountedMore(stats: seq<Stat>, stats': seq<Stat>, use: seq<Use>, live: Live, use': seq<Use>, live': Live,
                    minShift: nat, p: nat, shift: nat, c: nat)
    requires Counted(stats, use, live, minShift) && TakenElsewhere(use, use', p, 1) && p < |use|
             && use'[p] == Chunks(shift)
    requires use[p] == Chunks(shift) || (!Taken(use[p]) && live[p] == {})
    requires c !in live[p] && live' == live[p := live[p] + {c}] && minShift <= shift < PAGE_SHIFT && |stats'| == |stats|
    requires StatsElsewhere(stats, stats', shift - minShift)
    requires var s, s' := stats[shift - minShift], stats'[shift - minShift];
             && s'.total == s.total + CapAt(use'[p], shift) - CapAt(use[p], shift) && s'.used == s.used + 1
    ensures Counted(stats', use', live', minShift)
  {
    CountedChange(stats, stats', use, live, use', live', minShift, p, shift);
  }

  lemma TicksKept(stats: seq<Stat>, stats': seq<Stat>, use: seq<Use>, live: Live, minShift: nat)
    requires Counted(stats, use, live, minShift) && |stats'| == |stats|
    requires forall i :: 0 <= i < |stats| ==> stats'[i].total == stats[i].total && stats'[i].used == stats[i].used
    ensures Counted(stats', use, live, minShift)
  {
    forall i: nat | i < |stats'|
      ensures Tallied(stats'[i], use, live, minShift + i)
    {
      assert Tallied(stats[i], use, live, minShift + i);
    }
  }

  lemma ShiftBounds(size: nat, minShift: nat, shift: nat)
    requires minShift < PAGE_SHIFT && Pow2(minShift) < size <= MAX_SIZE && 1 <= shift
    requires Pow2(shift - 1) <= size - 1 < Pow2(shift)
    ensures minShift <= shift < PAGE_SHIFT && size <= Pow2(shift) && size > Pow2(shift - 1)
  {
    Pow2Table();
    if shift < minShift {
      Pow2Mono(shift, minShift);
    }
    if 11 < shift - 1 {
      Pow2Mono(11, shift - 1);
    }
  }

  lemma SlotIn(m: Mem, memory: seq<word>, use: seq<Use>, lists: Lists, live: Live, minShift: nat, shift: nat)
    requires Ok(m, use, lists, minShift, {}) && Chunked(m, memory, use, lists, live, minShift)
             && minShift <= shift < PAGE_SHIFT
    ensures shift - minShift < |m.slots| && Slot(shift - minShift) in lists && |live| == |use| == |m.pages|
  {
    assert m.Has(Slot(shift - minShift));
  }

  /** What the head of a slot's list points to. */
  lemma FirstListed(m: Mem, memory: seq<word>, use: seq<Use>, lists: Lists, live: Live, minShift: nat, slot: nat)
    requires Ok(m, use, lists, minShift, {}) && Chunked(m, memory, use, lists, live, minShift)
             && slot < PAGE_SHIFT - minShift
    ensures slot < |m.slots| && Slot(slot) in lists && |live| == |use| == |m.pages|
    ensures var next := m.slots[slot].next;
            m.Has(next) &&
            if m.Get(next).next == next then lists[Slot(slot)] == []
            else && next.At? && next.page < |use| && use[next.page] == Chunks(minShift + slot)
                 && OnSlot(use, lists, minShift, next.page)
  {
    SlotIn(m, memory, use, lists, live, minShift, minShift + slot);
    var c := Slot(slot);
    var l := lists[c];
    assert Listed(m, c, l) && m.Get(c) == m.slots[slot];
    if |l| > 0 {
      assert Placed(m, c, l, 0) && l[0] in l;
      OnList(m, use, lists, minShift, {}, c, l[0]);
      assert m.Get(At(l[0])) == m.pages[l[0]];
    }
  }

  lemma StillTaken(use: seq<Use>, live: Live, live': Live, p: nat, shift: nat, c: nat)
    requires p < |use| == |live| && live' == live[p := live[p] + {c}]
    ensures TakenElsewhere(use, use, p, 1)
  {
  }

  /** A free page has been made busy; its chunks are still none. */
  lemma NewPageFacts(m: Mem, m': Mem, memory: seq<word>, use: seq<Use>, use': seq<Use>, lists: Lists, lists': Lists,
                     live: Live, minShift: nat, p: nat)
    requires Ok(m, use, lists, minShift, {}) && Ok(m', use', lists', minShift, {})
             && Chunked(m, memory, use, lists, live, minShift)
    requires SameElsewhere(m, m', use, use', p, 1) && FreeWindow(use, p, 1) && |m'.slots| == |m.slots|
    requires lists' == lists[Free := lists'[Free]] && p < |use'| && use'[p] == Head(false, 1)
    ensures Chunked(m', memory, use', lists', live, minShift) && |use'| == |use| == |live|
    ensures TakenElsewhere(use, use', p, 1) && !Taken(use[p]) && live[p] == {}
  {
    assert lists'.Keys == lists.Keys;
    ChunksThroughPages(m, m', memory, use, use', lists, lists', live, minShift, p, 1);
    assert ChunkAt(m, memory, use, lists, live, minShift, p);
  }

  lemma CutTaken(use: seq<Use>, use1: seq<Use>, use': seq<Use>, live: Live, live': Live, p: nat, shift: nat, c: nat)
    requires p < |use| == |use1| == |live| && TakenElsewhere(use, use1, p, 1) && shift < PAGE_SHIFT
    requires use' == use1[p := Chunks(shift)]
    requires live' == live[p := {c}] && live[p] == {} && c == Reserved(shift)
    ensures TakenElsewhere(use, use', p, 1) && live' == live[p := live[p] + {c}] && use'[p] == Chunks(shift)
            && c < Count(shift)
  {
    Sizes(shift);
    assert {} + {c} == {c};
  }

  lemma NoneLeft(m: Mem, memory: seq<word>, use: seq<Use>, lists: Lists, live: Live, minShift: nat, shift: nat)
    requires Ok(m, use, lists, minShift, {}) && Chunked(m, memory, use, lists, live, minShift)
             && minShift <= shift < PAGE_SHIFT
    requires Slot(shift - minShift) in lists && lists[Slot(shift - minShift)] == []
             && forall s: nat :: !FreeWindow(use, s, 1)
    ensures |live| == |use| && NoChunk(use, live, shift)
  {
    forall p: nat | p < |use|
      ensures Taken(use[p]) && (use[p] == Chunks(shift) ==> Full(shift, live[p]))
    {
      assert ChunkAt(m, memory, use, lists, live, minShift, p);
      assert !FreeWindow(use, p, 1);
    }
  }

  lemma WholeFacts(m: Mem, m': Mem, memory: seq<word>, stats: seq<Stat>, use: seq<Use>, use': seq<Use>,
                   lists: Lists, lists': Lists, live: Live, minShift: nat, p: nat, n: nat)
    requires Ok(m, use, lists, minShift, {}) && Ok(m', use', lists', minShift, {})
             && Chunked(m, memory, use, lists, live, minShift)
    requires SameElsewhere(m, m', use, use', p, n) && FreeWindow(use, p, n) && |m'.slots| == |m.slots| && 0 < n
    requires lists' == lists[Free := lists'[Free]] && p < |use'|
    requires use'[p] == Head(false, n) && forall i :: p < i < p + n ==> use'[i] == Body(false, p)
    requires Counted(stats, use, live, minShift)
    ensures Chunked(m', memory, use', lists', live, minShift) && Counted(stats, use', live, minShift)
    ensures Handed(use, live, use', live, p * PAGE_SIZE, n * PAGE_SIZE)
  {
    assert lists'.Keys == lists.Keys;
    hide Ok, Counted, FreeCount;
    ChunksThroughPages(m, m', memory, use, use', lists, lists', live, minShift, p, n);
    CountedKept(stats, use, use', live, minShift);
    HandedPages(use, live, use', p, n);
  }

  /** What taking back chunk `c` of page `p` starts from. */
  lemma ReturnFacts(m: Mem, memory: seq<word>, use: seq<Use>, lists: Lists, live: Live, minShift: nat,
                    p: nat, shift: nat, c: nat)
    requires Ok(m, use, lists, minShift, {}) && Chunked(m, memory, use, lists, live, minShift) && p < |use|
    requires use[p] == Chunks(shift) && c in live[p]
    ensures |m.pages| == |use| == |live| && PAGE_WORDS * p + PAGE_WORDS <= |memory| && minShift <= shift < PAGE_SHIFT
    ensures ChunkedBut(m, memory, use, lists, live, minShift, p)
            && Cut(m.pages[p].slab, PageWords(memory, p), shift, live[p])
    ensures m.pages[p].next == Null <==> !OnSlot(use, lists, minShift, p)
    ensures shift == EXACT_SHIFT ==> (m.pages[p].slab == BUSY <==> !OnSlot(use, lists, minShift, p))
    ensures Reserved(shift) <= c < Count(shift)
  {
    InOrder(m, memory, use, lists, live, minShift, p, shift);
    assert ChunkAt(m, memory, use, lists, live, minShift, p);
    if OnSlot(use, lists, minShift, p) {
      NextTells(m, use, lists, minShift, p);
    }
    if shift == EXACT_SHIFT {
      FullExact(m.pages[p].slab, PageWords(memory, p), live[p]);
    }
  }

  lemma NotFullWithout(shift: nat, live: set<nat>, c: nat)
    requires shift < PAGE_SHIFT && Reserved(shift) <= c < Count(shift) && c !in live
    ensures !Full(shift, live)
  {
  }

  /** An address among the chunks that hold a page's bitmap. */
  ghost predicate InBitmap(use: seq<Use>, a: nat) {
    var p := a / PAGE_SIZE;
    p < |use| && use[p].Chunks? && use[p].shift < PAGE_SHIFT
        && a % PAGE_SIZE / Pow2(use[p].shift) < Reserved(use[p].shift)
  }

  /** The address of one of the chunks that hold a page's bitmap. */
  ghost predicate BitmapChunk(use: seq<Use>, a: nat) {
    InBitmap(use, a) && a % PAGE_SIZE % Pow2(use[a / PAGE_SIZE].shift) == 0
  }

  /** An address that is not that of a chunk is not that of a block. */
  lemma NoChunkAt(use: seq<Use>, live: Live, a: nat, shift: nat)
    requires |live| == |use| && a / PAGE_SIZE < |use| && use[a / PAGE_SIZE] == Chunks(shift) && shift < PAGE_SHIFT
    requires !BitmapChunk(use, a)
    ensures a % Pow2(shift) != 0 ==> BlockAt(use, live, a) == 0
    ensures a % Pow2(shift) == 0 ==> !InBitmap(use, a)
  {
    BlockOnPage(use, live, a, shift);
    PlaceTold(a, shift);
    hide Pow2, BlockAt, InBitmap;
  }

  lemma Outside(m: Mem, memory: seq<word>, use: seq<Use>, lists: Lists, live: Live, minShift: nat, a: int)
    requires Chunked(m, memory, use, lists, live, minShift)
    ensures |live| == |use| == |m.pages| && |memory| == PAGE_WORDS * |use|
    ensures a >= PAGE_SIZE * |use| ==> BlockAt(use, live, a) == 0
  {
  }

  /** Taking back the block at `a`: done just when there is one, undoing its handing out. */
  ghost predicate FreedBlock(ok: bool, use: seq<Use>, live: Live, use': seq<Use>, live': Live, a: nat)
    requires |live| == |use|
  {
    && (ok <==> BlockAt(use, live, a) > 0)
    && (ok ==> Handed(use', live', use, live, a, BlockAt(use, live, a)))
    && (!ok ==> use' == use && live' == live)
  }

  ghost predicate RequestsSame(stats: seq<Stat>, stats': seq<Stat>) {
    |stats'| == |stats| && forall i :: 0 <= i < |stats| ==>
              stats'[i].reqs == stats[i].reqs && stats'[i].fails == stats[i].fails
  }

  /** The kind in the descriptor tells pages of chunks apart, and from other pages. */
  lemma KindTold(m: Mem, memory: seq<word>, use: seq<Use>, lists: Lists, live: Live, minShift: nat, p: nat)
    requires Ok(m, use, lists, minShift, {}) && Chunked(m, memory, use, lists, live, minShift) && p < |use|
    ensures |m.pages| == |use|
    ensures var shift := And(m.pages[p].slab, SHIFT_MASK);
            match m.pages[p].kind
            case Whole => !use[p].Chunks?
            case Exact => use[p] == Chunks(EXACT_SHIFT)
            case Small => use[p] == Chunks(shift) && shift < EXACT_SHIFT
            case Big => use[p] == Chunks(shift) && EXACT_SHIFT < shift
  {
    assert Encodes(m, use, {}, p);
    if use[p].Chunks? {
      InOrder(m, memory, use, lists, live, minShift, p, use[p].shift);
    }
  }

  /** Address `a` is that of chunk `c` on its page, which is handed out. */
  ghost predicate ChunkHeld(use: seq<Use>, live: Live, a: nat, shift: nat, c: nat)
    requires |live| == |use|
  {
    var p := a / PAGE_SIZE;
    p < |use| && use[p] == Chunks(shift) && c in live[p] && a == ChunkAddr(p, shift, c)
        && BlockAt(use, live, a) == Pow2(shift)
  }

  /** What the descriptor of a page that is not cut says of an address on it. */
  lemma ToldWhole(m: Mem, use: seq<Use>, lists: Lists, live: Live, minShift: nat, a: nat)
    requires Ok(m, use, lists, minShift, {}) && |live| == |use| && a / PAGE_SIZE < |use| && !use[a / PAGE_SIZE].Chunks?
    ensures var p := a / PAGE_SIZE;
            var slab := m.pages[p].slab;
            if a % PAGE_SIZE != 0 || And(slab, PAGE_START) == 0 || slab == PAGE_BUSY then BlockAt(use, live, a) == 0
            else use[p] == Head(false, And(slab, Not(PAGE_START))) && a == p * PAGE_SIZE &&
                 BlockAt(use, live, a) == And(slab, Not(PAGE_START)) * PAGE_SIZE > 0
  {
    assert Encodes(m, use, {}, a / PAGE_SIZE) && Fits(use, a / PAGE_SIZE);
    hide And, Not, Pow2;
    match use[a / PAGE_SIZE]
    case Head(_, n) => TopBit(n);
    case Body(_, _) => TopBit(0);
  }

  /** What the marks on a page of chunks say of the address of a chunk on it. */
  lemma ToldChunk(m: Mem, memory: seq<word>, use: seq<Use>, lists: Lists, live: Live, minShift: nat, a: nat, shift: nat)
    requires Chunked(m, memory, use, lists, live, minShift) && a / PAGE_SIZE < |use|
             && use[a / PAGE_SIZE] == Chunks(shift)
    requires !InBitmap(use, a) && a % Pow2(shift) == 0
    ensures shift < PAGE_SHIFT && |live| == |use| == |m.pages| && |memory| == PAGE_WORDS * |use|
            && Pow2(EXACT_SHIFT) == 64
    ensures var p, c := a / PAGE_SIZE, a % PAGE_SIZE / Pow2(shift);
            && c < Count(shift) && c / 64 < PAGE_WORDS && (shift != EXACT_SHIFT || c < 64)
            && if (if shift < EXACT_SHIFT then And(memory[PAGE_WORDS * p + c / 64], Power(c % 64))
                   else And(m.pages[p].slab, Power(if shift == EXACT_SHIFT then c else MAP_SHIFT + c))) == 0
               then BlockAt(use, live, a) == 0
               else ChunkHeld(use, live, a, shift, c)
  {
    hide Chunked, And, Pow2, Count, Bit, Reserved, MapWords, Marked, BlockAt, Cut, InBitmap, ChunkHeld, ChunkAddr;
    var p := a / PAGE_SIZE;
    InOrder(m, memory, use, lists, live, minShift, p, shift);
    WordsOf(m, memory, use, lists, live, minShift);
    PlaceTold(a, shift);
    var c := a % PAGE_SIZE / Pow2(shift);
    MarkTold(m.pages[p].slab, PageWords(memory, p), shift, c);
    HeldTold(m.pages[p].slab, PageWords(memory, p), use, live, a, shift, c);
  }

  /** A chunk outside the bitmap is outstanding just when it is marked. */
  lemma HeldTold(slab: word, words: seq<word>, use: seq<Use>, live: Live, a: nat, shift: nat, c: nat)
    requires |live| == |use| && a / PAGE_SIZE < |use| && use[a / PAGE_SIZE] == Chunks(shift)
    requires Cut(slab, words, shift, live[a / PAGE_SIZE]) && !InBitmap(use, a)
    requires c == a % PAGE_SIZE / Pow2(shift) && c < Count(shift) && a % PAGE_SIZE % Pow2(shift) == 0
    requires a == ChunkAddr(a / PAGE_SIZE, shift, c)
    ensures if Marked(slab, words, shift, c) then ChunkHeld(use, live, a, shift, c) else BlockAt(use, live, a) == 0
  {
    hide Pow2, Count, Reserved, MapWords, Marked, BlockAt, Cut, InBitmap, ChunkAddr;
    BlockOnPage(use, live, a, shift);
    LiveTold(slab, words, use, live[a / PAGE_SIZE], a, shift, c);
  }

  lemma WordsOf(m: Mem, memory: seq<word>, use: seq<Use>, lists: Lists, live: Live, minShift: nat)
    requires Chunked(m, memory, use, lists, live, minShift)
    ensures |memory| == PAGE_WORDS * |use| && |live| == |use|
  {
  }

  /** A chunk outside the bitmap is outstanding if it is marked. */
  lemma LiveTold(slab: word, words: seq<word>, use: seq<Use>, held: set<nat>, a: nat, shift: nat, c: nat)
    requires Cut(slab, words, shift, held) && a / PAGE_SIZE < |use| && use[a / PAGE_SIZE] == Chunks(shift)
    requires !InBitmap(use, a) && c == a % PAGE_SIZE / Pow2(shift) && c < Count(shift)
    requires a % PAGE_SIZE % Pow2(shift) == 0
    ensures Marked(slab, words, shift, c) <==> c in held
  {
  }

  lemma ToldSmall(m: Mem, memory: seq<word>, use: seq<Use>, lists: Lists, live: Live, minShift: nat, a: nat, shift: nat)
    requires Chunked(m, memory, use, lists, live, minShift) && a / PAGE_SIZE < |use|
             && use[a / PAGE_SIZE] == Chunks(shift)
    requires !InBitmap(use, a) && shift < EXACT_SHIFT && a % Pow2(shift) == 0
    ensures shift < PAGE_SHIFT && |live| == |use| == |m.pages| && |memory| == PAGE_WORDS * |use|
    ensures var p, c := a / PAGE_SIZE, a % PAGE_SIZE / Pow2(shift);
            && PAGE_WORDS * p + c / 64 < |memory|
            && if And(memory[PAGE_WORDS * p + c / 64], Power(c % 64)) == 0 then BlockAt(use, live, a) == 0
               else ChunkHeld(use, live, a, shift, c)
  {
    hide Chunked, BlockAt, And, InBitmap, Count, Pow2, ChunkHeld;
    ToldChunk(m, memory, use, lists, live, minShift, a, shift);
  }

  lemma BlockOnPage(use: seq<Use>, live: Live, a: nat, shift: nat)
    requires |live| == |use| && a / PAGE_SIZE < |use| && use[a / PAGE_SIZE] == Chunks(shift)
    ensures BlockAt(use, live, a) ==
            if a % PAGE_SIZE % Pow2(shift) == 0 && a % PAGE_SIZE / Pow2(shift) in live[a / PAGE_SIZE] then Pow2(shift)
                else 0
  {
  }

  /** Where on its page the chunk at `a` would be. */
  lemma PlaceTold(a: nat, shift: nat)
    requires shift < PAGE_SHIFT
    ensures Pow2(EXACT_SHIFT) == 64
    ensures var c := a % PAGE_SIZE / Pow2(shift);
            && c < Count(shift) <= PAGE_SIZE && (shift == EXACT_SHIFT ==> c < 64)
            && (a % Pow2(shift) == 0 <==> a % PAGE_SIZE % Pow2(shift) == 0)
            && (a % Pow2(shift) == 0 ==> a == ChunkAddr(a / PAGE_SIZE, shift, c))
  {
    Sizes(shift);
    Pow2Table();
    hide Pow2, Count;
    DivLess(a % PAGE_SIZE, Pow2(shift), Count(shift));
    ModMod(a, Pow2(shift), Count(shift));
    if a % PAGE_SIZE % Pow2(shift) == 0 {
      AddrChunk(a, shift);
    }
  }

  /** How the mark of chunk `c` is tested. */
  lemma MarkTold(slab: word, words: seq<word>, shift: nat, c: nat)
    requires shift < PAGE_SHIFT && c < Count(shift) <= PAGE_SIZE && |words| == PAGE_WORDS
    ensures Marked(slab, words, shift, c) <==>
            (if shift < EXACT_SHIFT then And(words[c / 64], Power(c % 64))
             else And(slab, Power(if shift == EXACT_SHIFT then c else MAP_SHIFT + c))) != 0
  {
    Sizes(shift);
    hide And, Pow2, Count, Bit, MapWords;
    if shift < EXACT_SHIFT {
      TestBit(words[c / 64], c % 64);
    } else if shift == EXACT_SHIFT {
      TestBit(slab, c);
    } else {
      TestBit(slab, MAP_SHIFT + c);
    }
  }

  /** The remainder by a divisor of the page size can be taken within the page. */
  lemma ModMod(a: nat, d: nat, n: nat)
    requires d > 0 && n * d == PAGE_SIZE
    ensures a % d == 0 <==> a % PAGE_SIZE % d == 0
  {
    var q, x := a / PAGE_SIZE, a % PAGE_SIZE;
    DivRest(x, d);
    var k := x / d;
    assert a == (q * n + k) * d + x % d by {
      assert q * PAGE_SIZE == q * n * d;
      assert (q * n + k) * d == q * n * d + k * d;
    }
    ModOf(q * n + k, d, x % d);
  }

  lemma ModOf(q: nat, d: nat, r: nat)
    requires r < d
    ensures (q * d + r) % d == r
  {
    var x := q * d + r;
    DivRest(x, d);
    assert (x / d - q) * d == r - x % d;
    MulSign(x / d - q, d);
  }

  lemma TakenBack(use: seq<Use>, use': seq<Use>, live: Live, live': Live, p: nat, shift: nat, c: nat)
    requires p < |use| == |live| && TakenElsewhere(use, use', p, 1) && use[p] == Chunks(shift)
    requires c in live[p] && live' == live[p := live[p] - {c}]
    ensures |use'| == |use| && TakenElsewhere(use', use, p, 1) && live[p] == live'[p] + {c} && c !in live'[p]
  {
  }

  lemma RunFacts(m: Mem, use: seq<Use>, lists: Lists, minShift: nat, p: nat, n: nat)
    requires Ok(m, use, lists, minShift, {}) && p < |use| && use[p] == Head(false, n)
    ensures RunAt(use, p, n) && Taken(use[p]) && forall i :: p < i < p + n ==> use[i] == Body(false, p)
  {
    assert Fits(use, p);
  }

  lemma ReturnedPages(m: Mem, m': Mem, memory: seq<word>, stats: seq<Stat>, use: seq<Use>, use': seq<Use>,
                      lists: Lists, lists': Lists, live: Live, minShift: nat, p: nat, n: nat)
    requires Chunked(m, memory, use, lists, live, minShift) && Counted(stats, use, live, minShift)
             && |m'.slots| == |m.slots|
    requires SameElsewhere(m, m', use, use', p, n) && FreeWindow(use', p, n) && SlotMembers(lists, lists', p)
    requires RunAt(use, p, n) && use[p] == Head(false, n) && forall i :: p < i < p + n ==> use[i] == Body(false, p)
    ensures Chunked(m', memory, use', lists', live, minShift) && Counted(stats, use', live, minShift)
    ensures Handed(use', live, use, live, p * PAGE_SIZE, n * PAGE_SIZE)
  {
    ChunksThroughPages(m, m', memory, use, use', lists, lists', live, minShift, p, n);
    CountedKept(stats, use, use', live, minShift);
    HandedPages(use', live, use, p, n);
  }

  /** The records cover page `p` and its chunk `c`. */
  lemma SumsCover(stats: seq<Stat>, use: seq<Use>, live: Live, minShift: nat, p: nat, shift: nat, c: nat)
    requires Counted(stats, use, live, minShift) && p < |use| && minShift <= shift < PAGE_SHIFT
    requires use[p] == Chunks(shift) && c in live[p]
    ensures stats[shift - minShift].total >= CapAt(use[p], shift) && stats[shift - minShift].used >= 1
  {
    assert Tallied(stats[shift - minShift], use, live, shift);
    SumsElsewhere(use, live, use[p := Body(true, 0)], live[p := {}], shift, p, |use|);
    assert |live[p]| >= 1 by { assert |live[p] - {c}| == |live[p]| - 1; }
  }

  lemma CountedLess(stats: seq<Stat>, stats': seq<Stat>, use: seq<Use>, live: Live, use': seq<Use>, live': Live,
                    minShift: nat, p: nat, shift: nat, c: nat)
    requires Counted(stats, use, live, minShift) && TakenElsewhere(use, use', p, 1) && p < |use|
             && use[p] == Chunks(shift)
    requires c in live[p] && live' == live[p := live[p] - {c}] && minShift <= shift < PAGE_SHIFT && |stats'| == |stats|
    requires if live'[p] == {} then !Taken(use'[p]) else use' == use
    requires StatsElsewhere(stats, stats', shift - minShift)
    requires var s, s' := stats[shift - minShift], stats'[shift - minShift];
             && s'.total == s.total + CapAt(use'[p], shift) - CapAt(use[p], shift) && s'.used == s.used - 1
    ensures Counted(stats', use', live', minShift)
  {
    assert |live[p]| == |live'[p]| + 1;
    CountedChange(stats, stats', use, live, use', live', minShift, p, shift);
  }

  // ----- a fresh pool

  /** sizeof(ngx_slab_page_t) and sizeof(ngx_slab_stat_t). */
  const DESCRIPTOR_SIZE: nat := 24
  const STAT_SIZE: nat := 32

  function HeadSize(minShift: nat): nat
    requires minShift < PAGE_SHIFT
  {
    (PAGE_SHIFT - minShift) * (DESCRIPTOR_SIZE + STAT_SIZE)
  }

  /** The number of pages there is room for, before the pages are aligned. */
  function RoughCount(base: nat, limit: nat, minShift: nat): nat
    requires minShift < PAGE_SHIFT && base + HeadSize(minShift) <= limit
  {
    (limit - base - HeadSize(minShift)) / (PAGE_SIZE + DESCRIPTOR_SIZE)
  }

  function PagesStart(base: nat, limit: nat, minShift: nat): nat
    requires minShift < PAGE_SHIFT && base + HeadSize(minShift) <= limit
  {
    (base + HeadSize(minShift) + RoughCount(base, limit, minShift) * DESCRIPTOR_SIZE
        + PAGE_SIZE - 1) / PAGE_SIZE * PAGE_SIZE
  }

  function PageCount(base: nat, limit: nat, minShift: nat): nat
    requires minShift < PAGE_SHIFT && base + HeadSize(minShift) <= limit && PagesStart(base, limit, minShift) <= limit
  {
    var pages := RoughCount(base, limit, minShift);
    var m := pages - (limit - PagesStart(base, limit, minShift)) / PAGE_SIZE;
    if m > 0 then pages - m else pages
  }

  /** Behind a slot and a statistic for each chunk size, descriptors and pages fit into the memory, the pages start at
      the next page boundary, and less than two pages are wasted. */
  lemma PagesFit(base: nat, limit: nat, minShift: nat)
    requires minShift < PAGE_SHIFT && base + HeadSize(minShift) <= limit && PagesStart(base, limit, minShift) <= limit
    ensures var start, n := PagesStart(base, limit, minShift), PageCount(base, limit, minShift);
            && start % PAGE_SIZE == 0
            && base + (12 - minShift) * 56 + n * 24 <= start < base + (12 - minShift) * 56 + (n + 2) * 24 + PAGE_SIZE
            && start + n * PAGE_SIZE <= limit < start + (n + 2) * PAGE_SIZE
  {
  }

  function FreshUse(n: nat): (use: seq<Use>)
    ensures |use| == n
  {
    seq(n, i requires 0 <= i => if i == 0 then Head(true, n) else Body(true, 0))
  }

  function FreshLists(slots: nat): Lists {
    var heads: set<Ref> := {Free} + set i: nat | i < slots :: Slot(i);
    map c: Ref | c in heads :: if c == Free then [0] else []
  }

  lemma FreshOk(m: Mem, use: seq<Use>, lists: Lists, minShift: nat, n: nat)
    requires 0 < n <= MAX_PAGES && use == FreshUse(n) && |m.pages| == n && lists == FreshLists(|m.slots|)
    requires m.pages[0] == Page(n, Free, Free, Whole) && forall i :: 0 < i < n ==>
             m.pages[i] == Page(PAGE_FREE, Null, Null, Whole)
    requires m.free.next == At(0) && forall i: nat :: i < |m.slots| ==> m.slots[i].next == Slot(i)
    ensures Ok(m, use, lists, minShift, {}) && FreeCount(use, n) == n
  {
    assert Placed(m, Free, [0], 0);
    forall i: nat | i < n
      ensures Fits(use, i) && Encodes(m, use, {}, i)
    {
    }
    forall c | c in lists
      ensures IsHead(c) && m.Has(c) && Listed(m, c, lists[c])
    {
    }
    assert forall i: nat :: m.Has(Slot(i)) ==> Slot(i) in lists;
    AllFree(use, n);
    hide Fits, Encodes, Listed;
  }

  lemma FreshChunked(m: Mem, memory: seq<word>, stats: seq<Stat>, use: seq<Use>, lists: Lists, live: Live,
          minShift: nat, n: nat)
    requires use == FreshUse(n) && |live| == |m.pages| == n && |memory| == PAGE_WORDS * n && |m.slots| == |stats|
    requires minShift < PAGE_SHIFT && |stats| == PAGE_SHIFT - minShift && forall i :: 0 <= i < n ==> live[i] == {}
    requires forall i :: 0 <= i < |stats| ==> stats[i] == Stat(0, 0, 0, 0)
    ensures Chunked(m, memory, use, lists, live, minShift) && Counted(stats, use, live, minShift)
    ensures forall a: nat :: BlockAt(use, live, a) == 0
  {
    forall i: nat | i < |stats|
      ensures Tallied(stats[i], use, live, minShift + i)
    {
      NoChunks(use, live, minShift + i, n);
    }
  }

  lemma {:induction false} NoChunks(use: seq<Use>, live: Live, shift: nat, k: nat)
    requires |live| == |use| && k <= |use| && shift < PAGE_SHIFT && forall i :: 0 <= i < |use| ==> !use[i].Chunks?
    ensures CapSum(use, shift, k) == 0 && UsedSum(use, live, shift, k) == 0
  {
    if k > 0 {
      NoChunks(use, live, shift, k - 1);
    }
  }
}
