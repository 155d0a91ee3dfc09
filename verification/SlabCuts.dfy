/** The steps of the chunk layer: cutting a page, handing out and taking back a chunk. */
module SlabCuts {
  import opened Words
  import opened Bits
  import opened SlabList
  import opened SlabRuns
  import opened SlabSteps
  import opened SlabChunks
  import opened SlabBlocks

  /** All pages but `p` are in order. */
  ghost predicate ChunkedBut(m: Mem, memory: seq<word>, use: seq<Use>, lists: Lists, live: Live, minShift: nat,
          p: nat) {
    && Sized(m, memory, use, live, minShift)
    && forall q: nat :: q < |use| && q != p ==> ChunkAt(m, memory, use, lists, live, minShift, q)
  }

  /** The words of all pages but `p` are left alone. */
  ghost predicate SameWordsBut(memory: seq<word>, memory': seq<word>, p: nat) {
    |memory'| == |memory| && forall i :: 0 <= i < |memory| && i / PAGE_WORDS != p ==> memory'[i] == memory[i]
  }

  lemma WordsElsewhere(memory: seq<word>, memory': seq<word>, p: nat, q: nat)
    requires SameWordsBut(memory, memory', p) && q != p && PAGE_WORDS * q + PAGE_WORDS <= |memory|
    ensures PageWords(memory', q) == PageWords(memory, q)
  {
  }

  /** The slot lists have the same members, but for page `p`. */
  ghost predicate SameMembersBut(lists: Lists, lists': Lists, p: nat) {
    && lists'.Keys == lists.Keys
    && forall c <- lists :: c.Slot? ==> forall q: nat :: q != p ==> (q in lists'[c] <==> q in lists[c])
  }

  /** Whatever happens to page `p`, the other pages of chunks do not notice. */
  lemma ChunksKept(m: Mem, m': Mem, memory: seq<word>, memory': seq<word>, use: seq<Use>, use': seq<Use>,
                   lists: Lists, lists': Lists, live: Live, live': Live, minShift: nat, p: nat)
    requires ChunkedBut(m, memory, use, lists, live, minShift, p) && Sized(m', memory', use', live', minShift)
    requires SameElsewhere(m, m', use, use', p, 1) && SameWordsBut(memory, memory', p)
             && SameMembersBut(lists, lists', p)
    requires forall q :: 0 <= q < |live| && q != p ==> live'[q] == live[q]
    ensures ChunkedBut(m', memory', use', lists', live', minShift, p)
  {
    forall q: nat | q < |use'| && q != p
      ensures ChunkAt(m', memory', use', lists', live', minShift, q)
    {
      assert ChunkAt(m, memory, use, lists, live, minShift, q);
      WordsElsewhere(memory, memory', p, q);
      hide PageWords, Cut, Full;
    }
  }

  /** A page made busy or free leaves the pages of chunks alone. */
  lemma ChunksThroughPages(m: Mem, m': Mem, memory: seq<word>, use: seq<Use>, use': seq<Use>,
                           lists: Lists, lists': Lists, live: Live, minShift: nat, s: nat, n: nat)
    requires Chunked(m, memory, use, lists, live, minShift) && Sized(m', memory, use', live, minShift)
    requires 0 < n && SameElsewhere(m, m', use, use', s, n) && SameMembersBut(lists, lists', s)
    requires forall i :: s <= i < s + n && i < |use| ==> !use[i].Chunks? && !use'[i].Chunks?
    ensures Chunked(m', memory, use', lists', live, minShift)
  {
    forall q: nat | q < |use'|
      ensures ChunkAt(m', memory, use', lists', live, minShift, q)
    {
      assert ChunkAt(m, memory, use, lists, live, minShift, q);
      hide PageWords, Cut, Full;
    }
  }

  // ----- cutting a page

  /** The busy page `p` becomes the only page on the list of its slot. */
  function FreshPage(m: Mem, p: nat, slot: nat, slab: word, kind: Kind): Mem
    requires p < |m.pages| && slot < |m.slots|
  {
    m.(pages := m.pages[p := Page(slab, Slot(slot), Slot(slot), kind)],
        slots := m.slots[slot := m.slots[slot].(next := At(p))])
  }

  lemma FreshThreads(m: Mem, m': Mem, use: seq<Use>, lists: Lists, minShift: nat, p: nat, slot: nat, slab: word,
          kind: Kind)
    requires Ok(m, use, lists, minShift, {}) && p < |use| && use[p] == Head(false, 1)
    requires Slot(slot) in lists && lists[Slot(slot)] == [] && slot < |m.slots|
             && m' == FreshPage(m, p, slot, slab, kind)
    ensures forall c <- lists :: Listed(m', c, lists[Slot(slot) := [p]][c])
    ensures forall c <- lists :: p !in lists[c]
  {
    var c := Slot(slot);
    forall d | d in lists
      ensures p !in lists[d] && Listed(m', d, lists[c := [p]][d])
    {
      if p in lists[d] {
        OnList(m, use, lists, minShift, {}, d, p);
      }
      if d != c {
        ListedElsewhere(m, m', d, lists[d]);
      } else {
        assert Placed(m', c, [p], 0);
      }
    }
  }

  lemma CutOk(m: Mem, m': Mem, use: seq<Use>, lists: Lists, minShift: nat, p: nat, slot: nat, slab: word)
    requires Ok(m, use, lists, minShift, {}) && p < |use| && use[p] == Head(false, 1)
    requires Slot(slot) in lists && lists[Slot(slot)] == [] && slot < |m.slots|
    requires m' == FreshPage(m, p, slot, slab, KindOf(minShift + slot))
    ensures Ok(m', use[p := Chunks(minShift + slot)], lists[Slot(slot) := [p]], minShift, {})
  {
    hide Listed, Apart, FreshPage;
    var use' := use[p := Chunks(minShift + slot)];
    FreshThreads(m, m', use, lists, minShift, p, slot, slab, KindOf(minShift + slot));
    FreshSizes(m, p, slot, slab, KindOf(minShift + slot));
    forall i: nat | i < |use'|
      ensures Fits(use', i) && Encodes(m', use', {}, i)
    {
      assert Fits(use, i) && Encodes(m, use, {}, i) && Fits(use, p);
    }
    CutApart(use, p, minShift + slot);
  }

  lemma FreshSizes(m: Mem, p: nat, slot: nat, slab: word, kind: Kind)
    requires p < |m.pages| && slot < |m.slots|
    ensures var m' := FreshPage(m, p, slot, slab, kind);
            && |m'.pages| == |m.pages| && |m'.slots| == |m.slots|
            && m'.pages == m.pages[p := Page(slab, Slot(slot), Slot(slot), kind)]
  {
  }

  lemma CutApart(use: seq<Use>, p: nat, shift: nat)
    requires p < |use| && use[p] == Head(false, 1) && Apart(use, {})
    ensures Apart(use[p := Chunks(shift)], {})
    ensures forall i: nat :: FreeHead(use[p := Chunks(shift)], i) <==> FreeHead(use, i)
    ensures FreeCount(use[p := Chunks(shift)], |use|) == FreeCount(use, |use|)
  {
    FreeCountSame(use, use[p := Chunks(shift)], |use|);
    var u := use[p := Chunks(shift)];
    forall i: nat | FreeHead(u, i)
      ensures FreeHead(use, i) && !FreeHead(u, i + u[i].len)
    {
      assert !FreeHead(use, i + use[i].len);
    }
  }

  /** Page `p` has been cut: everything is in order again. */
  lemma CutChunked(m: Mem, m': Mem, memory: seq<word>, memory': seq<word>, use: seq<Use>, lists: Lists, live: Live,
                   minShift: nat, p: nat, slot: nat, slab: word, c: nat)
    requires Chunked(m, memory, use, lists, live, minShift) && p < |use| && use[p] == Head(false, 1)
    requires Slot(slot) in lists && lists[Slot(slot)] == [] && slot < |m.slots| && minShift + slot < PAGE_SHIFT
    requires m' == FreshPage(m, p, slot, slab, KindOf(minShift + slot)) && SameWordsBut(memory, memory', p)
    requires PAGE_WORDS * p + PAGE_WORDS <= |memory'| && Cut(slab, PageWords(memory', p), minShift + slot, {c})
    requires c == Reserved(minShift + slot)
    ensures Chunked(m', memory', use[p := Chunks(minShift + slot)], lists[Slot(slot) := [p]], live[p := {c}], minShift)
  {
    hide PageWords, Cut, Full;
    var use', lists', live' := use[p := Chunks(minShift + slot)], lists[Slot(slot) := [p]], live[p := {c}];
    ChunksKept(m, m', memory, memory', use, use', lists, lists', live, live', minShift, p);
    NotFull(minShift + slot, c);
    assert ChunkAt(m', memory', use', lists', live', minShift, p);
  }

  /** A page has room for more than one chunk. */
  lemma NotFull(shift: nat, c: nat)
    requires shift < PAGE_SHIFT && c == Reserved(shift)
    ensures !Full(shift, {c})
  {
    Pow2Table();
    hide Pow2;
    assert shift == 0 || shift == 1 || shift == 2 || shift == 3 || shift == 4 || shift == 5 || shift == 6 ||
           shift == 7 || shift == 8 || shift == 9 || shift == 10 || shift == 11;
    assert Reserved(shift) + 1 < Count(shift);
    var d := Reserved(shift) + 1;
    var s := {c};
    assert d !in s;
  }

  // ----- handing out a chunk

  /** The descriptor of `p` gets another first word. */
  function Reworded(m: Mem, p: nat, slab: word): Mem
    requires p < |m.pages|
  {
    m.(pages := m.pages[p := m.pages[p].(slab := slab)])
  }

  lemma RewordedSame(m: Mem, use: seq<Use>, p: nat, slab: word)
    requires p < |m.pages| == |use|
    ensures SameElsewhere(m, Reworded(m, p, slab), use, use, p, 1)
  {
  }

  /** Chunk `c` is marked, and page `p` keeps its place on its slot's list if it has room left. */
  lemma MarkChunked(m: Mem, memory: seq<word>, memory': seq<word>, use: seq<Use>, lists: Lists, live: Live,
                    minShift: nat, p: nat, shift: nat, c: nat)
    requires Chunked(m, memory, use, lists, live, minShift) && p < |use| && use[p] == Chunks(shift)
    requires shift < PAGE_SHIFT && Reserved(shift) <= c < Count(shift) && c !in live[p]
             && SameWordsBut(memory, memory', p)
    requires |memory'| == |memory| && PAGE_WORDS * p + PAGE_WORDS <= |memory|
    requires PageWords(memory', p) == MarkMap(PageWords(memory, p), shift, c)
    ensures var m', live' := Reworded(m, p, MarkSlab(m.pages[p].slab, shift, c)), live[p := live[p] + {c}];
            && ChunkedBut(m', memory', use, lists, live', minShift, p)
            && Cut(m'.pages[p].slab, PageWords(memory', p), shift, live'[p])
            && OnSlot(use, lists, minShift, p)
            && (!Full(shift, live'[p]) ==> Chunked(m', memory', use, lists, live', minShift))
  {
    var slab := MarkSlab(m.pages[p].slab, shift, c);
    var m', live' := Reworded(m, p, slab), live[p := live[p] + {c}];
    assert ChunkAt(m, memory, use, lists, live, minShift, p);
    hide PageWords, Cut, MarkSlab, MarkMap, Count, Reserved;
    MarkCut(m.pages[p].slab, PageWords(memory, p), shift, live[p], c);
    RewordedSame(m, use, p, slab);
    ChunksKept(m, m', memory, memory', use, use, lists, lists, live, live', minShift, p);
    if !Full(shift, live'[p]) {
      assert ChunkAt(m', memory', use, lists, live', minShift, p);
    }
  }

  /** A full page has left its slot's list. */
  lemma DetachChunked(m: Mem, m': Mem, memory: seq<word>, use: seq<Use>, lists: Lists, lists': Lists, live: Live,
                      minShift: nat, p: nat, shift: nat)
    requires ChunkedBut(m, memory, use, lists, live, minShift, p) && |m'.pages| == |m.pages| && |m'.slots| == |m.slots|
    requires p < |use| && use[p] == Chunks(shift) && minShift <= shift < PAGE_SHIFT && live[p] != {}
    requires PAGE_WORDS * p + PAGE_WORDS <= |memory| && Cut(m.pages[p].slab, PageWords(memory, p), shift, live[p])
    requires Full(shift, live[p]) && SameElsewhere(m, m', use, use, p, 1) && SameMembersBut(lists, lists', p)
    requires m'.pages[p].slab == m.pages[p].slab && m'.pages[p].next == Null && !OnSlot(use, lists', minShift, p)
    ensures Chunked(m', memory, use, lists', live, minShift)
  {
    hide PageWords, Cut;
    ChunksKept(m, m', memory, memory, use, use, lists, lists', live, live, minShift, p);
    assert ChunkAt(m', memory, use, lists', live, minShift, p);
  }

  /** The links of a page of chunks that is on no list may be rewritten. */
  lemma LinksWriteOk(m: Mem, m': Mem, use: seq<Use>, lists: Lists, minShift: nat, p: nat)
    requires Ok(m, use, lists, minShift, {}) && p < |use| && use[p].Chunks? && forall c <- lists :: p !in lists[c]
    requires m' == m.(pages := m.pages[p := m.pages[p].(next := Null, prev := Null)])
    ensures Ok(m', use, lists, minShift, {})
  {
    ListedAll(m, m', lists);
    forall i: nat | i < |use|
      ensures Encodes(m', use, {}, i)
    {
      assert Encodes(m, use, {}, i) && Fits(use, i);
    }
  }

  // ----- taking back a chunk

  /** Chunk `c` is cleared; unless it was the only one, page `p`, now on its slot's list, stays. */
  lemma ClearChunked(m: Mem, memory: seq<word>, memory': seq<word>, use: seq<Use>, lists: Lists, live: Live,
                     minShift: nat, p: nat, shift: nat, c: nat)
    requires ChunkedBut(m, memory, use, lists, live, minShift, p) && p < |use| && use[p] == Chunks(shift)
    requires minShift <= shift < PAGE_SHIFT && c in live[p] && Reserved(shift) <= c < Count(shift)
    requires SameWordsBut(memory, memory', p)
    requires |memory'| == |memory| && PAGE_WORDS * p + PAGE_WORDS <= |memory|
    requires Cut(m.pages[p].slab, PageWords(memory, p), shift, live[p])
    requires PageWords(memory', p) == ClearMap(PageWords(memory, p), shift, c) && OnSlot(use, lists, minShift, p)
    ensures var m', live' := Reworded(m, p, ClearSlab(m.pages[p].slab, shift, c)), live[p := live[p] - {c}];
            && ChunkedBut(m', memory', use, lists, live', minShift, p)
            && Cut(m'.pages[p].slab, PageWords(memory', p), shift, live'[p])
            && (live'[p] != {} ==> Chunked(m', memory', use, lists, live', minShift))
  {
    var slab := ClearSlab(m.pages[p].slab, shift, c);
    var m', live' := Reworded(m, p, slab), live[p := live[p] - {c}];
    hide PageWords, Cut, ClearSlab, ClearMap, Count, Reserved;
    ClearCut(m.pages[p].slab, PageWords(memory, p), shift, live[p], c);
    RewordedSame(m, use, p, slab);
    ChunksKept(m, m', memory, memory', use, use, lists, lists, live, live', minShift, p);
    if live'[p] != {} {
      assert !Full(shift, live'[p]);
      assert ChunkAt(m', memory', use, lists, live', minShift, p);
    }
  }

  /** An emptied page has gone back to the free pages. */
  lemma EmptiedChunked(m: Mem, m': Mem, memory: seq<word>, use: seq<Use>, use': seq<Use>, lists: Lists, lists': Lists,
                       live: Live, minShift: nat, p: nat)
    requires ChunkedBut(m, memory, use, lists, live, minShift, p) && p < |use| && live[p] == {}
    requires SameElsewhere(m, m', use, use', p, 1) && SameMembersBut(lists, lists', p) && |m'.slots| == |m.slots|
    requires !Taken(use'[p])
    ensures Chunked(m', memory, use', lists', live, minShift)
  {
    ChunksKept(m, m', memory, memory, use, use', lists, lists', live, live, minShift, p);
    assert ChunkAt(m', memory, use', lists', live, minShift, p);
  }
}
