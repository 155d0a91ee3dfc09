/** The blocks a pool has handed out, and what its descriptors, bitmaps and statistics say of them. */
module SlabBlocks {
  import opened Words
  import opened Sequences
  import opened Arith
  import opened Bits
  import opened SlabList
  import opened SlabRuns
  import opened SlabSteps
  import opened SlabChunks

  /** The chunks of every page that are handed out. */
  type Live = seq<set<nat>>

  datatype Stat = Stat(total: nat, used: nat, reqs: nat, fails: nat)

  /** The size of the block handed out at address `a`, counted from `start`; 0 if there is none. */
  ghost function BlockAt(use: seq<Use>, live: Live, a: nat): nat
    requires |live| == |use|
  {
    var p := a / PAGE_SIZE;
    if p >= |use| then 0
    else match use[p]
      case Head(free, n) => if !free && a % PAGE_SIZE == 0 then n * PAGE_SIZE else 0
      case Body(_, _) => 0
      case Chunks(shift) =>
        if a % PAGE_SIZE % Pow2(shift) == 0 && a % PAGE_SIZE / Pow2(shift) in live[p] then Pow2(shift) else 0
  }

  /** A page of chunks is on its slot's list just when it has a free chunk; it always has one that
      is handed out, and its bitmap tells them apart.  A full page has no `next`. */
  ghost predicate ChunkOk(page: Page, words: seq<word>, use: Use, listed: bool, live: set<nat>, minShift: nat) {
    match use
    case Chunks(shift) =>
      && minShift <= shift < PAGE_SHIFT
      && live != {}
      && Cut(page.slab, words, shift, live)
      && (listed <==> !Full(shift, live))
      && (Full(shift, live) ==> page.next == Null)
    case _ => live == {}
  }

  /** The memory of page `p`, as words. */
  function PageWords(memory: seq<word>, p: nat): (s: seq<word>)
    requires PAGE_WORDS * p + PAGE_WORDS <= |memory|
    ensures |s| == PAGE_WORDS
  {
    memory[PAGE_WORDS * p..PAGE_WORDS * p + PAGE_WORDS]
  }

  ghost predicate ChunkAt(m: Mem, memory: seq<word>, use: seq<Use>, lists: Lists, live: Live, minShift: nat, p: nat)
    requires p < |use| == |m.pages| == |live| && |memory| == PAGE_WORDS * |use|
  {
    ChunkOk(m.pages[p], PageWords(memory, p), use[p], OnSlot(use, lists, minShift, p), live[p], minShift)
  }

  ghost predicate Sized(m: Mem, memory: seq<word>, use: seq<Use>, live: Live, minShift: nat) {
    && |m.pages| == |use| == |live| && |memory| == PAGE_WORDS * |use|
    && minShift < PAGE_SHIFT && |m.slots| == PAGE_SHIFT - minShift
  }

  ghost predicate Chunked(m: Mem, memory: seq<word>, use: seq<Use>, lists: Lists, live: Live, minShift: nat) {
    && Sized(m, memory, use, live, minShift)
    && forall p: nat :: p < |use| ==> ChunkAt(m, memory, use, lists, live, minShift, p)
  }

  // ----- addresses

  /** The address of chunk `c` of page `p`. */
  function ChunkAddr(p: nat, shift: nat, c: nat): nat { p * PAGE_SIZE + c * Pow2(shift) }

  lemma AddrParts(p: nat, shift: nat, c: nat)
    requires shift < PAGE_SHIFT && c < Count(shift)
    ensures var a := ChunkAddr(p, shift, c);
            a / PAGE_SIZE == p && a % PAGE_SIZE / Pow2(shift) == c && a % PAGE_SIZE % Pow2(shift) == 0
    ensures c * Pow2(shift) + Pow2(shift) <= PAGE_SIZE
  {
    Sizes(shift);
    hide Pow2, Count;
    PartsOf(p, c, Pow2(shift), Count(shift));
  }

  lemma PartsOf(p: nat, c: nat, d: nat, n: nat)
    requires d > 0 && n * d == PAGE_SIZE && c < n
    ensures var a := p * PAGE_SIZE + c * d; a / PAGE_SIZE == p && a % PAGE_SIZE / d == c && a % PAGE_SIZE % d == 0
    ensures c * d + d <= PAGE_SIZE
  {
    DivMul(c, d);
    MulNext(c, d);
    MulMono(c + 1, n, d);
    PageParts(p, c * d);
  }

  lemma PageParts(p: nat, off: nat)
    requires off < PAGE_SIZE
    ensures (p * PAGE_SIZE + off) / PAGE_SIZE == p && (p * PAGE_SIZE + off) % PAGE_SIZE == off
  {
  }

  lemma AddrChunk(a: nat, shift: nat)
    requires shift < PAGE_SHIFT && a % PAGE_SIZE % Pow2(shift) == 0
    ensures a == ChunkAddr(a / PAGE_SIZE, shift, a % PAGE_SIZE / Pow2(shift))
    ensures a % PAGE_SIZE / Pow2(shift) < Count(shift)
  {
    Sizes(shift);
    hide Pow2, Count;
    DivRest(a % PAGE_SIZE, Pow2(shift));
    DivLess(a % PAGE_SIZE, Pow2(shift), Count(shift));
  }

  /** Where a block on page `p` is: within its page, behind the page's bitmap, or on whole pages. */
  lemma BlockPlace(m: Mem, memory: seq<word>, use: seq<Use>, lists: Lists, live: Live, minShift: nat, a: nat)
    requires Chunked(m, memory, use, lists, live, minShift) && BlockAt(use, live, a) > 0
    ensures a / PAGE_SIZE < |use|
    ensures match use[a / PAGE_SIZE]
            case Chunks(shift) =>
              && shift < PAGE_SHIFT && BlockAt(use, live, a) == Pow2(shift)
              && var c := a % PAGE_SIZE / Pow2(shift);
                 Reserved(shift) <= c < Count(shift) && a == ChunkAddr(a / PAGE_SIZE, shift, c)
            case Head(free, n) => !free && a == a / PAGE_SIZE * PAGE_SIZE && BlockAt(use, live, a) == n * PAGE_SIZE
            case Body(_, _) => false
  {
    var p := a / PAGE_SIZE;
    assert ChunkAt(m, memory, use, lists, live, minShift, p);
    if use[p].Chunks? {
      AddrChunk(a, use[p].shift);
    }
  }

  /** Blocks that are handed out do not overlap. */
  lemma BlocksDisjoint(m: Mem, memory: seq<word>, use: seq<Use>, lists: Lists, live: Live, minShift: nat, a: nat,
          b: nat)
    requires Layout(use) && Chunked(m, memory, use, lists, live, minShift)
    requires a < b && BlockAt(use, live, a) > 0 && BlockAt(use, live, b) > 0
    ensures a + BlockAt(use, live, a) <= b
  {
    BlockPlace(m, memory, use, lists, live, minShift, a);
    BlockPlace(m, memory, use, lists, live, minShift, b);
    var p, q := a / PAGE_SIZE, b / PAGE_SIZE;
    hide Chunked, BlockAt, Pow2, Count, Reserved;
    match use[p]
    case Chunks(shift) =>
      var c := a % PAGE_SIZE / Pow2(shift);
      AddrParts(p, shift, c);
      if p == q {
        ChunkGap(a, b, p, shift, c, b % PAGE_SIZE / Pow2(shift));
      }
    case Head(_, n) =>
      assert Fits(use, p);
      RunBodies(use, p, n, q);
  }

  lemma RunBodies(use: seq<Use>, p: nat, n: nat, q: nat)
    requires Layout(use) && p < |use| && use[p].Head? && use[p].len == n && q < |use|
    ensures p < q < p + n ==> use[q].Body?
  {
    assert Fits(use, p);
  }

  lemma ChunkGap(a: nat, b: nat, p: nat, shift: nat, c: nat, d: nat)
    requires a == ChunkAddr(p, shift, c) && b == ChunkAddr(p, shift, d) && a < b
    ensures a + Pow2(shift) <= b
  {
    hide Pow2;
    assert (c - d) * Pow2(shift) == a - b;
    MulSign(c - d, Pow2(shift));
    MulSign(d - c, Pow2(shift));
  }

  /** A block lies within the managed pages, and clear of the bitmap of the page it is on. */
  lemma BlockInside(m: Mem, memory: seq<word>, use: seq<Use>, lists: Lists, live: Live, minShift: nat, a: nat)
    requires Layout(use) && Chunked(m, memory, use, lists, live, minShift) && BlockAt(use, live, a) > 0
    ensures a + BlockAt(use, live, a) <= PAGE_SIZE * |use|
    ensures var u := use[a / PAGE_SIZE];
            u.Chunks? && u.shift < EXACT_SHIFT ==> a % PAGE_SIZE >= 8 * MapWords(u.shift)
  {
    BlockPlace(m, memory, use, lists, live, minShift, a);
    var p := a / PAGE_SIZE;
    hide Chunked, BlockAt, Pow2, Count, Reserved, MapWords;
    match use[p]
    case Chunks(shift) =>
      var c := a % PAGE_SIZE / Pow2(shift);
      AddrParts(p, shift, c);
      Sizes(shift);
      MulMono(Reserved(shift), c, Pow2(shift));
    case Head(_, n) =>
      assert Fits(use, p);
  }

  // ----- what is in the blocks

  /** Word `i` of the memory has a byte of the `n` bytes at address `a`. */
  predicate Touches(a: nat, n: nat, i: nat) { a < 8 * i + 8 && 8 * i < a + n }

  /** All words of the blocks that are handed out are the same. */
  ghost predicate BlocksKept(use: seq<Use>, live: Live, memory: seq<word>, memory': seq<word>) {
    && |use| == |live| && |memory'| == |memory|
    && forall a: nat, i: nat ::
         i < |memory| && BlockAt(use, live, a) > 0 && Touches(a, BlockAt(use, live, a), i) ==> memory'[i] == memory[i]
  }

  /** At most the words of the bitmap of page `p` differ, if it has one. */
  ghost predicate OnlyMap(memory: seq<word>, memory': seq<word>, p: nat, shift: nat) {
    && |memory'| == |memory|
    && forall i :: 0 <= i < |memory| && memory'[i] != memory[i] ==>
         shift < EXACT_SHIFT && PAGE_WORDS * p <= i < PAGE_WORDS * p + MapWords(shift)
  }

  /** Words of blocks are not words of a bitmap. */
  lemma BlockWord(m: Mem, memory: seq<word>, use: seq<Use>, lists: Lists, live: Live, minShift: nat, a: nat, i: nat,
                  q: nat)
    requires Layout(use) && Chunked(m, memory, use, lists, live, minShift) && |live| == |use|
    requires BlockAt(use, live, a) > 0 && Touches(a, BlockAt(use, live, a), i)
    requires q == i / PAGE_WORDS < |use| && use[q].Chunks? && use[q].shift < PAGE_SHIFT
    ensures use[q].shift < EXACT_SHIFT ==> MapWords(use[q].shift) <= i % PAGE_WORDS
  {
    BlockInside(m, memory, use, lists, live, minShift, a);
    BlockPlace(m, memory, use, lists, live, minShift, a);
    hide Chunked, BlockAt, Pow2, Count, Reserved, MapWords;
    var p := a / PAGE_SIZE;
    match use[p]
    case Chunks(shift) =>
      AddrParts(p, shift, a % PAGE_SIZE / Pow2(shift));
    case Head(_, n) =>
      RunBodies(use, p, n, q);
  }

  /** A change in the bitmap of a page of chunks leaves the blocks alone. */
  lemma MapApart(m: Mem, memory: seq<word>, use: seq<Use>, lists: Lists, live: Live, minShift: nat, was: seq<word>,
                 now: seq<word>, p: nat, shift: nat)
    requires Layout(use) && Chunked(m, memory, use, lists, live, minShift)
    requires |memory| == |was| && OnlyMap(was, now, p, shift)
    requires p < |use| && use[p] == Chunks(shift) && shift < PAGE_SHIFT
    ensures BlocksKept(use, live, was, now)
  {
    hide BlockAt, Layout, MapWords, Touches, ChunkAt;
    forall a: nat, i: nat |
      i < |was| && BlockAt(use, live, a) > 0 && Touches(a, BlockAt(use, live, a), i)
      ensures now[i] == was[i]
    {
      if now[i] != was[i] {
        Sizes(shift);
        assert i / PAGE_WORDS == p;
        BlockWord(m, memory, use, lists, live, minShift, a, i, p);
      }
    }
  }

  /** Blocks that were handed out before another one are among those handed out then. */
  lemma KeptBefore(use: seq<Use>, live: Live, use': seq<Use>, live': Live, a: nat, n: nat, was: seq<word>,
                   now: seq<word>)
    requires Handed(use, live, use', live', a, n) && BlocksKept(use', live', was, now)
    ensures BlocksKept(use, live, was, now)
  {
    hide BlockAt, Touches;
    forall b: nat, i: nat |
      i < |was| && BlockAt(use, live, b) > 0 && Touches(b, BlockAt(use, live, b), i)
      ensures now[i] == was[i]
    {
      assert BlockAt(use', live', b) == BlockAt(use, live, b);
    }
  }

  // ----- how the blocks change

  /** Blocks on a page depend on what the page is used for and on its chunks only. */
  lemma BlockLocal(use: seq<Use>, live: Live, use': seq<Use>, live': Live, a: nat)
    requires |live| == |use| == |use'| == |live'|
    requires a / PAGE_SIZE < |use| ==>
               var p := a / PAGE_SIZE;
               (use[p] == use'[p] && live[p] == live'[p]) || (!Taken(use[p]) && !Taken(use'[p]))
    ensures BlockAt(use', live', a) == BlockAt(use, live, a)
  {
  }

  /** The pages [s, s + n) change hands, and nothing else does. */
  ghost predicate TakenElsewhere(use: seq<Use>, use': seq<Use>, s: nat, n: nat) {
    |use'| == |use| &&
    forall i :: 0 <= i < |use| && !(s <= i < s + n) ==> if Taken(use[i]) then use'[i] == use[i] else !Taken(use'[i])
  }

  /** Whole pages are handed out, or come back. */
  lemma BlocksOfPages(use: seq<Use>, live: Live, use': seq<Use>, live': Live, s: nat, n: nat, a: nat)
    requires |live| == |use| && live == live' && TakenElsewhere(use, use', s, n) && s + n <= |use| && 0 < n
    requires use[s] == Head(false, n) && forall i :: s < i < s + n ==> use[i] == Body(false, s)
    requires forall i :: s <= i < s + n ==> !Taken(use'[i])
    ensures BlockAt(use, live, a) == if a == s * PAGE_SIZE then n * PAGE_SIZE else BlockAt(use', live', a)
    ensures BlockAt(use', live', s * PAGE_SIZE) == 0
  {
  }

  /** One more chunk of page `p` is handed out in `live'` than in `live`; if it is the only one, the
      page need not have been a page of chunks before. */
  lemma BlocksOfChunks(use: seq<Use>, live: Live, use': seq<Use>, live': Live, p: nat, c: nat, shift: nat, a: nat)
    requires |live| == |use| == |use'| == |live'| && p < |use| && shift < PAGE_SHIFT && c < Count(shift)
    requires TakenElsewhere(use, use', p, 1) && forall i :: 0 <= i < |use| && i != p ==> live'[i] == live[i]
    requires use'[p] == Chunks(shift) && live'[p] == live[p] + {c} && c !in live[p]
    requires use[p] == Chunks(shift) || (!Taken(use[p]) && live[p] == {})
    ensures BlockAt(use', live', a) == if a == ChunkAddr(p, shift, c) then Pow2(shift) else BlockAt(use, live, a)
    ensures BlockAt(use, live, ChunkAddr(p, shift, c)) == 0
  {
    AddrParts(p, shift, c);
    if a / PAGE_SIZE == p && a % PAGE_SIZE % Pow2(shift) == 0 {
      AddrChunk(a, shift);
    }
    hide Pow2, Count, ChunkAddr;
    if a / PAGE_SIZE != p {
      BlockLocal(use, live, use', live', a);
    }
  }

  /** A block of `n` bytes is handed out at `a`, where there was none, and no other block changes. */
  ghost predicate Handed(use: seq<Use>, live: Live, use': seq<Use>, live': Live, a: nat, n: nat) {
    && |use| == |live| && |use'| == |live'| && 0 < n && BlockAt(use, live, a) == 0
    && forall b: nat :: BlockAt(use', live', b) == if b == a then n else BlockAt(use, live, b)
  }

  lemma HandedPages(use: seq<Use>, live: Live, use': seq<Use>, s: nat, n: nat)
    requires |live| == |use| && TakenElsewhere(use', use, s, n) && s + n <= |use| && 0 < n
    requires use'[s] == Head(false, n) && forall i :: s < i < s + n ==> use'[i] == Body(false, s)
    requires forall i :: s <= i < s + n ==> !Taken(use[i])
    ensures Handed(use, live, use', live, s * PAGE_SIZE, n * PAGE_SIZE)
  {
    forall b: nat
      ensures BlockAt(use', live, b) == if b == s * PAGE_SIZE then n * PAGE_SIZE else BlockAt(use, live, b)
    {
      BlocksOfPages(use', live, use, live, s, n, b);
    }
    BlocksOfPages(use', live, use, live, s, n, 0);
  }

  lemma HandedChunk(use: seq<Use>, live: Live, use': seq<Use>, live': Live, p: nat, c: nat, shift: nat)
    requires |live| == |use| == |use'| == |live'| && p < |use| && shift < PAGE_SHIFT && c < Count(shift)
    requires TakenElsewhere(use, use', p, 1) && forall i :: 0 <= i < |use| && i != p ==> live'[i] == live[i]
    requires use'[p] == Chunks(shift) && live'[p] == live[p] + {c} && c !in live[p]
    requires use[p] == Chunks(shift) || (!Taken(use[p]) && live[p] == {})
    ensures Handed(use, live, use', live', ChunkAddr(p, shift, c), Pow2(shift))
  {
    hide Count, Pow2, BlockAt;
    forall b: nat
      ensures BlockAt(use', live', b) == if b == ChunkAddr(p, shift, c) then Pow2(shift) else BlockAt(use, live, b)
    {
      BlocksOfChunks(use, live, use', live', p, c, shift, b);
    }
    BlocksOfChunks(use, live, use', live', p, c, shift, 0);
  }

  // ----- statistics

  function CapAt(use: Use, shift: nat): nat
    requires shift < PAGE_SHIFT
  {
    if use == Chunks(shift) then Sizes(shift); Count(shift) - Reserved(shift) else 0
  }

  function UsedAt(use: Use, live: set<nat>, shift: nat): nat { if use == Chunks(shift) then |live| else 0 }

  /** The number of usable chunks of size 2^shift among the first `k` pages, and of those handed out. */
  function CapSum(use: seq<Use>, shift: nat, k: nat): nat
    requires shift < PAGE_SHIFT && k <= |use|
  {
    if k == 0 then 0 else CapSum(use, shift, k - 1) + CapAt(use[k - 1], shift)
  }

  function UsedSum(use: seq<Use>, live: Live, shift: nat, k: nat): nat
    requires k <= |use| == |live|
  {
    if k == 0 then 0 else UsedSum(use, live, shift, k - 1) + UsedAt(use[k - 1], live[k - 1], shift)
  }

  lemma {:induction false} SumsElsewhere(use: seq<Use>, live: Live, use': seq<Use>, live': Live, shift: nat, p: nat,
          k: nat)
    requires |live| == |use| == |use'| == |live'| && p < |use| && shift < PAGE_SHIFT && k <= |use|
    requires forall i :: 0 <= i < |use| && i != p ==>
               live'[i] == live[i] && (use[i] == Chunks(shift) <==> use'[i] == Chunks(shift))
    ensures CapSum(use', shift, k) == CapSum(use, shift, k) +
              if p < k then CapAt(use'[p], shift) - CapAt(use[p], shift) else 0
    ensures UsedSum(use', live', shift, k) == UsedSum(use, live, shift, k) +
              if p < k then UsedAt(use'[p], live'[p], shift) - UsedAt(use[p], live[p], shift) else 0
  {
    if k > 0 {
      SumsElsewhere(use, live, use', live', shift, p, k - 1);
    }
  }

  ghost predicate Counted(stats: seq<Stat>, use: seq<Use>, live: Live, minShift: nat) {
    && |live| == |use| && |stats| + minShift == PAGE_SHIFT
    && forall i: nat :: i < |stats| ==> Tallied(stats[i], use, live, minShift + i)
  }

  ghost predicate Tallied(stat: Stat, use: seq<Use>, live: Live, shift: nat)
    requires shift < PAGE_SHIFT && |live| == |use|
  {
    stat.total == CapSum(use, shift, |use|) && stat.used == UsedSum(use, live, shift, |use|)
  }

  /** Page `p`, cut into chunks of size 2^shift or not cut, changes; so does that size's record. */
  lemma CountedChange(stats: seq<Stat>, stats': seq<Stat>, use: seq<Use>, live: Live, use': seq<Use>, live': Live,
                      minShift: nat, p: nat, shift: nat)
    requires Counted(stats, use, live, minShift) && |use| == |use'| == |live'| && p < |use|
    requires minShift <= shift < PAGE_SHIFT && |stats'| == |stats|
    requires forall i :: 0 <= i < |use| && i != p ==> live'[i] == live[i]
    requires forall i :: 0 <= i < |use| && i != p && (use[i].Chunks? || use'[i].Chunks?) ==> use'[i] == use[i]
    requires use[p].Chunks? ==> use[p].shift == shift
    requires use'[p].Chunks? ==> use'[p].shift == shift
    requires forall i :: 0 <= i < |stats| && i != shift - minShift ==> stats'[i] == stats[i]
    requires var s, s' := stats[shift - minShift], stats'[shift - minShift];
             && s'.total == s.total + CapAt(use'[p], shift) - CapAt(use[p], shift)
             && s'.used == s.used + UsedAt(use'[p], live'[p], shift) - UsedAt(use[p], live[p], shift)
    ensures Counted(stats', use', live', minShift)
  {
    forall i: nat | i < |stats'|
      ensures Tallied(stats'[i], use', live', minShift + i)
    {
      assert Tallied(stats[i], use, live, minShift + i);
      SumsElsewhere(use, live, use', live', minShift + i, p, |use|);
      hide CapSum, UsedSum, Count, Reserved;
    }
  }

  /** Whole pages do not count. */
  lemma CountedKept(stats: seq<Stat>, use: seq<Use>, use': seq<Use>, live: Live, minShift: nat)
    requires Counted(stats, use, live, minShift) && |use| == |use'|
    requires forall i :: 0 <= i < |use| && (use[i].Chunks? || use'[i].Chunks?) ==> use'[i] == use[i]
    ensures Counted(stats, use', live, minShift)
  {
    forall i: nat | i < |stats|
      ensures Tallied(stats[i], use', live, minShift + i)
    {
      assert Tallied(stats[i], use, live, minShift + i);
      if |use| > 0 {
        SumsElsewhere(use, live, use', live, minShift + i, 0, |use|);
      }
    }
  }

  // ----- nothing handed out

  /** A page in use has, or belongs to, a block. */
  lemma TakenBlock(m: Mem, memory: seq<word>, use: seq<Use>, lists: Lists, live: Live, minShift: nat, p: nat)
    returns (a: nat)
    requires Layout(use) && Chunked(m, memory, use, lists, live, minShift) && p < |use| && Taken(use[p])
    ensures BlockAt(use, live, a) > 0
  {
    assert Fits(use, p) && ChunkAt(m, memory, use, lists, live, minShift, p);
    match use[p]
    case Chunks(shift) =>
      var c :| c in live[p];
      AddrParts(p, shift, c);
      a := ChunkAddr(p, shift, c);
    case Head(free, n) =>
      a := p * PAGE_SIZE;
    case Body(free, h) =>
      assert Fits(use, h);
      a := h * PAGE_SIZE;
  }

  /** When nothing is handed out, the free list holds one run of all pages. */
  lemma EmptyPool(m: Mem, memory: seq<word>, use: seq<Use>, lists: Lists, live: Live, minShift: nat)
    requires Ok(m, use, lists, minShift, {}) && Chunked(m, memory, use, lists, live, minShift) && |use| > 0
    requires forall a: nat :: BlockAt(use, live, a) == 0
    ensures use == WithRun(use, 0, |use|, true) && lists[Free] == [0] && m.pages[0].slab == |use|
    ensures FreeCount(use, |use|) == |use|
    ensures forall c <- lists :: c != Free ==> lists[c] == []
  {
    forall p: nat | p < |use|
      ensures !Taken(use[p])
    {
      if Taken(use[p]) {
        var a := TakenBlock(m, memory, use, lists, live, minShift, p);
      }
    }
    hide Chunked, BlockAt;
    OneRun(m, use, lists, minShift);
    AllFree(use, |use|);
    forall c | c in lists && c != Free
      ensures lists[c] == []
    {
      if lists[c] != [] {
        OnList(m, use, lists, minShift, {}, c, lists[c][0]);
      }
    }
  }

  lemma OneRun(m: Mem, use: seq<Use>, lists: Lists, minShift: nat)
    requires Ok(m, use, lists, minShift, {}) && |use| > 0 && forall p: nat :: p < |use| ==> !Taken(use[p])
    ensures use == WithRun(use, 0, |use|, true) && lists[Free] == [0] && m.pages[0].slab == |use|
  {
    assert Fits(use, 0) && Encodes(m, use, {}, 0);
    WholeRun(use);
    var l := lists[Free];
    assert 0 in l;
    assert forall p: nat :: p in l ==> p == 0;
    assert Listed(m, Free, l);
    ListNoDup(m, Free, l);
    Singleton(l);
  }

  lemma Singleton(l: seq<nat>)
    requires NoDup(l) && 0 in l && forall p: nat :: p in l ==> p == 0
    ensures l == [0]
  {
    assert forall i :: 0 <= i < |l| ==> l[i] in l;
    if |l| > 1 {
      FirstTwoDiffer(l);
    }
  }

  lemma FirstTwoDiffer(l: seq<nat>)
    requires NoDup(l) && |l| > 1
    ensures l[0] != l[1]
  {
  }

  lemma WholeRun(use: seq<Use>)
    requires Layout(use) && Apart(use, {}) && |use| > 0 && forall p: nat :: p < |use| ==> !Taken(use[p])
    ensures use == WithRun(use, 0, |use|, true)
  {
    assert Fits(use, 0);
    var n := use[0].len;
    if n < |use| {
      assert Fits(use, n);
      AfterRun(use, 0, n);
    }
  }

  lemma {:induction false} AllFree(use: seq<Use>, k: nat)
    requires k <= |use| && forall p: nat :: p < |use| ==> !Taken(use[p])
    ensures FreeCount(use, k) == k
  {
    if k > 0 {
      AllFree(use, k - 1);
    }
  }

  // ----- block sizes

  /** The smallest shift, from `s` on, of a chunk that takes `size` bytes. */
  function ShiftOf(size: nat, s: nat): (r: nat)
    requires s < PAGE_SHIFT
    ensures s <= r < PAGE_SHIFT
    decreases PAGE_SHIFT - s
  {
    if s == PAGE_SHIFT - 1 || size <= Pow2(s) then s else ShiftOf(size, s + 1)
  }

  const MAX_SIZE: nat := 2048

  /** The size of the block that a request of `size` bytes gets. */
  function BlockSize(size: nat, minShift: nat): nat
    requires minShift < PAGE_SHIFT
  {
    if size > MAX_SIZE then PagesOf(size) * PAGE_SIZE else Pow2(ShiftOf(size, minShift))
  }

  function PagesOf(size: nat): nat { size / PAGE_SIZE + if size % PAGE_SIZE != 0 then 1 else 0 }

  /** A block is large enough, and less than twice as large and less than a page larger than asked for;
      there is no smaller block than the pool's smallest chunk. */
  lemma BlockFits(size: nat, minShift: nat)
    requires minShift < PAGE_SHIFT
    ensures size <= BlockSize(size, minShift)
    ensures if size <= Pow2(minShift) then BlockSize(size, minShift) == Pow2(minShift)
            else BlockSize(size, minShift) < 2 * size && BlockSize(size, minShift) < size + PAGE_SIZE
  {
    Sizes(minShift);
    if size <= MAX_SIZE {
      ShiftFits(size, minShift);
    }
  }

  lemma {:induction false} ShiftFits(size: nat, s: nat)
    requires s < PAGE_SHIFT && size <= MAX_SIZE
    ensures size <= Pow2(ShiftOf(size, s))
    ensures size > Pow2(s) ==> Pow2(ShiftOf(size, s)) < 2 * size
    decreases PAGE_SHIFT - s
  {
    Pow2Table();
    if s < PAGE_SHIFT - 1 && size > Pow2(s) {
      ShiftFits(size, s + 1);
    }
  }

  lemma {:induction false} ShiftIs(size: nat, s: nat, r: nat)
    requires s <= r < PAGE_SHIFT && size <= Pow2(r) && (r > s ==> size > Pow2(r - 1))
    ensures ShiftOf(size, s) == r
    decreases r - s
  {
    if s < r {
      if s < r - 1 {
        Pow2Mono(s, r - 1);
      }
      ShiftIs(size, s + 1, r);
    }
  }

  /** No page is free, and no page of chunks of size 2^shift has a free chunk. */
  ghost predicate NoChunk(use: seq<Use>, live: Live, shift: nat)
    requires |live| == |use| && shift < PAGE_SHIFT
  {
    forall p: nat :: p < |use| ==> Taken(use[p]) && (use[p] == Chunks(shift) ==> Full(shift, live[p]))
  }

  /** The place within its page of an address that a chunk of size 2^shift can have: the first bytes
      of a page of small chunks, one bit for each chunk of the page, are the page's bitmap. */
  predicate ChunkPlace(a: nat, shift: nat)
    requires shift < PAGE_SHIFT
  {
    && a % PAGE_SIZE % Pow2(shift) == 0
    && (shift < EXACT_SHIFT ==> PAGE_SIZE / Pow2(shift) / 8 <= a % PAGE_SIZE)
  }

  /** No page is free, and on the pages with chunks of size 2^shift a block is handed out at every
      address that a chunk can have. */
  ghost predicate Exhausted(use: seq<Use>, live: Live, shift: nat)
    requires |live| == |use| && shift < PAGE_SHIFT
  {
    && (forall p: nat :: p < |use| ==> Taken(use[p]))
    && forall a: nat :: a / PAGE_SIZE < |use| && use[a / PAGE_SIZE] == Chunks(shift) && ChunkPlace(a, shift) ==>
         BlockAt(use, live, a) == Pow2(shift)
  }

  lemma PlaceUnreserved(a: nat, shift: nat)
    requires shift < PAGE_SHIFT && ChunkPlace(a, shift)
    ensures Reserved(shift) <= a % PAGE_SIZE / Pow2(shift) < Count(shift)
  {
    Sizes(shift);
    if shift < EXACT_SHIFT {
      BitmapBytes(shift);
    }
    hide Pow2, Count, Reserved, MapWords;
    var c, size := a % PAGE_SIZE / Pow2(shift), Pow2(shift);
    DivRest(a % PAGE_SIZE, size);
    DivLess(a % PAGE_SIZE, size, Count(shift));
    if c < Reserved(shift) {
      MulMono(c, Reserved(shift) - 1, size);
      assert false;
    }
  }

  lemma BitmapBytes(shift: nat)
    requires shift < EXACT_SHIFT
    ensures PAGE_SIZE / Pow2(shift) / 8 == 8 * MapWords(shift)
  {
    Pow2Table();
    hide Pow2;
    assert shift == 0 || shift == 1 || shift == 2 || shift == 3 || shift == 4 || shift == 5;
  }

  lemma NoChunkLeft(use: seq<Use>, live: Live, shift: nat)
    requires |live| == |use| && shift < PAGE_SHIFT && NoChunk(use, live, shift)
    ensures Exhausted(use, live, shift)
  {
    hide Pow2, Count, Reserved, ChunkPlace;
    forall a: nat | a / PAGE_SIZE < |use| && use[a / PAGE_SIZE] == Chunks(shift) && ChunkPlace(a, shift)
      ensures BlockAt(use, live, a) == Pow2(shift)
    {
      PlaceUnreserved(a, shift);
      PlaceAligned(a, shift);
    }
  }

  lemma PlaceAligned(a: nat, shift: nat)
    requires shift < PAGE_SHIFT && ChunkPlace(a, shift)
    ensures a % PAGE_SIZE % Pow2(shift) == 0
  {
  }
}
