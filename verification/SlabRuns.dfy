/** Runs of pages: how the page array is divided between free runs, busy runs and pages cut into
    chunks, and how the descriptors encode the division. */
module SlabRuns {
  import opened Words
  import opened SlabList

  /** What a page is used for: the first page of a run, a further page of the run with the given
      head, or a page of chunks of size 2^shift. */
  datatype Use = Head(free: bool, len: nat) | Body(free: bool, head: nat) | Chunks(shift: nat)

  const PAGE_FREE: word := 0
  const PAGE_BUSY: word := 0xffff_ffff_ffff_ffff
  const PAGE_START: word := 0x8000_0000_0000_0000

  /** As many pages of 4096 bytes as there are addresses for. */
  const MAX_PAGES: nat := 0x10_0000_0000_0000

  /** NGX_EXACT_SHIFT for pages of 4096 bytes and words of 64 bits. */
  const EXACT_SHIFT: nat := 6

  function KindOf(shift: nat): (k: Kind)
    ensures k != Whole
  {
    if shift < EXACT_SHIFT then Small else if shift == EXACT_SHIFT then Exact else Big
  }

  /** Page `i` plays its part in its run, and a head has all of its run behind it. */
  ghost predicate Fits(use: seq<Use>, i: nat)
    requires i < |use|
  {
    match use[i]
    case Head(free, n) => 0 < n && i + n <= |use| && forall j :: i < j < i + n ==> use[j] == Body(free, i)
    case Body(free, h) => h < i && use[h].Head? && use[h].free == free && i < h + use[h].len
    case Chunks(_) => true
  }

  ghost predicate Layout(use: seq<Use>) {
    forall i: nat :: i < |use| ==> Fits(use, i)
  }

  predicate FreeHead(use: seq<Use>, i: int) {
    0 <= i < |use| && use[i].Head? && use[i].free
  }

  /** The descriptor of page `i` says what the page is used for.  Runs taken off the free list
      are afloat: nothing is required of the descriptors of their heads. */
  ghost predicate Encodes(m: Mem, use: seq<Use>, afloat: set<nat>, i: nat)
    requires |m.pages| == |use| && i < |use|
  {
    var page := m.pages[i];
    match use[i]
    case Head(true, n) =>
      i in afloat ||
      (page.slab == n && page.kind == Whole && page.next != Null &&
       (1 < n && i + n < |use| ==> m.pages[i + n - 1].prev == At(i)))
    case Body(true, _) => page.slab == PAGE_FREE && page.kind == Whole && page.next == Null
    case Head(false, n) => page.slab == PAGE_START + n && page.kind == Whole && page.next == Null
    case Body(false, _) => page.slab == PAGE_BUSY && page.kind == Whole && page.next == Null
    case Chunks(shift) => page.kind == KindOf(shift)
  }

  type Lists = map<Ref, seq<nat>>

  ghost predicate Threaded(m: Mem, use: seq<Use>, lists: Lists, minShift: nat, afloat: set<nat>) {
    && (forall c :: c in lists <==> IsHead(c) && m.Has(c))
    && (forall c <- lists :: Listed(m, c, lists[c]))
    && (forall p: nat :: p in lists[Free] <==> FreeHead(use, p) && p !in afloat)
    && (forall c <- lists :: c.Slot? ==> forall p <- lists[c] :: p < |use| && use[p] == Chunks(minShift + c.slot))
  }

  /** No two free runs lie side by side, but for those afloat. */
  ghost predicate Apart(use: seq<Use>, afloat: set<nat>) {
    forall i: nat :: FreeHead(use, i) && i !in afloat && i + use[i].len !in afloat ==> !FreeHead(use, i + use[i].len)
  }

  ghost predicate Ok(m: Mem, use: seq<Use>, lists: Lists, minShift: nat, afloat: set<nat>) {
    && |m.pages| == |use| <= MAX_PAGES
    && Layout(use)
    && (forall i: nat :: i < |use| ==> Encodes(m, use, afloat, i))
    && Threaded(m, use, lists, minShift, afloat)
    && Apart(use, afloat)
    && (forall p <- afloat :: FreeHead(use, p))
  }

  // ----- counting

  /** The number of free pages among the first `n`. */
  function FreeCount(use: seq<Use>, n: nat): nat
    requires n <= |use|
  {
    if n == 0 then 0 else FreeCount(use, n - 1) + if !use[n - 1].Chunks? && use[n - 1].free then 1 else 0
  }

  /** Changing the use of the pages [s, s + n) from taken to free, or back, changes the count by n. */
  lemma {:induction false} FreeCountChange(use: seq<Use>, use': seq<Use>, s: nat, n: nat, k: nat)
    requires |use| == |use'| && s + n <= |use| && k <= |use|
    requires forall i :: 0 <= i < |use| && !(s <= i < s + n) ==>
               (!use[i].Chunks? && use[i].free <==> !use'[i].Chunks? && use'[i].free)
    requires forall i :: s <= i < s + n ==> (use[i].Chunks? || !use[i].free) && !use'[i].Chunks? && use'[i].free
    ensures FreeCount(use', k) == FreeCount(use, k) + if k <= s then 0 else if k <= s + n then k - s else n
  {
    if k > 0 {
      FreeCountChange(use, use', s, n, k - 1);
    }
  }

  lemma {:induction false} FreeCountSame(use: seq<Use>, use': seq<Use>, k: nat)
    requires |use| == |use'| && k <= |use|
    requires forall i :: 0 <= i < |use| ==>
               (!use[i].Chunks? && use[i].free <==> !use'[i].Chunks? && use'[i].free)
    ensures FreeCount(use', k) == FreeCount(use, k)
  {
    if k > 0 {
      FreeCountSame(use, use', k - 1);
    }
  }

  // ----- dividing, joining and converting runs

  /** The division in which the pages [s, s + n) form one run. */
  function WithRun(use: seq<Use>, s: nat, n: nat, free: bool): (u: seq<Use>)
    requires s + n <= |use|
    ensures |u| == |use|
    ensures forall i :: 0 <= i < |u| ==>
              u[i] == if i == s && n > 0 then Head(free, n) else if s <= i < s + n then Body(free, s) else use[i]
  {
    seq(|use|, i requires 0 <= i < |use| =>
      if i == s && n > 0 then Head(free, n) else if s <= i < s + n then Body(free, s) else use[i])
  }

  /** [s, s + n) is exactly one run, or one page of chunks. */
  ghost predicate RunAt(use: seq<Use>, s: nat, n: nat) {
    0 < n && s + n <= |use| && (use[s].Head? ==> use[s].len == n) && (use[s].Chunks? ==> n == 1) && !use[s].Body?
  }

  /** Replacing a run by a run of the same extent. */
  lemma ConvertLayout(use: seq<Use>, s: nat, n: nat, free: bool)
    requires Layout(use) && RunAt(use, s, n)
    ensures Layout(WithRun(use, s, n, free))
  {
    var u := WithRun(use, s, n, free);
    forall i: nat | i < |u|
      ensures Fits(u, i)
    {
      assert Fits(use, i) && Fits(use, s);
    }
  }

  /** Joining a run and the run behind it. */
  lemma JoinLayout(use: seq<Use>, s: nat, n: nat, k: nat, free: bool)
    requires Layout(use) && RunAt(use, s, n) && RunAt(use, s + n, k) && use[s].Head? && use[s + n].Head?
    ensures Layout(WithRun(use, s, n + k, free))
  {
    var u := WithRun(use, s, n + k, free);
    forall i: nat | i < |u|
      ensures Fits(u, i)
    {
      assert Fits(use, i) && Fits(use, s) && Fits(use, s + n);
    }
  }

  /** Dividing a run in two. */
  lemma DivideLayout(use: seq<Use>, s: nat, n: nat, k: nat, free: bool)
    requires Layout(use) && RunAt(use, s, n + k) && 0 < n && 0 < k
    ensures Layout(WithRun(WithRun(use, s, n, free), s + n, k, true))
  {
    var u := WithRun(WithRun(use, s, n, free), s + n, k, true);
    forall i: nat | i < |u|
      ensures Fits(u, i)
    {
      assert Fits(use, i) && Fits(use, s);
    }
  }
}
