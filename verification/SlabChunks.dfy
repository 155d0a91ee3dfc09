/** Pages cut into chunks: which chunks are handed out, and how a page records it.

    Pages with chunks of fewer than 64 bytes keep a bitmap in their own first chunks, pages with
    chunks of 64 bytes keep it in the word `slab` of their descriptor, pages with larger chunks
    keep it in the upper half of that word, with the size of the chunks in the lower half. */
module SlabChunks {
  import opened Words
  import opened Bits
  import opened SlabList
  import opened SlabRuns

  const PAGE_SIZE: nat := 4096
  const PAGE_SHIFT: nat := 12
  const PAGE_WORDS: nat := 512

  /** NGX_SLAB_BUSY, NGX_SLAB_SHIFT_MASK, NGX_SLAB_MAP_MASK and NGX_SLAB_MAP_SHIFT. */
  const BUSY: word := 0xffff_ffff_ffff_ffff
  const SHIFT_MASK: word := 0xf
  const MAP_MASK: word := 0xffff_ffff_0000_0000
  const MAP_SHIFT: nat := 32

  /** How many chunks of size 2^shift a page is cut into, how many of them hold the page's
      bitmap, and how many words the bitmap has. */
  function Count(shift: nat): nat
    requires shift < PAGE_SHIFT
  {
    Pow2(PAGE_SHIFT - shift)
  }

  function Reserved(shift: nat): nat
    requires shift < PAGE_SHIFT
  {
    if shift < EXACT_SHIFT then MapChunks(Count(shift), Pow2(shift)) else 0
  }

  function MapChunks(count: nat, size: nat): nat
    requires size > 0
  {
    var n := count / (size * 8);
    if n < 1 then 1 else n
  }

  function MapWords(shift: nat): nat
    requires shift < PAGE_SHIFT
  {
    Count(shift) / 64
  }

  /** The bitmap covers all chunks, and lies within the chunks reserved for it, of which it needs the
      last one. */
  lemma Sizes(shift: nat)
    requires shift < PAGE_SHIFT
    ensures Count(shift) * Pow2(shift) == PAGE_SIZE && Pow2(shift) <= 2048
    ensures Reserved(shift) < Count(shift) <= PAGE_SIZE
    ensures shift < EXACT_SHIFT ==> Count(shift) == 64 * MapWords(shift) && 2 <= MapWords(shift) <= 64
    ensures shift < EXACT_SHIFT ==> 0 < 8 * MapWords(shift) <= Reserved(shift) * Pow2(shift)
    ensures shift < EXACT_SHIFT ==> (Reserved(shift) - 1) * Pow2(shift) < 8 * MapWords(shift)
    ensures shift >= EXACT_SHIFT ==> Reserved(shift) == 0
    ensures shift == EXACT_SHIFT ==> Count(shift) == 64
    ensures shift > EXACT_SHIFT ==> 2 <= Count(shift) <= 32
  {
    Pow2Table();
    hide Pow2;
    assert shift == 0 || shift == 1 || shift == 2 || shift == 3 || shift == 4 || shift == 5 || shift == 6 ||
           shift == 7 || shift == 8 || shift == 9 || shift == 10 || shift == 11;
  }

  /** Chunk `c` is marked as used in the page's bitmap. */
  predicate Marked(slab: word, map': seq<word>, shift: nat, c: nat)
    requires shift < PAGE_SHIFT && c < Count(shift) && |map'| == PAGE_WORDS
  {
    Sizes(shift);
    if shift < EXACT_SHIFT then Bit(map'[c / 64], c % 64)
    else if shift == EXACT_SHIFT then Bit(slab, c)
    else Bit(slab, MAP_SHIFT + c)
  }

  /** The page marks the chunks `live` and the ones that hold the bitmap, and no others. */
  ghost predicate Cut(slab: word, map': seq<word>, shift: nat, live: set<nat>) {
    && shift < PAGE_SHIFT && |map'| == PAGE_WORDS
    && (forall c <- live :: Reserved(shift) <= c < Count(shift))
    && (forall c: nat :: c < Count(shift) ==> (Marked(slab, map', shift, c) <==> c < Reserved(shift) || c in live))
    && (shift != EXACT_SHIFT ==> And(slab, SHIFT_MASK) == shift)
    && (shift > EXACT_SHIFT ==> forall i: nat :: MAP_SHIFT + Count(shift) <= i < 64 ==> !Bit(slab, i))
  }

  /** All chunks of the page are handed out. */
  ghost predicate Full(shift: nat, live: set<nat>)
    requires shift < PAGE_SHIFT
  {
    forall c: nat :: Reserved(shift) <= c < Count(shift) ==> c in live
  }

  // ----- setting and clearing one mark

  function MarkSlab(slab: word, shift: nat, c: nat): word
    requires shift < PAGE_SHIFT && c < Count(shift)
  {
    Sizes(shift);
    if shift < EXACT_SHIFT then slab
    else
      var i := if shift == EXACT_SHIFT then c else MAP_SHIFT + c;
      Pow2Fits(i);
      Or(slab, Pow2(i))
  }

  function MarkMap(map': seq<word>, shift: nat, c: nat): (r: seq<word>)
    requires shift < PAGE_SHIFT && c < Count(shift) && |map'| == PAGE_WORDS
    ensures |r| == |map'|
  {
    Sizes(shift);
    Pow2Fits(c % 64);
    if shift < EXACT_SHIFT then map'[c / 64 := Or(map'[c / 64], Pow2(c % 64))] else map'
  }

  function ClearSlab(slab: word, shift: nat, c: nat): word
    requires shift < PAGE_SHIFT && c < Count(shift)
  {
    Sizes(shift);
    if shift < EXACT_SHIFT then slab
    else
      var i := if shift == EXACT_SHIFT then c else MAP_SHIFT + c;
      Pow2Fits(i);
      And(slab, Not(Pow2(i)))
  }

  function ClearMap(map': seq<word>, shift: nat, c: nat): (r: seq<word>)
    requires shift < PAGE_SHIFT && c < Count(shift) && |map'| == PAGE_WORDS
    ensures |r| == |map'|
  {
    Sizes(shift);
    Pow2Fits(c % 64);
    if shift < EXACT_SHIFT then map'[c / 64 := And(map'[c / 64], Not(Pow2(c % 64)))] else map'
  }

  lemma SetBit(w: word, i: nat, j: nat)
    requires i < 64 && j < 64
    ensures Pow2(i) < WORD_SIZE && (Bit(Or(w, Pow2(i)), j) <==> Bit(w, j) || i == j)
  {
    Pow2Fits(i);
    BitOr(w, Pow2(i), j);
    BitPow(i, j);
  }

  lemma ClearBit(w: word, i: nat, j: nat)
    requires i < 64 && j < 64
    ensures Pow2(i) < WORD_SIZE && (Bit(And(w, Not(Pow2(i))), j) <==> Bit(w, j) && i != j)
  {
    Pow2Fits(i);
    BitAnd(w, Not(Pow2(i)), j);
    BitNot(Pow2(i), j);
    BitPow(i, j);
  }

  /** The size in the lower half of a word depends on the lower half only. */
  lemma SameShift(a: word, b: word)
    requires forall j: nat :: j < MAP_SHIFT ==> Bit(a, j) == Bit(b, j)
    ensures And(a, SHIFT_MASK) == And(b, SHIFT_MASK)
  {
    var s, t := And(a, SHIFT_MASK), And(b, SHIFT_MASK);
    forall j: nat | j < 64
      ensures Bit(s, j) == Bit(t, j)
    {
      BitAnd(a, SHIFT_MASK, j);
      BitAnd(b, SHIFT_MASK, j);
      Pow2Table();
      BitOnes(4, j);
    }
    SameWords(s, t);
  }

  lemma MarkBits(slab: word, map': seq<word>, shift: nat, c: nat, d: nat)
    requires shift < PAGE_SHIFT && c < Count(shift) && d < Count(shift) && |map'| == PAGE_WORDS
    ensures Marked(MarkSlab(slab, shift, c), MarkMap(map', shift, c), shift, d) <==>
            Marked(slab, map', shift, d) || c == d
    ensures Marked(ClearSlab(slab, shift, c), ClearMap(map', shift, c), shift, d) <==>
              Marked(slab, map', shift, d) && c != d
  {
    hide And, Or, Not, Bit, Pow2, Count, MapWords;
    Sizes(shift);
    if shift < EXACT_SHIFT {
      SetBit(map'[c / 64], c % 64, d % 64);
      ClearBit(map'[c / 64], c % 64, d % 64);
    } else if shift == EXACT_SHIFT {
      SetBit(slab, c, d);
      ClearBit(slab, c, d);
    } else {
      SetBit(slab, MAP_SHIFT + c, MAP_SHIFT + d);
      ClearBit(slab, MAP_SHIFT + c, MAP_SHIFT + d);
    }
  }

  /** Marks leave the rest of the word alone. */
  lemma MarkRest(slab: word, shift: nat, c: nat)
    requires EXACT_SHIFT < shift < PAGE_SHIFT && c < Count(shift)
    ensures And(MarkSlab(slab, shift, c), SHIFT_MASK) == And(slab, SHIFT_MASK)
            == And(ClearSlab(slab, shift, c), SHIFT_MASK)
    ensures forall i: nat :: MAP_SHIFT + Count(shift) <= i < 64 ==>
              Bit(MarkSlab(slab, shift, c), i) == Bit(slab, i) == Bit(ClearSlab(slab, shift, c), i)
  {
    Sizes(shift);
    hide And, Or, Not, Bit, Pow2;
    forall j: nat | j < 64 && j != MAP_SHIFT + c
      ensures Bit(MarkSlab(slab, shift, c), j) == Bit(slab, j) == Bit(ClearSlab(slab, shift, c), j)
    {
      SetBit(slab, MAP_SHIFT + c, j);
      ClearBit(slab, MAP_SHIFT + c, j);
    }
    SameShift(slab, MarkSlab(slab, shift, c));
    SameShift(slab, ClearSlab(slab, shift, c));
  }

  /** A chunk is handed out. */
  lemma MarkCut(slab: word, map': seq<word>, shift: nat, live: set<nat>, c: nat)
    requires Cut(slab, map', shift, live) && Reserved(shift) <= c < Count(shift)
    ensures Cut(MarkSlab(slab, shift, c), MarkMap(map', shift, c), shift, live + {c})
  {
    hide And, Or, Not, Bit, Pow2, Count, Reserved, Marked;
    forall d: nat | d < Count(shift)
      ensures Marked(MarkSlab(slab, shift, c), MarkMap(map', shift, c), shift, d) <==>
              d < Reserved(shift) || d in live + {c}
    {
      MarkBits(slab, map', shift, c, d);
    }
    if shift > EXACT_SHIFT {
      MarkRest(slab, shift, c);
    }
  }

  /** A chunk comes back. */
  lemma ClearCut(slab: word, map': seq<word>, shift: nat, live: set<nat>, c: nat)
    requires Cut(slab, map', shift, live) && Reserved(shift) <= c < Count(shift)
    ensures Cut(ClearSlab(slab, shift, c), ClearMap(map', shift, c), shift, live - {c})
  {
    hide And, Or, Not, Bit, Pow2, Count, Reserved, Marked;
    forall d: nat | d < Count(shift)
      ensures Marked(ClearSlab(slab, shift, c), ClearMap(map', shift, c), shift, d) <==>
              d < Reserved(shift) || d in live - {c}
    {
      MarkBits(slab, map', shift, c, d);
    }
    if shift > EXACT_SHIFT {
      MarkRest(slab, shift, c);
    }
  }

  // ----- the tests for full and empty pages

  lemma BusyWord(w: word)
    ensures w == BUSY <==> forall i: nat :: i < 64 ==> Bit(w, i)
  {
    Pow2Word();
    forall i: nat | i < 64
      ensures Bit(BUSY, i)
    {
      BitOnes(64, i);
    }
    if forall i: nat :: i < 64 ==> Bit(w, i) {
      SameWords(w, BUSY);
    }
  }

  predicate AllBusy(map': seq<word>, n: nat)
    requires n <= |map'|
  {
    forall i :: 0 <= i < n ==> map'[i] == BUSY
  }

  lemma MarkedSmall(slab: word, map': seq<word>, shift: nat, n: nat, i: nat)
    requires shift < EXACT_SHIFT && n < MapWords(shift) && i < 64 && |map'| == PAGE_WORDS
    ensures MapWords(shift) <= 64 && 64 * n + i < Count(shift) && (64 * n + i) / 64 == n && (64 * n + i) % 64 == i
    ensures Marked(slab, map', shift, 64 * n + i) <==> Bit(map'[n], i)
  {
    Sizes(shift);
    hide Count, MapWords, Pow2, Bit;
  }

  lemma FullSmall(slab: word, map': seq<word>, shift: nat, live: set<nat>)
    requires Cut(slab, map', shift, live) && shift < EXACT_SHIFT
    ensures MapWords(shift) <= PAGE_WORDS && (Full(shift, live) <==> AllBusy(map', MapWords(shift)))
  {
    Sizes(shift);
    hide Bit, Pow2, Count, Reserved, And, Marked, MapWords;
    if Full(shift, live) {
      forall n | 0 <= n < MapWords(shift)
        ensures map'[n] == BUSY
      {
        forall i: nat | i < 64
          ensures Bit(map'[n], i)
        {
          MarkedSmall(slab, map', shift, n, i);
        }
        BusyWord(map'[n]);
      }
    }
    if AllBusy(map', MapWords(shift)) {
      forall c: nat | Reserved(shift) <= c < Count(shift)
        ensures c in live
      {
        BusyWord(map'[c / 64]);
        MarkedSmall(slab, map', shift, c / 64, c % 64);
      }
    }
  }

  lemma FullExact(slab: word, map': seq<word>, live: set<nat>)
    requires Cut(slab, map', EXACT_SHIFT, live)
    ensures Full(EXACT_SHIFT, live) <==> slab == BUSY
  {
    Sizes(EXACT_SHIFT);
    hide Bit, Pow2, Count, And;
    BusyWord(slab);
    forall c: nat | c < 64
      ensures Bit(slab, c) <==> c in live
    {
      assert Marked(slab, map', EXACT_SHIFT, c) <==> c in live;
    }
  }

  /** The mask that covers the marks of all chunks of a page with large chunks. */
  function MapMask(shift: nat): word
    requires EXACT_SHIFT < shift < PAGE_SHIFT
  {
    Sizes(shift);
    Pow2Fits(Count(shift));
    Shl(Pow2(Count(shift)) - 1, MAP_SHIFT)
  }

  lemma MapMaskBits(shift: nat, i: nat)
    requires EXACT_SHIFT < shift < PAGE_SHIFT && i < 64
    ensures Bit(MapMask(shift), i) <==> MAP_SHIFT <= i < MAP_SHIFT + Count(shift)
    ensures Bit(MAP_MASK, i) <==> MAP_SHIFT <= i
  {
    hide Bit, Pow2, Count, MapMask;
    Sizes(shift);
    MapMaskIs(shift);
    ShlBits(Count(shift), i);
    MaskBits(i);
  }

  lemma MapMaskIs(shift: nat)
    requires EXACT_SHIFT < shift < PAGE_SHIFT
    ensures MapMask(shift) == (Pow2(Count(shift)) - 1) * 0x1_0000_0000
  {
    Sizes(shift);
    Pow2Word();
    hide Bit, Pow2, Count;
    ShlBits(Count(shift), 0);
    assert Pow2(MAP_SHIFT) == 0x1_0000_0000;
  }

  lemma MaskBits(i: nat)
    requires i < 64
    ensures Bit(MAP_MASK, i) <==> MAP_SHIFT <= i
  {
    hide Bit;
    Pow2Word();
    assert Shl(Pow2(32) - 1, MAP_SHIFT) == MAP_MASK;
    ShlBits(32, i);
  }

  /** The lowest `k` bits, moved to the upper half of the word. */
  lemma ShlBits(k: nat, i: nat)
    requires k <= 32 && i < 64
    ensures (Pow2(k) - 1) * 0x1_0000_0000 < WORD_SIZE
    ensures Bit((Pow2(k) - 1) * 0x1_0000_0000, i) <==> 32 <= i < 32 + k
  {
    Pow2Word();
    if k < 32 {
      Pow2Mono(k, 32);
    }
    BitScaled(Pow2(k) - 1, 32, i);
    if i >= 32 {
      BitOnes(k, i - 32);
    }
  }

  lemma FullBig(slab: word, map': seq<word>, shift: nat, live: set<nat>)
    requires Cut(slab, map', shift, live) && shift > EXACT_SHIFT
    ensures Full(shift, live) <==> And(slab, MAP_MASK) == MapMask(shift)
  {
    Sizes(shift);
    var t := And(slab, MAP_MASK);
    hide And, Bit, Pow2, Count, MapMask;
    forall i: nat | i < 64
      ensures Bit(t, i) <==> MAP_SHIFT <= i < MAP_SHIFT + Count(shift) && i - MAP_SHIFT in live
      ensures Bit(MapMask(shift), i) <==> MAP_SHIFT <= i < MAP_SHIFT + Count(shift)
    {
      BitAnd(slab, MAP_MASK, i);
      MapMaskBits(shift, i);
      if MAP_SHIFT <= i < MAP_SHIFT + Count(shift) {
        assert Marked(slab, map', shift, i - MAP_SHIFT) <==> i - MAP_SHIFT in live;
      }
    }
    if Full(shift, live) {
      SameWords(t, MapMask(shift));
    } else {
      var c: nat :| c < Count(shift) && c !in live;
      assert !Bit(t, MAP_SHIFT + c) && Bit(MapMask(shift), MAP_SHIFT + c);
    }
  }

  lemma EmptyBig(slab: word, map': seq<word>, shift: nat, live: set<nat>)
    requires Cut(slab, map', shift, live) && shift > EXACT_SHIFT
    ensures live == {} <==> And(slab, MAP_MASK) == 0
  {
    Sizes(shift);
    var t := And(slab, MAP_MASK);
    hide And, Bit, Pow2, Count;
    forall i: nat | i < 64
      ensures Bit(t, i) <==> MAP_SHIFT <= i < MAP_SHIFT + Count(shift) && i - MAP_SHIFT in live
    {
      BitAnd(slab, MAP_MASK, i);
      MapMaskBits(shift, i);
      if MAP_SHIFT <= i < MAP_SHIFT + Count(shift) {
        assert Marked(slab, map', shift, i - MAP_SHIFT) <==> i - MAP_SHIFT in live;
      }
    }
    ZeroWord(t);
    if live != {} {
      var c :| c in live;
      assert Bit(t, MAP_SHIFT + c);
    }
  }

  lemma EmptyExact(slab: word, map': seq<word>, live: set<nat>)
    requires Cut(slab, map', EXACT_SHIFT, live)
    ensures live == {} <==> slab == 0
  {
    Sizes(EXACT_SHIFT);
    hide Bit, Pow2, Count, And;
    ZeroWord(slab);
    forall c: nat | c < 64
      ensures Bit(slab, c) <==> c in live
    {
      assert Marked(slab, map', EXACT_SHIFT, c) <==> c in live;
    }
    if live != {} {
      var c :| c in live;
      assert Bit(slab, c);
    }
  }

  /** The mask of the bitmap's own marks in the last word that holds such marks. */
  function OwnMask(shift: nat): word
    requires shift < EXACT_SHIFT
  {
    Pow2Fits(Reserved(shift) % 64);
    Pow2(Reserved(shift) % 64) - 1
  }

  /** No word from the last one of the bitmap's own marks on has any other mark. */
  predicate OnlyOwn(map': seq<word>, shift: nat)
    requires shift < EXACT_SHIFT && |map'| == PAGE_WORDS
  {
    Sizes(shift);
    And(map'[Reserved(shift) / 64], Not(OwnMask(shift))) == 0 &&
    forall i :: Reserved(shift) / 64 < i < MapWords(shift) ==> map'[i] == 0
  }

  /** The chunks of the page whose marks are in word `n` of the bitmap, but for the bitmap's own. */
  lemma SmallWord(slab: word, map': seq<word>, shift: nat, live: set<nat>, n: nat)
    requires Cut(slab, map', shift, live) && shift < EXACT_SHIFT
             && Reserved(shift) / 64 <= n < MapWords(shift) <= PAGE_WORDS
    ensures (if n == Reserved(shift) / 64 then And(map'[n], Not(OwnMask(shift))) == 0 else map'[n] == 0) <==>
            forall c <- live :: c / 64 != n
  {
    hide And, Bit, Pow2, Count, Reserved, Not, MapWords, Marked, OwnMask;
    var w := if n == Reserved(shift) / 64 then And(map'[n], Not(OwnMask(shift))) else map'[n];
    forall i: nat | i < 64
      ensures Bit(w, i) <==> 64 * n + i in live
    {
      SmallBit(slab, map', shift, live, n, i);
    }
    InWord(w, live, n);
  }

  lemma SmallBit(slab: word, map': seq<word>, shift: nat, live: set<nat>, n: nat, i: nat)
    requires Cut(slab, map', shift, live) && shift < EXACT_SHIFT
             && Reserved(shift) / 64 <= n < MapWords(shift) <= PAGE_WORDS
    requires i < 64
    ensures Bit(if n == Reserved(shift) / 64 then And(map'[n], Not(OwnMask(shift))) else map'[n], i) <==>
            64 * n + i in live
  {
    hide And, Bit, Pow2, Count, Reserved, Not, MapWords, Marked, OwnMask;
    MarkedSmall(slab, map', shift, n, i);
    LiveIf(slab, map', shift, live, 64 * n + i);
    if n == Reserved(shift) / 64 {
      OwnBit(map'[n], shift, i);
    }
  }

  lemma LiveIf(slab: word, map': seq<word>, shift: nat, live: set<nat>, c: nat)
    requires Cut(slab, map', shift, live) && c < Count(shift)
    ensures Marked(slab, map', shift, c) <==> c < Reserved(shift) || c in live
    ensures c in live ==> c >= Reserved(shift)
  {
    hide And, Bit, Pow2, Count, Reserved, MapWords, Marked;
  }

  /** The word with the bitmap's last own marks, without these. */
  lemma OwnBit(w: word, shift: nat, i: nat)
    requires shift < EXACT_SHIFT && i < 64
    ensures Bit(And(w, Not(OwnMask(shift))), i) <==> Bit(w, i) && i >= Reserved(shift) % 64
  {
    hide And, Bit, Pow2, Count, Reserved, Not, MapWords;
    BitAnd(w, Not(OwnMask(shift)), i);
    BitNot(OwnMask(shift), i);
    BitOnes(Reserved(shift) % 64, i);
  }

  lemma InWord(w: word, live: set<nat>, n: nat)
    requires forall i: nat | i < 64 :: Bit(w, i) <==> 64 * n + i in live
    ensures w == 0 <==> forall c <- live :: c / 64 != n
  {
    ZeroWord(w);
    hide Bit;
    if c :| c in live && c / 64 == n {
      assert Bit(w, c % 64);
    }
  }

  lemma EmptySmall(slab: word, map': seq<word>, shift: nat, live: set<nat>)
    requires Cut(slab, map', shift, live) && shift < EXACT_SHIFT
    ensures live == {} <==> OnlyOwn(map', shift)
  {
    Sizes(shift);
    forall n: nat | Reserved(shift) / 64 <= n < MapWords(shift)
      ensures (if n == Reserved(shift) / 64 then And(map'[n], Not(OwnMask(shift))) == 0 else map'[n] == 0) <==>
              forall c <- live :: c / 64 != n
    {
      SmallWord(slab, map', shift, live, n);
    }
    hide And, Bit, Pow2, Reserved, Not, MapWords, OwnMask, Marked;
    if live != {} {
      var c :| c in live;
      assert Reserved(shift) / 64 <= c / 64 < MapWords(shift);
    }
  }

  // ----- a page about to be cut

  /** The bitmap of a fresh page marks the bitmap's own chunks and the one behind them. */
  ghost predicate FreshMap(map': seq<word>, shift: nat)
    requires shift < EXACT_SHIFT && |map'| == PAGE_WORDS
  {
    var n := Reserved(shift) + 1;
    forall i: nat :: i < MapWords(shift) && i < PAGE_WORDS ==>
      map'[i] == (if i < n / 64 then BUSY else if i == n / 64 then OnesBelow(n % 64) else 0)
  }

  function OnesBelow(k: nat): word
    requires k < 64
  {
    Pow2Fits(k);
    Pow2(k) - 1
  }

  lemma FreshSmall(map': seq<word>, shift: nat)
    requires shift < EXACT_SHIFT && |map'| == PAGE_WORDS && FreshMap(map', shift)
    ensures Cut(shift, map', shift, {Reserved(shift)})
  {
    hide Bit, Pow2, Count, Reserved, And, MapWords, Marked, OnesBelow, FreshMap;
    Sizes(shift);
    forall c: nat | c < Count(shift)
      ensures Marked(shift, map', shift, c) <==> c <= Reserved(shift)
    {
      FreshMark(map', shift, c);
    }
    ShiftKept(shift);
  }

  lemma FreshMark(map': seq<word>, shift: nat, c: nat)
    requires shift < EXACT_SHIFT && |map'| == PAGE_WORDS && FreshMap(map', shift) && c < Count(shift)
    ensures Marked(shift, map', shift, c) <==> c <= Reserved(shift)
  {
    Sizes(shift);
    hide Bit, Pow2, Count, Reserved, And, MapWords, Marked, OnesBelow;
    MarkedSmall(shift, map', shift, c / 64, c % 64);
    FreshBit(map'[c / 64], Reserved(shift) + 1, c);
  }

  lemma FreshBit(w: word, n: nat, c: nat)
    requires w == if c / 64 < n / 64 then BUSY else if c / 64 == n / 64 then OnesBelow(n % 64) else 0
    ensures Bit(w, c % 64) <==> c < n
  {
    BusyWord(BUSY);
    BitOnes(n % 64, c % 64);
    BitZero(c % 64);
    hide Bit, Pow2;
  }

  lemma ShiftKept(shift: nat)
    requires shift < PAGE_SHIFT
    ensures And(shift, SHIFT_MASK) == shift
  {
    var t := And(shift, SHIFT_MASK);
    Pow2Table();
    forall j: nat | j < 64
      ensures Bit(t, j) == Bit(shift, j)
    {
      BitAnd(shift, SHIFT_MASK, j);
      BitOnes(4, j);
      if j >= 4 {
        HighBits(shift, 4, j);
      }
    }
    SameWords(t, shift);
  }

  lemma FreshExact(map': seq<word>)
    requires |map'| == PAGE_WORDS
    ensures Cut(1, map', EXACT_SHIFT, {0})
  {
    Sizes(EXACT_SHIFT);
    Pow2Table();
    forall c: nat | c < 64
      ensures Bit(1, c) <==> c == 0
    {
      BitPow(0, c);
    }
  }

  /** The descriptor of a fresh page with large chunks: the mark of the first chunk, and the size. */
  function FreshWord(shift: nat): word
    requires shift < PAGE_SHIFT
  {
    Or(Shl(1, MAP_SHIFT), shift)
  }

  lemma FreshBig(map': seq<word>, shift: nat)
    requires |map'| == PAGE_WORDS && EXACT_SHIFT < shift < PAGE_SHIFT
    ensures Cut(FreshWord(shift), map', shift, {0})
  {
    Sizes(shift);
    var w := FreshWord(shift);
    hide Bit, Pow2, Count, And, Or, FreshWord;
    forall i: nat | i < 64
      ensures Bit(w, i) <==> (i < MAP_SHIFT && Bit(shift, i)) || i == MAP_SHIFT
    {
      FreshWordBit(shift, i);
    }
    SameShift(w, shift);
    ShiftKept(shift);
  }

  lemma FreshWordBit(shift: nat, i: nat)
    requires shift < PAGE_SHIFT && i < 64
    ensures Bit(FreshWord(shift), i) <==> (i < MAP_SHIFT && Bit(shift, i)) || i == MAP_SHIFT
  {
    Pow2Word();
    Pow2Table();
    hide Pow2, Bit, Or;
    BitOr(Shl(1, MAP_SHIFT), shift, i);
    BitScaled(1, 32, i);
    if i >= 32 {
      BitPow(0, i - 32);
      HighBits(shift, 4, i);
    }
  }
}
