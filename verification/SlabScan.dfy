/** The loops that look for a free chunk. */
module SlabScan {
  import opened Words
  import opened Bits
  import opened SlabRuns
  import opened SlabChunks
  import opened SlabBlocks

  ghost predicate IsLowestClear(w: word, i: nat) {
    i < 64 && !Bit(w, i) && forall j: nat :: j < i ==> Bit(w, j)
  }

  /** The lowest clear bit of a word. */
  method LowestClear(w: word) returns (i: nat)
    requires w != BUSY
    ensures IsLowestClear(w, i)
  {
    hide Bit, And, Shl, Pow2;
    var m: word := 1;
    i := 0;
    PowerZero();
    while m != 0
      invariant i <= 64 && m == Power(i)
      invariant forall j: nat :: j < i ==> Bit(w, j)
      decreases 64 - i
    {
      TestBit(w, i);
      if And(w, m) == 0 {
        return;
      }
      NextPower(i);
      m, i := Shl(m, 1), i + 1;
    }
    BusyWord(w);
    assert false;
  }

  lemma PowerZero()
    ensures Power(0) == 1
  {
  }

  /** The lowest free chunk of a page with small chunks, as a word of the bitmap and a bit of the word. */
  method FindSmall(memory: array<word>, p: nat, shift: nat) returns (n: nat, i: nat)
    requires PAGE_WORDS * p + PAGE_WORDS <= memory.Length && shift < EXACT_SHIFT && MapWords(shift) <= PAGE_WORDS
    requires !AllBusy(PageWords(memory[..], p), MapWords(shift))
    ensures n < MapWords(shift) && AllBusy(PageWords(memory[..], p), n)
    ensures IsLowestClear(memory[PAGE_WORDS * p + n], i)
  {
    hide Bit, MapWords;
    n, i := 0, 0;
    while n < MapWords(shift)
      invariant n <= MapWords(shift) && AllBusy(PageWords(memory[..], p), n)
    {
      if memory[PAGE_WORDS * p + n] != BUSY {
        i := LowestClear(memory[PAGE_WORDS * p + n]);
        return;
      }
      n := n + 1;
    }
    assert false;
  }

  /** Whether all words of the bitmap are full, when the words before `n` are. */
  method RestBusy(memory: array<word>, p: nat, n: nat, map': nat) returns (busy: bool)
    requires PAGE_WORDS * p + PAGE_WORDS <= memory.Length && n <= map' <= PAGE_WORDS
    requires AllBusy(PageWords(memory[..], p), n)
    ensures busy <==> AllBusy(PageWords(memory[..], p), map')
  {
    var k := n;
    while k < map'
      invariant n <= k <= map' && AllBusy(PageWords(memory[..], p), k)
    {
      if memory[PAGE_WORDS * p + k] != BUSY {
        assert PageWords(memory[..], p)[k] != BUSY;
        return false;
      }
      k := k + 1;
    }
    return true;
  }

  /** The lowest free chunk of a page with large chunks. */
  method FindBig(slab: word, shift: nat) returns (i: nat)
    requires EXACT_SHIFT < shift < PAGE_SHIFT && And(slab, MAP_MASK) != MapMask(shift)
    requires forall j: nat :: MAP_SHIFT + Count(shift) <= j < 64 ==> !Bit(slab, j)
    ensures i < Count(shift) && !Bit(slab, MAP_SHIFT + i)
    ensures forall j: nat :: MAP_SHIFT <= j < MAP_SHIFT + i ==> Bit(slab, j)
  {
    Sizes(shift);
    PowerMap();
    hide Bit, And, Shl, Pow2, MapMask, Count, Power;
    var mask, m := MapMask(shift), 0x1_0000_0000;
    i := 0;
    InMask(shift, 0);
    while And(m, mask) != 0
      invariant i <= Count(shift) && m == Power(MAP_SHIFT + i)
      invariant And(m, mask) != 0 <==> i < Count(shift)
      invariant forall j: nat :: MAP_SHIFT <= j < MAP_SHIFT + i ==> Bit(slab, j)
      decreases Count(shift) - i
    {
      BitAt32(slab, i);
      if And(slab, m) == 0 {
        return;
      }
      NextPower(MAP_SHIFT + i);
      m, i := Shl(m, 1), i + 1;
      InMask(shift, i);
    }
    WholeMask(slab, shift);
    assert false;
  }

  lemma PowerMap()
    ensures Power(MAP_SHIFT) == 0x1_0000_0000
  {
    Pow2Word();
  }

  lemma BitAt32(slab: word, i: nat)
    requires i < 32
    ensures And(slab, Power(MAP_SHIFT + i)) != 0 <==> Bit(slab, MAP_SHIFT + i)
  {
    TestBit(slab, MAP_SHIFT + i);
  }

  lemma InMask(shift: nat, i: nat)
    requires EXACT_SHIFT < shift < PAGE_SHIFT && i <= Count(shift)
    ensures And(Power(MAP_SHIFT + i), MapMask(shift)) != 0 <==> i < Count(shift)
  {
    Sizes(shift);
    var m := Power(MAP_SHIFT + i);
    AndCommutes(m, MapMask(shift));
    if i < 32 {
      MapMaskBits(shift, MAP_SHIFT + i);
      TestBit(MapMask(shift), MAP_SHIFT + i);
    } else {
      AndZero(MapMask(shift));
    }
  }

  lemma AndZero(a: word)
    ensures And(a, 0) == 0
  {
  }

  lemma WholeMask(slab: word, shift: nat)
    requires EXACT_SHIFT < shift < PAGE_SHIFT
    requires forall j: nat :: MAP_SHIFT <= j < MAP_SHIFT + Count(shift) ==> Bit(slab, j)
    requires forall j: nat :: MAP_SHIFT + Count(shift) <= j < 64 ==> !Bit(slab, j)
    ensures And(slab, MAP_MASK) == MapMask(shift)
  {
    var t := And(slab, MAP_MASK);
    hide And, Bit, MapMask, Count, Pow2;
    forall i: nat | i < 64
      ensures Bit(t, i) == Bit(MapMask(shift), i)
    {
      BitAnd(slab, MAP_MASK, i);
      MapMaskBits(shift, i);
    }
    SameWords(t, MapMask(shift));
  }
}
