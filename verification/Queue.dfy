/** The intrusive circular lists of `ngx_queue.h` and `ngx_queue.c`.  Links live in a store and point
    to each other by their places in it; each list runs through its sentinel. */
module Queue {
  import opened Sequences

  datatype Link = Link(prev: nat, next: nat)

  type Store = seq<Link>

  /** Element `k` of the list `l` with sentinel `h`, which is before the first and behind the last. */
  function Elem(h: nat, l: seq<nat>, k: int): nat { if 0 <= k < |l| then l[k] else h }

  /** The links between elements `k` and `k + 1`, in both directions. */
  ghost predicate Hop(s: Store, h: nat, l: seq<nat>, k: int) {
    var a, b := Elem(h, l, k), Elem(h, l, k + 1);
    a < |s| && b < |s| && s[a].next == b && s[b].prev == a
  }

  /** The list with sentinel `h` runs through the elements `l`. */
  ghost predicate Ring(s: Store, h: nat, l: seq<nat>) {
    && h < |s| && h !in l && NoDup(l)
    && forall k {:trigger Hop(s, h, l, k)} :: -1 <= k < |l| ==> Hop(s, h, l, k)
  }

  lemma HopAt(s: Store, h: nat, l: seq<nat>, k: int)
    requires Ring(s, h, l) && -1 <= k < |l|
    ensures Hop(s, h, l, k)
  {
    var hop := Hop(s, h, l, k);
  }

  /** Elements are told apart by their positions. */
  lemma ElemIs(h: nat, l: seq<nat>, i: int, j: int)
    requires NoDup(l) && h !in l && -1 <= i <= |l| && -1 <= j <= |l|
    ensures Elem(h, l, i) == Elem(h, l, j) <==> i == j || (i in {-1, |l|} && j in {-1, |l|})
  {
    assert 0 <= i < |l| ==> l[i] in l;
    assert 0 <= j < |l| ==> l[j] in l;
  }

  // ----- removing and inserting

  function SetNext(s: Store, a: nat, b: nat): Store
    requires a < |s|
  {
    s[a := s[a].(next := b)]
  }

  function SetPrev(s: Store, a: nat, b: nat): Store
    requires a < |s|
  {
    s[a := s[a].(prev := b)]
  }

  function Without(l: seq<nat>, k: nat): seq<nat>
    requires k < |l|
  {
    l[..k] + l[k + 1..]
  }

  /** ngx_queue_remove(). */
  function Removed(s: Store, x: nat): Store
    requires x < |s| && s[x].prev < |s| && s[x].next < |s|
  {
    SetNext(SetPrev(s, s[x].next, s[x].prev), s[x].prev, s[x].next)
  }

  lemma WithoutElem(h: nat, l: seq<nat>, k: nat, j: int)
    requires k < |l| && -1 <= j <= |l|
    ensures Elem(h, Without(l, k), j) == Elem(h, l, if j < k then j else j + 1)
  {
  }

  lemma RemovedHop(s: Store, s': Store, h: nat, l: seq<nat>, l': seq<nat>, k: nat, j: int)
    requires Ring(s, h, l) && k < |l| && l' == Without(l, k) && -1 <= j < |l'|
    requires l[k] < |s| && s[l[k]].prev < |s| && s[l[k]].next < |s| && s' == Removed(s, l[k])
    ensures Hop(s', h, l', j)
  {
    HopAt(s, h, l, k);
    HopAt(s, h, l, k - 1);
    var i := if j < k then j else j + 1;
    HopAt(s, h, l, i);
    if j + 1 == k {
      WithoutElem(h, l, k, j);
      WithoutElem(h, l, k, j + 1);
    } else {
      WithoutElem(h, l, k, j);
      WithoutElem(h, l, k, j + 1);
      ElemIs(h, l, i, k - 1);
      ElemIs(h, l, i + 1, k + 1);
    }
    hide Without, Elem;
  }

  lemma RemovedRing(s: Store, h: nat, l: seq<nat>, k: nat)
    requires Ring(s, h, l) && k < |l|
    ensures l[k] < |s| && s[l[k]].prev < |s| && s[l[k]].next < |s|
    ensures s[l[k]].prev == Elem(h, l, k - 1) && s[l[k]].next == Elem(h, l, k + 1)
    ensures Ring(Removed(s, l[k]), h, Without(l, k)) && l[k] !in Without(l, k)
  {
    HopAt(s, h, l, k);
    HopAt(s, h, l, k - 1);
    var s', l' := Removed(s, l[k]), Without(l, k);
    forall j | -1 <= j < |l'|
      ensures Hop(s', h, l', j)
    {
      RemovedHop(s, s', h, l, l', k, j);
    }
    hide Hop;
  }

  /** ngx_queue_insert_head() and ngx_queue_insert_after(). */
  function Inserted(s: Store, a: nat, x: nat): Store
    requires a < |s| && x < |s| && s[a].next < |s|
  {
    SetNext(SetPrev(SetPrev(SetNext(s, x, s[a].next), s[a].next, x), x, a), a, x)
  }

  function With(l: seq<nat>, k: nat, x: nat): seq<nat>
    requires k <= |l|
  {
    l[..k] + [x] + l[k..]
  }

  lemma WithElem(h: nat, l: seq<nat>, k: nat, x: nat, j: int)
    requires k <= |l| && -1 <= j <= |l| + 1
    ensures Elem(h, With(l, k, x), j) == if j < k then Elem(h, l, j) else if j == k then x else Elem(h, l, j - 1)
  {
  }

  /** Element `x` comes to position `k`, behind element `k - 1`. */
  lemma InsertedHop(s: Store, s': Store, h: nat, l: seq<nat>, l': seq<nat>, k: nat, x: nat, j: int)
    requires Ring(s, h, l) && k <= |l| && x < |s| && x !in l && x != h && l' == With(l, k, x) && -1 <= j < |l'|
    requires Elem(h, l, k - 1) < |s| && s[Elem(h, l, k - 1)].next == Elem(h, l, k) < |s|
    requires s' == Inserted(s, Elem(h, l, k - 1), x)
    ensures Hop(s', h, l', j)
  {
    hide Ring;
    HopAt(s, h, l, k - 1);
    WithElem(h, l, k, x, j);
    WithElem(h, l, k, x, j + 1);
    NotElem(h, l, x, j);
    NotElem(h, l, x, j - 1);
    NotElem(h, l, x, j + 1);
    if j != k - 1 && j != k {
      var i := if j < k then j else j - 1;
      HopAt(s, h, l, i);
      ElemIs(h, l, i, k - 1) by {
        RingParts(s, h, l);
      }
      ElemIs(h, l, i + 1, k) by {
        RingParts(s, h, l);
      }
    }
  }

  lemma NotElem(h: nat, l: seq<nat>, x: nat, i: int)
    requires x !in l && x != h
    ensures Elem(h, l, i) != x
  {
  }

  lemma RingParts(s: Store, h: nat, l: seq<nat>)
    requires Ring(s, h, l)
    ensures NoDup(l) && h !in l && h < |s|
  {
  }

  lemma InsertedRing(s: Store, h: nat, l: seq<nat>, k: nat, x: nat)
    requires Ring(s, h, l) && k <= |l| && x < |s| && x !in l && x != h
    ensures Elem(h, l, k - 1) < |s| && s[Elem(h, l, k - 1)].next == Elem(h, l, k) < |s|
    ensures Ring(Inserted(s, Elem(h, l, k - 1), x), h, With(l, k, x))
  {
    HopAt(s, h, l, k - 1);
    var s', l' := Inserted(s, Elem(h, l, k - 1), x), With(l, k, x);
    forall j | -1 <= j < |l'|
      ensures Hop(s', h, l', j)
    {
      InsertedHop(s, s', h, l, l', k, x, j);
    }
    hide Hop, Inserted;
  }

  // ----- the sorted list

  type Order = (nat, nat) -> int

  /** The comparison is a total preorder. */
  ghost predicate Orders(cmp: Order) {
    && (forall a, b :: cmp(a, b) <= 0 || cmp(b, a) <= 0)
    && (forall a, b, c :: cmp(a, b) <= 0 && cmp(b, c) <= 0 ==> cmp(a, c) <= 0)
  }

  /** Where `x` goes in a sorted list: behind the last element that is not greater. */
  function Place(l: seq<nat>, x: nat, cmp: Order): (k: nat)
    ensures k <= |l|
  {
    if l == [] then 0
    else if cmp(l[|l| - 1], x) <= 0 then |l|
    else Place(l[..|l| - 1], x, cmp)
  }

  function Sorted(l: seq<nat>, cmp: Order): seq<nat> {
    if l == [] then [] else
      var s, x := Sorted(l[..|l| - 1], cmp), l[|l| - 1];
      With(s, Place(s, x, cmp), x)
  }

  ghost predicate Ascending(l: seq<nat>, cmp: Order) {
    forall i, j :: 0 <= i < j < |l| ==> cmp(l[i], l[j]) <= 0
  }

  lemma {:induction false} PlaceSplits(l: seq<nat>, x: nat, cmp: Order)
    requires Orders(cmp) && Ascending(l, cmp)
    ensures forall i :: 0 <= i < Place(l, x, cmp) ==> cmp(l[i], x) <= 0
    ensures forall i :: Place(l, x, cmp) <= i < |l| ==> cmp(l[i], x) > 0 && cmp(x, l[i]) <= 0
  {
    if l != [] && cmp(l[|l| - 1], x) > 0 {
      PlaceSplits(l[..|l| - 1], x, cmp);
    }
  }

  /** Sorting gives an ascending permutation. */
  lemma {:induction false} SortedAscends(l: seq<nat>, cmp: Order)
    requires Orders(cmp)
    ensures Ascending(Sorted(l, cmp), cmp) && multiset(Sorted(l, cmp)) == multiset(l) && |Sorted(l, cmp)| == |l|
  {
    if l != [] {
      var s, x := Sorted(l[..|l| - 1], cmp), l[|l| - 1];
      SortedAscends(l[..|l| - 1], cmp);
      PlaceSplits(s, x, cmp);
      assert l == l[..|l| - 1] + [x];
      hide Place, Orders;
      WithSorted(s, Place(s, x, cmp), x, cmp);
    }
  }

  lemma WithSorted(s: seq<nat>, k: nat, x: nat, cmp: Order)
    requires k <= |s| && Ascending(s, cmp)
    requires (forall i :: 0 <= i < k ==> cmp(s[i], x) <= 0) && forall i :: k <= i < |s| ==> cmp(x, s[i]) <= 0
    ensures Ascending(With(s, k, x), cmp) && multiset(With(s, k, x)) == multiset(s) + multiset{x}
  {
    assert s == s[..k] + s[k..];
  }

  /** `a` comes before `b` in the list. */
  ghost predicate Before(l: seq<nat>, a: nat, b: nat) {
    exists i, j :: 0 <= i < j < |l| && l[i] == a && l[j] == b
  }

  lemma WithBefore(l: seq<nat>, k: nat, x: nat, a: nat, b: nat)
    requires k <= |l| && Before(l, a, b)
    ensures Before(With(l, k, x), a, b)
  {
    var i, j :| 0 <= i < j < |l| && l[i] == a && l[j] == b;
    var i', j' := if i < k then i else i + 1, if j < k then j else j + 1;
    assert With(l, k, x)[i'] == a && With(l, k, x)[j'] == b;
  }

  lemma LastBefore(s: seq<nat>, k: nat, x: nat, a: nat, cmp: Order, l: seq<nat>)
    requires k <= |s| && multiset(s) == multiset(l) && a in l && cmp(a, x) <= 0
    requires forall i :: k <= i < |s| ==> cmp(s[i], x) > 0
    ensures Before(With(s, k, x), a, x)
  {
    assert a in multiset(l);
    var m :| 0 <= m < |s| && s[m] == a;
    assert With(s, k, x)[m] == a && With(s, k, x)[k] == x;
  }

  /** Sorting is stable: elements in order stay in order. */
  lemma {:induction false} SortedStable(l: seq<nat>, cmp: Order, i: nat, j: nat)
    requires Orders(cmp) && i < j < |l| && cmp(l[i], l[j]) <= 0
    ensures Before(Sorted(l, cmp), l[i], l[j])
  {
    hide Place, With, Before, Ascending;
    var s, x := Sorted(l[..|l| - 1], cmp), l[|l| - 1];
    var k := Place(s, x, cmp);
    if j < |l| - 1 {
      SortedStable(l[..|l| - 1], cmp, i, j);
      WithBefore(s, k, x, l[i], l[j]);
    } else {
      SortedAscends(l[..|l| - 1], cmp);
      PlaceSplits(s, x, cmp);
      assert l[..|l| - 1][i] == l[i];
      LastBefore(s, k, x, l[i], cmp, l[..|l| - 1]);
    }
  }

  // ----- the operations

  class Queues {
    var links: Store

    constructor (size: nat)
      ensures |links| == size
    {
      links := seq(size, i => Link(0, 0));
    }

    /** ngx_queue_init(). */
    method Init(q: nat)
      requires q < |links|
      modifies this
      ensures Ring(links, q, []) && links == old(links)[q := Link(q, q)]
    {
      links := links[q := links[q].(prev := q)];
      links := links[q := links[q].(next := q)];
    }

    /** ngx_queue_remove(), of element `k`. */
    method Remove(x: nat, ghost h: nat, ghost l: seq<nat>, ghost k: nat)
      requires Ring(links, h, l) && k < |l| && x == l[k]
      modifies this
      ensures Ring(links, h, Without(l, k)) && x !in Without(l, k) && |links| == |old(links)|
    {
      RemovedRing(links, h, l, k);
      hide Hop;
      links := SetPrev(links, links[x].next, links[x].prev);
      links := SetNext(links, links[x].prev, links[x].next);
    }

    /** ngx_queue_insert_head() and ngx_queue_insert_after(): `x` comes behind `a`, element `k` - 1. */
    method InsertAfter(a: nat, x: nat, ghost h: nat, ghost l: seq<nat>, ghost k: nat)
      requires Ring(links, h, l) && k <= |l| && a == Elem(h, l, k - 1) && x < |links| && x !in l && x != h
      modifies this
      ensures Ring(links, h, With(l, k, x)) && |links| == |old(links)|
    {
      InsertedRing(links, h, l, k, x);
      hide Hop;
      links := SetNext(links, x, links[a].next);
      links := SetPrev(links, links[x].next, x);
      links := SetPrev(links, x, a);
      links := SetNext(links, a, x);
    }

    /** ngx_queue_split(): the elements from `q` on become a list of their own, with sentinel `n`. */
    method Split(h: nat, q: nat, n: nat, ghost l: seq<nat>, ghost k: nat)
      requires Ring(links, h, l) && k < |l| && q == l[k] && n < |links| && n !in l && n != h
      modifies this
      ensures Ring(links, h, l[..k]) && Ring(links, n, l[k..])
    {
      hide Ring, Hop, SplitLinks;
      ghost var s := links;
      SplitEnds(s, h, n, l, k);
      links := SetPrev(links, n, links[h].prev);
      links := SetNext(links, links[n].prev, n);
      links := SetNext(links, n, q);
      links := SetPrev(links, h, links[q].prev);
      links := SetNext(links, links[h].prev, h);
      links := SetPrev(links, q, n);
      SplitDone(s, links, h, n, l, k);
      SplitRings(s, links, h, n, l, k);
    }

    /** ngx_queue_add(): the elements of the list with sentinel `n` are appended. */
    method Add(h: nat, n: nat, ghost l: seq<nat>, ghost r: seq<nat>)
      requires Ring(links, h, l) && Ring(links, n, r) && h != n && h !in r && n !in l && forall x <- l :: x !in r
      modifies this
      ensures Ring(links, h, l + r)
    {
      ghost var s := links;
      HopAt(s, h, l, |l| - 1);
      HopAt(s, n, r, |r| - 1);
      HopAt(s, n, r, -1);
      links := SetNext(links, links[h].prev, links[n].next);
      links := SetPrev(links, links[n].next, links[h].prev);
      links := SetPrev(links, h, links[n].prev);
      links := SetNext(links, links[h].prev, h);
      AddRing(s, links, h, n, l, r);
    }

    /** ngx_queue_middle(): the element at half the length of a queue that is not empty. */
    method Middle(h: nat, ghost l: seq<nat>) returns (middle: nat)
      requires Ring(links, h, l) && l != []
      ensures middle == l[|l| / 2]
    {
      HopAt(links, h, l, -1);
      HopAt(links, h, l, |l| - 1);
      middle := links[h].next;
      if middle == links[h].prev {
        LastIs(h, l, 0);
        return;
      }
      LastIs(h, l, 0);
      var next := links[h].next;
      ghost var k := 0;
      while true
        invariant 2 * k < |l| - 1 && middle == l[k] && next == l[2 * k]
        decreases |l| - k
      {
        HopAt(links, h, l, k);
        HopAt(links, h, l, 2 * k);
        middle := links[middle].next;
        next := links[next].next;
        LastIs(h, l, 2 * k + 1);
        if next == links[h].prev {
          return;
        }
        HopAt(links, h, l, 2 * k + 1);
        next := links[next].next;
        LastIs(h, l, 2 * k + 2);
        if next == links[h].prev {
          return;
        }
        k := k + 1;
      }
    }

    /** The inner loop of ngx_queue_sort(): back from the end of the sorted part `s`, to the element
        behind which `q` belongs. */
    method Seek(h: nat, last: nat, q: nat, cmp: Order, ghost s: seq<nat>, ghost rest: seq<nat>)
      returns (prev: nat, ghost j: int)
      requires Ring(links, h, s + rest) && s != [] && last == s[|s| - 1]
      ensures j + 1 == Place(s, q, cmp) && prev == Elem(h, s + rest, j)
    {
      prev, j := last, |s| - 1;
      assert s[..j + 1] == s;
      while true
        invariant 0 <= j < |s| && prev == (s + rest)[j]
        invariant Place(s, q, cmp) == Place(s[..j + 1], q, cmp)
        decreases j
      {
        assert s[..j + 1][..j] == s[..j];
        if cmp(prev, q) <= 0 {
          break;
        }
        HopAt(links, h, s + rest, j - 1);
        prev := links[prev].prev;
        j := j - 1;
        if prev == h {
          ElemIs(h, s + rest, j, -1);
          break;
        }
      }
    }

    /** Only the last element is before the sentinel. */
    lemma LastIs(h: nat, l: seq<nat>, k: nat)
      requires Ring(links, h, l) && k < |l|
      ensures l[k] == links[h].prev <==> k == |l| - 1
    {
      HopAt(links, h, l, |l| - 1);
      ElemIs(h, l, k, |l| - 1);
    }

    /** ngx_queue_sort(): insertion from the back. */
    method Sort(h: nat, cmp: Order, ghost l: seq<nat>)
      requires Ring(links, h, l)
      modifies this
      ensures Ring(links, h, Sorted(l, cmp))
    {
      HopAt(links, h, l, -1);
      HopAt(links, h, l, |l| - 1);
      var q := links[h].next;
      if q == links[h].prev {
        if l != [] {
          LastIs(h, l, 0);
        }
        ShortSorted(l, cmp);
        return;
      }
      HopAt(links, h, l, 0);
      q := links[q].next;
      ghost var k, s := 1, [l[0]];
      StartSorted(l, cmp);
      hide Ring, Hop, Place, With, Without, Removed, Inserted;
      while q != h
        invariant 1 <= k <= |l| && SortedTo(links, h, cmp, l, k, s) && q == Elem(h, l, k)
        decreases |l| - k
      {
        var next;
        s, next := SortOne(h, q, cmp, l, k, s);
        k := k + 1;
        q := next;
      }
      AllSorted(links, h, cmp, l, s);
    }

    /** The body of the loop: element `k` goes to its place in the sorted part `s`. */
    method SortOne(h: nat, q: nat, cmp: Order, ghost l: seq<nat>, ghost k: nat, ghost s: seq<nat>)
      returns (ghost s': seq<nat>, next: nat)
      requires 1 <= k < |l| && SortedTo(links, h, cmp, l, k, s) && q == l[k]
      modifies this
      ensures SortedTo(links, h, cmp, l, k + 1, s') && next == Elem(h, l, k + 1)
    {
      ghost var r := s + l[k..];
      HopAt(links, h, r, k);
      HopAt(links, h, r, k - 1);
      var prev;
      prev, next := links[q].prev, links[q].next;
      assert prev == s[k - 1] && next == Elem(h, l, k + 1);
      hide Ring, Hop, Place, With, Without;
      Remove(q, h, r, k);
      WithoutNext(s, l, k);
      ghost var j;
      prev, j := Seek(h, prev, q, cmp, s, l[k + 1..]);
      InsertAfter(prev, q, h, s + l[k + 1..], j + 1);
      NextSorted(l, k, s, j + 1, cmp);
      s' := With(s, j + 1, q);
    }
  }

  /** The first `k` elements of `l` have been sorted to `s`. */
  ghost predicate SortedTo(links: Store, h: nat, cmp: Order, l: seq<nat>, k: nat, s: seq<nat>)
    requires k <= |l|
  {
    s == Sorted(l[..k], cmp) && |s| == k && Ring(links, h, s + l[k..])
  }

  lemma AllSorted(links: Store, h: nat, cmp: Order, l: seq<nat>, s: seq<nat>)
    requires SortedTo(links, h, cmp, l, |l|, s)
    ensures Ring(links, h, Sorted(l, cmp))
  {
    assert l[..|l|] == l && s + l[|l|..] == s;
  }

  lemma WithoutNext(s: seq<nat>, l: seq<nat>, k: nat)
    requires k < |l| && |s| == k
    ensures Without(s + l[k..], k) == s + l[k + 1..]
  {
  }

  lemma {:induction false} ShortSorted(l: seq<nat>, cmp: Order)
    requires |l| <= 1
    ensures Sorted(l, cmp) == l
  {
    if l != [] {
      assert l[..|l| - 1] == [];
    }
  }

  lemma StartSorted(l: seq<nat>, cmp: Order)
    requires l != []
    ensures Sorted(l[..1], cmp) == [l[0]] && [l[0]] + l[1..] == l
  {
    assert l[..1][..0] == [];
  }

  lemma NextSorted(l: seq<nat>, k: nat, s: seq<nat>, j: nat, cmp: Order)
    requires k < |l| && s == Sorted(l[..k], cmp) && j == Place(s, l[k], cmp)
    ensures With(s, j, l[k]) == Sorted(l[..k + 1], cmp)
    ensures With(s + l[k + 1..], j, l[k]) == With(s, j, l[k]) + l[k + 1..]
  {
    assert l[..k + 1][..k] == l[..k];
    hide Sorted, Place;
    SortedLength(l[..k], cmp);
    WithJoined(s, l[k + 1..], j, l[k]);
  }

  lemma {:induction false} SortedLength(l: seq<nat>, cmp: Order)
    ensures |Sorted(l, cmp)| == |l|
  {
    if l != [] {
      SortedLength(l[..|l| - 1], cmp);
    }
  }

  lemma WithJoined(s: seq<nat>, r: seq<nat>, j: nat, x: nat)
    requires j <= |s|
    ensures With(s + r, j, x) == With(s, j, x) + r
  {
    assert (s + r)[..j] == s[..j];
    assert (s + r)[j..] == s[j..] + r;
  }

  /** The links after a split, by what they were. */
  ghost predicate SplitLinks(s: Store, s': Store, h: nat, n: nat, l: seq<nat>, k: nat)
    requires k < |l| && n < |s| == |s'|
  {
    && s'[n] == Link(l[|l| - 1], l[k])
    && forall x: nat :: x < |s| && x != n ==>
         && s'[x].next == (if x == Elem(h, l, k - 1) then h else if x == l[|l| - 1] then n else s[x].next)
         && s'[x].prev == (if x == l[k] then n else if x == h then Elem(h, l, k - 1) else s[x].prev)
  }

  /** The places that a split reads and writes. */
  lemma SplitEnds(s: Store, h: nat, n: nat, l: seq<nat>, k: nat)
    requires Ring(s, h, l) && k < |l| && n !in l && n != h
    ensures h < |s| && s[h].prev == l[|l| - 1] < |s| && l[k] < |s| && s[l[k]].prev == Elem(h, l, k - 1) < |s|
    ensures l[k] != h && l[k] != n && l[|l| - 1] != h && l[|l| - 1] != n && Elem(h, l, k - 1) != n
    ensures Elem(h, l, k - 1) != l[|l| - 1]
  {
    HopAt(s, h, l, |l| - 1);
    HopAt(s, h, l, k - 1);
    assert l[k] in l && l[|l| - 1] in l;
  }

  lemma SplitDone(s: Store, s': Store, h: nat, n: nat, l: seq<nat>, k: nat)
    requires k < |l| && n < |s| && h < |s| && l[k] < |s| && l[|l| - 1] < |s| && Elem(h, l, k - 1) < |s|
    requires n != h && l[k] != h && l[k] != n && l[|l| - 1] != h && l[|l| - 1] != n && Elem(h, l, k - 1) != n
    requires Elem(h, l, k - 1) != l[|l| - 1]
    requires s' == SetPrev(SetNext(SetPrev(SetNext(SetNext(SetPrev(s, n, l[|l| - 1]), l[|l| - 1], n), n, l[k]),
                                          h, Elem(h, l, k - 1)), Elem(h, l, k - 1), h), l[k], n)
    ensures |s'| == |s| && SplitLinks(s, s', h, n, l, k)
  {
    hide Elem;
  }

  lemma SplitFront(s: Store, s': Store, h: nat, n: nat, l: seq<nat>, k: nat, j: int)
    requires Ring(s, h, l) && k < |l| && n < |s| == |s'| && n !in l && n != h && -1 <= j < k
    requires SplitLinks(s, s', h, n, l, k)
    ensures Hop(s', h, l[..k], j)
  {
    HopAt(s, h, l, j);
    ElemIs(h, l, j, k - 1);
    ElemIs(h, l, j, |l| - 1);
    ElemIs(h, l, j + 1, k);
    hide Ring;
    assert Elem(h, l[..k], j) == Elem(h, l, j);
    assert Elem(h, l[..k], j + 1) == if j + 1 < k then Elem(h, l, j + 1) else h;
  }

  lemma SplitBack(s: Store, s': Store, h: nat, n: nat, l: seq<nat>, k: nat, j: int)
    requires Ring(s, h, l) && k < |l| && n < |s| == |s'| && n !in l && n != h && -1 <= j < |l[k..]|
    requires SplitLinks(s, s', h, n, l, k)
    ensures Hop(s', n, l[k..], j)
  {
    HopAt(s, h, l, k + j);
    ElemIs(h, l, k + j, k - 1);
    ElemIs(h, l, k + j, |l| - 1);
    ElemIs(h, l, k + j + 1, k);
    ElemIs(h, l, k + j + 1, -1);
    hide Ring;
    assert Elem(n, l[k..], j) == if j == -1 then n else Elem(h, l, k + j);
    assert Elem(n, l[k..], j + 1) == if k + j + 1 < |l| then Elem(h, l, k + j + 1) else n;
  }

  lemma SplitRings(s: Store, s': Store, h: nat, n: nat, l: seq<nat>, k: nat)
    requires Ring(s, h, l) && k < |l| && n < |s| == |s'| && n !in l && n != h
    requires SplitLinks(s, s', h, n, l, k)
    ensures Ring(s', h, l[..k]) && Ring(s', n, l[k..])
  {
    hide SplitLinks, Hop;
    forall j | -1 <= j < k ensures Hop(s', h, l[..k], j) {
      SplitFront(s, s', h, n, l, k, j);
    }
    forall j | -1 <= j < |l[k..]| ensures Hop(s', n, l[k..], j) {
      SplitBack(s, s', h, n, l, k, j);
    }
  }

  /** The links after one list has been added to another. */
  lemma AddRing(s: Store, s': Store, h: nat, n: nat, l: seq<nat>, r: seq<nat>)
    requires Ring(s, h, l) && Ring(s, n, r) && |s'| == |s|
    requires h != n && h !in r && n !in l && forall x <- l :: x !in r
    requires forall x: nat :: x < |s| && x != n ==>
               s'[x].next == (if r != [] && x == Elem(h, l, |l| - 1) then r[0]
                   else if r != [] && x == r[|r| - 1] then h else s[x].next) &&
               s'[x].prev == (if r != [] && x == r[0] then Elem(h, l, |l| - 1)
                   else if r != [] && x == h then r[|r| - 1] else s[x].prev)
    ensures Ring(s', h, l + r)
  {
    assert forall i :: 0 <= i < |l| ==> l[i] in l;
    assert forall i :: 0 <= i < |r| ==> r[i] in r;
    forall j | -1 <= j < |l + r|
      ensures Hop(s', h, l + r, j)
    {
      if j < |l| {
        HopAt(s, h, l, j);
        ElemIs(h, l, j, |l| - 1);
      }
      if j >= |l| - 1 {
        HopAt(s, n, r, j - |l|);
        ElemIs(n, r, j - |l|, |r| - 1);
        ElemIs(n, r, j - |l| + 1, 0);
      }
    }
    hide Hop;
  }
}
