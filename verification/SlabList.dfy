/** The page descriptors of the slab pool and the circular lists threaded through them.

    A link is a pointer to a page descriptor, to the head of the free list or to the head of one
    of the slot lists; the two low bits of the C field `prev` are the separate field `kind`. */
module SlabList {
  import opened Words
  import opened Sequences

  datatype Ref = Null | Free | Slot(slot: nat) | At(page: nat)

  /** NGX_SLAB_PAGE, NGX_SLAB_BIG, NGX_SLAB_EXACT and NGX_SLAB_SMALL. */
  datatype Kind = Whole | Big | Exact | Small

  datatype Page = Page(slab: word, next: Ref, prev: Ref, kind: Kind)

  /** Everything that has links: the pages, and the list heads. */
  datatype Mem = Mem(pages: seq<Page>, slots: seq<Page>, free: Page) {

    predicate Has(r: Ref) {
      match r
      case Null => false
      case Free => true
      case Slot(i) => i < |slots|
      case At(p) => p < |pages|
    }

    function Get(r: Ref): Page
      requires Has(r)
    {
      match r
      case Free => free
      case Slot(i) => slots[i]
      case At(p) => pages[p]
    }

    function Put(r: Ref, page: Page): (m: Mem)
      requires Has(r)
      ensures forall q :: m.Has(q) == Has(q)
      ensures forall q | Has(q) :: m.Get(q) == if q == r then page else Get(q)
    {
      match r
      case Free => this.(free := page)
      case Slot(i) => this.(slots := slots[i := page])
      case At(p) => this.(pages := pages[p := page])
    }

    function SetNext(r: Ref, next: Ref): Mem
      requires Has(r)
    {
      Put(r, Get(r).(next := next))
    }

    /** The whole of the C field `prev`, pointer and type bits. */
    function SetPrev(r: Ref, prev: Ref, kind: Kind): Mem
      requires Has(r)
    {
      Put(r, Get(r).(prev := prev, kind := kind))
    }
  }

  predicate IsHead(c: Ref) { c.Free? || c.Slot? }

  /** The link from position `k` of the list `l` with head `c` to the next position; position -1
      is the head itself. */
  function Link(c: Ref, l: seq<nat>, k: int): Ref {
    if 0 <= k < |l| then At(l[k]) else c
  }

  ghost predicate Placed(m: Mem, c: Ref, l: seq<nat>, k: nat)
    requires k < |l|
  {
    l[k] < |m.pages| && m.pages[l[k]].next == Link(c, l, k + 1) && m.pages[l[k]].prev == Link(c, l, k - 1)
  }

  /** The list with head `c` runs through the pages `l`, in this order, in both directions. */
  ghost predicate Listed(m: Mem, c: Ref, l: seq<nat>) {
    && IsHead(c) && m.Has(c) && NoDup(l)
    && m.Get(c).next == Link(c, l, 0)
    && forall k: nat :: k < |l| ==> Placed(m, c, l, k)
  }

  /** Taking page `p` out of whatever list it is on. */
  function Unlinked(m: Mem, p: nat): Mem
    requires p < |m.pages| && m.Has(m.pages[p].prev) && m.Has(m.pages[p].next)
  {
    var m1 := m.SetNext(m.pages[p].prev, m.pages[p].next);
    m1.SetPrev(m1.pages[p].next, m1.pages[p].prev, m1.pages[p].kind)
  }

  /** What unlinking does to every descriptor, provided `p` is not its own neighbour. */
  lemma UnlinkedFields(m: Mem, p: nat)
    requires p < |m.pages| && m.Has(m.pages[p].prev) && m.Has(m.pages[p].next)
    requires m.pages[p].prev != At(p) && m.pages[p].next != At(p)
    ensures var m', a, b := Unlinked(m, p), m.pages[p].prev, m.pages[p].next;
            && |m'.pages| == |m.pages| && |m'.slots| == |m.slots|
            && (forall q: nat | q < |m.pages| :: m'.pages[q] == m.pages[q].(
                  next := if At(q) == a then b else m.pages[q].next,
                  prev := if At(q) == b then a else m.pages[q].prev,
                  kind := if At(q) == b then m.pages[p].kind else m.pages[q].kind))
            && (forall c | IsHead(c) && m.Has(c) :: m'.Get(c).next == if c == a then b else m.Get(c).next)
  {
    var a, b := m.pages[p].prev, m.pages[p].next;
    var m1 := m.SetNext(a, b);
    var m' := Unlinked(m, p);
    forall q: nat | q < |m.pages|
      ensures m'.pages[q] == m.pages[q].(
                  next := if At(q) == a then b else m.pages[q].next,
                  prev := if At(q) == b then a else m.pages[q].prev,
                  kind := if At(q) == b then m.pages[p].kind else m.pages[q].kind)
    {
      assert m'.Get(At(q)) == m'.pages[q] && m1.Get(At(q)) == m1.pages[q] && m.Get(At(q)) == m.pages[q];
    }
  }

  /** Putting page `p` at the front of the list with head `c`. */
  function Pushed(m: Mem, c: Ref, p: nat, kind: Kind): Mem
    requires IsHead(c) && m.Has(c) && p < |m.pages| && m.Has(m.Get(c).next)
  {
    var m1 := m.SetPrev(At(p), c, kind).SetNext(At(p), m.Get(c).next);
    var m2 := m1.SetPrev(m1.pages[p].next, At(p), kind);
    m2.SetNext(c, At(p))
  }

  lemma PushedFields(m: Mem, c: Ref, p: nat, kind: Kind)
    requires IsHead(c) && m.Has(c) && p < |m.pages| && m.Has(m.Get(c).next) && m.Get(c).next != At(p)
    ensures var m', b := Pushed(m, c, p, kind), m.Get(c).next;
            && |m'.pages| == |m.pages| && |m'.slots| == |m.slots|
            && (forall q: nat | q < |m.pages| :: m'.pages[q] ==
                  if q == p then m.pages[p].(next := b, prev := c, kind := kind)
                  else if At(q) == b then m.pages[q].(prev := At(p), kind := kind)
                  else m.pages[q])
            && (forall d | IsHead(d) && m.Has(d) :: m'.Get(d).next == if d == c then At(p) else m.Get(d).next)
  {
    var m1 := m.SetPrev(At(p), c, kind).SetNext(At(p), m.Get(c).next);
    var m2 := m1.SetPrev(m1.pages[p].next, At(p), kind);
    var m' := Pushed(m, c, p, kind);
    var b := m.Get(c).next;
    forall q: nat | q < |m.pages|
      ensures m'.pages[q] ==
                  if q == p then m.pages[p].(next := b, prev := c, kind := kind)
                  else if At(q) == b then m.pages[q].(prev := At(p), kind := kind)
                  else m.pages[q]
    {
      assert m'.Get(At(q)) == m'.pages[q] && m2.Get(At(q)) == m2.pages[q];
      assert m1.Get(At(q)) == m1.pages[q] && m.Get(At(q)) == m.pages[q];
    }
  }

  /** Putting page `q` in the place page `p` has on the free list. */
  function Substituted(m: Mem, p: nat, q: nat): Mem
    requires p < |m.pages| && q < |m.pages| && m.Has(m.pages[p].prev) && m.Has(m.pages[p].next)
  {
    var m1 := m.SetNext(At(q), m.pages[p].next).SetPrev(At(q), m.pages[p].prev, m.pages[p].kind);
    var m2 := m1.SetNext(m1.pages[p].prev, At(q));
    m2.SetPrev(m2.pages[p].next, At(q), Whole)
  }

  /** What that does to every descriptor. */
  ghost predicate SubstitutedAs(m: Mem, m': Mem, p: nat, q: nat)
    requires p < |m.pages| && q < |m.pages|
  {
    var a, b := m.pages[p].prev, m.pages[p].next;
    && |m'.pages| == |m.pages| && |m'.slots| == |m.slots|
    && (forall r: nat | r < |m.pages| :: m'.pages[r] ==
          if r == q then m.pages[q].(next := b, prev := a, kind := m.pages[p].kind)
          else m.pages[r].(
            next := if At(r) == a then At(q) else m.pages[r].next,
            prev := if At(r) == b then At(q) else m.pages[r].prev,
            kind := if At(r) == b then Whole else m.pages[r].kind))
    && (forall c | IsHead(c) && m.Has(c) :: m'.Get(c).next == if c == a then At(q) else m.Get(c).next)
  }

  lemma SubstitutedFields(m: Mem, p: nat, q: nat)
    requires p < |m.pages| && q < |m.pages| && p != q && m.Has(m.pages[p].prev) && m.Has(m.pages[p].next)
    requires m.pages[p].prev != At(p) && m.pages[p].next != At(p) && m.pages[p].prev != At(q)
             && m.pages[p].next != At(q)
    ensures SubstitutedAs(m, Substituted(m, p, q), p, q)
  {
    var m' := Substituted(m, p, q);
    var a, b := m.pages[p].prev, m.pages[p].next;
    forall r: nat | r < |m.pages|
      ensures m'.pages[r] ==
                  if r == q then m.pages[q].(next := b, prev := a, kind := m.pages[p].kind)
                  else m.pages[r].(
                    next := if At(r) == a then At(q) else m.pages[r].next,
                    prev := if At(r) == b then At(q) else m.pages[r].prev,
                    kind := if At(r) == b then Whole else m.pages[r].kind)
    {
      SubstitutedField(m, p, q, r);
    }
  }

  lemma SubstitutedField(m: Mem, p: nat, q: nat, r: nat)
    requires p < |m.pages| && q < |m.pages| && p != q && m.Has(m.pages[p].prev) && m.Has(m.pages[p].next)
    requires m.pages[p].prev != At(p) && m.pages[p].next != At(p) && m.pages[p].prev != At(q)
             && m.pages[p].next != At(q) && r < |m.pages|
    ensures var m', a, b := Substituted(m, p, q), m.pages[p].prev, m.pages[p].next;
            && |m'.pages| == |m.pages|
            && m'.pages[r] ==
                  if r == q then m.pages[q].(next := b, prev := a, kind := m.pages[p].kind)
                  else m.pages[r].(
                    next := if At(r) == a then At(q) else m.pages[r].next,
                    prev := if At(r) == b then At(q) else m.pages[r].prev,
                    kind := if At(r) == b then Whole else m.pages[r].kind)
  {
    var m0 := m.SetNext(At(q), m.pages[p].next);
    var m1 := m.SetNext(At(q), m.pages[p].next).SetPrev(At(q), m.pages[p].prev, m.pages[p].kind);
    var m2 := m1.SetNext(m1.pages[p].prev, At(q));
    var m' := Substituted(m, p, q);
    assert m0.Get(At(p)) == m0.pages[p] && m1.Get(At(p)) == m1.pages[p] && m2.Get(At(p)) == m2.pages[p];
    assert m'.Get(At(r)) == m'.pages[r] && m2.Get(At(r)) == m2.pages[r] && m1.Get(At(r)) == m1.pages[r];
    assert m0.Get(At(r)) == m0.pages[r] && m.Get(At(r)) == m.pages[r];
  }

  function Without(l: seq<nat>, k: nat): seq<nat>
    requires k < |l|
  {
    l[..k] + l[k + 1..]
  }

  lemma LinkIs(c: Ref, l: seq<nat>, k: int)
    ensures Link(c, l, k) == if 0 <= k < |l| then At(l[k]) else c
  {
  }

  /** Links of the shortened list: positions from `k` on are renumbered. */
  lemma WithoutLinks(c: Ref, l: seq<nat>, k: nat, j: int)
    requires k < |l| && IsHead(c) && NoDup(l) && -1 <= j <= |l|
    ensures j < k ==> Link(c, Without(l, k), j) == Link(c, l, j)
    ensures j >= k ==> Link(c, Without(l, k), j) == Link(c, l, j + 1)
    ensures 0 <= j < |l| ==> (At(l[j]) == Link(c, l, k - 1) <==> j == k - 1)
    ensures 0 <= j < |l| ==> (At(l[j]) == Link(c, l, k + 1) <==> j == k + 1)
  {
  }

  lemma UnlinkedPlace(m: Mem, c: Ref, l: seq<nat>, k: nat, i: nat)
    requires Listed(m, c, l) && k < |l| && i < |l| && i != k && l[k] < |m.pages|
    requires m.Has(m.pages[l[k]].prev) && m.Has(m.pages[l[k]].next)
    requires m.pages[l[k]].prev != At(l[k]) && m.pages[l[k]].next != At(l[k])
    ensures Placed(Unlinked(m, l[k]), c, Without(l, k), if i < k then i else i - 1)
  {
    assert Placed(m, c, l, i) && Placed(m, c, l, k);
    UnlinkedFields(m, l[k]);
    hide Unlinked, Link;
    var j := if i < k then i else i - 1;
    assert Without(l, k)[j] == l[i];
    WithoutLinks(c, l, k, i);
    WithoutLinks(c, l, k, j + 1);
    WithoutLinks(c, l, k, j - 1);
  }

  lemma UnlinkedList(m: Mem, c: Ref, l: seq<nat>, k: nat)
    requires Listed(m, c, l) && k < |l|
    ensures l[k] < |m.pages| && m.Has(m.pages[l[k]].prev) && m.Has(m.pages[l[k]].next)
    ensures m.pages[l[k]].prev != At(l[k]) && m.pages[l[k]].next != At(l[k])
    ensures Listed(Unlinked(m, l[k]), c, Without(l, k))
  {
    assert Placed(m, c, l, k);
    assert k > 0 ==> Placed(m, c, l, k - 1);
    assert k + 1 < |l| ==> Placed(m, c, l, k + 1);
    LinkIs(c, l, k - 1);
    LinkIs(c, l, k + 1);
    var m' := Unlinked(m, l[k]);
    forall j: nat | j < |Without(l, k)|
      ensures Placed(m', c, Without(l, k), j)
    {
      UnlinkedPlace(m, c, l, k, if j < k then j else j + 1);
    }
    UnlinkedFields(m, l[k]);
    WithoutLinks(c, l, k, 0);
    LinkIs(c, l, 0);
    hide Unlinked, Link, Placed;
  }

  lemma PushedList(m: Mem, c: Ref, l: seq<nat>, p: nat, kind: Kind)
    requires Listed(m, c, l) && p < |m.pages| && p !in l
    ensures m.Has(m.Get(c).next) && m.Get(c).next != At(p)
    ensures Listed(Pushed(m, c, p, kind), c, [p] + l)
  {
    LinkIs(c, l, 0);
    assert |l| > 0 ==> Placed(m, c, l, 0);
    var m' := Pushed(m, c, p, kind);
    var l' := [p] + l;
    PushedFields(m, c, p, kind);
    forall j: nat | j < |l'|
      ensures Placed(m', c, l', j)
    {
      hide Pushed;
      if j > 0 {
        assert Placed(m, c, l, j - 1);
        assert At(l[j - 1]) == m.Get(c).next <==> j == 1;
      }
    }
  }

  lemma SubstitutedLinks(c: Ref, l: seq<nat>, k: nat, q: nat, j: int)
    requires k < |l| && IsHead(c) && NoDup(l)
    ensures Link(c, l[k := q], j) == if j == k then At(q) else Link(c, l, j)
    ensures 0 <= j < |l| ==> (At(l[j]) == Link(c, l, k - 1) <==> j == k - 1)
    ensures 0 <= j < |l| ==> (At(l[j]) == Link(c, l, k + 1) <==> j == k + 1)
  {
  }

  lemma SubstitutedPlace(m: Mem, c: Ref, l: seq<nat>, k: nat, q: nat, i: nat)
    requires Listed(m, c, l) && k < |l| && i < |l| && q < |m.pages| && q !in l && l[k] < |m.pages|
    requires m.Has(m.pages[l[k]].prev) && m.Has(m.pages[l[k]].next)
    requires m.pages[l[k]].prev != At(l[k]) && m.pages[l[k]].next != At(l[k])
    requires m.pages[l[k]].prev != At(q) && m.pages[l[k]].next != At(q)
    ensures Placed(Substituted(m, l[k], q), c, l[k := q], i)
  {
    assert Placed(m, c, l, i) && Placed(m, c, l, k);
    SubstitutedFields(m, l[k], q);
    hide Substituted, Link;
    SubstitutedLinks(c, l, k, q, i);
    SubstitutedLinks(c, l, k, q, i + 1);
    SubstitutedLinks(c, l, k, q, i - 1);
  }

  lemma SubstitutedList(m: Mem, c: Ref, l: seq<nat>, k: nat, q: nat)
    requires Listed(m, c, l) && k < |l| && q < |m.pages| && q !in l
    ensures l[k] < |m.pages| && m.Has(m.pages[l[k]].prev) && m.Has(m.pages[l[k]].next)
    ensures m.pages[l[k]].prev != At(l[k]) && m.pages[l[k]].next != At(l[k])
    ensures m.pages[l[k]].prev != At(q) && m.pages[l[k]].next != At(q)
    ensures Listed(Substituted(m, l[k], q), c, l[k := q])
  {
    assert Placed(m, c, l, k);
    assert k > 0 ==> Placed(m, c, l, k - 1);
    assert k + 1 < |l| ==> Placed(m, c, l, k + 1);
    LinkIs(c, l, k - 1);
    LinkIs(c, l, k + 1);
    SubstitutedFields(m, l[k], q);
    var m' := Substituted(m, l[k], q);
    var l' := l[k := q];
    forall i: nat | i < |l'|
      ensures Placed(m', c, l', i)
    {
      SubstitutedPlace(m, c, l, k, q, i);
    }
    SubstitutedLinks(c, l, k, q, 0);
    hide Substituted, Link, Placed;
  }

  /** A list does not notice changes to other pages and other heads. */
  lemma ListedElsewhere(m: Mem, m': Mem, c: Ref, l: seq<nat>)
    requires Listed(m, c, l) && |m'.pages| == |m.pages| && m'.Has(c) && m'.Get(c).next == m.Get(c).next
    requires forall q <- l :: q < |m.pages| ==>
              m'.pages[q].next == m.pages[q].next && m'.pages[q].prev == m.pages[q].prev
    ensures Listed(m', c, l)
  {
    forall k: nat | k < |l|
      ensures Placed(m', c, l, k)
    {
      assert Placed(m, c, l, k) && l[k] in l;
    }
  }
}
