/** The three insertion orders of the tree, and when they keep its in-order sequence sorted. */
module RbOrder {
  import opened Words
  import opened RbShape

  /** Which insertion function the tree was initialised with. */
  datatype Order = ByValue | ByTimer | ByString

  /** The test by which an insertion descends to the left of the node it is looking at. */
  predicate GoesLeft(o: Order, a: Key, b: Key) {
    match o
    case ByValue => a.num < b.num
    case ByTimer => Signed(WrapSub(a.num, b.num)) < 0
    case ByString =>
      if a.num != b.num then a.num < b.num
      else if |a.str| != |b.str| then |a.str| < |b.str|
      else Memcmp(a.str, b.str) < 0
  }

  /** All keys lie in one window shorter than half the key range. */
  predicate InWindow(base: word, k: Key) { WrapSub(k.num, base) < HALF_WORD }

  ghost predicate AllInWindow(base: word, ks: set<Key>) { forall k <- ks :: InWindow(base, k) }

  ghost predicate Windowed(ks: set<Key>) {
    exists base :: AllInWindow(base, ks)
  }

  /** The condition under which an order is a weak order on a set of keys. */
  ghost predicate Coherent(o: Order, ks: set<Key>) { o.ByTimer? ==> Windowed(ks) }

  lemma {:induction false} MemcmpTransitive(a: seq<byte>, b: seq<byte>, c: seq<byte>)
    requires |a| == |b| == |c|
    ensures Memcmp(a, b) >= 0 && Memcmp(b, c) >= 0 ==> Memcmp(a, c) >= 0
  {
    if a != [] {
      MemcmpTransitive(a[1..], b[1..], c[1..]);
    }
  }

  lemma {:induction false} MemcmpAntisymmetric(a: seq<byte>, b: seq<byte>)
    requires |a| == |b|
    ensures Memcmp(b, a) == -Memcmp(a, b)
    ensures Memcmp(a, b) == 0 <==> a == b
  {
    if a != [] {
      MemcmpAntisymmetric(a[1..], b[1..]);
      assert a == [a[0]] + a[1..] && b == [b[0]] + b[1..];
    }
  }

  /** In a window the timer order is the order of the distances from the window's base. */
  lemma WindowLaw(base: word, a: Key, b: Key)
    requires InWindow(base, a) && InWindow(base, b)
    ensures GoesLeft(ByTimer, a, b) <==> WrapSub(a.num, base) < WrapSub(b.num, base)
  {
  }

  /** Negative transitivity, the law every descent relies on. */
  lemma NotLeftTransitive(o: Order, ks: set<Key>, a: Key, b: Key, c: Key)
    requires Coherent(o, ks) && a in ks && b in ks && c in ks
    requires !GoesLeft(o, a, b) && !GoesLeft(o, b, c)
    ensures !GoesLeft(o, a, c)
  {
    match o
    case ByValue =>
    case ByTimer =>
      var base :| AllInWindow(base, ks);
      WindowLaw(base, a, b);
      WindowLaw(base, b, c);
      WindowLaw(base, a, c);
    case ByString =>
      if |a.str| == |b.str| == |c.str| {
        MemcmpTransitive(a.str, b.str, c.str);
      }
  }

  /** Without the window the law fails: three keys spread over the whole range form a cycle. */
  lemma TimerOrderNeedsWindow()
    ensures var a, b, c := Key(0, []), Key(0x6000_0000_0000_0000, []), Key(0xC000_0000_0000_0000, []);
            GoesLeft(ByTimer, a, b) && GoesLeft(ByTimer, b, c) && GoesLeft(ByTimer, c, a)
    ensures !Windowed({Key(0, []), Key(0x6000_0000_0000_0000, []), Key(0xC000_0000_0000_0000, [])})
  {
    var ks := {Key(0, []), Key(0x6000_0000_0000_0000, []), Key(0xC000_0000_0000_0000, [])};
    if Windowed(ks) {
      var base :| AllInWindow(base, ks);
      WindowLaw(base, Key(0, []), Key(0x6000_0000_0000_0000, []));
      WindowLaw(base, Key(0x6000_0000_0000_0000, []), Key(0xC000_0000_0000_0000, []));
      WindowLaw(base, Key(0xC000_0000_0000_0000, []), Key(0, []));
    }
  }

  ghost function Keys<N>(s: seq<Entry<N>>): set<Key> { set e <- s :: e.key }

  /** Later entries never go left of earlier ones. */
  ghost predicate Sorted<N>(o: Order, s: seq<Entry<N>>) {
    forall i, j :: 0 <= i < j < |s| ==> !GoesLeft(o, s[j].key, s[i].key)
  }

  /** `b` does not come before `a`, said of the keys: numbers do not descend; timers, of which `first` is
      the earliest, are ever further ahead of it, by less than half the range; strings go by number,
      then length, then bytes. */
  ghost predicate NotBefore(o: Order, first: Key, a: Key, b: Key) {
    match o
    case ByValue => a.num <= b.num
    case ByTimer => (a.num - first.num) % WORD_SIZE <= (b.num - first.num) % WORD_SIZE < WORD_SIZE / 2
    case ByString =>
      || a.num < b.num
      || (a.num == b.num && |a.str| < |b.str|)
      || (a.num == b.num && |a.str| == |b.str| && (a.str == b.str || exists d :: DifferFirst(a.str, b.str, d)))
  }

  /** The first byte in which the strings differ is at `d`, and smaller in the first of them. */
  predicate DifferFirst(a: seq<byte>, b: seq<byte>, d: nat) {
    d < |a| && d < |b| && a[..d] == b[..d] && a[d] < b[d]
  }

  lemma {:induction false} MemcmpMeans(a: seq<byte>, b: seq<byte>)
    requires |a| == |b|
    ensures Memcmp(a, b) < 0 <==> exists d :: DifferFirst(a, b, d)
  {
    if a == [] {
    } else if a[0] == b[0] {
      MemcmpMeans(a[1..], b[1..]);
      forall d: nat
        ensures DifferFirst(a[1..], b[1..], d) <==> DifferFirst(a, b, d + 1)
      {
        if d < |a| {
          assert a[..d + 1] == [a[0]] + a[1..][..d] && b[..d + 1] == [b[0]] + b[1..][..d];
          assert a[1..][..d] == a[..d + 1][1..] && b[1..][..d] == b[..d + 1][1..];
        }
      }
      if d: nat :| DifferFirst(a, b, d) {
        assert d > 0 && DifferFirst(a[1..], b[1..], d - 1);
      }
    } else {
      assert a[0] < b[0] ==> DifferFirst(a, b, 0);
      if d: nat :| DifferFirst(a, b, d) {
        assert d > 0 ==> a[..d][0] == b[..d][0];
      }
    }
  }

  lemma NotLeftMeans(o: Order, first: Key, a: Key, b: Key)
    requires o.ByTimer? ==> InWindow(first.num, a) && InWindow(first.num, b)
    ensures !GoesLeft(o, b, a) <==> NotBefore(o, first, a, b)
  {
    match o
    case ByValue =>
    case ByTimer => WindowLaw(first.num, b, a);
    case ByString =>
      if |a.str| == |b.str| {
        MemcmpMeans(a.str, b.str);
        MemcmpAntisymmetric(a.str, b.str);
      }
  }

  /** What it means for the sequence to be sorted. */
  lemma SortedMeans<N>(o: Order, s: seq<Entry<N>>)
    ensures Sorted(o, s) <==> forall i, j :: 0 <= i < j < |s| ==> NotBefore(o, s[0].key, s[i].key, s[j].key)
  {
    hide GoesLeft, NotBefore;
    if Sorted(o, s) || forall i, j :: 0 <= i < j < |s| ==> NotBefore(o, s[0].key, s[i].key, s[j].key) {
      if o.ByTimer? && |s| > 1 {
        TimersNearFirst(s);
      }
      forall i, j | 0 <= i < j < |s|
        ensures !GoesLeft(o, s[j].key, s[i].key) <==> NotBefore(o, s[0].key, s[i].key, s[j].key)
      {
        NotLeftMeans(o, s[0].key, s[i].key, s[j].key);
      }
    }
  }

  /** Timers not before the first of them are in the window that starts with it. */
  lemma TimersNearFirst<N>(s: seq<Entry<N>>)
    requires |s| > 1
    requires || Sorted(ByTimer, s)
             || forall i, j :: 0 <= i < j < |s| ==> NotBefore(ByTimer, s[0].key, s[i].key, s[j].key)
    ensures forall i :: 0 <= i < |s| ==> InWindow(s[0].key.num, s[i].key)
  {
    forall i | 0 <= i < |s|
      ensures InWindow(s[0].key.num, s[i].key)
    {
      if i > 0 {
        assert Sorted(ByTimer, s) ==> !GoesLeft(ByTimer, s[i].key, s[0].key);
      }
    }
  }

  /** The hole is where a descent for `key` ends: it went left exactly where the test says so. */
  predicate Follows<N>(o: Order, c: Ctx<N>, key: Key) {
    match c
    case Top => true
    case InLeft(up, _, k, _, _) => GoesLeft(o, key, k) && Follows(o, up, key)
    case InRight(_, _, k, _, up) => !GoesLeft(o, key, k) && Follows(o, up, key)
  }

  lemma LeftOfAll<N>(o: Order, whole: seq<Entry<N>>, n: nat, key: Key, ks: set<Key>)
    requires n < |whole| && Sorted(o, whole) && GoesLeft(o, key, whole[n].key)
    requires Coherent(o, ks) && key in ks && Keys(whole) <= ks
    ensures forall d <- whole[n..] :: GoesLeft(o, key, d.key)
  {
    forall d | d in whole[n..]
      ensures GoesLeft(o, key, d.key)
    {
      var i :| n <= i < |whole| && whole[i] == d;
      assert whole[n].key in Keys(whole) && d.key in Keys(whole);
      if i != n && !GoesLeft(o, key, d.key) {
        NotLeftTransitive(o, ks, key, d.key, whole[n].key);
      }
    }
  }

  lemma RightOfAll<N>(o: Order, whole: seq<Entry<N>>, n: nat, key: Key, ks: set<Key>)
    requires n < |whole| && Sorted(o, whole) && !GoesLeft(o, key, whole[n].key)
    requires Coherent(o, ks) && key in ks && Keys(whole) <= ks
    ensures forall d <- whole[..n + 1] :: !GoesLeft(o, key, d.key)
  {
    forall d | d in whole[..n + 1]
      ensures !GoesLeft(o, key, d.key)
    {
      var i :| 0 <= i <= n && whole[i] == d;
      assert whole[n].key in Keys(whole) && d.key in Keys(whole);
      if i != n {
        NotLeftTransitive(o, ks, key, whole[n].key, d.key);
      }
    }
  }

  /** In a sorted tree the hole a descent ends in separates the entries by the key. */
  lemma {:induction false} FollowsSeparates<N>(
      o: Order, c: Ctx<N>, t: Tree<N>, key: Key, ks: set<Key>, whole: seq<Entry<N>>)
    requires Follows(o, c, key)
    requires whole == Before(c) + Inorder(t) + After(c) && Sorted(o, whole)
    requires Coherent(o, ks) && key in ks && Keys(whole) <= ks
    ensures forall e <- Before(c) :: !GoesLeft(o, key, e.key)
    ensures forall e <- After(c) :: GoesLeft(o, key, e.key)
  {
    hide Sorted, Keys, GoesLeft, Coherent;
    match c
    case Top =>
    case InLeft(up, x, k, red, r) =>
      Regroup(Before(up), Inorder(t), [Entry(x, k)], Inorder(r), After(up));
      FollowsSeparates(o, up, Bin(t, x, k, red, r), key, ks, whole);
      assert whole[|whole| - |After(c)|..] == After(c);
      LeftOfAll(o, whole, |whole| - |After(c)|, key, ks);
    case InRight(l, x, k, red, up) =>
      Regroup(Before(up), Inorder(l), [Entry(x, k)], Inorder(t), After(up));
      FollowsSeparates(o, up, Bin(l, x, k, red, t), key, ks, whole);
      assert whole[..|Before(c)|] == Before(c);
      assert whole[|Before(c)| - 1] == Entry(x, k);
      RightOfAll(o, whole, |Before(c)| - 1, key, ks);
  }

  lemma InsertBetween<N>(o: Order, b: seq<Entry<N>>, e: Entry<N>, a: seq<Entry<N>>, ks: set<Key>)
    requires Sorted(o, b + a) && Coherent(o, ks) && Keys(b + a) <= ks && e.key in ks
    requires forall d <- b :: !GoesLeft(o, e.key, d.key)
    requires forall d <- a :: GoesLeft(o, e.key, d.key)
    ensures Sorted(o, b + [e] + a)
  {
    var s, s' := b + a, b + [e] + a;
    forall i, j | 0 <= i < j < |s'|
      ensures !GoesLeft(o, s'[j].key, s'[i].key)
    {
      if i == |b| {
        assert s'[j] in a && s'[j] in s;
        assert s'[j].key in Keys(s);
        LeftAsymmetric(o, ks, e.key, s'[j].key);
      } else if j == |b| {
        assert s'[i] in b;
      } else {
        var i', j' := if i < |b| then i else i - 1, if j < |b| then j else j - 1;
        assert s[i'] == s'[i] && s[j'] == s'[j];
      }
    }
  }

  /** An entry put where its descent ends leaves the sequence sorted. */
  lemma InsertKeepsSorted<N>(o: Order, c: Ctx<N>, e: Entry<N>)
    requires Follows(o, c, e.key)
    requires Sorted(o, Before(c) + After(c))
    requires Coherent(o, Keys(Before(c) + After(c)) + {e.key})
    ensures Sorted(o, Before(c) + [e] + After(c))
  {
    var whole := Before(c) + After(c);
    var ks := Keys(whole) + {e.key};
    assert Before(c) + Inorder<N>(Nil) + After(c) == whole;
    FollowsSeparates(o, c, Nil, e.key, ks, whole);
    InsertBetween(o, Before(c), e, After(c), ks);
  }

  /** Sorted timers lie in a window, which starts with the first of them. */
  lemma SortedTimers<N>(s: seq<Entry<N>>)
    requires Sorted(ByTimer, s)
    ensures Windowed(Keys(s))
  {
    if s == [] {
      assert AllInWindow(0, Keys(s));
    } else {
      forall k | k in Keys(s)
        ensures InWindow(s[0].key.num, k)
      {
        var j :| 0 <= j < |s| && s[j].key == k;
        assert j > 0 ==> !GoesLeft(ByTimer, s[j].key, s[0].key);
      }
      assert AllInWindow(s[0].key.num, Keys(s));
    }
  }

  lemma KeysBetween<N>(b: seq<Entry<N>>, e: Entry<N>, a: seq<Entry<N>>)
    ensures Keys(b + [e] + a) == Keys(b + a) + {e.key}
  {
    forall d | d in b + a
      ensures d in b + [e] + a
    {
      assert d in b || d in a;
    }
    assert e in b + [e] + a;
  }

  lemma LeftAsymmetric(o: Order, ks: set<Key>, a: Key, b: Key)
    requires Coherent(o, ks) && a in ks && b in ks
    requires GoesLeft(o, a, b)
    ensures !GoesLeft(o, b, a)
  {
    if o.ByTimer? {
      var base :| AllInWindow(base, ks);
      WindowLaw(base, a, b);
      WindowLaw(base, b, a);
    } else if o.ByString? && |a.str| == |b.str| {
      MemcmpAntisymmetric(a.str, b.str);
    }
  }

  lemma RemoveKeepsSorted<N>(o: Order, b: seq<Entry<N>>, e: Entry<N>, a: seq<Entry<N>>)
    requires Sorted(o, b + [e] + a)
    ensures Sorted(o, b + a)
  {
    var s, s' := b + [e] + a, b + a;
    forall i, j | 0 <= i < j < |s'|
      ensures !GoesLeft(o, s'[j].key, s'[i].key)
    {
      var i', j' := if i < |b| then i else i + 1, if j < |b| then j else j + 1;
      assert s'[i] == s[i'] && s'[j] == s[j'];
    }
  }

  /** The hole is where a three-way search for `key` ends: the key differed from every node on the
      way, and the search turned towards it. */
  predicate Searched<N>(o: Order, c: Ctx<N>, key: Key) {
    match c
    case Top => true
    case InLeft(up, _, k, _, _) => GoesLeft(o, key, k) && Searched(o, up, key)
    case InRight(_, _, k, _, up) => GoesLeft(o, k, key) && Searched(o, up, key)
  }

  /** A search that ends in an empty place of a sorted tree has not missed the key. */
  lemma {:induction false} SearchedMisses<N>(o: Order, c: Ctx<N>, t: Tree<N>, key: Key, whole: seq<Entry<N>>)
    requires Searched(o, c, key)
    requires whole == Before(c) + Inorder(t) + After(c) && Sorted(o, whole)
    ensures forall e <- Before(c) :: e.key != key
    ensures forall e <- After(c) :: e.key != key
  {
    hide Sorted, GoesLeft;
    match c
    case Top =>
    case InLeft(up, x, k, red, r) =>
      Regroup(Before(up), Inorder(t), [Entry(x, k)], Inorder(r), After(up));
      SearchedMisses(o, up, Bin(t, x, k, red, r), key, whole);
      assert whole[|whole| - |After(c)|..] == After(c);
      SortedTail(o, whole, |whole| - |After(c)|, key);
    case InRight(l, x, k, red, up) =>
      Regroup(Before(up), Inorder(l), [Entry(x, k)], Inorder(t), After(up));
      SearchedMisses(o, up, Bin(l, x, k, red, t), key, whole);
      assert whole[..|Before(c)|] == Before(c);
      assert whole[|Before(c)| - 1] == Entry(x, k);
      SortedHead(o, whole, |Before(c)| - 1, key);
  }

  lemma SortedTail<N>(o: Order, whole: seq<Entry<N>>, n: nat, key: Key)
    requires n < |whole| && Sorted(o, whole) && GoesLeft(o, key, whole[n].key)
    ensures forall e <- whole[n..] :: e.key != key
  {
    forall e | e in whole[n..]
      ensures e.key != key
    {
      var i :| n <= i < |whole| && whole[i] == e;
      if i == n { NotLeftOfItself(o, key); }
    }
  }

  lemma SortedHead<N>(o: Order, whole: seq<Entry<N>>, n: nat, key: Key)
    requires n < |whole| && Sorted(o, whole) && GoesLeft(o, whole[n].key, key)
    ensures forall e <- whole[..n + 1] :: e.key != key
  {
    forall e | e in whole[..n + 1]
      ensures e.key != key
    {
      var i :| 0 <= i <= n && whole[i] == e;
      if i == n { NotLeftOfItself(o, key); }
    }
  }

  lemma NotLeftOfItself(o: Order, key: Key)
    ensures !GoesLeft(o, key, key)
  {
    MemcmpAntisymmetric(key.str, key.str);
  }
}
