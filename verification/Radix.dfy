/** The radix tree of `ngx_radix_tree.c`, for keys of any width: 32 bits for IPv4, 128 for IPv6.

    A key is the sequence of its bits, most significant first.  With a contiguous mask of `len` ones
    the test `bit & mask` says whether fewer than `len` bits have been walked.  Nodes live in a
    store and point to each other by their places in it. */
module Radix {
  import opened Words

  type Bits = seq<bool>

  /** A pointer to a node. */
  datatype Ptr = Null | To(n: nat)

  /** NGX_RADIX_NO_VALUE. */
  const NO_VALUE: word := WORD_SIZE - 1

  datatype Node = Node(right: Ptr, left: Ptr, parent: Ptr, value: word)

  datatype Status = Ok | Busy | Error

  /** Which nodes are in the tree: their places by the bits that lead to them, and back. */
  datatype Trie = Trie(at: map<Bits, nat>, path: map<nat, Bits>) {
    function Ref(p: Bits): Ptr { if p in at then To(at[p]) else Null }

    predicate Leaf(p: Bits) { Extend(p, false) !in at && Extend(p, true) !in at }

    function With(p: Bits, n: nat): Trie { Trie(at[p := n], path[n := p]) }

    function Without(p: Bits): Trie
      requires p in at
    {
      Trie(at - {p}, path - {at[p]})
    }
  }

  function Extend(p: Bits, b: bool): Bits { p + [b] }

  function Shorten(p: Bits): Bits
    requires p != []
  {
    p[..|p| - 1]
  }

  lemma ExtendIs(p: Bits, b: bool, r: Bits, c: bool)
    ensures Extend(r, c) == Extend(p, b) <==> r == p && c == b
    ensures Shorten(Extend(p, b)) == p && Extend(p, b) != p && Extend(Extend(p, b), c) != Extend(p, b)
  {
    assert Extend(p, b)[..|p|] == p && Extend(r, c)[..|r|] == r;
    assert Extend(p, b)[|p|] == b && Extend(r, c)[|r|] == c;
    assert |Extend(Extend(p, b), c)| == |p| + 2;
  }

  // ----- the invariant

  /** The node at `p` is linked to its children and to its parent, which are where they should be,
      and is at no other place. */
  ghost predicate Linked(nodes: seq<Node>, t: Trie, width: nat, p: Bits)
    requires p in t.at
  {
    var n := t.at[p];
    && |p| <= width && n < |nodes| && n in t.path && t.path[n] == p
    && nodes[n].left == t.Ref(Extend(p, false)) && nodes[n].right == t.Ref(Extend(p, true))
    && (if p == [] then nodes[n].parent == Null else Shorten(p) in t.at && nodes[n].parent == To(t.at[Shorten(p)]))
  }

  /** The links are those of a tree whose root is node `root`. */
  ghost predicate TreeShape(nodes: seq<Node>, t: Trie, width: nat, root: nat) {
    && [] in t.at && t.at[[]] == root
    && (forall p {:trigger Linked(nodes, t, width, p)} :: p in t.at ==> Linked(nodes, t, width, p))
    && forall n: nat :: n in t.path ==> n < |nodes| && t.path[n] in t.at && t.at[t.path[n]] == n
  }

  function Item(s: seq<nat>, i: nat): Ptr { if i < |s| then To(s[i]) else Null }

  ghost predicate Spare(nodes: seq<Node>, t: Trie, spare: seq<nat>, i: nat)
    requires i < |spare|
  {
    var n := spare[i];
    n < |nodes| && nodes[n].right == Item(spare, i + 1) && n !in t.path && forall j :: 0 <= j < i ==> spare[j] != n
  }

  /** The free list holds the spare nodes, none of which is in the tree. */
  ghost predicate FreeShape(nodes: seq<Node>, t: Trie, free: Ptr, spare: seq<nat>) {
    free == Item(spare, 0) && forall i: nat {:trigger Spare(nodes, t, spare, i)} :: i < |spare| ==>
        Spare(nodes, t, spare, i)
  }

  lemma LinkedAt(nodes: seq<Node>, t: Trie, width: nat, root: nat, p: Bits)
    requires TreeShape(nodes, t, width, root) && p in t.at
    ensures Linked(nodes, t, width, p)
  {
    var linked := Linked(nodes, t, width, p);
  }

  /** What is in the tree has all shorter prefixes in it. */
  lemma {:induction false} PrefixClosed(nodes: seq<Node>, t: Trie, width: nat, root: nat, p: Bits, i: nat)
    requires TreeShape(nodes, t, width, root) && p in t.at && i <= |p|
    ensures p[..i] in t.at
    decreases |p| - i
  {
    if i < |p| {
      PrefixClosed(nodes, t, width, root, p, i + 1);
      LinkedAt(nodes, t, width, root, p[..i + 1]);
      assert Shorten(p[..i + 1]) == p[..i];
    } else {
      assert p[..i] == p;
    }
  }

  lemma NotBelow(nodes: seq<Node>, t: Trie, width: nat, root: nat, key: Bits, i: nat, j: nat)
    requires TreeShape(nodes, t, width, root) && i <= j <= |key| && key[..i] !in t.at
    ensures key[..j] !in t.at
  {
    assert key[..j][..i] == key[..i];
    if key[..j] in t.at {
      PrefixClosed(nodes, t, width, root, key[..j], i);
    }
  }

  /** A node at full depth has no children. */
  lemma TooDeep(nodes: seq<Node>, t: Trie, width: nat, root: nat, p: Bits)
    requires TreeShape(nodes, t, width, root) && p in t.at && |p| == width
    ensures t.Leaf(p)
  {
    if Extend(p, false) in t.at {
      LinkedAt(nodes, t, width, root, Extend(p, false));
    }
    if Extend(p, true) in t.at {
      LinkedAt(nodes, t, width, root, Extend(p, true));
    }
  }

  /** What is not in the tree has no children in it. */
  lemma NoChildren(nodes: seq<Node>, t: Trie, width: nat, root: nat, q: Bits)
    requires TreeShape(nodes, t, width, root) && q !in t.at
    ensures t.Leaf(q)
  {
    assert Extend(q, false)[..|q|] == Extend(q, true)[..|q|] == q;
    if Extend(q, false) in t.at {
      PrefixClosed(nodes, t, width, root, Extend(q, false), |q|);
    }
    if Extend(q, true) in t.at {
      PrefixClosed(nodes, t, width, root, Extend(q, true), |q|);
    }
  }

  /** The prefix map: the values by their prefixes. */
  ghost function Prefixes(nodes: seq<Node>, t: Trie): map<Bits, word> {
    map p | p in t.at && t.at[p] < |nodes| && nodes[t.at[p]].value != NO_VALUE :: nodes[t.at[p]].value
  }

  /** Every leaf but the root, and but that at `except`, carries a value. */
  ghost predicate LeavesValued(nodes: seq<Node>, t: Trie, except: Bits) {
    forall p :: p in t.at && t.at[p] < |nodes| && p != [] && p != except && t.Leaf(p) ==>
        nodes[t.at[p]].value != NO_VALUE
  }

  // ----- linking a node in, and taking a leaf out

  function Linking(nodes: seq<Node>, node: nat, b: bool, child: Ptr): Node
    requires node < |nodes|
  {
    if b then nodes[node].(right := child) else nodes[node].(left := child)
  }

  /** The store after node `n` has become a child of `node`. */
  function Grafted(nodes: seq<Node>, node: nat, b: bool, n: nat): seq<Node>
    requires node < |nodes| && n < |nodes| && n != node
  {
    nodes[n := Node(Null, Null, To(node), NO_VALUE)][node := Linking(nodes, node, b, To(n))]
  }

  lemma GraftedLinked(nodes: seq<Node>, nodes': seq<Node>, t: Trie, t': Trie, width: nat, root: nat, p: Bits, b: bool,
          n: nat, r: Bits)
    requires TreeShape(nodes, t, width, root) && p in t.at && Extend(p, b) !in t.at && |p| < width
    requires n < |nodes| && n !in t.path && t.at[p] < |nodes| && t.at[p] != n
    requires nodes' == Grafted(nodes, t.at[p], b, n) && t' == t.With(Extend(p, b), n) && r in t'.at
    ensures Linked(nodes', t', width, r)
  {
    LinkedAt(nodes, t, width, root, p);
    ExtendIs(p, b, r, false);
    ExtendIs(p, b, r, true);
    if r == Extend(p, b) {
      NoChildren(nodes, t, width, root, r);
    } else {
      LinkedAt(nodes, t, width, root, r);
    }
  }

  lemma GraftedShape(nodes: seq<Node>, nodes': seq<Node>, t: Trie, t': Trie, width: nat, root: nat, p: Bits, b: bool,
          n: nat)
    requires TreeShape(nodes, t, width, root) && p in t.at && Extend(p, b) !in t.at && |p| < width
    requires n < |nodes| && n !in t.path && t.at[p] < |nodes| && t.at[p] != n
    requires nodes' == Grafted(nodes, t.at[p], b, n) && t' == t.With(Extend(p, b), n)
    ensures TreeShape(nodes', t', width, root)
  {
    hide Linked, Extend;
    forall r | r in t'.at
      ensures Linked(nodes', t', width, r)
    {
      GraftedLinked(nodes, nodes', t, t', width, root, p, b, n, r);
    }
    NotRoot(p, b);
  }

  lemma NotRoot(p: Bits, b: bool)
    ensures Extend(p, b) != []
  {
  }

  /** The store after the child of `node` on side `b` has been cut off. */
  function Pruned(nodes: seq<Node>, node: nat, b: bool): seq<Node>
    requires node < |nodes|
  {
    nodes[node := Linking(nodes, node, b, Null)]
  }

  lemma PrunedLinked(nodes: seq<Node>, nodes': seq<Node>, t: Trie, t': Trie, width: nat, root: nat, p: Bits, b: bool,
          r: Bits)
    requires TreeShape(nodes, t, width, root) && p in t.at && t.at[p] < |nodes|
    requires Extend(p, b) in t.at && t.Leaf(Extend(p, b))
    requires nodes' == Pruned(nodes, t.at[p], b) && t' == t.Without(Extend(p, b)) && r in t'.at
    ensures Linked(nodes', t', width, r)
  {
    LinkedAt(nodes, t, width, root, p);
    LinkedAt(nodes, t, width, root, r);
    LinkedAt(nodes, t, width, root, Extend(p, b));
    ExtendIs(p, b, r, false);
    ExtendIs(p, b, r, true);
    if r != [] {
      assert r == Extend(Shorten(r), r[|r| - 1]);
    }
  }

  lemma PrunedShape(nodes: seq<Node>, nodes': seq<Node>, t: Trie, t': Trie, width: nat, root: nat, p: Bits, b: bool)
    requires TreeShape(nodes, t, width, root) && p in t.at && t.at[p] < |nodes|
    requires Extend(p, b) in t.at && t.Leaf(Extend(p, b))
    requires nodes' == Pruned(nodes, t.at[p], b) && t' == t.Without(Extend(p, b))
    ensures TreeShape(nodes', t', width, root)
  {
    hide Linked, Extend;
    forall r | r in t'.at
      ensures Linked(nodes', t', width, r)
    {
      PrunedLinked(nodes, nodes', t, t', width, root, p, b, r);
    }
    NotRoot(p, b);
    AllPlaced(nodes, t, width, root);
  }

  /** The node is neither in the tree nor on the free list. */
  ghost predicate Loose(nodes: seq<Node>, t: Trie, spare: seq<nat>, n: nat) {
    n < |nodes| && n !in t.path && n !in spare
  }

  lemma SpareAt(nodes: seq<Node>, t: Trie, free: Ptr, spare: seq<nat>, i: nat)
    requires FreeShape(nodes, t, free, spare) && i < |spare|
    ensures Spare(nodes, t, spare, i)
  {
    var s := Spare(nodes, t, spare, i);
  }

  /** Changes to other nodes leave the free list alone. */
  lemma FreeKept(nodes: seq<Node>, t: Trie, nodes': seq<Node>, t': Trie, free: Ptr, spare: seq<nat>)
    requires FreeShape(nodes, t, free, spare) && |nodes'| >= |nodes|
    requires forall n: nat :: n in spare && n < |nodes| ==>
              nodes'[n].right == nodes[n].right && (n !in t.path ==> n !in t'.path)
    ensures FreeShape(nodes', t', free, spare)
  {
    forall i: nat | i < |spare|
      ensures Spare(nodes', t', spare, i)
    {
      SpareAt(nodes, t, free, spare, i);
    }
  }

  /** A loose node goes to the front of the free list. */
  lemma FreePushed(nodes: seq<Node>, t: Trie, free: Ptr, spare: seq<nat>, n: nat)
    requires FreeShape(nodes, t, free, spare) && Loose(nodes, t, spare, n)
    ensures FreeShape(nodes[n := nodes[n].(right := free)], t, To(n), [n] + spare)
  {
    var nodes', spare' := nodes[n := nodes[n].(right := free)], [n] + spare;
    forall i: nat | i < |spare'|
      ensures Spare(nodes', t, spare', i)
    {
      if i > 0 {
        SpareAt(nodes, t, free, spare, i - 1);
      }
    }
  }

  /** The first node of the free list is taken off it. */
  lemma FreePopped(nodes: seq<Node>, t: Trie, free: Ptr, spare: seq<nat>)
    requires FreeShape(nodes, t, free, spare) && free.To?
    ensures spare != [] && free.n == spare[0] && free.n < |nodes| && Loose(nodes, t, spare[1..], free.n)
    ensures FreeShape(nodes, t, nodes[free.n].right, spare[1..])
  {
    SpareAt(nodes, t, free, spare, 0);
    forall i: nat | i < |spare[1..]|
      ensures Spare(nodes, t, spare[1..], i) && spare[1..][i] != spare[0]
    {
      SpareAt(nodes, t, free, spare, i + 1);
    }
  }

  lemma NewNode(nodes: seq<Node>, t: Trie, width: nat, root: nat, free: Ptr, spare: seq<nat>, n: Node)
    requires TreeShape(nodes, t, width, root) && FreeShape(nodes, t, free, spare)
    ensures TreeShape(nodes + [n], t, width, root) && FreeShape(nodes + [n], t, free, spare)
    ensures Loose(nodes + [n], t, spare, |nodes|)
    ensures Prefixes(nodes + [n], t) == Prefixes(nodes, t)
    ensures forall p :: LeavesValued(nodes, t, p) ==> LeavesValued(nodes + [n], t, p)
  {
    forall p | p in t.at
      ensures Linked(nodes + [n], t, width, p)
    {
      LinkedAt(nodes, t, width, root, p);
    }
    FreeKept(nodes, t, nodes + [n], t, free, spare);
    forall i: nat | i < |spare|
      ensures spare[i] < |nodes|
    {
      SpareAt(nodes, t, free, spare, i);
    }
    AllPlaced(nodes, t, width, root);
  }

  lemma Placed(nodes: seq<Node>, t: Trie, width: nat, root: nat, p: Bits)
    requires TreeShape(nodes, t, width, root) && p in t.at
    ensures t.at[p] < |nodes| && t.at[p] in t.path && t.path[t.at[p]] == p
  {
    LinkedAt(nodes, t, width, root, p);
  }

  lemma AllPlaced(nodes: seq<Node>, t: Trie, width: nat, root: nat)
    requires TreeShape(nodes, t, width, root)
    ensures forall p :: p in t.at ==> t.at[p] < |nodes| && t.at[p] in t.path && t.path[t.at[p]] == p
  {
    forall p | p in t.at
      ensures t.at[p] < |nodes| && t.at[p] in t.path && t.path[t.at[p]] == p
    {
      LinkedAt(nodes, t, width, root, p);
    }
  }

  /** A value is written. */
  lemma ValueSet(nodes: seq<Node>, nodes': seq<Node>, t: Trie, width: nat, root: nat, free: Ptr, spare: seq<nat>,
          p: Bits, value: word)
    requires TreeShape(nodes, t, width, root) && FreeShape(nodes, t, free, spare) && p in t.at && t.at[p] < |nodes|
    requires nodes' == nodes[t.at[p] := nodes[t.at[p]].(value := value)]
    ensures TreeShape(nodes', t, width, root) && FreeShape(nodes', t, free, spare)
    ensures Prefixes(nodes', t) == if value == NO_VALUE then Prefixes(nodes, t) - {p}
            else Prefixes(nodes, t)[p := value]
    ensures LeavesValued(nodes, t, p) && (value != NO_VALUE || !t.Leaf(p)) ==> LeavesValued(nodes', t, [])
  {
    AllPlaced(nodes, t, width, root);
    ValueShape(nodes, nodes', t, width, root, p, value);
    FreeKept(nodes, t, nodes', t, free, spare);
    hide TreeShape, FreeShape;
    ValueMap(nodes, nodes', t, p, value);
  }

  lemma ValueShape(nodes: seq<Node>, nodes': seq<Node>, t: Trie, width: nat, root: nat, p: Bits, value: word)
    requires TreeShape(nodes, t, width, root) && p in t.at && t.at[p] < |nodes|
    requires nodes' == nodes[t.at[p] := nodes[t.at[p]].(value := value)]
    ensures TreeShape(nodes', t, width, root)
  {
    hide Linked;
    forall r | r in t.at
      ensures Linked(nodes', t, width, r)
    {
      ValueLinked(nodes, nodes', t, width, root, p, value, r);
    }
  }

  lemma ValueLinked(nodes: seq<Node>, nodes': seq<Node>, t: Trie, width: nat, root: nat, p: Bits, value: word, r: Bits)
    requires TreeShape(nodes, t, width, root) && p in t.at && t.at[p] < |nodes| && r in t.at
    requires nodes' == nodes[t.at[p] := nodes[t.at[p]].(value := value)]
    ensures Linked(nodes', t, width, r)
  {
    LinkedAt(nodes, t, width, root, r);
  }

  lemma ValueMap(nodes: seq<Node>, nodes': seq<Node>, t: Trie, p: Bits, value: word)
    requires p in t.at && forall q :: q in t.at ==> t.at[q] < |nodes| && t.at[q] in t.path && t.path[t.at[q]] == q
    requires nodes' == nodes[t.at[p] := nodes[t.at[p]].(value := value)]
    ensures Prefixes(nodes', t) == if value == NO_VALUE then Prefixes(nodes, t) - {p}
            else Prefixes(nodes, t)[p := value]
    ensures LeavesValued(nodes, t, p) && (value != NO_VALUE || !t.Leaf(p)) ==> LeavesValued(nodes', t, [])
  {
    forall q | q in t.at && q != p
      ensures nodes'[t.at[q]] == nodes[t.at[q]]
    {
      assert t.path[t.at[q]] != t.path[t.at[p]];
    }
  }

  /** A node without a value is grafted on: the map stays. */
  lemma GraftedMap(nodes: seq<Node>, nodes': seq<Node>, t: Trie, t': Trie, width: nat, root: nat, free: Ptr,
          spare: seq<nat>,
                   p: Bits, b: bool, n: nat)
    requires TreeShape(nodes, t, width, root) && FreeShape(nodes, t, free, spare)
    requires p in t.at && Extend(p, b) !in t.at && |p| < width && Loose(nodes, t, spare, n) && LeavesValued(nodes, t, p)
    requires t.at[p] < |nodes| && t.at[p] != n
    requires nodes' == Grafted(nodes, t.at[p], b, n) && t' == t.With(Extend(p, b), n)
    ensures TreeShape(nodes', t', width, root) && FreeShape(nodes', t', free, spare)
    ensures Prefixes(nodes', t') == Prefixes(nodes, t) && LeavesValued(nodes', t', Extend(p, b))
  {
    hide TreeShape, FreeShape, Extend, Prefixes, LeavesValued;
    GraftedShape(nodes, nodes', t, t', width, root, p, b, n);
    AllPlaced(nodes, t, width, root);
    InTreeNotSpare(nodes, t, width, root, free, spare, p);
    FreeKept(nodes, t, nodes', t', free, spare);
    GraftedPrefixes(nodes, nodes', t, t', p, b, n);
  }

  lemma GraftedPrefixes(nodes: seq<Node>, nodes': seq<Node>, t: Trie, t': Trie, p: Bits, b: bool, n: nat)
    requires p in t.at && Extend(p, b) !in t.at && n < |nodes| && n !in t.path && LeavesValued(nodes, t, p)
    requires forall r :: r in t.at ==> t.at[r] < |nodes| && t.at[r] in t.path && t.path[t.at[r]] == r
    requires t.at[p] != n && nodes' == Grafted(nodes, t.at[p], b, n) && t' == t.With(Extend(p, b), n)
    ensures Prefixes(nodes', t') == Prefixes(nodes, t) && LeavesValued(nodes', t', Extend(p, b))
  {
    hide Extend;
    GraftedLeaves(t, t', p, b, n);
  }

  lemma GraftedLeaves(t: Trie, t': Trie, p: Bits, b: bool, n: nat)
    requires p in t.at && t' == t.With(Extend(p, b), n)
    ensures forall r :: r in t'.at && r != Extend(p, b) && t'.Leaf(r) ==> r in t.at && r != p && t.Leaf(r)
  {
    forall r | r in t'.at && r != Extend(p, b) && t'.Leaf(r)
      ensures r in t.at && r != p && t.Leaf(r)
    {
      ExtendIs(p, b, r, false);
      ExtendIs(p, b, r, true);
    }
  }

  lemma InTreeNotSpare(nodes: seq<Node>, t: Trie, width: nat, root: nat, free: Ptr, spare: seq<nat>, p: Bits)
    requires TreeShape(nodes, t, width, root) && FreeShape(nodes, t, free, spare) && p in t.at
    ensures t.at[p] !in spare
  {
    LinkedAt(nodes, t, width, root, p);
    forall i: nat | i < |spare|
      ensures spare[i] != t.at[p]
    {
      SpareAt(nodes, t, free, spare, i);
    }
  }

  /** A leaf is cut off. */
  lemma PrunedMap(nodes: seq<Node>, nodes': seq<Node>, t: Trie, t': Trie, width: nat, root: nat, free: Ptr,
          spare: seq<nat>,
                  p: Bits, b: bool)
    requires TreeShape(nodes, t, width, root) && FreeShape(nodes, t, free, spare)
    requires p in t.at && Extend(p, b) in t.at && t.Leaf(Extend(p, b)) && LeavesValued(nodes, t, Extend(p, b))
    requires t.at[p] < |nodes| && nodes' == Pruned(nodes, t.at[p], b) && t' == t.Without(Extend(p, b))
    ensures TreeShape(nodes', t', width, root) && FreeShape(nodes', t', free, spare)
    ensures Loose(nodes', t', spare, t.at[Extend(p, b)])
    ensures Prefixes(nodes', t') == Prefixes(nodes, t) - {Extend(p, b)} && LeavesValued(nodes', t', p)
  {
    hide TreeShape, FreeShape, Extend, Prefixes, LeavesValued, Trie.Leaf;
    PrunedShape(nodes, nodes', t, t', width, root, p, b);
    AllPlaced(nodes, t, width, root);
    InTreeNotSpare(nodes, t, width, root, free, spare, p);
    InTreeNotSpare(nodes, t, width, root, free, spare, Extend(p, b));
    FreeKept(nodes, t, nodes', t', free, spare);
    PrunedPrefixes(nodes, nodes', t, t', p, b);
  }

  lemma PrunedPrefixes(nodes: seq<Node>, nodes': seq<Node>, t: Trie, t': Trie, p: Bits, b: bool)
    requires p in t.at && Extend(p, b) in t.at && t.Leaf(Extend(p, b)) && LeavesValued(nodes, t, Extend(p, b))
    requires t.at[p] < |nodes| && nodes' == Pruned(nodes, t.at[p], b) && t' == t.Without(Extend(p, b))
    ensures Prefixes(nodes', t') == Prefixes(nodes, t) - {Extend(p, b)} && LeavesValued(nodes', t', p)
  {
    hide Extend;
    PrunedLeaves(t, t', p, b);
  }

  lemma PrunedLeaves(t: Trie, t': Trie, p: Bits, b: bool)
    requires p in t.at && Extend(p, b) in t.at && t' == t.Without(Extend(p, b))
    ensures forall r :: r in t'.at && r != p && t'.Leaf(r) ==> r in t.at && r != Extend(p, b) && t.Leaf(r)
  {
    forall r | r in t'.at && r != p && t'.Leaf(r)
      ensures r in t.at && r != Extend(p, b) && t.Leaf(r)
    {
      ExtendIs(p, b, r, false);
      ExtendIs(p, b, r, true);
    }
  }

  lemma KeyStep(key: Bits, i: nat)
    requires i < |key|
    ensures key[..i + 1] == Extend(key[..i], key[i])
  {
  }

  lemma RootRef(nodes: seq<Node>, t: Trie, width: nat, root: nat, key: Bits)
    requires TreeShape(nodes, t, width, root)
    ensures key[..0] in t.at && t.Ref(key[..0]) == To(root)
  {
    assert key[..0] == [];
  }

  /** The pointer a walk for `key` follows from depth `i`. */
  lemma NextRef(nodes: seq<Node>, t: Trie, width: nat, root: nat, key: Bits, i: nat)
    requires TreeShape(nodes, t, width, root) && i <= |key| == width && key[..i] in t.at
    ensures var n := t.at[key[..i]];
            n < |nodes| && if i < width then (if key[i] then nodes[n].right else nodes[n].left) == t.Ref(key[..i + 1])
                           else nodes[n].left == Null
  {
    LinkedAt(nodes, t, width, root, key[..i]);
    if i < width {
      KeyStep(key, i);
    } else {
      TooDeep(nodes, t, width, root, key[..i]);
    }
  }

  /** Below a node that is not in the tree there is still nothing once it is. */
  lemma StillFree(nodes: seq<Node>, t: Trie, width: nat, root: nat, key: Bits, i: nat, n: nat)
    requires TreeShape(nodes, t, width, root) && i < |key| && key[..i + 1] !in t.at
    ensures i + 1 < |key| ==> key[..i + 2] !in t.With(key[..i + 1], n).at
  {
    if i + 1 < |key| {
      NotBelow(nodes, t, width, root, key, i + 1, i + 2);
      assert |key[..i + 2]| != |key[..i + 1]|;
    }
  }

  lemma StaysValued(nodes: seq<Node>, t: Trie, width: nat, root: nat, p: Bits)
    requires LeavesValued(nodes, t, [])
    ensures LeavesValued(nodes, t, p)
  {
  }

  class Tree {
    const width: nat
    const root: nat
    var nodes: seq<Node>
    var free: Ptr
    ghost var trie: Trie
    ghost var spare: seq<nat>

    ghost predicate Shape()
      reads this
    {
      TreeShape(nodes, trie, width, root) && FreeShape(nodes, trie, free, spare)
    }

    ghost predicate Valid()
      reads this
    {
      Shape() && LeavesValued(nodes, trie, [])
    }

    /** The prefix map the tree stands for. */
    ghost function Map(): map<Bits, word>
      reads this
    {
      Prefixes(nodes, trie)
    }

    /** ngx_radix_tree_create(), without preallocation. */
    constructor (width: nat)
      ensures Valid() && this.width == width && Map() == map[]
    {
      this.width := width;
      root := 0;
      nodes := [Node(Null, Null, Null, NO_VALUE)];
      free := Null;
      trie := Trie(map[[] := 0], map[0 := []]);
      spare := [];
      new;
      assert Linked(nodes, trie, width, []);
    }

    /** ngx_radix_alloc(): a node from the free list, or a new one. */
    method Alloc() returns (n: nat)
      requires Shape()
      modifies this`nodes, this`free, this`spare
      ensures Shape() && Loose(nodes, trie, spare, n) && Map() == old(Map())
      ensures forall p :: old(LeavesValued(nodes, trie, p)) ==> LeavesValued(nodes, trie, p)
    {
      hide Linked, TreeShape, FreeShape, LeavesValued, Prefixes;
      if free.To? {
        FreePopped(nodes, trie, free, spare);
        n := free.n;
        free := nodes[free.n].right;
        spare := spare[1..];
      } else {
        NewNode(nodes, trie, width, root, free, spare, Node(Null, Null, Null, NO_VALUE));
        n := |nodes|;
        nodes := nodes + [Node(Null, Null, Null, NO_VALUE)];
      }
    }

    /** ngx_radix32tree_find() and ngx_radix128tree_find(): the value of the longest prefix. */
    method Find(key: Bits) returns (value: word)
      requires Valid() && |key| == width
      ensures value == NO_VALUE ==> forall i :: 0 <= i <= width ==> key[..i] !in Map()
      ensures value != NO_VALUE ==>
                exists i :: 0 <= i <= width && key[..i] in Map() && Map()[key[..i]] == value &&
                            forall j :: i < j <= width ==> key[..j] !in Map()
    {
      hide Linked, TreeShape, FreeShape, LeavesValued, Extend;
      value := NO_VALUE;
      var node, i := To(root), 0;
      ghost var best := -1;
      RootRef(nodes, trie, width, root, key);
      while node != Null
        invariant 0 <= i <= width + 1 && best < i && best <= width
        invariant i <= width ==> node == trie.Ref(key[..i])
        invariant i > width ==> node == Null
        invariant if best < 0 then value == NO_VALUE
                  else value != NO_VALUE && key[..best] in Map() && Map()[key[..best]] == value
        invariant forall j :: best < j < i && j <= width ==> key[..j] !in Map()
        decreases width + 1 - i
      {
        NextRef(nodes, trie, width, root, key, i);
        if nodes[node.n].value != NO_VALUE {
          value := nodes[node.n].value;
          best := i;
        }
        // at full depth there is no bit to look at, and both children are null
        if i < width && key[i] {
          node := nodes[node.n].right;
        } else {
          node := nodes[node.n].left;
        }
        i := i + 1;
      }
      forall j | i <= j <= width
        ensures key[..j] !in trie.at
      {
        NotBelow(nodes, trie, width, root, key, i, j);
      }
    }

    /** ngx_radix32tree_insert() and ngx_radix128tree_insert(). */
    method Insert(key: Bits, len: nat, value: word) returns (status: Status)
      requires Valid() && |key| == width && len <= width && value != NO_VALUE
      modifies this
      ensures Valid()
      ensures status == if key[..len] in old(Map()) then Busy else Ok
      ensures Map() == if status == Busy then old(Map()) else old(Map())[key[..len] := value]
    {
      hide TreeShape, FreeShape, LeavesValued, Prefixes;
      var node, next, i := Walk(key, len);
      if next != Null {
        if nodes[node].value != NO_VALUE {
          return Busy;
        }
        StaysValued(nodes, trie, width, root, key[..i]);
        SetValue(node, key[..i], value);
        return Ok;
      }
      StaysValued(nodes, trie, width, root, key[..i]);
      node := Plant(key, i, len, node);
      SetValue(node, key[..len], value);
      return Ok;
    }

    /** Down the bits of the key as far as there are nodes; `next` is null if they do not reach. */
    method Walk(key: Bits, len: nat) returns (node: nat, next: Ptr, i: nat)
      requires Valid() && |key| == width && len <= width
      ensures i <= len && key[..i] in trie.at && node == trie.at[key[..i]] && node < |nodes|
      ensures if next != Null then i == len && (key[..len] in Map() <==> nodes[node].value != NO_VALUE)
              else i < len && key[..i + 1] !in trie.at && key[..len] !in Map()
    {
      hide Linked, TreeShape, FreeShape, LeavesValued, Extend;
      node, next, i := root, To(root), 0;
      RootRef(nodes, trie, width, root, key);
      while i < len
        invariant i <= len && key[..i] in trie.at && node == trie.at[key[..i]] && next == To(node)
      {
        NextRef(nodes, trie, width, root, key, i);
        next := if key[i] then nodes[node].right else nodes[node].left;
        if next == Null {
          NotBelow(nodes, trie, width, root, key, i + 1, len);
          return;
        }
        i := i + 1;
        node := next.n;
      }
      NextRef(nodes, trie, width, root, key, i);
    }

    /** Nodes for the rest of the bits. */
    method Plant(key: Bits, i0: nat, len: nat, node0: nat) returns (node: nat)
      requires Shape() && |key| == width && i0 < len <= width && key[..i0] in trie.at && node0 == trie.at[key[..i0]]
      requires key[..i0 + 1] !in trie.at && LeavesValued(nodes, trie, key[..i0])
      modifies this`nodes, this`free, this`trie, this`spare
      ensures Shape() && key[..len] in trie.at && node == trie.at[key[..len]]
      ensures LeavesValued(nodes, trie, key[..len]) && Map() == old(Map())
    {
      hide TreeShape, FreeShape, LeavesValued, Prefixes, Loose;
      node := node0;
      var i := i0;
      while i < len
        invariant i <= len && key[..i] in trie.at && node == trie.at[key[..i]]
        invariant i < len ==> key[..i + 1] !in trie.at
        invariant Shape() && LeavesValued(nodes, trie, key[..i]) && Map() == old(Map())
      {
        KeyStep(key, i);
        var n := Alloc();
        StillFree(nodes, trie, width, root, key, i, n);
        Grow(node, n, key[..i], key[i]);
        i := i + 1;
        node := n;
      }
    }

    method SetValue(node: nat, ghost p: Bits, value: word)
      requires Shape() && p in trie.at && node == trie.at[p] && LeavesValued(nodes, trie, p)
      requires value != NO_VALUE || !trie.Leaf(p)
      modifies this`nodes
      ensures Valid()
      ensures Map() == if value == NO_VALUE then old(Map()) - {p} else old(Map())[p := value]
    {
      hide TreeShape, FreeShape, LeavesValued, Prefixes;
      Placed(nodes, trie, width, root, p);
      ghost var before := nodes;
      nodes := nodes[node := nodes[node].(value := value)];
      ValueSet(before, nodes, trie, width, root, free, spare, p, value);
    }

    /** Node `n` becomes the child of `node` on side `b`. */
    method Grow(node: nat, n: nat, ghost p: Bits, b: bool)
      requires Shape() && p in trie.at && node == trie.at[p] && Extend(p, b) !in trie.at && |p| < width
      requires Loose(nodes, trie, spare, n) && LeavesValued(nodes, trie, p)
      modifies this`nodes, this`trie
      ensures Shape() && trie == old(trie).With(Extend(p, b), n)
      ensures LeavesValued(nodes, trie, Extend(p, b)) && Map() == old(Map())
    {
      hide TreeShape, FreeShape, LeavesValued, Prefixes, Extend;
      Placed(nodes, trie, width, root, p);
      ghost var before, t := nodes, trie;
      nodes := nodes[n := Node(Null, Null, To(node), NO_VALUE)];
      if b {
        nodes := nodes[node := nodes[node].(right := To(n))];
      } else {
        nodes := nodes[node := nodes[node].(left := To(n))];
      }
      trie := trie.With(Extend(p, b), n);
      GraftedMap(before, nodes, t, trie, width, root, free, spare, p, b, n);
    }

    /** The leaf at Extend(p, b) is unlinked and put on the free list. */
    method Prune(node: nat, ghost p: Bits, ghost b: bool) returns (parent: nat)
      requires Shape() && p in trie.at && Extend(p, b) in trie.at && node == trie.at[Extend(p, b)]
               && trie.Leaf(Extend(p, b))
      requires LeavesValued(nodes, trie, Extend(p, b))
      modifies this`nodes, this`free, this`trie, this`spare
      ensures Shape() && trie == old(trie).Without(Extend(p, b)) && parent == old(trie).at[p]
      ensures Map() == old(Map()) - {Extend(p, b)} && LeavesValued(nodes, trie, p)
    {
      Parent(nodes, trie, width, root, p, b);
      hide TreeShape, FreeShape, LeavesValued, Prefixes, Extend, Linked;
      ghost var before, t := nodes, trie;
      parent := nodes[node].parent.n;
      if nodes[parent].right == To(node) {
        nodes := nodes[parent := nodes[parent].(right := Null)];
      } else {
        nodes := nodes[parent := nodes[parent].(left := Null)];
      }
      trie := trie.Without(Extend(p, b));
      PrunedMap(before, nodes, t, trie, width, root, free, spare, p, b);
      ghost var pruned := nodes;
      nodes := nodes[node := nodes[node].(right := free)];
      Freed(pruned, nodes, trie, width, root, free, spare, node, p);
      free := To(node);
      spare := [node] + spare;
    }

    /** ngx_radix32tree_delete() and ngx_radix128tree_delete().  The root itself must not be deleted
        while it has no children: the code would follow its parent pointer. */
    method Delete(key: Bits, len: nat) returns (status: Status)
      requires Valid() && |key| == width && len <= width && !(len == 0 && trie.Leaf([]))
      modifies this
      ensures Valid()
      ensures status == if key[..len] in old(Map()) then Ok else Error
      ensures Map() == old(Map()) - {key[..len]}
    {
      var node, found := Seek(key, len);
      if !found {
        return Error;
      }
      Placed(nodes, trie, width, root, key[..len]);
      LinkedAt(nodes, trie, width, root, key[..len]);
      if nodes[node].right != Null || nodes[node].left != Null {
        if nodes[node].value != NO_VALUE {
          StaysValued(nodes, trie, width, root, key[..len]);
          SetValue(node, key[..len], NO_VALUE);
          return Ok;
        }
        return Error;
      }
      Prunes(key, len, node);
      return Ok;
    }

    /** Down to the node at the first `len` bits, if there is one. */
    method Seek(key: Bits, len: nat) returns (node: nat, found: bool)
      requires Valid() && |key| == width && len <= width
      ensures found <==> key[..len] in trie.at
      ensures found ==> node == trie.at[key[..len]]
    {
      var next, i := To(root), 0;
      assert key[..0] == [];
      while next != Null && i < len
        invariant i <= len && next == trie.Ref(key[..i])
        decreases len - i
      {
        LinkedAt(nodes, trie, width, root, key[..i]);
        KeyStep(key, i);
        if key[i] {
          next := nodes[next.n].right;
        } else {
          next := nodes[next.n].left;
        }
        i := i + 1;
      }
      if next == Null {
        NotBelow(nodes, trie, width, root, key, i, len);
        return 0, false;
      }
      return next.n, true;
    }

    /** The leaf goes, and after it every node above that it leaves without children and value. */
    method Prunes(key: Bits, len: nat, node0: nat)
      requires Valid() && |key| == width && 0 < len <= width && key[..len] in trie.at && node0 == trie.at[key[..len]]
      requires trie.Leaf(key[..len])
      modifies this`nodes, this`free, this`trie, this`spare
      ensures Valid() && Map() == old(Map()) - {key[..len]}
    {
      StaysValued(nodes, trie, width, root, key[..len]);
      hide TreeShape, FreeShape, LeavesValued, Prefixes, Extend, Linked;
      var node, i := node0, len;
      while true
        invariant 0 < i <= len && key[..i] in trie.at && node == trie.at[key[..i]] && trie.Leaf(key[..i])
        invariant Shape() && LeavesValued(nodes, trie, key[..i])
        invariant Map() - {key[..i]} == old(Map()) - {key[..len]}
        decreases i
      {
        KeyStep(key, i - 1);
        ParentIn(nodes, trie, width, root, key, i - 1);
        node := Prune(node, key[..i - 1], key[i - 1]);
        i := i - 1;
        Above(nodes, trie, width, root, key[..i]);
        if nodes[node].right != Null || nodes[node].left != Null {
          break;
        }
        if nodes[node].value != NO_VALUE {
          break;
        }
        if nodes[node].parent == Null {
          break;
        }
      }
    }
  }

  /** Deleting what was freshly inserted leaves the map, and with it the nodes of the tree, as they were. */
  method InsertThenDelete(tree: Tree, key: Bits, len: nat, value: word) returns (status: Status)
    requires tree.Valid() && |key| == tree.width && len <= tree.width && value != NO_VALUE
    requires len == 0 ==> !tree.trie.Leaf([])
    modifies tree
    ensures tree.Valid()
    ensures status == if key[..len] in old(tree.Map()) then Busy else Ok
    ensures tree.Map() == old(tree.Map())
    ensures forall p :: p in tree.trie.at <==> p in old(tree.trie.at)
  {
    ghost var nodes, t := tree.nodes, tree.trie;
    status := tree.Insert(key, len, value);
    if status == Ok {
      SameOrMoreNodes(nodes, t, tree.root, tree.nodes, tree.trie, tree.root, tree.width, Extend([], false));
      SameOrMoreNodes(nodes, t, tree.root, tree.nodes, tree.trie, tree.root, tree.width, Extend([], true));
      var undone := tree.Delete(key, len);
      assert undone == Ok;
    }
    assert tree.Map() == old(tree.Map());
    forall p
      ensures p in tree.trie.at <==> p in t.at
    {
      SameMapSameNodes(nodes, t, tree.root, tree.nodes, tree.trie, tree.root, tree.width, p);
    }
  }

  /** Which child of its parent a node is can be told from the parent's pointers. */
  lemma Parent(nodes: seq<Node>, t: Trie, width: nat, root: nat, p: Bits, b: bool)
    requires TreeShape(nodes, t, width, root) && p in t.at && Extend(p, b) in t.at
    ensures t.at[p] < |nodes| && t.at[Extend(p, b)] < |nodes|
    ensures nodes[t.at[Extend(p, b)]].parent == To(t.at[p])
    ensures nodes[t.at[p]].right == To(t.at[Extend(p, b)]) <==> b
  {
    LinkedAt(nodes, t, width, root, p);
    LinkedAt(nodes, t, width, root, Extend(p, b));
    ExtendIs(p, b, p, true);
    if Extend(p, true) in t.at {
      LinkedAt(nodes, t, width, root, Extend(p, true));
    }
  }

  lemma ParentIn(nodes: seq<Node>, t: Trie, width: nat, root: nat, key: Bits, i: nat)
    requires TreeShape(nodes, t, width, root) && i < |key| && key[..i + 1] in t.at
    ensures key[..i] in t.at
  {
    PrefixClosed(nodes, t, width, root, key[..i + 1], i);
    assert key[..i + 1][..i] == key[..i];
  }

  /** What is decided at a node that has just lost a child. */
  lemma Above(nodes: seq<Node>, t: Trie, width: nat, root: nat, p: Bits)
    requires TreeShape(nodes, t, width, root) && p in t.at && LeavesValued(nodes, t, p)
    ensures t.at[p] < |nodes|
    ensures var n := nodes[t.at[p]];
            && (n.right == Null && n.left == Null <==> t.Leaf(p))
            && (n.parent == Null <==> p == [])
            && (!t.Leaf(p) || n.value != NO_VALUE || p == [] ==> LeavesValued(nodes, t, []))
            && (n.value == NO_VALUE ==> Prefixes(nodes, t) - {p} == Prefixes(nodes, t))
  {
    LinkedAt(nodes, t, width, root, p);
  }

  /** A pruned node goes to the free list. */
  lemma Freed(nodes: seq<Node>, nodes': seq<Node>, t: Trie, width: nat, root: nat, free: Ptr, spare: seq<nat>, n: nat,
          p: Bits)
    requires TreeShape(nodes, t, width, root) && FreeShape(nodes, t, free, spare) && Loose(nodes, t, spare, n)
    requires nodes' == nodes[n := nodes[n].(right := free)] && LeavesValued(nodes, t, p)
    ensures TreeShape(nodes', t, width, root) && FreeShape(nodes', t, To(n), [n] + spare)
    ensures Prefixes(nodes', t) == Prefixes(nodes, t) && LeavesValued(nodes', t, p)
  {
    FreePushed(nodes, t, free, spare, n);
    AllPlaced(nodes, t, width, root);
    forall r | r in t.at
      ensures Linked(nodes', t, width, r)
    {
      LinkedAt(nodes, t, width, root, r);
    }
    hide Linked, FreeShape;
  }

  // ----- what the tree looks like depends on its map only

  /** The nodes of the tree are the root and the prefixes of what is in the map. */
  lemma NodesArePrefixes(nodes: seq<Node>, t: Trie, width: nat, root: nat, p: Bits)
    requires TreeShape(nodes, t, width, root) && LeavesValued(nodes, t, [])
    ensures p in t.at <==> p == [] || exists q :: q in Prefixes(nodes, t) && p <= q
  {
    if p in t.at && p != [] {
      var q := Below(nodes, t, width, root, p);
    }
    if q :| q in Prefixes(nodes, t) && p <= q {
      PrefixClosed(nodes, t, width, root, q, |p|);
      assert q[..|p|] == p;
    }
  }

  /** Every node but the root has a value, or a node with a value below it. */
  lemma {:induction false} Below(nodes: seq<Node>, t: Trie, width: nat, root: nat, p: Bits) returns (q: Bits)
    requires TreeShape(nodes, t, width, root) && LeavesValued(nodes, t, []) && p in t.at && p != []
    ensures q in Prefixes(nodes, t) && p <= q
    decreases width - |p|
  {
    LinkedAt(nodes, t, width, root, p);
    if t.Leaf(p) {
      q := p;
    } else {
      var c := if Extend(p, false) in t.at then Extend(p, false) else Extend(p, true);
      LinkedAt(nodes, t, width, root, c);
      q := Below(nodes, t, width, root, c);
      assert p <= c;
    }
  }

  /** A tree with more in its map has at least the nodes of one with less. */
  lemma SameOrMoreNodes(nodes: seq<Node>, t: Trie, root: nat, nodes': seq<Node>, t': Trie, root': nat, width: nat,
          p: Bits)
    requires TreeShape(nodes, t, width, root) && LeavesValued(nodes, t, [])
    requires TreeShape(nodes', t', width, root') && LeavesValued(nodes', t', [])
    requires Prefixes(nodes, t).Keys <= Prefixes(nodes', t').Keys
    ensures p in t.at ==> p in t'.at
  {
    NodesArePrefixes(nodes, t, width, root, p);
    NodesArePrefixes(nodes', t', width, root', p);
  }

  /** Two trees with the same map have the same nodes: deleting what was freshly inserted restores
      the tree, but for where its nodes are in the store. */
  lemma SameMapSameNodes(nodes: seq<Node>, t: Trie, root: nat, nodes': seq<Node>, t': Trie, root': nat, width: nat,
          p: Bits)
    requires TreeShape(nodes, t, width, root) && LeavesValued(nodes, t, [])
    requires TreeShape(nodes', t', width, root') && LeavesValued(nodes', t', [])
    requires Prefixes(nodes, t) == Prefixes(nodes', t')
    ensures p in t.at <==> p in t'.at
  {
    SameOrMoreNodes(nodes, t, root, nodes', t', root', width, p);
    SameOrMoreNodes(nodes', t', root', nodes, t, root, width, p);
  }
}
