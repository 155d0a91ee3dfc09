/** The red-black tree of `ngx_rbtree.c`, in place on linked nodes. */
module RbTree {
  import opened Bits
  import opened Words
  import opened RbShape
  import opened RbOrder

  class Node {
    var key: word
    var str: seq<byte>
    var left: Node?
    var right: Node?
    var parent: Node?
    var red: bool

    constructor (key: word, str: seq<byte>)
      ensures this.key == key && this.str == str
    {
      this.key, this.str := key, str;
      left, right, parent, red := null, null, null, false;
    }
  }

  type Shape = Tree<Node>
  type Hole = Ctx<Node>

  /** The nodes below `n` are exactly those of `t`, with the links, keys and colours of `t`. */
  ghost predicate Linked(t: Shape, n: Node?, parent: Node?, nil: Node)
    reads Nodes(t)
  {
    match t
    case Nil => n == nil
    case Bin(l, x, k, red, r) =>
      n == x && x.parent == parent && x.key == k.num && x.str == k.str && x.red == red &&
      Linked(l, x.left, x, nil) && Linked(r, x.right, x, nil)
  }

  /** The nodes around a hole occupied by `n` are exactly those of `c`.  Nothing is said about
      the parent pointer of the root: deletions may leave a stale one there. */
  ghost predicate Around(c: Hole, n: Node?, parent: Node?, root: Node, nil: Node)
    reads CtxNodes(c)
  {
    match c
    case Top => n == root
    case InLeft(up, x, k, red, r) =>
      parent == x && x.left == n && x.key == k.num && x.str == k.str && x.red == red &&
      Linked(r, x.right, x, nil) && Around(up, x, x.parent, root, nil)
    case InRight(l, x, k, red, up) =>
      parent == x && x.right == n && x.key == k.num && x.str == k.str && x.red == red &&
      Linked(l, x.left, x, nil) && Around(up, x, x.parent, root, nil)
  }

  // The code below reasons with the following names, whose definitions stay folded (`hide`)
  // except in the lemmas that follow.

  ghost function Own(t: Shape): set<Node> { Nodes(t) }

  ghost function Rim(c: Hole): set<Node> { CtxNodes(c) }

  ghost predicate IsTree(t: Shape, n: Node?, parent: Node?, nil: Node)
    reads Own(t)
  {
    Linked(t, n, parent, nil) == true
  }

  ghost predicate IsHole(c: Hole, n: Node?, parent: Node?, root: Node, nil: Node)
    reads Rim(c)
  {
    Around(c, n, parent, root, nil) == true
  }

  ghost predicate Fits(c: Hole, t: Shape, nil: Node) {
    Apart(c, t) && nil !in Rim(c) && nil !in Own(t)
  }

  /** The fields of a node other than its links downwards. */
  ghost predicate Holds(x: Node, k: Key, red: bool, n: Node, parent: Node?)
    reads n
  {
    n == x && n.parent == parent && n.key == k.num && n.str == k.str && n.red == red
  }

  ghost function All(c: Hole, t: Shape): set<Node> { Rim(c) + Own(t) }

  /** One level of a tree. */
  lemma Open(c: Hole, t: Shape, n: Node?, parent: Node?, nil: Node)
    requires IsTree(t, n, parent, nil) && Fits(c, t, nil)
    ensures t.Nil? <==> n == nil
    ensures Fits(c, Nil, nil)
    ensures t.Bin? ==> n != null && Holds(t.node, t.key, t.red, n, parent) &&
                       IsTree(t.left, n.left, n, nil) && IsTree(t.right, n.right, n, nil)
    ensures t.Bin? ==> Own(t) == Own(t.left) + {t.node} + Own(t.right)
    ensures t.Bin? ==> t.node != nil && t.node !in Rim(c)
    ensures Own(t) !! Rim(c) && nil !in Rim(c) && nil !in Own(t)
    ensures t.Bin? ==> Fits(DownLeft(c, t), t.left, nil) && Own(t.left) !! Rim(DownLeft(c, t)) &&
                       Rim(DownLeft(c, t)) == Rim(c) + {t.node} + Own(t.right)
    ensures t.Bin? ==> Fits(DownRight(c, t), t.right, nil) && Own(t.right) !! Rim(DownRight(c, t)) &&
                       Rim(DownRight(c, t)) == Rim(c) + {t.node} + Own(t.left)
  {
  }

  lemma Close(t: Shape, n: Node, parent: Node?, nil: Node)
    requires t.Nil? ==> n == nil
    requires t.Bin? ==> Holds(t.node, t.key, t.red, n, parent) &&
                        IsTree(t.left, n.left, n, nil) && IsTree(t.right, n.right, n, nil)
    ensures IsTree(t, n, parent, nil)
  {
  }

  lemma AllAtTop(t: Shape)
    ensures All(Top, t) == Own(t)
  {
  }

  /** A hole below a node, put together from the node's fields and its other subtree. */
  lemma CloseHole(c: Hole, t: Shape, left: bool, n: Node, x: Node, root: Node, nil: Node)
    requires t.Bin? && Holds(t.node, t.key, t.red, x, x.parent) && IsHole(c, x, x.parent, root, nil)
    requires if left then x.left == n && IsTree(t.right, x.right, x, nil)
             else x.right == n && IsTree(t.left, x.left, x, nil)
    ensures IsHole(if left then DownLeft(c, t) else DownRight(c, t), n, x, root, nil)
  {
  }

  /** A fresh node hung into an empty hole. */
  lemma FitLeaf(c: Hole, x: Node, k: Key, red: bool, nil: Node)
    requires Fits(c, Nil, nil) && x !in Rim(c) && x != nil
    ensures Fits(c, Bin(Nil, x, k, red, Nil), nil) && Own(Bin(Nil, x, k, red, Nil)) == {x} && Own(Nil) == {}
  {
  }

  lemma Refit(c: Hole, t: Shape, s: Shape, nil: Node)
    requires Fits(c, t, nil) && Nodes(s) == Nodes(t) && Distinct(s) == Distinct(t)
    ensures Fits(c, s, nil) && Own(s) == Own(t)
  {
  }

  lemma DeficitRb(t: Shape, h: nat)
    requires Deficit(t, h) && !t.IsRed()
    ensures Rb(t, h)
  {
  }

  lemma LeftRotatedFits(c: Hole, t: Shape, nil: Node)
    requires Fits(c, t, nil) && t.Bin? && t.right.Bin?
    ensures Fits(c, LeftRotated(t), nil) && Own(LeftRotated(t)) == Own(t)
  {
    hide Fits, Own;
    LeftRotatedKeeps(t);
    Refit(c, t, LeftRotated(t), nil);
  }

  lemma RightRotatedFits(c: Hole, t: Shape, nil: Node)
    requires Fits(c, t, nil) && t.Bin? && t.left.Bin?
    ensures Fits(c, RightRotated(t), nil) && Own(RightRotated(t)) == Own(t)
  {
    hide Fits, Own;
    RightRotatedKeeps(t);
    Refit(c, t, RightRotated(t), nil);
  }

  lemma {:induction false} Assemble(c: Hole, t: Shape, n: Node, parent: Node?, root: Node, nil: Node)
    requires Around(c, n, parent, root, nil) && Linked(t, n, parent, nil)
    ensures Linked(Plug(c, t), root, root.parent, nil)
  {
    match c
    case Top =>
      if t.Nil? {
      } else {
        assert t.node == root;
      }
    case InLeft(up, x, k, red, r) => Assemble(up, Bin(t, x, k, red, r), x, x.parent, root, nil);
    case InRight(l, x, k, red, up) => Assemble(up, Bin(l, x, k, red, t), x, x.parent, root, nil);
  }

  lemma {:induction false} Disassemble(c: Hole, t: Shape, root: Node, nil: Node) returns (n: Node?, parent: Node?)
    requires Linked(Plug(c, t), root, root.parent, nil)
    ensures Around(c, n, parent, root, nil) && Linked(t, n, parent, nil)
    ensures t.Bin? ==> n == t.node && parent == t.node.parent
  {
    match c
    case Top =>
      n, parent := root, root.parent;
    case InLeft(up, x, k, red, r) =>
      var x', _ := Disassemble(up, Bin(t, x, k, red, r), root, nil);
      n, parent := x.left, x;
    case InRight(l, x, k, red, up) =>
      var x', _ := Disassemble(up, Bin(l, x, k, red, t), root, nil);
      n, parent := x.right, x;
  }

  /** Exactly the topmost hole is occupied by the root. */
  lemma {:induction false} RootAtTop(c: Hole, n: Node?, parent: Node?, root: Node, nil: Node)
    requires Around(c, n, parent, root, nil)
    ensures c.Top? ==> n == root
    ensures !c.Top? ==> root in CtxNodes(c)
  {
    match c
    case Top =>
    case InLeft(up, x, _, _, _) => RootAtTop(up, x, x.parent, root, nil);
    case InRight(_, x, _, _, up) => RootAtTop(up, x, x.parent, root, nil);
  }

  class RbTree {
    var root: Node
    const sentinel: Node
    const insert: Order
    ghost var shape: Shape

    ghost predicate Valid()
      reads this, root, sentinel, Nodes(shape)
    {
      && sentinel !in Nodes(shape) && !sentinel.red
      && Distinct(shape) && IsRbTree(shape)
      && Linked(shape, root, root.parent, sentinel)
    }

    constructor Init(s: Node, insert: Order)
      modifies s
      ensures Valid() && shape == Nil && sentinel == s && this.insert == insert
    {
      root, sentinel, this.insert, shape := s, s, insert, Nil;
      new;
      s.red := false;
      assert Rb<Node>(Nil, 0);
    }

    /** The tree with the focus on its part `t`, rooted at `n`, and the rest of it in `c`. */
    ghost predicate Focus(c: Hole, t: Shape, n: Node)
      reads this`root, n, Rim(c), Own(t)
    {
      && Fits(c, t, sentinel)
      && IsHole(c, n, n.parent, root, sentinel) && IsTree(t, n, n.parent, sentinel)
    }

    lemma FocusTop(c: Hole, t: Shape, n: Node)
      requires Focus(c, t, n)
      ensures c.Top? <==> n == root
    {
      RootAtTop(c, n, n.parent, root, sentinel);
    }

    /** Moving the focus to the parent. */
    lemma GoUp(c: Hole, t: Shape, n: Node)
      requires Focus(c, t, n) && !c.Top?
      ensures n.parent == c.node && c.node.red == c.red && c.node in Rim(c)
      ensures Focus(c.up, Up(c, t), c.node) && All(c.up, Up(c, t)) == All(c, t)
      ensures c.InLeft? ==> c.node.left == n && (t.Bin? || c.right.Bin? ==> c.node.right != n)
      ensures c.InRight? ==> c.node.right == n && (t.Bin? || c.left.Bin? ==> c.node.left != n)
    {
      if c.InLeft? {
        Open(DownRight(c.up, Up(c, t)), c.right, c.node.right, c.node, sentinel);
      } else {
        Open(DownLeft(c.up, Up(c, t)), c.left, c.node.left, c.node, sentinel);
      }
    }

    /** Moving the focus to the left child. */
    lemma GoLeft(c: Hole, t: Shape, n: Node)
      requires Focus(c, t, n) && t.Bin?
      ensures n == t.node && n.red == t.red && n.key == t.key.num && n.str == t.key.str && n in Own(t) && n != sentinel
      ensures n.left != null && (n.left == sentinel <==> t.left.Nil?)
      ensures t.left.Bin? ==>
                n.left == t.left.node && n.left in Own(t.left) && n.left.parent == n && n.left.red == t.left.red
      ensures n.left.parent == n ==> Focus(DownLeft(c, t), t.left, n.left)
      ensures All(DownLeft(c, t), t.left) == All(c, t)
    {
      Open(c, t, n, n.parent, sentinel);
      Open(DownLeft(c, t), t.left, n.left, n, sentinel);
    }

    lemma GoRight(c: Hole, t: Shape, n: Node)
      requires Focus(c, t, n) && t.Bin?
      ensures n == t.node && n.red == t.red && n.key == t.key.num && n.str == t.key.str && n in Own(t) && n != sentinel
      ensures n.right != null && (n.right == sentinel <==> t.right.Nil?)
      ensures t.right.Bin? ==>
                n.right == t.right.node && n.right in Own(t.right) && n.right.parent == n && n.right.red == t.right.red
      ensures n.right.parent == n ==> Focus(DownRight(c, t), t.right, n.right)
      ensures All(DownRight(c, t), t.right) == All(c, t)
    {
      Open(c, t, n, n.parent, sentinel);
      Open(DownRight(c, t), t.right, n.right, n, sentinel);
    }

    /** Let the link that points down to `node` point to `temp` instead. */
    method ReplaceChild(node: Node, temp: Node, ghost c: Hole)
      requires !c.Top? && IsHole(c, node, node.parent, root, sentinel)
      requires Fits(c, Nil, sentinel) && node !in Rim(c) && node != sentinel
      modifies c.node
      ensures IsHole(c, temp, node.parent, root, sentinel)
    {
      if node == node.parent.left {
        node.parent.left := temp;
      } else {
        node.parent.right := temp;
      }
    }

    method Replace(node: Node, temp: Node, ghost c: Hole)
      requires IsHole(c, node, node.parent, root, sentinel)
      requires Fits(c, Nil, sentinel) && node !in Rim(c) && node != sentinel
      modifies this`root, Rim(c)
      ensures IsHole(c, temp, node.parent, root, sentinel)
    {
      RootAtTop(c, node, node.parent, root, sentinel);
      if node == root {
        root := temp;
      } else {
        ReplaceChild(node, temp, c);
      }
    }

    ghost function Painted(t: Shape, red: bool): Shape { if t.Bin? then t.(red := red) else t }

    method Paint(node: Node, red: bool, ghost c: Hole, ghost t: Shape)
      requires Focus(c, t, node)
      modifies node`red
      ensures Focus(c, Painted(t, red), node) && All(c, Painted(t, red)) == All(c, t)
      ensures node.red == red
    {
      Open(c, t, node, node.parent, sentinel);
      node.red := red;
      Close(Painted(t, red), node, node.parent, sentinel);
      Refit(c, t, Painted(t, red), sentinel);
    }

    /** The subtree below `child` gets a new parent. */
    method Adopt(child: Node, parent: Node, ghost former: Node, ghost c: Hole, ghost t: Shape)
      requires Fits(c, t, sentinel)
      requires if t.Bin? then IsTree(t, child, former, sentinel) else child == sentinel
      modifies Own(t)
      ensures IsTree(t, child, parent, sentinel)
    {
      if t.Bin? {
        Open(c, t, child, former, sentinel);
      }
      if child != sentinel {
        child.parent := parent;
      }
      Close(t, child, parent, sentinel);
    }

    method LeftRotate(node: Node, ghost c: Hole, ghost t: Shape)
      requires t.Bin? && t.right.Bin? && Focus(c, t, node)
      modifies this`root, Own(t), Rim(c)
      ensures Focus(c, LeftRotated(t), t.right.node) && All(c, LeftRotated(t)) == All(c, t)
    {
      hide Own, Rim, IsTree, IsHole, Fits, Nodes, Distinct, Inorder;
      ghost var d := DownLeft(DownRight(c, t), t.right);
      Open(c, t, node, node.parent, sentinel);
      Open(DownRight(c, t), t.right, node.right, node, sentinel);
      Open(d, t.right.left, node.right.left, node.right, sentinel);
      var temp := node.right;
      node.right := temp.left;
      assert allocated(Own(t)) && allocated(Rim(c));
      Adopt(temp.left, node, temp, d, t.right.left);
      temp.parent := node.parent;
      assert allocated(Own(t));
      Replace(node, temp, c);
      temp.left := node;
      node.parent := temp;
      Close(LeftRotated(t).left, node, temp, sentinel);
      Close(LeftRotated(t), temp, temp.parent, sentinel);
      LeftRotatedFits(c, t, sentinel);
    }

    method RightRotate(node: Node, ghost c: Hole, ghost t: Shape)
      requires t.Bin? && t.left.Bin? && Focus(c, t, node)
      modifies this`root, Own(t), Rim(c)
      ensures Focus(c, RightRotated(t), t.left.node) && All(c, RightRotated(t)) == All(c, t)
    {
      hide Own, Rim, IsTree, IsHole, Fits, Nodes, Distinct, Inorder;
      ghost var d := DownRight(DownLeft(c, t), t.left);
      Open(c, t, node, node.parent, sentinel);
      Open(DownLeft(c, t), t.left, node.left, node, sentinel);
      Open(d, t.left.right, node.left.right, node.left, sentinel);
      var temp := node.left;
      node.left := temp.right;
      assert allocated(Own(t)) && allocated(Rim(c));
      Adopt(temp.right, node, temp, d, t.left.right);
      temp.parent := node.parent;
      assert allocated(Own(t));
      Replace(node, temp, c);
      temp.right := node;
      node.parent := temp;
      Close(RightRotated(t).right, node, temp, sentinel);
      Close(RightRotated(t), temp, temp.parent, sentinel);
      RightRotatedFits(c, t, sentinel);
    }

    // ----- insertion

    /** The descent of the three insertion functions, which differ in the comparison only. */
    method InsertBelow(start: Node, node: Node) returns (ghost c: Hole)
      requires start == root && shape.Bin? && Focus(Top, shape, root)
      requires node !in Own(shape) && node != sentinel
      modifies Own(shape), node
      ensures Focus(c, Bin(Nil, node, old(KeyOf(node)), true, Nil), node) && !c.Top?
      ensures Plug(c, Nil) == shape && Follows(insert, c, old(KeyOf(node)))
      ensures All(c, Bin(Nil, node, old(KeyOf(node)), true, Nil)) == Own(shape) + {node}
    {
      hide Own, Rim, IsTree, IsHole, Fits, Focus, GoesLeft;
      var temp: Node := start;
      AllAtTop(shape);
      c := Top;
      ghost var t := shape;
      ghost var key := KeyOf(node);
      while true
        invariant t.Bin? && Focus(c, t, temp) && Plug(c, t) == shape && All(c, t) == Own(shape)
        invariant Follows(insert, c, key) && KeyOf(node) == key
        decreases t
      {
        GoLeft(c, t, temp);
        GoRight(c, t, temp);
        assert KeyOf(temp) == t.key;
        if GoesLeft(insert, KeyOf(node), KeyOf(temp)) {
          if temp.left == sentinel {
            Attach(temp, node, true, c, t);
            c := DownLeft(c, t);
            return;
          }
          temp := temp.left;
          c, t := DownLeft(c, t), t.left;
        } else {
          if temp.right == sentinel {
            Attach(temp, node, false, c, t);
            c := DownRight(c, t);
            return;
          }
          temp := temp.right;
          c, t := DownRight(c, t), t.right;
        }
      }
    }

    /** Hang `node`, red and without children, below `temp`. */
    method Attach(temp: Node, node: Node, left: bool, ghost c: Hole, ghost t: Shape)
      requires t.Bin? && Focus(c, t, temp) && (if left then t.left.Nil? else t.right.Nil?)
      requires node !in Rim(c) && node !in Own(t) && node != sentinel
      modifies temp, node
      ensures var d := if left then DownLeft(c, t) else DownRight(c, t);
              var s := Bin(Nil, node, old(KeyOf(node)), true, Nil);
              Focus(d, s, node) && All(d, s) == All(c, t) + {node}
    {
      hide Own, Rim, IsTree, IsHole, Fits;
      Open(c, t, temp, temp.parent, sentinel);
      ghost var d := if left then DownLeft(c, t) else DownRight(c, t);
      FitLeaf(d, node, KeyOf(node), true, sentinel);
      if left {
        temp.left := node;
      } else {
        temp.right := node;
      }
      node.parent := temp;
      node.left := sentinel;
      node.right := sentinel;
      node.red := true;
      Close(Nil, sentinel, node, sentinel);
      Close(Bin(Nil, node, KeyOf(node), true, Nil), node, temp, sentinel);
      CloseHole(c, t, left, node, temp, root, sentinel);
    }

    /** A red node whose parent may be red, at a place where its black height fits. */
    ghost predicate RedAt(c: Hole, t: Shape, h: nat, n: Node)
      reads this`root, n, Rim(c), Own(t)
    {
      Focus(c, t, n) && t.Bin? && t.red && Rb(t, h) && CtxRb(c, h)
    }

    /** Parent and uncle are red: blacken both and pass the red on to the grandparent. */
    method PassRedUp(node: Node, temp: Node, ghost c: Hole, ghost t: Shape, ghost h: nat)
      returns (next: Node, ghost t': Shape)
      requires RedAt(c, t, h, node) && c.IsRed() && Uncle(c).IsRed() && temp == Uncle(c).node
      modifies All(c, t)
      ensures RedAt(c.up.up, t', h + 1, next)
      ensures Inorder(Plug(c.up.up, t')) == Inorder(Plug(c, t)) && All(c.up.up, t') == All(c, t)
    {
      PassedUpRb(c, t, h);
      assert !c.up.Top?;
      hide Own, Rim, IsTree, IsHole, Fits, Focus, Rb, CtxRb, Inorder, Plug, PassedUp;
      GoUp(c, t, node);
      ghost var s := Up(c, t).(red := false);
      Paint(node.parent, false, c.up, Up(c, t));
      GoUp(c.up, s, node.parent);
      next := node.parent.parent;
      ghost var s2 := PaintUncle(next, temp, c.up, s);
      Paint(next, true, c.up.up, s2);
      t' := s2.(red := true);
      assert t' == PassedUp(c, t) by { PassedUpIs(c, t); }
    }

    method PaintUncle(grand: Node, temp: Node, ghost c: Hole, ghost t: Shape) returns (ghost s: Shape)
      requires !c.Top? && Focus(c.up, Up(c, t), grand) && Sibling(c).Bin? && temp == Sibling(c).node
      modifies temp`red
      ensures s == Up(WithSibling(c, Sibling(c).Blacken()), t) && Focus(c.up, s, grand)
      ensures All(c.up, s) == All(c.up, Up(c, t)) && temp in All(c.up, s)
    {
      hide Own, Rim, IsTree, IsHole, Fits, Focus, Inorder, Plug;
      ghost var u := Up(c, t);
      ghost var d := if c.InLeft? then DownRight(c.up, u) else DownLeft(c.up, u);
      GoLeft(c.up, u, grand);
      GoRight(c.up, u, grand);
      Paint(temp, false, d, Sibling(c));
      GoUp(d, Sibling(c).(red := false), temp);
      s := Up(WithSibling(c, Sibling(c).Blacken()), t);
    }

    /** The uncle is black and `node` an outer grandchild: one rotation of the grandparent ends it. */
    method LiftParent(node: Node, ghost c: Hole, ghost t: Shape, ghost h: nat) returns (ghost c': Hole)
      requires RedAt(c, t, h, node) && c.IsRed() && !c.up.Top? && !Uncle(c).IsRed() && c.InLeft? == c.up.InLeft?
      modifies this`root, All(c, t)
      ensures RedAt(c', t, h, node) && !c'.Top? && !c'.IsRed() && c'.Depth() < c.Depth()
      ensures Inorder(Plug(c', t)) == Inorder(Plug(c, t)) && All(c', t) == All(c, t)
    {
      LiftedRb(c, t, h);
      hide Own, Rim, IsTree, IsHole, Fits, Focus, Rb, CtxRb, Inorder, Plug;
      GoUp(c, t, node);
      ghost var c1, t1 := c.up, Up(c, t);
      Paint(node.parent, false, c1, t1);
      GoUp(c1, t1.Blacken(), node.parent);
      ghost var c2, t2 := c1.up, Up(c1, t1.Blacken());
      Paint(node.parent.parent, true, c2, t2);
      t2 := t2.Redden();
      GoLeft(c2, t2, node.parent.parent);
      GoRight(c2, t2, node.parent.parent);
      if node.parent == node.parent.parent.left {
        GoLeft(DownLeft(c2, t2), t2.left, node.parent);
        RightRotate(node.parent.parent, c2, t2);
        RightRotatedKeeps(t2);
        GoLeft(c2, RightRotated(t2), t2.left.node);
      } else {
        GoRight(DownRight(c2, t2), t2.right, node.parent);
        LeftRotate(node.parent.parent, c2, t2);
        LeftRotatedKeeps(t2);
        GoRight(c2, LeftRotated(t2), t2.right.node);
      }
      c' := Lifted(c, t);
    }

    /** `node` is an inner grandchild: rotate its parent to make it an outer one. */
    method Straighten(node: Node, ghost c: Hole, ghost t: Shape, ghost h: nat)
      returns (next: Node, ghost c': Hole, ghost t': Shape)
      requires RedAt(c, t, h, node) && c.IsRed() && !c.up.Top? && c.InLeft? != c.up.InLeft?
      modifies this`root, All(c, t)
      ensures RedAt(c', t', h, next) && c'.IsRed() && c'.up == c.up && c'.InLeft? == c.up.InLeft?
      ensures Inorder(Plug(c', t')) == Inorder(Plug(c, t)) && All(c', t') == All(c, t)
      ensures c'.Depth() == c.Depth() && Uncle(c') == Uncle(c)
    {
      StraightRb(c, t, h);
      ghost var s := Up(c, t);
      hide Own, Rim, IsTree, IsHole, Fits, Focus, Rb, CtxRb, Inorder, Plug;
      GoUp(c, t, node);
      next := node.parent;
      if node == node.parent.right {
        LeftRotate(next, c.up, s);
        GoLeft(c.up, LeftRotated(s), node);
        c', t' := DownLeft(c.up, LeftRotated(s)), LeftRotated(s).left;
      } else {
        RightRotate(next, c.up, s);
        GoRight(c.up, RightRotated(s), node);
        c', t' := DownRight(c.up, RightRotated(s)), RightRotated(s).right;
      }
    }

    /** The rebalancing loop of an insertion. */
    method Rebalance(start: Node, ghost c0: Hole, ghost t0: Shape)
      requires RedAt(c0, t0, 0, start) && !sentinel.red
      modifies this`root, this`shape, All(c0, t0)
      ensures Valid() && Inorder(shape) == Inorder(Plug(c0, t0)) && Nodes(shape) == All(c0, t0)
    {
      hide Own, Rim, IsTree, IsHole, Fits, Focus, Rb, CtxRb, Inorder, Plug, All, Valid, RedAt;
      var node := start;
      ghost var c, t, h: nat := c0, t0, 0;
      HasParent(c, t, h, node);
      while node != root && node.parent.red
        invariant RedAt(c, t, h, node) && All(c, t) == All(c0, t0) && !sentinel.red
        invariant node != root ==> node.parent != null
        invariant Inorder(Plug(c, t)) == Inorder(Plug(c0, t0))
        decreases c.Depth()
      {
        LookUp(c, t, h, node);
        if node.parent == node.parent.parent.left {
          var temp := node.parent.parent.right;
          if temp.red {
            ghost var c' := c.up.up;
            node, t := PassRedUp(node, temp, c, t, h);
            c, h := c', h + 1;
          } else {
            if node == node.parent.right {
              node, c, t := Straighten(node, c, t, h);
            }
            c := LiftParent(node, c, t, h);
          }
        } else {
          var temp := node.parent.parent.left;
          if temp.red {
            ghost var c' := c.up.up;
            node, t := PassRedUp(node, temp, c, t, h);
            c, h := c', h + 1;
          } else {
            if node == node.parent.left {
              node, c, t := Straighten(node, c, t, h);
            }
            c := LiftParent(node, c, t, h);
          }
        }
        HasParent(c, t, h, node);
      }
      Finish(c, t, h, node);
      BlackenRoot(Plug(c, t));
    }

    method BlackenRoot(ghost t: Shape)
      requires t.Bin? && Focus(Top, t, root) && IsRbTree(t.Blacken()) && !sentinel.red
      modifies root, this`shape
      ensures Valid() && shape == t.Blacken() && Nodes(shape) == All(Top, t)
    {
      GoLeft(Top, t, root);
      Paint(root, false, Top, t);
      shape := t.Blacken();
      AllAtTop(shape);
    }

    lemma HasParent(c: Hole, t: Shape, h: nat, n: Node)
      requires RedAt(c, t, h, n)
      ensures (n != root ==> n.parent != null) && sentinel !in All(c, t)
    {
      FocusTop(c, t, n);
      if !c.Top? {
        GoUp(c, t, n);
      }
    }

    /** What the rebalancing loop sees around a red node with a red parent. */
    lemma LookUp(c: Hole, t: Shape, h: nat, n: Node)
      requires RedAt(c, t, h, n) && n != root && !sentinel.red
      requires n.parent != null ==> n.parent.red
      ensures !c.Top? && n.parent == c.node && c.red && !c.up.Top? && n.parent.parent == c.up.node
      ensures c.up.up.Depth() < c.Depth()
      ensures c.InLeft? <==> n == n.parent.left
      ensures c.InRight? <==> n == n.parent.right
      ensures c.up.InLeft? <==> n.parent == n.parent.parent.left
      ensures var u := if c.up.InLeft? then n.parent.parent.right else n.parent.parent.left;
              u != null && u.red == Uncle(c).IsRed() && (u.red ==> u == Uncle(c).node)
    {
      FocusTop(c, t, n);
      GoUp(c, t, n);
      GoUp(c.up, Up(c, t), n.parent);
      GoLeft(c.up.up, Up(c.up, Up(c, t)), n.parent.parent);
      GoRight(c.up.up, Up(c.up, Up(c, t)), n.parent.parent);
    }

    /** After the loop, only the colour of the root may have to be corrected. */
    lemma Finish(c: Hole, t: Shape, h: nat, n: Node)
      requires RedAt(c, t, h, n) && (n == root || (n.parent != null && !n.parent.red))
      ensures Focus(Top, Plug(c, t), root) && Plug(c, t).Bin?
      ensures IsRbTree(Plug(c, t).Blacken()) && All(Top, Plug(c, t)) == All(c, t)
      ensures Inorder(Plug(c, t).Blacken()) == Inorder(Plug(c, t)) && root in All(c, t)
    {
      FocusTop(c, t, n);
      FocusWhole(c, t, n);
      GoLeft(Top, Plug(c, t), root);
      if c.Top? {
        assert Rb(t.Blacken(), h + 1);
      } else {
        GoUp(c, t, n);
        PlugRb(c, t, h);
      }
    }

    lemma FocusWhole(c: Hole, t: Shape, n: Node)
      requires Focus(c, t, n)
      ensures Focus(Top, Plug(c, t), root) && All(Top, Plug(c, t)) == All(c, t)
      ensures t.Bin? || !c.Top? ==> Plug(c, t).Bin?
    {
      Assemble(c, t, n, n.parent, root, sentinel);
      PlugNodes(c, t);
      PlugIsBin(c, t);
    }

    /** The height of the tree is at most 2 * log2(n + 1) for its n nodes. */
    lemma HeightBounded()
      requires Valid()
      ensures Pow2(Height(shape)) <= (|Inorder(shape)| + 1) * (|Inorder(shape)| + 1)
    {
      HeightIsLogarithmic(shape);
    }

    /** `node` enters the in-order sequence at one place and nothing else changes; a sorted sequence stays sorted
        just when the order is coherent on the keys. */
    method Insert(node: Node)
      requires Valid() && node !in Nodes(shape) && node != sentinel
      modifies this`root, this`shape, Nodes(shape), node
      ensures Valid() && Nodes(shape) == old(Nodes(shape)) + {node}
      ensures InsertedOnce(old(Inorder(shape)), Inorder(shape), Entry(node, old(KeyOf(node))))
      ensures Sorted(insert, Inorder(shape)) <==>
                old(Sorted(insert, Inorder(shape))) &&
                Coherent(insert, old(Keys(Inorder(shape))) + {old(KeyOf(node))})
      ensures Pow2(Height(shape)) <= (|Inorder(shape)| + 1) * (|Inorder(shape)| + 1)
      ensures old(root == sentinel) ==> root == node && node.parent == null
    {
      ghost var key, was := KeyOf(node), Inorder(shape);
      if root == sentinel {
        node.parent := null;
        node.left := sentinel;
        node.right := sentinel;
        node.red := false;
        root := node;
        shape := Bin(Nil, node, key, false, Nil);
        assert Rb<Node>(Nil, 0) && Rb(shape, 1);
        Added(insert, Top, node, key);
        assert Inorder(shape) == [Entry(node, key)];
        HeightBounded();
        return;
      }
      ghost var c := InsertBelow(root, node);
      ghost var leaf := Bin(Nil, node, key, true, Nil);
      ghost var g := UnplugRb(c, Nil);
      assert Rb(leaf, 0);
      Rebalance(node, c, leaf);
      Added(insert, c, node, key);
      HeightBounded();
    }

    // ----- deletion: the rebalancing loop

    /** A place that wants one black node more than the shape at it has. */
    ghost predicate ShortAt(c: Hole, t: Shape, h: nat, n: Node)
      reads this`root, n, Rim(c), Own(t)
    {
      Focus(c, t, n) && Deficit(t, h) && CtxRb(c, h + 1)
    }

    /** The red sibling of `temp` is rotated above the parent, which leaves a black sibling. */
    method LiftSibling(temp: Node, ghost c: Hole, ghost t: Shape, ghost h: nat) returns (ghost c': Hole)
      requires ShortAt(c, t, h, temp) && !t.IsRed() && !c.Top? && Sibling(c).IsRed()
      modifies this`root, All(c, t)
      ensures ShortAt(c', t, h, temp) && c'.IsRed() && c'.InLeft? == c.InLeft? && !Sibling(c').IsRed()
      ensures Inorder(Plug(c', t)) == Inorder(Plug(c, t)) && All(c', t) == All(c, t)
    {
      SiblingLiftedRb(c, t, h);
      hide Own, Rim, IsTree, IsHole, Fits, Focus, Deficit, Rb, CtxRb, Inorder, Plug;
      ghost var u := Up(c, t);
      ghost var u' := Up(WithSibling(c, Sibling(c).Blacken()), t);
      ghost var s := SiblingLifted(c, t);
      GoUp(c, t, temp);
      GoLeft(c.up, u, temp.parent);
      GoRight(c.up, u, temp.parent);
      if temp == temp.parent.left {
        var w := temp.parent.right;
        Paint(w, false, DownRight(c.up, u), u.right);
        GoUp(DownRight(c.up, u), u.right.Blacken(), w);
        Paint(temp.parent, true, c.up, u');
        LeftRotate(temp.parent, c.up, u'.Redden());
        GoLeft(c.up, s, w);
        GoLeft(DownLeft(c.up, s), s.left, w.left);
        c' := DownLeft(DownLeft(c.up, s), s.left);
      } else {
        var w := temp.parent.left;
        Paint(w, false, DownLeft(c.up, u), u.left);
        GoUp(DownLeft(c.up, u), u.left.Blacken(), w);
        Paint(temp.parent, true, c.up, u');
        RightRotate(temp.parent, c.up, u'.Redden());
        GoRight(c.up, s, w);
        GoRight(DownRight(c.up, s), s.right, w.right);
        c' := DownRight(DownRight(c.up, s), s.right);
      }
    }

    /** A black sibling with black children turns red: the parent is short instead. */
    method ReddenSibling(temp: Node, w: Node, ghost c: Hole, ghost t: Shape, ghost h: nat)
      returns (next: Node, ghost t': Shape, ghost h': nat)
      requires ShortAt(c, t, h, temp) && !t.IsRed() && !c.Top? && !Sibling(c).IsRed()
      requires Sibling(c).Bin? && !Near(c).IsRed() && !Far(c).IsRed() && w == Sibling(c).node
      modifies All(c, t)
      ensures ShortAt(c.up, t', h', next) && t'.IsRed() == c.red
      ensures Inorder(Plug(c.up, t')) == Inorder(Plug(c, t)) && All(c.up, t') == All(c, t)
    {
      hide Own, Rim, IsTree, IsHole, Fits, Focus, Deficit, Rb, CtxRb, Inorder, Plug;
      DeficitRb(t, h);
      h' := SiblingReddenedRb(c, t, h);
      ghost var u := Up(c, t);
      GoUp(c, t, temp);
      GoLeft(c.up, u, temp.parent);
      GoRight(c.up, u, temp.parent);
      ghost var d := if c.InLeft? then DownRight(c.up, u) else DownLeft(c.up, u);
      Paint(w, true, d, Sibling(c));
      GoUp(d, Sibling(c).Redden(), w);
      next := temp.parent;
      t' := Up(WithSibling(c, Sibling(c).Redden()), t);
    }

    /** The near nephew is red and the far one black: the near one becomes the sibling. */
    method LiftNephew(temp: Node, w: Node, ghost c: Hole, ghost t: Shape, ghost h: nat) returns (ghost c': Hole)
      requires ShortAt(c, t, h, temp) && !t.IsRed() && !c.Top? && !Sibling(c).IsRed()
      requires Sibling(c).Bin? && Near(c).IsRed() && !Far(c).IsRed() && w == Sibling(c).node
      modifies this`root, All(c, t)
      ensures ShortAt(c', t, h, temp) && c' == WithSibling(c, NephewLifted(c))
      ensures !Sibling(c').IsRed() && Far(c').IsRed()
      ensures Inorder(Plug(c', t)) == Inorder(Plug(c, t)) && All(c', t) == All(c, t)
    {
      NephewLiftedRb(c, t, h);
      c' := WithSibling(c, NephewLifted(c));
      hide Own, Rim, IsTree, IsHole, Fits, Focus, Deficit, Rb, CtxRb, Inorder, Plug;
      ghost var u := Up(c, t);
      GoUp(c, t, temp);
      GoLeft(c.up, u, temp.parent);
      GoRight(c.up, u, temp.parent);
      if temp == temp.parent.left {
        ghost var d := DownRight(c.up, u);
        GoLeft(d, u.right, w);
        Paint(w.left, false, DownLeft(d, u.right), u.right.left);
        GoUp(DownLeft(d, u.right), u.right.left.Blacken(), w.left);
        ghost var v := u.right.(left := u.right.left.Blacken());
        Paint(w, true, d, v);
        RightRotate(w, d, v.Redden());
        GoUp(d, NephewLifted(c), NephewLifted(c).node);
        GoLeft(c.up, Up(c', t), temp.parent);
      } else {
        ghost var d := DownLeft(c.up, u);
        GoRight(d, u.left, w);
        Paint(w.right, false, DownRight(d, u.left), u.left.right);
        GoUp(DownRight(d, u.left), u.left.right.Blacken(), w.right);
        ghost var v := u.left.(right := u.left.right.Blacken());
        Paint(w, true, d, v);
        LeftRotate(w, d, v.Redden());
        GoUp(d, NephewLifted(c), NephewLifted(c).node);
        GoRight(c.up, Up(c', t), temp.parent);
      }
    }

    /** The far nephew is red: rotating the sibling above the parent makes up for the deficit. */
    method Repair(temp: Node, w: Node, ghost c: Hole, ghost t: Shape, ghost h: nat)
      requires ShortAt(c, t, h, temp) && !t.IsRed() && !c.Top? && !Sibling(c).IsRed()
      requires Sibling(c).Bin? && Far(c).IsRed() && w == Sibling(c).node
      modifies this`root, All(c, t)
      ensures Focus(Top, Plug(c.up, Repaired(c, t)), root) && IsRbTree(Plug(c.up, Repaired(c, t)))
      ensures Inorder(Plug(c.up, Repaired(c, t))) == Inorder(Plug(c, t))
      ensures All(Top, Plug(c.up, Repaired(c, t))) == All(c, t)
    {
      hide Own, Rim, IsTree, IsHole, Fits, Focus, Deficit, Rb, CtxRb, Inorder, Plug;
      DeficitRb(t, h);
      RepairedRb(c, t, h);
      ghost var u := Up(c, t);
      ghost var s := Sibling(c).(red := c.red);
      GoUp(c, t, temp);
      GoLeft(c.up, u, temp.parent);
      GoRight(c.up, u, temp.parent);
      if temp == temp.parent.left {
        Paint(w, temp.parent.red, DownRight(c.up, u), u.right);
        GoUp(DownRight(c.up, u), s, w);
        u := u.(right := s);
        Paint(temp.parent, false, c.up, u);
        u := u.Blacken();
        GoRight(c.up, u, temp.parent);
        GoRight(DownRight(c.up, u), u.right, w);
        ghost var d := DownRight(DownRight(c.up, u), u.right);
        Paint(w.right, false, d, u.right.right);
        GoUp(d, u.right.right.Blacken(), w.right);
        s := u.right.(right := u.right.right.Blacken());
        GoUp(DownRight(c.up, u), s, w);
        u := u.(right := s);
        LeftRotate(temp.parent, c.up, u);
      } else {
        Paint(w, temp.parent.red, DownLeft(c.up, u), u.left);
        GoUp(DownLeft(c.up, u), s, w);
        u := u.(left := s);
        Paint(temp.parent, false, c.up, u);
        u := u.Blacken();
        GoLeft(c.up, u, temp.parent);
        GoLeft(DownLeft(c.up, u), u.left, w);
        ghost var d := DownLeft(DownLeft(c.up, u), u.left);
        Paint(w.left, false, d, u.left.left);
        GoUp(d, u.left.left.Blacken(), w.left);
        s := u.left.(left := u.left.left.Blacken());
        GoUp(DownLeft(c.up, u), s, w);
        u := u.(left := s);
        RightRotate(temp.parent, c.up, u);
      }
      FocusWhole(c.up, Repaired(c, t), w);
    }

    /** What the loop sees around a short place below the root. */
    lemma LookAcross(c: Hole, t: Shape, h: nat, n: Node)
      requires ShortAt(c, t, h, n) && !t.IsRed() && n != root
      ensures !c.Top? && Sibling(c).Bin? && n.parent == c.node && c.up.Depth() < c.Depth()
      ensures c.InLeft? <==> n == n.parent.left
      ensures c.InRight? <==> n == n.parent.right
      ensures var w := if c.InLeft? then n.parent.right else n.parent.left;
              var near, far := if c.InLeft? then w.left else w.right, if c.InLeft? then w.right else w.left;
              && w != null && w == Sibling(c).node && w.red == Sibling(c).IsRed()
              && w.left != null && w.right != null
              && (Near(c).Bin? ==> near.red == Near(c).red) && (Near(c).Nil? ==> near == sentinel)
              && (Far(c).Bin? ==> far.red == Far(c).red) && (Far(c).Nil? ==> far == sentinel)
    {
      FocusTop(c, t, n);
      GoUp(c, t, n);
      assert Rb(t, h) && Rb(Sibling(c), h + 1);
      ghost var u := Up(c, t);
      GoLeft(c.up, u, n.parent);
      GoRight(c.up, u, n.parent);
      if c.InLeft? {
        GoLeft(DownRight(c.up, u), u.right, n.parent.right);
        GoRight(DownRight(c.up, u), u.right, n.parent.right);
      } else {
        GoLeft(DownLeft(c.up, u), u.left, n.parent.left);
        GoRight(DownLeft(c.up, u), u.left, n.parent.left);
      }
    }

    lemma ShortFacts(c: Hole, t: Shape, h: nat, n: Node)
      requires ShortAt(c, t, h, n)
      ensures n != root ==> n.parent != null && !c.Top?
      ensures sentinel !in All(c, t)
      ensures (t.Bin? ==> n.red == t.red && n in All(c, t)) && (t.Nil? ==> n == sentinel)
    {
      FocusTop(c, t, n);
      if !c.Top? {
        GoUp(c, t, n);
      }
      if t.Bin? {
        GoLeft(c, t, n);
      }
    }

    /** One round of the loop for a left child. */
    method FixLeft(start: Node, ghost c0: Hole, ghost t0: Shape, ghost h0: nat)
      returns (temp: Node, ghost c: Hole, ghost t: Shape, ghost h: nat)
      requires ShortAt(c0, t0, h0, start) && !t0.IsRed() && c0.InLeft? && !sentinel.red
      modifies this`root, All(c0, t0)
      ensures ShortAt(c, t, h, temp) && Inorder(Plug(c, t)) == Inorder(Plug(c0, t0)) && All(c, t) == All(c0, t0)
      ensures temp == root || t.IsRed() || c.Depth() < c0.Depth()
    {
      ShortFacts(c0, t0, h0, start);
      BelowRoot(c0, t0, h0, start);
      LookAcross(c0, t0, h0, start);
      hide Own, Rim, IsTree, IsHole, Fits, Focus, Rb, CtxRb, Deficit, Inorder, Plug, All, ShortAt;
      temp, c, t, h := start, c0, t0, h0;
      var w := temp.parent.right;
      if w.red {
        c := LiftSibling(temp, c, t, h);
        ShortFacts(c, t, h, temp);
        BelowRoot(c, t, h, temp);
        LookAcross(c, t, h, temp);
        w := temp.parent.right;
      }
      if !w.left.red && !w.right.red {
        ghost var up := c.up;
        temp, t, h := ReddenSibling(temp, w, c, t, h);
        c := up;
      } else {
        if !w.right.red {
          c := LiftNephew(temp, w, c, t, h);
          ShortFacts(c, t, h, temp);
          BelowRoot(c, t, h, temp);
          LookAcross(c, t, h, temp);
          w := temp.parent.right;
        }
        Repair(temp, w, c, t, h);
        temp := root;
        t := Plug(c.up, Repaired(c, t));
        c := Top;
        h := AtTop(t);
      }
    }

    /** One round of the loop for a right child. */
    method FixRight(start: Node, ghost c0: Hole, ghost t0: Shape, ghost h0: nat)
      returns (temp: Node, ghost c: Hole, ghost t: Shape, ghost h: nat)
      requires ShortAt(c0, t0, h0, start) && !t0.IsRed() && c0.InRight? && !sentinel.red
      modifies this`root, All(c0, t0)
      ensures ShortAt(c, t, h, temp) && Inorder(Plug(c, t)) == Inorder(Plug(c0, t0)) && All(c, t) == All(c0, t0)
      ensures temp == root || t.IsRed() || c.Depth() < c0.Depth()
    {
      ShortFacts(c0, t0, h0, start);
      BelowRoot(c0, t0, h0, start);
      LookAcross(c0, t0, h0, start);
      hide Own, Rim, IsTree, IsHole, Fits, Focus, Rb, CtxRb, Deficit, Inorder, Plug, All, ShortAt;
      temp, c, t, h := start, c0, t0, h0;
      var w := temp.parent.left;
      if w.red {
        c := LiftSibling(temp, c, t, h);
        ShortFacts(c, t, h, temp);
        BelowRoot(c, t, h, temp);
        LookAcross(c, t, h, temp);
        w := temp.parent.left;
      }
      if !w.left.red && !w.right.red {
        ghost var up := c.up;
        temp, t, h := ReddenSibling(temp, w, c, t, h);
        c := up;
      } else {
        if !w.left.red {
          c := LiftNephew(temp, w, c, t, h);
          ShortFacts(c, t, h, temp);
          BelowRoot(c, t, h, temp);
          LookAcross(c, t, h, temp);
          w := temp.parent.left;
        }
        Repair(temp, w, c, t, h);
        temp := root;
        t := Plug(c.up, Repaired(c, t));
        c := Top;
        h := AtTop(t);
      }
    }

    /** The rebalancing loop of a deletion. */
    method Fixup(start: Node, ghost c0: Hole, ghost t0: Shape, ghost h0: nat)
      requires ShortAt(c0, t0, h0, start) && !sentinel.red
      modifies this`root, this`shape, All(c0, t0), sentinel`red
      ensures Valid() && Inorder(shape) == Inorder(Plug(c0, t0)) && Nodes(shape) == All(c0, t0)
    {
      hide Own, Rim, IsTree, IsHole, Fits, Focus, Rb, CtxRb, Deficit, Inorder, Plug, All, Valid, ShortAt;
      var temp := start;
      ghost var c, t, h: nat := c0, t0, h0;
      ShortFacts(c, t, h, temp);
      while temp != root && !temp.red
        invariant ShortAt(c, t, h, temp) && All(c, t) == All(c0, t0) && !sentinel.red
        invariant Inorder(Plug(c, t)) == Inorder(Plug(c0, t0))
        invariant temp != root ==> temp.parent != null && !c.Top?
        invariant t.IsRed() == temp.red
        decreases if temp == root || temp.red then 0 else 1 + c.Depth()
      {
        LookAcross(c, t, h, temp);
        if temp == temp.parent.left {
          temp, c, t, h := FixLeft(temp, c, t, h);
        } else {
          temp, c, t, h := FixRight(temp, c, t, h);
        }
        ShortFacts(c, t, h, temp);
      }
      ShortFacts(c, t, h, temp);
      Settle(temp, c, t, h);
    }

    lemma BelowRoot(c: Hole, t: Shape, h: nat, n: Node)
      requires ShortAt(c, t, h, n) && !c.Top?
      ensures n != root
    {
      FocusTop(c, t, n);
    }

    lemma AtTop(t: Shape) returns (h: nat)
      requires Focus(Top, t, root) && IsRbTree(t)
      ensures ShortAt(Top, t, h, root) && Plug(Top, t) == t
    {
      h :| Rb(t, h);
    }

    /** After the loop the place is the root or red, and blackening it ends the deletion. */
    method Settle(temp: Node, ghost c: Hole, ghost t: Shape, ghost h: nat)
      requires ShortAt(c, t, h, temp) && !sentinel.red && (temp == root || temp.red)
      modifies this`shape, temp`red
      ensures Valid() && Inorder(shape) == Inorder(Plug(c, t)) && Nodes(shape) == All(c, t)
    {
      FocusTop(c, t, temp);
      ShortFacts(c, t, h, temp);
      Paint(temp, false, c, t);
      ghost var s := Painted(t, false);
      FocusWhole(c, s, temp);
      PlugSameInorder(c, t, s);
      PlugRb(c, s, if t.IsRed() then h + 1 else h);
      shape := Plug(c, s);
      AllAtTop(shape);
    }

    // ----- deletion: taking the node out

    lemma FocusPart(c: Hole, t: Shape, n: Node)
      requires Focus(Top, Plug(c, t), root)
      requires t.Bin? ==> n == t.node
      requires t.Nil? ==> n == sentinel && !c.Top? && n.parent == c.node
      ensures Focus(c, t, n) && All(c, t) == All(Top, Plug(c, t))
    {
      var m, parent := Disassemble(c, t, root, sentinel);
      PlugNodes(c, t);
    }

    /** The focus on a given node. */
    lemma {:induction false} Locate(c: Hole, t: Shape, n: Node, x: Node) returns (d: Hole, s: Shape)
      requires Focus(c, t, n) && x in Nodes(t)
      ensures s.Bin? && s.node == x && Focus(d, s, x) && Plug(d, s) == Plug(c, t) && All(d, s) == All(c, t)
      decreases t
    {
      GoLeft(c, t, n);
      GoRight(c, t, n);
      if x == t.node {
        d, s := c, t;
      } else if x in Nodes(t.left) {
        d, s := Locate(DownLeft(c, t), t.left, n.left, x);
      } else {
        d, s := Locate(DownRight(c, t), t.right, n.right, x);
      }
    }

    /** The leftmost node below `start`, and the path to it, which never turns right. */
    method Min(start: Node, ghost c: Hole, ghost t: Shape) returns (node: Node, ghost inner: Hole, ghost s: Shape)
      requires Focus(c, t, start) && t.Bin?
      ensures Focus(Nest(inner, c), s, node) && s.Bin? && s.left.Nil? && node == s.node && node.left == sentinel
      ensures Plug(inner, s) == t && Before(inner) == [] && All(Nest(inner, c), s) == All(c, t)
      ensures Sorted(insert, Inorder(t)) ==>
                forall e <- Inorder(t) :: NotBefore(insert, KeyOf(node), KeyOf(node), e.key)
    {
      node, inner, s := start, Top, t;
      GoLeft(c, t, start);
      while node.left != sentinel
        invariant Focus(Nest(inner, c), s, node) && s.Bin? && node == s.node
        invariant Plug(inner, s) == t && Before(inner) == [] && All(Nest(inner, c), s) == All(c, t)
        invariant node.left != null && (node.left == sentinel <==> s.left.Nil?)
        decreases s
      {
        GoLeft(Nest(inner, c), s, node);
        node, inner, s := node.left, DownLeft(inner, s), s.left;
        GoLeft(Nest(inner, c), s, node);
      }
      LeftmostFirst(inner, s, node);
    }

    /** The leftmost node of a sorted tree has the first of the keys. */
    lemma LeftmostFirst(inner: Hole, s: Shape, node: Node)
      requires s.Bin? && s.left.Nil? && Before(inner) == [] && s.key == KeyOf(node)
      ensures var all := Inorder(Plug(inner, s));
              Sorted(insert, all) ==> forall e <- all :: NotBefore(insert, KeyOf(node), KeyOf(node), e.key)
    {
      var all := Inorder(Plug(inner, s));
      InorderOfLeftmost(inner, s);
      SortedMeans(insert, all);
      hide Sorted, Inorder, Plug;
      assert all[0].key == KeyOf(node);
    }

    /** A node with at most one child gives its place to that child. */
    method SpliceSelf(node: Node, temp: Node, ghost c: Hole, ghost t: Shape)
      requires Focus(c, t, node) && t.Bin? && !c.Top?
      requires if t.left.Nil? then temp == node.right else t.right.Nil? && temp == node.left
      modifies All(c, t) - {node}, sentinel`parent
      ensures var s := if t.left.Nil? then t.right else t.left;
              Focus(c, s, temp) && All(c, s) == All(c, t) - {node} && node !in All(c, s)
    {
      hide Own, Rim, IsTree, IsHole, Fits;
      ghost var s := if t.left.Nil? then t.right else t.left;
      SpliceFacts(c, t, node);
      assert allocated(Own(s)) && allocated(Rim(c));
      ReplaceChild(node, temp, c);
      temp.parent := node.parent;
      Close(s, temp, node.parent, sentinel);
    }

    lemma SpliceFacts(c: Hole, t: Shape, n: Node)
      requires Focus(c, t, n) && t.Bin? && !c.Top? && (t.left.Nil? || t.right.Nil?)
      ensures var s, m := if t.left.Nil? then t.right else t.left, if t.left.Nil? then n.right else n.left;
              && Fits(c, s, sentinel) && Fits(c, Nil, sentinel) && m != null
              && IsHole(c, n, n.parent, root, sentinel) && IsTree(s, m, n, sentinel)
              && n !in Own(s) && n !in Rim(c) && n != sentinel && c.node in Rim(c) && c.node != n
              && Own(s) !! Rim(c) && Own(t) == Own(s) + {n} && (s.Nil? <==> m == sentinel)
              && (s.Bin? ==> m == s.node && m in Own(s) && Holds(s.node, s.key, s.red, m, n) &&
                             IsTree(s.left, m.left, m, sentinel) && IsTree(s.right, m.right, m, sentinel) &&
                             m !in Own(s.left) && m !in Own(s.right) &&
                             Own(s.left) <= Own(s) && Own(s.right) <= Own(s))
    {
      Open(c, t, n, n.parent, sentinel);
      if t.left.Nil? {
        Open(DownRight(c, t), t.right, n.right, n, sentinel);
      } else {
        Open(DownLeft(c, t), t.left, n.left, n, sentinel);
      }
    }

    /** The state between taking the leftmost node out of the right subtree and putting it in the
        place of `node`: the right subtree may already have its new parent. */
    ghost predicate Loosened(c: Hole, t: Shape, q: Node, node: Node)
      reads this`root, node, Rim(c), Own(t)
    {
      && t.Bin? && Fits(c, t, sentinel)
      && Holds(t.node, t.key, t.red, node, node.parent) && IsHole(c, node, node.parent, root, sentinel)
      && node.right != null && IsTree(t.left, node.left, node, sentinel)
      && (if t.right.Bin? then IsTree(t.right, node.right, q, sentinel) else node.right == sentinel)
    }

    lemma TakenMin(node: Node, temp: Node, c: Hole, t: Shape, inner: Hole, s: Shape)
      requires t.Bin? && s.Bin? && node == t.node && t.right == Plug(inner, s)
      requires var d := Nest(inner, DownRight(c, t));
               && !d.Top? && IsHole(d, temp, d.node, root, sentinel) && Fits(d, s.right, sentinel)
               && IsTree(s.right, temp, temp.parent, sentinel)
               && temp.parent == if inner.Top? then s.node else d.node
      ensures Loosened(c, t.(right := Plug(inner, s.right)), if inner.Top? then s.node else node, node)
    {
      var d := Nest(inner, DownRight(c, t));
      var t' := t.(right := Plug(inner, s.right));
      if inner.Top? {
      } else {
        Assemble(d, s.right, temp, d.node, root, sentinel);
        PlugNest(inner, DownRight(c, t), s.right);
        PlugNodes(d, s.right);
        PlugNodes(c, t');
        var n, p := Disassemble(c, t', root, sentinel);
      }
    }

    lemma MinFacts(node: Node, subst: Node, c: Hole, t: Shape, inner: Hole, s: Shape)
      requires Focus(c, t, node) && t.Bin?
      requires s.Bin? && s.left.Nil? && subst == s.node && t.right == Plug(inner, s)
      requires Focus(Nest(inner, DownRight(c, t)), s, subst)
      ensures var d := Nest(inner, DownRight(c, t));
              && !d.Top? && (d.node == node <==> inner.Top?) && node == t.node && node in All(c, t)
              && subst != node && subst !in Rim(c) && All(c, t) == Rim(d) + Own(s)
      ensures var t' := t.(right := Plug(inner, s.right));
              subst !in Own(t') && All(c, t') + {subst} == All(c, t)
    {
      hide IsTree, IsHole;
      GoLeft(c, t, node);
      NestNodes(inner, DownRight(c, t));
      PlugNodes(inner, s);
      PlugNodes(inner, s.right);
    }

    lemma MinParts(subst: Node, d: Hole, s: Shape)
      requires s.Bin? && s.left.Nil? && !d.Top? && Focus(d, s, subst)
      ensures Fits(d, Nil, sentinel) && Fits(d, s.right, sentinel) && IsHole(d, subst, subst.parent, root, sentinel)
      ensures subst.parent == d.node && d.node in Rim(d) && subst !in Rim(d) && subst != sentinel && subst.right != null
      ensures KeyOf(subst) == s.key
      ensures IsTree(s.right, subst.right, subst, sentinel) && Own(s) !! Rim(d) && subst !in Own(s.right)
      ensures Own(s.right) <= Own(s) && sentinel !in Rim(d) && (s.right.Bin? ==> s.right.node in Own(s.right))
    {
      GoUp(d, s, subst);
      GoRight(d, s, subst);
      Open(d, s, subst, subst.parent, sentinel);
    }

    method TakeMin(node: Node, subst: Node, temp: Node, ghost c: Hole, ghost t: Shape, ghost inner: Hole,
            ghost s: Shape)
      returns (ghost q: Node)
      requires Focus(c, t, node) && t.Bin?
      requires s.Bin? && s.left.Nil? && subst == s.node && t.right == Plug(inner, s)
      requires Focus(Nest(inner, DownRight(c, t)), s, subst) && temp == subst.right
      modifies All(c, t), sentinel`parent
      ensures Loosened(c, t.(right := Plug(inner, s.right)), q, node) && KeyOf(subst) == s.key
      ensures s.right.Nil? ==> temp == sentinel && temp.parent == if inner.Top? then subst else inner.node
      ensures s.right.Bin? ==> temp == s.right.node
    {
      MinFacts(node, subst, c, t, inner, s);
      ghost var d := Nest(inner, DownRight(c, t));
      MinParts(subst, d, s);
      hide Own, Rim, IsTree, IsHole, Fits, Focus, All, Nest, Plug, Before, Loosened;
      assert allocated(Own(s.right)) && allocated(Rim(d));
      ReplaceChild(subst, temp, d);
      if subst.parent == node {
        Reparent(temp, subst, subst, d, s.right);
        q := subst;
      } else {
        Reparent(temp, subst.parent, subst, d, s.right);
        q := node;
      }
      TakenMin(node, temp, c, t, inner, s);
    }

    /** `temp`, possibly the sentinel, gets a new parent. */
    method Reparent(temp: Node, parent: Node, ghost former: Node, ghost c: Hole, ghost t: Shape)
      requires Fits(c, t, sentinel) && IsTree(t, temp, former, sentinel)
      modifies (if t.Bin? then {t.node} else {sentinel})`parent
      ensures IsTree(t, temp, parent, sentinel) && temp.parent == parent
      ensures if t.Bin? then temp == t.node && temp in Own(t) else temp == sentinel
    {
      Open(c, t, temp, former, sentinel);
      temp.parent := parent;
      Close(t, temp, parent, sentinel);
    }

    method TakeOver(node: Node, subst: Node, ghost q: Node, ghost c: Hole, ghost t: Shape, ghost key: Key)
      requires Loosened(c, t, q, node) && KeyOf(subst) == key
      requires subst !in Rim(c) && subst !in Own(t) && subst != sentinel
      modifies this`root, All(c, t) - {node}, subst
      ensures var u := Bin(t.left, subst, key, t.red, t.right);
              Focus(c, u, subst) && All(c, u) == All(c, t) - {node} + {subst}
      ensures sentinel.parent == old(sentinel.parent)
    {
      LoosenedFacts(node, subst, q, c, t, key);
      hide Own, Rim, IsTree, IsHole, Fits, All, Loosened;
      CopyPlace(node, subst, q, c, t);
      assert allocated(Own(t.left)) && allocated(Own(t.right)) && allocated(Rim(c));
      Adopt(subst.left, subst, node, DownLeft(c, t), t.left);
      Adopt(subst.right, subst, q, DownRight(c, t), t.right);
      Close(Bin(t.left, subst, key, t.red, t.right), subst, subst.parent, sentinel);
    }

    /** `subst` takes the links and the colour of `node`, and the link that led to it. */
    method CopyPlace(node: Node, subst: Node, ghost q: Node, ghost c: Hole, ghost t: Shape)
      requires Loosened(c, t, q, node) && subst !in Rim(c) && subst !in Own(t)
      modifies this`root, Rim(c), subst
      ensures KeyOf(subst) == old(KeyOf(subst)) && subst.red == t.red && IsHole(c, subst, subst.parent, root, sentinel)
      ensures subst.left != null && IsTree(t.left, subst.left, node, sentinel)
      ensures t.Bin? && subst.right != null
      ensures if t.right.Bin? then IsTree(t.right, subst.right, q, sentinel) else subst.right == sentinel
    {
      hide Own, Rim, IsTree, IsHole, Fits, All, Loosened;
      PlaceFacts(node, subst, q, c, t);
      subst.left := node.left;
      subst.right := node.right;
      subst.parent := node.parent;
      subst.red := node.red;
      assert allocated(Own(t.left)) && allocated(Own(t.right));
      Replace(node, subst, c);
    }

    lemma PlaceFacts(node: Node, subst: Node, q: Node, c: Hole, t: Shape)
      requires Loosened(c, t, q, node) && subst !in Rim(c) && subst !in Own(t)
      ensures node.left != null && IsTree(t.left, node.left, node, sentinel) && node.right != null && t.Bin?
      ensures if t.right.Bin? then IsTree(t.right, node.right, q, sentinel) else node.right == sentinel
      ensures node.red == t.red && IsHole(c, node, node.parent, root, sentinel) && Fits(c, Nil, sentinel)
      ensures node !in Rim(c) && node != sentinel && node != subst
      ensures Own(t.left) !! Rim(c) && Own(t.right) !! Rim(c) && subst !in Own(t.left) && subst !in Own(t.right)
    {
    }

    lemma LoosenedFacts(node: Node, subst: Node, q: Node, c: Hole, t: Shape, key: Key)
      requires Loosened(c, t, q, node) && subst !in Rim(c) && subst !in Own(t)
      ensures Fits(c, Nil, sentinel) && Fits(DownLeft(c, t), t.left, sentinel)
              && Fits(DownRight(c, t), t.right, sentinel)
      ensures t.left.Nil? ==> node.left == sentinel
      ensures sentinel !in Rim(c) && sentinel !in Own(t)
      ensures node !in Rim(c) && node != sentinel && node !in Own(t.left) && node !in Own(t.right)
      ensures Own(t) == Own(t.left) + {node} + Own(t.right) && Own(t.left) !! Own(t.right) && Own(t) !! Rim(c)
      ensures var u := Bin(t.left, subst, key, t.red, t.right);
              (subst != sentinel ==> Fits(c, u, sentinel)) && All(c, u) == All(c, t) - {node} + {subst}
    {
    }

    lemma NestTop(inner: Hole, c: Hole, t: Shape, s: Shape)
      requires t.Bin? && s.Bin?
      ensures var d := Exchanged(c, t, inner, s);
              && !d.Top? && d.node == (if inner.Top? then s.node else inner.node)
              && Plug(d, s.right) == Plug(c, Bin(t.left, s.node, s.key, t.red, Plug(inner, s.right)))
    {
      PlugNest(inner, InRight(t.left, s.node, s.key, t.red, c), s.right);
    }

    /** The leftmost node of the right subtree leaves its place to its right child and takes over
        the place, the links and the colour of `node`. */
    method SpliceMin(node: Node, subst: Node, temp: Node, ghost c: Hole, ghost t: Shape, ghost inner: Hole,
            ghost s: Shape)
      requires Focus(c, t, node) && t.Bin? && t.left.Bin?
      requires s.Bin? && s.left.Nil? && subst == s.node && t.right == Plug(inner, s) && Before(inner) == []
      requires Focus(Nest(inner, DownRight(c, t)), s, subst) && temp == subst.right
      modifies this`root, All(c, t), sentinel`parent
      ensures Focus(Exchanged(c, t, inner, s), s.right, temp)
      ensures All(Exchanged(c, t, inner, s), s.right) == All(c, t) - {node} && node in All(c, t)
    {
      hide Own, Rim, IsTree, IsHole, Fits, Focus, Loosened, Plug, Nest, Exchanged, Before;
      MinFacts(node, subst, c, t, inner, s);
      MinParts(subst, Nest(inner, DownRight(c, t)), s);
      ghost var q := TakeMin(node, subst, temp, c, t, inner, s);
      ghost var rest := Plug(inner, s.right);
      TakeOver(node, subst, q, c, t.(right := rest), s.key);
      FocusWhole(c, Bin(t.left, subst, s.key, t.red, rest), subst);
      NestTop(inner, c, t, s);
      FocusPart(Exchanged(c, t, inner, s), s.right, temp);
    }

    /** The root gives its place to its only child, whose parent pointer is left as it is. */
    method ReplaceRoot(node: Node, temp: Node, ghost t: Shape)
      requires Focus(Top, t, node) && t.Bin? && !sentinel.red && IsRbTree(t)
      requires if t.left.Nil? then temp == node.right else t.right.Nil? && temp == node.left
      modifies this`root, this`shape, All(Top, t), sentinel`red
      ensures Valid() && Nodes(shape) == All(Top, t) - {node}
      ensures shape == Painted(if t.left.Nil? then t.right else t.left, false)
    {
      Open(Top, t, node, node.parent, sentinel);
      ghost var s := if t.left.Nil? then t.right else t.left;
      ghost var d := if t.left.Nil? then DownRight(Top, t) else DownLeft(Top, t);
      Open(d, s, temp, node, sentinel);
      UnlinkRb(Top, t);
      root := temp;
      assert Focus(Top, s, temp);
      Paint(temp, false, Top, s);
      shape := Painted(s, false);
      AllAtTop(shape);
      AllAtTop(s);
    }

    /** What the deletion sees first. */
    lemma Start(node: Node) returns (c: Hole, t: Shape)
      requires Valid() && node in Nodes(shape)
      ensures t.Bin? && Focus(c, t, node) && Plug(c, t) == shape && All(c, t) == Nodes(shape)
      ensures c.Top? <==> node == root
      ensures node == t.node && KeyOf(node) == t.key && node.red == t.red && node in All(c, t)
      ensures node.left != null && (node.left == sentinel <==> t.left.Nil?)
      ensures node.right != null && (node.right == sentinel <==> t.right.Nil?)
      ensures t.right.Bin? ==> node.right == t.right.node && Focus(DownRight(c, t), t.right, node.right)
      ensures Inorder(shape) == Before(c) + Inorder(t.left) + [Entry(t.node, t.key)] + (Inorder(t.right) + After(c))
    {
      AllAtTop(shape);
      c, t := Locate(Top, shape, root, node);
      GoLeft(c, t, node);
      GoRight(c, t, node);
      FocusTop(c, t, node);
      PlugInorder(c, t);
      Regroup(Before(c), Inorder(t.left), [Entry(t.node, t.key)], Inorder(t.right), After(c));
    }

    /** Deletion of a node with at most one child. */
    method DeleteSingle(node: Node, temp: Node, ghost c: Hole, ghost t: Shape)
      requires Focus(c, t, node) && t.Bin? && !sentinel.red && IsRbTree(Plug(c, t)) && node == t.node
      requires if t.left.Nil? then temp == node.right else t.right.Nil? && temp == node.left
      modifies this`root, this`shape, All(c, t), sentinel
      ensures Valid() && Nodes(shape) == All(c, t) - {node}
      ensures Inorder(shape) == Before(c) + Inorder(t.left) + (Inorder(t.right) + After(c))
      ensures node.left == null && node.right == null && node.parent == null && node.key == 0
    {
      FocusTop(c, t, node);
      SingleInorder(c, t);
      if node == root {
        ReplaceRoot(node, temp, t);
        node.left := null;
        node.right := null;
        node.parent := null;
        node.key := 0;
        return;
      }
      SpliceOut(node, temp, c, t);
    }

    method SpliceOut(node: Node, temp: Node, ghost c: Hole, ghost t: Shape)
      requires Focus(c, t, node) && t.Bin? && !sentinel.red && IsRbTree(Plug(c, t)) && node == t.node && !c.Top?
      requires if t.left.Nil? then temp == node.right else t.right.Nil? && temp == node.left
      modifies this`root, this`shape, All(c, t), sentinel
      ensures Valid() && Nodes(shape) == All(c, t) - {node}
      ensures Inorder(shape) == Inorder(Plug(c, if t.left.Nil? then t.right else t.left))
      ensures node.left == null && node.right == null && node.parent == null && node.key == 0
    {
      UnlinkRb(c, t);
      GoLeft(c, t, node);
      GoRight(c, t, node);
      hide Own, Rim, IsTree, IsHole, Fits, Focus, Inorder, Plug, CtxRb, Rb, Deficit, Distinct, Linked, Nodes, All;
      ghost var s := if t.left.Nil? then t.right else t.left;
      var red := node.red;
      SpliceSelf(node, temp, c, t);
      Detach(node, temp, c, s);
      Restore(red, temp, c, s);
    }

    /** Deletion of a node with two children, by way of its successor. */
    method DeleteDouble(node: Node, subst: Node, ghost c: Hole, ghost t: Shape, ghost inner: Hole, ghost s: Shape)
      requires Focus(c, t, node) && t.Bin? && !sentinel.red && IsRbTree(Plug(c, t)) && node == t.node
      requires s.Bin? && s.left.Nil? && subst == s.node && t.right == Plug(inner, s) && Before(inner) == []
      requires Focus(Nest(inner, DownRight(c, t)), s, subst) && t.left.Bin?
      modifies this`root, this`shape, All(c, t), sentinel
      ensures Valid() && Nodes(shape) == All(c, t) - {node}
      ensures Inorder(shape) == Inorder(Plug(Exchanged(c, t, inner, s), s.right))
      ensures node.left == null && node.right == null && node.parent == null && node.key == 0
    {
      hide Own, Rim, IsTree, IsHole, Fits, Focus, Inorder, Before, Plug, CtxRb, Rb, Deficit, Distinct, Linked, Nodes,
          Exchanged, All, Valid;
      ExchangedRb(c, t, inner, s);
      NodeFacts(c, t, node);
      SubstFacts(Nest(inner, DownRight(c, t)), s, subst);
      ghost var d := Exchanged(c, t, inner, s);
      var temp := OnlyChild(subst);
      var red := subst.red;
      SpliceMin(node, subst, temp, c, t, inner, s);
      NodeElsewhere(d, s.right, temp, node);
      Detach(node, temp, d, s.right);
      Restore(red, temp, d, s.right);
    }

    lemma NodeFacts(c: Hole, t: Shape, n: Node)
      requires Focus(c, t, n) && t.Bin?
      ensures n != sentinel && n in All(c, t) && sentinel !in All(c, t)
    {
      hide IsHole;
    }

    lemma NodeElsewhere(c: Hole, t: Shape, n: Node, other: Node)
      requires Focus(c, t, n) && other !in All(c, t) && other != sentinel
      ensures other != n
    {
      hide IsHole;
    }

    lemma SubstFacts(c: Hole, t: Shape, n: Node)
      requires Focus(c, t, n) && t.Bin? && t.left.Nil?
      ensures n.left == sentinel && n.right != null && n.red == t.red
    {
      GoLeft(c, t, n);
      GoRight(c, t, n);
    }

    function OnlyChild(subst: Node): Node
      requires subst.left != null && subst.right != null
      reads this, subst
    {
      if subst.left != sentinel then subst.left else subst.right
    }

    /** Wipe the links and the key of a node that is out of the tree. */
    method Detach(node: Node, temp: Node, ghost c: Hole, ghost t: Shape)
      requires Focus(c, t, temp) && node !in All(c, t) && node != temp
      modifies node
      ensures Focus(c, t, temp)
      ensures node.left == null && node.right == null && node.parent == null && node.key == 0
    {
      node.left := null;
      node.right := null;
      node.parent := null;
      node.key := 0;
    }

    lemma SingleInorder(c: Hole, t: Shape)
      requires t.Bin? && (t.left.Nil? || t.right.Nil?)
      ensures var s := if t.left.Nil? then t.right else t.left;
              Inorder(Plug(c, s)) == Before(c) + Inorder(t.left) + (Inorder(t.right) + After(c))
      ensures c.Top? ==> Before(c) == [] && After(c) == []
    {
      var s := if t.left.Nil? then t.right else t.left;
      PlugInorder(c, s);
      assert Before(c) + Inorder(s) + After(c) == Before(c) + Inorder(t.left) + (Inorder(t.right) + After(c));
    }

    /** Only the loss of a black node has to be made up for. */
    method Restore(red: bool, temp: Node, ghost c: Hole, ghost t: Shape)
      requires Focus(c, t, temp) && !sentinel.red
      requires if red then IsRbTree(Plug(c, t)) else Deficit(t, 0) && CtxRb(c, 1)
      modifies this`root, this`shape, All(c, t), sentinel`red
      ensures Valid() && Inorder(shape) == Inorder(Plug(c, t)) && Nodes(shape) == All(c, t)
    {
      if red {
        Conclude(temp, c, t);
        return;
      }
      Fixup(temp, c, t, 0);
    }

    ghost method Conclude(n: Node, c: Hole, t: Shape)
      requires Focus(c, t, n) && IsRbTree(Plug(c, t)) && !sentinel.red
      modifies this`shape
      ensures Valid() && shape == Plug(c, t) && Nodes(shape) == All(c, t)
    {
      FocusWhole(c, t, n);
      shape := Plug(c, t);
      AllAtTop(shape);
    }

    /** The node leaves the in-order sequence and nothing else changes. */
    method Delete(node: Node)
      requires Valid() && node in Nodes(shape)
      modifies this`root, this`shape, Nodes(shape), sentinel
      ensures Valid() && Nodes(shape) == old(Nodes(shape)) - {node}
      ensures InsertedOnce(Inorder(shape), old(Inorder(shape)), Entry(node, old(KeyOf(node))))
      ensures old(Sorted(insert, Inorder(shape))) ==> Sorted(insert, Inorder(shape))
      ensures node.left == null && node.right == null && node.parent == null && node.key == 0
    {
      ghost var was, rb := Inorder(shape), shape;
      ghost var c, t := Start(node);
      ghost var b, a := Before(c) + Inorder(t.left), Inorder(t.right) + After(c);
      ghost var e := Entry(node, KeyOf(node));
      if node.left == sentinel {
        DeleteSingle(node, node.right, c, t);
      } else if node.right == sentinel {
        DeleteSingle(node, node.left, c, t);
      } else {
        ghost var inner, s;
        var subst;
        assert allocated(Own(t)) && allocated(Rim(c));
        subst, inner, s := Min(node.right, DownRight(c, t), t.right);
        DeleteDouble(node, subst, c, t, inner, s);
        ExchangedInorder(c, t, inner, s);
      }
      Removed(insert, b, e, a);
    }

    // ----- walking and searching

    /** The node that comes next in order, or null after the last one. */
    method Next(start: Node) returns (next: Node?)
      requires Valid() && start in Nodes(shape)
      ensures IsNext(Inorder(shape), start, next)
      ensures next != null && Sorted(insert, Inorder(shape)) ==>
                NotBefore(insert, Inorder(shape)[0].key, KeyOf(start), KeyOf(next))
    {
      EntryKeys(shape, root, root.parent, sentinel);
      ghost var was := Inorder(shape);
      assert allocated(was);
      next := Successor(start);
      forall e | e in was
        ensures KeyOf(e.node) == e.key
      {
        assert allocated(e);
      }
      NextLater(insert, was, start, next);
    }

    method Successor(start: Node) returns (next: Node?)
      requires Valid() && start in Nodes(shape)
      ensures IsNext(Inorder(shape), start, next)
    {
      ghost var c, t := Start(start);
      if start.right != sentinel {
        ghost var inner, s;
        next, inner, s := Min(start.right, DownRight(c, t), t.right);
        InorderOfLeftmost(inner, s);
        assert NextAt(Inorder(shape), |Before(c) + Inorder(t.left)|, start, next);
        return;
      }
      var node: Node := start;
      assert LastIs(Inorder(t), start) by {
        assert Inorder(t) == Inorder(t.left) + [Entry(start, t.key)];
      }
      while true
        invariant t.Bin? && Focus(c, t, node) && Plug(c, t) == shape && LastIs(Inorder(t), start)
        decreases c.Depth()
      {
        var parent := node.parent;
        FocusTop(c, t, node);
        AfterLast(c, t, start);
        if node == root {
          return null;
        }
        GoUp(c, t, node);
        if node == parent.left {
          return parent;
        }
        node := parent;
        c, t := c.up, Up(c, t);
      }
    }

    /** The node that holds the string `val` under its hash, or null if there is none. */
    method Lookup(val: seq<byte>, hash: word) returns (r: Node?)
      requires Valid() && insert.ByString? && Sorted(insert, Inorder(shape))
      ensures r != null ==> r in Nodes(shape) && r.key == hash && r.str == val
      ensures r == null <==> forall e <- Inorder(shape) :: e.key != Key(hash, val)
    {
      var node: Node := root;
      ghost var c, t: Shape, key := Top, shape, Key(hash, val);
      AllAtTop(shape);
      assert root == sentinel <==> shape.Nil?;
      while node != sentinel
        invariant if t.Bin? then Focus(c, t, node) else node == sentinel
        invariant Plug(c, t) == shape && All(c, t) == Own(shape) && Searched(insert, c, key)
        decreases t
      {
        GoLeft(c, t, node);
        GoRight(c, t, node);
        if hash != node.key {
          if hash < node.key {
            node, c, t := node.left, DownLeft(c, t), t.left;
          } else {
            node, c, t := node.right, DownRight(c, t), t.right;
          }
          continue;
        }
        if |val| != |node.str| {
          if |val| < |node.str| {
            node, c, t := node.left, DownLeft(c, t), t.left;
          } else {
            node, c, t := node.right, DownRight(c, t), t.right;
          }
          continue;
        }
        var rc := Memcmp(val, node.str);
        MemcmpAntisymmetric(val, node.str);
        if rc < 0 {
          node, c, t := node.left, DownLeft(c, t), t.left;
          continue;
        }
        if rc > 0 {
          node, c, t := node.right, DownRight(c, t), t.right;
          continue;
        }
        Found(c, t, node, key);
        return node;
      }
      PlugInorder(c, t);
      SearchedMisses(insert, c, t, key, Inorder(shape));
      return null;
    }

    lemma Found(c: Hole, t: Shape, n: Node, key: Key)
      requires t.Bin? && t.node == n && t.key == key && Plug(c, t) == shape
      ensures Entry(n, key) in Inorder(shape)
    {
      PlugInorder(c, t);
      assert Inorder(t)[|Inorder(t.left)|] == Entry(n, key);
      assert Inorder(shape)[|Before(c)| + |Inorder(t.left)|] == Entry(n, key);
    }
  }

  /** The entries of a tree have the keys of their nodes. */
  lemma {:induction false} EntryKeys(t: Shape, n: Node?, parent: Node?, nil: Node)
    requires Linked(t, n, parent, nil)
    ensures forall e <- Inorder(t) :: KeyOf(e.node) == e.key
  {
    if t.Bin? {
      EntryKeys(t.left, t.node.left, t.node, nil);
      EntryKeys(t.right, t.node.right, t.node, nil);
    }
  }

  /** In a sorted tree the next node has no earlier key. */
  lemma NextLater(o: Order, s: seq<Entry<Node>>, start: Node, next: Node?)
    requires IsNext(s, start, next) && forall e <- s :: KeyOf(e.node) == e.key
    ensures next != null && Sorted(o, s) ==> NotBefore(o, s[0].key, KeyOf(start), KeyOf(next))
  {
    var i :| NextAt(s, i, start, next);
    SortedMeans(o, s);
    hide Sorted, NotBefore;
    assert s[i] in s && (next != null ==> s[i + 1] in s);
  }

  ghost predicate LastIs(s: seq<Entry<Node>>, n: Node) { s != [] && s[|s| - 1].node == n }

  ghost predicate IsNext(s: seq<Entry<Node>>, n: Node, next: Node?) {
    exists i :: NextAt(s, i, n, next)
  }

  ghost predicate NextAt(s: seq<Entry<Node>>, i: int, n: Node, next: Node?) {
    0 <= i < |s| && s[i].node == n && (if i + 1 < |s| then next == s[i + 1].node else next == null)
  }

  /** What follows the last node of a part of the tree. */
  lemma AfterLast(c: Hole, t: Shape, n: Node)
    requires LastIs(Inorder(t), n)
    ensures c.Top? ==> IsNext(Inorder(Plug(c, t)), n, null)
    ensures c.InLeft? ==> IsNext(Inorder(Plug(c, t)), n, c.node)
    ensures c.InRight? ==> LastIs(Inorder(Up(c, t)), n)
  {
    PlugInorder(c, t);
    var i := |Before(c)| + |Inorder(t)| - 1;
    var s := Before(c) + Inorder(t) + After(c);
    assert s[i].node == n;
    if c.Top? {
      assert NextAt(s, i, n, null);
    } else if c.InLeft? {
      assert s[i + 1] == After(c)[0];
      assert NextAt(s, i, n, c.node);
    }
  }

  lemma Added(o: Order, c: Hole, node: Node, key: Key)
    requires Follows(o, c, key)
    ensures var was, now := Inorder(Plug(c, Nil)), Inorder(Plug(c, Bin(Nil, node, key, true, Nil)));
            && InsertedOnce(was, now, Entry(node, key))
            && (Sorted(o, now) <==> Sorted(o, was) && Coherent(o, Keys(was) + {key}))
  {
    hide Sorted, Coherent, Follows, Keys;
    var leaf := Bin(Nil, node, key, true, Nil);
    PlugInorder(c, Nil);
    PlugInorder(c, leaf);
    var b, a, e := Before(c), After(c), Entry(node, key);
    assert Inorder(leaf) == [e] && Inorder(Plug(c, Nil)) == b + a;
    assert (b + a)[..|b|] == b && (b + a)[|b|..] == a;
    AddedSorted(o, c, e);
  }

  lemma AddedSorted(o: Order, c: Hole, e: Entry<Node>)
    requires Follows(o, c, e.key)
    ensures var was, now := Before(c) + After(c), Before(c) + [e] + After(c);
            Sorted(o, now) <==> Sorted(o, was) && Coherent(o, Keys(was) + {e.key})
  {
    hide Sorted, Keys, Follows;
    var b, a := Before(c), After(c);
    if Sorted(o, b + [e] + a) {
      RemoveKeepsSorted(o, b, e, a);
      KeysBetween(b, e, a);
      if o.ByTimer? {
        SortedTimers(b + [e] + a);
      }
    }
    if Sorted(o, b + a) && Coherent(o, Keys(b + a) + {e.key}) {
      InsertKeepsSorted(o, c, e);
    }
  }

  lemma Removed(o: Order, b: seq<Entry<Node>>, e: Entry<Node>, a: seq<Entry<Node>>)
    ensures InsertedOnce(b + a, b + [e] + a, e)
    ensures Sorted(o, b + [e] + a) ==> Sorted(o, b + a)
  {
    assert (b + a)[..|b|] == b && (b + a)[|b|..] == a;
    if Sorted(o, b + [e] + a) {
      RemoveKeepsSorted(o, b, e, a);
    }
  }

  ghost predicate InsertedOnce<T>(was: seq<T>, now: seq<T>, e: T) {
    exists i :: 0 <= i <= |was| && now == was[..i] + [e] + was[i..]
  }

  function KeyOf(n: Node): Key
    reads n
  {
    Key(n.key, n.str)
  }

  // ----- the timer order without a window

  /** A new timer is put in the tree. */
  method PutTimer(tree: RbTree, num: word)
    requires tree.Valid() && tree.insert == ByTimer
    modifies tree, Nodes(tree.shape)
    ensures tree.Valid() && fresh(Nodes(tree.shape) - old(Nodes(tree.shape)))
    ensures Keys(Inorder(tree.shape)) == old(Keys(Inorder(tree.shape))) + {Key(num, [])}
    ensures Sorted(ByTimer, Inorder(tree.shape)) ==> Coherent(ByTimer, Keys(Inorder(tree.shape)))
  {
    hide Sorted, Coherent, Keys, InsertedOnce;
    assert allocated(Nodes(tree.shape));
    var node := new Node(num, []);
    ghost var was := Inorder(tree.shape);
    tree.Insert(node);
    KeysOnce(was, Inorder(tree.shape), Entry(node, Key(num, [])));
  }

  /** Three timers spread over the whole key range are put in a new tree, which is unsorted then. */
  method TimersUnsorted() returns (tree: RbTree)
    ensures fresh(tree) && tree.Valid() && tree.insert == ByTimer && !Sorted(ByTimer, Inorder(tree.shape))
  {
    hide Sorted, Coherent, Keys, Windowed;
    var sentinel := new Node(0, []);
    tree := new RbTree.Init(sentinel, ByTimer);
    NoKeys(Inorder(tree.shape));
    PutTimer(tree, 0);
    PutTimer(tree, 0x6000_0000_0000_0000);
    PutTimer(tree, 0xC000_0000_0000_0000);
    assert Keys(Inorder(tree.shape)) ==
           {Key(0, []), Key(0x6000_0000_0000_0000, []), Key(0xC000_0000_0000_0000, [])};
    TimerOrderNeedsWindow();
    NotCoherent(Keys(Inorder(tree.shape)));
  }

  lemma NoKeys(s: seq<Entry<Node>>)
    requires s == []
    ensures Keys(s) == {}
  {
  }

  lemma NotCoherent(ks: set<Key>)
    ensures Coherent(ByTimer, ks) ==> Windowed(ks)
  {
    hide Windowed;
  }

  lemma KeysOnce(was: seq<Entry<Node>>, now: seq<Entry<Node>>, e: Entry<Node>)
    requires InsertedOnce(was, now, e)
    ensures Keys(now) == Keys(was) + {e.key}
  {
    hide Keys;
    var i :| 0 <= i <= |was| && now == was[..i] + [e] + was[i..];
    KeysBetween(was[..i], e, was[i..]);
    assert was[..i] + was[i..] == was;
  }
}
