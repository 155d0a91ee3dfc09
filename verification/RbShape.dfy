/** Red-black trees as values: shapes, zippers and the laws the in-place code of
    `RbTree.dfy` is proved against.

    A shape carries, for every node, the identity of the node together with the key and
    the colour stored in it, so that a shape determines every field of every node but the
    parent pointer of its root. */
module RbShape {
  import opened Words
  import opened Arith
  import opened Bits

  /** What a node is ordered by: its numeric key and, in string trees, its string. */
  datatype Key = Key(num: word, str: seq<byte>)

  datatype Tree<N> =
    | Nil
    | Bin(left: Tree<N>, node: N, key: Key, red: bool, right: Tree<N>)
  {
    predicate IsRed() { Bin? && red }

    function Blacken(): Tree<N> { if Bin? then this.(red := false) else this }

    function Redden(): Tree<N> { if Bin? then this.(red := true) else this }
  }

  /** A shape with a hole, read from the hole outwards. */
  datatype Ctx<N> =
    | Top
    | InLeft(up: Ctx<N>, node: N, key: Key, red: bool, right: Tree<N>)
    | InRight(left: Tree<N>, node: N, key: Key, red: bool, up: Ctx<N>)
  {
    predicate IsRed() { !Top? && red }

    function Depth(): nat { if Top? then 0 else 1 + up.Depth() }
  }

  datatype Entry<N> = Entry(node: N, key: Key)

  function Plug<N>(c: Ctx<N>, t: Tree<N>): Tree<N> {
    match c
    case Top => t
    case InLeft(up, x, k, red, r) => Plug(up, Bin(t, x, k, red, r))
    case InRight(l, x, k, red, up) => Plug(up, Bin(l, x, k, red, t))
  }

  lemma {:induction false} PlugIsBin<N>(c: Ctx<N>, t: Tree<N>)
    ensures Plug(c, t).Bin? <==> t.Bin? || !c.Top?
  {
    match c
    case Top =>
    case InLeft(up, x, k, red, r) => PlugIsBin(up, Bin(t, x, k, red, r));
    case InRight(l, x, k, red, up) => PlugIsBin(up, Bin(l, x, k, red, t));
  }

  // Moving the hole: a shape and its context stay two halves of the same tree.

  function Up<N>(c: Ctx<N>, t: Tree<N>): (s: Tree<N>)
    requires !c.Top?
    ensures Plug(c.up, s) == Plug(c, t)
  {
    if c.InLeft? then Bin(t, c.node, c.key, c.red, c.right) else Bin(c.left, c.node, c.key, c.red, t)
  }

  function DownLeft<N>(c: Ctx<N>, t: Tree<N>): (d: Ctx<N>)
    requires t.Bin?
    ensures Plug(d, t.left) == Plug(c, t)
  {
    InLeft(c, t.node, t.key, t.red, t.right)
  }

  function DownRight<N>(c: Ctx<N>, t: Tree<N>): (d: Ctx<N>)
    requires t.Bin?
    ensures Plug(d, t.right) == Plug(c, t)
  {
    InRight(t.left, t.node, t.key, t.red, c)
  }

  /** `inner` nested in the hole of `outer`. */
  function Nest<N>(inner: Ctx<N>, outer: Ctx<N>): Ctx<N> {
    match inner
    case Top => outer
    case InLeft(up, x, k, red, r) => InLeft(Nest(up, outer), x, k, red, r)
    case InRight(l, x, k, red, up) => InRight(l, x, k, red, Nest(up, outer))
  }

  lemma {:induction false} PlugNest<N>(inner: Ctx<N>, outer: Ctx<N>, t: Tree<N>)
    ensures Plug(Nest(inner, outer), t) == Plug(outer, Plug(inner, t))
  {
    match inner
    case Top =>
    case InLeft(up, x, k, red, r) => PlugNest(up, outer, Bin(t, x, k, red, r));
    case InRight(l, x, k, red, up) => PlugNest(up, outer, Bin(l, x, k, red, t));
  }

  // ----- nodes and distinctness

  ghost function Nodes<N>(t: Tree<N>): set<N> {
    match t
    case Nil => {}
    case Bin(l, x, _, _, r) => Nodes(l) + {x} + Nodes(r)
  }

  ghost function CtxNodes<N>(c: Ctx<N>): set<N> {
    match c
    case Top => {}
    case InLeft(up, x, _, _, r) => CtxNodes(up) + {x} + Nodes(r)
    case InRight(l, x, _, _, up) => CtxNodes(up) + {x} + Nodes(l)
  }

  ghost predicate Distinct<N>(t: Tree<N>) {
    match t
    case Nil => true
    case Bin(l, x, _, _, r) =>
      Distinct(l) && Distinct(r) && Nodes(l) !! Nodes(r) && x !in Nodes(l) && x !in Nodes(r)
  }

  ghost predicate CtxDistinct<N>(c: Ctx<N>) {
    match c
    case Top => true
    case InLeft(up, x, _, _, r) =>
      CtxDistinct(up) && Distinct(r) && CtxNodes(up) !! Nodes(r) && x !in CtxNodes(up) && x !in Nodes(r)
    case InRight(l, x, _, _, up) =>
      CtxDistinct(up) && Distinct(l) && CtxNodes(up) !! Nodes(l) && x !in CtxNodes(up) && x !in Nodes(l)
  }

  ghost predicate Apart<N>(c: Ctx<N>, t: Tree<N>) {
    CtxDistinct(c) && Distinct(t) && CtxNodes(c) !! Nodes(t)
  }

  lemma {:induction false} PlugNodes<N>(c: Ctx<N>, t: Tree<N>)
    ensures Nodes(Plug(c, t)) == CtxNodes(c) + Nodes(t)
    ensures Distinct(Plug(c, t)) <==> Apart(c, t)
  {
    match c
    case Top =>
    case InLeft(up, x, k, red, r) => PlugNodes(up, Bin(t, x, k, red, r));
    case InRight(l, x, k, red, up) => PlugNodes(up, Bin(l, x, k, red, t));
  }

  lemma {:induction false} NestNodes<N>(inner: Ctx<N>, outer: Ctx<N>)
    ensures CtxNodes(Nest(inner, outer)) == CtxNodes(inner) + CtxNodes(outer)
    ensures CtxDistinct(Nest(inner, outer)) <==>
              CtxDistinct(inner) && CtxDistinct(outer) && CtxNodes(inner) !! CtxNodes(outer)
  {
    match inner
    case Top =>
    case InLeft(up, _, _, _, _) => NestNodes(up, outer);
    case InRight(_, _, _, _, up) => NestNodes(up, outer);
  }

  // ----- in-order sequences

  function Inorder<N>(t: Tree<N>): seq<Entry<N>> {
    match t
    case Nil => []
    case Bin(l, x, k, _, r) => Inorder(l) + [Entry(x, k)] + Inorder(r)
  }

  /** What precedes the hole in order. */
  function Before<N>(c: Ctx<N>): seq<Entry<N>> {
    match c
    case Top => []
    case InLeft(up, _, _, _, _) => Before(up)
    case InRight(l, x, k, _, up) => Before(up) + Inorder(l) + [Entry(x, k)]
  }

  /** What follows the hole in order. */
  function After<N>(c: Ctx<N>): seq<Entry<N>> {
    match c
    case Top => []
    case InLeft(up, x, k, _, r) => [Entry(x, k)] + Inorder(r) + After(up)
    case InRight(_, _, _, _, up) => After(up)
  }

  lemma {:induction false} PlugInorder<N>(c: Ctx<N>, t: Tree<N>)
    ensures Inorder(Plug(c, t)) == Before(c) + Inorder(t) + After(c)
  {
    match c
    case Top =>
      assert [] + Inorder(t) + [] == Inorder(t);
    case InLeft(up, x, k, red, r) =>
      PlugInorder(up, Bin(t, x, k, red, r));
      Regroup(Before(up), Inorder(t), [Entry(x, k)], Inorder(r), After(up));
    case InRight(l, x, k, red, up) =>
      PlugInorder(up, Bin(l, x, k, red, t));
      Regroup(Before(up), Inorder(l), [Entry(x, k)], Inorder(t), After(up));
  }

  lemma Regroup<T>(a: seq<T>, b: seq<T>, c: seq<T>, d: seq<T>, e: seq<T>)
    ensures a + (b + c + d) + e == (a + b) + c + (d + e)
    ensures a + b + (c + d + e) == (a + b) + c + (d + e)
    ensures a + b + c + d + e == (a + b) + c + (d + e)
  {
  }

  lemma {:induction false} NestInorder<N>(inner: Ctx<N>, outer: Ctx<N>)
    ensures Before(Nest(inner, outer)) == Before(outer) + Before(inner)
    ensures After(Nest(inner, outer)) == After(inner) + After(outer)
  {
    match inner
    case Top =>
      assert Before(outer) + [] == Before(outer);
      assert [] + After(outer) == After(outer);
    case InLeft(up, x, k, _, r) =>
      NestInorder(up, outer);
      assert [Entry(x, k)] + Inorder(r) + (After(up) + After(outer))
          == ([Entry(x, k)] + Inorder(r) + After(up)) + After(outer);
    case InRight(l, x, k, _, up) =>
      NestInorder(up, outer);
      assert (Before(outer) + Before(up)) + Inorder(l) + [Entry(x, k)]
          == Before(outer) + (Before(up) + Inorder(l) + [Entry(x, k)]);
  }

  lemma {:induction false} InorderNodes<N>(t: Tree<N>)
    ensures forall e <- Inorder(t) :: e.node in Nodes(t)
    ensures forall n <- Nodes(t) :: exists e :: e in Inorder(t) && e.node == n
  {
    match t
    case Nil =>
    case Bin(l, x, k, red, r) =>
      InorderNodes(l);
      InorderNodes(r);
      assert Entry(x, k) in Inorder(t);
      forall n | n in Nodes(t)
        ensures exists e :: e in Inorder(t) && e.node == n
      {
        if n in Nodes(l) {
          var e :| e in Inorder(l) && e.node == n;
          assert e in Inorder(t);
        } else if n in Nodes(r) {
          var e :| e in Inorder(r) && e.node == n;
          assert e in Inorder(t);
        }
      }
  }

  // ----- rotations

  function LeftRotated<N>(t: Tree<N>): Tree<N>
    requires t.Bin? && t.right.Bin?
  {
    Bin(Bin(t.left, t.node, t.key, t.red, t.right.left),
        t.right.node, t.right.key, t.right.red, t.right.right)
  }

  function RightRotated<N>(t: Tree<N>): Tree<N>
    requires t.Bin? && t.left.Bin?
  {
    Bin(t.left.left, t.left.node, t.left.key, t.left.red,
        Bin(t.left.right, t.node, t.key, t.red, t.right))
  }

  lemma LeftRotatedKeeps<N>(t: Tree<N>)
    requires t.Bin? && t.right.Bin?
    ensures Inorder(LeftRotated(t)) == Inorder(t)
    ensures Nodes(LeftRotated(t)) == Nodes(t) && Distinct(LeftRotated(t)) == Distinct(t)
  {
    var r := t.right;
    assert (Inorder(t.left) + [Entry(t.node, t.key)] + Inorder(r.left)) + [Entry(r.node, r.key)] + Inorder(r.right)
        == Inorder(t.left) + [Entry(t.node, t.key)] + (Inorder(r.left) + [Entry(r.node, r.key)] + Inorder(r.right));
  }

  lemma RightRotatedKeeps<N>(t: Tree<N>)
    requires t.Bin? && t.left.Bin?
    ensures Inorder(RightRotated(t)) == Inorder(t)
    ensures Nodes(RightRotated(t)) == Nodes(t) && Distinct(RightRotated(t)) == Distinct(t)
  {
    var l := t.left;
    assert (Inorder(l.left) + [Entry(l.node, l.key)] + Inorder(l.right)) + [Entry(t.node, t.key)] + Inorder(t.right)
        == Inorder(l.left) + [Entry(l.node, l.key)] + (Inorder(l.right) + [Entry(t.node, t.key)] + Inorder(t.right));
  }

  // ----- the red-black discipline

  /** A shape whose black height is `h` and in which no red node has a red child. */
  predicate Rb<N>(t: Tree<N>, h: nat) {
    match t
    case Nil => h == 0
    case Bin(l, _, _, red, r) =>
      if red then !l.IsRed() && !r.IsRed() && Rb(l, h) && Rb(r, h)
      else h > 0 && Rb(l, h - 1) && Rb(r, h - 1)
  }

  /** A context that a shape of black height `h` completes to a red-black tree with a black
      root, provided the shape is black where the context demands it. */
  predicate CtxRb<N>(c: Ctx<N>, h: nat) {
    match c
    case Top => true
    case InLeft(up, _, _, red, r) =>
      Rb(r, h) &&
      (if red then !r.IsRed() && !up.Top? && !up.IsRed() && CtxRb(up, h) else CtxRb(up, h + 1))
    case InRight(l, _, _, red, up) =>
      Rb(l, h) &&
      (if red then !l.IsRed() && !up.Top? && !up.IsRed() && CtxRb(up, h) else CtxRb(up, h + 1))
  }

  /** The whole discipline: some black height, and a black root. */
  ghost predicate IsRbTree<N>(t: Tree<N>) {
    !t.IsRed() && exists h: nat :: Rb(t, h)
  }

  lemma {:induction false} PlugRb<N>(c: Ctx<N>, t: Tree<N>, h: nat)
    requires Rb(t, h) && CtxRb(c, h)
    requires t.IsRed() ==> !c.Top? && !c.IsRed()
    ensures IsRbTree(Plug(c, t))
  {
    match c
    case Top =>
    case InLeft(up, x, k, red, r) =>
      PlugRb(up, Bin(t, x, k, red, r), if red then h else h + 1);
    case InRight(l, x, k, red, up) =>
      PlugRb(up, Bin(l, x, k, red, t), if red then h else h + 1);
  }

  /** The converse: cutting a red-black tree at a hole leaves a context and a shape that fit. */
  lemma {:induction false} UnplugRb<N>(c: Ctx<N>, t: Tree<N>) returns (h: nat)
    requires IsRbTree(Plug(c, t))
    ensures Rb(t, h) && CtxRb(c, h)
    ensures t.IsRed() ==> !c.Top? && !c.IsRed()
  {
    match c
    case Top =>
      h :| Rb(t, h);
    case InLeft(up, x, k, red, r) =>
      var g := UnplugRb(up, Bin(t, x, k, red, r));
      h := if red then g else g - 1;
    case InRight(l, x, k, red, up) =>
      var g := UnplugRb(up, Bin(l, x, k, red, t));
      h := if red then g else g - 1;
  }

  // ----- one step of the rebalancing after an insertion

  function Sibling<N>(c: Ctx<N>): Tree<N>
    requires !c.Top?
  {
    if c.InLeft? then c.right else c.left
  }

  function WithSibling<N>(c: Ctx<N>, s: Tree<N>): Ctx<N>
    requires !c.Top?
  {
    if c.InLeft? then c.(right := s) else c.(left := s)
  }

  function Uncle<N>(c: Ctx<N>): Tree<N>
    requires !c.Top? && !c.up.Top?
  {
    if c.up.InLeft? then c.up.right else c.up.left
  }

  /** The grandparent, red, above a black parent and a black uncle. */
  function PassedUp<N>(c: Ctx<N>, t: Tree<N>): Tree<N>
    requires !c.Top? && !c.up.Top?
  {
    var s := Up(c.up, Up(c, t).Blacken());
    if c.up.InLeft? then s.(right := s.right.Blacken(), red := true)
    else s.(left := s.left.Blacken(), red := true)
  }

  lemma PassedUpIs<N>(c: Ctx<N>, t: Tree<N>)
    requires !c.Top? && !c.up.Top? && Uncle(c).Bin?
    ensures PassedUp(c, t) == Up(WithSibling(c.up, Uncle(c).Blacken()), Up(c, t).Blacken()).Redden()
  {
  }

  lemma PassedUpRb<N>(c: Ctx<N>, t: Tree<N>, h: nat)
    requires Rb(t, h) && CtxRb(c, h) && t.IsRed() && c.IsRed() && Uncle(c).IsRed()
    ensures Rb(PassedUp(c, t), h + 1) && CtxRb(c.up.up, h + 1)
    ensures Inorder(Plug(c.up.up, PassedUp(c, t))) == Inorder(Plug(c, t))
  {
    PlugInorder(c.up.up, PassedUp(c, t));
    PlugInorder(c.up.up, Up(c.up, Up(c, t)));
    assert CtxRb(c.up, h);
    assert Rb(Up(c, t).Blacken(), h + 1);
    assert Rb(Uncle(c).Blacken(), h + 1);
  }

  lemma StraightRb<N>(c: Ctx<N>, t: Tree<N>, h: nat)
    requires Rb(t, h) && CtxRb(c, h) && t.IsRed() && c.IsRed() && !c.up.Top?
    ensures c.InRight? ==> var s := LeftRotated(Up(c, t));
              Rb(s.left, h) && CtxRb(DownLeft(c.up, s), h) && Inorder(Plug(c.up, s)) == Inorder(Plug(c, t))
    ensures c.InLeft? ==> var s := RightRotated(Up(c, t));
              Rb(s.right, h) && CtxRb(DownRight(c.up, s), h) && Inorder(Plug(c.up, s)) == Inorder(Plug(c, t))
  {
    if c.InRight? {
      LeftRotatedKeeps(Up(c, t));
      PlugInorder(c.up, LeftRotated(Up(c, t)));
    } else {
      RightRotatedKeeps(Up(c, t));
      PlugInorder(c.up, RightRotated(Up(c, t)));
    }
    PlugInorder(c.up, Up(c, t));
  }

  /** The context of `t` once its parent, now black, has been rotated above the grandparent. */
  function Lifted<N>(c: Ctx<N>, t: Tree<N>): Ctx<N>
    requires !c.Top? && !c.up.Top?
  {
    if c.InLeft? then
      var g := Bin(c.right, c.up.node, c.up.key, true, Uncle(c));
      InLeft(c.up.up, c.node, c.key, false, g)
    else
      var g := Bin(Uncle(c), c.up.node, c.up.key, true, c.left);
      InRight(g, c.node, c.key, false, c.up.up)
  }

  lemma LiftedRb<N>(c: Ctx<N>, t: Tree<N>, h: nat)
    requires Rb(t, h) && CtxRb(c, h) && c.IsRed() && !c.up.Top? && !Uncle(c).IsRed()
    requires c.InLeft? == c.up.InLeft?
    ensures CtxRb(Lifted(c, t), h) && Lifted(c, t).Depth() < c.Depth()
    ensures Inorder(Plug(Lifted(c, t), t)) == Inorder(Plug(c, t))
  {
    var d := Lifted(c, t);
    assert CtxRb(c.up, h);
    assert CtxRb(c.up.up, h + 1);
    PlugInorder(c.up.up, Up(d, t));
    PlugInorder(c.up.up, Up(c.up, Up(c, t)));
    var s := Up(c.up, Up(c, t));
    if c.InLeft? {
      RightRotatedKeeps(s);
      assert Inorder(RightRotated(s)) == Inorder(Up(d, t));
    } else {
      LeftRotatedKeeps(s);
      assert Inorder(LeftRotated(s)) == Inorder(Up(d, t));
    }
  }

  // ----- one step of the rebalancing after a deletion

  /** A shape one black node too short for a place of black height `h + 1`, unless its root is
      red and only has to be blackened. */
  predicate Deficit<N>(t: Tree<N>, h: nat) {
    if t.IsRed() then Rb(t.Blacken(), h + 1) else Rb(t, h)
  }

  /** The child of the sibling on the hole's side, and the one on the far side. */
  function Near<N>(c: Ctx<N>): Tree<N>
    requires !c.Top? && Sibling(c).Bin?
  {
    if c.InLeft? then c.right.left else c.left.right
  }

  function Far<N>(c: Ctx<N>): Tree<N>
    requires !c.Top? && Sibling(c).Bin?
  {
    if c.InLeft? then c.right.right else c.left.left
  }

  /** A rotation that lifts the side away from the hole. */
  function RotatedTowards<N>(left: bool, t: Tree<N>): Tree<N>
    requires t.Bin? && (if left then t.right.Bin? else t.left.Bin?)
  {
    if left then LeftRotated(t) else RightRotated(t)
  }

  lemma RotatedTowardsKeeps<N>(left: bool, t: Tree<N>)
    requires t.Bin? && (if left then t.right.Bin? else t.left.Bin?)
    ensures Inorder(RotatedTowards(left, t)) == Inorder(t)
  {
    if left { LeftRotatedKeeps(t); } else { RightRotatedKeeps(t); }
  }

  lemma PlugSameInorder<N>(c: Ctx<N>, t: Tree<N>, s: Tree<N>)
    requires Inorder(t) == Inorder(s)
    ensures Inorder(Plug(c, t)) == Inorder(Plug(c, s))
  {
    PlugInorder(c, t);
    PlugInorder(c, s);
  }

  /** A red sibling: it changes colours with the parent and is rotated above it. */
  function SiblingLifted<N>(c: Ctx<N>, t: Tree<N>): Tree<N>
    requires !c.Top? && Sibling(c).Bin?
  {
    RotatedTowards(c.InLeft?, Up(WithSibling(c, Sibling(c).Blacken()), t).Redden())
  }

  lemma SiblingLiftedRb<N>(c: Ctx<N>, t: Tree<N>, h: nat)
    requires Rb(t, h) && CtxRb(c, h + 1) && !c.Top? && Sibling(c).IsRed()
    ensures var s := SiblingLifted(c, t);
            var d := if c.InLeft? then DownLeft(DownLeft(c.up, s), s.left)
                     else DownRight(DownRight(c.up, s), s.right);
            && CtxRb(d, h + 1) && !Sibling(d).IsRed() && d.IsRed() && Plug(d, t) == Plug(c.up, s)
            && Inorder(Plug(d, t)) == Inorder(Plug(c, t))
  {
    var s := SiblingLifted(c, t);
    var u := Up(WithSibling(c, Sibling(c).Blacken()), t).Redden();
    RotatedTowardsKeeps(c.InLeft?, u);
    PlugSameInorder(c.up, s, Up(c, t));
    assert CtxRb(c.up, h + 2);
    assert Plug(if c.InLeft? then DownLeft(c.up, s) else DownRight(c.up, s),
                if c.InLeft? then s.left else s.right) == Plug(c.up, s);
  }

  /** A black sibling with black children turns red, which moves the deficit to the parent. */
  lemma SiblingReddenedRb<N>(c: Ctx<N>, t: Tree<N>, h: nat) returns (g: nat)
    requires Rb(t, h) && !t.IsRed() && CtxRb(c, h + 1) && !c.Top?
    requires !Sibling(c).IsRed() && !Near(c).IsRed() && !Far(c).IsRed()
    ensures var s := Up(WithSibling(c, Sibling(c).Redden()), t);
            Deficit(s, g) && CtxRb(c.up, g + 1) && s.red == c.red && Inorder(Plug(c.up, s)) == Inorder(Plug(c, t))
  {
    var s := Up(WithSibling(c, Sibling(c).Redden()), t);
    assert Rb(Sibling(c).Redden(), h);
    assert Inorder(Sibling(c).Redden()) == Inorder(Sibling(c));
    PlugSameInorder(c.up, s, Up(c, t));
    g := if c.red then h else h + 1;
  }

  /** A red near nephew is rotated above the sibling and takes its place. */
  function NephewLifted<N>(c: Ctx<N>): Tree<N>
    requires !c.Top? && Sibling(c).Bin? && Near(c).Bin?
  {
    var s := Sibling(c).Redden();
    RotatedTowards(!c.InLeft?, if c.InLeft? then s.(left := Near(c).Blacken()) else s.(right := Near(c).Blacken()))
  }

  lemma NephewLiftedRb<N>(c: Ctx<N>, t: Tree<N>, h: nat)
    requires Rb(t, h) && CtxRb(c, h + 1) && !c.Top?
    requires !Sibling(c).IsRed() && !Far(c).IsRed() && Near(c).IsRed()
    ensures var d := WithSibling(c, NephewLifted(c));
            && CtxRb(d, h + 1) && !Sibling(d).IsRed() && Far(d).IsRed()
            && Inorder(Plug(d, t)) == Inorder(Plug(c, t))
  {
    var d := WithSibling(c, NephewLifted(c));
    var s := Sibling(c).Redden();
    RotatedTowardsKeeps(!c.InLeft?, if c.InLeft? then s.(left := Near(c).Blacken())
        else s.(right := Near(c).Blacken()));
    assert Inorder(NephewLifted(c)) == Inorder(Sibling(c));
    assert Inorder(Up(d, t)) == Inorder(Up(c, t));
    PlugSameInorder(c.up, Up(d, t), Up(c, t));
    assert Rb(Near(c), h) && Rb(Far(c), h);
    assert Rb(NephewLifted(c), h + 1);
  }

  /** A red far nephew: the sibling is rotated above the parent and the deficit is gone. */
  function Repaired<N>(c: Ctx<N>, t: Tree<N>): Tree<N>
    requires !c.Top? && Sibling(c).Bin?
  {
    var s := Sibling(c).(red := c.red);
    var s' := if c.InLeft? then s.(right := s.right.Blacken()) else s.(left := s.left.Blacken());
    RotatedTowards(c.InLeft?, Up(WithSibling(c, s'), t).Blacken())
  }

  lemma RepairedRb<N>(c: Ctx<N>, t: Tree<N>, h: nat)
    requires Rb(t, h) && !t.IsRed() && CtxRb(c, h + 1) && !c.Top?
    requires !Sibling(c).IsRed() && Far(c).IsRed()
    ensures IsRbTree(Plug(c.up, Repaired(c, t)))
    ensures Inorder(Plug(c.up, Repaired(c, t))) == Inorder(Plug(c, t))
  {
    var s := Sibling(c).(red := c.red);
    var s' := if c.InLeft? then s.(right := s.right.Blacken()) else s.(left := s.left.Blacken());
    var u := Up(WithSibling(c, s'), t).Blacken();
    RotatedTowardsKeeps(c.InLeft?, u);
    assert Inorder(s') == Inorder(Sibling(c)) by {
      assert Inorder(Far(c).Blacken()) == Inorder(Far(c));
    }
    assert Inorder(u) == Inorder(Up(c, t));
    PlugSameInorder(c.up, Repaired(c, t), Up(c, t));
    assert Rb(Near(c), h) && Rb(Far(c), h);
    assert Rb(Far(c).Blacken(), h + 1);
    var parent := if c.InLeft? then Repaired(c, t).left else Repaired(c, t).right;
    assert Rb(parent, h + 1);
    PlugRb(c.up, Repaired(c, t), if c.red then h + 1 else h + 2);
  }

  // ----- taking a node out

  /** Taking out a node with at most one child leaves a shape that is short only if the node
      was black. */
  lemma UnlinkRb<N>(c: Ctx<N>, t: Tree<N>)
    requires t.Bin? && (t.left.Nil? || t.right.Nil?) && IsRbTree(Plug(c, t))
    ensures var s := if t.left.Nil? then t.right else t.left;
            && (!t.red ==> Deficit(s, 0) && CtxRb(c, 1))
            && (t.red ==> !c.Top? && s.Nil? && IsRbTree(Plug(c, s)))
            && (c.Top? ==> IsRbTree(s.Blacken()))
  {
    var s := if t.left.Nil? then t.right else t.left;
    var h := UnplugRb(c, t);
    assert Rb(s, 0);
    if t.red {
      PlugRb(c, s, 0);
    } else if s.IsRed() {
      assert Rb(s.Blacken(), 1);
    }
  }

  lemma {:induction false} RelabelRb<N>(inner: Ctx<N>, a: Ctx<N>, b: Ctx<N>, h: nat)
    requires CtxRb(Nest(inner, a), h) && !a.Top? && !b.Top? && a.InLeft? == b.InLeft?
    requires a.red == b.red && Sibling(a) == Sibling(b) && a.up == b.up
    ensures CtxRb(Nest(inner, b), h) && !Nest(inner, b).Top?
  {
    match inner
    case Top =>
    case InLeft(up, _, _, red, _) => RelabelRb(up, a, b, if red then h else h + 1);
    case InRight(_, _, _, red, up) => RelabelRb(up, a, b, if red then h else h + 1);
  }

  /** The context of what is left of `s`, the leftmost part of `t.right`, after its node has taken
      the place of the node of `t`. */
  function Exchanged<N>(c: Ctx<N>, t: Tree<N>, inner: Ctx<N>, s: Tree<N>): Ctx<N>
    requires t.Bin? && s.Bin?
  {
    Nest(inner, InRight(t.left, s.node, s.key, t.red, c))
  }

  lemma ExchangedRb<N>(c: Ctx<N>, t: Tree<N>, inner: Ctx<N>, s: Tree<N>)
    requires t.Bin? && s.Bin? && s.left.Nil? && IsRbTree(Plug(c, t)) && t.right == Plug(inner, s)
    ensures var d := Exchanged(c, t, inner, s);
            && (!s.red ==> Deficit(s.right, 0) && CtxRb(d, 1))
            && (s.red ==> s.right.Nil? && IsRbTree(Plug(d, s.right)))
  {
    var d := Nest(inner, DownRight(c, t));
    PlugNest(inner, DownRight(c, t), s);
    UnlinkRb(d, s);
    var h := UnplugRb(d, s);
    RelabelRb(inner, DownRight(c, t), InRight(t.left, s.node, s.key, t.red, c), h);
    if s.red {
      PlugRb(Exchanged(c, t, inner, s), s.right, 0);
    }
  }

  lemma ExchangedInorder<N>(c: Ctx<N>, t: Tree<N>, inner: Ctx<N>, s: Tree<N>)
    requires t.Bin? && s.Bin? && s.left.Nil? && t.right == Plug(inner, s) && Before(inner) == []
    ensures var b := Before(c) + Inorder(t.left);
            var a := Inorder(t.right) + After(c);
            && Inorder(Plug(c, t)) == b + [Entry(t.node, t.key)] + a
            && Inorder(Plug(Exchanged(c, t, inner, s), s.right)) == b + a
  {
    PlugInorder(c, t);
    Regroup(Before(c), Inorder(t.left), [Entry(t.node, t.key)], Inorder(t.right), After(c));
    var d := InRight(t.left, s.node, s.key, t.red, c);
    PlugInorder(Nest(inner, d), s.right);
    NestInorder(inner, d);
    InorderOfLeftmost(inner, s);
    var b, e, r, i, a := Before(c) + Inorder(t.left), [Entry(s.node, s.key)], Inorder(s.right), After(inner), After(c);
    assert Before(d) + Before(inner) == b + e;
    hide Inorder, Before, After, Plug, Nest;
    Reassociate(b, e, r, i, a);
  }

  lemma Reassociate<T>(b: seq<T>, e: seq<T>, r: seq<T>, i: seq<T>, a: seq<T>)
    ensures (b + e) + r + (i + a) == b + ((e + r + i) + a)
  {
  }

  lemma InorderOfLeftmost<N>(inner: Ctx<N>, s: Tree<N>)
    requires s.Bin? && s.left.Nil? && Before(inner) == []
    ensures Inorder(Plug(inner, s)) == [Entry(s.node, s.key)] + Inorder(s.right) + After(inner)
  {
    PlugInorder(inner, s);
    assert Inorder(s) == [Entry(s.node, s.key)] + Inorder(s.right);
  }

  // ----- how tall a red-black tree can be

  function Size<N>(t: Tree<N>): nat {
    match t
    case Nil => 0
    case Bin(l, _, _, _, r) => Size(l) + 1 + Size(r)
  }

  function Height<N>(t: Tree<N>): nat {
    match t
    case Nil => 0
    case Bin(l, _, _, _, r) => 1 + if Height(l) < Height(r) then Height(r) else Height(l)
  }

  lemma {:induction false} SizeIsInorderLength<N>(t: Tree<N>)
    ensures Size(t) == |Inorder(t)|
  {
    match t
    case Nil =>
    case Bin(l, _, _, _, r) =>
      SizeIsInorderLength(l);
      SizeIsInorderLength(r);
  }

  lemma {:induction false} BlackHeightBounds<N>(t: Tree<N>, h: nat)
    requires Rb(t, h)
    ensures Size(t) + 1 >= Pow2(h)
    ensures Height(t) <= 2 * h + if t.IsRed() then 1 else 0
  {
    match t
    case Nil =>
    case Bin(l, _, _, red, r) =>
      BlackHeightBounds(l, if red then h else h - 1);
      BlackHeightBounds(r, if red then h else h - 1);
  }

  lemma {:induction false} Pow2Double(h: nat)
    ensures Pow2(2 * h) == Pow2(h) * Pow2(h)
  {
    if h > 0 {
      Pow2Double(h - 1);
      var p := Pow2(h - 1);
      assert Pow2(2 * h) == 2 * (2 * Pow2(2 * h - 2));
      assert Pow2(2 * h - 2) == p * p;
      assert 2 * (2 * (p * p)) == (2 * p) * (2 * p);
    }
  }

  lemma {:induction false} Pow2Monotone(a: nat, b: nat)
    requires a <= b
    ensures Pow2(a) <= Pow2(b)
  {
    if a < b {
      Pow2Monotone(a, b - 1);
    }
  }

  /** The height of a red-black tree of n nodes is at most 2 * log2(n + 1). */
  lemma HeightIsLogarithmic<N>(t: Tree<N>)
    requires IsRbTree(t)
    ensures Pow2(Height(t)) <= (|Inorder(t)| + 1) * (|Inorder(t)| + 1)
  {
    var h: nat :| Rb(t, h);
    BlackHeightBounds(t, h);
    SizeIsInorderLength(t);
    Pow2Monotone(Height(t), 2 * h);
    Pow2Double(h);
    var n := |Inorder(t)| + 1;
    SquareMono(Pow2(h), n);
  }

  lemma SquareMono(a: nat, b: nat)
    requires a <= b
    ensures a * a <= b * b
  {
    assert b * b - a * a == (b - a) * (b + a);
  }
}
