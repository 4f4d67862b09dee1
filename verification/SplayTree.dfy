/** The splay tree of the SPLAY macros.  The mirrored halves of the loops are one branch with a side as parameter. */
module SplayTree {
  import opened TreeNodes
  import opened NodeOrder

  // ---------------------------------------------------------------- links

  datatype Cell = Cell(left: Node?, right: Node?)

  type Links = map<Node, Cell>

  function Of(s: Side, cell: Cell): Node? {
    if s == L then cell.left else cell.right
  }

  function Put(s: Side, cell: Cell, x: Node?): Cell {
    if s == L then cell.(left := x) else cell.(right := x)
  }

  ghost predicate Agree(m: Links)
    reads m.Keys
  {
    forall n :: n in m ==> m[n] == Cell(n.left, n.right)
  }

  // ---------------------------------------------------------------- shapes

  datatype Tree = Leaf | Tree(left: Tree, node: Node, right: Tree)

  /** An assembly tree: nodes hanging off each other on the inner side, each with a subtree on the outer side. */
  datatype Spine = Nil | Hang(up: Spine, node: Node, outer: Tree)

  function Mk(s: Side, near: Tree, n: Node, far: Tree): Tree {
    if s == L then Tree(near, n, far) else Tree(far, n, near)
  }

  function Child(s: Side, t: Tree): Tree
    requires t.Tree?
  {
    if s == L then t.left else t.right
  }

  function RootOf(t: Tree): Node? {
    if t.Leaf? then null else t.node
  }

  function EndOf(sp: Spine, stub: Node): Node {
    if sp.Nil? then stub else sp.node
  }

  ghost function Nodes(t: Tree): set<Node> {
    if t.Leaf? then {} else Nodes(t.left) + {t.node} + Nodes(t.right)
  }

  ghost function SpineNodes(sp: Spine): set<Node> {
    if sp.Nil? then {} else SpineNodes(sp.up) + {sp.node} + Nodes(sp.outer)
  }

  function Inorder(t: Tree): seq<Node> {
    if t.Leaf? then [] else Inorder(t.left) + [t.node] + Inorder(t.right)
  }

  /** The assembly tree on side `s`, in order. */
  function SpineOrder(s: Side, sp: Spine): seq<Node> {
    if sp.Nil? then []
    else if s == L then SpineOrder(s, sp.up) + Inorder(sp.outer) + [sp.node]
    else [sp.node] + Inorder(sp.outer) + SpineOrder(s, sp.up)
  }

  /** The assembly tree with `x` at its inner end. */
  function Close(s: Side, sp: Spine, x: Tree): Tree {
    if sp.Nil? then x else Close(s, sp.up, Mk(s, sp.outer, sp.node, x))
  }

  ghost predicate Rep(t: Tree, m: Links) {
    t.Tree? ==>
      && t.node in m && m[t.node] == Cell(RootOf(t.left), RootOf(t.right))
      && t.node !in Nodes(t.left) && t.node !in Nodes(t.right) && Nodes(t.left) !! Nodes(t.right)
      && Rep(t.left, m) && Rep(t.right, m)
  }

  /** The links of the assembly tree on side `s`; the inner link of its end is not looked at. */
  ghost predicate RepSpine(s: Side, sp: Spine, m: Links, stub: Node) {
    stub in m && (sp.Hang? ==>
      && sp.node in m && Of(s, m[sp.node]) == RootOf(sp.outer)
      && EndOf(sp.up, stub) in m && Of(Opp(s), m[EndOf(sp.up, stub)]) == sp.node
      && sp.node !in Nodes(sp.outer) && sp.node !in SpineNodes(sp.up) && Nodes(sp.outer) !! SpineNodes(sp.up)
      && stub != sp.node && stub !in Nodes(sp.outer)
      && Rep(sp.outer, m) && RepSpine(s, sp.up, m, stub))
  }

  /** The middle tree and the assembly trees on side `s` and on the other one. */
  ghost predicate Parts(s: Side, t: Tree, near: Spine, far: Spine, m: Links, stub: Node) {
    && Rep(t, m) && RepSpine(s, near, m, stub) && RepSpine(Opp(s), far, m, stub)
    && Nodes(t) !! SpineNodes(near) && Nodes(t) !! SpineNodes(far) && SpineNodes(near) !! SpineNodes(far)
    && stub !in Nodes(t)
    && m.Keys == Nodes(t) + SpineNodes(near) + SpineNodes(far) + {stub}
  }

  // ---------------------------------------------------------------- changing links

  lemma {:induction false} RepFrame(t: Tree, m: Links, m': Links)
    requires Rep(t, m) && forall n :: n in Nodes(t) ==> n in m && n in m' && m'[n] == m[n]
    ensures Rep(t, m')
  {
    if t.Tree? {
      RepFrame(t.left, m, m');
      RepFrame(t.right, m, m');
    }
  }

  lemma {:induction false} RepKeys(t: Tree, m: Links)
    requires Rep(t, m)
    ensures Nodes(t) <= m.Keys
  {
    if t.Tree? {
      RepKeys(t.left, m);
      RepKeys(t.right, m);
    }
  }

  lemma {:induction false} SpineKeys(s: Side, sp: Spine, m: Links, stub: Node)
    requires RepSpine(s, sp, m, stub)
    ensures SpineNodes(sp) <= m.Keys && stub !in SpineNodes(sp) && EndOf(sp, stub) in SpineNodes(sp) + {stub}
  {
    if sp.Hang? {
      RepKeys(sp.outer, m);
      SpineKeys(s, sp.up, m, stub);
    }
  }

  lemma {:induction false} SpineFrame(s: Side, sp: Spine, m: Links, m': Links, stub: Node)
    requires RepSpine(s, sp, m, stub) && stub in m' && Of(Opp(s), m'[stub]) == Of(Opp(s), m[stub])
    requires forall n :: n in SpineNodes(sp) ==> n in m && n in m' && m'[n] == m[n]
    ensures RepSpine(s, sp, m', stub)
  {
    if sp.Hang? {
      RepFrame(sp.outer, m, m');
      SpineKeys(s, sp.up, m, stub);
      SpineFrame(s, sp.up, m, m', stub);
    }
  }

  /** The inner link of the end may change. */
  lemma SpineEnd(s: Side, sp: Spine, x: Node?, m: Links, m': Links, stub: Node)
    requires RepSpine(s, sp, m, stub) && EndOf(sp, stub) in m && EndOf(sp, stub) in m' && stub in m'
    requires m'[EndOf(sp, stub)] == Put(Opp(s), m[EndOf(sp, stub)], x)
    requires sp.Hang? ==> Of(Opp(s), m'[stub]) == Of(Opp(s), m[stub])
    requires forall n :: n in SpineNodes(sp) && n != EndOf(sp, stub) ==> n in m && n in m' && m'[n] == m[n]
    ensures RepSpine(s, sp, m', stub)
  {
    if sp.Hang? {
      RepFrame(sp.outer, m, m');
      SpineKeys(s, sp.up, m, stub);
      SpineFrame(s, sp.up, m, m', stub);
    }
  }

  lemma OpenTree(s: Side, t: Tree, m: Links)
    requires Rep(t, m) && t.Tree?
    ensures var a, b := Child(s, t), Child(Opp(s), t);
            && t == Mk(s, a, t.node, b)
            && t.node in m && Of(s, m[t.node]) == RootOf(a) && Of(Opp(s), m[t.node]) == RootOf(b)
            && t.node !in Nodes(a) && t.node !in Nodes(b) && Nodes(a) !! Nodes(b)
            && Rep(a, m) && Rep(b, m) && Nodes(t) == Nodes(a) + {t.node} + Nodes(b)
  {
  }

  lemma CloseTree(s: Side, a: Tree, n: Node, b: Tree, m: Links)
    requires n in m && Of(s, m[n]) == RootOf(a) && Of(Opp(s), m[n]) == RootOf(b)
    requires n !in Nodes(a) && n !in Nodes(b) && Nodes(a) !! Nodes(b)
    requires Rep(a, m) && Rep(b, m)
    ensures Rep(Mk(s, a, n, b), m) && Nodes(Mk(s, a, n, b)) == Nodes(a) + {n} + Nodes(b)
  {
  }

  // ---------------------------------------------------------------- rotation

  function Rotated(s: Side, t: Tree): Tree
    requires t.Tree? && Child(s, t).Tree?
  {
    var u := Child(s, t);
    Mk(s, Child(s, u), u.node, Mk(s, Child(Opp(s), u), t.node, Child(Opp(s), t)))
  }

  function RotatedLinks(s: Side, y: Node, x: Node, m: Links): Links
    requires x in m && y in m
  {
    m[y := Put(s, m[y], Of(Opp(s), m[x]))][x := Put(Opp(s), m[x], y)]
  }

  /** The parts of a rotation are apart. */
  lemma RotateApart(s: Side, t: Tree, m: Links)
    requires Rep(t, m) && t.Tree? && Child(s, t).Tree?
    ensures var u := Child(s, t);
            var a, b, c := Child(s, u), Child(Opp(s), u), Child(Opp(s), t);
            && t.node in m && u.node in m && u.node != t.node
            && Of(s, m[t.node]) == u.node && Of(s, m[u.node]) == RootOf(a)
            && Of(Opp(s), m[u.node]) == RootOf(b) && Of(Opp(s), m[t.node]) == RootOf(c)
            && {t.node, u.node} !! Nodes(a) + Nodes(b) + Nodes(c)
            && Nodes(a) !! Nodes(b) && Nodes(a) + Nodes(b) !! Nodes(c)
            && Rep(a, m) && Rep(b, m) && Rep(c, m)
            && Nodes(t) == Nodes(a) + {u.node} + Nodes(b) + {t.node} + Nodes(c)
  {
    OpenTree(s, t, m);
    OpenTree(s, Child(s, t), m);
  }

  lemma RotateFrames(s: Side, t: Tree, m: Links)
    requires Rep(t, m) && t.Tree? && Child(s, t).Tree?
    ensures var u := Child(s, t);
            && t.node in m && u.node in m
            && var m' := RotatedLinks(s, t.node, u.node, m);
            && Rep(Child(s, u), m') && Rep(Child(Opp(s), u), m') && Rep(Child(Opp(s), t), m')
  {
    RotateApart(s, t, m);
    var u := Child(s, t);
    var a, b, c := Child(s, u), Child(Opp(s), u), Child(Opp(s), t);
    var m' := RotatedLinks(s, t.node, u.node, m);
    RepKeys(a, m);
    RepKeys(b, m);
    RepKeys(c, m);
    RepFrame(a, m, m');
    RepFrame(b, m, m');
    RepFrame(c, m, m');
  }

  lemma RotateRep(s: Side, t: Tree, m: Links)
    requires Rep(t, m) && t.Tree? && Child(s, t).Tree?
    ensures var u := Child(s, t);
            && t.node in m && u.node in m
            && Rep(Rotated(s, t), RotatedLinks(s, t.node, u.node, m)) && Nodes(Rotated(s, t)) == Nodes(t)
  {
    RotateApart(s, t, m);
    RotateFrames(s, t, m);
    var u := Child(s, t);
    var m' := RotatedLinks(s, t.node, u.node, m);
    CloseTree(s, Child(Opp(s), u), t.node, Child(Opp(s), t), m');
    CloseTree(s, Child(s, u), u.node, Mk(s, Child(Opp(s), u), t.node, Child(Opp(s), t)), m');
  }

  /** An assembly tree is not touched. */
  lemma RotateSpine(side: Side, sp: Spine, s: Side, t: Tree, m: Links, stub: Node)
    requires RepSpine(side, sp, m, stub) && Rep(t, m) && t.Tree? && Child(s, t).Tree?
    requires SpineNodes(sp) !! Nodes(t) && stub !in Nodes(t)
    ensures t.node in m && Child(s, t).node in m
    ensures RepSpine(side, sp, RotatedLinks(s, t.node, Child(s, t).node, m), stub)
  {
    RotateApart(s, t, m);
    SpineKeys(side, sp, m, stub);
    SpineFrame(side, sp, m, RotatedLinks(s, t.node, Child(s, t).node, m), stub);
  }

  lemma RotateParts(s: Side, t: Tree, near: Spine, far: Spine, m: Links, stub: Node)
    requires Parts(s, t, near, far, m, stub) && t.Tree? && Child(s, t).Tree?
    ensures t.node in m && Child(s, t).node in m
    ensures Parts(s, Rotated(s, t), near, far, RotatedLinks(s, t.node, Child(s, t).node, m), stub)
  {
    RotateRep(s, t, m);
    RotateSpine(s, near, s, t, m, stub);
    RotateSpine(Opp(s), far, s, t, m, stub);
  }

  lemma RotateOrder(s: Side, t: Tree)
    requires t.Tree? && Child(s, t).Tree?
    ensures Inorder(Rotated(s, t)) == Inorder(t)
  {
    var u := Child(s, t);
    var a, b, c := Inorder(Child(s, u)), Inorder(Child(Opp(s), u)), Inorder(Child(Opp(s), t));
    if s == L {
      assert a + [u.node] + (b + [t.node] + c) == (a + [u.node] + b) + [t.node] + c;
    } else {
      assert (c + [t.node] + b) + [u.node] + a == c + [t.node] + (b + [u.node] + a);
    }
  }

  // ---------------------------------------------------------------- linking

  lemma LinkFrames(s: Side, t: Tree, near: Spine, far: Spine, m: Links, stub: Node)
    requires Parts(s, t, near, far, m, stub) && t.Tree?
    ensures t.node in m && EndOf(far, stub) in m && EndOf(far, stub) != t.node
    ensures var m' := m[EndOf(far, stub) := Put(s, m[EndOf(far, stub)], t.node)];
            && m'.Keys == m.Keys && m'[t.node] == m[t.node]
            && Rep(Child(s, t), m') && Rep(Child(Opp(s), t), m')
            && RepSpine(s, near, m', stub) && RepSpine(Opp(s), far, m', stub)
  {
    var e := EndOf(far, stub);
    OpenTree(s, t, m);
    SpineKeys(s, near, m, stub);
    SpineKeys(Opp(s), far, m, stub);
    var m' := m[e := Put(s, m[e], t.node)];
    RepKeys(t, m);
    RepFrame(Child(s, t), m, m');
    RepFrame(Child(Opp(s), t), m, m');
    SpineEnd(Opp(s), far, t.node, m, m', stub);
    SpineFrame(s, near, m, m', stub);
  }

  /** The root goes to the end of the other side's assembly tree; the middle tree is its child on side `s`. */
  lemma LinkParts(s: Side, t: Tree, near: Spine, far: Spine, m: Links, stub: Node)
    requires Parts(s, t, near, far, m, stub) && t.Tree?
    ensures EndOf(far, stub) in m
    ensures Parts(s, Child(s, t), near, Hang(far, t.node, Child(Opp(s), t)),
                  m[EndOf(far, stub) := Put(s, m[EndOf(far, stub)], t.node)], stub)
  {
    LinkFrames(s, t, near, far, m, stub);
    OpenTree(s, t, m);
  }

  // ---------------------------------------------------------------- assembling

  lemma {:induction false} CloseRep(s: Side, sp: Spine, x: Tree, m: Links, stub: Node)
    requires RepSpine(s, sp, m, stub) && Rep(x, m) && SpineNodes(sp) !! Nodes(x) && stub !in Nodes(x)
    requires EndOf(sp, stub) in m && Of(Opp(s), m[EndOf(sp, stub)]) == RootOf(x)
    ensures Rep(Close(s, sp, x), m) && Nodes(Close(s, sp, x)) == SpineNodes(sp) + Nodes(x)
    ensures Of(Opp(s), m[stub]) == RootOf(Close(s, sp, x))
  {
    if sp.Hang? {
      CloseTree(s, sp.outer, sp.node, x, m);
      CloseRep(s, sp.up, Mk(s, sp.outer, sp.node, x), m, stub);
    }
  }

  lemma Assoc(a: seq<Node>, b: seq<Node>, c: seq<Node>, d: seq<Node>)
    ensures a + (b + c + d) == (a + b + c) + d && (a + b + c) + d == a + (b + c + d)
  {
  }

  lemma {:induction false} CloseOrder(s: Side, sp: Spine, x: Tree)
    ensures Inorder(Close(s, sp, x)) == if s == L then SpineOrder(s, sp) + Inorder(x) else Inorder(x) + SpineOrder(s, sp)
  {
    if sp.Nil? {
      assert [] + Inorder(x) == Inorder(x) == Inorder(x) + [];
    } else {
      CloseOrder(s, sp.up, Mk(s, sp.outer, sp.node, x));
      Assoc(SpineOrder(s, sp.up), Inorder(sp.outer), [sp.node], Inorder(x));
      Assoc(Inorder(x), [sp.node], Inorder(sp.outer), SpineOrder(s, sp.up));
    }
  }

  /** The tree put together again. */
  function Assembled(t: Tree, a: Spine, b: Spine): Tree
    requires t.Tree?
  {
    Tree(Close(L, a, t.left), t.node, Close(R, b, t.right))
  }

  /** The links of the two ends, before those of the root. */
  function EndLinks(t: Tree, a: Spine, b: Spine, m: Links, stub: Node): Links
    requires t.Tree? && EndOf(a, stub) in m && EndOf(b, stub) in m
  {
    var m1 := m[EndOf(a, stub) := Put(R, m[EndOf(a, stub)], RootOf(t.left))];
    m1[EndOf(b, stub) := Put(L, m1[EndOf(b, stub)], RootOf(t.right))]
  }

  lemma AssembleEnds(t: Tree, a: Spine, b: Spine, m: Links, stub: Node)
    requires Parts(L, t, a, b, m, stub) && t.Tree?
    ensures EndOf(a, stub) in m && EndOf(b, stub) in m
    ensures var m1 := EndLinks(t, a, b, m, stub);
            && t.node in m1 && m1[t.node] == m[t.node] && m1.Keys == m.Keys
            && Rep(t.left, m1) && Rep(t.right, m1) && RepSpine(L, a, m1, stub) && RepSpine(R, b, m1, stub)
            && Of(R, m1[EndOf(a, stub)]) == RootOf(t.left) && Of(L, m1[EndOf(b, stub)]) == RootOf(t.right)
  {
    OpenTree(L, t, m);
    SpineKeys(L, a, m, stub);
    SpineKeys(R, b, m, stub);
    var ea, eb := EndOf(a, stub), EndOf(b, stub);
    var m1 := m[ea := Put(R, m[ea], RootOf(t.left))];
    var m2 := EndLinks(t, a, b, m, stub);
    SpineEnd(L, a, RootOf(t.left), m, m1, stub);
    SpineFrame(R, b, m, m1, stub);
    SpineEnd(R, b, RootOf(t.right), m1, m2, stub);
    SpineFrame(L, a, m1, m2, stub);
    RepFrame(t.left, m, m2);
    RepFrame(t.right, m, m2);
  }

  function AssembledLinks(t: Tree, a: Spine, b: Spine, m: Links, stub: Node): Links
    requires t.Tree? && EndOf(a, stub) in m && EndOf(b, stub) in m && stub in m
  {
    var m1 := EndLinks(t, a, b, m, stub);
    m1[t.node := Cell(m1[stub].right, m1[stub].left)] - {stub}
  }

  lemma AssembleClosed(t: Tree, a: Spine, b: Spine, m: Links, stub: Node)
    requires Parts(L, t, a, b, m, stub) && t.Tree?
    ensures stub in m && EndOf(a, stub) in m && EndOf(b, stub) in m
    ensures var m1, l, r := EndLinks(t, a, b, m, stub), Close(L, a, t.left), Close(R, b, t.right);
            && m1.Keys == m.Keys && Rep(l, m1) && Rep(r, m1)
            && Nodes(l) == SpineNodes(a) + Nodes(t.left) && Nodes(r) == SpineNodes(b) + Nodes(t.right)
            && m1[stub] == Cell(RootOf(r), RootOf(l)) && stub !in Nodes(t) + SpineNodes(a) + SpineNodes(b)
  {
    AssembleEnds(t, a, b, m, stub);
    SpineKeys(L, a, m, stub);
    SpineKeys(R, b, m, stub);
    var m1 := EndLinks(t, a, b, m, stub);
    CloseRep(L, a, t.left, m1, stub);
    CloseRep(R, b, t.right, m1, stub);
  }

  lemma AssembleRep(t: Tree, a: Spine, b: Spine, m: Links, stub: Node)
    requires Parts(L, t, a, b, m, stub) && t.Tree?
    ensures stub in m && EndOf(a, stub) in m && EndOf(b, stub) in m
    ensures Rep(Assembled(t, a, b), AssembledLinks(t, a, b, m, stub))
  {
    AssembleClosed(t, a, b, m, stub);
    OpenTree(L, t, m);
    var m1, m' := EndLinks(t, a, b, m, stub), AssembledLinks(t, a, b, m, stub);
    var l, r := Close(L, a, t.left), Close(R, b, t.right);
    RepKeys(l, m1);
    RepKeys(r, m1);
    RepFrame(l, m1, m');
    RepFrame(r, m1, m');
  }

  lemma {:induction false} CloseNodes(s: Side, sp: Spine, x: Tree)
    ensures Nodes(Close(s, sp, x)) == SpineNodes(sp) + Nodes(x)
  {
    if sp.Hang? {
      CloseNodes(s, sp.up, Mk(s, sp.outer, sp.node, x));
    }
  }

  lemma AssembledNodes(t: Tree, a: Spine, b: Spine)
    requires t.Tree?
    ensures Nodes(Assembled(t, a, b)) == Nodes(t) + SpineNodes(a) + SpineNodes(b)
  {
    CloseNodes(L, a, t.left);
    CloseNodes(R, b, t.right);
  }

  lemma Without(all: set<Node>, rest: set<Node>, stub: Node)
    requires all == rest + {stub} && stub !in rest
    ensures all - {stub} == rest
  {
  }

  lemma AssembleParts(t: Tree, a: Spine, b: Spine, m: Links, stub: Node)
    requires Parts(L, t, a, b, m, stub) && t.Tree?
    ensures stub in m && EndOf(a, stub) in m && EndOf(b, stub) in m
    ensures var m' := AssembledLinks(t, a, b, m, stub);
            Rep(Assembled(t, a, b), m') && m'.Keys == Nodes(Assembled(t, a, b)) == m.Keys - {stub}
  {
    AssembleRep(t, a, b, m, stub);
    AssembledNodes(t, a, b);
    SpineKeys(L, a, m, stub);
    SpineKeys(R, b, m, stub);
    Without(m.Keys, Nodes(t) + SpineNodes(a) + SpineNodes(b), stub);
    assert AssembledLinks(t, a, b, m, stub).Keys == m.Keys + {t.node} - {stub};
    assert t.node in m;
  }

  lemma RootApart(t: Tree, a: Spine, b: Spine, m: Links, stub: Node)
    requires Parts(L, t, a, b, m, stub) && t.Tree?
    ensures EndOf(a, stub) in m && EndOf(b, stub) in m && stub in m && t.node in m
    ensures t.node !in {stub, EndOf(a, stub), EndOf(b, stub)} && m[t.node] == Cell(RootOf(t.left), RootOf(t.right))
  {
    SpineKeys(L, a, m, stub);
    SpineKeys(R, b, m, stub);
    assert t.node in Nodes(t);
  }

  // ---------------------------------------------------------------- order

  /** All nodes in order: left assembly tree, middle tree, right assembly tree. */
  function Line(t: Tree, a: Spine, b: Spine): seq<Node> {
    SpineOrder(L, a) + Inorder(t) + SpineOrder(R, b)
  }

  /** Where the key can be: between the assembly trees. */
  ghost predicate Between(a: Spine, b: Spine, k: int) {
    KeysBelow(SpineOrder(L, a), k) && KeysAbove(SpineOrder(R, b), k)
  }

  /** The root has the key, or the key falls right beside the root. */
  ghost predicate Closest(t: Tree, k: int) {
    && t.Tree?
    && (k < t.node.key ==> KeysBelow(Inorder(t.left), k))
    && (k > t.node.key ==> KeysAbove(Inorder(t.right), k))
  }

  predicate OnSide(s: Side, k: int, n: Node) {
    if s == L then k < n.key else k > n.key
  }

  /** The assembly trees after linking the root. */
  function LinkedLeft(s: Side, t: Tree, a: Spine): Spine
    requires t.Tree?
  {
    if s == L then a else Hang(a, t.node, t.left)
  }

  function LinkedRight(s: Side, t: Tree, b: Spine): Spine
    requires t.Tree?
  {
    if s == L then Hang(b, t.node, t.right) else b
  }

  lemma LinkLine(s: Side, t: Tree, a: Spine, b: Spine)
    requires t.Tree?
    ensures Line(Child(s, t), LinkedLeft(s, t, a), LinkedRight(s, t, b)) == Line(t, a, b)
  {
    Spread(SpineOrder(L, a), Inorder(t.left), [t.node], Inorder(t.right), SpineOrder(R, b));
  }

  lemma Spread(a: seq<Node>, l: seq<Node>, n: seq<Node>, r: seq<Node>, b: seq<Node>)
    ensures a + l + (n + r + b) == a + (l + n + r) + b && (a + l + n) + r + b == a + (l + n + r) + b
  {
  }

  lemma LinkBetween(s: Side, t: Tree, a: Spine, b: Spine, k: int)
    requires t.Tree? && Sorted(Line(t, a, b)) && Between(a, b, k) && OnSide(s, k, t.node)
    ensures Between(LinkedLeft(s, t, a), LinkedRight(s, t, b), k)
  {
    Split5(SpineOrder(L, a), Inorder(t.left), t.node, Inorder(t.right), SpineOrder(R, b));
  }

  lemma AssembledLine(t: Tree, a: Spine, b: Spine)
    requires t.Tree?
    ensures Inorder(Assembled(t, a, b)) == Line(t, a, b)
  {
    CloseOrder(L, a, t.left);
    CloseOrder(R, b, t.right);
    Regroup(SpineOrder(L, a), Inorder(t.left), [t.node], Inorder(t.right), SpineOrder(R, b));
  }

  lemma AssembledClosest(t: Tree, a: Spine, b: Spine, k: int)
    requires t.Tree? && Between(a, b, k)
    requires k < t.node.key ==> t.left.Leaf?
    requires k > t.node.key ==> t.right.Leaf?
    ensures Closest(Assembled(t, a, b), k)
  {
    CloseOrder(L, a, t.left);
    CloseOrder(R, b, t.right);
  }

  /** A key is in a tree whose root is closest to it iff the root has it. */
  lemma ClosestDecides(t: Tree, k: int)
    requires Closest(t, k) && Sorted(Inorder(t))
    ensures t.node.key != k ==> forall n :: n in Inorder(t) ==> n.key != k
    ensures KeysBelow(Inorder(t.left), t.node.key) && KeysAbove(Inorder(t.right), t.node.key)
  {
    Split3(Inorder(t.left), t.node, Inorder(t.right));
  }

  lemma Split3(l: seq<Node>, n: Node, r: seq<Node>)
    requires Sorted(l + [n] + r)
    ensures KeysBelow(l, n.key) && KeysAbove(r, n.key)
  {
    assert [] + (l + [n] + r) + [] == l + [n] + r;
    Split5([], l, n, r, []);
  }

  lemma PartsFlip(s: Side, t: Tree, near: Spine, far: Spine, m: Links, stub: Node)
    requires Parts(s, t, near, far, m, stub)
    ensures Parts(Opp(s), t, far, near, m, stub)
  {
    assert Opp(Opp(s)) == s;
  }

  /** Rotation and linking, for either side. */
  lemma RotateEither(s: Side, t: Tree, a: Spine, b: Spine, m: Links, stub: Node)
    requires Parts(L, t, a, b, m, stub) && t.Tree? && Child(s, t).Tree?
    ensures t.node in m && Child(s, t).node in m && t.node != Child(s, t).node
    ensures RotatedLinks(s, t.node, Child(s, t).node, m).Keys == m.Keys && RootOf(Rotated(s, t)) == Child(s, t).node
    ensures Parts(L, Rotated(s, t), a, b, RotatedLinks(s, t.node, Child(s, t).node, m), stub)
  {
    RotateApart(s, t, m);
    if s == L {
      RotateParts(L, t, a, b, m, stub);
    } else {
      PartsFlip(L, t, a, b, m, stub);
      RotateParts(R, t, b, a, m, stub);
      PartsFlip(R, Rotated(s, t), b, a, RotatedLinks(s, t.node, Child(s, t).node, m), stub);
    }
  }

  function FarEnd(s: Side, a: Spine, b: Spine, stub: Node): Node {
    if s == L then EndOf(b, stub) else EndOf(a, stub)
  }

  lemma LinkEither(s: Side, t: Tree, a: Spine, b: Spine, m: Links, stub: Node)
    requires Parts(L, t, a, b, m, stub) && t.Tree?
    ensures var e := FarEnd(s, a, b, stub);
            && e in m && t.node in m && e != t.node && Of(s, m[t.node]) == RootOf(Child(s, t))
            && m[e := Put(s, m[e], t.node)].Keys == m.Keys
            && Parts(L, Child(s, t), LinkedLeft(s, t, a), LinkedRight(s, t, b), m[e := Put(s, m[e], t.node)], stub)
  {
    OpenTree(s, t, m);
    if s == L {
      LinkFrames(L, t, a, b, m, stub);
      LinkParts(L, t, a, b, m, stub);
    } else {
      PartsFlip(L, t, a, b, m, stub);
      LinkFrames(R, t, b, a, m, stub);
      LinkParts(R, t, b, a, m, stub);
      PartsFlip(R, t.right, b, Hang(a, t.node, t.left), m[EndOf(a, stub) := Put(s, m[EndOf(a, stub)], t.node)], stub);
    }
  }

  lemma Outermost(s: Side, t: Tree)
    requires t.Tree? && Child(s, t).Leaf?
    ensures Inorder(t) != []
    ensures t.node == if s == L then Inorder(t)[0] else Inorder(t)[|Inorder(t)| - 1]
  {
  }

  // ---------------------------------------------------------------- cutting at the root

  /** The root goes below a new node, and gives it its subtree on side `s`. */
  function Split(s: Side, t: Tree, n: Node): Tree
    requires t.Tree?
  {
    Mk(s, Child(s, t), n, Mk(s, Leaf, t.node, Child(Opp(s), t)))
  }

  function SplitLinks(s: Side, t: Tree, n: Node, m: Links): Links
    requires t.Tree? && t.node in m
  {
    var m1 := m[t.node := Put(s, m[t.node], null)];
    m1[n := if s == L then Cell(RootOf(t.left), t.node) else Cell(t.node, RootOf(t.right))]
  }

  lemma SplitRep(s: Side, t: Tree, n: Node, m: Links)
    requires Rep(t, m) && t.Tree? && n !in m && m.Keys == Nodes(t)
    ensures t.node in m && m[t.node] == Cell(RootOf(t.left), RootOf(t.right))
    ensures Rep(Split(s, t, n), SplitLinks(s, t, n, m)) && Nodes(Split(s, t, n)) == m.Keys + {n}
  {
    OpenTree(s, t, m);
    var m' := SplitLinks(s, t, n, m);
    RepFrame(Child(s, t), m, m');
    RepFrame(Child(Opp(s), t), m, m');
    CloseTree(s, Leaf, t.node, Child(Opp(s), t), m');
    CloseTree(s, Child(s, t), n, Mk(s, Leaf, t.node, Child(Opp(s), t)), m');
  }

  lemma SplitOrder(s: Side, t: Tree, n: Node)
    requires Closest(t, n.key) && Sorted(Inorder(t)) && OnSide(s, n.key, t.node)
    ensures Inorder(Split(s, t, n)) == Inserted(Inorder(t), n) && Sorted(Inserted(Inorder(t), n))
  {
    ClosestDecides(t, n.key);
    if s == L {
      InsertedBefore(Inorder(t.left), t.node, Inorder(t.right), n);
    } else {
      InsertedAfter(Inorder(t.left), t.node, Inorder(t.right), n);
    }
  }

  lemma InsertedBefore(l: seq<Node>, x: Node, r: seq<Node>, n: Node)
    requires Sorted(l + [x] + r) && KeysBelow(l, n.key) && n.key < x.key
    ensures Inserted(l + [x] + r, n) == l + [n] + ([] + [x] + r) && Sorted(Inserted(l + [x] + r, n))
  {
    Split3(l, x, r);
    assert l + [x] + r == l + ([] + [x] + r);
    InsertedBetween(l, [] + [x] + r, n);
    SortedInserted(l, [] + [x] + r, n);
  }

  lemma InsertedAfter(l: seq<Node>, x: Node, r: seq<Node>, n: Node)
    requires Sorted(l + [x] + r) && KeysAbove(r, n.key) && n.key > x.key
    ensures Inserted(l + [x] + r, n) == (l + [x] + []) + [n] + r && Sorted(Inserted(l + [x] + r, n))
  {
    Split3(l, x, r);
    assert l + [x] + [] == l + [x];
    InsertedBetween(l + [x], r, n);
    SortedInserted(l + [x], r, n);
  }

  lemma {:induction false} InorderNodes(t: Tree)
    ensures forall n :: n in Inorder(t) <==> n in Nodes(t)
  {
    if t.Tree? {
      InorderNodes(t.left);
      InorderNodes(t.right);
    }
  }

  // ---------------------------------------------------------------- taking the root out

  /** The links of the root's subtree on side `s` alone. */
  ghost function Part(s: Side, t: Tree, m: Links): Links
    requires t.Tree?
  {
    m - (Nodes(Child(Opp(s), t)) + {t.node})
  }

  lemma PartRep(s: Side, t: Tree, m: Links)
    requires Rep(t, m) && t.Tree? && m.Keys == Nodes(t)
    ensures Rep(Child(s, t), Part(s, t, m)) && Part(s, t, m).Keys == Nodes(Child(s, t))
  {
    OpenTree(s, t, m);
    RepFrame(Child(s, t), m, Part(s, t, m));
  }

  /** The root's two subtrees, each with its own links. */
  lemma CutRoot(t: Tree, m: Links)
    requires Rep(t, m) && t.Tree? && m.Keys == Nodes(t)
    ensures t.node in m && m[t.node] == Cell(RootOf(t.left), RootOf(t.right))
    ensures Rep(t.left, Part(L, t, m)) && Rep(t.right, Part(R, t, m))
    ensures Part(L, t, m).Keys == Nodes(t.left) && Part(R, t, m).Keys == Nodes(t.right) && Nodes(t.left) !! Nodes(t.right)
    ensures m.Keys - {t.node} == Part(L, t, m).Keys + Part(R, t, m).Keys
  {
    OpenTree(L, t, m);
    PartRep(L, t, m);
    PartRep(R, t, m);
  }

  /** A root closest to a key above all of its nodes has nothing on its right. */
  lemma LargestRoot(t: Tree, k: int)
    requires Closest(t, k) && Sorted(Inorder(t)) && KeysBelow(Inorder(t), k)
    ensures t.right.Leaf?
  {
    BelowAll(Inorder(t.left), t.node, Inorder(t.right), k);
    NoKeys(Inorder(t.right), k);
  }

  lemma BelowAll(l: seq<Node>, n: Node, r: seq<Node>, k: int)
    requires KeysBelow(l + [n] + r, k)
    ensures n.key < k && KeysBelow(r, k)
  {
    var q := l + [n] + r;
    assert q[|l|] == n;
    forall i | 0 <= i < |r| ensures r[i].key < k { assert q[|l| + 1 + i] == r[i]; }
  }

  lemma NoKeys(q: seq<Node>, k: int)
    requires KeysBelow(q, k) && KeysAbove(q, k)
    ensures q == []
  {
    FirstBelow(q, k);
  }

  lemma FirstBelow(q: seq<Node>, k: int)
    requires KeysBelow(q, k)
    ensures q != [] ==> q[0].key < k
  {
  }

  function JoinedLinks(u: Tree, r: Tree, m: Links, m1: Links): Links
    requires u.Tree?
  {
    (m + m1)[u.node := Cell(RootOf(u.left), RootOf(r))]
  }

  lemma JoinRep(u: Tree, r: Tree, m: Links, m1: Links)
    requires Rep(u, m) && u.Tree? && u.right.Leaf? && m.Keys == Nodes(u)
    requires Rep(r, m1) && m1.Keys == Nodes(r) && Nodes(r) !! Nodes(u)
    ensures var m2 := JoinedLinks(u, r, m, m1);
            Rep(u.(right := r), m2) && m2.Keys == Nodes(u.(right := r)) == m.Keys + m1.Keys
  {
    OpenTree(L, u, m);
    var m2 := JoinedLinks(u, r, m, m1);
    RepFrame(u.left, m, m2);
    RepFrame(r, m1, m2);
  }

  lemma RemovedOrder(t: Tree)
    requires t.Tree? && Sorted(Inorder(t))
    ensures Inorder(t.left) + Inorder(t.right) == Deleted(Inorder(t), t.node) && Sorted(Inorder(t.left) + Inorder(t.right))
    ensures KeysBelow(Inorder(t.left), t.node.key) && Sorted(Inorder(t.left))
    ensures t.left.Leaf? ==> Inorder(t.left) + Inorder(t.right) == Inorder(t.right)
  {
    var l, r := Inorder(t.left), Inorder(t.right);
    Split3(l, t.node, r);
    DeletedBetween(l, r, t.node);
    SortedDeleted(l, r, t.node);
    SortedFront(l, r);
    assert [] + r == r;
  }

  lemma SortedFront(l: seq<Node>, r: seq<Node>)
    requires Sorted(l + r)
    ensures Sorted(l)
  {
    forall i, j | 0 <= i < j < |l| ensures l[i].key < l[j].key {
      assert (l + r)[i] == l[i] && (l + r)[j] == l[j];
    }
  }

  lemma JoinedOrder(u: Tree, r: Tree)
    requires u.Tree? && u.right.Leaf?
    ensures Inorder(u.(right := r)) == Inorder(u) + Inorder(r)
  {
    assert Inorder(u.left) + [u.node] + [] == Inorder(u.left) + [u.node];
  }

  // ---------------------------------------------------------------- the tree

  class Head {
    var root: Node?
    ghost var m: Links
    ghost var tree: Tree

    ghost predicate Valid()
      reads this, m.Keys
    {
      Agree(m) && Rep(tree, m) && m.Keys == Nodes(tree) && root == RootOf(tree) && Sorted(Inorder(tree))
    }

    /** In the middle of a splay. */
    ghost predicate Splaying(t: Tree, a: Spine, b: Spine, stub: Node)
      reads this, m.Keys
    {
      Agree(m) && Parts(L, t, a, b, m, stub) && root == RootOf(t)
    }

    constructor ()
      ensures Valid() && Inorder(tree) == []
    {
      root := null;
      m := map[];
      tree := Leaf;
    }

    /** SPLAY_ROTATE_RIGHT and SPLAY_ROTATE_LEFT. */
    method Rotate(s: Side, tmp: Node, ghost t: Tree, ghost a: Spine, ghost b: Spine, ghost stub: Node)
      requires Splaying(t, a, b, stub) && t.Tree? && RootOf(Child(s, t)) == tmp
      modifies `root, `m, m.Keys
      ensures m.Keys == old(m.Keys) && Splaying(Rotated(s, t), a, b, stub)
    {
      RotateEither(s, t, a, b, m, stub);
      Turn(s, root, tmp);
      root := tmp;
    }

    /** The two links a rotation changes. */
    method Turn(s: Side, top: Node, tmp: Node)
      requires Agree(m) && top in m && tmp in m && top != tmp
      modifies `m, m.Keys
      ensures m == old(RotatedLinks(s, top, tmp, m)) && Agree(m)
    {
      ghost var m1 := RotatedLinks(s, top, tmp, m);
      if s == L {
        top.left := tmp.right;
        tmp.right := top;
      } else {
        top.right := tmp.left;
        tmp.left := top;
      }
      forall n | n in m1 ensures m1[n] == Cell(n.left, n.right) {
        if n != top && n != tmp {
          assert m1[n] == m[n];
        }
      }
      m := m1;
    }

    /** SPLAY_LINKLEFT and SPLAY_LINKRIGHT: the root becomes the new end of an assembly tree. */
    method LinkRoot(s: Side, end: Node, ghost t: Tree, ghost a: Spine, ghost b: Spine, ghost stub: Node) returns (end1: Node)
      requires Splaying(t, a, b, stub) && t.Tree? && end == FarEnd(s, a, b, stub)
      modifies `root, `m, m.Keys
      ensures m.Keys == old(m.Keys) && Splaying(Child(s, t), LinkedLeft(s, t, a), LinkedRight(s, t, b), stub)
      ensures end1 == t.node
    {
      LinkEither(s, t, a, b, m, stub);
      end1 := root;
      Hook(s, end, root);
      root := if s == L then root.left else root.right;
    }

    /** SPLAY_LINKLEFT or SPLAY_LINKRIGHT: the root goes to the end of one of the assembly trees. */
    method LinkOn(s: Side, left: Node, right: Node, ghost t: Tree, ghost a: Spine, ghost b: Spine, ghost stub: Node)
      returns (left1: Node, right1: Node)
      requires Splaying(t, a, b, stub) && t.Tree? && left == EndOf(a, stub) && right == EndOf(b, stub)
      modifies `root, `m, m.Keys
      ensures m.Keys == old(m.Keys) && Splaying(Child(s, t), LinkedLeft(s, t, a), LinkedRight(s, t, b), stub)
      ensures left1 == EndOf(LinkedLeft(s, t, a), stub) && right1 == EndOf(LinkedRight(s, t, b), stub)
    {
      left1, right1 := left, right;
      if s == L {
        right1 := LinkRoot(s, right, t, a, b, stub);
      } else {
        left1 := LinkRoot(s, left, t, a, b, stub);
      }
    }

    /** The link of the end to the root. */
    method Hook(s: Side, end: Node, top: Node)
      requires Agree(m) && end in m && top in m && end != top
      modifies `m, m.Keys
      ensures m == old(m[end := Put(s, m[end], top)]) && Agree(m)
      ensures (if s == L then top.left else top.right) == Of(s, old(m)[top])
    {
      ghost var m1 := m[end := Put(s, m[end], top)];
      if s == L {
        end.left := top;
      } else {
        end.right := top;
      }
      forall n | n in m1 ensures m1[n] == Cell(n.left, n.right) {
        if n != end {
          assert m1[n] == m[n];
        }
      }
      m := m1;
    }

    /** SPLAY_ASSEMBLE. */
    method Assemble(stub: Node, left: Node, right: Node, ghost t: Tree, ghost a: Spine, ghost b: Spine)
      requires Splaying(t, a, b, stub) && t.Tree? && left == EndOf(a, stub) && right == EndOf(b, stub)
      requires Sorted(Line(t, a, b))
      modifies this, m.Keys
      ensures m.Keys == old(m.Keys) - {stub} && Valid() && tree == Assembled(t, a, b)
      ensures Inorder(tree) == Line(t, a, b)
    {
      AssembleParts(t, a, b, m, stub);
      AssembledLine(t, a, b);
      RootApart(t, a, b, m, stub);
      Join(stub, left, right, root, t, a, b);
      tree := Assembled(t, a, b);
    }

    /** The four links of SPLAY_ASSEMBLE. */
    method Join(stub: Node, left: Node, right: Node, top: Node, ghost t: Tree, ghost a: Spine, ghost b: Spine)
      requires Agree(m) && stub in m && left in m && right in m && top in m && top !in {stub, left, right}
      requires t.Tree? && t.node == top && left == EndOf(a, stub) && right == EndOf(b, stub)
      requires m[top] == Cell(RootOf(t.left), RootOf(t.right))
      modifies `m, m.Keys
      ensures m == old(AssembledLinks(t, a, b, m, stub)) && Agree(m)
    {
      ghost var m1, m2 := EndLinks(t, a, b, m, stub), AssembledLinks(t, a, b, m, stub);
      left.right := top.left;
      right.left := top.right;
      assert Agree(m1) by {
        forall n | n in m1 ensures m1[n] == Cell(n.left, n.right) {
          if n != left && n != right {
            assert m1[n] == m[n];
          }
        }
      }
      top.left := stub.right;
      top.right := stub.left;
      forall n | n in m2 ensures m2[n] == Cell(n.left, n.right) {
        if n != top {
          assert m2[n] == m1[n];
        }
      }
      m := m2;
    }

    /** The stub the assembly trees start from. */
    method Begin() returns (stub: Node)
      requires Valid()
      modifies `m
      ensures fresh(stub) && m.Keys == old(m.Keys) + {stub} && Splaying(tree, Nil, Nil, stub)
    {
      stub := new Node(0);
      stub.left := null;
      stub.right := null;
      RepKeys(tree, m);
      ghost var m1 := m[stub := Cell(null, null)];
      RepFrame(tree, m, m1);
      m := m1;
    }

    /** A rotation, when the key lies further out than the child. */
    method RotateIfOuter(s: Side, k: int, tmp: Node, ghost t: Tree, ghost a: Spine, ghost b: Spine, ghost stub: Node)
      returns (ghost t1: Tree)
      requires Splaying(t, a, b, stub) && t.Tree? && RootOf(Child(s, t)) == tmp && OnSide(s, k, t.node)
      modifies `root, `m, m.Keys
      ensures m.Keys == old(m.Keys) && Splaying(t1, a, b, stub) && t1.Tree? && OnSide(s, k, t1.node)
      ensures Line(t1, a, b) == Line(t, a, b) && Child(s, t1) < t
    {
      t1 := t;
      if (if s == L then k < tmp.key else k > tmp.key) {
        Rotate(s, tmp, t, a, b, stub);
        RotateOrder(s, t);
        t1 := Rotated(s, t);
      }
    }

    /** The node with the key, or one right beside the place of the key, becomes the root. */
    method Splay(k: int)
      requires Valid() && root != null
      modifies this, m.Keys
      ensures Valid() && m.Keys == old(m.Keys) && Inorder(tree) == old(Inorder(tree)) && Closest(tree, k)
    {
      var stub := Begin();
      var left, right := stub, stub;
      ghost var t, a, b := tree, Nil, Nil;
      ghost var keys, q := m.Keys, Inorder(tree);
      assert Line(t, a, b) == q by { assert [] + q + [] == q; }
      while root.key != k
        invariant m.Keys == keys && Splaying(t, a, b, stub) && t.Tree? && Line(t, a, b) == q && Between(a, b, k)
        invariant left == EndOf(a, stub) && right == EndOf(b, stub)
        decreases t
      {
        var s := if k < root.key then L else R;
        OpenTree(s, t, m);
        var tmp := root.Get(s);
        if tmp == null {
          break;
        }
        t := RotateIfOuter(s, k, tmp, t, a, b, stub);
        OpenTree(s, t, m);
        if root.Get(s) == null {
          break;
        }
        LinkLine(s, t, a, b);
        LinkBetween(s, t, a, b, k);
        left, right := LinkOn(s, left, right, t, a, b, stub);
        t, a, b := Child(s, t), LinkedLeft(s, t, a), LinkedRight(s, t, b);
      }
      AssembledClosest(t, a, b, k);
      Assemble(stub, left, right, t, a, b);
    }

    /** SPLAY_FIND. */
    method Find(k: int) returns (r: Node?)
      requires Valid()
      modifies this, m.Keys
      ensures Valid() && m.Keys == old(m.Keys) && Inorder(tree) == old(Inorder(tree))
      ensures r != null ==> r in Inorder(tree) && r.key == k && r == root
      ensures r == null ==> forall n :: n in Inorder(tree) ==> n.key != k
    {
      if root == null {
        return null;
      }
      Splay(k);
      ClosestDecides(tree, k);
      r := if root.key == k then root else null;
    }

    /** SPLAY_INSERT: the key is found, or the node becomes the root. */
    method Insert(elm: Node) returns (found: Node?)
      requires Valid()
      modifies this, m.Keys, elm
      ensures Valid()
      ensures found != null ==> found in old(Inorder(tree)) && found.key == elm.key && root == found
      ensures found != null ==> Inorder(tree) == old(Inorder(tree)) && m.Keys == old(m.Keys)
      ensures found == null ==> forall n :: n in old(Inorder(tree)) ==> n.key != elm.key
      ensures found == null ==> Inorder(tree) == Inserted(old(Inorder(tree)), elm) && m.Keys == old(m.Keys) + {elm}
      ensures found == null ==> root == elm
    {
      if root == null {
        PutFirst(elm);
      } else {
        Splay(elm.key);
        ClosestDecides(tree, elm.key);
        if elm.key == root.key {
          return root;
        }
        InorderNodes(tree);
        PutOnTop(elm, if elm.key < root.key then L else R);
      }
      return null;
    }

    /** The new node above the root, on whose side `s` it belongs. */
    method PutOnTop(elm: Node, s: Side)
      requires Valid() && Closest(tree, elm.key) && OnSide(s, elm.key, tree.node) && elm !in m
      modifies this, m.Keys, elm
      ensures Valid() && m.Keys == old(m.Keys) + {elm} && root == elm
      ensures Inorder(tree) == Inserted(old(Inorder(tree)), elm)
    {
      SplitRep(s, tree, elm, m);
      SplitOrder(s, tree, elm);
      ghost var m1 := SplitLinks(s, tree, elm, m);
      if s == L {
        elm.left := root.left;
        elm.right := root;
        root.left := null;
      } else {
        elm.right := root.right;
        elm.left := root;
        root.right := null;
      }
      forall n | n in m1 ensures m1[n] == Cell(n.left, n.right) {
        if n != elm && n != root {
          assert m1[n] == m[n];
        }
      }
      m := m1;
      tree := Split(s, tree, elm);
      root := elm;
    }

    method PutFirst(elm: Node)
      requires Valid() && root == null
      modifies this, elm
      ensures Valid() && m.Keys == {elm} && old(m.Keys) == {} && root == elm
      ensures Inorder(tree) == Inserted(old(Inorder(tree)), elm)
    {
      elm.left, elm.right := null, null;
      root := elm;
      m := map[elm := Cell(null, null)];
      tree := Tree(Leaf, elm, Leaf);
    }

    method RotateOut(s: Side, tmp: Node, ghost t: Tree, ghost a: Spine, ghost b: Spine, ghost stub: Node) returns (ghost t1: Tree)
      requires Splaying(t, a, b, stub) && t.Tree? && RootOf(Child(s, t)) == tmp
      modifies `root, `m, m.Keys
      ensures m.Keys == old(m.Keys) && Splaying(t1, a, b, stub) && t1.Tree?
      ensures Line(t1, a, b) == Line(t, a, b) && Child(s, t1) < t
    {
      Rotate(s, tmp, t, a, b, stub);
      RotateOrder(s, t);
      t1 := Rotated(s, t);
    }

    /** SPLAY_MINMAX: the outermost node on one side becomes the root. */
    method SplayOut(s: Side)
      requires Valid() && root != null
      modifies this, m.Keys
      ensures Valid() && m.Keys == old(m.Keys) && Inorder(tree) == old(Inorder(tree))
      ensures tree.Tree? && Child(s, tree).Leaf?
    {
      var stub := Begin();
      var left, right := stub, stub;
      ghost var t, a, b := tree, Nil, Nil;
      ghost var keys, q := m.Keys, Inorder(tree);
      assert Line(t, a, b) == q by { assert [] + q + [] == q; }
      while true
        invariant m.Keys == keys && Splaying(t, a, b, stub) && t.Tree? && Line(t, a, b) == q
        invariant left == EndOf(a, stub) && right == EndOf(b, stub) && (if s == L then a.Nil? else b.Nil?)
        decreases t
      {
        OpenTree(s, t, m);
        var tmp := root.Get(s);
        if tmp == null {
          break;
        }
        t := RotateOut(s, tmp, t, a, b, stub);
        OpenTree(s, t, m);
        if root.Get(s) == null {
          break;
        }
        LinkLine(s, t, a, b);
        left, right := LinkOn(s, left, right, t, a, b, stub);
        t, a, b := Child(s, t), LinkedLeft(s, t, a), LinkedRight(s, t, b);
      }
      Assemble(stub, left, right, t, a, b);
    }

    /** SPLAY_MIN and SPLAY_MAX. */
    method MinMax(s: Side) returns (r: Node?)
      requires Valid()
      modifies this, m.Keys
      ensures Valid() && m.Keys == old(m.Keys) && Inorder(tree) == old(Inorder(tree)) && r == root
      ensures r == null <==> Inorder(tree) == []
      ensures r != null ==> r == if s == L then Inorder(tree)[0] else Inorder(tree)[|Inorder(tree)| - 1]
    {
      if root == null {
        return null;
      }
      SplayOut(s);
      Outermost(s, tree);
      return root;
    }

    /** SPLAY_REMOVE: the node with the key of `elm` goes; the result is `elm` itself. */
    method Remove(elm: Node) returns (r: Node?, ghost gone: Node?)
      requires Valid()
      modifies this, m.Keys
      ensures Valid()
      ensures gone == null ==> r == null && Inorder(tree) == old(Inorder(tree)) && m.Keys == old(m.Keys)
      ensures gone == null ==> forall n :: n in old(Inorder(tree)) ==> n.key != elm.key
      ensures gone != null ==> r == elm && gone in old(Inorder(tree)) && gone.key == elm.key
      ensures gone != null ==> Inorder(tree) == Deleted(old(Inorder(tree)), gone) && m.Keys == old(m.Keys) - {gone}
    {
      if root == null {
        return null, null;
      }
      Splay(elm.key);
      ClosestDecides(tree, elm.key);
      if root.key != elm.key {
        return null, null;
      }
      gone := root;
      RemoveRoot(elm.key);
      return elm, gone;
    }

    method RemoveRoot(k: int)
      requires Valid() && tree.Tree? && tree.node.key == k
      modifies this, m.Keys
      ensures Valid() && Inorder(tree) == Deleted(old(Inorder(tree)), old(root)) && m.Keys == old(m.Keys) - {old(root)}
    {
      ghost var t, m0 := tree, m;
      CutRoot(t, m);
      RemovedOrder(t);
      if root.left == null {
        root := root.right;
        m := Part(R, t, m);
        tree := t.right;
      } else {
        var tmp := root.right;
        root := root.left;
        m := Part(L, t, m);
        tree := t.left;
        JoinLargest(k, tmp, t.right, Part(R, t, m0));
      }
    }

    /** The tree's greatest node becomes its root and gets another tree on its right. */
    method JoinLargest(k: int, tmp: Node?, ghost r: Tree, ghost mr: Links)
      requires Valid() && root != null && KeysBelow(Inorder(tree), k) && Sorted(Inorder(tree) + Inorder(r))
      requires Agree(mr) && Rep(r, mr) && mr.Keys == Nodes(r) && mr.Keys !! m.Keys && RootOf(r) == tmp
      modifies this, m.Keys
      ensures Valid() && Inorder(tree) == old(Inorder(tree)) + Inorder(r) && m.Keys == old(m.Keys) + mr.Keys
    {
      Splay(k);
      LargestRoot(tree, k);
      JoinRep(tree, r, m, mr);
      JoinedOrder(tree, r);
      ghost var m2 := JoinedLinks(tree, r, m, mr);
      root.right := tmp;
      forall n | n in m2 ensures m2[n] == Cell(n.left, n.right) {
        if n != root {
          assert m2[n] == if n in mr then mr[n] else m[n];
        }
      }
      m := m2;
      tree := tree.(right := r);
    }
  }
}
