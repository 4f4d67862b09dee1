/** Shapes of binary trees with parent links: what the links of a tree look like, and what changing them does. */
module RbShape {
  import opened TreeNodes

  // ---------------------------------------------------------------- links

  /** The contents of a node, and the contents of many. */
  datatype Cell = Cell(left: Node?, right: Node?, parent: Node?, red: bool)

  type Links = map<Node, Cell>

  function Put(s: Side, cell: Cell, x: Node?): Cell {
    if s == L then cell.(left := x) else cell.(right := x)
  }

  function Sided(s: Side, near: Node?, far: Node?, parent: Node?, red: bool): Cell {
    if s == L then Cell(near, far, parent, red) else Cell(far, near, parent, red)
  }

  /** The nodes have these contents. */
  ghost predicate Agree(m: Links)
    reads m.Keys
  {
    forall n :: n in m ==> m[n] == Cell(n.left, n.right, n.parent, n.red)
  }

  // ---------------------------------------------------------------- shapes

  datatype Tree = Leaf | Tree(left: Tree, node: Node, red: bool, right: Tree)

  /** A tree with a hole: the way from the hole up to the root, with what hangs off it. */
  datatype Ctx = Top | In(side: Side, up: Ctx, node: Node, red: bool, other: Tree)

  function Mk(s: Side, near: Tree, n: Node, red: bool, far: Tree): Tree {
    if s == L then Tree(near, n, red, far) else Tree(far, n, red, near)
  }

  function Child(s: Side, t: Tree): Tree
    requires t.Tree?
  {
    if s == L then t.left else t.right
  }

  function RootOf(t: Tree): Node? {
    if t.Leaf? then null else t.node
  }

  function CtxParent(c: Ctx): Node? {
    if c.Top? then null else c.node
  }

  function CtxRoot(c: Ctx, x: Node?): Node? {
    if c.Top? then x else CtxRoot(c.up, c.node)
  }

  function Plug(c: Ctx, t: Tree): Tree {
    if c.Top? then t else Plug(c.up, Mk(c.side, t, c.node, c.red, c.other))
  }

  ghost function Nodes(t: Tree): set<Node> {
    if t.Leaf? then {} else Nodes(t.left) + {t.node} + Nodes(t.right)
  }

  ghost function CtxNodes(c: Ctx): set<Node> {
    if c.Top? then {} else CtxNodes(c.up) + {c.node} + Nodes(c.other)
  }

  /** The links are those of a tree of this shape below `p`. */
  ghost predicate Rep(t: Tree, p: Node?, m: Links) {
    t.Tree? ==>
      && t.node in m && m[t.node] == Cell(RootOf(t.left), RootOf(t.right), p, t.red)
      && t.node !in Nodes(t.left) && t.node !in Nodes(t.right) && Nodes(t.left) !! Nodes(t.right)
      && Rep(t.left, t.node, m) && Rep(t.right, t.node, m)
  }

  /** The links are those of a context with `x` in its hole. */
  ghost predicate RepCtx(c: Ctx, x: Node?, m: Links) {
    c.In? ==>
      && c.node in m && m[c.node] == Sided(c.side, x, RootOf(c.other), CtxParent(c.up), c.red)
      && c.node !in Nodes(c.other) && c.node !in CtxNodes(c.up) && Nodes(c.other) !! CtxNodes(c.up)
      && Rep(c.other, c.node, m) && RepCtx(c.up, c.node, m)
  }

  /** The whole tree, seen with the focus on the part `t`. */
  ghost predicate At(c: Ctx, t: Tree, m: Links, root: Node?) {
    && Rep(t, CtxParent(c), m) && RepCtx(c, RootOf(t), m)
    && Nodes(t) !! CtxNodes(c) && m.Keys == Nodes(t) + CtxNodes(c)
    && root == CtxRoot(c, RootOf(t))
  }

  // ---------------------------------------------------------------- seen from a side

  lemma OpenTree(s: Side, t: Tree, p: Node?, m: Links)
    requires Rep(t, p, m) && t.Tree?
    ensures var a, b := Child(s, t), Child(Opp(s), t);
            && t == Mk(s, a, t.node, t.red, b)
            && t.node in m && m[t.node] == Sided(s, RootOf(a), RootOf(b), p, t.red)
            && t.node !in Nodes(a) && t.node !in Nodes(b) && Nodes(a) !! Nodes(b)
            && Rep(a, t.node, m) && Rep(b, t.node, m)
            && Nodes(t) == Nodes(a) + {t.node} + Nodes(b)
  {
  }

  lemma CloseTree(s: Side, a: Tree, n: Node, red: bool, b: Tree, p: Node?, m: Links)
    requires n in m && m[n] == Sided(s, RootOf(a), RootOf(b), p, red)
    requires n !in Nodes(a) && n !in Nodes(b) && Nodes(a) !! Nodes(b)
    requires Rep(a, n, m) && Rep(b, n, m)
    ensures Rep(Mk(s, a, n, red, b), p, m)
    ensures Nodes(Mk(s, a, n, red, b)) == Nodes(a) + {n} + Nodes(b)
  {
  }

  /** Moving the focus up and down changes nothing. */
  lemma Up(c: Ctx, t: Tree, m: Links, root: Node?)
    requires At(c, t, m, root) && c.In?
    ensures At(c.up, Mk(c.side, t, c.node, c.red, c.other), m, root)
  {
    CloseTree(c.side, t, c.node, c.red, c.other, CtxParent(c.up), m);
  }

  lemma Down(s: Side, c: Ctx, t: Tree, m: Links, root: Node?)
    requires At(c, t, m, root) && t.Tree?
    ensures At(In(s, c, t.node, t.red, Child(Opp(s), t)), Child(s, t), m, root)
    ensures RootOf(Child(s, t)) == if s == L then m[t.node].left else m[t.node].right
  {
    OpenTree(s, t, CtxParent(c), m);
  }

  // ---------------------------------------------------------------- changing links

  lemma {:induction false} RepFrame(t: Tree, p: Node?, m: Links, m': Links)
    requires Rep(t, p, m) && forall n :: n in Nodes(t) ==> n in m && n in m' && m'[n] == m[n]
    ensures Rep(t, p, m')
  {
    if t.Tree? {
      RepFrame(t.left, t.node, m, m');
      RepFrame(t.right, t.node, m, m');
    }
  }

  lemma {:induction false} CtxFrame(c: Ctx, x: Node?, m: Links, m': Links)
    requires RepCtx(c, x, m) && forall n :: n in CtxNodes(c) ==> n in m && n in m' && m'[n] == m[n]
    ensures RepCtx(c, x, m')
  {
    if c.In? {
      RepFrame(c.other, c.node, m, m');
      CtxFrame(c.up, c.node, m, m');
    }
  }

  lemma {:induction false} RepKeys(t: Tree, p: Node?, m: Links)
    requires Rep(t, p, m)
    ensures Nodes(t) <= m.Keys
  {
    if t.Tree? {
      RepKeys(t.left, t.node, m);
      RepKeys(t.right, t.node, m);
    }
  }

  /** A tree moved below another parent. */
  lemma Reparent(t: Tree, p: Node?, q: Node?, m: Links, m': Links)
    requires Rep(t, p, m)
    requires forall n :: n in Nodes(t) ==> n in m && n in m'
    requires forall n :: n in Nodes(t) && n != RootOf(t) ==> m'[n] == m[n]
    requires t.Tree? ==> m'[t.node] == m[t.node].(parent := q)
    ensures Rep(t, q, m')
  {
    if t.Tree? {
      RepFrame(t.left, t.node, m, m');
      RepFrame(t.right, t.node, m, m');
    }
  }

  /** Another node in the hole. */
  lemma Refill(c: Ctx, x: Node?, y: Node?, m: Links, m': Links)
    requires RepCtx(c, x, m)
    requires forall n :: n in CtxNodes(c) ==> n in m'
    requires forall n :: n in CtxNodes(c) && n != CtxParent(c) ==> n in m && m'[n] == m[n]
    requires c.In? ==> m'[c.node] == Put(c.side, m[c.node], y)
    ensures RepCtx(c, y, m')
  {
    if c.In? {
      RepKeys(c.other, c.node, m);
      RepFrame(c.other, c.node, m, m');
      CtxFrame(c.up, c.node, m, m');
    }
  }

  function Rotated(s: Side, t: Tree): Tree
    requires t.Tree? && Child(Opp(s), t).Tree?
  {
    var u := Child(Opp(s), t);
    Mk(s, Mk(s, Child(s, t), t.node, t.red, Child(s, u)), u.node, u.red, Child(Opp(s), u))
  }

  /** The links after a rotation: those of the two nodes, of the middle subtree's root and of the parent change. */
  function RotatedLinks(s: Side, c: Ctx, t: Tree, m: Links): Links
    requires t.Tree? && Child(Opp(s), t).Tree?
    requires c.In? ==> c.node in m
    requires Child(s, Child(Opp(s), t)).Tree? ==> Child(s, Child(Opp(s), t)).node in m
  {
    var u := Child(Opp(s), t);
    var b := Child(s, u);
    var m1 := if b.Tree? then m[b.node := m[b.node].(parent := t.node)] else m;
    var m2 := if c.In? then m1[c.node := Put(c.side, m[c.node], u.node)] else m1;
    m2[t.node := Sided(s, RootOf(Child(s, t)), RootOf(b), u.node, t.red)]
      [u.node := Sided(s, t.node, RootOf(Child(Opp(s), u)), CtxParent(c), u.red)]
  }

  lemma NodesMk(s: Side, a: Tree, n: Node, red: bool, b: Tree)
    ensures Nodes(Mk(s, a, n, red, b)) == Nodes(a) + {n} + Nodes(b)
  {
  }

  lemma RotatedNodes(s: Side, t: Tree)
    requires t.Tree? && Child(Opp(s), t).Tree?
    ensures Nodes(Rotated(s, t)) == Nodes(t)
  {
    var u := Child(Opp(s), t);
    NodesMk(s, Child(s, t), t.node, t.red, u);
    NodesMk(s, Child(s, u), u.node, u.red, Child(Opp(s), u));
    NodesMk(s, Child(s, t), t.node, t.red, Child(s, u));
    NodesMk(s, Mk(s, Child(s, t), t.node, t.red, Child(s, u)), u.node, u.red, Child(Opp(s), u));
    assert t == Mk(s, Child(s, t), t.node, t.red, u) && u == Mk(s, Child(s, u), u.node, u.red, Child(Opp(s), u));
  }

  lemma CtxKeys(c: Ctx, x: Node?, m: Links)
    requires RepCtx(c, x, m)
    ensures c.In? ==> c.node in m && c.node in CtxNodes(c)
  {
  }

  /** The four parts of a rotation are apart from each other and from the two nodes. */
  ghost predicate Apart(n: Node, k: Node, a: Tree, b: Tree, g: Tree, c: Ctx) {
    && n != k && {n, k} !! Nodes(a) + Nodes(b) + Nodes(g) + CtxNodes(c)
    && Nodes(a) !! Nodes(b) && Nodes(a) + Nodes(b) !! Nodes(g)
    && Nodes(a) + Nodes(b) + Nodes(g) !! CtxNodes(c)
  }

  lemma RotateApart(s: Side, c: Ctx, t: Tree, m: Links, root: Node?)
    requires At(c, t, m, root) && t.Tree? && Child(Opp(s), t).Tree?
    ensures var u := Child(Opp(s), t);
            var a, b, g := Child(s, t), Child(s, u), Child(Opp(s), u);
            && Apart(t.node, u.node, a, b, g, c)
            && Rep(a, t.node, m) && Rep(b, u.node, m) && Rep(g, u.node, m)
            && (c.In? ==> c.node in m && c.node in CtxNodes(c)) && (b.Tree? ==> b.node in m && b.node in Nodes(b))
            && t.node in m && u.node in m
  {
    var u := Child(Opp(s), t);
    OpenTree(s, t, CtxParent(c), m);
    OpenTree(s, u, t.node, m);
    CtxKeys(c, t.node, m);
  }

  /** The subtrees, with their links as the rotation leaves them. */
  lemma RotateParts(s: Side, c: Ctx, t: Tree, m: Links, root: Node?)
    requires At(c, t, m, root) && t.Tree? && Child(Opp(s), t).Tree?
    ensures var u := Child(Opp(s), t);
            var a, b, g := Child(s, t), Child(s, u), Child(Opp(s), u);
            && (c.In? ==> c.node in m) && (b.Tree? ==> b.node in m)
            && var m' := RotatedLinks(s, c, t, m);
            && m'.Keys == m.Keys && Rep(a, t.node, m') && Rep(b, t.node, m') && Rep(g, u.node, m')
  {
    RotateApart(s, c, t, m, root);
    var u := Child(Opp(s), t);
    var a, b, g := Child(s, t), Child(s, u), Child(Opp(s), u);
    var m' := RotatedLinks(s, c, t, m);
    RepKeys(a, t.node, m);
    RepKeys(b, u.node, m);
    RepKeys(g, u.node, m);
    RepFrame(a, t.node, m, m');
    RepFrame(g, u.node, m, m');
    Reparent(b, u.node, t.node, m, m');
  }

  /** The context, likewise. */
  lemma RotateCtx(s: Side, c: Ctx, t: Tree, m: Links, root: Node?)
    requires At(c, t, m, root) && t.Tree? && Child(Opp(s), t).Tree?
    ensures var u := Child(Opp(s), t);
            && (c.In? ==> c.node in m) && (Child(s, u).Tree? ==> Child(s, u).node in m)
            && RepCtx(c, u.node, RotatedLinks(s, c, t, m))
  {
    RotateApart(s, c, t, m, root);
    Refill(c, t.node, Child(Opp(s), t).node, m, RotatedLinks(s, c, t, m));
  }

  lemma RotateAt(s: Side, c: Ctx, t: Tree, m: Links, root: Node?)
    requires At(c, t, m, root) && t.Tree? && Child(Opp(s), t).Tree?
    ensures var u := Child(Opp(s), t);
            && (c.In? ==> c.node in m) && (Child(s, u).Tree? ==> Child(s, u).node in m)
            && At(c, Rotated(s, t), RotatedLinks(s, c, t, m), CtxRoot(c, u.node))
  {
    RotateApart(s, c, t, m, root);
    RotateParts(s, c, t, m, root);
    RotateCtx(s, c, t, m, root);
    RotatedNodes(s, t);
    var u := Child(Opp(s), t);
    var m' := RotatedLinks(s, c, t, m);
    var low := Mk(s, Child(s, t), t.node, t.red, Child(s, u));
    CloseTree(s, Child(s, t), t.node, t.red, Child(s, u), u.node, m');
    CloseTree(s, low, u.node, u.red, Child(Opp(s), u), CtxParent(c), m');
  }

  // ---------------------------------------------------------------- taking a node out

  /** One context below another. */
  function Graft(c: Ctx, d: Ctx): Ctx {
    if d.Top? then c else In(d.side, Graft(c, d.up), d.node, d.red, d.other)
  }

  lemma {:induction false} GraftUp(c: Ctx, d: Ctx, t: Tree, m: Links, root: Node?)
    requires At(Graft(c, d), t, m, root)
    ensures At(c, Plug(d, t), m, root)
  {
    if d.In? {
      Up(Graft(c, d), t, m, root);
      GraftUp(c, d.up, Mk(d.side, t, d.node, d.red, d.other), m, root);
    }
  }

  lemma {:induction false} GraftDown(c: Ctx, d: Ctx, t: Tree, m: Links, root: Node?)
    requires At(c, Plug(d, t), m, root)
    ensures At(Graft(c, d), t, m, root)
  {
    if d.In? {
      var u := Mk(d.side, t, d.node, d.red, d.other);
      GraftDown(c, d.up, u, m, root);
      Down(d.side, Graft(c, d.up), u, m, root);
    }
  }

  /** A node with at most one child gives way to the child. */
  predicate OnlyChild(t: Tree, k: Tree) {
    t.Tree? && ((t.left.Leaf? && k == t.right) || (t.right.Leaf? && k == t.left))
  }

  function UnlinkedLinks(c: Ctx, t: Tree, k: Tree, m: Links): Links
    requires t.Tree? && (c.In? ==> c.node in m) && (k.Tree? ==> k.node in m)
  {
    var m1 := if k.Tree? then m[k.node := m[k.node].(parent := CtxParent(c))] else m;
    var m2 := if c.In? then m1[c.node := Put(c.side, m[c.node], RootOf(k))] else m1;
    m2 - {t.node}
  }

  lemma UnlinkAt(c: Ctx, t: Tree, k: Tree, m: Links, root: Node?)
    requires At(c, t, m, root) && OnlyChild(t, k)
    ensures t.node in m && m[t.node].parent == CtxParent(c)
    ensures (c.In? ==> c.node in m && c.node != t.node) && (k.Tree? ==> k.node in m && k.node != t.node && k.node != CtxParent(c))
    ensures UnlinkedLinks(c, t, k, m).Keys == m.Keys - {t.node}
    ensures At(c, k, UnlinkedLinks(c, t, k, m), if c.In? then root else RootOf(k))
  {
    OpenTree(L, t, CtxParent(c), m);
    CtxKeys(c, t.node, m);
    RepKeys(k, t.node, m);
    var m' := UnlinkedLinks(c, t, k, m);
    assert k.Tree? ==> k.node in Nodes(k);
    Reparent(k, t.node, CtxParent(c), m, m');
    Refill(c, t.node, RootOf(k), m, m');
  }

  /** Another node in the place of the focused one. */
  function ReplacedLinks(elm: Node, c: Ctx, t: Tree, m: Links): Links
    requires t.Tree? && (c.In? ==> c.node in m) && (t.left.Tree? ==> t.left.node in m) && (t.right.Tree? ==> t.right.node in m)
  {
    var m1 := if c.In? then m[c.node := Put(c.side, m[c.node], elm)] else m;
    var m2 := if t.left.Tree? then m1[t.left.node := m[t.left.node].(parent := elm)] else m1;
    var m3 := if t.right.Tree? then m2[t.right.node := m[t.right.node].(parent := elm)] else m2;
    m3[elm := Cell(RootOf(t.left), RootOf(t.right), CtxParent(c), t.red)] - {t.node}
  }

  lemma ReplaceFacts(c: Ctx, t: Tree, m: Links, root: Node?)
    requires At(c, t, m, root) && t.Tree?
    ensures var l, r := t.left, t.right;
            && t.node in m && m[t.node] == Cell(RootOf(l), RootOf(r), CtxParent(c), t.red)
            && (c.In? ==> c.node in m && c.node != t.node && RootOf(l) != c.node && RootOf(r) != c.node)
            && (l.Tree? ==> l.node in m && l.node in Nodes(l) && l.node != t.node && RootOf(r) != l.node)
            && (r.Tree? ==> r.node in m && r.node in Nodes(r) && r.node != t.node)
  {
    OpenTree(L, t, CtxParent(c), m);
    CtxKeys(c, t.node, m);
  }

  lemma ReplaceParts(elm: Node, c: Ctx, t: Tree, m: Links, root: Node?)
    requires At(c, t, m, root) && t.Tree? && elm !in m
    ensures (c.In? ==> c.node in m) && (t.left.Tree? ==> t.left.node in m) && (t.right.Tree? ==> t.right.node in m)
    ensures var m' := ReplacedLinks(elm, c, t, m);
            && m'.Keys == m.Keys - {t.node} + {elm} && m'[elm] == Cell(RootOf(t.left), RootOf(t.right), CtxParent(c), t.red)
            && Rep(t.left, elm, m') && Rep(t.right, elm, m')
  {
    ReplaceFacts(c, t, m, root);
    RepKeys(t.left, t.node, m);
    RepKeys(t.right, t.node, m);
    var m' := ReplacedLinks(elm, c, t, m);
    Reparent(t.left, t.node, elm, m, m');
    Reparent(t.right, t.node, elm, m, m');
  }

  lemma ReplaceCtx(elm: Node, c: Ctx, t: Tree, m: Links, root: Node?)
    requires At(c, t, m, root) && t.Tree? && elm !in m
    ensures (c.In? ==> c.node in m) && (t.left.Tree? ==> t.left.node in m) && (t.right.Tree? ==> t.right.node in m)
    ensures RepCtx(c, elm, ReplacedLinks(elm, c, t, m))
  {
    ReplaceFacts(c, t, m, root);
    OpenTree(L, t, CtxParent(c), m);
    Refill(c, t.node, elm, m, ReplacedLinks(elm, c, t, m));
  }

  lemma ReplaceAt(elm: Node, c: Ctx, t: Tree, m: Links, root: Node?)
    requires At(c, t, m, root) && t.Tree? && elm !in m
    ensures (c.In? ==> c.node in m) && (t.left.Tree? ==> t.left.node in m) && (t.right.Tree? ==> t.right.node in m)
    ensures ReplacedLinks(elm, c, t, m).Keys == m.Keys - {t.node} + {elm}
    ensures At(c, Tree(t.left, elm, t.red, t.right), ReplacedLinks(elm, c, t, m), if c.In? then root else elm)
  {
    OpenTree(L, t, CtxParent(c), m);
    ReplaceParts(elm, c, t, m, root);
    ReplaceCtx(elm, c, t, m, root);
    CloseTree(L, t.left, elm, t.red, t.right, CtxParent(c), ReplacedLinks(elm, c, t, m));
  }
}
