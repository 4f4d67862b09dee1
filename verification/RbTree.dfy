/** The red-black tree of the RB macros, on nodes with parent pointers.  The mirrored halves of the colour loops are one
    branch with a side as parameter. */
module RbTree {
  import opened TreeNodes
  import opened NodeOrder
  import opened RbShape
  import opened RbColor

  // ---------------------------------------------------------------- shapes under painting and focus moves

  lemma MkOpp(s: Side, a: Tree, n: Node, red: bool, b: Tree)
    ensures Mk(Opp(s), a, n, red, b) == Mk(s, b, n, red, a)
    ensures Child(s, Mk(s, a, n, red, b)) == a && Child(Opp(s), Mk(s, a, n, red, b)) == b
    ensures Opp(Opp(s)) == s
  {
  }

  lemma PaintAt(c: Ctx, t: Tree, m: Links, root: Node?, red: bool)
    requires At(c, t, m, root) && t.Tree?
    ensures t.node in m && At(c, t.(red := red), m[t.node := m[t.node].(red := red)], root)
  {
    var m' := m[t.node := m[t.node].(red := red)];
    RepKeys(t, CtxParent(c), m);
    RepFrame(t.left, t.node, m, m');
    RepFrame(t.right, t.node, m, m');
    CtxFrame(c, t.node, m, m');
  }

  /** Painting the parent of the focus. */
  lemma PaintParentAt(c: Ctx, t: Tree, m: Links, root: Node?, red: bool)
    requires At(c, t, m, root) && c.In?
    ensures c.node in m && At(c.(red := red), t, m[c.node := m[c.node].(red := red)], root)
  {
    var m' := m[c.node := m[c.node].(red := red)];
    RepFrame(t, CtxParent(c), m, m');
    RepFrame(c.other, c.node, m, m');
    CtxFrame(c.up, c.node, m, m');
  }

  lemma {:induction false} PlugAt(c: Ctx, t: Tree, m: Links, root: Node?)
    requires At(c, t, m, root)
    ensures At(Top, Plug(c, t), m, root)
  {
    if c.In? {
      Up(c, t, m, root);
      PlugAt(c.up, Mk(c.side, t, c.node, c.red, c.other), m, root);
    }
  }

  /** A node is a left child of its parent iff the context says so. */
  lemma WhichChild(c: Ctx, t: Tree, m: Links, root: Node?)
    requires At(c, t, m, root) && t.Tree?
    ensures c.In? ==> c.node in m && (m[c.node].left == t.node <==> c.side == L)
  {
    if c.In? && c.other.Tree? {
      assert c.other.node in Nodes(c.other);
    }
  }

  /** What a rotation finds. */
  lemma RotateFacts(s: Side, c: Ctx, t: Tree, m: Links, root: Node?)
    requires At(c, t, m, root) && t.Tree? && Child(Opp(s), t).Tree?
    ensures var u := Child(Opp(s), t);
            var b, p := Child(s, u), CtxParent(c);
            && t.node in m && m[t.node] == Sided(s, RootOf(Child(s, t)), u.node, p, t.red)
            && u.node in m && m[u.node] == Sided(s, RootOf(b), RootOf(Child(Opp(s), u)), t.node, u.red)
            && t.node != u.node && p != t.node && p != u.node
            && RootOf(b) != t.node && RootOf(b) != u.node && (p != null ==> RootOf(b) != p)
            && (b.Tree? ==> b.node in m && m[b.node].parent == u.node)
            && (c.In? ==> c.node in m && (m[c.node].left == t.node <==> c.side == L))
  {
    RotateApart(s, c, t, m, root);
    OpenTree(s, t, CtxParent(c), m);
    OpenTree(s, Child(Opp(s), t), t.node, m);
    WhichChild(c, t, m, root);
  }

  /** The links of a rotation, as the nodes found tell them. */
  ghost predicate Turns(s: Side, elm: Node, tmp: Node, mid: Node?, p: Node?, m: Links, m': Links) {
    && elm in m && tmp in m && (mid != null ==> mid in m) && (p != null ==> p in m) && m'.Keys == m.Keys
    && elm != tmp && p != elm && p != tmp && mid != elm && mid != tmp && (mid != null ==> mid != p)
    && m'[elm] == Sided(s, if s == L then m[elm].left else m[elm].right, mid, tmp, m[elm].red)
    && m'[tmp] == Sided(s, elm, if s == L then m[tmp].right else m[tmp].left, p, m[tmp].red)
    && (mid != null ==> m'[mid] == m[mid].(parent := elm))
    && (p != null ==> m'[p] == if m[p].left == elm then m[p].(left := tmp) else m[p].(right := tmp))
    && forall n :: n in m && n != elm && n != tmp && n != mid && n != p ==> m'[n] == m[n]
  }

  ghost predicate FirstHalf(s: Side, elm: Node, tmp: Node, mid: Node?, m: Links, m1: Links) {
    && elm in m && tmp in m && (mid != null ==> mid in m) && m1.Keys == m.Keys
    && elm != tmp && mid != elm && mid != tmp
    && m1[elm] == Put(Opp(s), m[elm], mid)
    && m1[tmp] == m[tmp].(parent := m[elm].parent)
    && (mid != null ==> m1[mid] == m[mid].(parent := elm))
    && forall n :: n in m && n != elm && n != tmp && n != mid ==> m1[n] == m[n]
  }

  ghost predicate SecondHalf(s: Side, elm: Node, tmp: Node, p: Node?, m1: Links, m2: Links) {
    && elm in m1 && tmp in m1 && (p != null ==> p in m1) && m2.Keys == m1.Keys
    && elm != tmp && p != elm && p != tmp
    && m2[elm] == m1[elm].(parent := tmp)
    && m2[tmp] == Put(s, m1[tmp], elm)
    && (p != null ==> m2[p] == if m1[p].left == elm then m1[p].(left := tmp) else m1[p].(right := tmp))
    && forall n :: n in m1 && n != elm && n != tmp && n != p ==> m2[n] == m1[n]
  }

  /** The links half-way through a rotation. */
  ghost function HalfLinks(s: Side, elm: Node, tmp: Node, m: Links): Links
    requires elm in m && tmp in m
  {
    var mid := if s == L then m[tmp].left else m[tmp].right;
    var m1 := m[elm := Put(Opp(s), m[elm], mid)][tmp := m[tmp].(parent := m[elm].parent)];
    if mid != null && mid in m then m1[mid := m[mid].(parent := elm)] else m1
  }

  lemma TurnHalves(s: Side, elm: Node, tmp: Node, mid: Node?, p: Node?, m: Links, m2: Links)
    requires Turns(s, elm, tmp, mid, p, m, m2)
    requires mid == (if s == L then m[tmp].left else m[tmp].right) && m[elm].parent == p
    ensures FirstHalf(s, elm, tmp, mid, m, HalfLinks(s, elm, tmp, m))
    ensures SecondHalf(s, elm, tmp, p, HalfLinks(s, elm, tmp, m), m2)
  {
  }

  lemma RotateTurns(s: Side, c: Ctx, t: Tree, m: Links, root: Node?)
    requires At(c, t, m, root) && t.Tree? && Child(Opp(s), t).Tree?
    ensures var u := Child(Opp(s), t);
            && t.node in m && (if s == L then m[t.node].right else m[t.node].left) == u.node
            && u.node in m && (if s == L then m[u.node].left else m[u.node].right) == RootOf(Child(s, u))
            && m[t.node].parent == CtxParent(c)
            && (c.In? ==> c.node in m) && (Child(s, u).Tree? ==> Child(s, u).node in m)
            && Turns(s, t.node, u.node, RootOf(Child(s, u)), CtxParent(c), m, RotatedLinks(s, c, t, m))
  {
    RotateFacts(s, c, t, m, root);
    RotateApart(s, c, t, m, root);
  }

  /** Everything a rotation needs to know beforehand. */
  lemma RotatePlan(s: Side, c: Ctx, t: Tree, m: Links, root: Node?)
    requires At(c, t, m, root) && t.Tree? && Child(Opp(s), t).Tree?
    ensures var u := Child(Opp(s), t);
            && t.node in m && (if s == L then m[t.node].right else m[t.node].left) == u.node && u.node in m
            && (c.In? ==> c.node in m) && (Child(s, u).Tree? ==> Child(s, u).node in m)
            && m[t.node].parent == CtxParent(c)
            && var m1, m2 := HalfLinks(s, t.node, u.node, m), RotatedLinks(s, c, t, m);
            && FirstHalf(s, t.node, u.node, if s == L then m[u.node].left else m[u.node].right, m, m1)
            && SecondHalf(s, t.node, u.node, CtxParent(c), m1, m2) && m1[t.node].parent == CtxParent(c)
            && At(c, Rotated(s, t), m2, CtxRoot(c, u.node)) && m2.Keys == m1.Keys == m.Keys
            && CtxRoot(c, u.node) == if CtxParent(c) == null then u.node else root
  {
    RotateTurns(s, c, t, m, root);
    RotateAt(s, c, t, m, root);
    TurnHalves(s, t.node, Child(Opp(s), t).node, RootOf(Child(s, Child(Opp(s), t))), CtxParent(c), m, RotatedLinks(s, c, t, m));
  }

  lemma RotatedAway(s: Side, t: Tree, p: Node, red: bool, sib: Tree, g: Node, gred: bool, u: Tree)
    ensures var f := Mk(s, Mk(s, t, p, red, sib), g, gred, u);
            && f.Tree? && f.node == g && Child(s, f).Tree? && Opp(Opp(s)) == s
            && Rotated(Opp(s), f) == Mk(s, t, p, red, Mk(s, sib, g, gred, u))
            && Child(s, Rotated(Opp(s), f)) == t && Child(Opp(s), Rotated(Opp(s), f)) == Mk(s, sib, g, gred, u)
  {
  }

  /** What the links say about a node and its surroundings. */
  lemma Kin(c: Ctx, t: Tree, m: Links, root: Node?)
    requires At(c, t, m, root) && c.In?
    ensures t.Tree? ==> t.node in m && m[t.node].parent == c.node && m[t.node].red == t.red
    ensures c.node in m && m[c.node] == Sided(c.side, RootOf(t), RootOf(c.other), CtxParent(c.up), c.red)
    ensures RootOf(t) != null || RootOf(c.other) != null ==> RootOf(t) != RootOf(c.other)
    ensures c.other.Tree? ==> c.other.node in m && m[c.other.node].red == c.other.red
    ensures At(c.up, Mk(c.side, t, c.node, c.red, c.other), m, root)
  {
    Up(c, t, m, root);
    if t.Tree? && c.other.Tree? {
      assert t.node in Nodes(t) && c.other.node in Nodes(c.other);
    }
  }

  function Depth(c: Ctx): nat {
    if c.Top? then 0 else 1 + Depth(c.up)
  }

  lemma PlugTree(c: Ctx, t: Tree)
    requires t.Tree?
    ensures Plug(c, t).Tree?
  {
  }

  /** A new node in an empty place. */
  function LinkedLinks(elm: Node, c: Ctx, m: Links): Links
    requires c.In? ==> c.node in m
  {
    var m1 := if c.In? then m[c.node := Put(c.side, m[c.node], elm)] else m;
    m1[elm := Cell(null, null, CtxParent(c), true)]
  }

  lemma LinkAt(elm: Node, c: Ctx, m: Links, root: Node?)
    requires At(c, Leaf, m, root) && elm !in m
    ensures c.In? ==> c.node in m && c.node != elm
    ensures At(c, Tree(Leaf, elm, true, Leaf), LinkedLinks(elm, c, m), if c.In? then root else elm)
  {
    CtxKeys(c, null, m);
    var m' := LinkedLinks(elm, c, m);
    assert m.Keys == CtxNodes(c);
    Refill(c, null, elm, m, m');
  }

  /** One step of a search: the child's place, and what is known there. */
  lemma SearchStep(s: Side, c: Ctx, t: Tree, k: int, m: Links, root: Node?)
    requires At(c, t, m, root) && t.Tree? && Sound(c, t) && Between(c, k) && Sorted(Inorder(Plug(c, t)))
    requires if s == L then k < t.node.key else k > t.node.key
    ensures var c1, t1 := In(s, c, t.node, t.red, Child(Opp(s), t)), Child(s, t);
            && At(c1, t1, m, root) && Sound(c1, t1) && Between(c1, k) && Plug(c1, t1) == Plug(c, t)
    ensures t.node in m && RootOf(Child(s, t)) == if s == L then m[t.node].left else m[t.node].right
  {
    Down(s, c, t, m, root);
    SoundDown(s, c, t);
    Descend(s, c, t, k);
  }

  /** A key not found is not in the tree. */
  lemma NotThere(c: Ctx, k: int)
    requires Between(c, k)
    ensures Inorder(Plug(c, Leaf)) == Before(c) + Behind(c)
    ensures forall n :: n in Before(c) + Behind(c) ==> n.key != k
  {
    InorderPlug(c, Leaf);
    assert Before(c) + [] + Behind(c) == Before(c) + Behind(c);
  }

  lemma PlaceOrder(elm: Node, c: Ctx)
    requires Between(c, elm.key) && Sorted(Inorder(Plug(c, Leaf)))
    ensures Inorder(Plug(c, Tree(Leaf, elm, true, Leaf))) == Inserted(Inorder(Plug(c, Leaf)), elm)
    ensures Sorted(Inserted(Inorder(Plug(c, Leaf)), elm))
    ensures elm !in Inorder(Plug(c, Leaf))
  {
    var a, b, q := Before(c), Behind(c), Inorder(Plug(c, Leaf));
    assert q == a + b && elm !in q by {
      NotThere(c, elm.key);
    }
    assert Inorder(Plug(c, Tree(Leaf, elm, true, Leaf))) == a + [elm] + b by {
      InorderPlug(c, Tree(Leaf, elm, true, Leaf));
      assert Inorder(Tree(Leaf, elm, true, Leaf)) == [elm];
    }
    InsertedBetween(a, b, elm);
    assert Sorted(a + [elm] + b) by {
      assert Sorted(a + b);
      SortedInserted(a, b, elm);
    }
  }

  lemma FoundFirst(c: Ctx, t: Tree)
    requires t.Tree? && Sorted(Inorder(Plug(c, t)))
    ensures FirstAtLeast(Inorder(Plug(c, t)), t.node.key) == t.node
  {
    InorderPlug(c, t);
    NodeBetween(c, t);
    var a, b := Before(c) + Inorder(t.left), [t.node] + Inorder(t.right) + Behind(c);
    assert Before(c) + Inorder(t) + Behind(c) == a + b;
    FirstBetween(a, b, t.node.key);
  }

  /** The focus moves to the sibling, and back. */
  lemma Across(c: Ctx, t: Tree, m: Links, root: Node?)
    requires At(c, t, m, root) && c.In?
    ensures At(In(Opp(c.side), c.up, c.node, c.red, t), c.other, m, root)
  {
    Up(c, t, m, root);
    MkOpp(c.side, t, c.node, c.red, c.other);
    Down(Opp(c.side), c.up, Mk(c.side, t, c.node, c.red, c.other), m, root);
  }

  /** What the links say about the sibling's children. */
  lemma Nephews(c: Ctx, t: Tree, m: Links, root: Node?)
    requires At(c, t, m, root) && c.In? && c.other.Tree?
    ensures var l, r := c.other.left, c.other.right;
            && c.other.node in m && m[c.other.node].left == RootOf(l) && m[c.other.node].right == RootOf(r)
            && (l.Tree? ==> l.node in m && m[l.node].red == l.red)
            && (r.Tree? ==> r.node in m && m[r.node].red == r.red)
  {
    OpenTree(L, c.other, c.node, m);
  }

  /** The focus is the whole tree iff its root is. */
  lemma RootThere(c: Ctx, t: Tree, m: Links, root: Node?)
    requires At(c, t, m, root)
    ensures RootOf(t) == root <==> c.Top?
  {
    if c.In? {
      RootIn(c, RootOf(t));
      if t.Tree? {
        assert t.node in Nodes(t);
      }
    }
  }

  /** What the links say about the focused node. */
  lemma FocusCell(c: Ctx, t: Tree, m: Links, root: Node?)
    requires At(c, t, m, root)
    ensures t.Tree? ==> t.node in m && m[t.node] == Cell(RootOf(t.left), RootOf(t.right), CtxParent(c), t.red)
  {
  }

  lemma Above(base: Ctx, d: Ctx, k: Tree, m: Links, root: Node?)
    requires At(Graft(base, d), k, m, root) && base.In?
    ensures At(base.up, Mk(base.side, Plug(d, k), base.node, base.red, base.other), m, root) && base.node in m
  {
    GraftUp(base, d, k, m, root);
    Up(base, Plug(d, k), m, root);
    FocusCell(base.up, Mk(base.side, Plug(d, k), base.node, base.red, base.other), m, root);
  }

  lemma {:induction false} GraftNode(base: Ctx, d: Ctx)
    requires base.In?
    ensures base.node in CtxNodes(Graft(base, d))
  {
    if d.In? {
      GraftNode(base, d.up);
    }
  }

  /** The parent after the node on top of the way down has been replaced. */
  lemma GraftParent(base: Ctx, d: Ctx, elm: Node, t: Tree, m: Links, root: Node?)
    requires base.In? && At(Graft(base, d), t, m, root)
    ensures var p := CtxParent(Graft(base, d));
            CtxParent(Graft(base.(node := elm), d)) == if p == base.node then elm else p
  {
    if d.In? {
      GraftNode(base, d.up);
    }
  }

  lemma OutAndIn(keys: set<Node>, elm: Node, node: Node)
    requires elm in keys && node in keys - {elm}
    ensures keys - {elm} - {node} + {elm} == keys - {node}
  {
  }

  lemma LeftmostFirst(d: Ctx, t: Tree)
    requires LeftSpine(d) && t.Tree? && t.left.Leaf?
    ensures FirstOf(Inorder(Plug(d, t))) == t.node
  {
    NothingBefore(d);
    InorderPlug(d, t);
    assert Inorder(t) == [t.node] + Inorder(t.right);
  }

  lemma Below(s: Side, c: Ctx, t: Tree, d: Ctx, k: Tree, m: Links, root: Node?)
    requires At(c, t, m, root) && t.Tree? && Child(s, t) == Plug(d, k)
    ensures At(Graft(In(s, c, t.node, t.red, Child(Opp(s), t)), d), k, m, root)
  {
    Down(s, c, t, m, root);
    GraftDown(In(s, c, t.node, t.red, Child(Opp(s), t)), d, k, m, root);
  }

  /** The place of a node, and what follows it. */
  lemma LocateNext(tree: Tree, n: Node, m: Links, root: Node?) returns (c: Ctx, t: Tree)
    requires At(Top, tree, m, root) && RedBlack(tree) && Sorted(Inorder(tree)) && n in Inorder(tree)
    ensures At(c, t, m, root) && Sound(c, t) && t.Tree? && t.node == n
    ensures n in m && m[n].right == RootOf(t.right)
    ensures FirstAtLeast(Inorder(tree), n.key + 1) == if t.right.Tree? then FirstOf(Inorder(t.right)) else FirstOf(Behind(c))
  {
    assert n in Nodes(tree) by {
      InorderNodes(tree);
    }
    c, t := Locate(Top, tree, n, m, root);
    assert Plug(c, t) == tree;
    assert n in m && m[n].right == RootOf(t.right) by {
      FocusCell(c, t, m, root);
    }
    NextIs(c, t);
  }

  lemma Straighten(s: Side, sib: Tree)
    requires sib.Tree? && Child(s, sib).Tree?
    ensures var a := Mk(s, Child(s, sib).(red := false), sib.node, true, Child(Opp(s), sib));
            && a.Tree? && a.node == sib.node && Child(Opp(Opp(s)), a).Tree? && Rotated(Opp(s), a) == Straightened(s, sib)
  {
  }

  lemma {:induction false} RootIn(c: Ctx, x: Node?)
    requires c.In?
    ensures CtxRoot(c, x) in CtxNodes(c)
  {
    if c.up.In? {
      RootIn(c.up, c.node);
    }
  }

  /** `elm` gets the links of `node`, whose parent now points to `elm`. */
  ghost predicate TakesPlace(node: Node, elm: Node, p: Node?, m: Links, m1: Links) {
    && node in m && elm !in m && m1.Keys == m.Keys + {elm} && m1[elm] == m[node]
    && (p != null ==> p in m && p != node && m1[p] == if m[p].left == node then m[p].(left := elm) else m[p].(right := elm))
    && forall n :: n in m && n != p ==> m1[n] == m[n]
  }

  /** The children of `node` now have `elm` as parent. */
  ghost predicate TakesChildren(node: Node, elm: Node, l: Node?, r: Node?, m1: Links, m2: Links) {
    && node in m1 && elm in m1 && m2.Keys == m1.Keys - {node}
    && l != null && l in m1 && l != node && l != r && m2[l] == m1[l].(parent := elm)
    && (r != null ==> r in m1 && r != node && m2[r] == m1[r].(parent := elm))
    && forall n :: n in m1 && n != node && n != l && n != r ==> m2[n] == m1[n]
  }

  ghost function HalfReplaced(node: Node, elm: Node, m: Links): Links
    requires node in m
  {
    var p := m[node].parent;
    var m1 := m[elm := m[node]];
    if p != null && p in m then m1[p := if m[p].left == node then m[p].(left := elm) else m[p].(right := elm)] else m1
  }

  lemma ReplaceTakesPlace(elm: Node, c: Ctx, t: Tree, m: Links, root: Node?)
    requires At(c, t, m, root) && t.Tree? && elm !in m
    ensures t.node in m && m[t.node].parent == CtxParent(c)
    ensures TakesPlace(t.node, elm, CtxParent(c), m, HalfReplaced(t.node, elm, m))
  {
    ReplaceFacts(c, t, m, root);
  }

  lemma ReplaceTakesChildren(elm: Node, c: Ctx, t: Tree, m: Links, root: Node?)
    requires At(c, t, m, root) && t.Tree? && t.left.Tree? && elm !in m
    ensures (c.In? ==> c.node in m) && t.left.node in m && (t.right.Tree? ==> t.right.node in m) && t.node in m
    ensures m[t.node].left == RootOf(t.left) && m[t.node].right == RootOf(t.right)
    ensures TakesChildren(t.node, elm, RootOf(t.left), RootOf(t.right), HalfReplaced(t.node, elm, m), ReplacedLinks(elm, c, t, m))
  {
    ReplaceFacts(c, t, m, root);
    WhichChild(c, t, m, root);
  }

  /** The place of a node. */
  lemma {:induction false} Locate(c: Ctx, t: Tree, n: Node, m: Links, root: Node?) returns (c1: Ctx, t1: Tree)
    requires At(c, t, m, root) && Sound(c, t) && n in Nodes(t)
    ensures At(c1, t1, m, root) && Sound(c1, t1) && t1.Tree? && t1.node == n && Plug(c1, t1) == Plug(c, t)
    decreases t
  {
    c1, t1 := c, t;
    if t.node != n {
      var s := if n in Nodes(t.left) then L else R;
      Down(s, c, t, m, root);
      SoundDown(s, c, t);
      c1, t1 := Locate(In(s, c, t.node, t.red, Child(Opp(s), t)), Child(s, t), n, m, root);
    }
  }

  // ---------------------------------------------------------------- the tree

  class Head {
    var root: Node?
    ghost var m: Links     // the links of all nodes of the tree
    ghost var tree: Tree   // the shape, between operations

    /** The links in the nodes are `m`, those of `t` in `c`. */
    ghost predicate Holds(c: Ctx, t: Tree)
      reads this, m.Keys
    {
      Agree(m) && At(c, t, m, root)
    }

    ghost predicate Valid()
      reads this, m.Keys
    {
      Holds(Top, tree) && RedBlack(tree) && Sorted(Inorder(tree))
    }

    constructor ()
      ensures Valid() && Inorder(tree) == []
    {
      root := null;
      m := map[];
      tree := Leaf;
    }

    method Paint(n: Node, red: bool, ghost c: Ctx, ghost t: Tree)
      requires Holds(c, t) && t.Tree? && t.node == n
      modifies `m, n`red
      ensures m.Keys == old(m.Keys) && Holds(c, t.(red := red))
    {
      PaintAt(c, t, m, root, red);
      n.red := red;
      m := m[n := m[n].(red := red)];
    }

    method PaintParent(n: Node, red: bool, ghost c: Ctx, ghost t: Tree)
      requires Holds(c, t) && c.In? && c.node == n
      modifies `m, n`red
      ensures m.Keys == old(m.Keys) && Holds(c.(red := red), t)
    {
      PaintParentAt(c, t, m, root, red);
      n.red := red;
      m := m[n := m[n].(red := red)];
    }

    /** RB_SET_BLACKRED, of a node and its parent. */
    method SetBlackRed(black: Node, red: Node, ghost c: Ctx, ghost t: Tree)
      requires Holds(c, t) && t.Tree? && t.node == black && c.In? && c.node == red
      modifies `m, black`red, red`red
      ensures m.Keys == old(m.Keys) && Holds(c.(red := true), t.(red := false))
    {
      Paint(black, false, c, t);
      PaintParent(red, true, c, t.(red := false));
    }

    /** The first half of a rotation: the middle subtree changes sides, `tmp` gets the parent. */
    method TurnFirst(s: Side, elm: Node, tmp: Node, ghost m1: Links)
      requires Agree(m) && FirstHalf(s, elm, tmp, tmp.Get(s), m, m1)
      modifies m.Keys
      ensures Agree(m1)
    {
      var mid := tmp.Get(s);
      if s == L {
        elm.right := mid;
      } else {
        elm.left := mid;
      }
      if mid != null {
        mid.parent := elm;
      }
      tmp.parent := elm.parent;
      forall n | n in m1 ensures m1[n] == Cell(n.left, n.right, n.parent, n.red) {
        if n != elm && n != tmp && n != mid {
          assert m1[n] == m[n];
        }
      }
    }

    /** The second half: `tmp` takes the place of `elm`, which goes below it. */
    method TurnSecond(s: Side, elm: Node, tmp: Node, ghost m1: Links, ghost m2: Links)
      requires Agree(m1) && SecondHalf(s, elm, tmp, elm.parent, m1, m2)
      modifies `root, m1.Keys
      ensures Agree(m2)
      ensures root == if old(elm.parent) == null then tmp else old(root)
    {
      var parent := elm.parent;
      if parent != null {
        if elm == parent.left {
          parent.left := tmp;
        } else {
          parent.right := tmp;
        }
      } else {
        root := tmp;
      }
      if s == L {
        tmp.left := elm;
      } else {
        tmp.right := elm;
      }
      elm.parent := tmp;
      forall n | n in m2 ensures m2[n] == Cell(n.left, n.right, n.parent, n.red) {
        if n != elm && n != tmp && n != parent {
          assert m2[n] == m1[n];
        }
      }
    }

    /** Both halves. */
    method Turn(s: Side, elm: Node, tmp: Node, ghost m1: Links, ghost m2: Links)
      requires Agree(m) && FirstHalf(s, elm, tmp, tmp.Get(s), m, m1) && SecondHalf(s, elm, tmp, elm.parent, m1, m2)
      modifies `root, `m, m.Keys
      ensures m == m2 && Agree(m) && root == if old(elm.parent) == null then tmp else old(root)
    {
      TurnFirst(s, elm, tmp, m1);
      assert elm.parent == m1[elm].parent;
      TurnSecond(s, elm, tmp, m1, m2);
      m := m2;
    }

    /** RB_ROTATE_LEFT and RB_ROTATE_RIGHT. */
    method Rotate(s: Side, elm: Node, ghost c: Ctx, ghost t: Tree)
      requires Holds(c, t) && t.Tree? && t.node == elm && Child(Opp(s), t).Tree?
      modifies `root, `m, m.Keys
      ensures m.Keys == old(m.Keys) && Holds(c, Rotated(s, t))
    {
      RotatePlan(s, c, t, m, root);
      var tmp := elm.Get(Opp(s));
      Turn(s, elm, tmp, HalfLinks(s, elm, tmp, m), RotatedLinks(s, c, t, m));
    }

    // ---------------------------------------------------------------- insertion

    /** Red uncle: three nodes change colour. */
    method RecolourFamily(s: Side, gparent: Node, parent: Node, uncle: Node, ghost s1: Side, ghost up: Ctx,
                          ghost t: Tree, ghost sib: Tree, ghost u: Tree)
      requires Holds(In(s1, In(s, up, gparent, false, u), parent, true, sib), t) && u.Tree? && u.node == uncle
      modifies `m, uncle`red, parent`red, gparent`red
      ensures m.Keys == old(m.Keys)
      ensures Holds(up, Mk(s, Mk(s1, t, parent, false, sib), gparent, true, Blackened(u)))
    {
      ghost var p, p1, u1 := Mk(s1, t, parent, true, sib), Mk(s1, t, parent, false, sib), Blackened(u);
      MkOpp(s, p, gparent, false, u);
      Up(In(s1, In(s, up, gparent, false, u), parent, true, sib), t, m, root);
      Up(In(s, up, gparent, false, u), p, m, root);
      Down(Opp(s), up, Mk(s, p, gparent, false, u), m, root);
      Paint(uncle, false, In(Opp(s), up, gparent, false, p), u);
      Up(In(Opp(s), up, gparent, false, p), u1, m, root);
      MkOpp(s, p, gparent, false, u1);
      Down(s, up, Mk(s, p, gparent, false, u1), m, root);
      SetBlackRed(parent, gparent, In(s, up, gparent, false, u1), p);
      Up(In(s, up, gparent, true, u1), p1, m, root);
    }

    /** Inner grandchild: a rotation turns it outwards. */
    method TurnOutwards(s: Side, parent: Node, ghost up: Ctx, ghost t: Tree, ghost sib: Tree)
      requires Holds(In(Opp(s), up, parent, true, sib), t) && t.Tree? && t.red
      modifies `root, `m, m.Keys
      ensures m.Keys == old(m.Keys)
      ensures Holds(In(s, up, t.node, true, Child(Opp(s), t)), Mk(s, sib, parent, true, Child(s, t)))
    {
      ghost var p := Mk(s, sib, parent, true, t);
      MkOpp(s, sib, parent, true, t);
      MkOpp(s, t, parent, true, sib);
      Up(In(Opp(s), up, parent, true, sib), t, m, root);
      Rotate(s, parent, up, p);
      MkOpp(s, Mk(s, sib, parent, true, Child(s, t)), t.node, true, Child(Opp(s), t));
      Down(s, up, Rotated(s, p), m, root);
    }

    /** Black uncle, outer grandchild: two nodes change colour, and the grandparent is rotated away. */
    method RotateAway(s: Side, parent: Node, gparent: Node, ghost up: Ctx, ghost t: Tree, ghost sib: Tree, ghost u: Tree)
      requires Holds(In(s, In(s, up, gparent, false, u), parent, true, sib), t)
      modifies `root, `m, m.Keys
      ensures m.Keys == old(m.Keys)
      ensures Holds(In(s, up, parent, false, Mk(s, sib, gparent, true, u)), t)
    {
      ghost var p := Mk(s, t, parent, true, sib);
      Up(In(s, In(s, up, gparent, false, u), parent, true, sib), t, m, root);
      SetBlackRed(parent, gparent, In(s, up, gparent, false, u), p);
      RotateParent(s, gparent, up, t, parent, false, sib, true, u);
    }

    /** Rotating the parent's parent away from the focus. */
    method RotateParent(s: Side, gparent: Node, ghost up: Ctx, ghost t: Tree, ghost p: Node, ghost red: bool, ghost sib: Tree,
                        ghost gred: bool, ghost u: Tree)
      requires Holds(In(s, up, gparent, gred, u), Mk(s, t, p, red, sib))
      modifies `root, `m, m.Keys
      ensures m.Keys == old(m.Keys)
      ensures Holds(In(s, up, p, red, Mk(s, sib, gparent, gred, u)), t)
    {
      ghost var p1 := Mk(s, t, p, red, sib);
      Up(In(s, up, gparent, gred, u), p1, m, root);
      ghost var g := Mk(s, p1, gparent, gred, u);
      RotatedAway(s, t, p, red, sib, gparent, gred, u);
      Rotate(Opp(s), gparent, up, g);
      Down(s, up, Rotated(Opp(s), g), m, root);
    }

    /** Node and parent are red: the surroundings of the flaw, as the loop of RB_INSERT_COLOR reads them. */
    ghost predicate Flaw(elm: Node, parent: Node, gparent: Node, s: Side, c: Ctx, t: Tree)
      reads this, m.Keys
    {
      && Holds(c, t) && InsertState(c, t) && t.node == elm
      && c.In? && c.red && c.node == parent && c.up.In? && !c.up.red && c.up.node == gparent && c.up.side == s
    }

    method FindFlaw(elm: Node, ghost c: Ctx, ghost t: Tree) returns (parent: Node, gparent: Node, s: Side)
      requires Holds(c, t) && InsertState(c, t) && t.node == elm && elm.parent != null && elm.parent.red
      ensures Flaw(elm, parent, gparent, s, c, t)
      ensures gparent.Get(Opp(s)) == RootOf(c.up.other) && (c.up.other.Tree? ==> c.up.other.node.red == c.up.other.red)
      ensures parent.Get(Opp(s)) == elm <==> c.side == Opp(s)
      ensures c.up.other.Tree? ==> c.up.other.node in m
    {
      if c.In? {
        Kin(c, t, m, root);
        Kin(c.up, Mk(c.side, t, c.node, c.red, c.other), m, root);
      }
      parent := elm.parent;
      gparent := parent.parent;
      s := if parent == gparent.left then L else R;
    }

    /** Red uncle: the flaw moves to the grandparent. */
    method RaiseFlaw(elm: Node, parent: Node, gparent: Node, uncle: Node, s: Side, ghost c: Ctx, ghost t: Tree)
      returns (ghost c1: Ctx, ghost t1: Tree)
      requires Flaw(elm, parent, gparent, s, c, t) && RootOf(c.up.other) == uncle && IsRed(c.up.other)
      modifies `m, uncle`red, parent`red, gparent`red
      ensures m.Keys == old(m.Keys) && Holds(c1, t1) && InsertState(c1, t1) && t1.node == gparent
      ensures Inorder(Plug(c1, t1)) == Inorder(Plug(c, t)) && Depth(c1) < Depth(c)
    {
      ghost var up, u, sib := c.up.up, c.up.other, c.other;
      assert Depth(c) == 1 + Depth(c.up) == 2 + Depth(up);
      RedUncle(s, c.side, t, parent, sib, gparent, u, up);
      RedUncleOrder(s, c.side, t, parent, sib, gparent, u, up);
      RecolourFamily(s, gparent, parent, uncle, c.side, up, t, sib, u);
      c1, t1 := up, Mk(s, Mk(c.side, t, parent, false, sib), gparent, true, Blackened(u));
    }

    /** Black uncle: one rotation or two, and the flaw is gone. */
    method RepairFlaw(elm0: Node, parent0: Node, gparent: Node, s: Side, ghost c: Ctx, ghost t: Tree)
      returns (elm: Node, ghost c1: Ctx, ghost t1: Tree)
      requires Flaw(elm0, parent0, gparent, s, c, t) && !IsRed(c.up.other)
      requires parent0.Get(Opp(s)) == elm0 <==> c.side == Opp(s)
      modifies `root, `m, m.Keys
      ensures m.Keys == old(m.Keys) && Holds(c1, t1) && InsertState(c1, t1) && t1.node == elm
      ensures Inorder(Plug(c1, t1)) == Inorder(Plug(c, t)) && Depth(c1) < Depth(c)
    {
      var parent := parent0;
      elm := elm0;
      ghost var up, u, sib := c.up.up, c.up.other, c.other;
      t1 := t;
      if parent.Get(Opp(s)) == elm {
        TurnOut(s, t, parent, sib, c.up);
        TurnOutOrder(s, t, parent, sib, c.up);
        TurnOutwards(s, parent, c.up, t, sib);
        t1, sib := Mk(s, sib, parent, true, Child(s, t)), Child(Opp(s), t);
        parent, elm := elm, parent;
      }
      OuterDone(s, t1, parent, sib, gparent, u, up);
      RotateAwayOrder(s, t1, parent, sib, gparent, u, up);
      RotateAway(s, parent, gparent, up, t1, sib, u);
      c1 := In(s, up, parent, false, Mk(s, sib, gparent, true, u));
      assert Depth(c) == 1 + Depth(c.up) == 2 + Depth(up) && Depth(c1) == 1 + Depth(up);
    }

    /** RB_INSERT_COLOR: the only flaw, a red node below a red one, moves up until it is gone. */
    method InsertColor(node: Node, ghost c0: Ctx, ghost t0: Tree)
      requires Holds(c0, t0) && InsertState(c0, t0) && t0.node == node
      modifies this, m.Keys
      ensures m.Keys == old(m.Keys) && Holds(Top, tree) && RedBlack(tree)
      ensures Inorder(tree) == Inorder(Plug(c0, t0))
    {
      var elm := node;
      ghost var c, t := c0, t0;
      while elm.parent != null && elm.parent.red
        invariant m.Keys == old(m.Keys) && Holds(c, t) && InsertState(c, t) && t.node == elm
        invariant Inorder(Plug(c, t)) == Inorder(Plug(c0, t0))
        decreases Depth(c)
      {
        var parent, gparent, s := FindFlaw(elm, c, t);
        var uncle := gparent.Get(Opp(s));
        if uncle != null && uncle.red {
          c, t := RaiseFlaw(elm, parent, gparent, uncle, s, c, t);
          elm := gparent;
          continue;
        }
        elm, c, t := RepairFlaw(elm, parent, gparent, s, c, t);
      }
      BlackenRoot(c, t);
    }

    /** The root turns black. */
    method BlackenRoot(ghost c: Ctx, ghost t: Tree)
      requires Holds(c, t) && t.Tree? && Fine(t, Bh(t)) && CtxFine(c, Bh(t)) && !(t.red && TopRed(c))
      modifies this, m.Keys
      ensures m.Keys == old(m.Keys) && Holds(Top, tree) && RedBlack(tree) && Inorder(tree) == Inorder(Plug(c, t))
    {
      PlugAt(c, t, m, root);
      PlugTree(c, t);
      PlugFine(c, t, Bh(t));
      ghost var u := Plug(c, t);
      Paint(root, false, Top, u);
      tree := u.(red := false);
    }

    /** RB_SET, and the parent's new child. */
    method Link(elm: Node, parent: Node?, s: Side, ghost c: Ctx)
      requires Holds(c, Leaf) && elm !in m && CtxParent(c) == parent && (c.In? ==> c.side == s)
      modifies this, m.Keys, elm
      ensures m.Keys == old(m.Keys) + {elm} && Holds(c, Tree(Leaf, elm, true, Leaf))
    {
      LinkAt(elm, c, m, root);
      ghost var m1 := LinkedLinks(elm, c, m);
      elm.parent := parent;
      elm.left := null;
      elm.right := null;
      elm.red := true;
      if parent != null {
        if s == L {
          parent.left := elm;
        } else {
          parent.right := elm;
        }
      } else {
        root := elm;
      }
      forall n | n in m1 ensures m1[n] == Cell(n.left, n.right, n.parent, n.red) {
        if n != elm && n != parent {
          assert m1[n] == m[n];
        }
      }
      m := m1;
    }

    /** The rest of RB_INSERT, once the empty place is found. */
    method Place(elm: Node, parent: Node?, s: Side, ghost c: Ctx)
      requires Valid() && Plug(c, Leaf) == tree
      requires Holds(c, Leaf) && Sound(c, Leaf) && CtxParent(c) == parent && (c.In? ==> c.side == s) && Between(c, elm.key)
      modifies this, m.Keys, elm
      ensures Valid()
      ensures Inorder(tree) == Inserted(old(Inorder(tree)), elm) && m.Keys == old(m.Keys) + {elm}
    {
      PlaceOrder(elm, c);
      InorderNodes(tree);
      assert elm !in m;
      Link(elm, parent, s, c);
      InsertColor(elm, c, Tree(Leaf, elm, true, Leaf));
    }

    /** RB_INSERT: the key is found, or the node is put where it belongs. */
    method Insert(elm: Node) returns (found: Node?)
      requires Valid()
      modifies this, m.Keys, elm
      ensures Valid()
      ensures found != null ==> found in old(Inorder(tree)) && found.key == elm.key
      ensures found != null ==> m == old(m) && tree == old(tree) && root == old(root)
      ensures found == null ==> forall n :: n in old(Inorder(tree)) ==> n.key != elm.key
      ensures found == null ==> Inorder(tree) == Inserted(old(Inorder(tree)), elm) && m.Keys == old(m.Keys) + {elm}
    {
      var tmp, parent: Node? := root, null;
      var s := L;
      ghost var c, t := Top, tree;
      while tmp != null
        invariant Holds(c, t) && RootOf(t) == tmp && CtxParent(c) == parent && (c.In? ==> c.side == s)
        invariant Sound(c, t) && Between(c, elm.key) && Plug(c, t) == tree
        decreases t
        modifies {}
      {
        parent := tmp;
        if elm.key < parent.key {
          s, tmp := L, tmp.left;
        } else if elm.key > parent.key {
          s, tmp := R, tmp.right;
        } else {
          InorderPlug(c, t);
          return tmp;
        }
        SearchStep(s, c, t, elm.key, m, root);
        c, t := In(s, c, t.node, t.red, Child(Opp(s), t)), Child(s, t);
      }
      NotThere(c, elm.key);
      Place(elm, parent, s, c);
      return null;
    }

    /** RB_FIND. */
    method Find(k: int) returns (r: Node?)
      requires Valid()
      ensures r != null ==> r in Inorder(tree) && r.key == k
      ensures r == null ==> forall n :: n in Inorder(tree) ==> n.key != k
    {
      var tmp := root;
      ghost var c, t := Top, tree;
      while tmp != null
        invariant Holds(c, t) && RootOf(t) == tmp && Sound(c, t) && Between(c, k) && Plug(c, t) == tree
        decreases t
      {
        var s := L;
        if k > tmp.key {
          s := R;
        } else if k == tmp.key {
          InorderPlug(c, t);
          return tmp;
        }
        SearchStep(s, c, t, k, m, root);
        tmp := tmp.Get(s);
        c, t := In(s, c, t.node, t.red, Child(Opp(s), t)), Child(s, t);
      }
      NotThere(c, k);
      return null;
    }

    /** RB_NFIND: the first node not below the key. */
    method NFind(k: int) returns (r: Node?)
      requires Valid()
      ensures r == FirstAtLeast(Inorder(tree), k)
    {
      var tmp := root;
      r := null;
      ghost var c, t := Top, tree;
      while tmp != null
        invariant Holds(c, t) && RootOf(t) == tmp && Sound(c, t) && Between(c, k) && Plug(c, t) == tree
        invariant r == FirstOf(Behind(c))
        decreases t
      {
        var s := L;
        if k < tmp.key {
          r := tmp;
        } else if k > tmp.key {
          s := R;
        } else {
          FoundFirst(c, t);
          return tmp;
        }
        SearchStep(s, c, t, k, m, root);
        tmp := tmp.Get(s);
        c, t := In(s, c, t.node, t.red, Child(Opp(s), t)), Child(s, t);
      }
      NotThere(c, k);
      FirstBetween(Before(c), Behind(c), k);
    }

    // ---------------------------------------------------------------- removal

    /** Red sibling: it turns black, the parent red, and the parent is rotated down. */
    method LowerParent(s: Side, parent: Node, sibling: Node, ghost up: Ctx, ghost pred: bool, ghost sib: Tree, ghost t: Tree)
      requires Holds(In(s, up, parent, pred, sib), t) && sib.Tree? && sib.node == sibling && Child(s, sib).Tree?
      modifies `root, `m, m.Keys
      ensures m.Keys == old(m.Keys)
      ensures Holds(In(s, In(s, up, sibling, false, Child(Opp(s), sib)), parent, true, Child(s, sib)), t)
    {
      Across(In(s, up, parent, pred, sib), t, m, root);
      SetBlackRed(sibling, parent, In(Opp(s), up, parent, pred, t), sib);
      ghost var sib1 := sib.(red := false);
      Across(In(Opp(s), up, parent, true, t), sib1, m, root);
      MkOpp(s, t, parent, true, sib1);
      RotateDown(s, parent, up, true, sib1, t);
    }

    /** Rotating the parent down on the side of the focus. */
    method RotateDown(s: Side, parent: Node, ghost up: Ctx, ghost pred: bool, ghost sib: Tree, ghost t: Tree)
      requires Holds(In(s, up, parent, pred, sib), t) && sib.Tree?
      modifies `root, `m, m.Keys
      ensures m.Keys == old(m.Keys)
      ensures Holds(In(s, In(s, up, sib.node, sib.red, Child(Opp(s), sib)), parent, pred, Child(s, sib)), t)
    {
      ghost var g := Mk(s, t, parent, pred, sib);
      ghost var low := Mk(s, t, parent, pred, Child(s, sib));
      Up(In(s, up, parent, pred, sib), t, m, root);
      MkOpp(s, t, parent, pred, sib);
      Rotate(s, parent, up, g);
      MkOpp(s, t, parent, pred, Child(s, sib));
      MkOpp(s, low, sib.node, sib.red, Child(Opp(s), sib));
      Down(s, up, Rotated(s, g), m, root);
      Down(s, In(s, up, sib.node, sib.red, Child(Opp(s), sib)), low, m, root);
    }

    /** Black sibling with black children: it turns red. */
    method ReddenSibling(s: Side, parent: Node, sibling: Node, ghost up: Ctx, ghost pred: bool, ghost sib: Tree, ghost t: Tree)
      requires Holds(In(s, up, parent, pred, sib), t) && sib.Tree? && sib.node == sibling
      modifies `m, sibling`red
      ensures m.Keys == old(m.Keys) && Holds(up, Mk(s, t, parent, pred, sib.(red := true)))
    {
      Across(In(s, up, parent, pred, sib), t, m, root);
      Paint(sibling, true, In(Opp(s), up, parent, pred, t), sib);
      Up(In(Opp(s), up, parent, pred, t), sib.(red := true), m, root);
      MkOpp(s, t, parent, pred, sib.(red := true));
    }

    /** The sibling's inner child is red, the outer one black: the inner one takes the sibling's place. */
    method StraightenSibling(s: Side, sibling: Node, inner: Node, ghost c: Ctx, ghost sib: Tree)
      requires Holds(c, sib) && sib.Tree? && sib.node == sibling && RootOf(Child(s, sib)) == inner
      modifies `root, `m, m.Keys
      ensures m.Keys == old(m.Keys) && Holds(c, Straightened(s, sib))
    {
      ghost var i, o := Child(s, sib), Child(Opp(s), sib);
      Down(s, c, sib, m, root);
      SetBlackRed(inner, sibling, In(s, c, sibling, sib.red, o), i);
      Up(In(s, c, sibling, true, o), i.(red := false), m, root);
      Straighten(s, sib);
      Rotate(Opp(s), sibling, c, Mk(s, i.(red := false), sibling, true, o));
    }

    /** The sibling takes the parent's colour, the parent and the outer child turn black. */
    method PaintOuter(s: Side, parent: Node, sibling: Node, ghost up: Ctx, ghost pred: bool, ghost sib: Tree, ghost t: Tree)
      requires Holds(In(s, up, parent, pred, sib), t) && sib.Tree? && sib.node == sibling && Child(Opp(s), sib).Tree?
      modifies `m, m.Keys
      ensures m.Keys == old(m.Keys)
      ensures Holds(In(s, up, parent, false, Mk(s, Child(s, sib), sibling, pred, Blackened(Child(Opp(s), sib)))), t)
    {
      Kin(In(s, up, parent, pred, sib), t, m, root);
      Across(In(s, up, parent, pred, sib), t, m, root);
      Paint(sibling, parent.red, In(Opp(s), up, parent, pred, t), sib);
      PaintParent(parent, false, In(Opp(s), up, parent, pred, t), sib.(red := pred));
      BlackenChild(Opp(s), sibling, In(Opp(s), up, parent, false, t), sib.(red := pred));
      MkOpp(s, Child(s, sib), sibling, pred, Blackened(Child(Opp(s), sib)));
      Across(In(Opp(s), up, parent, false, t), Mk(s, Child(s, sib), sibling, pred, Blackened(Child(Opp(s), sib))), m, root);
    }

    method BlackenChild(s: Side, node: Node, ghost c: Ctx, ghost t: Tree)
      requires Holds(c, t) && t.Tree? && t.node == node && Child(s, t).Tree?
      modifies `m, m.Keys
      ensures m.Keys == old(m.Keys) && Holds(c, Mk(s, Blackened(Child(s, t)), node, t.red, Child(Opp(s), t)))
    {
      ghost var below := In(s, c, node, t.red, Child(Opp(s), t));
      Down(s, c, t, m, root);
      Paint(node.Get(s), false, below, Child(s, t));
      Up(below, Blackened(Child(s, t)), m, root);
    }

    /** What the loop of RB_REMOVE_COLOR knows: the subtree at `elm` lacks one black node. */
    ghost predicate Lacking(parent: Node?, elm: Node?, c: Ctx, t: Tree)
      reads this, m.Keys
    {
      Holds(c, t) && RemoveState(c, t) && RootOf(t) == elm && CtxParent(c) == parent
    }

    /** The sibling, after it has been made black. */
    method BlackSibling(s: Side, parent: Node, elm: Node?, ghost c: Ctx, ghost t: Tree)
      returns (tmp: Node, ghost c1: Ctx)
      requires Lacking(parent, elm, c, t) && c.In? && c.side == s
      modifies `root, `m, m.Keys
      ensures m.Keys == old(m.Keys) && Lacking(parent, elm, c1, t) && c1.In? && c1.side == s
      ensures c1.other.Tree? && !c1.other.red && c1.other.node == tmp && Inorder(Plug(c1, t)) == Inorder(Plug(c, t))
      ensures c1 == c || (c1.red && Depth(c1) == 1 + Depth(c))
    {
      c1 := c;
      SiblingThere(c, t);
      Kin(c, t, m, root);
      tmp := parent.Get(Opp(s));
      if tmp.red {
        RedSibling(s, c.up, parent, c.red, c.other, t);
        RedSiblingOrder(s, c.up, parent, c.red, c.other, t);
        LowerParent(s, parent, tmp, c.up, c.red, c.other, t);
        c1 := In(s, In(s, c.up, tmp, false, Child(Opp(s), c.other)), parent, true, Child(s, c.other));
        SiblingThere(c1, t);
        Kin(c1, t, m, root);
        tmp := parent.Get(Opp(s));
      }
    }

    /** Black sibling with a red child: after one rotation or two nothing is lacking any more. */
    method Borrow(s: Side, parent: Node, elm: Node?, sibling: Node, ghost c: Ctx, ghost t: Tree) returns (ghost u: Tree)
      requires Lacking(parent, elm, c, t) && c.In? && c.side == s && !IsRed(t)
      requires c.other.Tree? && !c.other.red && c.other.node == sibling && (IsRed(c.other.left) || IsRed(c.other.right))
      modifies `root, `m, m.Keys
      ensures m.Keys == old(m.Keys) && Holds(Top, u) && RemoveState(Top, u)
      ensures Inorder(u) == Inorder(Plug(c, t))
    {
      var tmp := sibling;
      ghost var up, pred, sib := c.up, c.red, c.other;
      Nephews(c, t, m, root);
      var outer := tmp.Get(Opp(s));
      if outer == null || !outer.red {
        InnerRed(s, up, parent, pred, sib, t);
        InnerRedOrder(s, up, parent, pred, sib, t);
        Across(c, t, m, root);
        StraightenSibling(s, tmp, tmp.Get(s), In(Opp(s), up, parent, pred, t), sib);
        sib := Straightened(s, sib);
        Across(In(Opp(s), up, parent, pred, t), sib, m, root);
        MkOpp(s, t, parent, pred, sib);
        Kin(In(s, up, parent, pred, sib), t, m, root);
        tmp := parent.Get(Opp(s));
      }
      u := BorrowOuter(s, parent, elm, tmp, up, pred, sib, t);
    }

    method BorrowOuter(s: Side, parent: Node, elm: Node?, tmp: Node, ghost up: Ctx, ghost pred: bool, ghost sib: Tree, ghost t: Tree)
      returns (ghost u: Tree)
      requires Lacking(parent, elm, In(s, up, parent, pred, sib), t) && !IsRed(t)
      requires sib.Tree? && !sib.red && sib.node == tmp && IsRed(Child(Opp(s), sib))
      modifies `root, `m, m.Keys
      ensures m.Keys == old(m.Keys) && Holds(Top, u) && RemoveState(Top, u)
      ensures Inorder(u) == Inorder(Plug(In(s, up, parent, pred, sib), t))
    {
      BorrowedDone(s, up, parent, pred, sib, t);
      BorrowedOrder(s, up, parent, pred, sib, t);
      PaintOuter(s, parent, tmp, up, pred, sib, t);
      u := Plug(up, Borrowed(s, parent, pred, sib, t));
      RotateBorrowed(s, parent, tmp, up, pred, Child(s, sib), Blackened(Child(Opp(s), sib)), t);
    }

    method RotateBorrowed(s: Side, parent: Node, tmp: Node, ghost up: Ctx, ghost pred: bool, ghost i: Tree, ghost o: Tree, ghost t: Tree)
      requires Holds(In(s, up, parent, false, Mk(s, i, tmp, pred, o)), t)
      modifies `root, `m, m.Keys
      ensures m.Keys == old(m.Keys) && Holds(Top, Plug(up, Mk(s, Mk(s, t, parent, false, i), tmp, pred, o)))
    {
      ghost var above := In(s, up, tmp, pred, o);
      MkOpp(s, i, tmp, pred, o);
      RotateDown(s, parent, up, false, Mk(s, i, tmp, pred, o), t);
      PlugAt(In(s, above, parent, false, i), t, m, root);
      assert Plug(In(s, above, parent, false, i), t) == Plug(above, Mk(s, t, parent, false, i));
    }

    /** Black sibling with black children: it turns red, and the parent's subtree is the one that lacks a black node. */
    method MoveLack(s: Side, parent: Node, elm: Node?, tmp: Node, ghost c: Ctx, ghost t: Tree) returns (ghost t1: Tree)
      requires Lacking(parent, elm, c, t) && c.In? && c.side == s && !IsRed(t)
      requires c.other.Tree? && c.other.node == tmp && !c.other.red && !IsRed(c.other.left) && !IsRed(c.other.right)
      modifies `m, m.Keys
      ensures m.Keys == old(m.Keys) && Lacking(parent.parent, parent, c.up, t1) && IsRed(t1) == c.red
      ensures Inorder(Plug(c.up, t1)) == Inorder(Plug(c, t))
    {
      MoveUp(s, c.up, parent, c.red, c.other, t);
      MoveUpOrder(s, c.up, parent, c.red, c.other, t);
      ReddenSibling(s, parent, tmp, c.up, c.red, c.other, t);
      t1 := Mk(s, t, parent, c.red, c.other.(red := true));
      FocusCell(c.up, t1, m, root);
    }

    /** One round of the loop of RB_REMOVE_COLOR; the last one when `done`. */
    method RemoveStep(parent0: Node, elm0: Node?, ghost c0: Ctx, ghost t0: Tree)
      returns (done: bool, parent: Node?, elm: Node?, ghost c: Ctx, ghost t: Tree)
      requires Lacking(parent0, elm0, c0, t0) && c0.In? && !IsRed(t0)
      modifies `root, `m, m.Keys
      ensures m.Keys == old(m.Keys) && Lacking(parent, elm, c, t)
      ensures Inorder(Plug(c, t)) == Inorder(Plug(c0, t0))
      ensures if done then c.Top? else IsRed(t) || Depth(c) < Depth(c0)
    {
      Kin(c0, t0, m, root);
      SiblingThere(c0, t0);
      var s := if parent0.left == elm0 then L else R;
      var tmp;
      tmp, c := BlackSibling(s, parent0, elm0, c0, t0);
      Nephews(c, t0, m, root);
      if (tmp.left == null || !tmp.left.red) && (tmp.right == null || !tmp.right.red) {
        t := MoveLack(s, parent0, elm0, tmp, c, t0);
        c := c.up;
        done, elm, parent := false, parent0, parent0.parent;
      } else {
        t := Borrow(s, parent0, elm0, tmp, c, t0);
        c := Top;
        done, elm, parent := true, root, null;
      }
    }

    /** RB_REMOVE_COLOR: the missing black node moves up until a red node makes up for it. */
    method RemoveColor(parent0: Node?, elm0: Node?, ghost c0: Ctx, ghost t0: Tree)
      requires Lacking(parent0, elm0, c0, t0)
      modifies this, m.Keys
      ensures m.Keys == old(m.Keys) && Holds(Top, tree) && RedBlack(tree)
      ensures Inorder(tree) == Inorder(Plug(c0, t0))
    {
      var parent, elm, done := parent0, elm0, false;
      ghost var c, t := c0, t0;
      RootThere(c, t, m, root);
      while (elm == null || !elm.red) && elm != root
        invariant m.Keys == old(m.Keys) && Lacking(parent, elm, c, t)
        invariant Inorder(Plug(c, t)) == Inorder(Plug(c0, t0))
        invariant elm == root <==> c.Top?
        decreases if IsRed(t) then 0 else 1 + Depth(c)
      {
        FocusCell(c, t, m, root);
        done, parent, elm, c, t := RemoveStep(parent, elm, c, t);
        RootThere(c, t, m, root);
        if done {
          break;
        }
      }
      FocusCell(c, t, m, root);
      FinishRemoval(elm, c, t);
    }

    method FinishRemoval(elm: Node?, ghost c: Ctx, ghost t: Tree)
      requires Holds(c, t) && RemoveState(c, t) && (IsRed(t) || c.Top?) && RootOf(t) == elm
      modifies this, m.Keys
      ensures m.Keys == old(m.Keys) && Holds(Top, tree) && RedBlack(tree)
      ensures Inorder(tree) == Inorder(Plug(c, t))
    {
      if elm != null {
        Paint(elm, false, c, t);
      }
      RemoveDone(c, t);
      PlugAt(c, Blackened(t), m, root);
      SameOrder(c, t, Blackened(t));
      tree := Plug(c, Blackened(t));
    }

    /** A node with at most one child is taken out; its own links stay as they are. */
    method Unlink(elm: Node, child: Node?, parent: Node?, ghost c: Ctx, ghost t: Tree, ghost k: Tree)
      requires Holds(c, t) && OnlyChild(t, k) && t.node == elm && RootOf(k) == child && CtxParent(c) == parent
      modifies `root, `m, m.Keys - {elm}
      ensures m.Keys == old(m.Keys) - {elm} && Holds(c, k)
    {
      UnlinkAt(c, t, k, m, root);
      WhichChild(c, t, m, root);
      ghost var m1 := UnlinkedLinks(c, t, k, m);
      if child != null {
        child.parent := parent;
      }
      if parent != null {
        if parent.left == elm {
          parent.left := child;
        } else {
          parent.right := child;
        }
      } else {
        root := child;
      }
      forall n | n in m1 ensures m1[n] == Cell(n.left, n.right, n.parent, n.red) {
        if n != child && n != parent {
          assert m1[n] == m[n];
        }
      }
      m := m1;
    }

    /** The links of `node` copied to `elm`, and the parent told. */
    method TakePlace(node: Node, elm: Node, ghost m1: Links)
      requires Agree(m) && TakesPlace(node, elm, node.parent, m, m1)
      modifies `root, m.Keys - {node}, elm
      ensures Agree(m1) && root == if node.parent == null then elm else old(root)
    {
      elm.left := node.left;
      elm.right := node.right;
      elm.parent := node.parent;
      elm.red := node.red;
      if node.parent != null {
        if node.parent.left == node {
          node.parent.left := elm;
        } else {
          node.parent.right := elm;
        }
      } else {
        root := elm;
      }
      forall n | n in m1 ensures m1[n] == Cell(n.left, n.right, n.parent, n.red) {
        if n != elm && n != node.parent {
          assert m1[n] == m[n];
        }
      }
    }

    /** The children told. */
    method TakeChildren(node: Node, elm: Node, ghost m1: Links, ghost m2: Links)
      requires Agree(m1) && TakesChildren(node, elm, node.left, node.right, m1, m2)
      modifies m1.Keys - {node}
      ensures Agree(m2)
    {
      node.left.parent := elm;
      if node.right != null {
        node.right.parent := elm;
      }
      forall n | n in m2 ensures m2[n] == Cell(n.left, n.right, n.parent, n.red) {
        if n != node.left && n != node.right {
          assert m2[n] == m1[n];
        }
      }
    }

    method TakeBoth(node: Node, elm: Node, ghost m1: Links, ghost m2: Links)
      requires Agree(m) && TakesPlace(node, elm, node.parent, m, m1)
      requires TakesChildren(node, elm, node.left, node.right, m1, m2)
      modifies `root, `m, m.Keys - {node}, elm
      ensures m == m2 && Agree(m) && root == if node.parent == null then elm else old(root)
    {
      TakePlace(node, elm, m1);
      TakeChildren(node, elm, m1, m2);
      m := m2;
    }

    /** A node outside the tree takes over place, links and colour of one inside. */
    method Replace(node: Node, elm: Node, ghost c: Ctx, ghost t: Tree)
      requires Holds(c, t) && t.Tree? && t.node == node && t.left.Tree? && elm !in m
      modifies `root, `m, m.Keys - {node}, elm
      ensures m.Keys == old(m.Keys) - {node} + {elm} && Holds(c, Tree(t.left, elm, t.red, t.right))
    {
      ReplaceTakesPlace(elm, c, t, m, root);
      ReplaceTakesChildren(elm, c, t, m, root);
      ReplaceAt(elm, c, t, m, root);
      ghost var m1, m2 := HalfReplaced(node, elm, m), ReplacedLinks(elm, c, t, m);
      TakeBoth(node, elm, m1, m2);
    }

    /** The end of RB_REMOVE: only a black node taken out leaves a lack. */
    method Recolour(red: bool, parent: Node?, child: Node?, ghost c: Ctx, ghost k: Tree)
      requires Holds(c, k) && Vacant(c, k, red) && RootOf(k) == child && CtxParent(c) == parent
      modifies this, m.Keys
      ensures m.Keys == old(m.Keys) && Holds(Top, tree) && RedBlack(tree)
      ensures Inorder(tree) == Inorder(Plug(c, k))
    {
      if !red {
        RemoveColor(parent, child, c, k);
      } else {
        PlugAt(c, k, m, root);
        RedLeft(c, k);
        tree := Plug(c, k);
      }
    }

    /** The leftmost node on the right of `node`. */
    method Successor(node: Node, ghost c: Ctx, ghost t: Tree) returns (elm: Node, ghost d: Ctx, ghost ts: Tree)
      requires Holds(c, t) && Sound(c, t) && t.Tree? && t.node == node && t.right.Tree?
      ensures var below := Graft(In(R, c, node, t.red, t.left), d);
              Holds(below, ts) && Sound(below, ts)
      ensures ts.Tree? && ts.node == elm && ts.left.Leaf? && Plug(d, ts) == t.right && LeftSpine(d)
    {
      ghost var base := In(R, c, node, t.red, t.left);
      Down(R, c, t, m, root);
      SoundDown(R, c, t);
      elm := node.right;
      d, ts := Top, t.right;
      Down(L, Graft(base, d), ts, m, root);
      while elm.left != null
        invariant Holds(Graft(base, d), ts) && Sound(Graft(base, d), ts)
        invariant ts.Tree? && ts.node == elm && elm.left == RootOf(ts.left) && Plug(d, ts) == t.right && LeftSpine(d)
        decreases ts
      {
        Down(L, Graft(base, d), ts, m, root);
        SoundDown(L, Graft(base, d), ts);
        elm := elm.left;
        d, ts := In(L, d, elm, ts.red, ts.right).(node := ts.node), ts.left;
        Down(L, Graft(base, d), ts, m, root);
      }
    }

    /** The successor is taken out. */
    method TakeOut(elm: Node, child: Node?, parent: Node?, ghost base: Ctx, ghost d: Ctx, ghost ts: Tree)
      requires Holds(Graft(base, d), ts) && base.In? && ts.Tree? && ts.node == elm && ts.left.Leaf?
      requires child == elm.right && parent == elm.parent
      modifies `root, `m, m.Keys
      ensures m.Keys == old(m.Keys) - {elm} && elm in old(m.Keys) && base.node in m
      ensures Holds(base.up, Mk(base.side, Plug(d, ts.right), base.node, base.red, base.other))
    {
      FocusCell(Graft(base, d), ts, m, root);
      Unlink(elm, child, parent, Graft(base, d), ts, ts.right);
      Above(base, d, ts.right, m, root);
    }

    /** It takes the place of `node`. */
    method PutBack(node: Node, elm: Node, ghost c: Ctx, ghost u: Tree, ghost d: Ctx, ghost k: Tree)
      requires Holds(c, u) && u.Tree? && u.node == node && u.left.Tree? && u.right == Plug(d, k) && elm !in m
      modifies `root, `m, m.Keys - {node}, elm
      ensures m.Keys == old(m.Keys) - {node} + {elm}
      ensures Holds(Graft(In(R, c, elm, u.red, u.left), d), k)
    {
      Replace(node, elm, c, u);
      Below(R, c, Tree(u.left, elm, u.red, u.right), d, k, m, root);
    }

    /** Both together. */
    method Exchange(node: Node, elm: Node, child: Node?, parent: Node?, ghost c: Ctx, ghost t: Tree, ghost d: Ctx, ghost ts: Tree)
      requires t.Tree? && t.node == node && t.left.Tree? && ts.Tree? && ts.node == elm && ts.left.Leaf?
      requires Holds(Graft(In(R, c, node, t.red, t.left), d), ts)
      requires child == elm.right && parent == elm.parent
      modifies `root, `m, m.Keys
      ensures m.Keys == old(m.Keys) - {node}
      ensures Holds(Graft(In(R, c, elm, t.red, t.left), d), ts.right)
    {
      ghost var keys := m.Keys;
      TakeOut(elm, child, parent, In(R, c, node, t.red, t.left), d, ts);
      OutAndIn(keys, elm, node);
      PutBack(node, elm, c, Tree(t.left, node, t.red, Plug(d, ts.right)), d, ts.right);
    }

    /** RB_REMOVE of a node with two children, up to the recolouring: the successor takes its place. */
    method DetachInner(node: Node, ghost c: Ctx, ghost t: Tree)
      returns (red: bool, parent: Node?, child: Node?, ghost c1: Ctx, ghost k: Tree)
      requires Holds(c, t) && Sound(c, t) && Sorted(Inorder(Plug(c, t)))
      requires t.Tree? && t.node == node && t.left.Tree? && t.right.Tree?
      modifies `root, `m, m.Keys
      ensures m.Keys == old(m.Keys) - {node}
      ensures Detached(red, parent, child, c1, k, Deleted(Inorder(Plug(c, t)), node))
    {
      ghost var d, ts;
      var elm;
      elm, d, ts := Successor(node, c, t);
      ghost var base := In(R, c, node, t.red, t.left);
      k, c1 := ts.right, Graft(In(R, c, elm, t.red, t.left), d);
      SuccessorDeleted(c, t, d, ts);
      SuccessorVacant(c, t, d, ts);
      FocusCell(Graft(base, d), ts, m, root);
      GraftParent(base, d, elm, ts, m, root);
      child, parent, red := elm.right, elm.parent, elm.red;
      Exchange(node, elm, child, parent, c, t, d, ts);
      if parent == node {
        parent := elm;
      }
    }

    /** A place is empty, with the nodes `q` around it. */
    ghost predicate Detached(red: bool, parent: Node?, child: Node?, c: Ctx, k: Tree, q: seq<Node>)
      reads this, m.Keys
    {
      && Holds(c, k) && Vacant(c, k, red) && RootOf(k) == child && CtxParent(c) == parent
      && Inorder(Plug(c, k)) == q && Sorted(q)
    }

    /** The same of a node with at most one child. */
    method DetachOuter(node: Node, ghost c: Ctx, ghost t: Tree)
      returns (red: bool, parent: Node?, child: Node?, ghost c1: Ctx, ghost k: Tree)
      requires Holds(c, t) && Sound(c, t) && Sorted(Inorder(Plug(c, t)))
      requires t.Tree? && t.node == node && (t.left.Leaf? || t.right.Leaf?)
      modifies `root, `m, m.Keys
      ensures m.Keys == old(m.Keys) - {node}
      ensures Detached(red, parent, child, c1, k, Deleted(Inorder(Plug(c, t)), node))
    {
      FocusCell(c, t, m, root);
      child := if node.left == null then node.right else node.left;
      parent, red := node.parent, node.red;
      c1, k := c, if t.left.Leaf? then t.right else t.left;
      UnlinkVacant(c, t, k);
      UnlinkOrder(t, k);
      DeletedAt(c, t, k);
      Unlink(node, child, parent, c, t, k);
    }

    /** RB_REMOVE: the node is gone, the order of the others stays. */
    method Remove(node: Node) returns (r: Node)
      requires Valid() && node in Inorder(tree)
      modifies this, m.Keys
      ensures Valid() && r == node
      ensures Inorder(tree) == Deleted(old(Inorder(tree)), node) && m.Keys == old(m.Keys) - {node}
    {
      InorderNodes(tree);
      ghost var c, t := Locate(Top, tree, node, m, root);
      FocusCell(c, t, m, root);
      var red, parent, child;
      ghost var c1, k;
      if node.left == null || node.right == null {
        red, parent, child, c1, k := DetachOuter(node, c, t);
      } else {
        red, parent, child, c1, k := DetachInner(node, c, t);
      }
      Recolour(red, parent, child, c1, k);
      return node;
    }

    /** The nearest node above of which `node` is on the left. */
    method Climb(node: Node, ghost c0: Ctx, ghost t0: Tree) returns (r: Node?)
      requires Holds(c0, t0) && t0.Tree? && t0.node == node
      ensures r == FirstOf(Behind(c0))
    {
      ghost var c, t := c0, t0;
      var elm := node;
      FocusCell(c, t, m, root);
      if c.In? {
        Kin(c, t, m, root);
      }
      while elm.parent != null && elm == elm.parent.right
        invariant Holds(c, t) && t.Tree? && t.node == elm && Behind(c) == Behind(c0)
        invariant elm.parent == CtxParent(c) && (c.In? ==> (elm == elm.parent.right <==> c.side == R))
        decreases Depth(c)
      {
        elm := elm.parent;
        Up(c, t, m, root);
        c, t := c.up, Mk(c.side, t, c.node, c.red, c.other);
        FocusCell(c, t, m, root);
        if c.In? {
          Kin(c, t, m, root);
        }
      }
      r := elm.parent;
    }

    /** RB_NEXT: the node with the next greater key. */
    method Next(node: Node) returns (r: Node?)
      requires Valid() && node in Inorder(tree)
      ensures r == FirstAtLeast(Inorder(tree), node.key + 1)
    {
      ghost var c, t := LocateNext(tree, node, m, root);
      if node.right != null {
        ghost var d, ts;
        r, d, ts := Successor(node, c, t);
        LeftmostFirst(d, ts);
      } else {
        r := Climb(node, c, t);
      }
    }
  }
}
