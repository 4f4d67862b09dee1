/** Order and balance of red-black trees, on shapes: what a context may be filled with, and why the cases work. */
module RbColor {
  import opened TreeNodes
  import opened NodeOrder
  import opened RbShape

  // ---------------------------------------------------------------- order

  /** The nodes in order. */
  function Inorder(t: Tree): seq<Node> {
    if t.Leaf? then [] else Inorder(t.left) + [t.node] + Inorder(t.right)
  }

  /** The nodes before and behind the hole. */
  function Before(c: Ctx): seq<Node> {
    if c.Top? then []
    else if c.side == L then Before(c.up)
    else Before(c.up) + Inorder(c.other) + [c.node]
  }

  function Behind(c: Ctx): seq<Node> {
    if c.Top? then []
    else if c.side == R then Behind(c.up)
    else [c.node] + Inorder(c.other) + Behind(c.up)
  }

  /** In a search tree the part where `k` can be is the one on its side of every node above. */
  ghost predicate Between(c: Ctx, k: int) {
    KeysBelow(Before(c), k) && KeysAbove(Behind(c), k)
  }

  lemma NodeBetween(c: Ctx, t: Tree)
    requires Sorted(Inorder(Plug(c, t))) && t.Tree?
    ensures KeysBelow(Before(c), t.node.key) && KeysBelow(Inorder(t.left), t.node.key)
    ensures KeysAbove(Inorder(t.right), t.node.key) && KeysAbove(Behind(c), t.node.key)
  {
    InorderPlug(c, t);
    Split5(Before(c), Inorder(t.left), t.node, Inorder(t.right), Behind(c));
  }

  lemma Descend(s: Side, c: Ctx, t: Tree, k: int)
    requires Sorted(Inorder(Plug(c, t))) && t.Tree? && Between(c, k)
    requires if s == L then k < t.node.key else k > t.node.key
    ensures Between(In(s, c, t.node, t.red, Child(Opp(s), t)), k)
  {
    NodeBetween(c, t);
  }

  lemma {:induction false} InorderNodes(t: Tree)
    ensures forall n :: n in Inorder(t) <==> n in Nodes(t)
  {
    if t.Tree? {
      InorderNodes(t.left);
      InorderNodes(t.right);
    }
  }

  lemma Assoc5(a: seq<Node>, b: seq<Node>, n: Node, d: seq<Node>, e: seq<Node>)
    ensures a + (b + [n] + d) + e == a + b + ([n] + d + e)
    ensures a + (b + [n] + d) + e == (a + b + [n]) + d + e
  {
  }

  lemma {:induction false} InorderPlug(c: Ctx, t: Tree)
    ensures Inorder(Plug(c, t)) == Before(c) + Inorder(t) + Behind(c)
  {
    if c.In? {
      var u := Mk(c.side, t, c.node, c.red, c.other);
      InorderPlug(c.up, u);
      if c.side == L {
        Assoc5(Before(c.up), Inorder(t), c.node, Inorder(c.other), Behind(c.up));
      } else {
        Assoc5(Before(c.up), Inorder(c.other), c.node, Inorder(t), Behind(c.up));
      }
    }
  }

  lemma InorderRotated(s: Side, t: Tree)
    requires t.Tree? && Child(Opp(s), t).Tree?
    ensures Inorder(Rotated(s, t)) == Inorder(t)
  {
    var u := Child(Opp(s), t);
    var a, b, g := Inorder(Child(s, t)), Inorder(Child(s, u)), Inorder(Child(Opp(s), u));
    if s == L {
      assert a + [t.node] + (b + [u.node] + g) == (a + [t.node] + b) + [u.node] + g;
    } else {
      assert (g + [u.node] + b) + [t.node] + a == g + [u.node] + (b + [t.node] + a);
    }
  }

  /** A change inside the focus that keeps its order keeps the order of the whole. */
  lemma SameOrder(c: Ctx, t: Tree, u: Tree)
    requires Inorder(t) == Inorder(u)
    ensures Inorder(Plug(c, t)) == Inorder(Plug(c, u))
  {
    InorderPlug(c, t);
    InorderPlug(c, u);
  }

  // ---------------------------------------------------------------- balance

  predicate IsRed(t: Tree) {
    t.Tree? && t.red
  }

  /** Black nodes on the way from the root down to a leaf. */
  function Bh(t: Tree): nat {
    if t.Leaf? then 0 else Bh(t.left) + (if t.red then 0 else 1)
  }

  predicate Balanced(t: Tree) {
    t.Tree? ==> Balanced(t.left) && Balanced(t.right) && Bh(t.left) == Bh(t.right)
  }

  predicate NoRedRed(t: Tree) {
    t.Tree? ==> NoRedRed(t.left) && NoRedRed(t.right) && (t.red ==> !IsRed(t.left) && !IsRed(t.right))
  }

  /** A subtree that can stand anywhere but below a red node. */
  predicate Fine(t: Tree, h: nat) {
    NoRedRed(t) && Balanced(t) && Bh(t) == h
  }

  /** A red-black tree: the root is black. */
  predicate RedBlack(t: Tree) {
    NoRedRed(t) && Balanced(t) && !IsRed(t)
  }

  predicate TopRed(c: Ctx) {
    c.In? && c.red
  }

  /** A context of a red-black tree that waits for a subtree of black height `h`. */
  predicate CtxFine(c: Ctx, h: nat) {
    c.In? ==>
      && Fine(c.other, h)
      && (c.red ==> !IsRed(c.other) && c.up.In? && !c.up.red)
      && CtxFine(c.up, if c.red then h else h + 1)
  }

  lemma FineMk(s: Side, a: Tree, n: Node, red: bool, b: Tree, h: nat)
    requires Fine(a, h) && Fine(b, h) && (red ==> !IsRed(a) && !IsRed(b))
    ensures Fine(Mk(s, a, n, red, b), if red then h else h + 1)
  {
  }

  lemma FineChild(s: Side, t: Tree, h: nat)
    requires Fine(t, h) && t.Tree?
    ensures (t.red ==> !IsRed(Child(s, t)))
    ensures t.red || h > 0
    ensures Fine(Child(s, t), if t.red then h else h - 1)
  {
  }

  /** A fine subtree in a fine context makes a red-black tree, once the root is black. */
  lemma {:induction false} PlugFine(c: Ctx, t: Tree, h: nat)
    requires CtxFine(c, h) && Fine(t, h) && !(IsRed(t) && TopRed(c))
    ensures NoRedRed(Plug(c, t)) && Balanced(Plug(c, t))
    ensures c.In? ==> !IsRed(Plug(c, t))
  {
    if c.In? {
      FineMk(c.side, t, c.node, c.red, c.other, h);
      PlugFine(c.up, Mk(c.side, t, c.node, c.red, c.other), if c.red then h else h + 1);
    }
  }

  /** Nothing is wrong with the tree, seen from here. */
  predicate Sound(c: Ctx, t: Tree) {
    Fine(t, Bh(t)) && CtxFine(c, Bh(t)) && (IsRed(t) ==> c.In? && !c.red)
  }

  lemma SoundDown(s: Side, c: Ctx, t: Tree)
    requires Sound(c, t) && t.Tree?
    ensures Sound(In(s, c, t.node, t.red, Child(Opp(s), t)), Child(s, t))
  {
    FineChild(L, t, Bh(t));
    FineChild(R, t, Bh(t));
  }

  function Blackened(t: Tree): Tree {
    if t.Leaf? then t else t.(red := false)
  }

  lemma BlackenedFine(t: Tree, h: nat)
    requires Fine(t, h)
    ensures Fine(Blackened(t), if IsRed(t) then h + 1 else h) && Inorder(Blackened(t)) == Inorder(t)
  {
  }

  // ---------------------------------------------------------------- insertion

  /** A red node that may stand below a red one, the only flaw. */
  predicate InsertState(c: Ctx, t: Tree) {
    IsRed(t) && Fine(t, Bh(t)) && CtxFine(c, Bh(t))
  }

  /** Red uncle: parent and uncle turn black, the grandparent red. */
  lemma RedUncle(s: Side, s1: Side, t: Tree, p: Node, sib: Tree, g: Node, uncle: Tree, up: Ctx)
    requires InsertState(In(s1, In(s, up, g, false, uncle), p, true, sib), t) && IsRed(uncle)
    ensures InsertState(up, Mk(s, Mk(s1, t, p, false, sib), g, true, Blackened(uncle)))
  {
    var h := Bh(t);
    assert CtxFine(In(s, up, g, false, uncle), h);
    FineMk(s1, t, p, false, sib, h);
    BlackenedFine(uncle, h);
    FineMk(s, Mk(s1, t, p, false, sib), g, true, Blackened(uncle), h + 1);
  }

  /** An inner grandchild is first turned outwards. */
  lemma TurnOut(s: Side, t: Tree, p: Node, sib: Tree, c: Ctx)
    requires InsertState(In(Opp(s), c, p, true, sib), t)
    ensures InsertState(In(s, c, t.node, true, Child(Opp(s), t)), Mk(s, sib, p, true, Child(s, t)))
  {
    var h := Bh(t);
    FineChild(L, t, h);
    FineChild(R, t, h);
    FineMk(s, sib, p, true, Child(s, t), h);
  }

  /** Black uncle, outer grandchild: after recolouring and rotating no flaw is left. */
  lemma OuterDone(s: Side, t: Tree, p: Node, sib: Tree, g: Node, uncle: Tree, up: Ctx)
    requires InsertState(In(s, In(s, up, g, false, uncle), p, true, sib), t) && !IsRed(uncle)
    ensures InsertState(In(s, up, p, false, Mk(s, sib, g, true, uncle)), t)
  {
    assert CtxFine(In(s, up, g, false, uncle), Bh(t));
    FineMk(s, sib, g, true, uncle, Bh(t));
  }

  /** None of the three cases changes the order. */
  lemma RedUncleOrder(s: Side, s1: Side, t: Tree, p: Node, sib: Tree, g: Node, uncle: Tree, up: Ctx)
    ensures Inorder(Plug(up, Mk(s, Mk(s1, t, p, false, sib), g, true, Blackened(uncle))))
         == Inorder(Plug(In(s1, In(s, up, g, false, uncle), p, true, sib), t))
  {
    assert Inorder(Blackened(uncle)) == Inorder(uncle);
    assert Inorder(Mk(s1, t, p, false, sib)) == Inorder(Mk(s1, t, p, true, sib));
    SameOrder(up, Mk(s, Mk(s1, t, p, false, sib), g, true, Blackened(uncle)), Mk(s, Mk(s1, t, p, true, sib), g, false, uncle));
  }

  lemma TurnOutOrder(s: Side, t: Tree, p: Node, sib: Tree, c: Ctx)
    requires IsRed(t)
    ensures Inorder(Plug(In(s, c, t.node, true, Child(Opp(s), t)), Mk(s, sib, p, true, Child(s, t))))
         == Inorder(Plug(In(Opp(s), c, p, true, sib), t))
  {
    var a, b := Mk(s, sib, p, true, t), Mk(s, Mk(s, sib, p, true, Child(s, t)), t.node, true, Child(Opp(s), t));
    InorderRotated(s, a);
    assert b == Rotated(s, a);
    SameOrder(c, a, b);
  }

  lemma RotateAwayOrder(s: Side, t: Tree, p: Node, sib: Tree, g: Node, uncle: Tree, up: Ctx)
    ensures Inorder(Plug(In(s, up, p, false, Mk(s, sib, g, true, uncle)), t))
         == Inorder(Plug(In(s, In(s, up, g, false, uncle), p, true, sib), t))
  {
    var a, b := Mk(s, Mk(s, t, p, false, sib), g, false, uncle), Mk(s, Mk(s, t, p, true, sib), g, false, uncle);
    var d := Mk(s, t, p, false, Mk(s, sib, g, true, uncle));
    assert d == Rotated(Opp(s), Mk(s, Mk(s, t, p, false, sib), g, true, uncle));
    InorderRotated(Opp(s), Mk(s, Mk(s, t, p, false, sib), g, true, uncle));
    assert Inorder(Mk(s, t, p, false, sib)) == Inorder(Mk(s, t, p, true, sib));
    SameOrder(up, d, b);
  }

  // ---------------------------------------------------------------- removal

  /** `t` lacks one black node against what its context waits for; a red root would make up for it. */
  predicate RemoveState(c: Ctx, t: Tree) {
    && CtxFine(c, Bh(t) + 1)
    && Balanced(t)
    && (t.Tree? ==> NoRedRed(t.left) && NoRedRed(t.right))
    && (!IsRed(t) ==> NoRedRed(t))
  }

  /** The sibling of a subtree that lacks a black node is not a leaf. */
  lemma SiblingThere(c: Ctx, t: Tree)
    requires RemoveState(c, t) && c.In?
    ensures c.other.Tree?
    ensures c.other.red ==> Child(c.side, c.other).Tree? && !IsRed(Child(c.side, c.other))
  {
    if c.other.red {
      FineChild(c.side, c.other, Bh(t) + 1);
    }
  }

  /** Red sibling: after recolouring and rotating the sibling is black. */
  lemma RedSibling(s: Side, up: Ctx, p: Node, pred: bool, sib: Tree, t: Tree)
    requires RemoveState(In(s, up, p, pred, sib), t) && IsRed(sib)
    ensures !pred
    ensures RemoveState(In(s, In(s, up, sib.node, false, Child(Opp(s), sib)), p, true, Child(s, sib)), t)
  {
    FineChild(L, sib, Bh(t) + 1);
    FineChild(R, sib, Bh(t) + 1);
  }

  /** Black sibling with black children: it turns red, and the lack moves up. */
  lemma MoveUp(s: Side, up: Ctx, p: Node, pred: bool, sib: Tree, t: Tree)
    requires RemoveState(In(s, up, p, pred, sib), t) && !IsRed(t)
    requires sib.Tree? && !sib.red && !IsRed(sib.left) && !IsRed(sib.right)
    ensures RemoveState(up, Mk(s, t, p, pred, sib.(red := true)))
  {
    var h := Bh(t);
    FineChild(L, sib, h + 1);
    FineChild(R, sib, h + 1);
    var sib1 := sib.(red := true);
    assert Fine(sib1, h);
    var u := Mk(s, t, p, pred, sib1);
    assert Bh(u) == (if pred then h else h + 1) && Balanced(u) && NoRedRed(t);
  }

  /** A sibling whose inner child took its place. */
  function Straightened(s: Side, sib: Tree): (r: Tree)
    requires sib.Tree? && Child(s, sib).Tree?
  {
    var i := Child(s, sib);
    Mk(s, Child(s, i), i.node, false, Mk(s, Child(Opp(s), i), sib.node, true, Child(Opp(s), sib)))
  }

  /** Black sibling whose outer child is black and inner child red: the inner child takes its place. */
  lemma InnerRed(s: Side, up: Ctx, p: Node, pred: bool, sib: Tree, t: Tree)
    requires RemoveState(In(s, up, p, pred, sib), t)
    requires sib.Tree? && !sib.red && IsRed(Child(s, sib)) && !IsRed(Child(Opp(s), sib))
    ensures RemoveState(In(s, up, p, pred, Straightened(s, sib)), t)
  {
    var h := Bh(t);
    FineChild(L, sib, h + 1);
    FineChild(R, sib, h + 1);
    var i := Child(s, sib);
    FineChild(L, i, h);
    FineChild(R, i, h);
    FineMk(s, Child(Opp(s), i), sib.node, true, Child(Opp(s), sib), h);
    FineMk(s, Child(s, i), i.node, false, Mk(s, Child(Opp(s), i), sib.node, true, Child(Opp(s), sib)), h);
  }

  /** The parent's subtree after recolouring and rotating. */
  function Borrowed(s: Side, p: Node, pred: bool, sib: Tree, t: Tree): Tree
    requires sib.Tree?
  {
    Mk(s, Mk(s, t, p, false, Child(s, sib)), sib.node, pred, Blackened(Child(Opp(s), sib)))
  }

  /** Black sibling with a red outer child: recolouring and a rotation restore the black node. */
  lemma OuterRed(s: Side, up: Ctx, p: Node, pred: bool, sib: Tree, t: Tree)
    requires RemoveState(In(s, up, p, pred, sib), t) && !IsRed(t)
    requires sib.Tree? && !sib.red && IsRed(Child(Opp(s), sib))
    ensures var u := Borrowed(s, p, pred, sib, t);
            Fine(u, Bh(u)) && CtxFine(up, Bh(u)) && !(IsRed(u) && TopRed(up))
  {
    var h := Bh(t);
    FineChild(L, sib, h + 1);
    FineChild(R, sib, h + 1);
    FineMk(s, t, p, false, Child(s, sib), h);
    BlackenedFine(Child(Opp(s), sib), h);
    FineMk(s, Mk(s, t, p, false, Child(s, sib)), sib.node, pred, Blackened(Child(Opp(s), sib)), h + 1);
  }

  lemma BorrowedDone(s: Side, up: Ctx, p: Node, pred: bool, sib: Tree, t: Tree)
    requires RemoveState(In(s, up, p, pred, sib), t) && !IsRed(t)
    requires sib.Tree? && !sib.red && IsRed(Child(Opp(s), sib))
    ensures RemoveState(Top, Plug(up, Borrowed(s, p, pred, sib, t)))
  {
    OuterRed(s, up, p, pred, sib, t);
    var u := Borrowed(s, p, pred, sib, t);
    PlugFine(up, u, Bh(u));
  }

  /** The end of the loop: a red root turned black makes up for the lack; at the top there is nothing to make up for. */
  lemma RemoveDone(c: Ctx, t: Tree)
    requires RemoveState(c, t) && (IsRed(t) || c.Top?)
    ensures RedBlack(Plug(c, Blackened(t)))
  {
    if IsRed(t) {
      assert Fine(Blackened(t), Bh(t) + 1);
      PlugFine(c, Blackened(t), Bh(t) + 1);
    }
  }

  /** None of the four cases changes the order. */
  lemma RedSiblingOrder(s: Side, up: Ctx, p: Node, pred: bool, sib: Tree, t: Tree)
    requires sib.Tree?
    ensures Inorder(Plug(In(s, In(s, up, sib.node, false, Child(Opp(s), sib)), p, true, Child(s, sib)), t))
         == Inorder(Plug(In(s, up, p, pred, sib), t))
  {
    var a, b := Mk(s, t, p, true, sib.(red := false)), Mk(s, t, p, pred, sib);
    assert Inorder(a) == Inorder(b);
    InorderRotated(s, a);
    assert Rotated(s, a) == Mk(s, Mk(s, t, p, true, Child(s, sib)), sib.node, false, Child(Opp(s), sib));
    SameOrder(up, Rotated(s, a), b);
  }

  lemma MoveUpOrder(s: Side, up: Ctx, p: Node, pred: bool, sib: Tree, t: Tree)
    requires sib.Tree?
    ensures Inorder(Plug(up, Mk(s, t, p, pred, sib.(red := true)))) == Inorder(Plug(In(s, up, p, pred, sib), t))
  {
    assert Inorder(sib.(red := true)) == Inorder(sib);
    SameOrder(up, Mk(s, t, p, pred, sib.(red := true)), Mk(s, t, p, pred, sib));
  }

  lemma InnerRedOrder(s: Side, up: Ctx, p: Node, pred: bool, sib: Tree, t: Tree)
    requires sib.Tree? && Child(s, sib).Tree?
    ensures Inorder(Plug(In(s, up, p, pred, Straightened(s, sib)), t)) == Inorder(Plug(In(s, up, p, pred, sib), t))
  {
    var i := Child(s, sib);
    var a := Mk(s, i.(red := false), sib.node, true, Child(Opp(s), sib));
    assert Inorder(i.(red := false)) == Inorder(i);
    assert Inorder(a) == Inorder(sib);
    InorderRotated(Opp(s), a);
    assert Rotated(Opp(s), a) == Straightened(s, sib);
    SameOrder(up, Mk(s, t, p, pred, Rotated(Opp(s), a)), Mk(s, t, p, pred, sib));
  }

  lemma BorrowedOrder(s: Side, up: Ctx, p: Node, pred: bool, sib: Tree, t: Tree)
    requires sib.Tree?
    ensures Inorder(Plug(up, Borrowed(s, p, pred, sib, t))) == Inorder(Plug(In(s, up, p, pred, sib), t))
  {
    var sib1 := Mk(s, Child(s, sib), sib.node, pred, Blackened(Child(Opp(s), sib)));
    var a := Mk(s, t, p, false, sib1);
    assert Inorder(Blackened(Child(Opp(s), sib))) == Inorder(Child(Opp(s), sib));
    assert Inorder(sib1) == Inorder(sib);
    InorderRotated(s, a);
    assert Rotated(s, a) == Borrowed(s, p, pred, sib, t);
    SameOrder(up, Rotated(s, a), Mk(s, t, p, pred, sib));
  }

  // ---------------------------------------------------------------- taking a node out

  /** The place of a node taken out, filled with its only child `k`. */
  predicate Vacant(c: Ctx, k: Tree, red: bool) {
    && Fine(k, Bh(k))
    && if red then !IsRed(k) && c.In? && CtxFine(c, Bh(k)) else CtxFine(c, Bh(k) + 1)
  }

  lemma UnlinkVacant(c: Ctx, t: Tree, k: Tree)
    requires Sound(c, t) && OnlyChild(t, k)
    ensures Vacant(c, k, t.red)
  {
  }

  /** A red node leaves nothing behind to repair. */
  lemma RedLeft(c: Ctx, k: Tree)
    requires Vacant(c, k, true)
    ensures RedBlack(Plug(c, k))
  {
    PlugFine(c, k, Bh(k));
  }

  lemma {:induction false} GraftFine(c: Ctx, d: Ctx, n: Node, h: nat)
    requires c.In? && CtxFine(Graft(c, d), h)
    ensures CtxFine(Graft(c.(node := n), d), h)
  {
    if d.In? {
      GraftFine(c, d.up, n, if d.red then h else h + 1);
    }
  }

  lemma {:induction false} PlugGraft(c: Ctx, d: Ctx, t: Tree)
    ensures Plug(Graft(c, d), t) == Plug(c, Plug(d, t))
  {
    if d.In? {
      PlugGraft(c, d.up, Mk(d.side, t, d.node, d.red, d.other));
    }
  }

  /** Always to the left: nothing comes before. */
  predicate LeftSpine(d: Ctx) {
    d.In? ==> d.side == L && LeftSpine(d.up)
  }

  lemma {:induction false} NothingBefore(d: Ctx)
    requires LeftSpine(d)
    ensures Before(d) == []
  {
    if d.In? {
      NothingBefore(d.up);
    }
  }

  /** The order without the node at the focus. */
  lemma DeletedAt(c: Ctx, t: Tree, u: Tree)
    requires t.Tree? && Inorder(u) == Inorder(t.left) + Inorder(t.right) && Sorted(Inorder(Plug(c, t)))
    ensures Inorder(Plug(c, u)) == Deleted(Inorder(Plug(c, t)), t.node) && Sorted(Inorder(Plug(c, u)))
  {
    InorderPlug(c, t);
    InorderPlug(c, u);
    DeletedMiddle(Before(c), Inorder(t.left), t.node, Inorder(t.right), Behind(c));
  }

  lemma UnlinkOrder(t: Tree, k: Tree)
    requires OnlyChild(t, k)
    ensures Inorder(k) == Inorder(t.left) + Inorder(t.right)
  {
    assert [] + Inorder(k) == Inorder(k) == Inorder(k) + [];
  }

  /** The node at the focus replaced by its successor, the first node on its right. */
  lemma SuccessorOrder(t: Tree, d: Ctx, ts: Tree)
    requires t.Tree? && t.right == Plug(d, ts) && LeftSpine(d) && ts.Tree? && ts.left.Leaf?
    ensures Inorder(Tree(t.left, ts.node, t.red, Plug(d, ts.right))) == Inorder(t.left) + Inorder(t.right)
  {
    NothingBefore(d);
    InorderPlug(d, ts);
    InorderPlug(d, ts.right);
    assert Inorder(ts) == [ts.node] + Inorder(ts.right) by {
      assert [] + [ts.node] == [ts.node];
    }
    First(Inorder(t.left), ts.node, Inorder(ts.right), Behind(d));
  }

  /** What taking out an inner node comes to, in order. */
  lemma SuccessorDeleted(c: Ctx, t: Tree, d: Ctx, ts: Tree)
    requires t.Tree? && t.right == Plug(d, ts) && LeftSpine(d) && ts.Tree? && ts.left.Leaf? && Sorted(Inorder(Plug(c, t)))
    ensures var q := Inorder(Plug(Graft(In(R, c, ts.node, t.red, t.left), d), ts.right));
            q == Deleted(Inorder(Plug(c, t)), t.node) && Sorted(q)
  {
    SuccessorOrder(t, d, ts);
    var u := Tree(t.left, ts.node, t.red, Plug(d, ts.right));
    DeletedAt(c, t, u);
    PlugGraft(In(R, c, ts.node, t.red, t.left), d, ts.right);
    assert Plug(In(R, c, ts.node, t.red, t.left), Plug(d, ts.right)) == Plug(c, u);
  }

  /** And in balance. */
  lemma SuccessorVacant(c: Ctx, t: Tree, d: Ctx, ts: Tree)
    requires t.Tree? && ts.Tree? && ts.left.Leaf? && Sound(Graft(In(R, c, t.node, t.red, t.left), d), ts)
    ensures Vacant(Graft(In(R, c, ts.node, t.red, t.left), d), ts.right, ts.red)
  {
    var base, k := In(R, c, t.node, t.red, t.left), ts.right;
    UnlinkVacant(Graft(base, d), ts, k);
    GraftFine(base, d, ts.node, if ts.red then Bh(k) else Bh(k) + 1);
    GraftIn(base, d);
    GraftIn(base.(node := ts.node), d);
  }

  lemma GraftIn(c: Ctx, d: Ctx)
    requires c.In?
    ensures Graft(c, d).In?
  {
  }

  lemma First(l: seq<Node>, n: Node, r: seq<Node>, b: seq<Node>)
    ensures l + [n] + ([] + r + b) == l + ([] + ([n] + r) + b)
  {
  }

  function FirstOf(q: seq<Node>): Node? {
    if q == [] then null else q[0]
  }

  /** The node that follows one in the order. */
  lemma NextIs(c: Ctx, t: Tree)
    requires t.Tree? && Sorted(Inorder(Plug(c, t)))
    ensures FirstAtLeast(Inorder(Plug(c, t)), t.node.key + 1)
         == if t.right.Tree? then FirstOf(Inorder(t.right)) else FirstOf(Behind(c))
  {
    InorderPlug(c, t);
    NextMiddle(Before(c), Inorder(t.left), t.node, Inorder(t.right), Behind(c));
    FirstOfBoth(Inorder(t.right), Behind(c));
  }

  lemma FirstOfBoth(a: seq<Node>, b: seq<Node>)
    ensures a + b != [] ==> (a + b)[0] == if a != [] then a[0] else b[0]
    ensures a + b == [] <==> a == [] && b == []
  {
  }

  // ---------------------------------------------------------------- height

  function Height(t: Tree): nat {
    if t.Leaf? then 0 else 1 + (if Height(t.left) > Height(t.right) then Height(t.left) else Height(t.right))
  }

  function Pow2(n: nat): (r: nat)
    ensures r > 0
  {
    if n == 0 then 1 else 2 * Pow2(n - 1)
  }

  lemma {:induction false} Pow2Monotone(a: nat, b: nat)
    requires a <= b
    ensures Pow2(a) <= Pow2(b)
  {
    if a < b {
      Pow2Monotone(a, b - 1);
    }
  }

  lemma {:induction false} Pow2Double(a: nat)
    ensures Pow2(2 * a) == Pow2(a) * Pow2(a)
  {
    if a > 0 {
      Pow2Double(a - 1);
      assert Pow2(2 * a) == 4 * Pow2(2 * (a - 1));
    }
  }

  lemma {:induction false} SizeBound(t: Tree)
    requires Balanced(t)
    ensures |Inorder(t)| + 1 >= Pow2(Bh(t))
  {
    if t.Tree? {
      SizeBound(t.left);
      SizeBound(t.right);
    }
  }

  lemma {:induction false} HeightBound(t: Tree)
    requires Balanced(t) && NoRedRed(t)
    ensures Height(t) <= 2 * Bh(t) + (if IsRed(t) then 1 else 0)
  {
    if t.Tree? {
      HeightBound(t.left);
      HeightBound(t.right);
    }
  }

  /** The height is at most 2 lg (n + 1), that is, two to the height is at most the square of n + 1. */
  lemma HeightIsLogarithmic(t: Tree)
    requires RedBlack(t)
    ensures Pow2(Height(t)) <= (|Inorder(t)| + 1) * (|Inorder(t)| + 1)
  {
    HeightBound(t);
    SizeBound(t);
    Pow2Monotone(Height(t), 2 * Bh(t));
    Pow2Double(Bh(t));
    MulMonotone(Pow2(Bh(t)), |Inorder(t)| + 1);
  }

  lemma MulMonotone(a: nat, b: nat)
    requires a <= b
    ensures a * a <= b * b
  {
    assert a * a <= a * b <= b * b;
  }
}
