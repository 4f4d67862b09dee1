/** Sequences of nodes in the order of their keys. */
module NodeOrder {
  import opened TreeNodes

  ghost predicate Sorted(q: seq<Node>) {
    forall i, j :: 0 <= i < j < |q| ==> q[i].key < q[j].key
  }

  ghost predicate KeysBelow(q: seq<Node>, k: int) {
    forall i :: 0 <= i < |q| ==> q[i].key < k
  }

  ghost predicate KeysAbove(q: seq<Node>, k: int) {
    forall i :: 0 <= i < |q| ==> q[i].key > k
  }

  /** A node put where its key belongs. */
  function Inserted(q: seq<Node>, n: Node): seq<Node> {
    if q == [] || n.key < q[0].key then [n] + q else [q[0]] + Inserted(q[1..], n)
  }

  /** The first node whose key is not below `k`. */
  function FirstAtLeast(q: seq<Node>, k: int): Node? {
    if q == [] then null else if q[0].key >= k then q[0] else FirstAtLeast(q[1..], k)
  }

  lemma {:induction false} InsertedBetween(a: seq<Node>, b: seq<Node>, n: Node)
    requires KeysBelow(a, n.key) && KeysAbove(b, n.key)
    ensures Inserted(a + b, n) == a + [n] + b
  {
    if a == [] {
      assert a + b == b && a + [n] + b == [n] + b;
    } else {
      InsertedBetween(a[1..], b, n);
      assert (a + b)[1..] == a[1..] + b;
      assert a + [n] + b == [a[0]] + (a[1..] + [n] + b);
    }
  }

  lemma SortedInserted(a: seq<Node>, b: seq<Node>, n: Node)
    requires KeysBelow(a, n.key) && KeysAbove(b, n.key) && Sorted(a + b)
    ensures Sorted(a + [n] + b)
  {
    var q, r := a + b, a + [n] + b;
    forall i, j | 0 <= i < j < |r| ensures r[i].key < r[j].key {
      assert i < |a| ==> r[i] == q[i];
      assert i > |a| ==> r[i] == q[i - 1];
      assert j < |a| ==> r[j] == q[j];
      assert j > |a| ==> r[j] == q[j - 1];
      assert j > |a| ==> r[j] == b[j - 1 - |a|];
    }
  }

  lemma {:induction false} FirstBetween(a: seq<Node>, b: seq<Node>, k: int)
    requires KeysBelow(a, k) && (b != [] ==> b[0].key >= k)
    ensures FirstAtLeast(a + b, k) == if b == [] then null else b[0]
  {
    if a == [] {
      assert a + b == b;
    } else {
      FirstBetween(a[1..], b, k);
      assert (a + b)[1..] == a[1..] + b;
    }
  }

  lemma Split5(a: seq<Node>, l: seq<Node>, n: Node, r: seq<Node>, b: seq<Node>)
    requires Sorted(a + (l + [n] + r) + b)
    ensures KeysBelow(a, n.key) && KeysBelow(l, n.key) && KeysAbove(r, n.key) && KeysAbove(b, n.key)
  {
    var q := a + (l + [n] + r) + b;
    assert q[|a| + |l|] == n;
    forall i | 0 <= i < |a| ensures a[i].key < n.key { assert q[i] == a[i]; }
    forall i | 0 <= i < |l| ensures l[i].key < n.key { assert q[|a| + i] == l[i]; }
    forall i | 0 <= i < |r| ensures r[i].key > n.key { assert q[|a| + |l| + 1 + i] == r[i]; }
    forall i | 0 <= i < |b| ensures b[i].key > n.key { assert q[|a| + |l| + 1 + |r| + i] == b[i]; }
  }

  /** The nodes without `n`. */
  function Deleted(q: seq<Node>, n: Node): seq<Node> {
    if q == [] then [] else if q[0] == n then q[1..] else [q[0]] + Deleted(q[1..], n)
  }

  lemma {:induction false} DeletedBetween(a: seq<Node>, b: seq<Node>, n: Node)
    requires KeysBelow(a, n.key)
    ensures Deleted(a + [n] + b, n) == a + b
  {
    if a == [] {
      assert a + [n] + b == [n] + b && a + b == b;
    } else {
      DeletedBetween(a[1..], b, n);
      assert (a + [n] + b)[1..] == a[1..] + [n] + b;
      assert a + b == [a[0]] + (a[1..] + b);
    }
  }

  lemma SortedDeleted(a: seq<Node>, b: seq<Node>, n: Node)
    requires Sorted(a + [n] + b)
    ensures Sorted(a + b)
  {
    var q, r := a + b, a + [n] + b;
    forall i, j | 0 <= i < j < |q| ensures q[i].key < q[j].key {
      assert q[i] == if i < |a| then r[i] else r[i + 1];
      assert q[j] == if j < |a| then r[j] else r[j + 1];
    }
  }

  lemma Regroup(a: seq<Node>, l: seq<Node>, m: seq<Node>, r: seq<Node>, b: seq<Node>)
    ensures a + (l + m + r) + b == (a + l) + m + (r + b)
    ensures a + (l + r) + b == (a + l) + (r + b)
  {
  }

  lemma DeletedMiddle(a: seq<Node>, l: seq<Node>, n: Node, r: seq<Node>, b: seq<Node>)
    requires Sorted(a + (l + [n] + r) + b)
    ensures Deleted(a + (l + [n] + r) + b, n) == a + (l + r) + b && Sorted(a + (l + r) + b)
  {
    Split5(a, l, n, r, b);
    Regroup(a, l, [n], r, b);
    DeletedBetween(a + l, r + b, n);
    SortedDeleted(a + l, r + b, n);
  }

  lemma NextMiddle(a: seq<Node>, l: seq<Node>, n: Node, r: seq<Node>, b: seq<Node>)
    requires Sorted(a + (l + [n] + r) + b)
    ensures FirstAtLeast(a + (l + [n] + r) + b, n.key + 1) == if r + b == [] then null else (r + b)[0]
  {
    Split5(a, l, n, r, b);
    Regroup(a, l, [n], r, b);
    FirstBetween(a + l + [n], r + b, n.key + 1);
  }

  /** Insertion adds one node to the set of nodes, removal takes one away; both keep the order strict. */
  lemma {:induction false} InsertedNodes(q: seq<Node>, n: Node)
    ensures |Inserted(q, n)| == |q| + 1
    ensures forall x :: x in Inserted(q, n) <==> x in q || x == n
  {
    if q != [] && n.key >= q[0].key {
      InsertedNodes(q[1..], n);
      assert q == [q[0]] + q[1..];
    }
  }

  lemma {:induction false} DeletedNodes(q: seq<Node>, n: Node)
    requires Sorted(q)
    ensures forall x :: x in Deleted(q, n) <==> x in q && x != n
  {
    if q != [] {
      assert q == [q[0]] + q[1..];
      forall x | x in q[1..] ensures x != q[0] {
        var i :| 0 <= i < |q[1..]| && q[1..][i] == x;
        assert q[i + 1] == x && q[0].key < q[i + 1].key;
      }
      DeletedNodes(q[1..], n);
    }
  }

  /** A node inserted and removed again leaves the nodes as they were. */
  lemma {:induction false} InsertedDeleted(q: seq<Node>, n: Node)
    requires n !in q
    ensures Deleted(Inserted(q, n), n) == q
  {
    if q != [] && n.key >= q[0].key {
      InsertedDeleted(q[1..], n);
      assert Inserted(q, n)[1..] == Inserted(q[1..], n);
      assert q == [q[0]] + q[1..];
    } else {
      assert ([n] + q)[1..] == q;
    }
  }
}
