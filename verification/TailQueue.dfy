/** The tail queue of the TAILQ macros, as the queues of frames use it.  A head and the link of an element have the same
    layout, a pointer to an element and a pointer to such a pointer; the latter is kept as the entry whose first field
    it points to. */
module TailQueue {
  import opened Bytes
  import opened MqttCodec

  class Entry {
    const frame: Frame
    const id: nat
    var next: Entry?         // tqe_next, and tqh_first of a head
    var prev: Entry          // tqe_prev, and tqh_last of a head

    constructor (frame: Frame, id: nat)
      ensures this.frame == frame && this.id == id && next == null && prev == this
    {
      this.frame, this.id := frame, id;
      next, prev := null, this;
    }
  }

  /** What a loop over a queue takes out: the request a response belongs to, or the messages with an id. */
  datatype Wanted = Request(typ: nibble, id: nat) | Message(id: nat)

  predicate Matches(e: Entry, w: Wanted) {
    e.id == w.id && (w.Request? ==> e.frame.typ == w.typ)
  }

  /** The elements that do not match. */
  function Without(q: seq<Entry>, w: Wanted): seq<Entry> {
    if q == [] then []
    else Without(q[..|q| - 1], w) + (if Matches(q[|q| - 1], w) then [] else [q[|q| - 1]])
  }

  /** What is left is what does not match. */
  lemma {:induction false} WithoutKeeps(q: seq<Entry>, w: Wanted)
    ensures forall e :: e in Without(q, w) <==> e in q && !Matches(e, w)
  {
    if q != [] {
      WithoutKeeps(q[..|q| - 1], w);
      assert q == q[..|q| - 1] + [q[|q| - 1]];
    }
  }

  /** One of the first `n` elements matches. */
  predicate Has(q: seq<Entry>, n: nat, w: Wanted)
    requires n <= |q|
  {
    n > 0 && (Matches(q[n - 1], w) || Has(q, n - 1, w))
  }

  lemma {:induction false} HasMeans(q: seq<Entry>, n: nat, w: Wanted)
    requires n <= |q|
    ensures Has(q, n, w) <==> exists i :: 0 <= i < n && Matches(q[i], w)
  {
    if n > 0 {
      HasMeans(q, n - 1, w);
    }
  }

  /** What the loop has passed, without the matches, and what it has not. */
  function PassedAndRest(q: seq<Entry>, i: nat, w: Wanted): seq<Entry>
    requires i <= |q|
  {
    Without(q[..i], w) + q[i..]
  }

  lemma PassedAll(q: seq<Entry>, w: Wanted)
    ensures PassedAndRest(q, |q|, w) == Without(q, w) && PassedAndRest(q, 0, w) == q
  {
    assert q[..|q|] == q && q[..0] == [];
  }

  lemma PassOne(q: seq<Entry>, i: nat, w: Wanted)
    requires i < |q|
    ensures var k, line := |Without(q[..i], w)|, PassedAndRest(q, i, w);
            && k < |line| && line[k] == q[i] && (k + 1 < |line| <==> i + 1 < |q|) && (i + 1 < |q| ==> line[k + 1] == q[i + 1])
            && PassedAndRest(q, i + 1, w) == if Matches(q[i], w) then line[..k] + line[k + 1..] else line
  {
    assert q[..i + 1][..i] == q[..i];
  }

  // ---------------------------------------------------------------- chains

  datatype Cell = Cell(next: Entry?, prev: Entry)

  type Links = map<Entry, Cell>

  ghost predicate Agree(m: Links)
    reads m.Keys
  {
    forall e :: e in m ==> m[e] == Cell(e.next, e.prev)
  }

  function After(c: seq<Entry>, i: nat): Entry? {
    if i + 1 < |c| then c[i + 1] else null
  }

  /** What comes before; the last one comes before the head. */
  function Before(c: seq<Entry>, i: nat): Entry
    requires i < |c|
  {
    if i > 0 then c[i - 1] else c[|c| - 1]
  }

  ghost predicate CellAt(c: seq<Entry>, m: Links, i: nat) {
    i < |c| && c[i] in m && m[c[i]] == Cell(After(c, i), Before(c, i))
  }

  ghost predicate Distinct(c: seq<Entry>) {
    forall i, j :: 0 <= i < j < |c| ==> c[i] != c[j]
  }

  function Elements(c: seq<Entry>): set<Entry> {
    set e | e in c
  }

  /** The head and the elements: each points to the next, each element back to the one before, the head to the last. */
  ghost predicate Linked(c: seq<Entry>, m: Links) {
    && c != [] && Distinct(c)
    && forall i :: 0 <= i < |c| ==> CellAt(c, m, i)
  }

  /** The links are those of the head and of the elements, and of nothing else. */
  ghost predicate Owns(c: seq<Entry>, m: Links) {
    m.Keys == Elements(c)
  }

  /** The links after `e` was put behind the entry `at`, whose next element was `next`. */
  function InsertedLinks(head: Entry, at: Entry, e: Entry, m: Links): Links
    requires head in m && at in m && (m[at].next != null ==> m[at].next in m)
  {
    var m1 := m[e := Cell(m[at].next, at)];
    var m2 := m1[at := Cell(e, m1[at].prev)];
    var back := if m[at].next != null then m[at].next else head;
    m2[back := Cell(m2[back].next, e)]
  }

  function InsertedAt(c: seq<Entry>, p: nat, e: Entry): (d: seq<Entry>)
    requires p < |c|
    ensures |d| == |c| + 1
    ensures forall i :: 0 <= i < |d| ==> d[i] == if i <= p then c[i] else if i == p + 1 then e else c[i - 1]
  {
    c[..p + 1] + [e] + c[p + 1..]
  }

  /** One cell after the insertion. */
  lemma InsertedCell(c: seq<Entry>, p: nat, e: Entry, m: Links, i: nat)
    requires Linked(c, m) && p < |c| && e !in m && i <= |c|
    ensures c[0] in m && c[p] in m && (m[c[p]].next != null ==> m[c[p]].next in m)
    ensures CellAt(InsertedAt(c, p, e), InsertedLinks(c[0], c[p], e, m), i)
  {
    assert CellAt(c, m, 0) && CellAt(c, m, p);
    assert p + 1 < |c| ==> CellAt(c, m, p + 1);
    if i <= p {
      assert CellAt(c, m, i);
    } else if i > p + 1 {
      assert CellAt(c, m, i - 1);
    }
  }

  lemma DistinctInserted(c: seq<Entry>, p: nat, e: Entry)
    requires Distinct(c) && p < |c| && e !in c
    ensures Distinct(InsertedAt(c, p, e))
  {
  }

  lemma ElementsInserted(c: seq<Entry>, p: nat, e: Entry)
    requires p < |c|
    ensures Elements(InsertedAt(c, p, e)) == Elements(c) + {e}
  {
    var d := InsertedAt(c, p, e);
    assert d[p + 1] == e;
    forall i | 0 <= i < |c| ensures c[i] in d {
      assert d[if i <= p then i else i + 1] == c[i];
    }
  }

  lemma InsertLinked(c: seq<Entry>, p: nat, e: Entry, m: Links)
    requires Linked(c, m) && p < |c| && e !in m
    ensures c[0] in m && c[p] in m && (m[c[p]].next != null ==> m[c[p]].next in m)
    ensures Linked(InsertedAt(c, p, e), InsertedLinks(c[0], c[p], e, m))
  {
    forall i | 0 <= i < |c| ensures c[i] != e {
      assert CellAt(c, m, i);
    }
    DistinctInserted(c, p, e);
    InsertedCell(c, p, e, m, 0);
    forall i | 0 <= i <= |c| ensures CellAt(InsertedAt(c, p, e), InsertedLinks(c[0], c[p], e, m), i) {
      InsertedCell(c, p, e, m, i);
    }
  }

  /** The links after `e` was taken out. */
  function RemovedLinks(head: Entry, e: Entry, m: Links): Links
    requires head in m && e in m && m[e].prev in m && (m[e].next != null ==> m[e].next in m)
  {
    var back := if m[e].next != null then m[e].next else head;
    var m1 := m[back := Cell(m[back].next, m[e].prev)];
    m1[m[e].prev := Cell(m[e].next, m1[m[e].prev].prev)] - {e}
  }

  function RemovedAt(c: seq<Entry>, k: nat): (d: seq<Entry>)
    requires k < |c|
    ensures |d| == |c| - 1 && forall i :: 0 <= i < |d| ==> d[i] == if i < k then c[i] else c[i + 1]
  {
    c[..k] + c[k + 1..]
  }

  /** One cell after the removal. */
  lemma RemovedCell(c: seq<Entry>, k: nat, m: Links, i: nat)
    requires Linked(c, m) && 0 < k < |c| && i < |c| - 1
    ensures c[0] in m && c[k] in m && m[c[k]].prev in m && (m[c[k]].next != null ==> m[c[k]].next in m)
    ensures CellAt(RemovedAt(c, k), RemovedLinks(c[0], c[k], m), i)
  {
    assert CellAt(c, m, 0) && CellAt(c, m, k) && CellAt(c, m, k - 1);
    assert k + 1 < |c| ==> CellAt(c, m, k + 1);
    assert CellAt(c, m, if i < k then i else i + 1);
  }

  lemma DistinctRemoved(c: seq<Entry>, k: nat)
    requires Distinct(c) && k < |c|
    ensures Distinct(RemovedAt(c, k))
  {
  }

  lemma ElementsRemoved(c: seq<Entry>, k: nat)
    requires Distinct(c) && k < |c|
    ensures Elements(RemovedAt(c, k)) == Elements(c) - {c[k]}
  {
    var d := RemovedAt(c, k);
    forall i | 0 <= i < |c| && i != k ensures c[i] in d {
      assert d[if i < k then i else i - 1] == c[i];
    }
  }

  lemma RemoveLinked(c: seq<Entry>, k: nat, m: Links)
    requires Linked(c, m) && 0 < k < |c|
    ensures c[0] in m && c[k] in m && m[c[k]].prev in m && (m[c[k]].next != null ==> m[c[k]].next in m)
    ensures Linked(RemovedAt(c, k), RemovedLinks(c[0], c[k], m))
  {
    assert CellAt(c, m, 0) && CellAt(c, m, k) && CellAt(c, m, k - 1);
    assert k + 1 < |c| ==> CellAt(c, m, k + 1);
    DistinctRemoved(c, k);
    forall i | 0 <= i < |c| - 1 ensures CellAt(RemovedAt(c, k), RemovedLinks(c[0], c[k], m), i) {
      RemovedCell(c, k, m, i);
    }
  }

  /** All this up to the first `n` of the chain. */
  ghost predicate LinkedTo(c: seq<Entry>, m: Links, n: nat)
    requires n <= |c|
  {
    if n == 0 then Owns(c, m) else CellAt(c, m, n - 1) && c[n - 1] !in c[..n - 1] && LinkedTo(c, m, n - 1)
  }

  lemma {:induction false} LinkedToMeans(c: seq<Entry>, m: Links, n: nat)
    requires n <= |c|
    ensures LinkedTo(c, m, n) <==> Owns(c, m) && Distinct(c[..n]) && forall i :: 0 <= i < n ==> CellAt(c, m, i)
  {
    if n > 0 {
      LinkedToMeans(c, m, n - 1);
      assert c[..n] == c[..n - 1] + [c[n - 1]];
    }
  }

  /** A head and its elements. */
  ghost predicate Fine(head: Entry, items: seq<Entry>, m: Links) {
    LinkedTo([head] + items, m, |items| + 1)
  }

  lemma FineMeans(head: Entry, items: seq<Entry>, m: Links)
    ensures Fine(head, items, m) <==> Linked([head] + items, m) && Owns([head] + items, m)
  {
    var c := [head] + items;
    assert c[..|c|] == c;
    LinkedToMeans(c, m, |c|);
  }

  /** Where an insertion puts the element, and where a removal takes it from. */
  function Put(items: seq<Entry>, p: nat, e: Entry): seq<Entry>
    requires p <= |items|
  {
    items[..p] + [e] + items[p..]
  }

  function Taken(items: seq<Entry>, k: nat): seq<Entry>
    requires k < |items|
  {
    items[..k] + items[k + 1..]
  }

  lemma PutAtTheEnds(items: seq<Entry>, e: Entry)
    ensures Put(items, 0, e) == [e] + items && Put(items, |items|, e) == items + [e]
  {
  }

  lemma PutBehindHead(head: Entry, items: seq<Entry>, p: nat, e: Entry)
    requires p <= |items|
    ensures InsertedAt([head] + items, p, e) == [head] + Put(items, p, e)
  {
  }

  lemma TakenBehindHead(head: Entry, items: seq<Entry>, k: nat)
    requires k < |items|
    ensures RemovedAt([head] + items, k + 1) == [head] + Taken(items, k)
  {
  }

  /** What a fine queue says about the pointers an insertion behind `at` follows. */
  lemma Around(head: Entry, items: seq<Entry>, p: nat, at: Entry, m: Links)
    requires Fine(head, items, m) && p <= |items| && at == if p == 0 then head else items[p - 1]
    ensures head in m && at in m && (m[at].next != null ==> m[at].next in m)
    ensures p == |items| ==> m[head].prev == at && m[at].next == null
    ensures p < |items| ==> items[p] in m && m[items[p]].prev == at && m[at].next == items[p]
  {
    var c := [head] + items;
    FineMeans(head, items, m);
    assert CellAt(c, m, 0) && CellAt(c, m, p);
    assert p + 1 < |c| ==> CellAt(c, m, p + 1);
  }

  /** The queue is fine after the insertion. */
  lemma Inserting(head: Entry, items: seq<Entry>, p: nat, at: Entry, e: Entry, m: Links)
    requires Fine(head, items, m) && p <= |items| && at == (if p == 0 then head else items[p - 1]) && e !in m
    ensures head in m && at in m && (m[at].next != null ==> m[at].next in m)
    ensures InsertedLinks(head, at, e, m).Keys == m.Keys + {e}
    ensures Fine(head, Put(items, p, e), InsertedLinks(head, at, e, m))
  {
    var c := [head] + items;
    FineMeans(head, items, m);
    InsertLinked(c, p, e, m);
    assert c[0] == head && c[p] == at;
    KeysInserted(head, at, e, m);
    ElementsInserted(c, p, e);
    PutBehindHead(head, items, p, e);
    FineMeans(head, Put(items, p, e), InsertedLinks(head, at, e, m));
  }

  lemma KeysInserted(head: Entry, at: Entry, e: Entry, m: Links)
    requires head in m && at in m && (m[at].next != null ==> m[at].next in m)
    ensures InsertedLinks(head, at, e, m).Keys == m.Keys + {e}
  {
  }

  /** The same for the removal of the element at `k`. */
  lemma Removing(head: Entry, items: seq<Entry>, k: nat, m: Links)
    requires Fine(head, items, m) && k < |items|
    ensures var e := items[k];
            && head in m && e in m && m[e].prev in m && (m[e].next != null ==> m[e].next in m)
            && m[e].prev != e && m[e].next != e && head != e
            && RemovedLinks(head, e, m).Keys == m.Keys - {e}
            && Fine(head, Taken(items, k), RemovedLinks(head, e, m))
  {
    var c := [head] + items;
    FineMeans(head, items, m);
    RemoveLinked(c, k + 1, m);
    assert c[0] == head && c[k + 1] == items[k];
    ElementsRemoved(c, k + 1);
    TakenBehindHead(head, items, k);
    assert CellAt(c, m, k + 1);
    FineMeans(head, Taken(items, k), RemovedLinks(head, items[k], m));
  }

  /** The links that are left when the matches are out. */
  lemma LinksLeft(head: Entry, all: seq<Entry>, w: Wanted, m: Links)
    requires Fine(head, Without(all, w), m)
    ensures m.Keys == {head} + set e | e in all && !Matches(e, w)
  {
    WithoutKeeps(all, w);
    FineMeans(head, Without(all, w), m);
    assert Elements([head] + Without(all, w)) == {head} + Elements(Without(all, w));
  }

  // ---------------------------------------------------------------- the queue

  class Queue {
    const head: Entry
    ghost var items: seq<Entry>
    ghost var m: Links           // the links of the head and of the elements

    ghost function Chain(): seq<Entry>
      reads `items
    {
      [head] + items
    }

    ghost predicate Valid()
      reads this, m.Keys
    {
      Agree(m) && Fine(head, items, m)
    }

    /** TAILQ_INIT. */
    constructor ()
      ensures Valid() && items == []
    {
      head := new Entry(Frame(0, 0, []), 0);
      items := [];
      m := map[head := Cell(null, head)];
    }

    /** TAILQ_FIRST. */
    method First() returns (r: Entry?)
      requires Valid()
      ensures r == if items == [] then null else items[0]
    {
      FineMeans(head, items, m);
      assert CellAt(Chain(), m, 0);
      r := head.next;
    }

    /** TAILQ_LAST: the entry of the last element, read as a head, has its last pointer one entry before. */
    method Last() returns (r: Entry?)
      requires Valid()
      ensures r == if items == [] then null else items[|items| - 1]
    {
      ghost var c, n := Chain(), |items|;
      FineMeans(head, items, m);
      assert CellAt(c, m, 0) && CellAt(c, m, n);
      assert n > 0 ==> CellAt(c, m, n - 1);
      r := head.prev.prev.next;
    }

    /** TAILQ_PREV. */
    method Prev(elm: Entry, ghost k: nat) returns (r: Entry?)
      requires Valid() && k < |items| && items[k] == elm
      ensures r == if k == 0 then null else items[k - 1]
    {
      ghost var c := Chain();
      FineMeans(head, items, m);
      assert CellAt(c, m, k + 1) && CellAt(c, m, k);
      assert if k > 0 then CellAt(c, m, k - 1) else CellAt(c, m, |items|);
      r := elm.prev.prev.next;
    }

    /** TAILQ_NEXT. */
    method Next(elm: Entry, ghost k: nat) returns (r: Entry?)
      requires Valid() && k < |items| && items[k] == elm
      ensures r == (if k + 1 < |items| then items[k + 1] else null) && elm in m
    {
      FineMeans(head, items, m);
      assert CellAt(Chain(), m, k + 1);
      r := elm.next;
    }

    /** TAILQ_INSERT_HEAD: to the links the head is an element like any other. */
    method InsertHead(elm: Entry)
      requires Valid() && elm !in m
      modifies this, m.Keys, elm
      ensures Valid() && items == [elm] + old(items) && m.Keys == old(m.Keys) + {elm}
    {
      Around(head, items, 0, head, m);
      Inserting(head, items, 0, head, elm, m);
      LinkAfter(head, elm);
      PutAtTheEnds(items, elm);
      items := [elm] + items;
    }

    /** TAILQ_INSERT_TAIL. */
    method InsertTail(elm: Entry)
      requires Valid() && elm !in m
      modifies this, m.Keys, elm
      ensures Valid() && items == old(items) + [elm] && m.Keys == old(m.Keys) + {elm}
    {
      ghost var last := if items == [] then head else items[|items| - 1];
      Around(head, items, |items|, last, m);
      Inserting(head, items, |items|, last, elm, m);
      LinkLast(elm);
      PutAtTheEnds(items, elm);
      items := items + [elm];
    }

    /** TAILQ_INSERT_AFTER. */
    method InsertAfter(listelm: Entry, elm: Entry, ghost k: nat)
      requires Valid() && k < |items| && items[k] == listelm && elm !in m
      modifies this, m.Keys, elm
      ensures Valid() && items == Put(old(items), k + 1, elm) && m.Keys == old(m.Keys) + {elm}
    {
      Inserting(head, items, k + 1, listelm, elm, m);
      LinkAfter(listelm, elm);
      items := Put(items, k + 1, elm);
    }

    /** TAILQ_INSERT_BEFORE, which does not know the head. */
    method InsertBefore(listelm: Entry, elm: Entry, ghost k: nat)
      requires Valid() && k < |items| && items[k] == listelm && elm !in m
      modifies this, m.Keys, elm
      ensures Valid() && items == Put(old(items), k, elm) && m.Keys == old(m.Keys) + {elm}
    {
      ghost var before := if k == 0 then head else items[k - 1];
      Around(head, items, k, before, m);
      Inserting(head, items, k, before, elm, m);
      LinkBefore(listelm, elm);
      items := Put(items, k, elm);
    }

    /** TAILQ_REMOVE.  The element belongs to no queue afterwards and can be inserted again. */
    method Remove(elm: Entry, ghost k: nat)
      requires Valid() && k < |items| && items[k] == elm
      modifies this, m.Keys
      ensures Valid() && items == Taken(old(items), k) && m.Keys == old(m.Keys) - {elm}
    {
      Removing(head, items, k, m);
      Unlink(elm);
      items := Taken(items, k);
    }

    /** The links of TAILQ_INSERT_AFTER. */
    method LinkAfter(listelm: Entry, elm: Entry)
      requires Agree(m) && head in m && listelm in m && elm !in m && (listelm.next != null ==> listelm.next in m)
      modifies `m, m.Keys, elm
      ensures m == old(InsertedLinks(head, listelm, elm, m)) && Agree(m)
    {
      ghost var m1 := InsertedLinks(head, listelm, elm, m);
      var next := listelm.next;
      elm.next := next;
      if next != null {
        next.prev := elm;
      } else {
        head.prev := elm;
      }
      listelm.next := elm;
      elm.prev := listelm;
      forall e | e in m1 ensures m1[e] == Cell(e.next, e.prev) {
        if e != elm && e != head && e != next && e != listelm {
          assert m1[e] == m[e];
        }
      }
      m := m1;
    }

    /** The links of TAILQ_INSERT_TAIL. */
    method LinkLast(elm: Entry)
      requires Agree(m) && head in m && head.prev in m && head.prev.next == null && elm !in m
      modifies `m, m.Keys, elm
      ensures m == old(InsertedLinks(head, head.prev, elm, m)) && Agree(m)
    {
      var last := head.prev;
      ghost var m1 := InsertedLinks(head, last, elm, m);
      elm.next := null;
      elm.prev := last;
      last.next := elm;
      head.prev := elm;
      forall e | e in m1 ensures m1[e] == Cell(e.next, e.prev) {
        if e != elm && e != head && e != last {
          assert m1[e] == m[e];
        }
      }
      m := m1;
    }

    /** The links of TAILQ_INSERT_BEFORE. */
    method LinkBefore(listelm: Entry, elm: Entry)
      requires Agree(m) && head in m && listelm in m && elm !in m && listelm.prev in m && listelm.prev.next == listelm
      modifies `m, m.Keys, elm
      ensures m == old(InsertedLinks(head, listelm.prev, elm, m)) && Agree(m)
    {
      var prev := listelm.prev;
      ghost var m1 := InsertedLinks(head, prev, elm, m);
      elm.prev := prev;
      elm.next := listelm;
      prev.next := elm;
      listelm.prev := elm;
      forall e | e in m1 ensures m1[e] == Cell(e.next, e.prev) {
        if e != elm && e != prev && e != listelm {
          assert m1[e] == m[e];
        }
      }
      m := m1;
    }

    /** The links of TAILQ_REMOVE. */
    method Unlink(elm: Entry)
      requires Agree(m) && head in m && elm in m && elm.prev in m && (elm.next != null ==> elm.next in m)
      requires elm.prev != elm && elm.next != elm && elm != head
      modifies `m, m.Keys
      ensures m == old(RemovedLinks(head, elm, m)) && Agree(m)
    {
      ghost var m1 := RemovedLinks(head, elm, m);
      var next, prev := elm.next, elm.prev;
      if next != null {
        next.prev := prev;
      } else {
        head.prev := prev;
      }
      prev.next := next;
      forall e | e in m1 ensures m1[e] == Cell(e.next, e.prev) {
        if e != head && e != next && e != prev {
          assert m1[e] == m[e];
        }
      }
      m := m1;
    }

    /** The body of a loop: the next element is read first, a match is taken out. */
    method Visit(elm: Entry, ghost all: seq<Entry>, ghost i: nat, w: Wanted) returns (hit: bool, tmp: Entry?)
      requires Valid() && i < |all| && all[i] == elm && items == PassedAndRest(all, i, w)
      modifies this, m.Keys
      ensures Valid() && hit == Matches(elm, w) && elm in old(m) && m.Keys == old(m.Keys) - (if hit then {elm} else {})
      ensures tmp == (if i + 1 < |all| then all[i + 1] else null) && items == PassedAndRest(all, i + 1, w)
    {
      PassOne(all, i, w);
      ghost var k := |Without(all[..i], w)|;
      tmp := Next(elm, k);
      hit := Matches(elm, w);
      if hit {
        Remove(elm, k);
      }
    }

    /** stream_mqtt_remove_frame: a TAILQ_FOREACH_SAFE loop that takes out every match. */
    method RemoveMatching(w: Wanted) returns (found: bool)
      requires Valid()
      modifies this, m.Keys
      ensures Valid() && items == Without(old(items), w)
      ensures m.Keys == {head} + set e | e in old(items) && !Matches(e, w)
      ensures m.Keys <= old(m.Keys)
      ensures found <==> exists i :: 0 <= i < |old(items)| && Matches(old(items)[i], w)
    {
      found := false;
      ghost var all, i := items, 0;
      var elm := First();
      PassedAll(all, w);
      while elm != null
        invariant Valid() && m.Keys <= old(m.Keys) && i <= |all|
        invariant items == PassedAndRest(all, i, w) && elm == if i < |all| then all[i] else null
        invariant found <==> Has(all, i, w)
        decreases |all| - i
      {
        var hit, tmp := Visit(elm, all, i, w);
        found := found || hit;
        i := i + 1;
        elm := tmp;
      }
      HasMeans(all, |all|, w);
      PassedAll(all, w);
      LinksLeft(head, all, w, m);
    }
  }
}
