/** Comparing a JSON value with a pattern. */
module Json {
  import opened CStrings

  /** A double as far as comparison goes; both zeros are the finite number 0. */
  datatype Float = NaN | Finite(value: real) | Infinite(positive: bool)

  datatype Json =
    | Null
    | Bool(flag: bool)
    | Int(number: int)
    | Double(float: Float)
    | Str(text: string)
    | Arr(items: seq<Json>)
    | Obj(fields: seq<Field>)

  datatype Field = Field(key: string, value: Json)

  /** The bits 0 and 1 of the flags. */
  datatype Flags = Flags(strictObjects: bool, strictArrays: bool)

  const STRICT := Flags(true, true)

  /** json_object_get_int: a 64-bit number cut off at the bounds of 32 bits. */
  function Clamp(n: int): int {
    if n > 0x7fff_ffff then 0x7fff_ffff else if n < -0x8000_0000 then -0x8000_0000 else n
  }

  predicate SameText(a: string, b: string) {
    |a| == |b| && UpToNul(a) == UpToNul(b)
  }

  predicate SameFloat(a: Float, b: Float) {
    !a.NaN? && a == b
  }

  /** The position of a key, or the number of fields. */
  function Find(fields: seq<Field>, key: string): (i: nat)
    ensures i <= |fields| && (i < |fields| ==> fields[i].key == key)
    ensures forall j :: 0 <= j < i ==> fields[j].key != key
  {
    if fields == [] then 0 else if fields[0].key == key then 0 else 1 + Find(fields[1..], key)
  }

  predicate Has(fields: seq<Field>, key: string) {
    Find(fields, key) < |fields|
  }

  function Lookup(fields: seq<Field>, key: string): Json
    requires Has(fields, key)
  {
    fields[Find(fields, key)].value
  }

  /** `o` contains everything `p` asks for. */
  predicate Matches(o: Json, p: Json, f: Flags)
    decreases p, 0
  {
    match p
    case Null => o.Null?
    case Bool(b) => o.Bool? && o.flag == b
    case Int(n) => o.Int? && Clamp(o.number) == Clamp(n)
    case Double(d) => o.Double? && SameFloat(o.float, d)
    case Str(s) => o.Str? && SameText(s, o.text)
    case Arr(ps) =>
      && o.Arr?
      && (f.strictArrays ==> |o.items| == |ps| && forall i :: 0 <= i < |ps| ==> Matches(o.items[i], ps[i], f))
      && (!f.strictArrays ==> forall i :: 0 <= i < |ps| ==> Among(o.items, ps[i], f))
    case Obj(ps) =>
      && o.Obj?
      && (f.strictObjects ==> |o.fields| == |ps|)
      && (forall i :: 0 <= i < |ps| ==> Has(o.fields, ps[i].key) && Matches(Lookup(o.fields, ps[i].key), ps[i].value, f))
      && (f.strictObjects ==> forall i :: 0 <= i < |o.fields| ==> Has(ps, o.fields[i].key))
  }

  /** One of the items matches. */
  predicate Among(items: seq<Json>, p: Json, f: Flags)
    decreases p, 1
  {
    exists j :: 0 <= j < |items| && Matches(items[j], p, f)
  }

  /** No key occurs twice in an object: json-c keeps fields in a hash table. */
  predicate WellFormed(j: Json) {
    match j
    case Arr(items) => forall i :: 0 <= i < |items| ==> WellFormed(items[i])
    case Obj(fields) =>
      && (forall i :: 0 <= i < |fields| ==> WellFormed(fields[i].value))
      && forall i, k :: 0 <= i < k < |fields| ==> fields[i].key != fields[k].key
    case _ => true
  }

  predicate NoNaN(j: Json) {
    match j
    case Double(d) => !d.NaN?
    case Arr(items) => forall i :: 0 <= i < |items| ==> NoNaN(items[i])
    case Obj(fields) => forall i :: 0 <= i < |fields| ==> NoNaN(fields[i].value)
    case _ => true
  }

  // ---------------------------------------------------------------- laws

  lemma FindUnique(fields: seq<Field>, i: nat)
    requires i < |fields| && forall j, k :: 0 <= j < k < |fields| ==> fields[j].key != fields[k].key
    ensures Find(fields, fields[i].key) == i
  {
  }

  /** A pattern that is matched by anything at all contains no NaN. */
  lemma {:induction false} MatchedHasNoNaN(o: Json, p: Json, f: Flags)
    requires Matches(o, p, f)
    ensures NoNaN(p)
    decreases p
  {
    match p
    case Arr(ps) =>
      forall i | 0 <= i < |ps| ensures NoNaN(ps[i]) {
        assert f.strictArrays ==> Matches(o.items[i], ps[i], f);
        assert Among(o.items, ps[i], f);
        var j :| 0 <= j < |o.items| && Matches(o.items[j], ps[i], f);
        MatchedHasNoNaN(o.items[j], ps[i], f);
      }
    case Obj(ps) =>
      forall i | 0 <= i < |ps| ensures NoNaN(ps[i].value) {
        MatchedHasNoNaN(Lookup(o.fields, ps[i].key), ps[i].value, f);
      }
    case _ =>
  }

  lemma {:induction false} NoNaNMatchesItself(j: Json, f: Flags)
    requires WellFormed(j) && NoNaN(j)
    ensures Matches(j, j, f)
    decreases j
  {
    match j
    case Arr(items) =>
      forall i | 0 <= i < |items|
        ensures Matches(items[i], items[i], f)
        ensures Among(items, items[i], f)
      {
        NoNaNMatchesItself(items[i], f);
      }
    case Obj(fields) =>
      forall i | 0 <= i < |fields| ensures Find(fields, fields[i].key) == i && Matches(fields[i].value, fields[i].value, f) {
        FindUnique(fields, i);
        NoNaNMatchesItself(fields[i].value, f);
      }
    case _ =>
  }

  /** With any flags, a value matches itself iff there is no NaN in it. */
  lemma Reflexive(j: Json, f: Flags)
    requires WellFormed(j)
    ensures Matches(j, j, f) <==> NoNaN(j)
  {
    if Matches(j, j, f) {
      MatchedHasNoNaN(j, j, f);
    }
    if NoNaN(j) {
      NoNaNMatchesItself(j, f);
    }
  }

  /** Matching is transitive with any flags. */
  lemma {:induction false} Transitive(a: Json, b: Json, c: Json, f: Flags)
    requires Matches(a, b, f) && Matches(b, c, f)
    ensures Matches(a, c, f)
    decreases c
  {
    match c
    case Arr(cs) =>
      if f.strictArrays {
        forall i | 0 <= i < |cs| ensures Matches(a.items[i], cs[i], f) {
          Transitive(a.items[i], b.items[i], cs[i], f);
        }
      } else {
        forall i | 0 <= i < |cs| ensures Among(a.items, cs[i], f) {
          assert Among(b.items, cs[i], f);
          var k :| 0 <= k < |b.items| && Matches(b.items[k], cs[i], f);
          assert Among(a.items, b.items[k], f);
          var j :| 0 <= j < |a.items| && Matches(a.items[j], b.items[k], f);
          Transitive(a.items[j], b.items[k], cs[i], f);
        }
      }
    case Obj(cs) =>
      forall i | 0 <= i < |cs|
        ensures Has(a.fields, cs[i].key) && Matches(Lookup(a.fields, cs[i].key), cs[i].value, f) {
        var k := Find(b.fields, cs[i].key);
        assert b.fields[k].key == cs[i].key;
        Transitive(Lookup(a.fields, cs[i].key), b.fields[k].value, cs[i].value, f);
      }
      forall i | f.strictObjects && 0 <= i < |a.fields| ensures Has(cs, a.fields[i].key) {
        var k := Find(b.fields, a.fields[i].key);
        assert b.fields[k].key == a.fields[i].key;
      }
    case _ =>
  }

  predicate Weaker(g: Flags, f: Flags) {
    (g.strictObjects ==> f.strictObjects) && (g.strictArrays ==> f.strictArrays)
  }

  /** What matches under some flags matches under weaker ones. */
  lemma {:induction false} Weakened(o: Json, p: Json, f: Flags, g: Flags)
    requires Weaker(g, f) && Matches(o, p, f)
    ensures Matches(o, p, g)
    decreases p
  {
    match p
    case Arr(ps) =>
      if f.strictArrays {
        forall i | 0 <= i < |ps|
          ensures Matches(o.items[i], ps[i], g)
          ensures Among(o.items, ps[i], g)
        {
          Weakened(o.items[i], ps[i], f, g);
        }
      } else {
        forall i | 0 <= i < |ps| ensures Among(o.items, ps[i], g) {
          assert Among(o.items, ps[i], f);
          var j :| 0 <= j < |o.items| && Matches(o.items[j], ps[i], f);
          Weakened(o.items[j], ps[i], f, g);
        }
      }
    case Obj(ps) =>
      forall i | 0 <= i < |ps| ensures Matches(Lookup(o.fields, ps[i].key), ps[i].value, g) {
        Weakened(Lookup(o.fields, ps[i].key), ps[i].value, f, g);
      }
    case _ =>
  }

  /** Fully strict matching is symmetric. */
  lemma {:induction false} StrictSymmetric(o: Json, p: Json)
    requires WellFormed(o) && Matches(o, p, STRICT)
    ensures Matches(p, o, STRICT)
    decreases p
  {
    match p
    case Arr(ps) =>
      forall i | 0 <= i < |ps| ensures Matches(ps[i], o.items[i], STRICT) {
        StrictSymmetric(o.items[i], ps[i]);
      }
    case Obj(ps) =>
      forall i | 0 <= i < |o.fields|
        ensures Has(ps, o.fields[i].key) && Matches(Lookup(ps, o.fields[i].key), o.fields[i].value, STRICT) {
        var k := Find(ps, o.fields[i].key);
        assert ps[k].key == o.fields[i].key;
        FindUnique(o.fields, i);
        StrictSymmetric(o.fields[i].value, ps[k].value);
      }
    case _ =>
  }

  // ---------------------------------------------------------------- what a match means

  /** Texts of the same length that agree up to and including the first NUL. */
  predicate AgreeToNul(a: string, b: string) {
    |a| == |b| && forall i :: 0 <= i < |a| && '\0' !in a[..i] ==> a[i] == b[i]
  }

  /** A text without NUL does not reach beyond one. */
  lemma NulIn(a: string, k: nat, n: nat)
    ensures k < n <= |a| ==> a[k] in a[..n]
  {
    if k < n <= |a| {
      assert a[..n][k] == a[k];
    }
  }

  lemma SameTextMeans(a: string, b: string)
    ensures SameText(a, b) <==> AgreeToNul(a, b)
  {
    UpToNulIs(a);
    UpToNulIs(b);
    var n, k := |UpToNul(a)|, |UpToNul(b)|;
    if SameText(a, b) {
      forall i | 0 <= i < |a| && '\0' !in a[..i] ensures a[i] == b[i] {
        NulIn(a, n, i);
        if i < n {
          assert a[..n][i] == b[..n][i];
        }
      }
    }
    if AgreeToNul(a, b) {
      NulsAgree(a, b, n, k);
      if |a| == |b| {
        NulsAgree(b, a, k, n);
      }
    }
  }

  /** The second text goes on without NUL at least as far as the first. */
  lemma NulsAgree(a: string, b: string, n: nat, k: nat)
    requires n <= |a| == |b| && '\0' !in a[..n] && k <= |b| && (k < |b| ==> b[k] == '\0')
    requires AgreeToNul(a, b) || (AgreeToNul(b, a) && '\0' !in b[..k])
    ensures n <= k
    ensures k <= n ==> a[..n] == b[..k]
  {
    forall i | 0 <= i < n && (AgreeToNul(a, b) || i <= k) ensures a[i] == b[i] {
      if AgreeToNul(a, b) {
        assert '\0' !in a[..i] by { assert forall c :: c in a[..i] ==> c in a[..n]; }
      } else {
        assert '\0' !in b[..i] by { assert forall c :: c in b[..i] ==> c in b[..k]; }
      }
    }
    NulIn(a, k, n);
  }

  /** Numbers that are equal, or both beyond the same bound of 32 bits. */
  predicate SameNumber(a: int, b: int) {
    a == b || (a >= 0x7fff_ffff && b >= 0x7fff_ffff) || (a <= -0x8000_0000 && b <= -0x8000_0000)
  }

  /** Values without parts that match. */
  predicate LeafMatches(o: Json, p: Json) {
    match p
    case Null => o == Null
    case Bool(b) => o == Bool(b)
    case Int(n) => o.Int? && SameNumber(o.number, n)
    case Double(d) => o == Double(d) && d != NaN
    case Str(s) => o.Str? && AgreeToNul(s, o.text)
    case _ => false
  }

  /** A choice of one part of a value for each part of a pattern. */
  datatype Way = Leaf | Parts(picks: seq<nat>, ways: seq<Way>)

  /** The parts chosen match: with strict arrays the items one by one, with strict objects all fields. */
  predicate Selects(w: Way, o: Json, p: Json, f: Flags)
    decreases p
  {
    match p
    case Arr(ps) =>
      && o.Arr? && w.Parts? && |w.picks| == |w.ways| == |ps|
      && (forall i :: 0 <= i < |ps| ==> w.picks[i] < |o.items| && Selects(w.ways[i], o.items[w.picks[i]], ps[i], f))
      && (f.strictArrays ==> |o.items| == |ps| && forall i :: 0 <= i < |ps| ==> w.picks[i] == i)
    case Obj(ps) =>
      && o.Obj? && w.Parts? && |w.picks| == |w.ways| == |ps|
      && (forall i :: 0 <= i < |ps| ==>
            && w.picks[i] < |o.fields| && o.fields[w.picks[i]].key == ps[i].key
            && Selects(w.ways[i], o.fields[w.picks[i]].value, ps[i].value, f))
      && (f.strictObjects ==> |o.fields| == |ps| && forall k :: 0 <= k < |o.fields| ==> k in w.picks)
    case _ => w.Leaf? && LeafMatches(o, p)
  }

  lemma LeavesMatch(o: Json, p: Json, f: Flags)
    requires !p.Arr? && !p.Obj?
    ensures Matches(o, p, f) <==> LeafMatches(o, p)
  {
    if p.Str? && o.Str? {
      SameTextMeans(p.text, o.text);
    }
  }

  /** A selection makes a match. */
  lemma {:induction false} SelectionMatches(w: Way, o: Json, p: Json, f: Flags)
    requires WellFormed(o) && Selects(w, o, p, f)
    ensures Matches(o, p, f)
    decreases p
  {
    match p
    case Arr(ps) =>
      forall i | 0 <= i < |ps|
        ensures Matches(o.items[w.picks[i]], ps[i], f)
        ensures Among(o.items, ps[i], f)
      {
        SelectionMatches(w.ways[i], o.items[w.picks[i]], ps[i], f);
      }
    case Obj(ps) =>
      forall i | 0 <= i < |ps|
        ensures Has(o.fields, ps[i].key) && Matches(Lookup(o.fields, ps[i].key), ps[i].value, f)
      {
        FindUnique(o.fields, w.picks[i]);
        SelectionMatches(w.ways[i], o.fields[w.picks[i]].value, ps[i].value, f);
      }
      forall k | f.strictObjects && 0 <= k < |o.fields| ensures Has(ps, o.fields[k].key) {
        assert k in w.picks;
        var i :| 0 <= i < |w.picks| && w.picks[i] == k;
        assert ps[i].key == o.fields[k].key;
      }
    case _ => LeavesMatch(o, p, f);
  }

  /** The first of the items that matches. */
  function FirstMatch(items: seq<Json>, p: Json, f: Flags): (j: nat)
    requires Among(items, p, f)
    ensures j < |items| && Matches(items[j], p, f)
  {
    if Matches(items[0], p, f) then 0
    else
      assert Among(items[1..], p, f) by {
        var j :| 0 <= j < |items| && Matches(items[j], p, f);
        assert items[1..][j - 1] == items[j];
      }
      1 + FirstMatch(items[1..], p, f)
  }

  /** The selection a match is. */
  ghost function WayOf(o: Json, p: Json, f: Flags): Way
    requires Matches(o, p, f)
    decreases p
  {
    match p
    case Arr(ps) =>
      Parts(seq(|ps|, i requires 0 <= i < |ps| => ItemFor(o.items, ps, i, f)),
            seq(|ps|, i requires 0 <= i < |ps| => WayOf(o.items[ItemFor(o.items, ps, i, f)], ps[i], f)))
    case Obj(ps) =>
      Parts(seq(|ps|, i requires 0 <= i < |ps| => Find(o.fields, ps[i].key)),
            seq(|ps|, i requires 0 <= i < |ps| => WayOf(Lookup(o.fields, ps[i].key), ps[i].value, f)))
    case _ => Leaf
  }

  function ItemFor(items: seq<Json>, ps: seq<Json>, i: nat, f: Flags): (j: nat)
    requires i < |ps|
    requires if f.strictArrays then |items| == |ps| && Matches(items[i], ps[i], f) else Among(items, ps[i], f)
    ensures j < |items| && Matches(items[j], ps[i], f) && (f.strictArrays ==> j == i)
  {
    if f.strictArrays then i else FirstMatch(items, ps[i], f)
  }

  lemma {:induction false} MatchSelects(o: Json, p: Json, f: Flags)
    requires WellFormed(o) && Matches(o, p, f)
    ensures Selects(WayOf(o, p, f), o, p, f)
    decreases p
  {
    match p
    case Arr(ps) =>
      forall i | 0 <= i < |ps| ensures Selects(WayOf(o, p, f).ways[i], o.items[WayOf(o, p, f).picks[i]], ps[i], f) {
        MatchSelects(o.items[ItemFor(o.items, ps, i, f)], ps[i], f);
      }
    case Obj(ps) =>
      var w := WayOf(o, p, f);
      forall i | 0 <= i < |ps| ensures Selects(w.ways[i], o.fields[w.picks[i]].value, ps[i].value, f) {
        MatchSelects(Lookup(o.fields, ps[i].key), ps[i].value, f);
      }
      forall k | f.strictObjects && 0 <= k < |o.fields| ensures k in w.picks {
        var i := Find(ps, o.fields[k].key);
        FindUnique(o.fields, k);
        assert w.picks[i] == k;
      }
    case _ => LeavesMatch(o, p, f);
  }

  /** With any flags, a match is a way to select parts of the value that match the parts of the pattern. */
  lemma MatchIsSelection(o: Json, p: Json, f: Flags)
    requires WellFormed(o)
    ensures Matches(o, p, f) <==> exists w :: Selects(w, o, p, f)
  {
    if Matches(o, p, f) {
      MatchSelects(o, p, f);
      var w := WayOf(o, p, f);
      assert Selects(w, o, p, f);
    }
    if exists w :: Selects(w, o, p, f) {
      var w :| Selects(w, o, p, f);
      SelectionMatches(w, o, p, f);
    }
  }

  // ---------------------------------------------------------------- strict matching is equality

  /** Equal up to the order of fields. */
  predicate Same(a: Json, b: Json)
    decreases a
  {
    match a
    case Arr(items) =>
      b.Arr? && |items| == |b.items| && forall i :: 0 <= i < |items| ==> Same(items[i], b.items[i])
    case Obj(fields) =>
      && b.Obj?
      && (forall i :: 0 <= i < |fields| ==> SameIn(fields[i], b.fields))
      && forall j :: 0 <= j < |b.fields| ==> KeyIn(b.fields[j].key, fields)
    case _ => a == b
  }

  predicate KeyIn(key: string, fields: seq<Field>) {
    exists i :: 0 <= i < |fields| && fields[i].key == key
  }

  predicate SameIn(field: Field, others: seq<Field>)
    decreases field
  {
    exists j :: 0 <= j < |others| && others[j].key == field.key && Same(field.value, others[j].value)
  }

  /** No NUL in strings, no NaN, numbers of 32 bits, and no key twice. */
  predicate Plain(j: Json) {
    match j
    case Int(n) => -0x8000_0000 <= n <= 0x7fff_ffff
    case Double(d) => d != NaN
    case Str(s) => '\0' !in s
    case Arr(items) => forall i :: 0 <= i < |items| ==> Plain(items[i])
    case Obj(fields) =>
      && (forall i :: 0 <= i < |fields| ==> Plain(fields[i].value))
      && forall i, k :: 0 <= i < k < |fields| ==> fields[i].key != fields[k].key
    case _ => true
  }

  lemma PlainLeaves(o: Json, p: Json)
    requires Plain(o) && Plain(p) && !p.Arr? && !p.Obj?
    ensures LeafMatches(o, p) <==> Same(o, p)
  {
    if p.Str? && o.Str? {
      assert forall i :: 0 <= i < |p.text| ==> forall c :: c in p.text[..i] ==> c in p.text;
    }
  }

  /** The keys of a sequence of fields. */
  ghost function Keys(fields: seq<Field>): set<string> {
    set i | 0 <= i < |fields| :: fields[i].key
  }

  predicate UniqueKeys(fields: seq<Field>) {
    forall i, k :: 0 <= i < k < |fields| ==> fields[i].key != fields[k].key
  }

  lemma {:induction false} CountKeys(fields: seq<Field>)
    requires UniqueKeys(fields)
    ensures |Keys(fields)| == |fields|
  {
    if fields != [] {
      var front, last := fields[..|fields| - 1], fields[|fields| - 1];
      CountKeys(front);
      assert Keys(fields) == Keys(front) + {last.key};
      assert last.key !in Keys(front);
    }
  }

  lemma SameKeysSameLength(a: seq<Field>, b: seq<Field>)
    requires UniqueKeys(a) && UniqueKeys(b)
    requires forall i :: 0 <= i < |a| ==> Has(b, a[i].key)
    requires forall j :: 0 <= j < |b| ==> Has(a, b[j].key)
    ensures |a| == |b|
  {
    CountKeys(a);
    CountKeys(b);
    assert Keys(a) == Keys(b) by {
      forall i | 0 <= i < |a| ensures a[i].key in Keys(b) {
        assert b[Find(b, a[i].key)].key == a[i].key;
      }
      forall j | 0 <= j < |b| ensures b[j].key in Keys(a) {
        assert a[Find(a, b[j].key)].key == b[j].key;
      }
    }
  }

  lemma {:induction false} StrictMatchIsSame(o: Json, p: Json)
    requires Plain(o) && Plain(p) && Matches(o, p, STRICT)
    ensures Same(o, p)
    decreases p
  {
    match p
    case Arr(ps) =>
      forall i | 0 <= i < |ps| ensures Same(o.items[i], ps[i]) {
        StrictMatchIsSame(o.items[i], ps[i]);
      }
    case Obj(ps) =>
      forall i | 0 <= i < |o.fields| ensures SameIn(o.fields[i], ps) {
        var j := Find(ps, o.fields[i].key);
        assert ps[j].key == o.fields[i].key;
        FindUnique(o.fields, i);
        StrictMatchIsSame(o.fields[i].value, ps[j].value);
      }
      forall j | 0 <= j < |ps| ensures KeyIn(ps[j].key, o.fields) {
        assert o.fields[Find(o.fields, ps[j].key)].key == ps[j].key;
      }
    case _ =>
      LeavesMatch(o, p, STRICT);
      PlainLeaves(o, p);
  }

  lemma {:induction false} SameMatchesStrictly(o: Json, p: Json)
    requires Plain(o) && Plain(p) && Same(o, p)
    ensures Matches(o, p, STRICT)
    decreases p
  {
    match p
    case Arr(ps) =>
      forall i | 0 <= i < |ps| ensures Matches(o.items[i], ps[i], STRICT) {
        SameMatchesStrictly(o.items[i], ps[i]);
      }
    case Obj(ps) =>
      forall j | 0 <= j < |ps|
        ensures Has(o.fields, ps[j].key) && Matches(Lookup(o.fields, ps[j].key), ps[j].value, STRICT)
      {
        assert KeyIn(ps[j].key, o.fields);
        var i :| 0 <= i < |o.fields| && o.fields[i].key == ps[j].key;
        FindUnique(o.fields, i);
        assert SameIn(o.fields[i], ps);
        var k :| 0 <= k < |ps| && ps[k].key == o.fields[i].key && Same(o.fields[i].value, ps[k].value);
        assert k == j;
        SameMatchesStrictly(o.fields[i].value, ps[j].value);
      }
      forall i | 0 <= i < |o.fields| ensures Has(ps, o.fields[i].key) {
        assert SameIn(o.fields[i], ps);
        var k :| 0 <= k < |ps| && ps[k].key == o.fields[i].key && Same(o.fields[i].value, ps[k].value);
        FindUnique(ps, k);
      }
      SameKeysSameLength(o.fields, ps);
    case _ =>
      PlainLeaves(o, p);
      LeavesMatch(o, p, STRICT);
  }

  /** For plain values, fully strict matching is equality up to the order of fields. */
  lemma StrictIsEquality(o: Json, p: Json)
    requires Plain(o) && Plain(p)
    ensures Matches(o, p, STRICT) <==> Same(o, p)
  {
    if Matches(o, p, STRICT) {
      StrictMatchIsSame(o, p);
    }
    if Same(o, p) {
      SameMatchesStrictly(o, p);
    }
  }

  // ---------------------------------------------------------------- the code

  method CompareString(o: string, p: string) returns (r: bool)
    ensures r == SameText(p, o)
  {
    if |p| != |o| {
      return false;
    }
    if UpToNul(p) != UpToNul(o) {
      return false;
    }
    return true;
  }

  method CompareArray(o: Json, p: Json, f: Flags) returns (r: bool)
    requires o.Arr? && p.Arr?
    ensures r == Matches(o, p, f)
    decreases p, 0
  {
    var objLength, patLength := |o.items|, |p.items|;
    if f.strictArrays {
      if objLength != patLength {
        return false;
      }
      for i := 0 to patLength
        invariant forall k :: 0 <= k < i ==> Matches(o.items[k], p.items[k], f)
      {
        var same := Compare(o.items[i], p.items[i], f);
        if !same {
          return false;
        }
      }
      return true;
    }
    for i := 0 to patLength
      invariant forall k :: 0 <= k < i ==> Among(o.items, p.items[k], f)
    {
      var found := false;
      for j := 0 to objLength
        invariant !found && forall k :: 0 <= k < j ==> !Matches(o.items[k], p.items[i], f)
      {
        var same := Compare(o.items[j], p.items[i], f);
        if same {
          found := true;
          break;
        }
      }
      if !found {
        assert !Among(o.items, p.items[i], f);
        return false;
      }
      assert Among(o.items, p.items[i], f);
    }
    return true;
  }

  method CompareObject(o: Json, p: Json, f: Flags) returns (r: bool)
    requires o.Obj? && p.Obj?
    ensures r == Matches(o, p, f)
    decreases p, 0
  {
    if f.strictObjects {
      if |o.fields| != |p.fields| {
        return false;
      }
    }
    for i := 0 to |p.fields|
      invariant forall k :: 0 <= k < i ==> Has(o.fields, p.fields[k].key)
      invariant forall k :: 0 <= k < i ==> Matches(Lookup(o.fields, p.fields[k].key), p.fields[k].value, f)
    {
      if !Has(o.fields, p.fields[i].key) {
        return false;
      }
      var same := Compare(Lookup(o.fields, p.fields[i].key), p.fields[i].value, f);
      if !same {
        return false;
      }
    }
    if f.strictObjects {
      for i := 0 to |o.fields|
        invariant forall k :: 0 <= k < i ==> Has(p.fields, o.fields[k].key)
      {
        if !Has(p.fields, o.fields[i].key) {
          return false;
        }
      }
    }
    return true;
  }

  /** json_compare. */
  method Compare(o: Json, p: Json, f: Flags) returns (r: bool)
    ensures r == Matches(o, p, f)
    decreases p, 1
  {
    match p {
      case Null => r := o.Null?;
      case Bool(b) => r := o.Bool? && o.flag == b;
      case Int(n) => r := o.Int? && Clamp(o.number) == Clamp(n);
      case Double(d) => r := o.Double? && SameFloat(o.float, d);
      case Str(s) =>
        r := false;
        if o.Str? {
          r := CompareString(o.text, s);
        }
      case Arr(_) =>
        r := false;
        if o.Arr? {
          r := CompareArray(o, p, f);
        }
      case Obj(_) =>
        r := false;
        if o.Obj? {
          r := CompareObject(o, p, f);
        }
    }
  }
}
