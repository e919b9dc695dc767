/** JavaScript strings, sequences of UTF-16 code units with lone surrogates included, and byte arrays. */
module JsText {
  type CodeUnit = u: int | 0 <= u < 0x10000
  type Text = seq<CodeUnit>

  type Byte = b: int | 0 <= b < 256
  type Bytes = seq<Byte>

  predicate High(u: CodeUnit) { 0xD800 <= u < 0xDC00 }
  predicate Low(u: CodeUnit) { 0xDC00 <= u < 0xE000 }

  /** s starts with a surrogate pair: one code point in two units. */
  predicate StartsWithPair(s: Text) {
    |s| >= 2 && High(s[0]) && Low(s[1])
  }

  /** The order of `Array.prototype.sort` on strings: by code units. */
  predicate Less(a: Text, b: Text) {
    b != [] && (a == [] || a[0] < b[0] || (a[0] == b[0] && Less(a[1..], b[1..])))
  }

  lemma {:induction false} LessIsTotal(a: Text, b: Text)
    ensures Less(a, b) || Less(b, a) || a == b
  {
    if a != [] && b != [] && a[0] == b[0] {
      LessIsTotal(a[1..], b[1..]);
      assert a == [a[0]] + a[1..] && b == [b[0]] + b[1..];
    }
  }

  lemma {:induction false} LessIsIrreflexive(a: Text)
    ensures !Less(a, a)
  {
    if a != [] { LessIsIrreflexive(a[1..]); }
  }

  lemma {:induction false} LessIsTransitive(a: Text, b: Text, c: Text)
    requires Less(a, b) && Less(b, c)
    ensures Less(a, c)
  {
    if a != [] && a[0] == b[0] && b[0] == c[0] { LessIsTransitive(a[1..], b[1..], c[1..]); }
  }

  // ---- keyed lists sorted by key -----------------------------------------------------

  datatype Keyed<V> = Keyed(key: Text, value: V)

  function Insert<V>(p: Keyed<V>, xs: seq<Keyed<V>>): seq<Keyed<V>> {
    if xs == [] || !Less(xs[0].key, p.key) then [p] + xs else [xs[0]] + Insert(p, xs[1..])
  }

  function Sort<V>(xs: seq<Keyed<V>>): seq<Keyed<V>> {
    if xs == [] then [] else Insert(xs[0], Sort(xs[1..]))
  }

  predicate Ascending<V>(xs: seq<Keyed<V>>) {
    forall i, j :: 0 <= i < j < |xs| ==> Less(xs[i].key, xs[j].key)
  }

  predicate DistinctKeys<V>(xs: seq<Keyed<V>>) {
    forall i, j :: 0 <= i < j < |xs| ==> xs[i].key != xs[j].key
  }

  lemma {:induction false} InsertHolds<V>(p: Keyed<V>, xs: seq<Keyed<V>>, q: Keyed<V>)
    ensures q in Insert(p, xs) <==> q == p || q in xs
  {
    if xs != [] && Less(xs[0].key, p.key) { InsertHolds(p, xs[1..], q); }
  }

  lemma {:induction false} SortHolds<V>(xs: seq<Keyed<V>>, q: Keyed<V>)
    ensures q in Sort(xs) <==> q in xs
  {
    if xs != [] {
      InsertHolds(xs[0], Sort(xs[1..]), q);
      SortHolds(xs[1..], q);
    }
  }

  lemma {:induction false} InsertAscends<V>(p: Keyed<V>, xs: seq<Keyed<V>>)
    requires Ascending(xs) && forall i :: 0 <= i < |xs| ==> xs[i].key != p.key
    ensures Ascending(Insert(p, xs))
  {
    if xs != [] {
      LessIsTotal(xs[0].key, p.key);
      if Less(xs[0].key, p.key) {
        InsertAscends(p, xs[1..]);
        var rest := Insert(p, xs[1..]);
        forall i | 0 <= i < |rest| ensures Less(xs[0].key, rest[i].key) {
          InsertHolds(p, xs[1..], rest[i]);
          assert rest[i] in rest;
        }
      } else {
        forall i | 0 <= i < |xs| ensures Less(p.key, xs[i].key) {
          if i > 0 { LessIsTransitive(p.key, xs[0].key, xs[i].key); }
        }
      }
    }
  }

  lemma {:induction false} SortAscends<V>(xs: seq<Keyed<V>>)
    requires DistinctKeys(xs)
    ensures Ascending(Sort(xs))
  {
    if xs != [] {
      SortAscends(xs[1..]);
      var rest := Sort(xs[1..]);
      forall i | 0 <= i < |rest| ensures rest[i].key != xs[0].key {
        SortHolds(xs[1..], rest[i]);
        assert rest[i] in rest;
      }
      InsertAscends(xs[0], rest);
    }
  }

  /** An ascending list is determined by what it holds. */
  lemma {:induction false} AscendingIsUnique<V>(xs: seq<Keyed<V>>, ys: seq<Keyed<V>>)
    requires Ascending(xs) && Ascending(ys)
    requires forall q :: q in xs <==> q in ys
    ensures xs == ys
  {
    assert ys != [] ==> ys[0] in ys;
    if xs != [] {
      assert xs[0] in ys;
      var j :| 0 <= j < |ys| && ys[j] == xs[0];
      assert ys[0] in ys && ys[0] in xs;
      var i :| 0 <= i < |xs| && xs[i] == ys[0];
      if j > 0 && i > 0 {
        LessIsTransitive(xs[0].key, xs[i].key, ys[j].key);
        LessIsIrreflexive(xs[0].key);
      }
      LessIsIrreflexive(xs[0].key);
      assert xs[0] == ys[0];
      forall q ensures q in xs[1..] <==> q in ys[1..] {
        if q in xs[1..] { assert q in xs && Less(xs[0].key, q.key); }
        if q in ys[1..] { assert q in ys && Less(ys[0].key, q.key); }
      }
      AscendingIsUnique(xs[1..], ys[1..]);
    }
  }

  predicate Within<V(==)>(xs: seq<Keyed<V>>, ys: seq<Keyed<V>>) {
    forall i :: 0 <= i < |xs| ==> xs[i] in ys
  }

  /** Sorting forgets exactly the order: with distinct keys, two lists sort to the same list when and
      only when they hold the same pairs. */
  lemma SortsEqualIffSameHoldings<V>(xs: seq<Keyed<V>>, ys: seq<Keyed<V>>)
    requires DistinctKeys(xs) && DistinctKeys(ys)
    ensures Sort(xs) == Sort(ys) <==> (Within(xs, ys) && Within(ys, xs))
  {
    hide Sort;
    SortAscends(xs);
    SortAscends(ys);
    forall q ensures q in Sort(xs) <==> q in xs
      ensures q in Sort(ys) <==> q in ys
    {
      SortHolds(xs, q);
      SortHolds(ys, q);
    }
    if Within(xs, ys) && Within(ys, xs) { AscendingIsUnique(Sort(xs), Sort(ys)); }
  }
}
