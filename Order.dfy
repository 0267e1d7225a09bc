/**
 * The orders the scripts sort by. Python and NumPy compare strings code point
 * by code point, a proper prefix first; pandas `sort_values` on several
 * columns is a stable lexicographic sort that puts missing values last.
 */
module Order {
  import opened Optional
  import opened Seqs

  /** Lexicographic order on strings by code point. */
  predicate StrLess(a: string, b: string)
    decreases |a|
  {
    if a == [] then b != []
    else if b == [] then false
    else if a[0] != b[0] then a[0] < b[0]
    else StrLess(a[1..], b[1..])
  }

  lemma {:induction false} StrLessIrreflexive(a: string)
    ensures !StrLess(a, a)
    decreases |a|
  {
    if a != [] {
      StrLessIrreflexive(a[1..]);
    }
  }

  lemma {:induction false} StrLessTransitive(a: string, b: string, c: string)
    requires StrLess(a, b) && StrLess(b, c)
    ensures StrLess(a, c)
    decreases |a|
  {
    if a != [] && a[0] == b[0] && b[0] == c[0] {
      StrLessTransitive(a[1..], b[1..], c[1..]);
    }
  }

  lemma {:induction false} StrLessTotal(a: string, b: string)
    ensures a == b || StrLess(a, b) || StrLess(b, a)
    decreases |a|
  {
    if a != [] && b != [] && a[0] == b[0] {
      StrLessTotal(a[1..], b[1..]);
      assert a == [a[0]] + a[1..] && b == [b[0]] + b[1..];
    }
  }

  /** Order on a cell that may be missing: missing sorts after every value (`na_position='last'`). */
  predicate OptLess(x: Option<string>, y: Option<string>) {
    match (x, y)
    case (Some(a), Some(b)) => StrLess(a, b)
    case (Some(_), None) => true
    case (None, _) => false
  }

  /** The sort key of `sort_values([primary, secondary])`. */
  datatype SortKey = SortKey(primary: string, secondary: Option<string>)

  predicate KeyLess(k: SortKey, l: SortKey) {
    StrLess(k.primary, l.primary) || (k.primary == l.primary && OptLess(k.secondary, l.secondary))
  }

  predicate KeyLe(k: SortKey, l: SortKey) {
    k == l || KeyLess(k, l)
  }

  lemma KeyLessIrreflexive(k: SortKey)
    ensures !KeyLess(k, k)
  {
    StrLessIrreflexive(k.primary);
    if k.secondary.Some? {
      StrLessIrreflexive(k.secondary.value);
    }
  }

  lemma KeyLessTransitive(k: SortKey, l: SortKey, m: SortKey)
    requires KeyLess(k, l) && KeyLess(l, m)
    ensures KeyLess(k, m)
  {
    if StrLess(k.primary, l.primary) && StrLess(l.primary, m.primary) {
      StrLessTransitive(k.primary, l.primary, m.primary);
    } else if k.secondary.Some? && l.secondary.Some? && m.secondary.Some? {
      if StrLess(k.secondary.value, l.secondary.value) && StrLess(l.secondary.value, m.secondary.value) {
        StrLessTransitive(k.secondary.value, l.secondary.value, m.secondary.value);
      }
    }
  }

  /** Either key is at most the other; with transitivity this makes KeyLe a total order. */
  lemma KeyLessTotal(k: SortKey, l: SortKey)
    ensures k == l || KeyLess(k, l) || KeyLess(l, k)
  {
    StrLessTotal(k.primary, l.primary);
    if k.secondary.Some? && l.secondary.Some? {
      StrLessTotal(k.secondary.value, l.secondary.value);
    }
  }

  lemma KeyLeTransitive(k: SortKey, l: SortKey, m: SortKey)
    requires KeyLe(k, l) && KeyLe(l, m)
    ensures KeyLe(k, m)
  {
    if KeyLess(k, l) && KeyLess(l, m) {
      KeyLessTransitive(k, l, m);
    }
  }

  /** Every earlier element's key is at most every later element's key. */
  ghost predicate SortedByKey<T(!new)>(xs: seq<T>, key: T -> SortKey) {
    forall i, j :: 0 <= i < j < |xs| ==> KeyLe(key(xs[i]), key(xs[j]))
  }

  /** Insert `x` after every element whose key is at most its key. */
  function InsertByKey<T(!new)>(s: seq<T>, x: T, key: T -> SortKey): (r: seq<T>)
    ensures multiset(r) == multiset(s) + multiset{x}
    decreases |s|
  {
    if s == [] then [x]
    else
      var n := |s| - 1;
      assert s == s[..n] + [s[n]];
      if KeyLess(key(x), key(s[n])) then InsertByKey(s[..n], x, key) + [s[n]] else s + [x]
  }

  lemma {:induction false} InsertByKeySorted<T(!new)>(s: seq<T>, x: T, key: T -> SortKey)
    requires SortedByKey(s, key)
    ensures SortedByKey(InsertByKey(s, x, key), key)
    decreases |s|
  {
    if s != [] {
      var n := |s| - 1;
      if KeyLess(key(x), key(s[n])) {
        InsertByKeySorted(s[..n], x, key);
        var r := InsertByKey(s[..n], x, key) + [s[n]];
        assert r[..|r| - 1] == InsertByKey(s[..n], x, key);
        InsertBeforeLast(s, x, key, r);
      } else {
        KeyLessTotal(key(x), key(s[n]));
        forall i | 0 <= i < n ensures KeyLe(key(s[i]), key(x)) {
          KeyLeTransitive(key(s[i]), key(s[n]), key(x));
        }
      }
    }
  }

  lemma InsertBeforeLast<T(!new)>(s: seq<T>, x: T, key: T -> SortKey, r: seq<T>)
    requires s != [] && SortedByKey(s, key)
    requires KeyLess(key(x), key(s[|s| - 1]))
    requires r != [] && SortedByKey(r[..|r| - 1], key) && r[|r| - 1] == s[|s| - 1]
    requires multiset(r[..|r| - 1]) == multiset(s[..|s| - 1]) + multiset{x}
    ensures SortedByKey(r, key)
  {
    var n := |r| - 1;
    forall i | 0 <= i < n ensures KeyLe(key(r[i]), key(r[n])) {
      assert r[i] in multiset(r[..n]) by { assert r[..n][i] == r[i]; }
      if r[i] != x {
        assert r[i] in s[..|s| - 1];
      }
    }
    forall i, j | 0 <= i < j < |r| ensures KeyLe(key(r[i]), key(r[j])) {
      if j < n {
        assert r[..n][i] == r[i] && r[..n][j] == r[j];
      }
    }
  }

  /**
   * Stable insertion sort by key: the rows of `df.sort_values([a, b])` in the
   * order pandas returns them.
   */
  function SortByKey<T(!new)>(xs: seq<T>, key: T -> SortKey): (r: seq<T>)
    ensures SortedByKey(r, key)
    ensures multiset(r) == multiset(xs)
    decreases |xs|
  {
    if xs == [] then []
    else
      var n := |xs| - 1;
      assert xs == xs[..n] + [xs[n]];
      InsertByKeySorted(SortByKey(xs[..n], key), xs[n], key);
      InsertByKey(SortByKey(xs[..n], key), xs[n], key)
  }

  /** The rows whose key is `k`. */
  function HasKey<T(!new)>(key: T -> SortKey, k: SortKey): T -> bool {
    y => key(y) == k
  }

  /** Inserting never reorders two elements that share a key `k`. */
  lemma {:induction false} InsertByKeyStable<T(!new)>(s: seq<T>, x: T, key: T -> SortKey, k: SortKey)
    ensures Where(InsertByKey(s, x, key), HasKey(key, k)) == Where(s, HasKey(key, k)) + (if HasKey(key, k)(x) then [x] else [])
    decreases |s|
  {
    if s == [] {
      WhereStep([x], HasKey(key, k));
    } else {
      var n := |s| - 1;
      var last := s[n];
      if KeyLess(key(x), key(last)) {
        InsertByKeyStable(s[..n], x, key, k);
        StableBeforeLast(s, x, key, k);
      } else {
        WhereStep(s + [x], HasKey(key, k));
        assert (s + [x])[..|s|] == s;
      }
    }
  }

  lemma StableBeforeLast<T(!new)>(s: seq<T>, x: T, key: T -> SortKey, k: SortKey)
    requires s != []
    requires KeyLess(key(x), key(s[|s| - 1]))
    requires Where(InsertByKey(s[..|s| - 1], x, key), HasKey(key, k)) == Where(s[..|s| - 1], HasKey(key, k)) + (if HasKey(key, k)(x) then [x] else [])
    ensures Where(InsertByKey(s, x, key), HasKey(key, k)) == Where(s, HasKey(key, k)) + (if HasKey(key, k)(x) then [x] else [])
  {
    var n := |s| - 1;
    assert InsertByKey(s, x, key) == InsertByKey(s[..n], x, key) + [s[n]];
    if HasKey(key, k)(x) && HasKey(key, k)(s[n]) {
      KeyLessIrreflexive(k);
    }
    WhereSwapLast(InsertByKey(s[..n], x, key), s, x, HasKey(key, k));
  }

  /** Two elements that cannot both be selected may trade places without changing the selection. */
  lemma WhereSwapLast<T(!new)>(ins: seq<T>, s: seq<T>, x: T, p: T -> bool)
    requires s != []
    requires Where(ins, p) == Where(s[..|s| - 1], p) + (if p(x) then [x] else [])
    requires !(p(x) && p(s[|s| - 1]))
    ensures Where(ins + [s[|s| - 1]], p) == Where(s, p) + (if p(x) then [x] else [])
  {
    WhereStep(ins + [s[|s| - 1]], p);
    assert (ins + [s[|s| - 1]])[..|ins|] == ins;
    WhereStep(s, p);
  }

  /**
   * SortByKey is stable: for every key, the elements with that key keep their
   * input order.
   */
  lemma {:induction false} SortByKeyStable<T(!new)>(xs: seq<T>, key: T -> SortKey, k: SortKey)
    ensures Where(SortByKey(xs, key), HasKey(key, k)) == Where(xs, HasKey(key, k))
    decreases |xs|
  {
    if xs != [] {
      var n := |xs| - 1;
      SortByKeyStable(xs[..n], key, k);
      InsertByKeyStable(SortByKey(xs[..n], key), xs[n], key, k);
      WhereStep(xs, HasKey(key, k));
    }
  }

  /** SortByKeyStable for every key at once. */
  lemma SortByKeyStableAll<T(!new)>(xs: seq<T>, key: T -> SortKey)
    ensures forall k :: Where(SortByKey(xs, key), HasKey(key, k)) == Where(xs, HasKey(key, k))
  {
    forall k {
      SortByKeyStable(xs, key, k);
    }
  }

  /** Sorted ascending with no repeats, as NumPy's set routines return. */
  predicate StrictlyAscending(s: seq<string>) {
    forall i, j :: 0 <= i < j < |s| ==> StrLess(s[i], s[j])
  }

  /** Insert `x` into a strictly ascending list unless it is already there. */
  function InsertUnique(s: seq<string>, x: string): (r: seq<string>)
    requires StrictlyAscending(s)
    ensures StrictlyAscending(r)
    ensures forall y :: y in r <==> y in s || y == x
    decreases |s|
  {
    if s == [] then [x]
    else
      var n := |s| - 1;
      assert s == s[..n] + [s[n]];
      if x == s[n] then s
      else if StrLess(x, s[n]) then
        var init := InsertUnique(s[..n], x);
        assert forall i :: 0 <= i < |init| ==> init[i] in init;
        assert forall i :: 0 <= i < n ==> StrLess(s[i], s[n]);
        init + [s[n]]
      else
        StrLessTotal(x, s[n]);
        assert forall i :: 0 <= i < n ==> StrLess(s[i], s[n]) && StrLess(s[i], x) by {
          forall i | 0 <= i < n ensures StrLess(s[i], x) {
            StrLessTransitive(s[i], s[n], x);
          }
        }
        s + [x]
  }

  /** The distinct elements of `xs`, sorted: `np.unique`. */
  function SortedUnique(xs: seq<string>): (r: seq<string>)
    ensures StrictlyAscending(r)
    ensures forall y :: y in r <==> y in xs
    decreases |xs|
  {
    if xs == [] then []
    else
      var n := |xs| - 1;
      assert xs == xs[..n] + [xs[n]];
      InsertUnique(SortedUnique(xs[..n]), xs[n])
  }

  /** Two strictly ascending lists with the same elements are equal. */
  lemma {:induction false} AscendingUnique(a: seq<string>, b: seq<string>)
    requires StrictlyAscending(a) && StrictlyAscending(b)
    requires forall y :: y in a <==> y in b
    ensures a == b
    decreases |a|
  {
    if a != [] {
      assert a[0] in b;
    }
    if b != [] {
      assert b[0] in a;
    }
    if a != [] && b != [] {
      assert a == [a[0]] + a[1..] && b == [b[0]] + b[1..];
      if a[0] != b[0] {
        var i :| 0 <= i < |a| && a[i] == b[0];
        var j :| 0 <= j < |b| && b[j] == a[0];
        assert i > 0 && j > 0;
        StrLessTransitive(a[0], b[0], a[0]);
        StrLessIrreflexive(a[0]);
      }
      forall y | y in a[1..] ensures y in b[1..] {
        var i :| 1 <= i < |a| && a[i] == y;
        StrLessIrreflexive(y);
        assert y in b;
        var j :| 0 <= j < |b| && b[j] == y;
        assert j != 0;
        assert b[1..][j - 1] == y;
      }
      forall y | y in b[1..] ensures y in a[1..] {
        var j :| 1 <= j < |b| && b[j] == y;
        StrLessIrreflexive(y);
        assert y in a;
        var i :| 0 <= i < |a| && a[i] == y;
        assert i != 0;
        assert a[1..][i - 1] == y;
      }
      AscendingUnique(a[1..], b[1..]);
    }
  }
}
