/**
 * Ordered-list primitives shared by the three scripts: boolean-mask selection
 * (`series[mask]`, `df.loc[mask]`), stable first-occurrence deduplication (the
 * "if m not in unique_markers" loops and `drop_duplicates`), and the
 * subsequence relation used to say that a selection keeps the input order.
 */
module Seqs {

  /** No element occurs twice. */
  predicate NoDup<T(==,!new)>(s: seq<T>) {
    forall i, j :: 0 <= i < j < |s| ==> s[i] != s[j]
  }

  /** `idx` lists, in strictly increasing order, positions of `b` that spell `a`. */
  ghost predicate Embeds<T(!new)>(a: seq<T>, b: seq<T>, idx: seq<int>) {
    && |idx| == |a|
    && (forall k :: 0 <= k < |idx| ==> 0 <= idx[k] < |b| && b[idx[k]] == a[k])
    && (forall k, l :: 0 <= k < l < |idx| ==> idx[k] < idx[l])
  }

  /** `a` is `b` with some elements left out and the rest in their order. */
  ghost predicate IsSubsequence<T(!new)>(a: seq<T>, b: seq<T>) {
    exists idx :: Embeds(a, b, idx)
  }

  /** A sequence without members is empty. */
  lemma NoMemberIsEmpty<T(!new)>(s: seq<T>)
    ensures (forall x :: x !in s) ==> s == []
  {
    if s != [] {
      assert s[0] in s;
    }
  }

  /** Appending one element to the input and perhaps to the selection keeps an embedding. */
  lemma EmbedsStep<T(!new)>(a: seq<T>, b: seq<T>, x: T, keep: bool, idx: seq<int>) returns (idx': seq<int>)
    requires Embeds(a, b, idx)
    ensures Embeds(if keep then a + [x] else a, b + [x], idx')
  {
    if keep {
      idx' := idx + [|b|];
    } else {
      idx' := idx;
    }
  }

  /** Boolean-mask selection `xs[mask]`: the elements whose mask entry is true, in order. */
  function Select<T(!new)>(xs: seq<T>, mask: seq<bool>): (r: seq<T>)
    requires |mask| == |xs|
    ensures |r| <= |xs|
    ensures forall x :: x in r <==> exists i :: 0 <= i < |xs| && mask[i] && xs[i] == x
    decreases |xs|
  {
    if xs == [] then []
    else
      var n := |xs| - 1;
      var init := Select(xs[..n], mask[..n]);
      assert forall i :: 0 <= i < n ==> xs[..n][i] == xs[i] && mask[..n][i] == mask[i];
      if mask[n] then init + [xs[n]] else init
  }

  /** The positions of `xs` that `Select` keeps. */
  lemma {:induction false} SelectEmbedding<T(!new)>(xs: seq<T>, mask: seq<bool>) returns (idx: seq<int>)
    requires |mask| == |xs|
    ensures Embeds(Select(xs, mask), xs, idx)
    decreases |xs|
  {
    if xs == [] {
      idx := [];
    } else {
      var n := |xs| - 1;
      var init := Select(xs[..n], mask[..n]);
      var initIdx := SelectEmbedding(xs[..n], mask[..n]);
      assert forall k :: 0 <= k < |initIdx| ==> 0 <= initIdx[k] < n && xs[initIdx[k]] == init[k];
      if mask[n] {
        idx := initIdx + [n];
        assert Select(xs, mask) == init + [xs[n]];
      } else {
        idx := initIdx;
        assert Select(xs, mask) == init;
      }
    }
  }

  lemma SelectIsSubsequence<T(!new)>(xs: seq<T>, mask: seq<bool>)
    requires |mask| == |xs|
    ensures IsSubsequence(Select(xs, mask), xs)
  {
    var idx := SelectEmbedding(xs, mask);
  }

  /** The mask `p(xs[i])` computed column-wise, as pandas does for a comparison. */
  function Mask<T(!new)>(xs: seq<T>, p: T -> bool): (m: seq<bool>)
    ensures |m| == |xs|
  {
    seq(|xs|, i requires 0 <= i < |xs| => p(xs[i]))
  }

  /** Row selection by a predicate on the row: `df.loc[p(df)]`. */
  function Where<T(!new)>(xs: seq<T>, p: T -> bool): (r: seq<T>)
    ensures |r| <= |xs|
    ensures forall x :: x in r <==> x in xs && p(x)
  {
    Select(xs, Mask(xs, p))
  }

  lemma WhereStep<T(!new)>(xs: seq<T>, p: T -> bool)
    requires xs != []
    ensures Where(xs, p) == Where(xs[..|xs| - 1], p) + (if p(xs[|xs| - 1]) then [xs[|xs| - 1]] else [])
  {
    var n := |xs| - 1;
    assert Mask(xs, p)[..n] == Mask(xs[..n], p);
  }

  lemma WhereSingleton<T(!new)>(x: T, p: T -> bool)
    ensures Where([x], p) == if p(x) then [x] else []
  {
    WhereStep([x], p);
  }

  lemma WhereIsSubsequence<T(!new)>(xs: seq<T>, p: T -> bool)
    ensures IsSubsequence(Where(xs, p), xs)
  {
    SelectIsSubsequence(xs, Mask(xs, p));
  }

  lemma {:induction false} WhereConcat<T(!new)>(a: seq<T>, b: seq<T>, p: T -> bool)
    ensures Where(a + b, p) == Where(a, p) + Where(b, p)
    decreases |b|
  {
    if b == [] {
      assert a + b == a;
    } else {
      var n := |b| - 1;
      WhereStep(a + b, p);
      assert (a + b)[..|a + b| - 1] == a + b[..n];
      WhereConcat(a, b[..n], p);
      WhereStep(b, p);
    }
  }

  /** Selection keeps every occurrence of a selected element and none of the others. */
  lemma {:induction false} WhereCount<T(!new)>(xs: seq<T>, p: T -> bool)
    ensures forall x :: multiset(Where(xs, p))[x] == if p(x) then multiset(xs)[x] else 0
    decreases |xs|
  {
    if xs != [] {
      var n := |xs| - 1;
      WhereStep(xs, p);
      WhereCount(xs[..n], p);
      assert xs[..n] + [xs[n]] == xs;
    }
  }

  lemma {:induction false} WhereAll<T(!new)>(xs: seq<T>, p: T -> bool)
    requires forall x :: x in xs ==> p(x)
    ensures Where(xs, p) == xs
    decreases |xs|
  {
    if xs != [] {
      var n := |xs| - 1;
      WhereStep(xs, p);
      WhereAll(xs[..n], p);
      assert xs[..n] + [xs[n]] == xs;
    }
  }

  lemma {:induction false} WhereNone<T(!new)>(xs: seq<T>, p: T -> bool)
    requires forall x :: x in xs ==> !p(x)
    ensures Where(xs, p) == []
    decreases |xs|
  {
    if xs != [] {
      WhereStep(xs, p);
      WhereNone(xs[..|xs| - 1], p);
    }
  }

  /** Selecting from a list without repeats gives a list without repeats. */
  lemma {:induction false} WhereNoDup<T(!new)>(xs: seq<T>, p: T -> bool)
    requires NoDup(xs)
    ensures NoDup(Where(xs, p))
    decreases |xs|
  {
    if xs != [] {
      var n := |xs| - 1;
      WhereStep(xs, p);
      assert NoDup(xs[..n]);
      WhereNoDup(xs[..n], p);
      assert xs[n] !in xs[..n];
    }
  }

  /** Selecting by `p` and then by `q` is selecting by `p && q` (given as `pq`). */
  lemma {:induction false} WhereWhere<T(!new)>(xs: seq<T>, p: T -> bool, q: T -> bool, pq: T -> bool)
    requires forall x :: pq(x) == (p(x) && q(x))
    ensures Where(Where(xs, p), q) == Where(xs, pq)
    decreases |xs|
  {
    if xs != [] {
      var n := |xs| - 1;
      WhereStep(xs, p);
      WhereStep(xs, pq);
      WhereWhere(xs[..n], p, q, pq);
      WhereConcat(Where(xs[..n], p), if p(xs[n]) then [xs[n]] else [], q);
      if p(xs[n]) {
        WhereStep([xs[n]], q);
      }
    }
  }

  /** Index of the first occurrence of `x` in `xs`. */
  function FirstIndex<T(==,!new)>(xs: seq<T>, x: T): (k: nat)
    requires x in xs
    ensures k < |xs| && xs[k] == x
    ensures forall i :: 0 <= i < k ==> xs[i] != x
    decreases |xs|
  {
    var n := |xs| - 1;
    if x in xs[..n] then FirstIndex(xs[..n], x) else n
  }

  /** Past a different head, the first occurrence is one further on than in the tail. */
  lemma FirstIndexOfTail<T(!new)>(xs: seq<T>, x: T)
    requires xs != [] && xs[0] != x && x in xs[1..]
    ensures FirstIndex(xs, x) == 1 + FirstIndex(xs[1..], x)
  {
    var k := FirstIndex(xs, x);
    var k' := FirstIndex(xs[1..], x);
    assert xs[k' + 1] == x;
    assert xs[1..][k - 1] == x;
  }

  /**
   * Stable deduplication keeping first occurrences: the list built by
   * "for m in xs: if m not in unique: unique += [m]".
   */
  function Dedup<T(==,!new)>(xs: seq<T>): (r: seq<T>)
    ensures NoDup(r)
    ensures forall x :: x in r <==> x in xs
    decreases |xs|
  {
    if xs == [] then []
    else
      var n := |xs| - 1;
      var init := Dedup(xs[..n]);
      assert xs == xs[..n] + [xs[n]];
      if xs[n] in init then init else init + [xs[n]]
  }

  /** The positions of `xs` that `Dedup` keeps. */
  lemma {:induction false} DedupEmbedding<T(!new)>(xs: seq<T>) returns (idx: seq<int>)
    ensures Embeds(Dedup(xs), xs, idx)
    decreases |xs|
  {
    if xs == [] {
      idx := [];
    } else {
      var n := |xs| - 1;
      var init := Dedup(xs[..n]);
      var initIdx := DedupEmbedding(xs[..n]);
      var keep := xs[n] !in init;
      assert Dedup(xs) == if keep then init + [xs[n]] else init;
      assert xs[..n] + [xs[n]] == xs;
      idx := EmbedsStep(init, xs[..n], xs[n], keep, initIdx);
    }
  }

  /** The last element is kept exactly when it does not occur before. */
  lemma DedupLast<T(!new)>(xs: seq<T>)
    requires xs != []
    ensures Dedup(xs) == Dedup(xs[..|xs| - 1]) + if xs[|xs| - 1] in xs[..|xs| - 1] then [] else [xs[|xs| - 1]]
  {
  }

  lemma DedupIsSubsequence<T(!new)>(xs: seq<T>)
    ensures IsSubsequence(Dedup(xs), xs)
  {
    var idx := DedupEmbedding(xs);
  }

  /** The kept elements appear in the order of their first occurrences in the input. */
  lemma {:induction false} DedupFirstOccurrenceOrder<T(!new)>(xs: seq<T>)
    ensures forall i, j :: 0 <= i < j < |Dedup(xs)| ==>
              FirstIndex(xs, Dedup(xs)[i]) < FirstIndex(xs, Dedup(xs)[j])
    decreases |xs|
  {
    if xs != [] {
      var n := |xs| - 1;
      var init := Dedup(xs[..n]);
      DedupFirstOccurrenceOrder(xs[..n]);
      assert xs == xs[..n] + [xs[n]];
      forall y | y in init
        ensures FirstIndex(xs, y) == FirstIndex(xs[..n], y) < n
      {
        FirstIndexOfPrefix(xs, n, y);
      }
      if xs[n] !in init {
        assert FirstIndex(xs, xs[n]) == n;
      }
    }
  }

  lemma FirstIndexOfPrefix<T(!new)>(xs: seq<T>, n: nat, y: T)
    requires n <= |xs| && y in xs[..n]
    ensures FirstIndex(xs, y) == FirstIndex(xs[..n], y)
  {
    var k := FirstIndex(xs[..n], y);
    var k' := FirstIndex(xs, y);
    assert xs[k] == y;
    assert k' <= k;
    assert xs[..n][k'] == y;
  }

  /** Deduplicating a list that has no duplicates changes nothing; hence Dedup is idempotent. */
  lemma {:induction false} DedupOfNoDup<T(!new)>(xs: seq<T>)
    requires NoDup(xs)
    ensures Dedup(xs) == xs
    decreases |xs|
  {
    if xs != [] {
      var n := |xs| - 1;
      assert NoDup(xs[..n]);
      DedupOfNoDup(xs[..n]);
      assert xs[n] !in xs[..n];
      assert xs[..n] + [xs[n]] == xs;
    }
  }

  lemma DedupIdempotent<T(!new)>(xs: seq<T>)
    ensures Dedup(Dedup(xs)) == Dedup(xs)
  {
    DedupOfNoDup(Dedup(xs));
  }

  /**
   * In `Dedup(a + b)` every element taken from `a` comes before every element
   * that occurs only in `b`.
   */
  lemma DedupKeepsPrefixFirst<T(!new)>(a: seq<T>, b: seq<T>)
    ensures forall i, j ::
              (0 <= i < |Dedup(a + b)| && 0 <= j < |Dedup(a + b)| &&
               Dedup(a + b)[i] in a && Dedup(a + b)[j] !in a) ==> i < j
  {
    var r := Dedup(a + b);
    DedupFirstOccurrenceOrder(a + b);
    forall i, j | 0 <= i < |r| && 0 <= j < |r| && r[i] in a && r[j] !in a
      ensures i < j
    {
      var ki := FirstIndex(a + b, r[i]);
      var kj := FirstIndex(a + b, r[j]);
      var ka := FirstIndex(a, r[i]);
      assert (a + b)[ka] == r[i];
      assert ki < |a|;
      assert r[i] != r[j];
    }
  }
}
