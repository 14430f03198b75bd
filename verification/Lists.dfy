/** Line-by-line processing: each line contributes some output lines, or some entries of a map. */
module Lists {

  function FlatMap<A, B>(f: A -> seq<B>, s: seq<A>): seq<B> {
    if s == [] then [] else f(s[0]) + FlatMap(f, s[1..])
  }

  lemma Concat3<B>(a: seq<B>, b: seq<B>, c: seq<B>)
    ensures a + (b + c) == a + b + c
  {
  }

  lemma Around<A>(s: seq<A>, k: nat)
    requires k < |s|
    ensures s == s[..k] + ([s[k]] + s[k + 1..])
  {
  }

  lemma {:induction false} FlatMapConcat<A, B>(f: A -> seq<B>, a: seq<A>, b: seq<A>)
    ensures FlatMap(f, a + b) == FlatMap(f, a) + FlatMap(f, b)
  {
    if a == [] {
      assert a + b == b;
    } else {
      FlatMapConcat(f, a[1..], b);
      assert (a + b)[0] == a[0] && (a + b)[1..] == a[1..] + b;
      Concat3(f(a[0]), FlatMap(f, a[1..]), FlatMap(f, b));
    }
  }

  lemma FlatMapSnoc<A, B>(f: A -> seq<B>, a: seq<A>, x: A)
    ensures FlatMap(f, a + [x]) == FlatMap(f, a) + f(x)
  {
    FlatMapConcat(f, a, [x]);
    assert FlatMap(f, [x]) == f(x) + FlatMap(f, []);
  }

  lemma {:induction false} FlatMapIn<A, B>(f: A -> seq<B>, s: seq<A>, y: B)
    ensures y in FlatMap(f, s) <==> exists x :: x in s && y in f(x)
  {
    if s != [] {
      FlatMapIn(f, s[1..], y);
      assert s[0] in s;
      assert forall x <- s :: x == s[0] || x in s[1..];
    }
  }

  lemma SameMembers<T>(s: seq<T>, t: seq<T>)
    requires multiset(s) == multiset(t)
    ensures |s| == |t| && forall x :: x in s <==> x in t
  {
    assert forall x :: x in s <==> x in multiset(s);
    assert forall x :: x in t <==> x in multiset(t);
    assert |multiset(s)| == |s| && |multiset(t)| == |t|;
  }

  lemma {:induction false} FlatMapBag<A, B>(f: A -> seq<B>, s: seq<A>, t: seq<A>)
    requires multiset(s) == multiset(t)
    ensures multiset(FlatMap(f, s)) == multiset(FlatMap(f, t))
  {
    SameMembers(s, t);
    if s != [] {
      assert s[0] in s;
      var j :| 0 <= j < |t| && t[j] == s[0];
      var before, after := t[..j], t[j + 1..];
      assert t == before + [s[0]] + after;
      WithoutFirst(s, before, after);
      FlatMapBag(f, s[1..], before + after);
      FlatMapConcat(f, before + [s[0]], after);
      FlatMapConcat(f, before, after);
      FlatMapSnoc(f, before, s[0]);
    }
  }

  lemma WithoutFirst<A>(s: seq<A>, before: seq<A>, after: seq<A>)
    requires s != [] && multiset(s) == multiset(before + [s[0]] + after)
    ensures multiset(s[1..]) == multiset(before + after)
  {
    assert s == [s[0]] + s[1..];
    assert multiset(s[1..]) == multiset(s) - multiset{s[0]};
  }

  /** A rewriting that maps its own results to themselves can be applied again without effect. */
  lemma {:induction false} FlatMapTwice<A>(f: A -> seq<A>, s: seq<A>)
    requires forall x, y :: x in s && y in f(x) ==> f(y) == [y]
    ensures FlatMap(f, FlatMap(f, s)) == FlatMap(f, s)
  {
    if s != [] {
      FlatMapTwice(f, s[1..]);
      FlatMapConcat(f, f(s[0]), FlatMap(f, s[1..]));
      assert s[0] in s;
      FlatMapSame(f, f(s[0]));
    }
  }

  lemma {:induction false} FlatMapSame<A>(f: A -> seq<A>, s: seq<A>)
    requires forall y <- s :: f(y) == [y]
    ensures FlatMap(f, s) == s
  {
    if s != [] {
      FlatMapSame(f, s[1..]);
      assert s[0] in s && s == [s[0]] + s[1..];
    }
  }

  /** The union of what the elements mean; a later element wins. */
  function Merge<A, K, V>(f: A -> map<K, V>, s: seq<A>): map<K, V> {
    if s == [] then map[] else f(s[0]) + Merge(f, s[1..])
  }

  lemma RegroupMaps<K, V>(a: map<K, V>, b: map<K, V>, c: map<K, V>)
    ensures a + (b + c) == a + b + c
  {
  }

  lemma {:induction false} MergeConcat<A, K, V>(f: A -> map<K, V>, a: seq<A>, b: seq<A>)
    ensures Merge(f, a + b) == Merge(f, a) + Merge(f, b)
  {
    if a == [] {
      assert a + b == b;
    } else {
      MergeConcat(f, a[1..], b);
      assert (a + b)[0] == a[0] && (a + b)[1..] == a[1..] + b;
      RegroupMaps(f(a[0]), Merge(f, a[1..]), Merge(f, b));
    }
  }

  lemma MergeOne<A, K, V>(f: A -> map<K, V>, x: A)
    ensures Merge(f, [x]) == f(x)
  {
    assert Merge(f, [x]) == f(x) + Merge(f, []);
  }

  lemma MergeSnoc<A, K, V>(f: A -> map<K, V>, a: seq<A>, x: A)
    ensures Merge(f, a + [x]) == Merge(f, a) + f(x)
  {
    MergeConcat(f, a, [x]);
    MergeOne(f, x);
  }

  /** When the contributions never disagree, the union holds each of them. */
  lemma {:induction false} MergeAt<A, K, V>(f: A -> map<K, V>, s: seq<A>, k: K)
    requires forall x, y :: x in s && y in s && k in f(x) && k in f(y) ==> f(x)[k] == f(y)[k]
    ensures k in Merge(f, s) <==> exists x :: x in s && k in f(x)
    ensures forall x :: x in s && k in f(x) ==> Merge(f, s)[k] == f(x)[k]
  {
    if s != [] {
      assert forall x :: x in s <==> x == s[0] || x in s[1..];
      MergeAt(f, s[1..], k);
    }
  }

  lemma HeadIn<A>(s: seq<A>)
    ensures s != [] ==> s[0] in s
  {
  }

  lemma MinusUnion<K, V>(m: map<K, V>, n: map<K, V>, k: K)
    ensures (m + n) - {k} == (m - {k}) + (n - {k})
  {
  }

  /** `m` with a new value for `k`, if it binds `k` at all. */
  function Put<K, V>(m: map<K, V>, k: K, v: V): map<K, V> {
    if k in m then m[k := v] else m
  }

  lemma PutUnion<K, V>(m: map<K, V>, n: map<K, V>, k: K, v: V)
    ensures Put(m, k, v) + Put(n, k, v) == Put(m + n, k, v)
  {
  }

  /** `m` with its own keys given their new values. */
  function Override<K, V>(m: map<K, V>, updates: map<K, V>): map<K, V> {
    map k | k in m :: if k in updates then updates[k] else m[k]
  }

  lemma OverrideUnion<K, V>(m: map<K, V>, n: map<K, V>, updates: map<K, V>)
    ensures Override(m, updates) + Override(n, updates) == Override(m + n, updates)
  {
  }

  function Pick<K, V>(updates: map<K, V>, ks: seq<K>): map<K, V> {
    map k | k in ks && k in updates :: updates[k]
  }

  lemma PickCons<K, V>(updates: map<K, V>, k: K, ks: seq<K>)
    ensures Pick(updates, [k] + ks) == (if k in updates then map[k := updates[k]] else map[]) + Pick(updates, ks)
  {
  }

  lemma OverridePick<K, V>(m: map<K, V>, updates: map<K, V>, ks: seq<K>)
    requires forall k :: k in ks <==> k in updates && k !in m
    ensures Override(m, updates) + Pick(updates, ks) == m + updates
  {
  }

  lemma PutIsUnion<K, V>(m: map<K, V>, k: K, v: V)
    ensures m + map[k := v] == m[k := v]
  {
  }

  function Fold<S, A>(f: (S, A) -> S, s: S, xs: seq<A>): S {
    if xs == [] then s else f(Fold(f, s, xs[..|xs| - 1]), xs[|xs| - 1])
  }

  /** An invariant of every step, relating the state to the inputs consumed so far, holds after the whole run. */
  lemma {:induction false} FoldKeeps<S(!new), A(!new)>(f: (S, A) -> S, ok: A -> bool, inv: (S, seq<A>) -> bool,
                                       s: S, xs: seq<A>)
    requires inv(s, [])
    requires forall x <- xs :: ok(x)
    requires forall t, done, x {:trigger inv(t, done), ok(x)} :: inv(t, done) && ok(x) ==> inv(f(t, x), done + [x])
    ensures inv(Fold(f, s, xs), xs)
  {
    if xs != [] {
      var n := |xs| - 1;
      FoldKeeps(f, ok, inv, s, xs[..n]);
      assert xs[..n] + [xs[n]] == xs;
      assert ok(xs[n]);
    }
  }

  /** Total weight of a sequence. */
  function Sum<A>(w: A -> nat, s: seq<A>): nat {
    if s == [] then 0 else w(s[0]) + Sum(w, s[1..])
  }

  lemma {:induction false} SumUpdate<A>(w: A -> nat, s: seq<A>, i: nat, x: A)
    requires i < |s|
    ensures Sum(w, s[i := x]) + w(s[i]) == Sum(w, s) + w(x)
  {
    if i == 0 {
      assert s[i := x][1..] == s[1..];
    } else {
      SumUpdate(w, s[1..], i - 1, x);
      assert s[i := x][1..] == s[1..][i - 1 := x];
    }
  }

  lemma {:induction false} SumAppend<A>(w: A -> nat, s: seq<A>, x: A)
    ensures Sum(w, s + [x]) == Sum(w, s) + w(x)
  {
    if s == [] {
      assert s + [x] == [x];
    } else {
      SumAppend(w, s[1..], x);
      assert (s + [x])[1..] == s[1..] + [x];
    }
  }

  /** Two elements that weigh something. */
  predicate TwoOf<A>(w: A -> nat, s: seq<A>, i: nat, j: nat) {
    i < j < |s| && w(s[i]) > 0 && w(s[j]) > 0
  }

  lemma {:induction false} SumAtLeast<A>(w: A -> nat, s: seq<A>, i: nat)
    requires i < |s|
    ensures Sum(w, s) >= w(s[i])
    ensures forall j: nat :: i < j < |s| ==> Sum(w, s) >= w(s[i]) + w(s[j])
  {
    if i > 0 {
      SumAtLeast(w, s[1..], i - 1);
      assert forall j: nat :: i < j < |s| ==> s[1..][j - 1] == s[j];
    } else {
      forall j: nat | 0 < j < |s|
        ensures Sum(w, s) >= w(s[0]) + w(s[j])
      {
        SumAtLeast(w, s[1..], j - 1);
        assert s[1..][j - 1] == s[j];
      }
    }
  }

  lemma {:induction false} SumPositive<A>(w: A -> nat, s: seq<A>) returns (i: nat)
    requires Sum(w, s) > 0
    ensures i < |s| && w(s[i]) > 0
  {
    i := 0;
    if w(s[0]) == 0 {
      i := SumPositive(w, s[1..]);
      i := i + 1;
    }
  }

  /** A sum of ones and zeros that reaches two has two ones. */
  lemma {:induction false} SumTwo<A>(w: A -> nat, s: seq<A>) returns (i: nat, j: nat)
    requires Sum(w, s) >= 2 && forall x <- s :: w(x) <= 1
    ensures TwoOf(w, s, i, j)
  {
    HeadIn(s);
    if w(s[0]) == 0 {
      i, j := SumTwo(w, s[1..]);
      i, j := i + 1, j + 1;
    } else {
      i := 0;
      j := SumPositive(w, s[1..]);
      j := j + 1;
    }
  }
}
