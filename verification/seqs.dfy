/** Generic sequence helpers: first occurrences, de-duplication, filtering, prefixes. */
module Seqs {

  import opened Wrappers

  /** No element occurs twice. */
  predicate Distinct<T(==)>(s: seq<T>)
  {
    forall i, j :: 0 <= i < j < |s| ==> s[i] != s[j]
  }

  /** Position of the first occurrence of `x` (JavaScript's `indexOf`). */
  function FirstIndex<T(==)>(s: seq<T>, x: T): (i: nat)
    requires x in s
    ensures i < |s| && s[i] == x
    ensures forall k :: 0 <= k < i ==> s[k] != x
  {
    if s[0] == x then 0 else 1 + FirstIndex(s[1..], x)
  }

  lemma {:induction false} FirstIndexOfPrefix<T>(s: seq<T>, n: nat, x: T)
    requires n <= |s| && x in s[..n]
    ensures x in s && FirstIndex(s, x) == FirstIndex(s[..n], x)
  {
    assert s[..n][0] == s[0];
    if s[0] != x {
      assert s[..n][1..] == s[1..][..n - 1];
      FirstIndexOfPrefix(s[1..], n - 1, x);
    }
  }

  /**
   * Keeps the first occurrence of every element, in order: the
   * `filter((v, i, self) => self.indexOf(v) === i)` idiom.
   */
  function Dedup<T(==,!new)>(s: seq<T>): (r: seq<T>)
    ensures Distinct(r)
    ensures forall x :: x in r <==> x in s
    ensures |r| <= |s|
  {
    if s == [] then []
    else
      var init := s[..|s| - 1];
      var last := s[|s| - 1];
      assert forall x :: x in s <==> x in init || x == last;
      Dedup(init) + (if last in init then [] else [last])
  }

  /** `x` and `y` occur in `s`, and `x` occurs first. */
  predicate FirstSeenBefore<T(==)>(s: seq<T>, x: T, y: T)
  {
    x in s && y in s && FirstIndex(s, x) < FirstIndex(s, y)
  }

  /** Appending an element first seen after all others keeps a list in first-seen order. */
  lemma FirstSeenAppend<T>(s: seq<T>, keys: seq<T>, x: T)
    requires forall p, q :: 0 <= p < q < |keys| ==> FirstSeenBefore(s, keys[p], keys[q])
    requires forall k :: k in keys ==> FirstSeenBefore(s, k, x)
    ensures var r := keys + [x];
      forall p, q :: 0 <= p < q < |r| ==> FirstSeenBefore(s, r[p], r[q])
  {
    var r := keys + [x];
    forall p, q | 0 <= p < q < |r|
      ensures FirstSeenBefore(s, r[p], r[q])
    {
      if q < |keys| {
        assert r[p] == keys[p] && r[q] == keys[q];
      } else {
        assert r[p] == keys[p] && r[q] == x;
      }
    }
  }

  /** `Dedup` lists the elements in the order of their first occurrence. */
  lemma {:induction false} DedupFirstSeen<T(!new)>(s: seq<T>)
    ensures forall p, q :: 0 <= p < q < |Dedup(s)| ==> FirstSeenBefore(s, Dedup(s)[p], Dedup(s)[q])
  {
    if s != [] {
      var n := |s| - 1;
      var init, last := s[..n], s[n];
      var d := Dedup(init);
      var r := Dedup(s);
      assert r == d + (if last in init then [] else [last]);
      DedupFirstSeen(init);
      assert forall x :: x in init ==> x in s && FirstIndex(s, x) == FirstIndex(init, x) by {
        forall x | x in init
          ensures x in s && FirstIndex(s, x) == FirstIndex(init, x)
        {
          FirstIndexOfPrefix(s, n, x);
        }
      }
      forall p, q | 0 <= p < q < |r|
        ensures FirstSeenBefore(s, r[p], r[q])
      {
        assert r[p] == d[p] && r[p] in init;
        if q < |d| {
          assert r[q] == d[q];
        } else {
          assert r[q] == last && last !in init;
          assert FirstIndex(s, last) == n;
        }
      }
    }
  }

  /** In a list ordered by first occurrence, an element seen earlier sits at an earlier position. */
  lemma FirstSeenPosition<T>(s: seq<T>, u: seq<T>, p: nat, q: nat)
    requires forall i, j :: 0 <= i < j < |u| ==> FirstSeenBefore(s, u[i], u[j])
    requires p < |u| && q < |u| && FirstSeenBefore(s, u[p], u[q])
    ensures p < q
  {
  }

  /**
   * The first `n` distinct elements of `s`, in first-occurrence order: every
   * element first seen before a kept one is kept too.
   */
  lemma TakeDedupFirstSeen<T(!new)>(s: seq<T>, n: nat)
    ensures var r := Take(Dedup(s), n);
      forall p, q :: 0 <= p < q < |r| ==> FirstSeenBefore(s, r[p], r[q])
    ensures var r := Take(Dedup(s), n);
      forall x, q :: 0 <= q < |r| && FirstSeenBefore(s, x, r[q]) ==> x in r
  {
    var unique := Dedup(s);
    var r := Take(unique, n);
    assert forall i :: 0 <= i < |r| ==> r[i] == unique[i];
    DedupFirstSeen(s);
    forall x, q | 0 <= q < |r| && FirstSeenBefore(s, x, r[q])
      ensures x in r
    {
      assert x in unique;
      var p :| 0 <= p < |unique| && unique[p] == x;
      FirstSeenPosition(s, unique, p, q);
      assert r[p] == x;
    }
  }

  /** The first `n` elements, or all of them when there are fewer (`slice(0, n)`). */
  function Take<T>(s: seq<T>, n: nat): (r: seq<T>)
    ensures |r| <= n && |r| <= |s|
    ensures |r| == if |s| <= n then |s| else n
    ensures |s| <= n ==> r == s
    ensures r == s[..|r|]
  {
    if |s| <= n then s else s[..n]
  }

  lemma TakeMember<T>(s: seq<T>, n: nat, x: T)
    requires x in Take(s, n)
    ensures x in s
  {
    var r := Take(s, n);
    var i :| 0 <= i < |r| && r[i] == x;
    assert s[..|r|][i] == x;
  }

  /** `t` is obtained from `s` by deleting elements. */
  predicate IsSubsequence<T(==)>(t: seq<T>, s: seq<T>)
    decreases |s|
  {
    if t == [] then true
    else if s == [] then false
    else if t[0] == s[0] then IsSubsequence(t[1..], s[1..])
    else IsSubsequence(t, s[1..])
  }

  lemma {:induction false} SubsequenceExtend<T>(t: seq<T>, s: seq<T>, x: T, keep: bool)
    requires IsSubsequence(t, s)
    ensures IsSubsequence(if keep then t + [x] else t, s + [x])
    decreases |s|
  {
    if t == [] {
      if keep {
        SubsequenceSingleton(s, x);
        assert t + [x] == [x];
      }
    } else {
      assert s != [];
      assert (s + [x])[1..] == s[1..] + [x];
      if t[0] == s[0] {
        SubsequenceExtend(t[1..], s[1..], x, keep);
        if keep {
          assert (t + [x])[1..] == t[1..] + [x];
        }
      } else {
        SubsequenceExtend(t, s[1..], x, keep);
      }
    }
  }

  lemma {:induction false} SubsequenceSingleton<T>(s: seq<T>, x: T)
    ensures IsSubsequence([x], s + [x])
    decreases |s|
  {
    if s != [] {
      assert (s + [x])[1..] == s[1..] + [x];
      if s[0] != x {
        SubsequenceSingleton(s[1..], x);
      }
    }
  }

  /** The elements of `s` satisfying `p`, in order (`Array.filter`). */
  function Filter<T(==,!new)>(p: T -> bool, s: seq<T>): (r: seq<T>)
    ensures forall x :: x in r <==> x in s && p(x)
    ensures r == [] <==> forall x :: x in s ==> !p(x)
    ensures IsSubsequence(r, s)
    ensures |r| <= |s|
  {
    if s == [] then []
    else
      var rest := Filter(p, s[1..]);
      assert forall x :: x in s <==> x == s[0] || x in s[1..];
      if p(s[0]) then
        assert ([s[0]] + rest)[1..] == rest;
        [s[0]] + rest
      else
        assert rest == [] || rest[0] != s[0];
        rest
  }

  /** The defined results of `f` over `s`, in order: a `map` followed by a `filter`. */
  function FilterMap<A, B>(f: A -> Option<B>, s: seq<A>): (r: seq<B>)
    ensures |r| <= |s|
  {
    if s == [] then []
    else (if f(s[0]).Some? then [f(s[0]).value] else []) + FilterMap(f, s[1..])
  }

  lemma {:induction false} FilterMapConcat<A, B>(f: A -> Option<B>, s: seq<A>, t: seq<A>)
    ensures FilterMap(f, s + t) == FilterMap(f, s) + FilterMap(f, t)
  {
    if s == [] {
      assert s + t == t;
    } else {
      var st := s + t;
      assert st[0] == s[0];
      assert st[1..] == s[1..] + t;
      var h := if f(s[0]).Some? then [f(s[0]).value] else [];
      assert FilterMap(f, st) == h + FilterMap(f, s[1..] + t);
      FilterMapConcat(f, s[1..], t);
      assert FilterMap(f, s) == h + FilterMap(f, s[1..]);
    }
  }

  lemma {:induction false} FilterMapMembership<A, B>(f: A -> Option<B>, s: seq<A>, x: B)
    ensures x in FilterMap(f, s) <==> exists a :: a in s && f(a) == Some(x)
  {
    if s != [] {
      FilterMapMembership(f, s[1..], x);
      if exists a :: a in s && f(a) == Some(x) {
        var a :| a in s && f(a) == Some(x);
        if a != s[0] {
          assert a in s[1..];
        }
      }
      if exists a :: a in s[1..] && f(a) == Some(x) {
        var a :| a in s[1..] && f(a) == Some(x);
        assert a in s;
      }
    }
  }

  lemma {:induction false} SubsequenceMember<T>(t: seq<T>, s: seq<T>, x: T)
    requires IsSubsequence(t, s) && x in t
    ensures x in s
    decreases |s|
  {
    if t[0] == s[0] {
      if x != t[0] {
        assert x in t[1..];
        SubsequenceMember(t[1..], s[1..], x);
      }
    } else {
      SubsequenceMember(t, s[1..], x);
    }
  }

  /** Deleting elements keeps every remaining pair in its original order. */
  lemma {:induction false} SubsequenceKeepsOrder<T>(t: seq<T>, s: seq<T>, lt: (T, T) -> bool)
    requires IsSubsequence(t, s)
    requires forall i, j :: 0 <= i < j < |s| ==> lt(s[i], s[j])
    ensures forall i, j :: 0 <= i < j < |t| ==> lt(t[i], t[j])
    decreases |s|
  {
    if t != [] {
      var tail := s[1..];
      assert forall i, j :: 0 <= i < j < |tail| ==> lt(tail[i], tail[j]) by {
        forall i, j | 0 <= i < j < |tail|
          ensures lt(tail[i], tail[j])
        {
          assert tail[i] == s[i + 1] && tail[j] == s[j + 1];
        }
      }
      if t[0] == s[0] {
        SubsequenceKeepsOrder(t[1..], tail, lt);
        forall i, j | 0 <= i < j < |t|
          ensures lt(t[i], t[j])
        {
          if i == 0 {
            assert t[j] in t[1..] by {
              assert t[1..][j - 1] == t[j];
            }
            SubsequenceMember(t[1..], tail, t[j]);
            var k :| 0 <= k < |tail| && tail[k] == t[j];
            assert s[k + 1] == t[j];
          } else {
            assert t[1..][i - 1] == t[i] && t[1..][j - 1] == t[j];
          }
        }
      } else {
        SubsequenceKeepsOrder(t, tail, lt);
      }
    }
  }

  /** A fixed prefix and suffix determine the infix between them. */
  lemma InfixInjective<T>(prefix: seq<T>, a: seq<T>, b: seq<T>, suffix: seq<T>)
    requires prefix + a + suffix == prefix + b + suffix
    ensures a == b
  {
    var l := prefix + a + suffix;
    assert |a| == |b|;
    assert l[|prefix|..|prefix| + |a|] == a;
    assert (prefix + b + suffix)[|prefix|..|prefix| + |b|] == b;
  }

  lemma DropPrefix<T>(prefix: seq<T>, rest: seq<T>)
    ensures (prefix + rest)[|prefix|..] == rest
    ensures forall i :: 0 <= i < |prefix| ==> (prefix + rest)[i] == prefix[i]
  {
  }

  lemma MultisetCons<T>(s: seq<T>)
    requires s != []
    ensures multiset(s) == multiset([s[0]]) + multiset(s[1..])
  {
    assert s == [s[0]] + s[1..];
  }

  /** Dropping the first element of a concatenation whose left part is non-empty. */
  lemma TailOfConcat<T>(a: seq<T>, b: seq<T>)
    requires a != []
    ensures (a + b)[0] == a[0] && (a + b)[1..] == a[1..] + b
  {
  }

  lemma ConcatAssoc<T>(a: seq<T>, b: seq<T>, c: seq<T>)
    ensures a + (b + c) == (a + b) + c
  {
  }

  /** A non-empty sequence is its first element, the next `n` elements and the remainder. */
  lemma FirstThenSplit<T>(s: seq<T>, n: nat)
    requires 1 + n <= |s|
    ensures [s[0]] + s[1..1 + n] + s[1 + n..] == s
  {
    assert s == [s[0]] + s[1..];
    assert s[1..] == s[1..1 + n] + s[1 + n..];
  }
}
