/** Array.prototype.filter and Array.prototype.sort, as the model uses them.
    sort is stable (ECMAScript 2019 and later) and is given a comparator; here
    the comparator is the relation le(a, b) = "compare(a, b) <= 0", and the sort
    is the insertion sort with that relation, whose properties are proved below. */
module Sequences {

  /** Array.prototype.filter. */
  function Filter<T>(s: seq<T>, p: T -> bool): (r: seq<T>)
    ensures |r| <= |s|
    ensures forall i :: 0 <= i < |r| ==> r[i] in s && p(r[i])
    ensures forall i :: 0 <= i < |s| && p(s[i]) ==> s[i] in r
  {
    if s == [] then [] else (if p(s[0]) then [s[0]] else []) + Filter(s[1..], p)
  }

  /** Array.prototype.map with a function of the element alone. */
  function Map<A, B>(s: seq<A>, f: A -> B): (r: seq<B>)
    ensures |r| == |s| && forall i :: 0 <= i < |s| ==> r[i] == f(s[i])
  {
    if s == [] then [] else [f(s[0])] + Map(s[1..], f)
  }

  /** What survives a filter of a map is the image of some element, and every
      image that passes the filter survives it. */
  lemma FilterOfMap<A, B>(s: seq<A>, f: A -> B, p: B -> bool)
    ensures forall y :: y in Filter(Map(s, f), p) ==> exists k :: 0 <= k < |s| && y == f(s[k])
    ensures forall k :: 0 <= k < |s| && p(f(s[k])) ==> f(s[k]) in Filter(Map(s, f), p)
  {
    var m := Map(s, f);
    forall k | 0 <= k < |s| && p(f(s[k])) ensures f(s[k]) in Filter(m, p) {
      assert m[k] == f(s[k]);
    }
  }

  lemma ConcatAssociative<T>(a: seq<T>, b: seq<T>, c: seq<T>)
    ensures (a + b) + c == a + (b + c)
  {
  }

  /** A prefix of a prefix is a prefix. */
  lemma PrefixOfPrefix<T>(a: seq<T>, b: seq<T>, c: seq<T>)
    requires |a| <= |b| <= |c| && b[..|a|] == a && c[..|b|] == b
    ensures c[..|a|] == a
  {
    assert c[..|a|] == c[..|b|][..|a|];
  }

  lemma {:induction false} FilterConcat<T>(a: seq<T>, b: seq<T>, p: T -> bool)
    ensures Filter(a + b, p) == Filter(a, p) + Filter(b, p)
  {
    if a != [] {
      assert (a + b)[1..] == a[1..] + b;
      FilterConcat(a[1..], b, p);
    } else {
      assert a + b == b;
    }
  }

  /** Filtering keeps every element when every element passes. */
  lemma {:induction false} FilterAll<T>(s: seq<T>, p: T -> bool)
    requires forall i :: 0 <= i < |s| ==> p(s[i])
    ensures Filter(s, p) == s
  {
    if s != [] {
      FilterAll(s[1..], p);
    }
  }

  /** The number of elements of s that satisfy p. */
  function Count<T>(s: seq<T>, p: T -> bool): (n: nat)
    ensures n <= |s|
  {
    if s == [] then 0 else (if p(s[0]) then 1 else 0) + Count(s[1..], p)
  }

  lemma {:induction false} CountIsFilterLength<T>(s: seq<T>, p: T -> bool)
    ensures Count(s, p) == |Filter(s, p)|
  {
    if s != [] {
      CountIsFilterLength(s[1..], p);
    }
  }

  lemma {:induction false} CountConcat<T>(a: seq<T>, b: seq<T>, p: T -> bool)
    ensures Count(a + b, p) == Count(a, p) + Count(b, p)
  {
    if a != [] {
      assert (a + b)[1..] == a[1..] + b;
      CountConcat(a[1..], b, p);
    } else {
      assert a + b == b;
    }
  }

  /** le is total and transitive on the elements of dom: a comparator that
      sorts those elements consistently. */
  ghost predicate PreorderOn<T>(le: (T, T) -> bool, dom: seq<T>)
  {
    && (forall x, y :: x in dom && y in dom ==> le(x, y) || le(y, x))
    && (forall x, y, z :: x in dom && y in dom && z in dom && le(x, y) && le(y, z) ==> le(x, z))
  }

  /** Every earlier element is at most every later one. */
  ghost predicate SortedBy<T>(s: seq<T>, le: (T, T) -> bool)
  {
    forall i, j :: 0 <= i < j < |s| ==> le(s[i], s[j])
  }

  /** In a sorted list, an element missing from the first n comes after each of them. */
  lemma SortedPastPrefix<T>(s: seq<T>, le: (T, T) -> bool, n: nat, a: T)
    requires SortedBy(s, le)
    requires n <= |s| && a in s && a !in s[..n]
    ensures forall i :: 0 <= i < n ==> le(s[i], a)
  {
    var m :| 0 <= m < |s| && s[m] == a;
    assert m >= n;
  }

  /** Insert x before the first element it does not exceed. */
  function Insert<T>(x: T, s: seq<T>, le: (T, T) -> bool): (r: seq<T>)
    ensures multiset(r) == multiset(s) + multiset{x}
    ensures |r| == |s| + 1
  {
    if s == [] || le(x, s[0]) then [x] + s
    else
      assert s == [s[0]] + s[1..];
      [s[0]] + Insert(x, s[1..], le)
  }

  /** Stable sort with comparator le. */
  function SortBy<T>(s: seq<T>, le: (T, T) -> bool): (r: seq<T>)
    ensures multiset(r) == multiset(s)
    ensures |r| == |s|
  {
    if s == [] then []
    else
      assert s == [s[0]] + s[1..];
      Insert(s[0], SortBy(s[1..], le), le)
  }

  lemma {:induction false} InsertSorted<T>(x: T, s: seq<T>, le: (T, T) -> bool, dom: seq<T>)
    requires PreorderOn(le, dom)
    requires x in dom && forall y :: y in s ==> y in dom
    requires SortedBy(s, le)
    ensures SortedBy(Insert(x, s, le), le)
  {
    if s == [] || le(x, s[0]) {
      var r := [x] + s;
      forall i, j | 0 <= i < j < |r| ensures le(r[i], r[j]) {
        if i == 0 && j > 1 {
          assert s[0] in dom && s[j - 1] in dom;
          assert le(s[0], s[j - 1]);
        }
      }
    } else {
      assert s[0] in dom;
      assert le(s[0], x);
      var t := Insert(x, s[1..], le);
      InsertSorted(x, s[1..], le, dom);
      var r := [s[0]] + t;
      forall i, j | 0 <= i < j < |r| ensures le(r[i], r[j]) {
        if i == 0 {
          assert r[j] in multiset(t);
          assert r[j] == x || r[j] in s[1..];
        }
      }
    }
  }

  /** SortBy puts its input in order whenever the comparator orders the
      input's elements consistently. */
  lemma {:induction false} SortBySorted<T>(s: seq<T>, le: (T, T) -> bool)
    requires PreorderOn(le, s)
    ensures SortedBy(SortBy(s, le), le)
  {
    SortBySortedIn(s, le, s);
  }

  lemma {:induction false} SortBySortedIn<T>(s: seq<T>, le: (T, T) -> bool, dom: seq<T>)
    requires PreorderOn(le, dom)
    requires forall y :: y in s ==> y in dom
    ensures SortedBy(SortBy(s, le), le)
  {
    if s != [] {
      SortBySortedIn(s[1..], le, dom);
      var t := SortBy(s[1..], le);
      forall y | y in t ensures y in dom {
        assert y in multiset(s[1..]);
      }
      InsertSorted(s[0], t, le, dom);
    }
  }

  /** An input already in order comes back unchanged: sort only moves an
      element when the comparator says it belongs earlier. */
  lemma {:induction false} SortByOfSorted<T>(s: seq<T>, le: (T, T) -> bool)
    requires forall i :: 0 <= i < |s| - 1 ==> le(s[i], s[i + 1])
    ensures SortBy(s, le) == s
  {
    if s != [] {
      SortByOfSorted(s[1..], le);
      assert s == [s[0]] + s[1..];
    }
  }

  /** The elements of s that compare equal to k. */
  function Ties<T>(s: seq<T>, le: (T, T) -> bool, k: T): (r: seq<T>)
  {
    if s == [] then []
    else (if le(s[0], k) && le(k, s[0]) then [s[0]] else []) + Ties(s[1..], le, k)
  }

  lemma {:induction false} TiesInsert<T>(x: T, s: seq<T>, le: (T, T) -> bool, k: T, dom: seq<T>)
    requires PreorderOn(le, dom)
    requires x in dom && k in dom && forall y :: y in s ==> y in dom
    requires SortedBy(s, le)
    ensures Ties(Insert(x, s, le), le, k) ==
      (if le(x, k) && le(k, x) then [x] else []) + Ties(s, le, k)
  {
    if s == [] || le(x, s[0]) {
    } else {
      var s0, rest := s[0], s[1..];
      assert s == [s0] + rest;
      assert s0 in dom && forall y :: y in rest ==> y in dom;
      assert SortedBy(rest, le) by {
        forall i, j | 0 <= i < j < |rest| ensures le(rest[i], rest[j]) {
          assert rest[i] == s[i + 1] && rest[j] == s[j + 1];
        }
      }
      TiesInsert(x, rest, le, k, dom);
      var tx := if le(x, k) && le(k, x) then [x] else [];
      var t0 := if le(s0, k) && le(k, s0) then [s0] else [];
      var ins := Insert(x, rest, le);
      assert ([s0] + ins)[1..] == ins;
      assert Ties([s0] + ins, le, k) == t0 + Ties(ins, le, k);
      assert le(x, k) && le(k, s0) ==> le(x, s0);
      assert tx == [] || t0 == [];
      assert t0 + tx == tx + t0;
      assert Ties(s, le, k) == t0 + Ties(rest, le, k);
    }
  }

  /** Stability: elements that compare equal keep their relative input order. */
  lemma {:induction false} SortByStable<T>(s: seq<T>, le: (T, T) -> bool, k: T)
    requires PreorderOn(le, s) && k in s
    ensures Ties(SortBy(s, le), le, k) == Ties(s, le, k)
  {
    SortByStableIn(s, le, k, s);
  }

  lemma {:induction false} SortByStableIn<T>(s: seq<T>, le: (T, T) -> bool, k: T, dom: seq<T>)
    requires PreorderOn(le, dom)
    requires k in dom && forall y :: y in s ==> y in dom
    ensures Ties(SortBy(s, le), le, k) == Ties(s, le, k)
  {
    if s != [] {
      SortByStableIn(s[1..], le, k, dom);
      var t := SortBy(s[1..], le);
      forall y | y in t ensures y in dom {
        assert y in multiset(s[1..]);
      }
      SortBySortedIn(s[1..], le, dom);
      TiesInsert(s[0], t, le, k, dom);
    }
  }

  /** No two positions of s share a key. */
  ghost predicate DistinctBy<T, K>(s: seq<T>, key: T -> K)
  {
    forall i, j :: 0 <= i < j < |s| ==> key(s[i]) != key(s[j])
  }

  lemma {:induction false} InsertDistinct<T, K>(x: T, s: seq<T>, le: (T, T) -> bool, key: T -> K)
    requires DistinctBy(s, key)
    requires forall i :: 0 <= i < |s| ==> key(s[i]) != key(x)
    ensures DistinctBy(Insert(x, s, le), key)
  {
    if s != [] && !le(x, s[0]) {
      InsertDistinct(x, s[1..], le, key);
      var t := Insert(x, s[1..], le);
      var r := [s[0]] + t;
      forall i, j | 0 <= i < j < |r| ensures key(r[i]) != key(r[j]) {
        if i == 0 {
          assert r[j] in multiset(t);
          if r[j] != x {
            assert r[j] in s[1..];
            var m :| 0 <= m < |s[1..]| && s[1..][m] == r[j];
            assert s[m + 1] == r[j];
          }
        }
      }
    }
  }

  /** Sorting keeps keys distinct: it only reorders. */
  lemma {:induction false} SortByDistinct<T, K>(s: seq<T>, le: (T, T) -> bool, key: T -> K)
    requires DistinctBy(s, key)
    ensures DistinctBy(SortBy(s, le), key)
  {
    if s != [] {
      assert DistinctBy(s[1..], key);
      SortByDistinct(s[1..], le, key);
      var t := SortBy(s[1..], le);
      forall i | 0 <= i < |t| ensures key(t[i]) != key(s[0]) {
        assert t[i] in multiset(s[1..]);
        var m :| 0 <= m < |s[1..]| && s[1..][m] == t[i];
        assert s[m + 1] == t[i];
      }
      InsertDistinct(s[0], t, le, key);
    }
  }

  /** The concatenation of a list of lists. */
  function Flatten<T>(rows: seq<seq<T>>): (r: seq<T>)
  {
    if rows == [] then [] else Flatten(rows[..|rows| - 1]) + rows[|rows| - 1]
  }

  /** Sorting an array in place: afterwards it holds the stable sort of what
      it held before. */
  method SortInPlace<T>(a: array<T>, le: (T, T) -> bool)
    modifies a
    ensures a[..] == SortBy(old(a[..]), le)
  {
    var sorted := SortBy(a[..], le);
    var i := 0;
    while i < a.Length
      invariant 0 <= i <= a.Length
      invariant forall k :: 0 <= k < i ==> a[k] == sorted[k]
    {
      a[i] := sorted[i];
      i := i + 1;
    }
  }
}
