/** The .NET base class library calls that the extensions are built from:
    the LINQ operators `Where`, `Single`, `SingleOrDefault`, `Min`, `Max`,
    `Select`, `Distinct`, `Join` and `Contains`, `String.Substring` and
    `IReadOnlyDictionary.TryGetValue`. Each is modelled on finite, stable
    sequences, with the documented behaviour of the library. */
module Bcl {
  import opened Wrappers
  import opened Orders

  // ---------------------------------------------------------------------
  // Where

  /** `s.Where(p)`: the elements of `s` that satisfy `p`, in order. */
  function Where<T>(s: seq<T>, p: T -> bool): (r: seq<T>)
    ensures |r| <= |s|
    ensures forall x :: x in r ==> x in s && p(x)
    ensures forall x :: x in s && p(x) ==> x in r
    ensures forall x :: x in s ==> multiset(r)[x] == if p(x) then multiset(s)[x] else 0
  {
    if s == [] then []
    else
      assert s == [s[0]] + s[1..];
      (if p(s[0]) then [s[0]] else []) + Where(s[1..], p)
  }

  /** `Where` keeps the order of its input: it distributes over concatenation. */
  lemma {:induction false} WhereConcat<T>(a: seq<T>, b: seq<T>, p: T -> bool)
    ensures Where(a + b, p) == Where(a, p) + Where(b, p)
  {
    if a == [] {
      assert a + b == b;
    } else {
      assert (a + b)[0] == a[0];
      assert (a + b)[1..] == a[1..] + b;
      WhereConcat(a[1..], b, p);
    }
  }

  // ---------------------------------------------------------------------
  // How many elements match a predicate: none, exactly one, or two or more

  ghost predicate NoneMatch<T>(s: seq<T>, p: T -> bool) {
    forall i :: 0 <= i < |s| ==> !p(s[i])
  }

  /** `s[i]` is the one and only element of `s` that satisfies `p`. */
  ghost predicate OnlyMatchAt<T>(s: seq<T>, p: T -> bool, i: int) {
    && 0 <= i < |s|
    && p(s[i])
    && forall j :: 0 <= j < |s| && j != i ==> !p(s[j])
  }

  /** Two distinct positions of `s` satisfy `p`. */
  ghost predicate TwoMatch<T>(s: seq<T>, p: T -> bool) {
    exists i, j :: 0 <= i < j < |s| && p(s[i]) && p(s[j])
  }

  lemma WhereEmpty<T>(s: seq<T>, p: T -> bool)
    ensures |Where(s, p)| == 0 <==> NoneMatch(s, p)
  {
    if |Where(s, p)| != 0 {
      assert Where(s, p)[0] in Where(s, p);
    }
    if !NoneMatch(s, p) {
      var i :| 0 <= i < |s| && p(s[i]);
      assert s[i] in Where(s, p);
    }
  }

  lemma {:induction false} WhereMany<T>(s: seq<T>, p: T -> bool)
    ensures |Where(s, p)| >= 2 <==> TwoMatch(s, p)
  {
    if s != [] {
      var t := s[1..];
      assert forall i :: 1 <= i < |s| ==> s[i] == t[i - 1];
      WhereMany(t, p);
      if p(s[0]) {
        assert |Where(s, p)| == 1 + |Where(t, p)|;
        WhereEmpty(t, p);
        TwoMatchWithHead(s, p);
      } else {
        assert |Where(s, p)| == |Where(t, p)|;
        TwoMatchWithoutHead(s, p);
      }
    }
  }

  lemma TwoMatchWithHead<T>(s: seq<T>, p: T -> bool)
    requires s != [] && p(s[0])
    ensures TwoMatch(s, p) <==> !NoneMatch(s[1..], p)
  {
    var t := s[1..];
    if !NoneMatch(t, p) {
      var j :| 0 <= j < |t| && p(t[j]);
      assert s[j + 1] == t[j];
    }
    if TwoMatch(s, p) {
      var i, j :| 0 <= i < j < |s| && p(s[i]) && p(s[j]);
      assert t[j - 1] == s[j];
    }
  }

  lemma TwoMatchWithoutHead<T>(s: seq<T>, p: T -> bool)
    requires s != [] && !p(s[0])
    ensures TwoMatch(s, p) <==> TwoMatch(s[1..], p)
  {
    var t := s[1..];
    if TwoMatch(t, p) {
      var i, j :| 0 <= i < j < |t| && p(t[i]) && p(t[j]);
      assert s[i + 1] == t[i] && s[j + 1] == t[j];
    }
    if TwoMatch(s, p) {
      var i, j :| 0 <= i < j < |s| && p(s[i]) && p(s[j]);
      assert t[i - 1] == s[i] && t[j - 1] == s[j];
    }
  }

  lemma {:induction false} WhereOne<T>(s: seq<T>, p: T -> bool)
    requires |Where(s, p)| == 1
    ensures exists i :: OnlyMatchAt(s, p, i) && Where(s, p)[0] == s[i]
  {
    var t := s[1..];
    if p(s[0]) {
      WhereEmpty(t, p);
      assert OnlyMatchAt(s, p, 0) by {
        forall j | 0 < j < |s| ensures !p(s[j]) { assert s[j] == t[j - 1]; }
      }
    } else {
      WhereOne(t, p);
      var i :| OnlyMatchAt(t, p, i) && Where(t, p)[0] == t[i];
      assert OnlyMatchAt(s, p, i + 1) by {
        forall j | 0 < j < |s| && j != i + 1 ensures !p(s[j]) { assert s[j] == t[j - 1]; }
      }
    }
  }

  /** Every sequence has no match, exactly one match, or two matches. */
  lemma MatchCases<T>(s: seq<T>, p: T -> bool)
    ensures NoneMatch(s, p) || TwoMatch(s, p) || exists i :: OnlyMatchAt(s, p, i)
  {
    WhereEmpty(s, p);
    WhereMany(s, p);
    if |Where(s, p)| == 1 {
      WhereOne(s, p);
    }
  }

  // ---------------------------------------------------------------------
  // Single and SingleOrDefault

  /** `s.Single(p)`: the one element satisfying `p`; throws when there is
      none or more than one. */
  function Single<T>(s: seq<T>, p: T -> bool): (r: Result<T>)
    ensures NoneMatch(s, p) ==> r == Err(NoMatch)
    ensures TwoMatch(s, p) ==> r == Err(MoreThanOneMatch)
    ensures forall i :: OnlyMatchAt(s, p, i) ==> r == Ok(s[i])
  {
    var w := Where(s, p);
    WhereEmpty(s, p);
    WhereMany(s, p);
    if |w| == 0 then Err(NoMatch)
    else if |w| == 1 then WhereOne(s, p); Ok(w[0])
    else Err(MoreThanOneMatch)
  }

  /** `s.SingleOrDefault(p)` with `dflt` standing for `default(T)`: the one
      element satisfying `p`, `dflt` when there is none; throws when there is
      more than one. */
  function SingleOrDefault<T>(s: seq<T>, p: T -> bool, dflt: T): (r: Result<T>)
    ensures NoneMatch(s, p) ==> r == Ok(dflt)
    ensures TwoMatch(s, p) ==> r == Err(MoreThanOneMatch)
    ensures forall i :: OnlyMatchAt(s, p, i) ==> r == Ok(s[i])
  {
    var w := Where(s, p);
    WhereEmpty(s, p);
    WhereMany(s, p);
    if |w| == 0 then Ok(dflt)
    else if |w| == 1 then WhereOne(s, p); Ok(w[0])
    else Err(MoreThanOneMatch)
  }

  // ---------------------------------------------------------------------
  // Min and Max over a projected key

  /** `k` is a key of some element of `s` and no key of `s` is below it. */
  ghost predicate Least<T, K(!new)>(s: seq<T>, selector: T -> K, le: (K, K) -> bool, k: K) {
    && (exists i :: 0 <= i < |s| && selector(s[i]) == k)
    && forall i :: 0 <= i < |s| ==> le(k, selector(s[i]))
  }

  /** Under a total order a sequence has at most one least key. */
  lemma LeastIsUnique<T, K(!new)>(s: seq<T>, selector: T -> K, le: (K, K) -> bool, k1: K, k2: K)
    requires TotalOrder(le)
    requires Least(s, selector, le, k1) && Least(s, selector, le, k2)
    ensures k1 == k2
  {
    var i :| 0 <= i < |s| && selector(s[i]) == k1;
    var j :| 0 <= j < |s| && selector(s[j]) == k2;
    assert le(k1, k2) && le(k2, k1);
  }

  /** The loop of `Enumerable.Min`: `acc` is replaced by each key strictly
      below it. */
  function MinFrom<T, K(!new)>(s: seq<T>, selector: T -> K, le: (K, K) -> bool, acc: K): (m: K)
    requires TotalOrder(le)
    ensures m == acc || exists i :: 0 <= i < |s| && selector(s[i]) == m
    ensures le(m, acc) && forall i :: 0 <= i < |s| ==> le(m, selector(s[i]))
    decreases |s|
  {
    if s == [] then acc
    else
      var m := MinFrom(s[1..], selector, le, if le(acc, selector(s[0])) then acc else selector(s[0]));
      assert forall i :: 1 <= i < |s| ==> s[i] == s[1..][i - 1];
      m
  }

  /** `s.Min(selector)`: the least key; throws on an empty sequence. */
  function Min<T, K(!new)>(s: seq<T>, selector: T -> K, le: (K, K) -> bool): (r: Result<K>)
    requires TotalOrder(le)
    ensures s == [] <==> r == Err(NoElements)
    ensures s != [] ==> r.Ok? && Least(s, selector, le, r.value)
  {
    if s == [] then Err(NoElements)
    else
      var m := MinFrom(s[1..], selector, le, selector(s[0]));
      assert forall i :: 1 <= i < |s| ==> s[i] == s[1..][i - 1];
      Ok(m)
  }

  /** `s.Max(selector)`: the greatest key, which is the least one under the
      converse order; `Enumerable.Max` replaces its accumulator by each key
      strictly above it, which is `MinFrom` under `Converse(le)`. */
  function Max<T, K(!new)>(s: seq<T>, selector: T -> K, le: (K, K) -> bool): (r: Result<K>)
    requires TotalOrder(le)
    ensures s == [] <==> r == Err(NoElements)
    ensures s != [] ==> r.Ok? && Least(s, selector, Converse(le), r.value)
    ensures r.Ok? ==> forall i :: 0 <= i < |s| ==> le(selector(s[i]), r.value)
  {
    ConverseIsTotalOrder(le);
    Min(s, selector, Converse(le))
  }

  // ---------------------------------------------------------------------
  // Select and Distinct

  /** `s.Select(f)`. */
  function Select<T, U>(s: seq<T>, f: T -> U): (r: seq<U>)
    ensures |r| == |s| && forall i :: 0 <= i < |s| ==> r[i] == f(s[i])
    ensures forall x :: x in s ==> f(x) in r
    ensures forall y :: y in r ==> exists x :: x in s && f(x) == y
  {
    if s == [] then []
    else
      assert forall i :: 1 <= i < |s| ==> s[i] == s[1..][i - 1];
      [f(s[0])] + Select(s[1..], f)
  }

  ghost predicate NoDuplicates<T>(s: seq<T>) {
    forall i, j :: 0 <= i < j < |s| ==> s[i] != s[j]
  }

  /** The position of the first occurrence of `x` in `s`. */
  function FirstIndex<T(==)>(s: seq<T>, x: T): (i: nat)
    requires x in s
    ensures i < |s| && s[i] == x && forall j :: 0 <= j < i ==> s[j] != x
  {
    if s[0] == x then 0 else 1 + FirstIndex(s[1..], x)
  }

  /** The loop of `Enumerable.Distinct`: each element is yielded when it is
      added to the set `seen` of those already yielded. */
  function DistinctFrom<T(==)>(s: seq<T>, seen: set<T>): (r: seq<T>)
    ensures NoDuplicates(r)
    ensures forall x :: x in r ==> x in s && x !in seen
    ensures forall x :: x in s && x !in seen ==> x in r
    ensures forall i, j :: 0 <= i < j < |r| ==> FirstIndex(s, r[i]) < FirstIndex(s, r[j])
  {
    if s == [] then []
    else if s[0] in seen then DistinctFrom(s[1..], seen)
    else [s[0]] + DistinctFrom(s[1..], seen + {s[0]})
  }

  /** `s.Distinct()`: the distinct elements of `s` in order of first occurrence. */
  function Distinct<T(==)>(s: seq<T>): (r: seq<T>)
    ensures NoDuplicates(r)
    ensures forall x :: x in r ==> x in s
    ensures forall x :: x in s ==> x in r
    ensures forall i, j :: 0 <= i < j < |r| ==> FirstIndex(s, r[i]) < FirstIndex(s, r[j])
  {
    DistinctFrom(s, {})
  }

  // ---------------------------------------------------------------------
  // Join

  /** The lookup group of `inner` for the key `k`, in `inner` order, each
      element combined with `o` by `result`. */
  function Matching<O, I, K(==), R>(o: O, inner: seq<I>, k: K, innerKey: I -> K, result: (O, I) -> R): (r: seq<R>)
    ensures |r| <= |inner|
  {
    if inner == [] then []
    else (if innerKey(inner[0]) == k then [result(o, inner[0])] else [])
         + Matching(o, inner[1..], k, innerKey, result)
  }

  /** `outer.Join(inner, outerKey, innerKey, result)`: for each outer element
      in order, one result per inner element with an equal key, in inner order. */
  function Join<O, I, K(==), R>(outer: seq<O>, inner: seq<I>, outerKey: O -> K, innerKey: I -> K,
                               result: (O, I) -> R): (r: seq<R>)
    ensures inner == [] ==> r == []
  {
    if outer == [] then []
    else Matching(outer[0], inner, outerKey(outer[0]), innerKey, result)
         + Join(outer[1..], inner, outerKey, innerKey, result)
  }

  /** A lookup group is the inner elements with key `k`, each combined with
      `o`: a `Where` followed by a `Select`. */
  lemma {:induction false} MatchingIsSelectWhere<O, I, K, R>(o: O, inner: seq<I>, k: K, innerKey: I -> K,
                                                          result: (O, I) -> R)
    ensures Matching(o, inner, k, innerKey, result) == Select(Where(inner, y => innerKey(y) == k), y => result(o, y))
  {
    if inner != [] {
      MatchingIsSelectWhere(o, inner[1..], k, innerKey, result);
    }
  }

  /** The members of a lookup group: exactly the results for inner elements
      whose key is `k`. */
  lemma {:induction false} MatchingMembers<O, I, K, R>(o: O, inner: seq<I>, k: K, innerKey: I -> K,
                                                    result: (O, I) -> R)
    ensures forall y :: y in Matching(o, inner, k, innerKey, result) <==>
              exists j :: 0 <= j < |inner| && innerKey(inner[j]) == k && y == result(o, inner[j])
  {
    if inner != [] {
      MatchingMembers(o, inner[1..], k, innerKey, result);
      assert forall j :: 1 <= j < |inner| ==> inner[j] == inner[1..][j - 1];
    }
  }

  /** The members of a join: exactly the results for pairs of an outer and an
      inner element with equal keys. */
  lemma {:induction false} JoinMembers<O, I, K, R>(outer: seq<O>, inner: seq<I>, outerKey: O -> K,
                                                innerKey: I -> K, result: (O, I) -> R)
    ensures forall y :: y in Join(outer, inner, outerKey, innerKey, result) <==>
              exists i, j :: 0 <= i < |outer| && 0 <= j < |inner| &&
                outerKey(outer[i]) == innerKey(inner[j]) && y == result(outer[i], inner[j])
  {
    if outer != [] {
      MatchingMembers(outer[0], inner, outerKey(outer[0]), innerKey, result);
      JoinMembers(outer[1..], inner, outerKey, innerKey, result);
      assert forall i :: 1 <= i < |outer| ==> outer[i] == outer[1..][i - 1];
    }
  }

  /** `Join` keeps the order of `outer`: it distributes over concatenation. */
  lemma {:induction false} JoinConcat<O, I, K, R>(a: seq<O>, b: seq<O>, inner: seq<I>, outerKey: O -> K,
                                                  innerKey: I -> K, result: (O, I) -> R)
    ensures Join(a + b, inner, outerKey, innerKey, result)
            == Join(a, inner, outerKey, innerKey, result) + Join(b, inner, outerKey, innerKey, result)
  {
    if a == [] {
      assert a + b == b;
    } else {
      assert (a + b)[0] == a[0];
      assert (a + b)[1..] == a[1..] + b;
      JoinConcat(a[1..], b, inner, outerKey, innerKey, result);
    }
  }

  // ---------------------------------------------------------------------
  // Contains, Substring, TryGetValue

  /** `array.Contains(x)`. */
  function Contains<T(==)>(s: seq<T>, x: T): (b: bool)
    ensures b <==> exists i :: 0 <= i < |s| && s[i] == x
  {
    s != [] && (s[0] == x || (assert forall i :: 1 <= i < |s| ==> s[i] == s[1..][i - 1]; Contains(s[1..], x)))
  }

  /** `s.Substring(start, length)`: throws `ArgumentOutOfRangeException`
      unless `0 <= start`, `0 <= length` and `start + length <= |s|`. */
  function Substring(s: string, start: int, length: int): (r: Result<string>)
    ensures r.Ok? <==> 0 <= start && 0 <= length && start + length <= |s|
    ensures r.Err? ==> r.error == ArgumentOutOfRange
    ensures r.Ok? ==> |r.value| == length && forall i :: 0 <= i < length ==> r.value[i] == s[start + i]
  {
    if 0 <= start && 0 <= length && start + length <= |s| then Ok(s[start..start + length])
    else Err(ArgumentOutOfRange)
  }

  /** `m.TryGetValue(key, out v)`: `Some(v)` exactly when `key` is mapped. */
  function TryGetValue<K, V>(m: map<K, V>, key: K): (r: Option<V>)
    ensures r.Some? <==> key in m
    ensures r.Some? ==> r.value == m[key]
  {
    if key in m then Some(m[key]) else None
  }
}
