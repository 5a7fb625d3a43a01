/** Concrete calls of the combinators, worked out by the verifier. */
module ExtensionExamples {
  import opened Wrappers
  import opened Orders
  import opened Bcl
  import opened Extensions

  function IntLe(a: int, b: int): bool { a <= b }

  lemma IntLeIsTotalOrder()
    ensures TotalOrder(IntLe)
  {
  }

  /** In `[3, 1, 2, 1]` the least key is 1. */
  lemma LeastOfExample()
    ensures TotalOrder(IntLe)
    ensures Least([3, 1, 2, 1], Identity, IntLe, 1)
    ensures forall k :: Least([3, 1, 2, 1], Identity, IntLe, k) ==> k == 1
  {
    IntLeIsTotalOrder();
    var s := [3, 1, 2, 1];
    assert Least(s, Identity, IntLe, 1) by { assert Identity(s[1]) == 1; }
    forall k | Least(s, Identity, IntLe, k) ensures k == 1 {
      LeastIsUnique(s, Identity, IntLe, 1, k);
    }
  }

  /** A head that satisfies `p` is kept in front of the rest. */
  lemma WhereKeep<T>(x: T, s: seq<T>, p: T -> bool, rest: seq<T>)
    requires p(x) && Where(s, p) == rest
    ensures Where([x] + s, p) == [x] + rest
  {
    assert ([x] + s)[1..] == s;
  }

  /** A head that fails `p` is dropped. */
  lemma WhereDrop<T>(x: T, s: seq<T>, p: T -> bool, rest: seq<T>)
    requires !p(x) && Where(s, p) == rest
    ensures Where([x] + s, p) == rest
  {
    assert ([x] + s)[1..] == s;
  }

  /** Filtering `[3, 1, 2, 1]` by key 1 keeps both ones. */
  lemma WhereKeyExample()
    ensures Where([3, 1, 2, 1], KeyIs(Identity, 1)) == [1, 1]
  {
    var p: int -> bool := KeyIs(Identity, 1);
    assert Identity(3) == 3 && Identity(1) == 1 && Identity(2) == 2;
    assert !p(3) && p(1) && !p(2);
    var s0: seq<int> := [];
    assert [3, 1, 2, 1] == [3] + ([1] + ([2] + ([1] + s0)));
    assert [1, 1] == [1] + ([1] + s0);
    WhereKeep(1, s0, p, s0);
    WhereDrop(2, [1] + s0, p, [1] + s0);
    WhereKeep(1, [2] + ([1] + s0), p, [1] + s0);
    WhereDrop(3, [1] + ([2] + ([1] + s0)), p, [1] + ([1] + s0));
  }

  /** `[3, 1, 2, 1].WhereWithMin(x => x)` is `[1, 1]`. */
  lemma WhereWithMinExample()
    ensures (IntLeIsTotalOrder(); WhereWithMin([3, 1, 2, 1], Identity, IntLe)) == Ok([1, 1])
  {
    LeastOfExample();
    WhereKeyExample();
    var r := WhereWithMin([3, 1, 2, 1], Identity, IntLe);
    assert Identity(r.value[0]) == 1;
  }

  /** `[3, 1, 2, 1].SingleWithMin(x => x)` throws: 1 occurs twice. */
  lemma SingleWithMinExample()
    ensures (IntLeIsTotalOrder(); SingleWithMin([3, 1, 2, 1], Identity, IntLe)) == Err(MoreThanOneMatch)
  {
    LeastOfExample();
    var s := [3, 1, 2, 1];
    assert Least(s, Identity, IntLe, Identity(s[1])) by { assert Identity(s[1]) == 1; }
    assert Identity(s[1]) == Identity(s[3]);
    assert LeastTie(s, Identity, IntLe);
  }

  /** `Left("hello", 3)` is `"hel"`; `Left("hi", 10)` is `"hi"`; a negative
      length throws unless the string is null. */
  lemma LeftExamples()
    ensures Left(Some("hello"), 3) == Ok(Some("hel"))
    ensures Left(Some("hi"), 10) == Ok(Some("hi"))
    ensures Left(Some("hi"), -1) == Err(ArgumentOutOfRange)
    ensures Left(None, -1) == Ok(None)
  {
    assert "hello"[..3] == "hel";
  }

  /** A missing key yields the fallback, a present one its value. */
  lemma GetOrDefaultExamples()
    ensures GetOrDefault(map["a" := 1], "b", 99) == 99
    ensures GetOrDefault(map["a" := 1], "a", 99) == 1
  {
  }

  /** `Filter` of one element, given how many keys match it. */
  lemma FilterOne<T, K>(x: T, keys: seq<K>, keySelector: T -> K, r: seq<T>)
    requires multiset(keys)[keySelector(x)] == |r|
    requires forall i :: 0 <= i < |r| ==> r[i] == x
    ensures Filter([x], keys, keySelector) == r
  {
    FilterSingleton(x, keys, keySelector);
  }

  /** `Filter` of a three-element sequence, assembled from the filters of
      its elements. */
  lemma FilterOfThree<T, K>(a: T, b: T, c: T, keys: seq<K>, keySelector: T -> K,
                            ra: seq<T>, rb: seq<T>, rc: seq<T>, r: seq<T>)
    requires Filter([a], keys, keySelector) == ra
    requires Filter([b], keys, keySelector) == rb
    requires Filter([c], keys, keySelector) == rc
    requires ra + rb + rc == r
    ensures Filter([a, b, c], keys, keySelector) == r
  {
    assert [a, b, c] == [a] + [b] + [c];
    FilterConcat([a] + [b], [c], keys, keySelector);
    FilterConcat([a], [b], keys, keySelector);
  }

  /** Filtering `[1, 2, 3]` by the keys `[2, 3]` keeps `[2, 3]`. */
  lemma FilterDistinctKeysExample()
    ensures Filter([1, 2, 3], [2, 3], Identity) == [2, 3]
  {
    assert [] + [2] + [3] == [2, 3];
    FilterDistinctKeysParts();
    FilterOfThree(1, 2, 3, [2, 3], Identity, [], [2], [3], [2, 3]);
  }

  /** The filters of the single elements 1, 2 and 3 by the keys `[2, 3]`. */
  lemma FilterDistinctKeysParts()
    ensures Filter([1], [2, 3], Identity) == []
    ensures Filter([2], [2, 3], Identity) == [2]
    ensures Filter([3], [2, 3], Identity) == [3]
  {
    var keys := [2, 3];
    assert Identity(1) == 1 && Identity(2) == 2 && Identity(3) == 3;
    assert multiset(keys)[1] == 0 && multiset(keys)[2] == 1 && multiset(keys)[3] == 1;
    FilterOne(1, keys, Identity, []);
    FilterOne(2, keys, Identity, [2]);
    FilterOne(3, keys, Identity, [3]);
  }

  /** Filtering `[1, 2, 3]` by the keys `[2, 2]` yields 2 twice and drops 1
      and 3. */
  lemma FilterRepeatedKeysExample()
    ensures Filter([1, 2, 3], [2, 2], Identity) == [2, 2]
  {
    assert [] + [2, 2] + [] == [2, 2];
    FilterRepeatedKeysParts();
    FilterOfThree(1, 2, 3, [2, 2], Identity, [], [2, 2], [], [2, 2]);
  }

  /** The filters of the single elements 1, 2 and 3 by the keys `[2, 2]`. */
  lemma FilterRepeatedKeysParts()
    ensures Filter([1], [2, 2], Identity) == []
    ensures Filter([2], [2, 2], Identity) == [2, 2]
    ensures Filter([3], [2, 2], Identity) == []
  {
    var keys := [2, 2];
    assert multiset(keys) == multiset{2, 2};
    assert Identity(1) == 1 && Identity(2) == 2 && Identity(3) == 3;
    assert multiset(keys)[1] == 0 && multiset(keys)[2] == 2 && multiset(keys)[3] == 0;
    FilterOne(1, keys, Identity, []);
    FilterOne(2, keys, Identity, [2, 2]);
    FilterOne(3, keys, Identity, []);
  }

  function Parity(x: int): int { x % 2 }

  /** The parities of `[1, 2, 3, 4]`, each once, in order of first
      occurrence: `[1, 0]`. */
  lemma DistinctParityExample()
    ensures Extensions.Distinct(Some([1, 2, 3, 4]), Parity) == Some([1, 0])
  {
    ParityExample();
    DistinctExample();
  }

  /** `Select` maps the head in front of the mapped rest. */
  lemma SelectCons<T, U>(x: T, s: seq<T>, f: T -> U, rest: seq<U>)
    requires Select(s, f) == rest
    ensures Select([x] + s, f) == [f(x)] + rest
  {
    assert ([x] + s)[1..] == s;
  }

  /** The parities of `[1, 2, 3, 4]`. */
  lemma ParityExample()
    ensures Select([1, 2, 3, 4], Parity) == [1, 0, 1, 0]
  {
    assert Parity(1) == 1 && Parity(2) == 0 && Parity(3) == 1 && Parity(4) == 0;
    var s0: seq<int> := [];
    assert [1, 2, 3, 4] == [1] + ([2] + ([3] + ([4] + s0)));
    assert [1, 0, 1, 0] == [1] + ([0] + ([1] + ([0] + s0)));
    SelectCons(4, s0, Parity, s0);
    SelectCons(3, [4] + s0, Parity, [0] + s0);
    SelectCons(2, [3] + ([4] + s0), Parity, [1] + ([0] + s0));
    SelectCons(1, [2] + ([3] + ([4] + s0)), Parity, [0] + ([1] + ([0] + s0)));
  }

  /** `[1, 0, 1, 0].Distinct()` is `[1, 0]`. */
  lemma DistinctExample()
    ensures Bcl.Distinct([1, 0, 1, 0]) == [1, 0]
  {
    var p := [1, 0, 1, 0];
    assert p[1..] == [0, 1, 0] && p[1..][1..] == [1, 0] && [1, 0][1..] == [0] && [0][1..] == [];
    assert DistinctFrom([0], {1, 0}) == DistinctFrom([], {1, 0});
    assert DistinctFrom([1, 0], {1, 0}) == DistinctFrom([0], {1, 0});
    assert DistinctFrom([0, 1, 0], {1}) == [0] + DistinctFrom([1, 0], {1} + {0});
    assert {} + {1} == {1} && {1} + {0} == {1, 0};
    assert DistinctFrom(p, {}) == [1] + DistinctFrom([0, 1, 0], {1});
    assert DistinctFrom(p, {}) == [1, 0];
  }
}
