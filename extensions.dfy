/** The combinators of `Bicycle.FExtensions.Extensions`: chaining,
    conditional, sequence and lookup extensions, each as a pure function of
    its receiver (`local`) and arguments.

    Callbacks (`Func`, `Action`, predicates, selectors) are pure Dafny
    functions; an `Action<T>` is a function returning `()`. `default(T)`
    has no Dafny counterpart and is passed in as an explicit value. */
module Extensions {
  import opened Wrappers
  import opened Orders
  import opened Bcl

  // =====================================================================
  // Chaining: Do, Make

  /** Both `Do` overloads: the callback runs on `local`, its result (if any)
      is ignored, and the chain goes on with `local` itself. */
  function Do<T, U>(local: T, func: T -> U): (r: T)
    ensures r == local
  {
    var _ := func(local);
    local
  }

  /** `local.Make(func)`: postfix application; the chain goes on with the
      callback's result. */
  function Make<TIn, TOut>(local: TIn, func: TIn -> TOut): (r: TOut)
    ensures r == func(local)
  {
    func(local)
  }

  /** Chaining with `Make` composes the callbacks, and a `Do` in between
      changes nothing. */
  lemma MakeComposes<A, B, C>(local: A, f: A -> B, g: B -> C, h: A -> ())
    ensures Make(Make(local, f), g) == Make(local, x => g(f(x)))
    ensures Make(Do(local, h), f) == Make(local, f)
  {
  }

  // =====================================================================
  // Conditionals: If, IfNotNull, DoIf

  /** A branch of `If`: a function of `local` (`thanGet`, `elseGet`) or a
      value given outright (`thanValue`, `elseValue`). The four `If`
      overloads are the four ways to pick the two branches. */
  datatype Branch<-S, R> = Get(get: S -> R) | Value(value: R)
  {
    /** What the branch evaluates to when it is taken for `local`. */
    function Of(local: S): R {
      match this
      case Get(f) => f(local)
      case Value(v) => v
    }
  }

  /** `local.If(condition, than, else)`, all four overloads: the then-branch
      exactly when `condition(local)` holds, the else-branch otherwise. */
  function If<S, R>(local: S, condition: S -> bool, thanBranch: Branch<S, R>, elseBranch: Branch<S, R>): (r: R)
    ensures condition(local) ==> r == thanBranch.Of(local)
    ensures !condition(local) ==> r == elseBranch.Of(local)
  {
    if condition(local) then thanBranch.Of(local) else elseBranch.Of(local)
  }

  /** Negating the condition swaps the branches; equal branches make the
      condition irrelevant; a value branch is the constant function branch. */
  lemma IfLaws<S, R>(local: S, condition: S -> bool, t: Branch<S, R>, e: Branch<S, R>, v: R)
    ensures If(local, condition, t, e) == If(local, x => !condition(x), e, t)
    ensures If(local, condition, t, t) == t.Of(local)
    ensures If(local, condition, Value(v), e) == If(local, condition, Get(_ => v), e)
    ensures If(local, condition, t, Value(v)) == If(local, condition, t, Get(_ => v))
  {
  }

  /** `local.IfNotNull(thanGet, elseValue)`: `thanGet(local)` for a non-null
      `local`, `elseValue` for null; `thanGet` never sees null. */
  function IfNotNull<S, R>(local: Option<S>, thanGet: S -> R, elseValue: R): (r: R)
    ensures local.Some? ==> r == thanGet(local.value)
    ensures local.None? ==> r == elseValue
  {
    match local
    case Some(x) => thanGet(x)
    case None => elseValue
  }

  /** `local.IfNotNull(thanGet)`: the overload without `elseValue`, which
      passes `default(R)`; here the default value is the argument `defaultValue`. */
  function IfNotNullOrDefault<S, R>(local: Option<S>, thanGet: S -> R, defaultValue: R): (r: R)
    ensures r == IfNotNull(local, thanGet, defaultValue)
    ensures local.None? ==> r == defaultValue
  {
    IfNotNull(local, thanGet, defaultValue)
  }

  /** `local.DoIf(condition, action)` with a `Func<S, S>`: `action(local)`
      when the condition holds, `local` unchanged otherwise. */
  function DoIf<S>(local: S, condition: S -> bool, action: S -> S): (r: S)
    ensures condition(local) ==> r == action(local)
    ensures !condition(local) ==> r == local
  {
    if condition(local) then action(local) else local
  }

  /** `local.DoIf(condition, action)` with an `Action<S>`: whether or not the
      action runs, the result is `local`. */
  function DoIfAction<S>(local: S, condition: S -> bool, action: S -> ()): (r: S)
    ensures r == local
  {
    if condition(local) then Do(local, action) else local
  }

  function Identity<K>(k: K): K { k }

  /** `DoIf` is `If` whose else-branch is the identity, and it does nothing
      when the action is the identity. */
  lemma DoIfIsIf<S>(local: S, condition: S -> bool, action: S -> S)
    ensures DoIf(local, condition, action) == If(local, condition, Get(action), Get(Identity))
    ensures DoIf(local, condition, Identity) == local
  {
  }

  // =====================================================================
  // In

  /** `local.In(array)`: whether `local` is one of the elements of `values` (the `params` array);
      a null array throws `ArgumentNullException`. */
  function In<T(==)>(local: T, values: Option<seq<T>>): (r: Result<bool>)
    ensures values.None? <==> r == Err(ArgumentNull)
    ensures values.Some? ==> r == Ok(local in values.value)
  {
    match values
    case None => Err(ArgumentNull)
    case Some(a) => Ok(Contains(a, local))
  }

  // =====================================================================
  // TryGetSingle

  /** `local.TryGetSingle(predicate, out result)`, with `pred` for `predicate`: `SingleOrDefault`, paired
      with "the result is not the default". Returns `(found, result)`. */
  function TryGetSingle<T(==)>(local: seq<T>, pred: T -> bool, dflt: T): (r: Result<(bool, T)>)
    ensures NoneMatch(local, pred) ==> r == Ok((false, dflt))
    ensures forall i :: OnlyMatchAt(local, pred, i) ==> r == Ok((local[i] != dflt, local[i]))
    ensures TwoMatch(local, pred) ==> r == Err(MoreThanOneMatch)
  {
    match SingleOrDefault(local, pred, dflt)
    case Err(e) => Err(e)
    case Ok(result) => Ok((result != dflt, result))
  }

  /** `TryGetSingle` reports success exactly when one element matches and
      that element is not the default value; it throws exactly when two
      elements match. */
  lemma TryGetSingleFound<T>(local: seq<T>, pred: T -> bool, dflt: T)
    ensures TryGetSingle(local, pred, dflt).Err? <==> TwoMatch(local, pred)
    ensures (TryGetSingle(local, pred, dflt).Ok? && TryGetSingle(local, pred, dflt).value.0)
            <==> exists i :: OnlyMatchAt(local, pred, i) && local[i] != dflt
  {
    MatchCases(local, pred);
    if TwoMatch(local, pred) {
      var i, j :| 0 <= i < j < |local| && pred(local[i]) && pred(local[j]);
      assert !NoneMatch(local, pred);
      forall k ensures !OnlyMatchAt(local, pred, k) {
        assert k != i ==> !OnlyMatchAt(local, pred, k);
        assert k != j ==> !OnlyMatchAt(local, pred, k);
      }
    }
  }

  /** A single match that equals the default value is reported exactly as
      no match at all. */
  lemma TryGetSingleHidesDefault<T>(local: seq<T>, pred: T -> bool, dflt: T, i: int)
    requires OnlyMatchAt(local, pred, i) && local[i] == dflt
    ensures TryGetSingle(local, pred, dflt) == Ok((false, dflt))
    ensures TryGetSingle(local, pred, dflt) == TryGetSingle([], pred, dflt)
  {
  }

  // =====================================================================
  // WhereWithMin, WhereWithMax, SingleWithMin, SingleWithMax

  /** The predicate these four queries filter by: the element's selected key equals `k`. */
  function KeyIs<T, K(==)>(selector: T -> K, k: K): T -> bool {
    y => selector(y) == k
  }

  /** `local.WhereWithMin(selector)`: every element whose key is the least
      key, in input order and with repeats kept; throws on an empty input. */
  function WhereWithMin<T, K(!new,==)>(local: seq<T>, selector: T -> K, le: (K, K) -> bool): (r: Result<seq<T>>)
    requires TotalOrder(le)
    ensures local == [] <==> r == Err(NoElements)
    ensures local != [] ==> r.Ok? && |r.value| > 0 && Least(local, selector, le, selector(r.value[0]))
    ensures r.Ok? ==> forall x :: x in local ==>
              multiset(r.value)[x] == if selector(x) == selector(r.value[0]) then multiset(local)[x] else 0
    ensures r.Ok? ==> forall x :: x in r.value ==> x in local && selector(x) == selector(r.value[0])
    ensures r.Ok? ==> r.value == Where(local, KeyIs(selector, selector(r.value[0])))
  {
    match Min(local, selector, le)
    case Err(e) => Err(e)
    case Ok(m) => Ok(WhereKeyIsNonEmpty(local, selector, le, m); Where(local, KeyIs(selector, m)))
  }

  /** `local.WhereWithMax(selector)`: every element whose key is the
      greatest key, in input order and with repeats kept; throws on an
      empty input. */
  function WhereWithMax<T, K(!new,==)>(local: seq<T>, selector: T -> K, le: (K, K) -> bool): (r: Result<seq<T>>)
    requires TotalOrder(le)
    ensures local == [] <==> r == Err(NoElements)
    ensures local != [] ==> r.Ok? && |r.value| > 0 && Least(local, selector, Converse(le), selector(r.value[0]))
    ensures r.Ok? ==> forall y :: y in local ==> le(selector(y), selector(r.value[0]))
    ensures r.Ok? ==> forall x :: x in local ==>
              multiset(r.value)[x] == if selector(x) == selector(r.value[0]) then multiset(local)[x] else 0
    ensures r.Ok? ==> forall x :: x in r.value ==> x in local && selector(x) == selector(r.value[0])
    ensures r.Ok? ==> r.value == Where(local, KeyIs(selector, selector(r.value[0])))
  {
    ConverseIsTotalOrder(le);
    match Max(local, selector, le)
    case Err(e) => Err(e)
    case Ok(m) => Ok(WhereKeyIsNonEmpty(local, selector, Converse(le), m); Where(local, KeyIs(selector, m)))
  }

  /** Filtering by a least key keeps at least the element that attains it. */
  lemma WhereKeyIsNonEmpty<T, K(!new)>(local: seq<T>, selector: T -> K, le: (K, K) -> bool, m: K)
    requires Least(local, selector, le, m)
    ensures |Where(local, KeyIs(selector, m))| > 0
    ensures forall x :: x in Where(local, KeyIs(selector, m)) ==> selector(x) == m
  {
    var i :| 0 <= i < |local| && selector(local[i]) == m;
    assert local[i] in Where(local, KeyIs(selector, m));
  }

  /** `local[i]` is the only element whose key is least: every other key is
      above it. */
  ghost predicate OnlyLeastAt<T, K(!new)>(local: seq<T>, selector: T -> K, le: (K, K) -> bool, i: int) {
    && 0 <= i < |local|
    && forall j :: 0 <= j < |local| && j != i ==>
         le(selector(local[i]), selector(local[j])) && selector(local[j]) != selector(local[i])
  }

  /** Two positions share the least key. */
  ghost predicate LeastTie<T, K(!new)>(local: seq<T>, selector: T -> K, le: (K, K) -> bool) {
    exists i, j :: 0 <= i < j < |local| && selector(local[i]) == selector(local[j])
                && Least(local, selector, le, selector(local[i]))
  }

  /** A non-empty sequence has a unique least element or a tie for least. */
  lemma LeastCases<T, K(!new)>(local: seq<T>, selector: T -> K, le: (K, K) -> bool)
    requires TotalOrder(le) && local != []
    ensures LeastTie(local, selector, le) || exists i :: OnlyLeastAt(local, selector, le, i)
  {
    var m := Min(local, selector, le).value;
    MatchCases(local, KeyIs(selector, m));
    assert !NoneMatch(local, KeyIs(selector, m));
    if i :| OnlyMatchAt(local, KeyIs(selector, m), i) {
      assert OnlyLeastAt(local, selector, le, i);
    } else {
      var i, j :| 0 <= i < j < |local| && KeyIs(selector, m)(local[i]) && KeyIs(selector, m)(local[j]);
      assert selector(local[i]) == selector(local[j]) && Least(local, selector, le, selector(local[i]));
    }
  }

  /** How `Single` over the least key `m` ends: with the unique least
      element, or with a tie. */
  lemma SingleAtLeast<T, K(!new)>(local: seq<T>, selector: T -> K, le: (K, K) -> bool, m: K)
    requires TotalOrder(le) && Least(local, selector, le, m)
    ensures forall i :: OnlyLeastAt(local, selector, le, i) ==> OnlyMatchAt(local, KeyIs(selector, m), i)
    ensures LeastTie(local, selector, le) ==> TwoMatch(local, KeyIs(selector, m))
  {
    forall i | OnlyLeastAt(local, selector, le, i) ensures OnlyMatchAt(local, KeyIs(selector, m), i) {
      var i0 :| 0 <= i0 < |local| && selector(local[i0]) == m;
      assert i0 == i;
    }
    if LeastTie(local, selector, le) {
      var i, j :| 0 <= i < j < |local| && selector(local[i]) == selector(local[j])
                  && Least(local, selector, le, selector(local[i]));
      LeastIsUnique(local, selector, le, m, selector(local[i]));
      assert KeyIs(selector, m)(local[i]) && KeyIs(selector, m)(local[j]);
    }
  }

  /** `local.SingleWithMin(selector)`: the one element whose key is least;
      throws on an empty input and when two elements tie for least. */
  function SingleWithMin<T, K(!new,==)>(local: seq<T>, selector: T -> K, le: (K, K) -> bool): (r: Result<T>)
    requires TotalOrder(le)
    ensures local == [] <==> r == Err(NoElements)
    ensures forall i :: OnlyLeastAt(local, selector, le, i) ==> r == Ok(local[i])
    ensures LeastTie(local, selector, le) ==> r == Err(MoreThanOneMatch)
  {
    match Min(local, selector, le)
    case Err(e) => Err(e)
    case Ok(m) => SingleAtLeast(local, selector, le, m); Single(local, KeyIs(selector, m))
  }

  /** `local.SingleWithMax(selector)`: the one element whose key is
      greatest, that is least under the converse order; throws on an empty
      input and when two elements tie for greatest. */
  function SingleWithMax<T, K(!new,==)>(local: seq<T>, selector: T -> K, le: (K, K) -> bool): (r: Result<T>)
    requires TotalOrder(le)
    ensures local == [] <==> r == Err(NoElements)
    ensures forall i :: OnlyLeastAt(local, selector, Converse(le), i) ==> r == Ok(local[i])
    ensures LeastTie(local, selector, Converse(le)) ==> r == Err(MoreThanOneMatch)
  {
    ConverseIsTotalOrder(le);
    match Max(local, selector, le)
    case Err(e) => Err(e)
    case Ok(m) => SingleAtLeast(local, selector, Converse(le), m); Single(local, KeyIs(selector, m))
  }

  // =====================================================================
  // Filter, SimpleJoin

  /** The result selector of `Filter`'s join: it keeps the element and drops the key. */
  function TakeOuter<T, K>(x: T, y: K): T { x }

  /** The group `Filter`'s join builds for one element `o` with key `k`:
      `o` once per element of `keys` equal to `k`. */
  lemma {:induction false} MatchingOuter<T, K>(o: T, keys: seq<K>, k: K)
    ensures |Matching(o, keys, k, Identity, TakeOuter)| == multiset(keys)[k]
    ensures forall x :: x in Matching(o, keys, k, Identity, TakeOuter) ==> x == o
  {
    if keys != [] {
      assert keys == [keys[0]] + keys[1..];
      MatchingOuter(o, keys[1..], k);
    }
  }

  /** A `Join` of `local` with `keys` that matches each element's key against
      each key and keeps the element: each element of `local`, in order, once
      for every element of `keys` equal to its key. */
  function Filter<T, K(==)>(local: seq<T>, keys: seq<K>, keySelector: T -> K): (r: seq<T>)
    ensures forall x :: x in local ==> multiset(r)[x] == multiset(local)[x] * multiset(keys)[keySelector(x)]
    ensures forall x :: x in r ==> x in local && keySelector(x) in keys
  {
    JoinOuterMembers(local, keys, keySelector);
    forall x | x in local
      ensures multiset(Join(local, keys, keySelector, Identity, TakeOuter))[x]
              == multiset(local)[x] * multiset(keys)[keySelector(x)]
    {
      JoinOuterCount(local, keys, keySelector, x);
    }
    Join(local, keys, keySelector, Identity, TakeOuter)
  }

  lemma MulSucc(a: nat, c: nat)
    ensures (a + 1) * c == a * c + c
  {
  }

  /** The number of copies of `x` in the join is its number of copies in
      `local` times the number of keys equal to its key. */
  lemma {:induction false} JoinOuterCount<T, K>(local: seq<T>, keys: seq<K>, keySelector: T -> K, x: T)
    ensures multiset(Join(local, keys, keySelector, Identity, TakeOuter))[x]
            == multiset(local)[x] * multiset(keys)[keySelector(x)]
  {
    if local != [] {
      var o, t := local[0], local[1..];
      var a, c := multiset(t)[x], multiset(keys)[keySelector(x)];
      var m, j := Matching(o, keys, keySelector(o), Identity, TakeOuter), Join(t, keys, keySelector, Identity, TakeOuter);
      assert Join(local, keys, keySelector, Identity, TakeOuter) == m + j;
      assert multiset(m + j) == multiset(m) + multiset(j);
      JoinOuterCount(t, keys, keySelector, x);
      MatchingCount(o, keys, keySelector(o), x);
      HeadCount(local, x);
      if x == o {
        MulSucc(a, c);
      }
    }
  }

  /** Splitting off the head of a sequence splits its multiset. */
  lemma HeadCount<T>(s: seq<T>, x: T)
    requires s != []
    ensures multiset(s)[x] == (if s[0] == x then 1 else 0) + multiset(s[1..])[x]
  {
    assert s == [s[0]] + s[1..];
  }

  /** The group for `o` holds `o` once per key equal to `k`, and nothing else. */
  lemma {:induction false} MatchingCount<T, K>(o: T, keys: seq<K>, k: K, x: T)
    ensures multiset(Matching(o, keys, k, Identity, TakeOuter))[x] == if x == o then multiset(keys)[k] else 0
  {
    if keys != [] {
      assert keys == [keys[0]] + keys[1..];
      MatchingCount(o, keys[1..], k, x);
    }
  }

  /** Every element of the join comes from `local` and has a matching key. */
  lemma {:induction false} JoinOuterMembers<T, K>(local: seq<T>, keys: seq<K>, keySelector: T -> K)
    ensures forall x :: x in Join(local, keys, keySelector, Identity, TakeOuter) ==> x in local && keySelector(x) in keys
  {
    if local != [] {
      var o, t := local[0], local[1..];
      var m := Matching(o, keys, keySelector(o), Identity, TakeOuter);
      MatchingOuter(o, keys, keySelector(o));
      JoinOuterMembers(t, keys, keySelector);
      if |m| > 0 {
        assert keySelector(o) in multiset(keys);
      }
      assert forall x :: x in t ==> x in local;
    }
  }

  /** The total number of matches: the sum over `local` of the number of
      keys equal to each element's key. */
  ghost function MatchCount<T, K>(local: seq<T>, keys: seq<K>, keySelector: T -> K): nat {
    if local == [] then 0
    else multiset(keys)[keySelector(local[0])] + MatchCount(local[1..], keys, keySelector)
  }

  /** The length of `Filter` is the total number of key matches. */
  lemma {:induction false} FilterLength<T, K>(local: seq<T>, keys: seq<K>, keySelector: T -> K)
    ensures |Filter(local, keys, keySelector)| == MatchCount(local, keys, keySelector)
  {
    if local != [] {
      MatchingOuter(local[0], keys, keySelector(local[0]));
      FilterLength(local[1..], keys, keySelector);
    }
  }

  /** `Filter` keeps the order of `local`: it distributes over concatenation. */
  lemma {:induction false} FilterConcat<T, K>(a: seq<T>, b: seq<T>, keys: seq<K>, keySelector: T -> K)
    ensures Filter(a + b, keys, keySelector) == Filter(a, keys, keySelector) + Filter(b, keys, keySelector)
  {
    JoinConcat(a, b, keys, keySelector, Identity, TakeOuter);
  }

  /** For one element, `Filter` repeats it once per matching key: with a
      duplicated key, the element comes out twice. */
  lemma FilterRepeatsPerKey<T, K>(x: T, k: K, keySelector: T -> K)
    requires keySelector(x) == k
    ensures Filter([x], [k], keySelector) == [x]
    ensures Filter([x], [k, k], keySelector) == [x, x]
  {
    assert [x][1..] == [] && [k][1..] == [] && [k, k][1..] == [k];
    var none := Matching(x, [], k, Identity, TakeOuter);
    assert Matching(x, [k], k, Identity, TakeOuter) == [x] + none;
    assert Matching(x, [k, k], k, Identity, TakeOuter) == [x] + [x] + none;
    assert Join([x], [k], keySelector, Identity, TakeOuter) == Matching(x, [k], k, Identity, TakeOuter);
    assert Join([x], [k, k], keySelector, Identity, TakeOuter) == Matching(x, [k, k], k, Identity, TakeOuter);
  }

  /** For one element, `Filter` yields it once per key equal to its own key,
      and nothing else. */
  lemma FilterSingleton<T, K>(x: T, keys: seq<K>, keySelector: T -> K)
    ensures Filter([x], keys, keySelector) == seq(multiset(keys)[keySelector(x)], _ => x)
  {
    var m := Matching(x, keys, keySelector(x), Identity, TakeOuter);
    MatchingOuter(x, keys, keySelector(x));
    assert [x][1..] == [];
    assert Join([x], keys, keySelector, Identity, TakeOuter) == m;
    assert forall i :: 0 <= i < |m| ==> m[i] in m;
  }

  /** With keys free of duplicates, `Filter` is the semi-join: the
      elements of `local` whose key is among `keys`, in order. */
  lemma {:induction false} FilterDistinctKeys<T, K>(local: seq<T>, keys: seq<K>, keySelector: T -> K)
    requires NoDuplicates(keys)
    ensures Filter(local, keys, keySelector) == Where(local, x => keySelector(x) in keys)
  {
    if local != [] {
      var o := local[0];
      MatchingOuter(o, keys, keySelector(o));
      DistinctCount(keys, keySelector(o));
      var m := Matching(o, keys, keySelector(o), Identity, TakeOuter);
      if keySelector(o) in keys {
        assert m == [o] by { assert |m| == 1 && m[0] in m; }
      } else {
        assert m == [];
      }
      FilterDistinctKeys(local[1..], keys, keySelector);
    }
  }

  /** In a sequence without duplicates each value occurs at most once. */
  lemma {:induction false} DistinctCount<K>(keys: seq<K>, k: K)
    requires NoDuplicates(keys)
    ensures multiset(keys)[k] == if k in keys then 1 else 0
  {
    if keys != [] {
      assert keys == [keys[0]] + keys[1..];
      assert keys[0] !in keys[1..];
      DistinctCount(keys[1..], k);
    }
  }

  /** `local.SimpleJoin(keys, keySelector)`: the obsolete name of `Filter`. */
  function SimpleJoin<T, K(==)>(local: seq<T>, keys: seq<K>, keySelector: T -> K): (r: seq<T>)
    ensures r == Filter(local, keys, keySelector)
  {
    Filter(local, keys, keySelector)
  }

  // =====================================================================
  // Left

  /** The first `length` characters of a string. A null string is returned as
      it is; a length below the string's length takes `Substring(0, length)`,
      so a negative length reaches `Substring`, which throws; otherwise the
      string itself is returned. */
  function Left(local: Option<string>, length: int): (r: Result<Option<string>>)
    ensures local.None? ==> r == Ok(None)
    ensures local.Some? && length < 0 ==> r == Err(ArgumentOutOfRange)
    ensures local.Some? && 0 <= length < |local.value| ==> r == Ok(Some(local.value[..length]))
    ensures local.Some? && |local.value| <= length ==> r == Ok(local)
  {
    match local
    case None => Ok(None)
    case Some(s) =>
      if length < |s| then
        match Substring(s, 0, length)
        case Err(e) => Err(e)
        case Ok(t) => assert t == s[..length]; Ok(Some(t))
      else Ok(local)
  }

  /** A successful `Left` yields a prefix of at most `length` characters,
      and taking `Left` again with the same length changes nothing. */
  lemma LeftIsPrefix(s: string, length: int)
    requires 0 <= length
    ensures Left(Some(s), length).Ok?
    ensures var t := Left(Some(s), length).value.value;
            t <= s && |t| == (if length < |s| then length else |s|)
    ensures Left(Left(Some(s), length).value, length) == Left(Some(s), length)
  {
  }

  // =====================================================================
  // DefaultIfEmpty, SetIfEmpty

  /** `local.DefaultIfEmpty(defaultCollection)`: `local` itself when it has
      an element, `defaultCollection` in its place when it is empty. */
  function DefaultIfEmpty<T>(local: seq<T>, defaultCollection: seq<T>): (r: seq<T>)
    ensures |local| > 0 ==> r == local
    ensures |local| == 0 ==> r == defaultCollection
  {
    if |local| > 0 then local else defaultCollection
  }

  /** `local.SetIfEmpty(defaultCollection)`: the obsolete name of `DefaultIfEmpty`. */
  function SetIfEmpty<T>(local: seq<T>, defaultCollection: seq<T>): (r: seq<T>)
    ensures r == DefaultIfEmpty(local, defaultCollection)
  {
    DefaultIfEmpty(local, defaultCollection)
  }

  /** The result is empty only when both collections are, and a non-empty
      fallback is never replaced again. */
  lemma DefaultIfEmptyLaws<T>(local: seq<T>, d: seq<T>, e: seq<T>)
    ensures |DefaultIfEmpty(local, d)| == 0 <==> |local| == 0 && |d| == 0
    ensures |d| > 0 ==> DefaultIfEmpty(DefaultIfEmpty(local, d), e) == DefaultIfEmpty(local, d)
  {
  }

  // =====================================================================
  // GetOrDefault

  /** `local.GetOrDefault(key, defaultValue)`: the value `key` maps to, or
      `defaultValue` when `key` is absent; a missing key never throws. */
  function GetOrDefault<K, V>(local: map<K, V>, key: K, defaultValue: V): (r: V)
    ensures key in local ==> r == local[key]
    ensures key !in local ==> r == defaultValue
  {
    match TryGetValue(local, key)
    case Some(result) => result
    case None => defaultValue
  }

  /** Lookups after an update see the update at its key and nothing
      changed elsewhere. */
  lemma GetOrDefaultAfterUpdate<K, V>(local: map<K, V>, key: K, value: V, other: K, defaultValue: V)
    ensures GetOrDefault(local[key := value], key, defaultValue) == value
    ensures other != key ==>
              GetOrDefault(local[key := value], other, defaultValue) == GetOrDefault(local, other, defaultValue)
  {
  }

  // =====================================================================
  // Distinct over a projection

  /** The projection of `local` by `func` with repeats removed: null for a
      null `local`; otherwise
      the distinct projected values, each once, in the order in which each
      first occurs among the projections. */
  function Distinct<Tin, TOut(==)>(local: Option<seq<Tin>>, func: Tin -> TOut): (r: Option<seq<TOut>>)
    ensures local.None? <==> r.None?
    ensures r.Some? ==> NoDuplicates(r.value)
    ensures r.Some? ==> forall x :: x in local.value ==> func(x) in r.value
    ensures r.Some? ==> forall y :: y in r.value ==> y in Select(local.value, func)
    ensures r.Some? ==> forall y :: y in r.value ==> exists x :: x in local.value && func(x) == y
    ensures r.Some? ==> forall i, j :: 0 <= i < j < |r.value| ==>
              FirstIndex(Select(local.value, func), r.value[i]) < FirstIndex(Select(local.value, func), r.value[j])
  {
    match local
    case None => None
    case Some(s) => Some(Bcl.Distinct(Select(s, func)))
  }
}
