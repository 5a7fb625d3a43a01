# Bicycle.FExtensions in Dafny

`Bicycle.FExtensions` is a static class of small generic C# extension
methods that let a caller transform, inspect or branch on a value or a
sequence inside one call chain. This project models every member of
`Bicycle.FExtensions/Extensions.cs` except `To` and `As` (see "Left out") as
a pure Dafny function and proves what each one returns:

- chaining: `Do` (both overloads), `Make`;
- conditionals: `If` (all four overloads), `IfNotNull` (both), `DoIf` (both);
- sequence queries: `In`, `TryGetSingle`, `WhereWithMin`, `WhereWithMax`,
  `SingleWithMin`, `SingleWithMax`, `Filter` and its obsolete alias
  `SimpleJoin`, `DefaultIfEmpty` and its obsolete alias `SetIfEmpty`, and the
  projected `Distinct`;
- scalar and lookup: `Left`, `GetOrDefault`.

## Layout

| file | module | contents |
|---|---|---|
| `wrappers.dfy` | `Wrappers` | `Option` for a C# reference that may be null, `Result` for a call that may throw, `Exception` for the .NET exceptions involved |
| `orders.dfy` | `Orders` | `TotalOrder`, the ordering a key type needs for `Min`/`Max`, and its `Converse` |
| `bcl.dfy` | `Bcl` | the .NET library calls the extensions are built from: LINQ `Where`, `Single`, `SingleOrDefault`, `Min`, `Max`, `Select`, `Distinct`, `Join`, `Contains`; `String.Substring`; `TryGetValue` |
| `extensions.dfy` | `Extensions` | the extension methods and the lemmas about them |
| `examples.dfy` | `ExtensionExamples` | concrete calls worked out by the verifier |

## Modelling choices

- Sequences are finite, stable `seq` values; a dictionary is a `map`; a
  string is a `seq<char>`, one Dafny `char` per character. A Dafny `char` is
  a Unicode scalar value, while a .NET string counts UTF-16 code units, so
  lengths and positions agree only for text inside the Basic Multilingual
  Plane (see "Left out").
- Callbacks (`Func`, predicates, selectors) are pure Dafny functions. An
  `Action<T>` is a function returning `()`. The two `Do` overloads are
  therefore one function, `Extensions.Do`.
- The four `If` overloads are one function, `Extensions.If`. Each branch is a
  `Branch`: either `Get(f)`, a function of `local` (`thanGet`, `elseGet`), or
  `Value(v)`, a value given outright (`thanValue`, `elseValue`).
- `default(T)` has no Dafny counterpart. Where the code uses it (`TryGetSingle`
  through `SingleOrDefault`, and the one-argument `IfNotNull`) it is an
  explicit argument. The one-argument `IfNotNull` overload is
  `Extensions.IfNotNullOrDefault`.
- Null is an `Option` only where the code handles it: the `params` array of
  `In` (null throws `ArgumentNullException`), the receiver of `Left` and of
  the projected `Distinct` (both guarded by `?.`), and the receiver of
  `IfNotNull`.
- Thrown exceptions are `Err` values of `Result`. LINQ's three messages of
  `InvalidOperationException` are kept apart as `NoElements`, `NoMatch` and
  `MoreThanOneMatch`.
- Keys of the extremum queries have a comparator `le` that must be a total
  order (`Orders.TotalOrder`); key equality (`Equals`) is `==`. `Min` is the
  loop of `Enumerable.Min` (`Bcl.MinFrom`): the running value is replaced by
  each key strictly below it. `Max` is the same loop under the converse order,
  so "greatest" is stated as `Least(…, Converse(le), …)`.
- `Filter` is, as in the code, a `Join` of `local` with `keys` that matches
  each element's key against each key and keeps the element. An outer element therefore comes out once per equal element of `keys`, so
  duplicate keys duplicate output (`Extensions.FilterRepeatsPerKey`). Only
  when `keys` has no duplicates is it a plain semi-join
  (`Extensions.FilterDistinctKeys`). The member's summary (line 77) speaks of
  filtering a collection by another collection; with repeated keys the result
  is not a sub-sequence of `local`: `[1, 2, 3]` filtered by `[2, 2]` is
  `[2, 2]` (`ExtensionExamples.FilterRepeatedKeysExample`).
- `Left` follows the code: a null string is returned as it is, for any
  length; a length below the string's length takes `Substring(0, length)`;
  otherwise the string itself is returned. A negative length on a non-null
  string is below its length, so it reaches `Substring`, which throws
  `ArgumentOutOfRangeException`: `Left` can throw.
- `TryGetSingle` follows the code: a single match equal to the default value
  is reported as `false`, exactly like no match
  (`Extensions.TryGetSingleHidesDefault`).

## Model

| member | source | states |
|---|---|---|
| `Bcl.Where` | Bicycle.FExtensions/Extensions.cs:59-60 | the result holds exactly the elements satisfying the predicate, each as often as in the input, and is no longer than the input |
| `Bcl.WhereConcat` | Bicycle.FExtensions/Extensions.cs:59-60 | `Where` keeps input order: filtering a concatenation is concatenating the filtered parts |
| `Bcl.MatchCases` | Bicycle.FExtensions/Extensions.cs:54 | every sequence has no match, exactly one match, or matches at two positions |
| `Bcl.Single` | Bicycle.FExtensions/Extensions.cs:63-64 | no match throws "no matching element", two matches throw "more than one matching element", a unique match at `i` returns `s[i]` |
| `Bcl.SingleOrDefault` | Bicycle.FExtensions/Extensions.cs:54 | no match returns the default, two matches throw, a unique match at `i` returns `s[i]` |
| `Bcl.LeastIsUnique` | Bicycle.FExtensions/Extensions.cs:59 | under a total order two least keys of one sequence are equal |
| `Bcl.MinFrom` | Bicycle.FExtensions/Extensions.cs:59 | the minimum loop ends with the start value or a key of the sequence, at or below the start value and every key |
| `Bcl.Min` | Bicycle.FExtensions/Extensions.cs:59 | throws "no elements" exactly on an empty sequence; otherwise returns the least key, which some element attains |
| `Bcl.Max` | Bicycle.FExtensions/Extensions.cs:67 | throws "no elements" exactly on an empty sequence; otherwise returns a key some element attains and every key is at or below it |
| `Bcl.Select` | Bicycle.FExtensions/Extensions.cs:134-135 | the result has the input's length and holds `f` of each element at the same position |
| `Bcl.DistinctFrom` | Bicycle.FExtensions/Extensions.cs:136 | the result has no duplicates, holds exactly the input elements not already seen, and is ordered by first occurrence in the input |
| `Bcl.Distinct` | Bicycle.FExtensions/Extensions.cs:136 | the result has no duplicates, holds exactly the input's elements, and is ordered by their first occurrence |
| `Bcl.JoinConcat` | Bicycle.FExtensions/Extensions.cs:78 | `Join` keeps outer order: joining a concatenation is concatenating the joins |
| `Bcl.Matching` | Bicycle.FExtensions/Extensions.cs:78 | the lookup group of one outer element holds at most one result per inner element |
| `Bcl.MatchingIsSelectWhere` | Bicycle.FExtensions/Extensions.cs:78 | the lookup group is the inner elements with the outer key, in inner order, each combined with the outer element: a `Where` followed by a `Select` |
| `Bcl.MatchingMembers` | Bicycle.FExtensions/Extensions.cs:78 | a value is in the lookup group exactly when it is the result for some inner element with the outer key |
| `Bcl.Join` | Bicycle.FExtensions/Extensions.cs:78 | joining with an empty inner sequence yields nothing |
| `Bcl.JoinMembers` | Bicycle.FExtensions/Extensions.cs:78 | a value is in the join exactly when it is the result for some pair of an outer and an inner element with equal keys |
| `Bcl.Contains` | Bicycle.FExtensions/Extensions.cs:13 | true exactly when some position of the array holds the value |
| `Bcl.Substring` | Bicycle.FExtensions/Extensions.cs:81 | succeeds exactly when start and length are non-negative and fit the string, then returns those characters; otherwise throws `ArgumentOutOfRangeException` |
| `Bcl.TryGetValue` | Bicycle.FExtensions/Extensions.cs:129 | finds a value exactly when the key is mapped, and then it is the mapped value |
| `Extensions.Do` | Bicycle.FExtensions/Extensions.cs:19-34 | the result is the receiver itself, whatever the callback returns |
| `Extensions.Make` | Bicycle.FExtensions/Extensions.cs:40 | the result is the callback applied to the receiver |
| `Extensions.MakeComposes` | Bicycle.FExtensions/Extensions.cs:40 | two `Make` calls compose their callbacks; a `Do` before a `Make` changes nothing |
| `Extensions.If` | Bicycle.FExtensions/Extensions.cs:84-98 | the then-branch (its function applied to the receiver, or its value) exactly when the condition holds, the else-branch otherwise |
| `Extensions.IfLaws` | Bicycle.FExtensions/Extensions.cs:84-98 | negating the condition swaps the branches; equal branches make the condition irrelevant; a value branch behaves as the constant function branch, so the four overloads agree |
| `Extensions.IfNotNull` | Bicycle.FExtensions/Extensions.cs:101-103 | the callback applied to a non-null receiver, `elseValue` for null |
| `Extensions.IfNotNullOrDefault` | Bicycle.FExtensions/Extensions.cs:106 | the two-argument overload with the default value as `elseValue`, so null yields the default |
| `Extensions.DoIf` | Bicycle.FExtensions/Extensions.cs:109-111 | the action's result when the condition holds, the receiver unchanged otherwise |
| `Extensions.DoIfAction` | Bicycle.FExtensions/Extensions.cs:114-119 | the result is the receiver itself whether or not the action runs |
| `Extensions.DoIfIsIf` | Bicycle.FExtensions/Extensions.cs:109-111 | `DoIf` is `If` with an identity else-branch; with the identity action it returns the receiver |
| `Extensions.In` | Bicycle.FExtensions/Extensions.cs:13 | a null array throws `ArgumentNullException`; otherwise true exactly when the value is an element of the array |
| `Extensions.TryGetSingle` | Bicycle.FExtensions/Extensions.cs:52-56 | no match gives `(false, default)`; a unique match at `i` gives `(local[i] != default, local[i])`; two matches throw "more than one matching element" |
| `Extensions.TryGetSingleFound` | Bicycle.FExtensions/Extensions.cs:52-56 | it throws exactly when two elements match, and returns true exactly when one element matches and it is not the default |
| `Extensions.TryGetSingleHidesDefault` | Bicycle.FExtensions/Extensions.cs:55 | a unique match equal to the default is reported as `(false, default)`, the same as for an empty input |
| `Extensions.WhereWithMin` | Bicycle.FExtensions/Extensions.cs:59-60 | throws "no elements" exactly on an empty input; otherwise a non-empty result whose elements all carry the least key, holding every input element with that key as often as the input does, in input order (`Where` by that key) |
| `Extensions.WhereWithMax` | Bicycle.FExtensions/Extensions.cs:67-68 | throws "no elements" exactly on an empty input; otherwise a non-empty result whose elements all carry the greatest key, holding every input element with that key as often as the input does, in input order (`Where` by that key) |
| `Extensions.LeastCases` | Bicycle.FExtensions/Extensions.cs:63-64 | a non-empty input has either one element strictly below all others in key or two elements tying for the least key |
| `Extensions.SingleWithMin` | Bicycle.FExtensions/Extensions.cs:63-64 | throws "no elements" exactly on an empty input; returns `local[i]` when it alone has the least key; throws "more than one matching element" when two elements tie for least |
| `Extensions.SingleWithMax` | Bicycle.FExtensions/Extensions.cs:71-72 | throws "no elements" exactly on an empty input; returns `local[i]` when it alone has the greatest key; throws "more than one matching element" when two elements tie for greatest |
| `Extensions.MatchingOuter` | Bicycle.FExtensions/Extensions.cs:78 | the join's group for one outer element is that element repeated once per equal key |
| `Extensions.JoinOuterCount` | Bicycle.FExtensions/Extensions.cs:78 | in the join, an element occurs as often as in the input times the number of keys equal to its key |
| `Extensions.JoinOuterMembers` | Bicycle.FExtensions/Extensions.cs:78 | every element of the join is an input element whose key is among the keys |
| `Extensions.Filter` | Bicycle.FExtensions/Extensions.cs:78 | each input element occurs as often as in the input times the number of equal keys; so an element comes out only when its key is among the keys |
| `Extensions.FilterLength` | Bicycle.FExtensions/Extensions.cs:78 | the length of the result is the sum over the input of the number of keys equal to each element's key |
| `Extensions.FilterConcat` | Bicycle.FExtensions/Extensions.cs:78 | the result follows input order: filtering a concatenation is concatenating the filtered parts |
| `Extensions.FilterRepeatsPerKey` | Bicycle.FExtensions/Extensions.cs:78 | one element with one matching key comes out once, with that key given twice it comes out twice |
| `Extensions.FilterSingleton` | Bicycle.FExtensions/Extensions.cs:78 | one element comes out once per key equal to its own key, and nothing else comes out |
| `Extensions.FilterDistinctKeys` | Bicycle.FExtensions/Extensions.cs:78 | with duplicate-free keys the result is exactly the input elements whose key is among the keys, in order |
| `Extensions.SimpleJoin` | Bicycle.FExtensions/Extensions.cs:75 | returns what `Filter` returns |
| `Extensions.Left` | Bicycle.FExtensions/Extensions.cs:80-82 | null gives null; a negative length on a string throws `ArgumentOutOfRangeException`; a length below the string's gives its first `length` characters; otherwise the string unchanged |
| `Extensions.LeftIsPrefix` | Bicycle.FExtensions/Extensions.cs:80-82 | for a non-negative length the result is a prefix of length `min(length, |s|)`, and applying `Left` again with that length changes nothing |
| `Extensions.DefaultIfEmpty` | Bicycle.FExtensions/Extensions.cs:124-126 | a non-empty receiver is returned itself, an empty one is replaced by the fallback |
| `Extensions.SetIfEmpty` | Bicycle.FExtensions/Extensions.cs:122 | returns what `DefaultIfEmpty` returns |
| `Extensions.DefaultIfEmptyLaws` | Bicycle.FExtensions/Extensions.cs:124-126 | the result is empty exactly when both collections are; once the fallback is non-empty a second `DefaultIfEmpty` changes nothing |
| `Extensions.GetOrDefault` | Bicycle.FExtensions/Extensions.cs:129-131 | the mapped value for a present key, the fallback for an absent one |
| `Extensions.Distinct` | Bicycle.FExtensions/Extensions.cs:134-136 | null gives null; otherwise no duplicates, every projected value occurs, nothing else occurs, and values are ordered by their first occurrence among the projections |
| `ExtensionExamples.LeastOfExample` | Bicycle.FExtensions/Extensions.cs:59 | `1` is a least key of `[3, 1, 2, 1]`, and no other key is |
| `ExtensionExamples.WhereKeyExample` | Bicycle.FExtensions/Extensions.cs:60 | filtering `[3, 1, 2, 1]` by key `1` gives `[1, 1]` |
| `ExtensionExamples.WhereWithMinExample` | Bicycle.FExtensions/Extensions.cs:59-60 | `[3, 1, 2, 1].WhereWithMin(x => x)` is `[1, 1]` |
| `ExtensionExamples.SingleWithMinExample` | Bicycle.FExtensions/Extensions.cs:63-64 | `[3, 1, 2, 1].SingleWithMin(x => x)` throws "more than one matching element" |
| `ExtensionExamples.FilterDistinctKeysExample` | Bicycle.FExtensions/Extensions.cs:78 | `[1, 2, 3].Filter([2, 3], x => x)` is `[2, 3]` |
| `ExtensionExamples.FilterRepeatedKeysExample` | Bicycle.FExtensions/Extensions.cs:78 | `[1, 2, 3].Filter([2, 2], x => x)` is `[2, 2]`: a repeated key repeats the element |
| `ExtensionExamples.LeftExamples` | Bicycle.FExtensions/Extensions.cs:80-82 | `"hello".Left(3)` is `"hel"`, `"hi".Left(10)` is `"hi"`, `"hi".Left(-1)` throws, a null string stays null |
| `ExtensionExamples.GetOrDefaultExamples` | Bicycle.FExtensions/Extensions.cs:129-131 | a missing key yields the fallback, a present key its value |
| `ExtensionExamples.DistinctParityExample` | Bicycle.FExtensions/Extensions.cs:134-136 | `[1, 2, 3, 4].Distinct(x => x % 2)` is `[1, 0]`: the distinct parities in order of first occurrence |

## Left out

- `To<T>` and `As<T>` (lines 44 and 47): they are runtime casts in the C# type system and have no Dafny counterpart.
- Extensions.Do: the callback's side effect, and that it runs exactly once, are not modelled, because callbacks are pure functions; only "returns the receiver" is stated.
- Extensions.DoIfAction: the conditional run of the action is not observable for the same reason; only "returns the receiver" is stated.
- Extensions.If: that only the chosen branch's function is invoked is not observable with pure callbacks, so it is not stated.
- Extensions.IfNotNull: that `thanGet` is never called on null is built into the `Option` match, not stated as a separate property.
- LINQ laziness and deferred execution of `Where`, `Join`, `Select` and `Distinct` are not modelled. Neither is `WhereWithMin`/`WhereWithMax` enumerating its input twice: inputs are finite, stable sequences.
- Null receivers of the sequence extensions other than `Left` and `Distinct`, and null callbacks, are not modelled. The members built on LINQ (`TryGetSingle`, `WhereWithMin`, `WhereWithMax`, `SingleWithMin`, `SingleWithMax`, `Filter`, `SimpleJoin`, `DefaultIfEmpty`, `SetIfEmpty`, and `Distinct` for a null `func`) throw `ArgumentNullException` for them. `Do`, `Make`, `If`, `IfNotNull` and `DoIf` call their delegates directly: a null delegate throws `NullReferenceException` when it is invoked and nothing when it sits on the branch not taken. `GetOrDefault` on a null dictionary throws `NullReferenceException`.
- .NET null keys are not modelled: `Min`/`Max` skipping null keys, `Min`/`Max` of an empty sequence returning null for a nullable key type, `Join` ignoring null keys, and the key comparison in `WhereWithMin` and its siblings throwing when a selected key is null.
- `Comparer<TResult>.Default` and `EqualityComparer<T>.Default` beyond a total order and `==` are not modelled; their source is not part of this model.
- Extensions.Left: surrogate pairs and counting in UTF-16 code units are not modelled; a string is a sequence of Unicode scalar values, so the model agrees with .NET only on text inside the Basic Multilingual Plane (.NET can cut a surrogate pair in two, the model cannot).
- Bcl.Substring: the same; `start` and `length` count Dafny characters, not UTF-16 code units, so the model agrees with `String.Substring` only on text inside the Basic Multilingual Plane.
- `length` in `Left` is a 32-bit `int` in C#; the model uses unbounded `int`. The code only compares it and passes it on, so no wrap-around happens.
