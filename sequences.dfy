/** Generic facts about sequences used by every column analyser and by the
    dataset wrapper: counting elements that satisfy a predicate (the pandas
    idiom `(predicate).sum()`), and pandas' `head(n)` / `tail(n)` slicing. */
module Sequences {

  /** The positions of `s` whose element satisfies `p`: the reference
      definition that `Count` is proved against. */
  ghost function Indices<T>(s: seq<T>, p: T -> bool): set<int>
  {
    set i | 0 <= i < |s| && p(s[i])
  }

  lemma IndicesSnoc<T>(s: seq<T>, p: T -> bool)
    requires |s| > 0
    ensures var k := |s| - 1;
      k !in Indices(s[..k], p) &&
      Indices(s, p) == Indices(s[..k], p) + (if p(s[k]) then {k} else {})
  {
  }

  /** Number of elements of `s` satisfying `p`. */
  function Count<T>(s: seq<T>, p: T -> bool): (r: nat)
    ensures r == |Indices(s, p)|
    ensures r <= |s|
  {
    if |s| == 0 then 0
    else
      var k := |s| - 1;
      IndicesSnoc(s, p);
      Count(s[..k], p) + (if p(s[k]) then 1 else 0)
  }

  lemma CountSnoc<T>(s: seq<T>, x: T, p: T -> bool)
    ensures Count(s + [x], p) == Count(s, p) + (if p(x) then 1 else 0)
  {
    assert (s + [x])[..|s|] == s;
  }

  /** Counting by a predicate that splits into two disjoint ones adds up. */
  lemma {:induction false} CountSplit<T>(s: seq<T>, p: T -> bool, q: T -> bool, r: T -> bool)
    requires forall x :: p(x) == (q(x) || r(x))
    requires forall x :: !(q(x) && r(x))
    ensures Count(s, p) == Count(s, q) + Count(s, r)
  {
    if |s| > 0 {
      var k := |s| - 1;
      CountSplit(s[..k], p, q, r);
      assert s == s[..k] + [s[k]];
      CountSnoc(s[..k], s[k], p);
      CountSnoc(s[..k], s[k], q);
      CountSnoc(s[..k], s[k], r);
    }
  }

  /** pandas `head(n)`: the first `n` elements, or for a negative `n` all but
      the last `-n` elements. */
  function Head<T>(s: seq<T>, n: int): (r: seq<T>)
    ensures n >= 0 ==> |r| == if n < |s| then n else |s|
    ensures n < 0 ==> |r| == if |s| + n > 0 then |s| + n else 0
    ensures r == s[..|r|]
  {
    if n >= 0 then (if n < |s| then s[..n] else s)
    else (if |s| + n > 0 then s[..|s| + n] else [])
  }

  /** pandas `tail(n)`: the last `n` elements, or for a negative `n` all but
      the first `-n` elements. */
  function Tail<T>(s: seq<T>, n: int): (r: seq<T>)
    ensures n >= 0 ==> |r| == if n < |s| then n else |s|
    ensures n < 0 ==> |r| == if |s| + n > 0 then |s| + n else 0
    ensures forall i :: 0 <= i < |r| ==> r[i] == s[|s| - |r| + i]
  {
    if n >= 0 then (if n < |s| then s[|s| - n..] else s)
    else (if |s| + n > 0 then s[-n..] else [])
  }

  /** `sub` is `s` with some elements left out and the rest in their order. */
  predicate IsSubsequence<T(==)>(sub: seq<T>, s: seq<T>)
  {
    if |sub| == 0 then true
    else if |s| == 0 then false
    else (sub[0] == s[0] && IsSubsequence(sub[1..], s[1..])) || IsSubsequence(sub, s[1..])
  }

  /** Keeps, in order, the elements of `s` whose partner in `tags` satisfies
      `keep`: pandas' `select_dtypes` over the column list. */
  function FilterBy<T(==,!new), K>(s: seq<T>, tags: seq<K>, keep: K -> bool): (r: seq<T>)
    requires |tags| == |s|
    ensures IsSubsequence(r, s)
    ensures forall x :: x in r <==> exists i :: 0 <= i < |s| && s[i] == x && keep(tags[i])
  {
    if |s| == 0 then []
    else
      var rest := FilterBy(s[1..], tags[1..], keep);
      assert forall x | x in s[1..] :: x in s;
      if keep(tags[0]) then [s[0]] + rest else rest
  }
}
