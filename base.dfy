/** Option/Result wrappers and a few facts about sequences of distinct handles. */
module Base {

  datatype Option<+T> = None | Some(value: T)

  datatype Result<+T, +E> = Ok(value: T) | Err(error: E)

  /** No element occurs twice. */
  ghost predicate Distinct<T>(s: seq<T>) {
    forall i, j :: 0 <= i < j < |s| ==> s[i] != s[j]
  }

  /** Any two elements of `sub` occur in `s` in the same relative order. */
  ghost predicate KeepsOrder<T>(sub: seq<T>, s: seq<T>) {
    forall i, j :: 0 <= i < j < |sub| ==>
      exists a, b :: 0 <= a < b < |s| && s[a] == sub[i] && s[b] == sub[j]
  }

  /** The elements of `s` that are not in `r`, in their order (a list comprehension with a filter). */
  function Minus<T(!new)>(s: seq<T>, r: set<T>): (out: seq<T>)
    ensures forall x :: x in out <==> x in s && x !in r
    ensures |out| <= |s|
  {
    if s == [] then []
    else if s[|s| - 1] in r then Minus(s[..|s| - 1], r)
    else Minus(s[..|s| - 1], r) + [s[|s| - 1]]
  }

  lemma {:induction false} MinusAppend<T(!new)>(s: seq<T>, t: seq<T>, r: set<T>)
    ensures Minus(s + t, r) == Minus(s, r) + Minus(t, r)
    decreases |t|
  {
    if t == [] {
      assert s + t == s;
    } else {
      var t' := t[..|t| - 1];
      assert (s + t)[..|s + t| - 1] == s + t';
      MinusAppend(s, t', r);
    }
  }

  lemma {:induction false} MinusTwice<T(!new)>(s: seq<T>, a: set<T>, b: set<T>)
    ensures Minus(Minus(s, a), b) == Minus(s, a + b)
    decreases |s|
  {
    if s != [] {
      MinusTwice(s[..|s| - 1], a, b);
    }
  }

  /** One more removal after `Minus(s, a)` is one removal of the union. */
  lemma MinusThen<T(!new)>(g: seq<T>, s: seq<T>, a: set<T>, x: T, ax: set<T>)
    requires g == Minus(s, a) && ax == a + {x}
    ensures Minus(g, {x}) == Minus(s, ax)
  {
    MinusTwice(s, a, {x});
  }

  lemma {:induction false} MinusNothing<T(!new)>(s: seq<T>, r: set<T>)
    requires forall x :: x in s ==> x !in r
    ensures Minus(s, r) == s
    decreases |s|
  {
    if s != [] {
      MinusNothing(s[..|s| - 1], r);
      InitLast(s);
    }
  }

  lemma {:induction false} MinusDistinct<T(!new)>(s: seq<T>, r: set<T>)
    requires Distinct(s)
    ensures Distinct(Minus(s, r))
    decreases |s|
  {
    if s != [] {
      var s' := s[..|s| - 1];
      MinusDistinct(s', r);
    }
  }

  /** A non-empty sequence is its front followed by its last element. */
  lemma InitLast<T>(s: seq<T>)
    requires s != []
    ensures s[..|s| - 1] + [s[|s| - 1]] == s
  {
  }

  lemma DistinctAppend<T>(s: seq<T>, x: T)
    requires Distinct(s) && x !in s
    ensures Distinct(s + [x])
  {
  }

  /** A distinct sequence holds each of its elements exactly once. */
  lemma {:induction false} DistinctCount<T>(s: seq<T>, x: T)
    requires Distinct(s)
    ensures multiset(s)[x] == if x in s then 1 else 0
    decreases |s|
  {
    if s != [] {
      var s' := s[..|s| - 1];
      assert s == s' + [s[|s| - 1]];
      DistinctCount(s', x);
    }
  }

  /** A rearrangement of a distinct sequence is distinct. */
  lemma DistinctPermutation<T>(s: seq<T>, t: seq<T>)
    requires Distinct(s) && multiset(s) == multiset(t)
    ensures Distinct(t)
  {
    forall i, j | 0 <= i < j < |t| ensures t[i] != t[j] {
      var x := t[i];
      DistinctCount(s, x);
      assert t == t[..i] + [x] + t[i + 1..j] + [t[j]] + t[j + 1..];
    }
  }
}
