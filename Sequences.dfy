/**
 * Filtering a table the way a `WHERE` clause does, keeping the order of the
 * rows, and finding the first row that passes a test, as `.first()` does.
 */
module Sequences {
  import opened Wrappers

  /** `a` is `b` with some elements left out: the order of what is kept is the order in `b`. */
  ghost predicate SubsequenceOf<T>(a: seq<T>, b: seq<T>)
    decreases |b|
  {
    if a == [] then true
    else if b == [] then false
    else (a[|a| - 1] == b[|b| - 1] && SubsequenceOf(a[..|a| - 1], b[..|b| - 1]))
         || SubsequenceOf(a, b[..|b| - 1])
  }

  lemma {:induction false} SubsequenceTransitive<T>(a: seq<T>, b: seq<T>, c: seq<T>)
    requires SubsequenceOf(a, b) && SubsequenceOf(b, c)
    ensures SubsequenceOf(a, c)
    decreases |c|
  {
    if a != [] {
      var b', c' := b[..|b| - 1], c[..|c| - 1];
      if b[|b| - 1] == c[|c| - 1] && SubsequenceOf(b', c') {
        if a[|a| - 1] == b[|b| - 1] && SubsequenceOf(a[..|a| - 1], b') {
          SubsequenceTransitive(a[..|a| - 1], b', c');
        } else {
          SubsequenceTransitive(a, b', c');
        }
      } else {
        SubsequenceTransitive(a, b, c');
      }
    }
  }

  lemma {:induction false} SubsequenceReflexive<T>(a: seq<T>)
    ensures SubsequenceOf(a, a)
    decreases |a|
  {
    if a != [] {
      SubsequenceReflexive(a[..|a| - 1]);
    }
  }

  /** The elements of `s` that satisfy `f`, in their order in `s`. */
  function Filter<T(!new)>(s: seq<T>, f: T -> bool): (r: seq<T>)
    ensures forall x :: x in r <==> x in s && f(x)
    ensures forall x :: f(x) ==> multiset(r)[x] == multiset(s)[x]
    ensures |r| <= |s|
    ensures SubsequenceOf(r, s)
    decreases |s|
  {
    if s == [] then []
    else
      var init, x := Filter(s[..|s| - 1], f), s[|s| - 1];
      assert s == s[..|s| - 1] + [x];
      if f(x) then
        assert (init + [x])[..|init|] == init;
        init + [x]
      else init
  }

  /** Filtering by two tests that agree on every element gives the same rows. */
  lemma {:induction false} FilterCongruent<T(!new)>(s: seq<T>, f: T -> bool, g: T -> bool)
    requires forall x :: x in s ==> f(x) == g(x)
    ensures Filter(s, f) == Filter(s, g)
    decreases |s|
  {
    if s != [] {
      FilterCongruent(s[..|s| - 1], f, g);
    }
  }

  /**
   * Filtering by `f`, and then by `g` when `applies`, is one filter by a test
   * `h` that is `f` and, when `applies`, also `g`.
   */
  lemma {:induction false} FilterWhen<T(!new)>(s: seq<T>, f: T -> bool, applies: bool, g: T -> bool, h: T -> bool)
    requires forall x :: x in s ==> h(x) == (f(x) && (applies ==> g(x)))
    ensures (if applies then Filter(Filter(s, f), g) else Filter(s, f)) == Filter(s, h)
    decreases |s|
  {
    if s != [] {
      var init, x := s[..|s| - 1], s[|s| - 1];
      assert s == init + [x];
      FilterWhen(init, f, applies, g, h);
      if applies && f(x) {
        var fi := Filter(init, f);
        assert (fi + [x])[..|fi|] == fi;
      }
    }
  }

  lemma FilterSingleton<T(!new)>(x: T, f: T -> bool)
    ensures Filter([x], f) == if f(x) then [x] else []
  {
  }

  /** The position of the first element of `s` that satisfies `f`. */
  function FirstIndex<T>(s: seq<T>, f: T -> bool): (k: Option<nat>)
    ensures k.Some? ==> k.value < |s| && f(s[k.value]) && forall j :: 0 <= j < k.value ==> !f(s[j])
    ensures k.None? ==> forall j :: 0 <= j < |s| ==> !f(s[j])
  {
    if s == [] then None
    else if f(s[0]) then Some(0)
    else match FirstIndex(s[1..], f)
      case None => None
      case Some(j) => Some(j + 1)
  }
}
