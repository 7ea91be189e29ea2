/**
  Ordered lists built with an "append if absent" test: the
  `if (imps.indexOf(x) === -1) imps.push(x)` idiom of the editor plugin.
 */
module Ordered {

  predicate NoDuplicates<T(==)>(xs: seq<T>) {
    forall i, j :: 0 <= i < j < |xs| ==> xs[i] != xs[j]
  }

  /** One step of the idiom. */
  function AddAbsent<T(==)>(acc: seq<T>, x: T): seq<T> {
    if x in acc then acc else acc + [x]
  }

  /** The idiom applied to every element of `xs` in turn, starting from `acc`. */
  function AppendAbsent<T(==)>(acc: seq<T>, xs: seq<T>): seq<T>
    decreases |xs|
  {
    if |xs| == 0 then acc else AppendAbsent(AddAbsent(acc, xs[0]), xs[1..])
  }

  /** The first occurrence of every element of `xs`, in first-seen order. */
  function Distinct<T(==)>(xs: seq<T>): seq<T> {
    AppendAbsent([], xs)
  }

  /** Position of the first occurrence of `x` in `xs`. */
  function FirstIndex<T(==)>(xs: seq<T>, x: T): (i: nat)
    requires x in xs
    ensures i < |xs| && xs[i] == x && x !in xs[..i]
  {
    if xs[0] == x then 0
    else
      var i := FirstIndex(xs[1..], x);
      assert xs[..i + 1] == [xs[0]] + xs[1..][..i];
      i + 1
  }

  /** Appending in two stages is appending once. */
  lemma {:induction false} AppendAbsentConcat<T>(acc: seq<T>, a: seq<T>, b: seq<T>)
    ensures AppendAbsent(acc, a + b) == AppendAbsent(AppendAbsent(acc, a), b)
    decreases |a|
  {
    if |a| == 0 {
      assert a + b == b;
    } else {
      assert (a + b)[0] == a[0];
      assert (a + b)[1..] == a[1..] + b;
      AppendAbsentConcat(AddAbsent(acc, a[0]), a[1..], b);
    }
  }

  /** Appending one more element is one more step of the idiom. */
  lemma AppendAbsentSnoc<T>(acc: seq<T>, xs: seq<T>, x: T)
    ensures AppendAbsent(acc, xs + [x]) == AddAbsent(AppendAbsent(acc, xs), x)
  {
    AppendAbsentConcat(acc, xs, [x]);
    assert [x][1..] == [];
  }

  /** What is already in the list stays in front, in place. */
  lemma {:induction false} AppendAbsentPrefix<T>(acc: seq<T>, xs: seq<T>)
    ensures acc <= AppendAbsent(acc, xs)
    decreases |xs|
  {
    if |xs| > 0 {
      AppendAbsentPrefix(AddAbsent(acc, xs[0]), xs[1..]);
    }
  }

  /** The result holds exactly the elements of the start list and of `xs`. */
  lemma {:induction false} AppendAbsentMembers<T>(acc: seq<T>, xs: seq<T>)
    ensures forall x :: x in AppendAbsent(acc, xs) <==> x in acc || x in xs
    decreases |xs|
  {
    if |xs| > 0 {
      AppendAbsentMembers(AddAbsent(acc, xs[0]), xs[1..]);
      assert xs == [xs[0]] + xs[1..];
    }
  }

  /** The idiom never creates a duplicate. */
  lemma {:induction false} AppendAbsentNoDuplicates<T>(acc: seq<T>, xs: seq<T>)
    requires NoDuplicates(acc)
    ensures NoDuplicates(AppendAbsent(acc, xs))
    decreases |xs|
  {
    if |xs| > 0 {
      AppendAbsentNoDuplicates(AddAbsent(acc, xs[0]), xs[1..]);
    }
  }

  /** Every element appended after the start list comes from `xs` and was not in the start list. */
  lemma {:induction false} AppendAbsentNew<T>(acc: seq<T>, xs: seq<T>)
    ensures |acc| <= |AppendAbsent(acc, xs)|
    ensures forall k :: |acc| <= k < |AppendAbsent(acc, xs)| ==>
      AppendAbsent(acc, xs)[k] in xs && AppendAbsent(acc, xs)[k] !in acc
    decreases |xs|
  {
    AppendAbsentPrefix(acc, xs);
    if |xs| > 0 {
      var acc' := AddAbsent(acc, xs[0]);
      AppendAbsentNew(acc', xs[1..]);
      AppendAbsentPrefix(acc', xs[1..]);
      var r := AppendAbsent(acc, xs);
      forall k | |acc| <= k < |r| ensures r[k] in xs && r[k] !in acc {
        if k < |acc'| {
          assert r[k] == acc'[k] == xs[0];
        } else {
          assert r[k] in xs[1..];
        }
      }
    }
  }

  /** The appended elements come in the order of their first occurrence in `xs`. */
  lemma {:induction false} AppendAbsentOrder<T>(acc: seq<T>, xs: seq<T>)
    ensures forall i, j :: |acc| <= i < j < |AppendAbsent(acc, xs)| ==>
      AppendAbsent(acc, xs)[i] in xs && AppendAbsent(acc, xs)[j] in xs &&
      FirstIndex(xs, AppendAbsent(acc, xs)[i]) < FirstIndex(xs, AppendAbsent(acc, xs)[j])
    decreases |xs|
  {
    AppendAbsentNew(acc, xs);
    if |xs| > 0 {
      var x := xs[0];
      var acc' := AddAbsent(acc, x);
      var r := AppendAbsent(acc, xs);
      assert r == AppendAbsent(acc', xs[1..]);
      AppendAbsentOrder(acc', xs[1..]);
      AppendAbsentNew(acc', xs[1..]);
      AppendAbsentPrefix(acc', xs[1..]);
      forall k | |acc'| <= k < |r| ensures r[k] in xs[1..] && FirstIndex(xs, r[k]) == FirstIndex(xs[1..], r[k]) + 1 {
        assert r[k] !in acc';
        assert x in acc';
      }
      forall i, j | |acc| <= i < j < |r|
        ensures r[i] in xs && r[j] in xs && FirstIndex(xs, r[i]) < FirstIndex(xs, r[j])
      {
        if i < |acc'| {
          assert r[i] == x;
        }
      }
    }
  }

  /** `Distinct` has no duplicates, keeps exactly the elements of its input, in first-seen order. */
  lemma DistinctProperties<T>(xs: seq<T>)
    ensures NoDuplicates(Distinct(xs))
    ensures forall x :: x in Distinct(xs) <==> x in xs
    ensures forall i, j :: 0 <= i < j < |Distinct(xs)| ==>
      FirstIndex(xs, Distinct(xs)[i]) < FirstIndex(xs, Distinct(xs)[j])
  {
    AppendAbsentNoDuplicates([], xs);
    AppendAbsentMembers([], xs);
    AppendAbsentOrder([], xs);
  }

  /**
    The distinct elements of `a + b`: those of `a` first, then the elements
    of `b` that are not in `a`.
   */
  lemma DistinctConcat<T>(a: seq<T>, b: seq<T>)
    ensures Distinct(a) <= Distinct(a + b)
    ensures forall k :: |Distinct(a)| <= k < |Distinct(a + b)| ==>
      Distinct(a + b)[k] in b && Distinct(a + b)[k] !in a
  {
    AppendAbsentConcat([], a, b);
    AppendAbsentPrefix(Distinct(a), b);
    AppendAbsentNew(Distinct(a), b);
    AppendAbsentMembers([], a);
  }

  /** Concatenation is associative. */
  lemma AppendAssoc<T>(a: seq<T>, b: seq<T>, c: seq<T>)
    ensures (a + b) + c == a + (b + c)
  {
  }

  /** The lists `f(x)` for the elements `x` of `xs`, concatenated in order: `extend` called in a loop. */
  function FlatMap<T, U>(xs: seq<T>, f: T -> seq<U>): seq<U>
    decreases |xs|
  {
    if |xs| == 0 then [] else FlatMap(xs[..|xs| - 1], f) + f(xs[|xs| - 1])
  }

  /** One more element of a prefix adds its image at the end. */
  lemma FlatMapPrefixSnoc<T, U>(xs: seq<T>, i: nat, f: T -> seq<U>)
    requires i < |xs|
    ensures FlatMap(xs[..i + 1], f) == FlatMap(xs[..i], f) + f(xs[i])
  {
    assert xs[..i + 1][..i] == xs[..i];
  }

  /** Flattening a concatenation concatenates the flattened parts. */
  lemma {:induction false} FlatMapAppend<T, U>(a: seq<T>, b: seq<T>, f: T -> seq<U>)
    ensures FlatMap(a + b, f) == FlatMap(a, f) + FlatMap(b, f)
    decreases |b|
  {
    if |b| == 0 {
      assert a + b == a;
    } else {
      FlatMapAppend(a, b[..|b| - 1], f);
      assert (a + b)[..|a + b| - 1] == a + b[..|b| - 1];
    }
  }

  /** An element of the flattened list comes from the list of some element, and every such element is there. */
  lemma {:induction false} FlatMapMembers<T, U>(xs: seq<T>, f: T -> seq<U>)
    ensures forall y :: y in FlatMap(xs, f) <==> exists i :: 0 <= i < |xs| && y in f(xs[i])
    decreases |xs|
  {
    if |xs| > 0 {
      var init := xs[..|xs| - 1];
      FlatMapMembers(init, f);
      forall y ensures y in FlatMap(xs, f) <==> exists i :: 0 <= i < |xs| && y in f(xs[i]) {
        if y in FlatMap(init, f) {
          var i :| 0 <= i < |init| && y in f(init[i]);
          assert xs[i] == init[i];
        }
        if i :| 0 <= i < |xs| && y in f(xs[i]) {
          if i < |init| {
            assert init[i] == xs[i];
          }
        }
      }
    }
  }
}
