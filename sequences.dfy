/** Order-preserving selections from a sequence. */
module Sequences {

  /** `xs` can be obtained from `ys` by deleting elements, keeping the order of the rest. */
  predicate IsSubsequence<T(==)>(xs: seq<T>, ys: seq<T>)
    decreases |ys|
  {
    if xs == [] then true
    else if ys == [] then false
    else if xs[0] == ys[0] then IsSubsequence(xs[1..], ys[1..])
    else IsSubsequence(xs, ys[1..])
  }

  /** Every element of a subsequence is an element of the sequence it is taken from. */
  lemma {:induction false} SubsequenceElements<T>(xs: seq<T>, ys: seq<T>)
    requires IsSubsequence(xs, ys)
    ensures forall x :: x in xs ==> x in ys
    decreases |ys|
  {
    if xs != [] {
      if xs[0] == ys[0] {
        SubsequenceElements(xs[1..], ys[1..]);
        forall x | x in xs ensures x in ys {
          if x != xs[0] { assert x in xs[1..]; assert x in ys[1..]; }
        }
      } else {
        SubsequenceElements(xs, ys[1..]);
        forall x | x in xs ensures x in ys { assert x in ys[1..]; }
      }
    }
  }

  /** Extending both with the same element keeps a subsequence. */
  lemma {:induction false} SubsequenceAppend<T>(xs: seq<T>, ys: seq<T>, z: T)
    requires IsSubsequence(xs, ys)
    ensures IsSubsequence(xs + [z], ys + [z])
    decreases |ys|
  {
    if xs == [] {
      assert xs + [z] == [z];
      SubsequenceOfSingleton(ys, z);
    } else {
      assert ys != [];
      assert (xs + [z])[0] == xs[0] && (ys + [z])[0] == ys[0];
      assert (xs + [z])[1..] == xs[1..] + [z];
      assert (ys + [z])[1..] == ys[1..] + [z];
      if xs[0] == ys[0] {
        SubsequenceAppend(xs[1..], ys[1..], z);
      } else {
        SubsequenceAppend(xs, ys[1..], z);
      }
    }
  }

  /** The last element alone is a subsequence. */
  lemma {:induction false} SubsequenceOfSingleton<T>(ys: seq<T>, z: T)
    ensures IsSubsequence([z], ys + [z])
    decreases |ys|
  {
    if ys != [] {
      assert (ys + [z])[1..] == ys[1..] + [z];
      if ys[0] != z {
        SubsequenceOfSingleton(ys[1..], z);
      } else {
        assert ([z])[1..] == [];
      }
    }
  }

  /** Extending only the sequence keeps a subsequence. */
  lemma {:induction false} SubsequenceExtend<T>(xs: seq<T>, ys: seq<T>, z: T)
    requires IsSubsequence(xs, ys)
    ensures IsSubsequence(xs, ys + [z])
    decreases |ys|
  {
    if xs != [] {
      assert (ys + [z])[0] == ys[0];
      assert (ys + [z])[1..] == ys[1..] + [z];
      if xs[0] == ys[0] {
        SubsequenceExtend(xs[1..], ys[1..], z);
      } else {
        SubsequenceExtend(xs, ys[1..], z);
      }
    }
  }

  /** No element occurs twice. */
  predicate NoDuplicates<T(==)>(xs: seq<T>) {
    forall i, j :: 0 <= i < j < |xs| ==> xs[i] != xs[j]
  }

  /** The elements of `xs` in the order of their first occurrence, each
      once: what keeping an element only when it was not kept before gives. */
  function Unique<T(==)>(xs: seq<T>): (u: seq<T>)
    ensures NoDuplicates(u)
    ensures forall i :: 0 <= i < |xs| ==> xs[i] in u
    ensures forall i :: 0 <= i < |u| ==> u[i] in xs
    ensures IsSubsequence(u, xs)
  {
    if xs == [] then []
    else
      var init := xs[..|xs| - 1];
      var last := xs[|xs| - 1];
      var u := Unique(init);
      assert xs == init + [last];
      if last in u then
        SubsequenceExtend(u, init, last);
        u
      else
        SubsequenceAppend(u, init, last);
        u + [last]
  }

  /** The position of the first occurrence of `x` in `xs`. */
  function FirstIndex<T(==)>(xs: seq<T>, x: T): (i: nat)
    requires x in xs
    ensures i < |xs| && xs[i] == x && x !in xs[..i]
  {
    if xs[0] == x then 0
    else
      assert x in xs[1..];
      var j := FirstIndex(xs[1..], x);
      assert xs[..j + 1] == [xs[0]] + xs[1..][..j];
      j + 1
  }

  /** Appending does not move a first occurrence. */
  lemma FirstIndexAppend<T>(xs: seq<T>, z: T, x: T)
    requires x in xs
    ensures x in xs + [z] && FirstIndex(xs + [z], x) == FirstIndex(xs, x)
  {
    var i := FirstIndex(xs, x);
    FirstIndexUnique(xs + [z], x, i);
  }

  /** An occurrence with none before it is the first one. */
  lemma FirstIndexUnique<T>(xs: seq<T>, x: T, i: nat)
    requires i < |xs| && xs[i] == x && x !in xs[..i]
    ensures FirstIndex(xs, x) == i
  {
  }

  /** `Unique` lists the elements in the order in which they first occur. */
  lemma {:induction false} UniqueFirstOrder<T>(xs: seq<T>)
    ensures forall i, j :: 0 <= i < j < |Unique(xs)| ==> FirstIndex(xs, Unique(xs)[i]) < FirstIndex(xs, Unique(xs)[j])
  {
    if xs != [] {
      var init := xs[..|xs| - 1];
      var last := xs[|xs| - 1];
      var u := Unique(init);
      UniqueFirstOrder(init);
      assert xs == init + [last];
      forall x | x in u ensures FirstIndex(xs, x) == FirstIndex(init, x) {
        FirstIndexAppend(init, last, x);
      }
      if last !in u {
        assert last !in init;
        assert xs[..|init|] == init;
        FirstIndexUnique(xs, last, |init|);
        forall i, j | 0 <= i < j < |u + [last]|
          ensures FirstIndex(xs, (u + [last])[i]) < FirstIndex(xs, (u + [last])[j])
        {
          assert (u + [last])[i] == u[i];
          if j < |u| {
            assert (u + [last])[j] == u[j];
          }
        }
      }
    }
  }

  /** One step of `Unique`: the last element is dropped exactly when it already occurs. */
  lemma UniqueStep<T>(xs: seq<T>)
    requires xs != []
    ensures var u := Unique(xs[..|xs| - 1]);
      Unique(xs) == if xs[|xs| - 1] in u then u else u + [xs[|xs| - 1]]
  {
  }

  /** In a list without duplicates, the last element does not occur before it. */
  lemma LastNotInInit<T>(xs: seq<T>)
    requires xs != [] && NoDuplicates(xs)
    ensures xs[|xs| - 1] !in xs[..|xs| - 1] && NoDuplicates(xs[..|xs| - 1])
  {
    var init := xs[..|xs| - 1];
    forall i | 0 <= i < |init| ensures init[i] != xs[|xs| - 1] {
      assert init[i] == xs[i];
    }
  }

  /** A list without duplicates is its own `Unique`. */
  lemma {:induction false} UniqueOfDistinct<T>(xs: seq<T>)
    requires NoDuplicates(xs)
    ensures Unique(xs) == xs
  {
    if xs != [] {
      var init := xs[..|xs| - 1];
      LastNotInInit(xs);
      UniqueOfDistinct(init);
      UniqueStep(xs);
      assert xs == init + [xs[|xs| - 1]];
    }
  }

  /** Deduplicating twice is deduplicating once. */
  lemma UniqueIdempotent<T>(xs: seq<T>)
    ensures Unique(Unique(xs)) == Unique(xs)
  {
    UniqueOfDistinct(Unique(xs));
  }

  /** A repeated element is kept once; two different elements are both kept. */
  lemma UniquePair<T>(x: T, y: T)
    ensures Unique([x, y]) == if x == y then [x] else [x, y]
  {
    UniqueStep([x, y]);
    assert [x, y][..1] == [x];
    UniqueOfDistinct([x]);
  }

  /** In a list without duplicates, the first element does not occur after it. */
  lemma FirstNotInTail<T>(xs: seq<T>)
    requires xs != [] && NoDuplicates(xs)
    ensures xs[0] !in xs[1..] && NoDuplicates(xs[1..])
  {
    var tail := xs[1..];
    forall i | 0 <= i < |tail| ensures tail[i] != xs[0] {
      assert tail[i] == xs[i + 1];
    }
  }

  /** An element that does not occur in a list without duplicates can go in front. */
  lemma ConsDistinct<T>(x: T, xs: seq<T>)
    requires x !in xs && NoDuplicates(xs)
    ensures NoDuplicates([x] + xs)
  {
    var r := [x] + xs;
    forall i, j | 0 <= i < j < |r| ensures r[i] != r[j] {
      assert r[j] == xs[j - 1];
      if i > 0 {
        assert r[i] == xs[i - 1];
      }
    }
  }
}
