/** Order-preserving de-duplication, the behaviour of LINQ `Distinct` and of the
    `if (!list.Exists(x => x.Equals(item))) list.Add(item)` idiom. */
module Seqs {

  predicate NoDuplicates<T(==)>(s: seq<T>) {
    forall i, j :: 0 <= i < j < |s| ==> s[i] != s[j]
  }

  /** Appends to `acc` every element of `xs` not already present, in order. */
  function DistinctOnto<T(==)>(acc: seq<T>, xs: seq<T>): seq<T>
    decreases |xs|
  {
    if xs == [] then acc
    else DistinctOnto(if xs[0] in acc then acc else acc + [xs[0]], xs[1..])
  }

  /** `xs` with every repeated element dropped; the first occurrence of each is kept. */
  function Distinct<T(==)>(xs: seq<T>): seq<T> {
    DistinctOnto([], xs)
  }

  /** De-duplication keeps what was collected so far as a prefix, adds no duplicate,
      and loses no element. */
  lemma {:induction false} DistinctOntoSpec<T>(acc: seq<T>, xs: seq<T>)
    requires NoDuplicates(acc)
    ensures acc <= DistinctOnto(acc, xs)
    ensures NoDuplicates(DistinctOnto(acc, xs))
    ensures forall x :: x in DistinctOnto(acc, xs) <==> x in acc || x in xs
    decreases |xs|
  {
    if xs != [] {
      var acc' := if xs[0] in acc then acc else acc + [xs[0]];
      DistinctOntoSpec(acc', xs[1..]);
      assert forall x :: x in xs <==> x == xs[0] || x in xs[1..] by {
        assert xs == [xs[0]] + xs[1..];
      }
    }
  }

  /** `Distinct` has no repeated element, the same elements as its input, and is no longer. */
  lemma DistinctSpec<T>(xs: seq<T>)
    ensures NoDuplicates(Distinct(xs))
    ensures forall x :: x in Distinct(xs) <==> x in xs
    ensures |Distinct(xs)| <= |xs|
  {
    DistinctOntoSpec([], xs);
    DistinctLength([], xs);
  }

  lemma {:induction false} DistinctLength<T>(acc: seq<T>, xs: seq<T>)
    ensures |DistinctOnto(acc, xs)| <= |acc| + |xs|
    decreases |xs|
  {
    if xs != [] {
      DistinctLength(if xs[0] in acc then acc else acc + [xs[0]], xs[1..]);
    }
  }

  /** One step of the collecting loop: the run over `xs[i..]` continues the run over `xs[i+1..]`. */
  lemma DistinctOntoStep<T>(acc: seq<T>, xs: seq<T>, i: nat)
    requires i < |xs|
    ensures DistinctOnto(acc, xs[i..]) == DistinctOnto(if xs[i] in acc then acc else acc + [xs[i]], xs[i + 1..])
  {
    assert xs[i..][0] == xs[i];
    assert xs[i..][1..] == xs[i + 1..];
  }

  /** De-duplicating `xs + ys` is de-duplicating `xs` and then `ys` onto the result. */
  lemma {:induction false} DistinctOntoAppend<T>(acc: seq<T>, xs: seq<T>, ys: seq<T>)
    ensures DistinctOnto(acc, xs + ys) == DistinctOnto(DistinctOnto(acc, xs), ys)
    decreases |xs|
  {
    if xs == [] {
      assert xs + ys == ys;
    } else {
      assert (xs + ys)[0] == xs[0];
      assert (xs + ys)[1..] == xs[1..] + ys;
      DistinctOntoAppend(if xs[0] in acc then acc else acc + [xs[0]], xs[1..], ys);
    }
  }

  /** Order: extending the input by one element appends that element exactly when it is new.
      With `Distinct([]) == []` this fixes the result as the first occurrences in input order. */
  lemma DistinctSnoc<T>(xs: seq<T>, x: T)
    ensures Distinct(xs + [x]) == if x in xs then Distinct(xs) else Distinct(xs) + [x]
  {
    DistinctOntoAppend([], xs, [x]);
    DistinctSpec(xs);
    var d := Distinct(xs);
    assert [x][1..] == [];
    assert DistinctOnto(d, [x]) == DistinctOnto(if x in d then d else d + [x], []);
  }
}
