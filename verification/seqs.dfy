/** Small value types and sequence helpers shared by the other modules.
    `Dedup` and `Insert` model a JavaScript `Set` whose iteration order is
    insertion order. */
module Seqs {

  datatype Option<+T> = None | Some(value: T)

  /** No element occurs twice. */
  ghost predicate NoDup<T>(xs: seq<T>) {
    forall i, j :: 0 <= i < j < |xs| ==> xs[i] != xs[j]
  }

  /** `set.add(x)` on an insertion-ordered set held as a sequence. */
  function Insert<T(==,!new)>(xs: seq<T>, x: T): (r: seq<T>)
    ensures NoDup(xs) ==> NoDup(r)
    ensures forall y :: y in r <==> y in xs || y == x
    ensures xs <= r && |r| <= |xs| + 1
  {
    if x in xs then xs else xs + [x]
  }

  /** `Array.from(new Set(xs))`: first occurrences, in order. */
  function Dedup<T(==,!new)>(xs: seq<T>): (r: seq<T>)
    ensures NoDup(r)
    ensures forall y :: y in r <==> y in xs
  {
    DedupInto([], xs)
  }

  function DedupInto<T(==,!new)>(acc: seq<T>, xs: seq<T>): (r: seq<T>)
    requires NoDup(acc)
    ensures NoDup(r)
    ensures forall y :: y in r <==> y in acc || y in xs
    ensures acc <= r
    decreases |xs|
  {
    if xs == [] then acc else DedupInto(Insert(acc, xs[0]), xs[1..])
  }

  /** Building a set from a list that already has no duplicates changes nothing. */
  lemma {:induction false} DedupOfDistinct<T(!new)>(xs: seq<T>)
    requires NoDup(xs)
    ensures Dedup(xs) == xs
  {
    DedupIntoDistinct([], xs);
  }

  lemma {:induction false} DedupIntoDistinct<T(!new)>(acc: seq<T>, xs: seq<T>)
    requires NoDup(acc) && NoDup(acc + xs)
    ensures DedupInto(acc, xs) == acc + xs
    decreases |xs|
  {
    if xs != [] {
      forall i | 0 <= i < |acc| ensures acc[i] != xs[0] {
        assert acc[i] == (acc + xs)[i] && xs[0] == (acc + xs)[|acc|];
      }
      assert acc + xs == (acc + [xs[0]]) + xs[1..];
      assert NoDup(acc + [xs[0]]) by {
        forall i, j | 0 <= i < j < |acc| + 1 ensures (acc + [xs[0]])[i] != (acc + [xs[0]])[j] {
          assert (acc + [xs[0]])[i] == (acc + xs)[i] && (acc + [xs[0]])[j] == (acc + xs)[j];
        }
      }
      DedupIntoDistinct(acc + [xs[0]], xs[1..]);
    }
  }

  /** A sequence with no members is empty. */
  lemma NoMembersEmpty<T>(xs: seq<T>)
    ensures (forall x :: x !in xs) ==> xs == []
  {
    if xs != [] {
      assert xs[0] in xs;
    }
  }

  /** Keeps the elements for which `keep` holds, in order. */
  function Filter<T(!new)>(xs: seq<T>, keep: T -> bool): (r: seq<T>)
    ensures |r| <= |xs|
    ensures forall y :: y in r <==> y in xs && keep(y)
    ensures NoDup(xs) ==> NoDup(r)
  {
    if xs == [] then []
    else
      var rest := Filter(xs[1..], keep);
      assert forall y :: y in xs <==> y == xs[0] || y in xs[1..];
      if keep(xs[0]) then
        assert NoDup(xs) ==> xs[0] !in xs[1..] && NoDup(xs[1..]) by {
          if NoDup(xs) {
            forall i, j | 0 <= i < j < |xs[1..]| ensures xs[1..][i] != xs[1..][j] {
              assert xs[1..][i] == xs[i + 1] && xs[1..][j] == xs[j + 1];
            }
          }
        }
        [xs[0]] + rest
      else
        assert NoDup(xs) ==> NoDup(xs[1..]) by {
          if NoDup(xs) {
            forall i, j | 0 <= i < j < |xs[1..]| ensures xs[1..][i] != xs[1..][j] {
              assert xs[1..][i] == xs[i + 1] && xs[1..][j] == xs[j + 1];
            }
          }
        }
        rest
  }

  /** The filter of a non-empty list: its head if kept, then the filter of its tail. */
  lemma FilterCons<T(!new)>(xs: seq<T>, keep: T -> bool)
    requires xs != []
    ensures Filter(xs, keep) == (if keep(xs[0]) then [xs[0]] else []) + Filter(xs[1..], keep)
  {
  }

  lemma {:induction false} FilterAppend<T(!new)>(xs: seq<T>, x: T, keep: T -> bool)
    ensures Filter(xs + [x], keep) == Filter(xs, keep) + (if keep(x) then [x] else [])
    decreases |xs|
  {
    if xs == [] {
      assert xs + [x] == [x];
    } else {
      assert (xs + [x])[1..] == xs[1..] + [x];
      FilterAppend(xs[1..], x, keep);
    }
  }

  /** Membership in a concatenation is membership in one of its parts. */
  lemma InConcat<T>(a: seq<T>, b: seq<T>, x: T)
    ensures x in a + b <==> x in a || x in b
  {
  }

  /** The lists one after the other: what repeated `push(...xs)` builds. */
  function Flatten<T>(xss: seq<seq<T>>): seq<T>
    decreases |xss|
  {
    if xss == [] then [] else Flatten(xss[..|xss| - 1]) + xss[|xss| - 1]
  }

  /** The total length of the lists. */
  function TotalLength<T>(xss: seq<seq<T>>): nat
    decreases |xss|
  {
    if xss == [] then 0 else TotalLength(xss[..|xss| - 1]) + |xss[|xss| - 1]|
  }

  /** An element of the flattened list is an element of one of the lists, and back. */
  lemma {:induction false} InFlatten<T>(xss: seq<seq<T>>, x: T)
    ensures x in Flatten(xss) <==> exists i :: 0 <= i < |xss| && x in xss[i]
    decreases |xss|
  {
    if xss != [] {
      var n := |xss| - 1;
      InFlatten(xss[..n], x);
      InConcat(Flatten(xss[..n]), xss[n], x);
      assert forall i :: 0 <= i < n ==> xss[..n][i] == xss[i];
    }
  }

  lemma {:induction false} FlattenLength<T>(xss: seq<seq<T>>)
    ensures |Flatten(xss)| == TotalLength(xss)
    decreases |xss|
  {
    if xss != [] {
      FlattenLength(xss[..|xss| - 1]);
    }
  }

  /** Lists of the same lengths have the same total length. */
  lemma {:induction false} TotalLengthSame<A, B>(xss: seq<seq<A>>, yss: seq<seq<B>>)
    requires |xss| == |yss| && forall i :: 0 <= i < |xss| ==> |xss[i]| == |yss[i]|
    ensures TotalLength(xss) == TotalLength(yss)
    decreases |xss|
  {
    if xss != [] {
      var n := |xss| - 1;
      assert forall i :: 0 <= i < n ==> xss[..n][i] == xss[i] && yss[..n][i] == yss[i];
      TotalLengthSame(xss[..n], yss[..n]);
    }
  }

  /** A filter that every element passes returns its input unchanged. */
  lemma {:induction false} FilterKeepsAll<T(!new)>(xs: seq<T>, keep: T -> bool)
    requires forall x :: x in xs ==> keep(x)
    ensures Filter(xs, keep) == xs
    decreases |xs|
  {
    if xs != [] {
      assert xs[0] in xs;
      assert forall x :: x in xs[1..] ==> x in xs;
      FilterKeepsAll(xs[1..], keep);
      assert xs == [xs[0]] + xs[1..];
    }
  }

  /** The position of the first element satisfying `p`, searching from
      `from` on: what a `for` loop with an early `return`, `Array.find` or a
      chain of `||` computes. */
  function FirstFrom<T>(xs: seq<T>, p: T -> bool, from: nat): (r: Option<nat>)
    requires from <= |xs|
    ensures r.Some? ==> from <= r.value < |xs| && p(xs[r.value])
    ensures r.Some? ==> forall k :: from <= k < r.value ==> !p(xs[k])
    ensures r.None? <==> forall k :: from <= k < |xs| ==> !p(xs[k])
    decreases |xs| - from
  {
    if from == |xs| then None
    else if p(xs[from]) then Some(from)
    else FirstFrom(xs, p, from + 1)
  }

  function First<T>(xs: seq<T>, p: T -> bool): (r: Option<nat>)
    ensures r.Some? ==> r.value < |xs| && p(xs[r.value]) && forall k :: 0 <= k < r.value ==> !p(xs[k])
    ensures r.None? <==> forall k :: 0 <= k < |xs| ==> !p(xs[k])
  {
    FirstFrom(xs, p, 0)
  }
}
