/**
 * Facts about taking sequences apart and putting them back together, stated
 * once for any element type so that the proofs about lines, replies and
 * requests can cite them without reasoning about the elements.
 */
module Seqs {

  /** Taking the whole of a sequence gives it back. */
  lemma TakeAll<T>(s: seq<T>, n: nat)
    requires n == |s|
    ensures s[..n] == s
  {
  }

  /** A sequence is its prefix followed by its suffix. */
  lemma TakeDrop<T>(s: seq<T>, i: nat)
    requires i <= |s|
    ensures s[..i] + s[i..] == s
  {
  }

  /** Appending nothing changes nothing. */
  lemma AppendEmpty<T>(a: seq<T>)
    ensures a + [] == a
  {
  }

  /** Dropping the last element of `a + b` drops the last element of `b`. */
  lemma AppendFront<T>(a: seq<T>, b: seq<T>)
    requires b != []
    ensures (a + b)[..|a| + |b| - 1] == a + b[..|b| - 1]
    ensures (a + b)[|a| + |b| - 1] == b[|b| - 1]
  {
  }

  /** A sequence with one element added at the end, taken apart again. */
  lemma Snoc<T>(xs: seq<T>, x: T)
    ensures (xs + [x])[..|xs|] == xs
    ensures (xs + [x])[|xs|] == x
  {
  }

  /** The prefix of length `n + 1`, taken apart into the prefix of length `n` and element `n`. */
  lemma TakeOneMore<T>(s: seq<T>, n: nat)
    requires n < |s|
    ensures s[..n + 1][..n] == s[..n]
    ensures s[..n + 1][n] == s[n]
    ensures s[..n] + [s[n]] == s[..n + 1]
  {
  }

  /** Appending is associative. */
  lemma AppendAssoc<T>(a: seq<T>, b: seq<T>, c: seq<T>)
    ensures a + b + c == a + (b + c)
  {
  }

  /** The empty prefix. */
  lemma TakeNone<T>(s: seq<T>)
    ensures s[..0] == []
  {
  }

  /** Slicing what is left after dropping `a` elements. */
  lemma DropSlices<T>(s: seq<T>, a: nat, m: nat)
    requires a + m <= |s|
    ensures s[a..][..m] == s[a..a + m]
    ensures s[a..][m..] == s[a + m..]
  {
  }

  /** The elements of `xs` that `keep` accepts, in their original order. */
  function Filter<T>(keep: T -> bool, xs: seq<T>): seq<T> {
    if xs == [] then
      []
    else
      var n := |xs| - 1;
      Filter(keep, xs[..n]) + (if keep(xs[n]) then [xs[n]] else [])
  }

  /** Filtering one more element keeps the earlier result and adds that element if it is accepted. */
  lemma FilterStep<T>(keep: T -> bool, xs: seq<T>, i: nat)
    requires i < |xs|
    ensures Filter(keep, xs[..i + 1]) == Filter(keep, xs[..i]) + (if keep(xs[i]) then [xs[i]] else [])
  {
    TakeOneMore(xs, i);
  }

  /** Filtering distributes over appending. */
  lemma {:induction false} FilterAppend<T>(keep: T -> bool, a: seq<T>, b: seq<T>)
    ensures Filter(keep, a + b) == Filter(keep, a) + Filter(keep, b)
  {
    if b == [] {
      AppendEmpty(a);
      AppendEmpty(Filter(keep, a));
    } else {
      var n := |b| - 1;
      FilterAppend(keep, a, b[..n]);
      AppendFront(a, b);
      AppendAssoc(Filter(keep, a), Filter(keep, b[..n]), if keep(b[n]) then [b[n]] else []);
    }
  }

  /** The positions of the elements of `xs` that `keep` accepts, in increasing order. */
  function Positions<T>(keep: T -> bool, xs: seq<T>): (ps: seq<nat>)
    ensures forall k :: 0 <= k < |ps| ==> ps[k] < |xs|
    ensures forall k, m :: 0 <= k < m < |ps| ==> ps[k] < ps[m]
    ensures forall i :: 0 <= i < |xs| ==> (i in ps <==> keep(xs[i]))
  {
    if xs == [] then
      []
    else
      var n := |xs| - 1;
      var front := Positions(keep, xs[..n]);
      assert forall i :: 0 <= i < n ==> xs[..n][i] == xs[i];
      front + (if keep(xs[n]) then [n] else [])
  }

  /** The filtered elements are exactly those at the accepted positions. */
  lemma {:induction false} FilterInOrder<T>(keep: T -> bool, xs: seq<T>)
    ensures |Filter(keep, xs)| == |Positions(keep, xs)|
    ensures forall k :: 0 <= k < |Filter(keep, xs)| ==> Filter(keep, xs)[k] == xs[Positions(keep, xs)[k]]
  {
    if xs != [] {
      var n := |xs| - 1;
      var front := xs[..n];
      FilterInOrder(keep, front);
      var kept, ps := Filter(keep, xs), Positions(keep, xs);
      var kept', ps' := Filter(keep, front), Positions(keep, front);
      forall k | 0 <= k < |kept| ensures kept[k] == xs[ps[k]] {
        if k < |kept'| {
          assert kept[k] == kept'[k] == front[ps'[k]];
          assert ps[k] == ps'[k];
        }
      }
    }
  }

  /** `f` applied to every element of `xs`. */
  function Map<A, B>(f: A -> B, xs: seq<A>): (ys: seq<B>)
    ensures |ys| == |xs|
    ensures forall k :: 0 <= k < |xs| ==> ys[k] == f(xs[k])
  {
    seq(|xs|, k requires 0 <= k < |xs| => f(xs[k]))
  }

  /** Mapping one more element adds its image at the end. */
  lemma MapSnoc<A, B>(f: A -> B, xs: seq<A>, x: A)
    ensures Map(f, xs + [x]) == Map(f, xs) + [f(x)]
  {
    Snoc(xs, x);
  }
}
