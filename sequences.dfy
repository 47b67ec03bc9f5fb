/**
 * The iterator adaptors the Rust code is built from (`map`, `filter`,
 * `filter_map`, string joining), as functions on sequences, with the facts
 * about them that the rest of the model relies on: what they keep, in which
 * order, and from which positions.
 */
module Sequences {
  import opened Wrappers

  /** `xs.iter().map(f).collect()` */
  function Map<A, B>(f: A -> B, xs: seq<A>): (r: seq<B>)
    ensures |r| == |xs|
    ensures forall k :: 0 <= k < |xs| ==> r[k] == f(xs[k])
  {
    seq(|xs|, k requires 0 <= k < |xs| => f(xs[k]))
  }

  lemma MapSnoc<A, B>(f: A -> B, xs: seq<A>, x: A)
    ensures Map(f, xs + [x]) == Map(f, xs) + [f(x)]
  {
    assert forall k :: 0 <= k < |xs| ==> (xs + [x])[k] == xs[k];
  }

  function Kept<B>(o: Option<B>): seq<B>
  {
    match o
    case Some(y) => [y]
    case None => []
  }

  /** `xs.iter().filter_map(f).collect()`: the `Some` results of `f`, in order. */
  function FilterMap<A, B>(xs: seq<A>, f: A -> Option<B>): seq<B>
  {
    if xs == [] then [] else FilterMap(xs[..|xs| - 1], f) + Kept(f(xs[|xs| - 1]))
  }

  /** The positions of `xs` at which `f` gives `Some`, in increasing order. */
  function Positions<A, B>(xs: seq<A>, f: A -> Option<B>): seq<nat>
  {
    if xs == [] then []
    else Positions(xs[..|xs| - 1], f) + if f(xs[|xs| - 1]).Some? then [|xs| - 1] else []
  }

  /** The positions are in range and increase. */
  lemma {:induction false} PositionsIncrease<A, B>(xs: seq<A>, f: A -> Option<B>)
    ensures forall k :: 0 <= k < |Positions(xs, f)| ==> Positions(xs, f)[k] < |xs|
    ensures forall a, b :: 0 <= a < b < |Positions(xs, f)| ==> Positions(xs, f)[a] < Positions(xs, f)[b]
  {
    if xs != [] {
      PositionsIncrease(xs[..|xs| - 1], f);
    }
  }

  /** Every position at which `f` gives `Some` is listed. */
  lemma {:induction false} PositionsComplete<A, B>(xs: seq<A>, f: A -> Option<B>)
    ensures forall i :: 0 <= i < |xs| && f(xs[i]).Some? ==> i in Positions(xs, f)
  {
    if xs != [] {
      var front := xs[..|xs| - 1];
      PositionsComplete(front, f);
      assert forall i :: 0 <= i < |front| ==> front[i] == xs[i];
    }
  }

  /** The k-th result of `filter_map` is what `f` gives at the k-th listed position. */
  lemma {:induction false} PositionsMatch<A, B>(xs: seq<A>, f: A -> Option<B>)
    ensures |FilterMap(xs, f)| == |Positions(xs, f)|
    ensures forall k :: 0 <= k < |Positions(xs, f)| ==>
      Positions(xs, f)[k] < |xs| && f(xs[Positions(xs, f)[k]]) == Some(FilterMap(xs, f)[k])
  {
    if xs != [] {
      var n := |xs| - 1;
      var front := xs[..n];
      PositionsMatch(front, f);
      PositionsIncrease(front, f);
      var rf, pf := FilterMap(front, f), Positions(front, f);
      forall k | 0 <= k < |pf| ensures xs[pf[k]] == front[pf[k]] { }
      if f(xs[n]).Some? {
        assert FilterMap(xs, f) == rf + [f(xs[n]).value];
        assert Positions(xs, f) == pf + [n];
      } else {
        assert FilterMap(xs, f) == rf;
        assert Positions(xs, f) == pf;
      }
    }
  }

  /**
   * `filter_map` keeps an order-preserving subsequence: its k-th result is what
   * `f` gives at the k-th position of `Positions`, those positions increase, and
   * every position at which `f` gives `Some` is among them.
   */
  lemma FilterMapPositions<A, B>(xs: seq<A>, f: A -> Option<B>)
    ensures var r, p := FilterMap(xs, f), Positions(xs, f);
      && |r| == |p|
      && (forall k :: 0 <= k < |p| ==> p[k] < |xs| && f(xs[p[k]]) == Some(r[k]))
      && (forall a, b :: 0 <= a < b < |p| ==> p[a] < p[b])
      && (forall i :: 0 <= i < |xs| && f(xs[i]).Some? ==> i in p)
  {
    PositionsIncrease(xs, f);
    PositionsComplete(xs, f);
    PositionsMatch(xs, f);
  }

  /** `filter_map` never yields more than it is given, and yields as many exactly when `f` never fails. */
  lemma {:induction false} FilterMapLength<A, B>(xs: seq<A>, f: A -> Option<B>)
    ensures |FilterMap(xs, f)| <= |xs|
    ensures |FilterMap(xs, f)| == |xs| <==> forall i :: 0 <= i < |xs| ==> f(xs[i]).Some?
  {
    if xs != [] {
      var n := |xs| - 1;
      var front := xs[..n];
      FilterMapLength(front, f);
      assert forall i :: 0 <= i < n ==> front[i] == xs[i];
      if |FilterMap(xs, f)| == |xs| {
        assert |FilterMap(front, f)| == n;
      }
    }
  }

  /** When `f` never fails, `filter_map` is a plain `map`: the i-th result comes from the i-th input. */
  lemma {:induction false} FilterMapTotal<A, B>(xs: seq<A>, f: A -> Option<B>)
    requires forall i :: 0 <= i < |xs| ==> f(xs[i]).Some?
    ensures |FilterMap(xs, f)| == |xs|
    ensures forall i :: 0 <= i < |xs| ==> f(xs[i]) == Some(FilterMap(xs, f)[i])
  {
    if xs != [] {
      var n := |xs| - 1;
      var front := xs[..n];
      assert forall i :: 0 <= i < n ==> front[i] == xs[i];
      FilterMapTotal(front, f);
    }
  }

  function Keep<T>(p: T -> bool): T -> Option<T>
  {
    x => if p(x) then Some(x) else None
  }

  lemma KeepApplied<T>(p: T -> bool, x: T)
    ensures Kept(Keep(p)(x)) == if p(x) then [x] else []
  {
  }

  /** `xs.iter().filter(p).collect()` */
  function Filter<T>(xs: seq<T>, p: T -> bool): seq<T>
  {
    FilterMap(xs, Keep(p))
  }

  /**
   * `filter` keeps exactly the elements that satisfy `p`, each taken from an
   * increasing position of the input.
   */
  lemma FilterContents<T>(xs: seq<T>, p: T -> bool)
    ensures var r, q := Filter(xs, p), Positions(xs, Keep(p));
      && |r| == |q|
      && (forall k :: 0 <= k < |q| ==> q[k] < |xs| && r[k] == xs[q[k]] && p(r[k]))
      && (forall a, b :: 0 <= a < b < |q| ==> q[a] < q[b])
      && (forall i :: 0 <= i < |xs| && p(xs[i]) ==> i in q)
    ensures forall x :: x in Filter(xs, p) <==> x in xs && p(x)
  {
    FilterMapPositions(xs, Keep(p));
    var r, q := Filter(xs, p), Positions(xs, Keep(p));
    forall x | x in xs && p(x) ensures x in r {
      var i :| 0 <= i < |xs| && xs[i] == x;
      assert Keep(p)(xs[i]).Some?;
      var k :| 0 <= k < |q| && q[k] == i;
      assert r[k] == x;
    }
  }

  /** Appending is associative; stated once so that a proof can name the regrouping it needs. */
  lemma AppendAssociative<T>(a: seq<T>, b: seq<T>, c: seq<T>)
    ensures a + (b + c) == (a + b) + c
  {
  }

  /** The pieces with `sep` between consecutive ones: no separator before the first or after the last. */
  function Join(sep: string, parts: seq<string>): string
  {
    if parts == [] then ""
    else if |parts| == 1 then parts[0]
    else Join(sep, parts[..|parts| - 1]) + sep + parts[|parts| - 1]
  }

  lemma JoinSnoc(sep: string, parts: seq<string>, p: string)
    ensures Join(sep, parts + [p]) == if parts == [] then p else Join(sep, parts) + sep + p
  {
    assert (parts + [p])[..|parts|] == parts;
  }

  /** Joining two non-empty lists puts exactly one separator between their joins. */
  lemma {:induction false} JoinAppend(sep: string, a: seq<string>, b: seq<string>)
    requires a != [] && b != []
    ensures Join(sep, a + b) == Join(sep, a) + sep + Join(sep, b)
  {
    var n := |b| - 1;
    if n == 0 {
      JoinSnoc(sep, a, b[0]);
      assert a + b == a + [b[0]];
    } else {
      var front := b[..n];
      assert a + b == (a + front) + [b[n]];
      assert b == front + [b[n]];
      JoinSnoc(sep, a + front, b[n]);
      JoinSnoc(sep, front, b[n]);
      JoinAppend(sep, a, front);
    }
  }
}
