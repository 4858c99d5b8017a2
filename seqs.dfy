/** Generic list operations behind JavaScript's `filter` and `flat`. */
module Seqs {

  /** `xs.filter(keep)`: the elements `keep` accepts, in order. */
  function Filter<T>(xs: seq<T>, keep: T -> bool): (r: seq<T>)
    ensures |r| <= |xs|
  {
    if xs == [] then [] else (if keep(xs[0]) then [xs[0]] else []) + Filter(xs[1..], keep)
  }

  /** An element is kept exactly when it occurs and `keep` accepts it. */
  lemma {:induction false} FilterMembers<T>(xs: seq<T>, keep: T -> bool)
    ensures forall x :: x in Filter(xs, keep) <==> x in xs && keep(x)
  {
    if xs != [] {
      FilterMembers(xs[1..], keep);
      assert xs == [xs[0]] + xs[1..];
    }
  }

  /** Filtering distributes over concatenation: kept elements keep their order. */
  lemma {:induction false} FilterAppend<T>(xs: seq<T>, ys: seq<T>, keep: T -> bool)
    ensures Filter(xs + ys, keep) == Filter(xs, keep) + Filter(ys, keep)
  {
    if xs == [] {
      assert xs + ys == ys;
    } else {
      var head := if keep(xs[0]) then [xs[0]] else [];
      FilterAppend(xs[1..], ys, keep);
      assert (xs + ys)[0] == xs[0];
      assert (xs + ys)[1..] == xs[1..] + ys;
      calc {
        Filter(xs + ys, keep);
        head + Filter(xs[1..] + ys, keep);
        head + (Filter(xs[1..], keep) + Filter(ys, keep));
        (head + Filter(xs[1..], keep)) + Filter(ys, keep);
      }
    }
  }

  /** `xss.flat()`: the lists one after another. */
  function Flatten<T>(xss: seq<seq<T>>): seq<T> {
    if xss == [] then [] else xss[0] + Flatten(xss[1..])
  }

  lemma {:induction false} FlattenAppend<T>(xss: seq<seq<T>>, yss: seq<seq<T>>)
    ensures Flatten(xss + yss) == Flatten(xss) + Flatten(yss)
  {
    if xss == [] {
      assert xss + yss == yss;
    } else {
      FlattenAppend(xss[1..], yss);
      assert (xss + yss)[0] == xss[0];
      assert (xss + yss)[1..] == xss[1..] + yss;
      calc {
        Flatten(xss + yss);
        xss[0] + Flatten(xss[1..] + yss);
        xss[0] + (Flatten(xss[1..]) + Flatten(yss));
        (xss[0] + Flatten(xss[1..])) + Flatten(yss);
      }
    }
  }

  /** Everything in a flattening comes from one of the lists. */
  lemma {:induction false} FlattenMember<T>(xss: seq<seq<T>>, x: T)
    requires x in Flatten(xss)
    ensures exists i :: 0 <= i < |xss| && x in xss[i]
  {
    if x !in xss[0] {
      FlattenMember(xss[1..], x);
      var i :| 0 <= i < |xss[1..]| && x in xss[1..][i];
      assert xss[i + 1] == xss[1..][i];
    }
  }
}
