/** Optional values, standing for JavaScript's `undefined` / `null` alternatives. */
module Wrappers {

  datatype Option<+T> = None | Some(value: T)

  /** `xs.map(f)`. */
  function Map<A, B>(f: A -> B, xs: seq<A>): (ys: seq<B>)
    ensures |ys| == |xs| && forall i :: 0 <= i < |xs| ==> ys[i] == f(xs[i])
  {
    seq(|xs|, i requires 0 <= i < |xs| => f(xs[i]))
  }

  /** Mapping distributes over concatenation. */
  lemma MapConcat<A, B>(f: A -> B, a: seq<A>, b: seq<A>)
    ensures Map(f, a + b) == Map(f, a) + Map(f, b)
  {
  }

  /** The values of the present entries, in order (`.filter(x => x !== null)`). */
  function Present<T>(opts: seq<Option<T>>): (r: seq<T>)
    ensures |r| <= |opts|
    ensures forall k :: 0 <= k < |r| ==> Some(r[k]) in opts
  {
    if opts == [] then []
    else
      var rest := Present(opts[1..]);
      assert forall o :: o in opts[1..] ==> o in opts;
      if opts[0].Some? then [opts[0].value] + rest else rest
  }

  /** Filtering distributes over concatenation, so it keeps the order of the entries. */
  lemma {:induction false} PresentConcat<T>(a: seq<Option<T>>, b: seq<Option<T>>)
    ensures Present(a + b) == Present(a) + Present(b)
  {
    if a == [] {
      assert a + b == b;
    } else {
      assert (a + b)[1..] == a[1..] + b;
      PresentConcat(a[1..], b);
    }
  }

  /** When every entry is present nothing is dropped. */
  lemma {:induction false} PresentAll<T>(opts: seq<Option<T>>, values: seq<T>)
    requires |opts| == |values| && forall i :: 0 <= i < |opts| ==> opts[i] == Some(values[i])
    ensures Present(opts) == values
  {
    if opts != [] {
      PresentAll(opts[1..], values[1..]);
    }
  }
}
