/**
 * JavaScript arrays whose elements are either an object (truthy) or
 * `undefined` (falsy), and the `.filter((x) => x)` that src/index.ts applies
 * to them (src/index.ts:62, 85, 116). `Some(v)` is an object value, `None`
 * is `undefined`.
 */
module JsArrays {
  import opened Options

  /** `.filter((x) => x)`: keeps the objects, drops the `undefined` elements. */
  function DropUndefined<T>(xs: seq<Option<T>>): (r: seq<T>)
    ensures |r| <= |xs|
    ensures forall i :: 0 <= i < |r| ==> Some(r[i]) in xs
    ensures forall i :: 0 <= i < |xs| && xs[i].Some? ==> xs[i].value in r
  {
    if xs == [] then []
    else match xs[0]
      case None => DropUndefined(xs[1..])
      case Some(v) => [v] + DropUndefined(xs[1..])
  }

  /** The array `xs.map(f)` for an `f` that always returns an object. */
  function Defined<T>(xs: seq<T>): (r: seq<Option<T>>)
    ensures |r| == |xs|
  {
    seq(|xs|, i requires 0 <= i < |xs| => Some(xs[i]))
  }

  /** `xs.map(f).filter((x) => x)` for an `f` that always returns an object: nothing is dropped. */
  function FilterObjects<T>(xs: seq<T>): (r: seq<T>)
    ensures r == xs
  {
    DropUndefinedDefined(xs);
    DropUndefined(Defined(xs))
  }

  /** The filter distributes over concatenation, so it keeps the order of what it keeps. */
  lemma {:induction false} DropUndefinedAppend<T>(xs: seq<Option<T>>, ys: seq<Option<T>>)
    ensures DropUndefined(xs + ys) == DropUndefined(xs) + DropUndefined(ys)
  {
    if xs == [] {
      assert xs + ys == ys;
    } else {
      assert (xs + ys)[1..] == xs[1..] + ys;
      DropUndefinedAppend(xs[1..], ys);
    }
  }

  /** On an array of objects only, the filter is the identity. */
  lemma {:induction false} DropUndefinedDefined<T>(xs: seq<T>)
    ensures DropUndefined(Defined(xs)) == xs
  {
    if xs != [] {
      assert Defined(xs)[1..] == Defined(xs[1..]);
      DropUndefinedDefined(xs[1..]);
    }
  }
}
