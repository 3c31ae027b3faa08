/** The array operations of the import pipeline, over any element type:
    `filter`, `map`, and a `map` whose callback may throw. Stating them once,
    generically, keeps the facts about order and length apart from what the
    callbacks do with a line. */
module JsArrays {
  import opened Results

  /** `xs.filter(keep)`: the elements `keep` accepts, in their original order. */
  function Filter<T>(xs: seq<T>, keep: T -> bool): (r: seq<T>)
    ensures |r| <= |xs|
    ensures forall i :: 0 <= i < |r| ==> keep(r[i])
    ensures forall i :: 0 <= i < |r| ==> r[i] in xs
    ensures forall i :: 0 <= i < |xs| && keep(xs[i]) ==> xs[i] in r
  {
    if xs == [] then []
    else (if keep(xs[0]) then [xs[0]] else []) + Filter(xs[1..], keep)
  }

  /** Filtering works piece by piece: the kept elements of `a + b` are those of `a`
      followed by those of `b`. */
  lemma {:induction false} FilterAppend<T>(a: seq<T>, b: seq<T>, keep: T -> bool)
    ensures Filter(a + b, keep) == Filter(a, keep) + Filter(b, keep)
  {
    if a != [] {
      var head := if keep(a[0]) then [a[0]] else [];
      calc {
        Filter(a + b, keep);
        { assert (a + b)[0] == a[0] && (a + b)[1..] == a[1..] + b; }
        head + Filter(a[1..] + b, keep);
        { FilterAppend(a[1..], b, keep); }
        head + (Filter(a[1..], keep) + Filter(b, keep));
        (head + Filter(a[1..], keep)) + Filter(b, keep);
        Filter(a, keep) + Filter(b, keep);
      }
    } else {
      assert a + b == b;
    }
  }

  /** A rejected element contributes nothing, wherever it stands. */
  lemma FilterSkipsRejected<T>(a: seq<T>, x: T, b: seq<T>, keep: T -> bool)
    requires !keep(x)
    ensures Filter(a + [x] + b, keep) == Filter(a + b, keep)
  {
    calc {
      Filter(a + [x] + b, keep);
      { FilterAppend(a + [x], b, keep); }
      Filter(a + [x], keep) + Filter(b, keep);
      { FilterAppend(a, [x], keep); assert [x][1..] == []; }
      Filter(a, keep) + Filter(b, keep);
      { FilterAppend(a, b, keep); }
      Filter(a + b, keep);
    }
  }

  /** When every element is accepted, nothing is dropped. */
  lemma {:induction false} FilterKeepsAll<T>(xs: seq<T>, keep: T -> bool)
    requires forall i :: 0 <= i < |xs| ==> keep(xs[i])
    ensures Filter(xs, keep) == xs
  {
    if xs != [] {
      FilterKeepsAll(xs[1..], keep);
      assert [xs[0]] + xs[1..] == xs;
    }
  }

  /** `xs.map(f)`. */
  function Map<T, U>(xs: seq<T>, f: T -> U): (r: seq<U>)
    ensures |r| == |xs|
    ensures forall i :: 0 <= i < |xs| ==> r[i] == f(xs[i])
  {
    if xs == [] then [] else [f(xs[0])] + Map(xs[1..], f)
  }

  /** `xs.map(f)` where `f` may throw: the callbacks run in order and the first
      throw propagates, so there is a result for every element or none at all. */
  function MapOrFail<T, U, E>(xs: seq<T>, f: T -> Result<U, E>): (r: Result<seq<U>, E>)
    ensures r.Success? <==> forall i :: 0 <= i < |xs| ==> f(xs[i]).Success?
    ensures r.Success? ==> |r.value| == |xs|
  {
    if xs == [] then Success([])
    else
      match f(xs[0])
      case Failure(e) => Failure(e)
      case Success(y) =>
        match MapOrFail(xs[1..], f)
        case Failure(e) => Failure(e)
        case Success(ys) => Success([y] + ys)
  }

  /** On success the i-th result is that of the i-th callback. */
  lemma {:induction false} MapOrFailAt<T, U, E>(xs: seq<T>, f: T -> Result<U, E>)
    requires MapOrFail(xs, f).Success?
    ensures forall i :: 0 <= i < |xs| ==> f(xs[i]) == Success(MapOrFail(xs, f).value[i])
  {
    if xs != [] {
      MapOrFailAt(xs[1..], f);
      var ys := MapOrFail(xs, f).value;
      var rest := MapOrFail(xs[1..], f).value;
      assert ys == [f(xs[0]).value] + rest;
      forall i | 1 <= i < |xs|
        ensures f(xs[i]) == Success(ys[i])
      {
        assert xs[i] == xs[1..][i - 1] && ys[i] == rest[i - 1];
      }
    }
  }

  /** When every callback returns, the result is exactly the returned values. */
  lemma MapOrFailSucceedsWith<T, U, E>(xs: seq<T>, f: T -> Result<U, E>, ys: seq<U>)
    requires |ys| == |xs|
    requires forall i :: 0 <= i < |xs| ==> f(xs[i]) == Success(ys[i])
    ensures MapOrFail(xs, f) == Success(ys)
  {
    MapOrFailAt(xs, f);
    var r := MapOrFail(xs, f).value;
    assert forall i :: 0 <= i < |xs| ==> r[i] == ys[i] by {
      forall i | 0 <= i < |xs|
        ensures r[i] == ys[i]
      {
        assert f(xs[i]) == Success(r[i]);
      }
    }
    assert r == ys;
  }

  /** The first element whose callback throws decides the error, whatever follows. */
  lemma {:induction false} MapOrFailFirstFailure<T, U, E>(xs: seq<T>, f: T -> Result<U, E>, j: nat)
    requires j < |xs| && f(xs[j]).Failure?
    requires forall i :: 0 <= i < j ==> f(xs[i]).Success?
    ensures MapOrFail(xs, f) == Failure(f(xs[j]).error)
  {
    if j > 0 {
      assert xs[1..][j - 1] == xs[j];
      MapOrFailFirstFailure(xs[1..], f, j - 1);
    }
  }

  /** Two callbacks that agree on every element give the same outcome. */
  lemma {:induction false} MapOrFailAgrees<T, U, E>(xs: seq<T>, ys: seq<T>, f: T -> Result<U, E>)
    requires |xs| == |ys|
    requires forall i :: 0 <= i < |xs| ==> f(xs[i]) == f(ys[i])
    ensures MapOrFail(xs, f) == MapOrFail(ys, f)
  {
    if xs != [] {
      MapOrFailAgrees(xs[1..], ys[1..], f);
    }
  }

  /** Applies `g` to the value of a successful result. */
  function MapValue<U, V, E>(r: Result<U, E>, g: U -> V): Result<V, E> {
    match r
    case Failure(e) => Failure(e)
    case Success(u) => Success(g(u))
  }

  /** Applies `g` to every element of a successful result. */
  function MapEach<U, V, E>(r: Result<seq<U>, E>, g: U -> V): Result<seq<V>, E> {
    match r
    case Failure(e) => Failure(e)
    case Success(us) => Success(Map(us, g))
  }

  /** A callback that is another callback followed by a conversion `g` that cannot
      throw gives the other callback's outcome with `g` applied to every result. */
  lemma {:induction false} MapOrFailThenConvert<T, U, V, E>(xs: seq<T>, f: T -> Result<V, E>,
                                                           h: T -> Result<U, E>, g: U -> V)
    requires forall i :: 0 <= i < |xs| ==> f(xs[i]) == MapValue(h(xs[i]), g)
    ensures MapOrFail(xs, f) == MapEach(MapOrFail(xs, h), g)
  {
    if xs != [] {
      MapOrFailThenConvert(xs[1..], f, h, g);
      var r := MapOrFail(xs[1..], h);
      if h(xs[0]).Success? && r.Success? {
        assert Map([h(xs[0]).value] + r.value, g) == [g(h(xs[0]).value)] + Map(r.value, g);
      }
    }
  }

  /** Filtering then mapping two sequences gives the same outcome when, element by
      element, both callbacks treat them alike. */
  lemma {:induction false} FilterMapOrFailAgrees<T, U, E>(xs: seq<T>, ys: seq<T>,
                                                         keep: T -> bool, f: T -> Result<U, E>)
    requires |xs| == |ys|
    requires forall i :: 0 <= i < |xs| ==> keep(xs[i]) == keep(ys[i])
    requires forall i :: 0 <= i < |xs| ==> keep(xs[i]) ==> f(xs[i]) == f(ys[i])
    ensures MapOrFail(Filter(xs, keep), f) == MapOrFail(Filter(ys, keep), f)
  {
    if xs != [] {
      FilterMapOrFailAgrees(xs[1..], ys[1..], keep, f);
      var fx := Filter(xs, keep);
      var fy := Filter(ys, keep);
      if keep(xs[0]) {
        assert fx == [xs[0]] + Filter(xs[1..], keep) && fx[0] == xs[0] && fx[1..] == Filter(xs[1..], keep);
        assert fy == [ys[0]] + Filter(ys[1..], keep) && fy[0] == ys[0] && fy[1..] == Filter(ys[1..], keep);
      } else {
        assert fx == Filter(xs[1..], keep) by { assert fx == [] + Filter(xs[1..], keep); }
        assert fy == Filter(ys[1..], keep) by { assert fy == [] + Filter(ys[1..], keep); }
      }
    }
  }
}
