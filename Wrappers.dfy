/** Optional values, and the results of operations that can raise the converter's errors. */
module Wrappers {

  /** Python's `None` or a present value. */
  datatype Option<+T> = None | Some(value: T)

  /** One constructor per `ValueError` the converter raises. */
  datatype Error =
    | MissingValue            // a leaf rendered without a value
    | MissingTag              // a parent rendered without a tag
    | MissingChildren         // a parent rendered with `None` children
    | EmptySeparator          // `str.split` called with the empty delimiter
    | UnbalancedDelimiter     // an even number of pieces after splitting on a delimiter
    | InvalidHeading
    | InvalidQuote(line: string)
    | InvalidCode
    | InvalidUnorderedList
    | NoTextNodes             // inline tokenizing of a non-empty text produced no nodes

  /** The value an operation returns, or the error it raises. */
  datatype Result<+T> = Ok(value: T) | Err(error: Error) {
    predicate IsFailure() { Err? }

    function PropagateFailure<U>(): Result<U>
      requires Err?
    {
      Err(error)
    }

    function Extract(): T
      requires Ok?
    {
      value
    }
  }

  /** The last element of `p + q` is that of `q`, and what comes before it is
      `p` followed by the rest of `q`. */
  lemma {:induction false} SnocOfAppend<T>(p: seq<T>, q: seq<T>)
    requires q != []
    ensures (p + q)[..|p + q| - 1] == p + q[..|q| - 1]
    ensures (p + q)[|p + q| - 1] == q[|q| - 1]
  {
  }

  /** Applies `f` to each element in order, collecting the results, or the
      error of the first element that fails. */
  function MapAll<A, B>(xs: seq<A>, f: A -> Result<B>): Result<seq<B>>
    decreases |xs|
  {
    if xs == [] then Ok([])
    else
      var acc :- MapAll(xs[..|xs| - 1], f);
      var y :- f(xs[|xs| - 1]);
      Ok(acc + [y])
  }

  /** On success there is one result per element, in order. */
  lemma {:induction false} MapAllOk<A, B>(xs: seq<A>, f: A -> Result<B>)
    requires MapAll(xs, f).Ok?
    ensures |MapAll(xs, f).value| == |xs|
    ensures forall i :: 0 <= i < |xs| ==> f(xs[i]) == Ok(MapAll(xs, f).value[i])
    decreases |xs|
  {
    if xs != [] {
      var init := xs[..|xs| - 1];
      MapAllOk(init, f);
      var acc := MapAll(init, f).value;
      var v := MapAll(xs, f).value;
      assert v == acc + [v[|v| - 1]];
      forall i | 0 <= i < |init| ensures f(xs[i]) == Ok(v[i]) {
        assert xs[i] == init[i] && v[i] == acc[i];
      }
    }
  }

  /** A failure carries the error of the first element that fails. */
  lemma {:induction false} MapAllFirstErr<A, B>(xs: seq<A>, f: A -> Result<B>)
    requires MapAll(xs, f).Err?
    ensures exists i :: (0 <= i < |xs| && f(xs[i]) == Err(MapAll(xs, f).error) &&
      forall j :: 0 <= j < i ==> f(xs[j]).Ok?)
    decreases |xs|
  {
    var init := xs[..|xs| - 1];
    if MapAll(init, f).Err? {
      MapAllFirstErr(init, f);
      var i :| 0 <= i < |init| && f(init[i]) == Err(MapAll(init, f).error) &&
        forall j :: 0 <= j < i ==> f(init[j]).Ok?;
      assert forall j :: 0 <= j <= i ==> xs[j] == init[j];
    } else {
      MapAllOk(init, f);
      assert forall j :: 0 <= j < |init| ==> xs[j] == init[j];
    }
  }

  /** The collection fails exactly when some element fails. */
  lemma {:induction false} MapAllErrIff<A, B>(xs: seq<A>, f: A -> Result<B>)
    ensures MapAll(xs, f).Err? <==> exists i :: 0 <= i < |xs| && f(xs[i]).Err?
  {
    if MapAll(xs, f).Ok? {
      MapAllOk(xs, f);
    } else {
      MapAllFirstErr(xs, f);
    }
  }

  /** Once a prefix fails, the whole collection fails the same way. */
  lemma {:induction false} MapAllErrPrefix<A, B>(xs: seq<A>, j: nat, f: A -> Result<B>)
    requires j <= |xs| && MapAll(xs[..j], f).Err?
    ensures MapAll(xs, f) == MapAll(xs[..j], f)
    decreases |xs|
  {
    if j < |xs| {
      var init := xs[..|xs| - 1];
      assert init[..j] == xs[..j];
      MapAllErrPrefix(init, j, f);
    } else {
      assert xs[..j] == xs;
    }
  }

  /** One more element: its result is appended, or its error is the result. */
  lemma {:induction false} MapAllSnoc<A, B>(xs: seq<A>, i: nat, f: A -> Result<B>, acc: seq<B>)
    requires i < |xs| && MapAll(xs[..i], f) == Ok(acc)
    ensures MapAll(xs[..i + 1], f) == if f(xs[i]).Ok? then Ok(acc + [f(xs[i]).value]) else Err(f(xs[i]).error)
  {
    assert xs[..i + 1][..i] == xs[..i];
  }

  /** Applies `f` to each element in order, concatenating the sequences it
      returns, or the error of the first element that fails. */
  function FlatMapAll<A, B>(xs: seq<A>, f: A -> Result<seq<B>>): Result<seq<B>>
    decreases |xs|
  {
    if xs == [] then Ok([])
    else
      var acc :- FlatMapAll(xs[..|xs| - 1], f);
      var more :- f(xs[|xs| - 1]);
      Ok(acc + more)
  }

  /** The results for two runs of elements are those of the first run followed
      by those of the second, and an error in the first run wins. */
  lemma {:induction false} FlatMapAllAppend<A, B>(xs: seq<A>, ys: seq<A>, f: A -> Result<seq<B>>)
    ensures FlatMapAll(xs + ys, f) ==
      match FlatMapAll(xs, f)
      case Err(e) => Err(e)
      case Ok(a) =>
        match FlatMapAll(ys, f)
        case Err(e) => Err(e)
        case Ok(b) => Ok(a + b)
    decreases |ys|
  {
    if ys == [] {
      assert xs + ys == xs;
      if FlatMapAll(xs, f).Ok? {
        assert FlatMapAll(xs, f).value + [] == FlatMapAll(xs, f).value;
      }
    } else {
      var ys' := ys[..|ys| - 1];
      SnocOfAppend(xs, ys);
      FlatMapAllAppend(xs, ys', f);
      match FlatMapAll(xs, f)
      case Err(e) =>
      case Ok(a) =>
        match FlatMapAll(ys', f)
        case Err(e) =>
        case Ok(b) =>
          match f(ys[|ys| - 1])
          case Err(e) =>
          case Ok(c) =>
            assert a + b + c == a + (b + c);
    }
  }

  /** One more element: its results are appended, or its error is the result. */
  lemma {:induction false} FlatMapAllSnoc<A, B>(xs: seq<A>, i: nat, f: A -> Result<seq<B>>, acc: seq<B>)
    requires i < |xs| && FlatMapAll(xs[..i], f) == Ok(acc)
    ensures FlatMapAll(xs[..i + 1], f) == if f(xs[i]).Ok? then Ok(acc + f(xs[i]).value) else Err(f(xs[i]).error)
  {
    assert xs[..i + 1][..i] == xs[..i];
  }

  /** Once a prefix fails, the whole collection fails the same way. */
  lemma {:induction false} FlatMapAllErrPrefix<A, B>(xs: seq<A>, j: nat, f: A -> Result<seq<B>>)
    requires j <= |xs| && FlatMapAll(xs[..j], f).Err?
    ensures FlatMapAll(xs, f) == FlatMapAll(xs[..j], f)
    decreases |xs|
  {
    if j < |xs| {
      var init := xs[..|xs| - 1];
      assert init[..j] == xs[..j];
      FlatMapAllErrPrefix(init, j, f);
    } else {
      assert xs[..j] == xs;
    }
  }

  /** On success every element succeeds, and a property every element's
      results share holds of the whole result. */
  lemma {:induction false} FlatMapAllOk<A, B>(xs: seq<A>, f: A -> Result<seq<B>>, p: B -> bool)
    requires FlatMapAll(xs, f).Ok?
    requires forall i :: 0 <= i < |xs| && f(xs[i]).Ok? ==>
      forall m :: 0 <= m < |f(xs[i]).value| ==> p(f(xs[i]).value[m])
    ensures forall i :: 0 <= i < |xs| ==> f(xs[i]).Ok?
    ensures forall k :: 0 <= k < |FlatMapAll(xs, f).value| ==> p(FlatMapAll(xs, f).value[k])
    decreases |xs|
  {
    if xs != [] {
      var init := xs[..|xs| - 1];
      assert forall i :: 0 <= i < |init| ==> init[i] == xs[i];
      FlatMapAllOk(init, f, p);
      var acc, more := FlatMapAll(init, f).value, f(xs[|xs| - 1]).value;
      var v := FlatMapAll(xs, f).value;
      assert v == acc + more;
      forall k | 0 <= k < |v| ensures p(v[k]) {
        if k < |acc| { assert v[k] == acc[k]; } else { assert v[k] == more[k - |acc|]; }
      }
    }
  }

  /** A failure carries the error of the first element that fails. */
  lemma {:induction false} FlatMapAllFirstErr<A, B>(xs: seq<A>, f: A -> Result<seq<B>>)
    requires FlatMapAll(xs, f).Err?
    ensures exists i :: (0 <= i < |xs| && f(xs[i]) == Err(FlatMapAll(xs, f).error) &&
      forall j :: 0 <= j < i ==> f(xs[j]).Ok?)
    decreases |xs|
  {
    var init := xs[..|xs| - 1];
    if FlatMapAll(init, f).Err? {
      FlatMapAllFirstErr(init, f);
      var i :| 0 <= i < |init| && f(init[i]) == Err(FlatMapAll(init, f).error) &&
        forall j :: 0 <= j < i ==> f(init[j]).Ok?;
      assert forall j :: 0 <= j <= i ==> xs[j] == init[j];
    } else {
      FlatMapAllOk(init, f, _ => true);
      assert forall j :: 0 <= j < |init| ==> xs[j] == init[j];
    }
  }

  /** When each element yields exactly `[g(x)]`, the result is `g` of each element. */
  lemma {:induction false} FlatMapAllSingles<A, B>(xs: seq<A>, f: A -> Result<seq<B>>, g: A -> B)
    requires forall i :: 0 <= i < |xs| ==> f(xs[i]) == Ok([g(xs[i])])
    ensures FlatMapAll(xs, f).Ok? && |FlatMapAll(xs, f).value| == |xs|
    ensures forall i :: 0 <= i < |xs| ==> FlatMapAll(xs, f).value[i] == g(xs[i])
    decreases |xs|
  {
    if xs != [] {
      var init := xs[..|xs| - 1];
      assert forall i :: 0 <= i < |init| ==> init[i] == xs[i];
      FlatMapAllSingles(init, f, g);
      var acc := FlatMapAll(init, f).value;
      var v := FlatMapAll(xs, f).value;
      assert v == acc + [g(xs[|xs| - 1])];
      forall i | 0 <= i < |xs| ensures v[i] == g(xs[i]) {
        if i < |init| { assert v[i] == acc[i]; }
      }
    }
  }
}
