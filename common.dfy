/**
 * Shared result types. The backend services signal failure by throwing
 * NestJS HTTP exceptions (NotFoundException, ConflictException,
 * BadRequestException) or a plain `Error`; a JavaScript runtime failure
 * (reading a field of `undefined`, calling `.trim()` on it, a `reduce`
 * over an empty array) is `Crash`. A write the database refuses because
 * it names a row that does not exist, or removes a row other rows still
 * refer to, is `ForeignKey`; no handler catches it.
 */
module Common {
  datatype Option<T> = None | Some(value: T)
  {
    function GetOr(default: T): T
    {
      match this
      case Some(v) => v
      case None => default
    }
  }

  datatype Error = NotFound | Conflict | BadRequest | PlainError | Crash | ForeignKey

  datatype Result<T> = Ok(value: T) | Err(error: Error)

  /** JavaScript truthiness of an optional string: `undefined`, `null` and `""` are falsy. */
  predicate Truthy(s: Option<string>)
  {
    s.Some? && s.value != ""
  }

  /** `xs.filter(f)`: the elements satisfying `f`, in their original order. */
  function Filter<T(!new)>(xs: seq<T>, f: T -> bool): (r: seq<T>)
    ensures |r| <= |xs|
    ensures forall x :: x in r <==> x in xs && f(x)
  {
    if |xs| == 0 then [] else (if f(xs[0]) then [xs[0]] else []) + Filter(xs[1..], f)
  }

  lemma AppendAssoc<T>(a: seq<T>, b: seq<T>, c: seq<T>)
    ensures a + b + c == a + (b + c)
  {
  }

  /** Filtering a concatenation filters each part. */
  lemma {:induction false} FilterAppend<T(!new)>(a: seq<T>, b: seq<T>, f: T -> bool)
    ensures Filter(a + b, f) == Filter(a, f) + Filter(b, f)
  {
    if |a| > 0 {
      assert (a + b)[1..] == a[1..] + b;
      FilterAppend(a[1..], b, f);
    } else {
      assert a + b == b;
    }
  }

  /**
   * A loop that maps each element with `f` and stops at the first failure
   * (the first exception thrown inside a `for … of` loop ends it).
   */
  function MapAll<A, B>(xs: seq<A>, f: A -> Result<B>): (r: Result<seq<B>>)
    ensures r.Ok? ==> |r.value| == |xs|
  {
    if |xs| == 0 then Ok([])
    else
      match MapAll(xs[..|xs| - 1], f)
      case Err(e) => Err(e)
      case Ok(ys) =>
        match f(xs[|xs| - 1])
        case Err(e) => Err(e)
        case Ok(y) => Ok(ys + [y])
  }

  /** Once a prefix has failed, the whole loop fails with the same error. */
  lemma {:induction false} MapAllErrSticky<A, B>(xs: seq<A>, f: A -> Result<B>, n: nat)
    requires n <= |xs| && MapAll(xs[..n], f).Err?
    ensures MapAll(xs, f) == MapAll(xs[..n], f)
    decreases |xs| - n
  {
    if n < |xs| {
      assert xs[..n + 1][..n] == xs[..n];
      MapAllErrSticky(xs, f, n + 1);
    } else {
      assert xs[..n] == xs;
    }
  }

  /** One more element after a successful prefix: its result is appended, or its error ends the whole loop. */
  lemma MapAllSnoc<A, B>(xs: seq<A>, f: A -> Result<B>, i: nat, ys: seq<B>)
    requires i < |xs| && MapAll(xs[..i], f) == Ok(ys)
    ensures f(xs[i]).Ok? ==> MapAll(xs[..i + 1], f) == Ok(ys + [f(xs[i]).value])
    ensures f(xs[i]).Err? ==> MapAll(xs, f) == Err(f(xs[i]).error)
  {
    assert xs[..i + 1][..i] == xs[..i];
    if f(xs[i]).Err? {
      MapAllErrSticky(xs, f, i + 1);
    }
  }

  /**
   * The loop succeeds exactly when every element succeeds, with the results
   * in order; when it fails, the error is that of the first failing element.
   */
  lemma {:induction false} MapAllOk<A, B>(xs: seq<A>, f: A -> Result<B>)
    ensures MapAll(xs, f).Ok? <==> forall i :: 0 <= i < |xs| ==> f(xs[i]).Ok?
    ensures MapAll(xs, f).Ok? ==> forall i :: 0 <= i < |xs| ==> MapAll(xs, f).value[i] == f(xs[i]).value
    ensures MapAll(xs, f).Err? ==>
      exists i :: 0 <= i < |xs| && f(xs[i]).Err? && MapAll(xs, f).error == f(xs[i]).error
        && forall j :: 0 <= j < i ==> f(xs[j]).Ok?
  {
    if |xs| > 0 {
      var init := xs[..|xs| - 1];
      MapAllOk(init, f);
      assert forall i :: 0 <= i < |init| ==> init[i] == xs[i];
      if MapAll(init, f).Err? {
        var i :| 0 <= i < |init| && f(init[i]).Err?
          && MapAll(init, f).error == f(init[i]).error && forall j :: 0 <= j < i ==> f(init[j]).Ok?;
        assert f(xs[i]).Err?;
      }
    }
  }
}
