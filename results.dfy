/** Option and Result, the two failure-carrying datatypes the model uses in
    place of Python's `None` and of a raised exception, and the loop that
    applies a step that may raise to every element of a list. */
module Results {

  datatype Option<+T> = None | Some(value: T)

  datatype Result<+T, +E> = Ok(value: T) | Err(error: E)

  /** Applies `f` to the elements in order and collects the results; the
      first failure stops the loop and is the result, as an exception raised
      inside a Python `for` loop would be. */
  function MapAll<T, U, E>(xs: seq<T>, f: T -> Result<U, E>): Result<seq<U>, E> {
    if xs == [] then Ok([])
    else
      match MapAll(xs[..|xs| - 1], f)
      case Err(e) => Err(e)
      case Ok(done) =>
        match f(xs[|xs| - 1])
        case Err(e) => Err(e)
        case Ok(y) => Ok(done + [y])
  }

  /** MapAll fails exactly when some element fails, and then with the error
      of the first element that fails; otherwise it yields one result per
      element, at the same position. */
  lemma {:induction false} MapAllOutcome<T, U, E>(xs: seq<T>, f: T -> Result<U, E>)
    ensures var res := MapAll(xs, f);
      && (res.Err? <==> exists j :: 0 <= j < |xs| && f(xs[j]).Err?)
      && (res.Err? ==> exists j :: 0 <= j < |xs| && f(xs[j]) == Err(res.error)
                                   && forall i :: 0 <= i < j ==> f(xs[i]).Ok?)
      && (res.Ok? ==> |res.value| == |xs| && forall j :: 0 <= j < |xs| ==> f(xs[j]) == Ok(res.value[j]))
    decreases |xs|
  {
    if xs != [] {
      var k := |xs| - 1;
      var init := xs[..k];
      MapAllOutcome(init, f);
      assert forall j :: 0 <= j < k ==> init[j] == xs[j];
      match MapAll(init, f)
      case Err(e) =>
        var j :| 0 <= j < k && f(init[j]) == Err(e) && forall i :: 0 <= i < j ==> f(init[i]).Ok?;
        assert f(xs[j]) == Err(e);
      case Ok(done) =>
        match f(xs[k])
        case Err(e) =>
          assert forall i :: 0 <= i < k ==> f(xs[i]).Ok?;
        case Ok(y) =>
          var all := done + [y];
          forall j | 0 <= j < |xs|
            ensures f(xs[j]) == Ok(all[j])
          {
            if j < k {
              assert xs[j] == init[j];
            }
          }
    }
  }
}
