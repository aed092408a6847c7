/** Failure-carrying values shared by every puzzle module: a Python
    expression that can raise (a missing dictionary key, an index past
    the end, a failed assert) is modelled as a function returning one of
    these instead of a value. */
module Results {

  datatype Option<+T> = None | Some(value: T)

  datatype Result<+T, +E> = Ok(value: T) | Err(error: E)

  /** Applies f to each item in order, as a loop that stops at the first
      exception: every result, or the first error. */
  function Traverse<S, T, E>(items: seq<S>, f: S -> Result<T, E>): Result<seq<T>, E>
    decreases |items|
  {
    if items == [] then Ok([])
    else match f(items[0])
      case Err(e) => Err(e)
      case Ok(x) =>
        match Traverse(items[1..], f)
        case Err(e) => Err(e)
        case Ok(xs) => Ok([x] + xs)
  }

  /** When f succeeds on every item, the results are f's values in order. */
  lemma {:induction false} TraverseOk<S, T, E>(items: seq<S>, f: S -> Result<T, E>, xs: seq<T>)
    requires |items| == |xs| && forall i | 0 <= i < |items| :: f(items[i]) == Ok(xs[i])
    ensures Traverse(items, f) == Ok(xs)
    decreases |items|
  {
    if items != [] {
      TraverseOk(items[1..], f, xs[1..]);
      assert xs == [xs[0]] + xs[1..];
    }
  }

  /** A successful traversal holds f's value for every item, in order. */
  lemma {:induction false} TraverseValues<S, T, E>(items: seq<S>, f: S -> Result<T, E>)
    requires Traverse(items, f).Ok?
    ensures |Traverse(items, f).value| == |items|
    ensures forall i | 0 <= i < |items| :: f(items[i]) == Ok(Traverse(items, f).value[i])
    decreases |items|
  {
    if items != [] {
      TraverseValues(items[1..], f);
      var xs := Traverse(items, f).value;
      assert xs[1..] == Traverse(items[1..], f).value;
      forall i | 0 <= i < |items| ensures f(items[i]) == Ok(xs[i]) {
        if i > 0 {
          assert items[1..][i - 1] == items[i];
        }
      }
    }
  }

  /** The first item f fails on decides the error. */
  lemma {:induction false} TraverseFirstError<S, T, E>(items: seq<S>, f: S -> Result<T, E>, i: nat)
    requires i < |items| && f(items[i]).Err? && forall j | 0 <= j < i :: f(items[j]).Ok?
    ensures Traverse(items, f) == Err(f(items[i]).error)
    decreases i
  {
    if i > 0 {
      assert forall j | 0 <= j < i - 1 :: items[1..][j] == items[j + 1];
      TraverseFirstError(items[1..], f, i - 1);
    }
  }
}
