/** The sum types the rest of the project shares, and searching a list for an answer. */
module Wrappers {

  /** Rust's `Option`. */
  datatype Option<+T> = None | Some(value: T) {

    predicate IsFailure() {
      None?
    }

    function PropagateFailure<U>(): Option<U>
      requires None?
    {
      None
    }

    function Extract(): T
      requires Some?
    {
      value
    }
  }

  /** Rust's `Result`. */
  datatype Result<+T, +E> = Ok(value: T) | Err(error: E)

  /** `Option::or`. */
  function OrElse<T>(x: Option<T>, y: Option<T>): Option<T> {
    if x.Some? then x else y
  }

  /** The first answer `f` gives on the list, as a loop with an early return finds it. */
  function FirstOf<S, T>(xs: seq<S>, f: S -> Option<T>): Option<T> {
    if xs == [] then None else OrElse(f(xs[0]), FirstOf(xs[1..], f))
  }

  /** `k` is where the first answer stands. */
  ghost predicate IsFirst<S, T>(xs: seq<S>, f: S -> Option<T>, k: int) {
    0 <= k < |xs| && f(xs[k]).Some? && forall j :: 0 <= j < k ==> f(xs[j]).None?
  }

  lemma {:induction false} FirstOfAt<S, T>(xs: seq<S>, f: S -> Option<T>, k: int)
    requires IsFirst(xs, f, k)
    ensures FirstOf(xs, f) == f(xs[k])
  {
    if k > 0 {
      assert xs[1..][k - 1] == xs[k];
      assert IsFirst(xs[1..], f, k - 1);
      FirstOfAt(xs[1..], f, k - 1);
    }
  }

  lemma {:induction false} FirstOfNone<S, T>(xs: seq<S>, f: S -> Option<T>)
    ensures FirstOf(xs, f).None? <==> forall j :: 0 <= j < |xs| ==> f(xs[j]).None?
  {
    if xs != [] {
      FirstOfNone(xs[1..], f);
      assert forall j :: 1 <= j < |xs| ==> xs[j] == xs[1..][j - 1];
    }
  }

  lemma {:induction false} FirstOfExists<S, T>(xs: seq<S>, f: S -> Option<T>) returns (k: int)
    requires FirstOf(xs, f).Some?
    ensures IsFirst(xs, f, k) && FirstOf(xs, f) == f(xs[k])
  {
    if f(xs[0]).Some? {
      k := 0;
    } else {
      k := FirstOfExists(xs[1..], f);
      assert forall j :: 1 <= j < |xs| ==> xs[j] == xs[1..][j - 1];
      k := k + 1;
    }
  }

  /** `r` is the first answer of the list, or there is none. */
  ghost predicate IsFirstAnswer<S, T>(xs: seq<S>, f: S -> Option<T>, r: Option<T>) {
    match r
    case None => forall j :: 0 <= j < |xs| ==> f(xs[j]).None?
    case Some(_) => exists k :: IsFirst(xs, f, k) && f(xs[k]) == r
  }

  lemma FirstOfIsFirst<S, T>(xs: seq<S>, f: S -> Option<T>)
    ensures IsFirstAnswer(xs, f, FirstOf(xs, f))
  {
    FirstOfNone(xs, f);
    if FirstOf(xs, f).Some? {
      var k := FirstOfExists(xs, f);
    }
  }

  lemma {:induction false} FirstOfConcat<S, T>(xs: seq<S>, ys: seq<S>, f: S -> Option<T>)
    ensures FirstOf(xs + ys, f) == OrElse(FirstOf(xs, f), FirstOf(ys, f))
  {
    if xs == [] {
      assert xs + ys == ys;
    } else {
      assert (xs + ys)[1..] == xs[1..] + ys;
      FirstOfConcat(xs[1..], ys, f);
    }
  }

  lemma FirstOfOne<S, T>(x: S, f: S -> Option<T>)
    ensures FirstOf([x], f) == f(x)
  {
  }
}
