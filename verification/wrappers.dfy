/** Failure-carrying datatypes shared by the whole model: Python's `None`
    becomes `Option.None`, and a raised exception becomes `Result.Err`.
    Also the "first one that matches" search every reader of the page
    performs, over a sequence of optional results. */
module Wrappers {

  datatype Option<+T> = None | Some(value: T) {

    /** The value, or `default` when there is none (Python's `x or default`
        for a value that is never falsy). */
    function GetOr(default: T): T {
      match this
      case Some(v) => v
      case None => default
    }
  }

  /** The outcome of a Python call that may raise: `Err` carries the
      exception's message. */
  datatype Result<+T> = Ok(value: T) | Err(message: string)

  // ---------------------------------------------------------------- first match

  /** The first present value of a sequence. */
  function First<T>(hs: seq<Option<T>>): (r: Option<T>)
    ensures r.Some? <==> exists i :: 0 <= i < |hs| && hs[i].Some?
    ensures r.Some? ==> exists i :: 0 <= i < |hs| && hs[i] == r && forall j :: 0 <= j < i ==> hs[j].None?
    decreases |hs|
  {
    if hs == [] then None
    else if hs[0].Some? then
      hs[0]
    else
      var r := First(hs[1..]);
      assert forall i :: 1 <= i < |hs| ==> hs[i] == hs[1..][i - 1];
      assert r.Some? ==> exists i :: 0 <= i < |hs| && hs[i] == r && forall j :: 0 <= j < i ==> hs[j].None? by {
        if r.Some? {
          var i :| 0 <= i < |hs[1..]| && hs[1..][i] == r && forall j :: 0 <= j < i ==> hs[1..][j].None?;
          assert hs[i + 1] == r && forall j :: 0 <= j < i + 1 ==> hs[j].None?;
        }
      }
      r
  }

  /** Position `i` holds the first present value of `hs`. */
  predicate FirstAt<T>(hs: seq<Option<T>>, i: int) {
    0 <= i < |hs| && hs[i].Some? && forall j :: 0 <= j < i ==> hs[j].None?
  }

  lemma {:induction false} FirstIsAt<T>(hs: seq<Option<T>>, i: int)
    requires FirstAt(hs, i)
    ensures First(hs) == hs[i]
    decreases |hs|
  {
    if i > 0 {
      assert hs[0].None?;
      assert FirstAt(hs[1..], i - 1);
      FirstIsAt(hs[1..], i - 1);
    }
  }

  lemma FirstCons<T>(x: Option<T>, hs: seq<Option<T>>)
    ensures First([x] + hs) == if x.Some? then x else First(hs)
  {
    assert ([x] + hs)[1..] == hs;
  }
}
