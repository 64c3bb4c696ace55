/** Option and Result datatypes shared by the routing modules. */
module Wrappers {

  /** An optional value: Go's `(value, ok)` pairs and nil pointers. */
  datatype Option<+T> = None | Some(value: T)

  /** A value or an error: Go's `(value, error)` pairs. */
  datatype Result<+R, +E> = Success(value: R) | Failure(error: E)

  /**
    First-success scan from position `i` on: the index of the first `Some`,
    skipping every `None` (the routers' dispatch loops).
   */
  function FirstSome<T>(rs: seq<Option<T>>, i: nat): (r: Option<nat>)
    requires i <= |rs|
    ensures r.None? <==> forall j :: i <= j < |rs| ==> rs[j].None?
    ensures r.Some? ==> && i <= r.value < |rs|
                        && rs[r.value].Some?
                        && forall j :: i <= j < r.value ==> rs[j].None?
    decreases |rs| - i
  {
    if i == |rs| then None
    else if rs[i].Some? then Some(i)
    else FirstSome(rs, i + 1)
  }

  /**
    Extending the scanned list only adds a fallback: a scan that finds a
    `Some` among the earlier entries finds the same one, and the added entry
    is reached only when all the others are `None`.
   */
  lemma {:induction false} AppendedIsFallback<T>(rs: seq<Option<T>>, extra: Option<T>, i: nat)
    requires i <= |rs|
    ensures FirstSome(rs + [extra], i)
         == if FirstSome(rs, i).Some? then FirstSome(rs, i)
            else if extra.Some? then Some(|rs|)
            else None
    decreases |rs| - i
  {
    var all := rs + [extra];
    if i < |rs| {
      assert all[i] == rs[i];
      if rs[i].None? {
        AppendedIsFallback(rs, extra, i + 1);
      }
    } else {
      assert all[i] == extra;
    }
  }
}
