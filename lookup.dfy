/** First-match search over a table, as lodash's `find` does it: the rows
    are scanned in order and the first one the predicate accepts is the
    answer. */
module Lookup {
  import opened Records

  /** The position of the first row that satisfies `p`, if any. */
  function FindIndex<T>(rows: seq<T>, p: T -> bool): (r: Option<nat>)
    ensures r.Some? ==> r.value < |rows| && p(rows[r.value])
    ensures r.Some? ==> forall j :: 0 <= j < r.value ==> !p(rows[j])
    ensures r.None? <==> forall j :: 0 <= j < |rows| ==> !p(rows[j])
  {
    if |rows| == 0 then None
    else if p(rows[0]) then Some(0)
    else match FindIndex(rows[1..], p)
      case None => None
      case Some(i) => Some(i + 1)
  }

  /** The first row that satisfies `p`, if any. */
  function Find<T>(rows: seq<T>, p: T -> bool): (r: Option<T>)
    ensures r.Some? ==> r.value in rows && p(r.value)
    ensures r.None? <==> forall x :: x in rows ==> !p(x)
    ensures r.Some? ==> exists i :: 0 <= i < |rows| && rows[i] == r.value && forall j :: 0 <= j < i ==> !p(rows[j])
  {
    match FindIndex(rows, p)
    case None => None
    case Some(i) => Some(rows[i])
  }

  /** Appending a row the predicate rejects does not change the answer. */
  lemma {:induction false} FindAppendRejected<T>(rows: seq<T>, x: T, p: T -> bool)
    requires !p(x)
    ensures Find(rows + [x], p) == Find(rows, p)
  {
    if |rows| > 0 && !p(rows[0]) {
      assert (rows + [x])[1..] == rows[1..] + [x];
      FindAppendRejected(rows[1..], x, p);
    }
  }
}
