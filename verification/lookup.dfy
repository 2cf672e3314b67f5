/** The two search shapes the merge routines share: a `for … break` search and a dict build. */
module Lookup {
  import opened Wrappers

  /** The index at which a `for x in s: if p(x): … break` loop stops, or None when it runs to the end. */
  function FirstIndex<T>(s: seq<T>, p: T -> bool): (r: Option<nat>)
    ensures r.Some? ==> r.value < |s| && p(s[r.value])
    ensures r.Some? ==> forall j :: 0 <= j < r.value ==> !p(s[j])
    ensures r.None? ==> forall j :: 0 <= j < |s| ==> !p(s[j])
  {
    if |s| == 0 then None
    else if p(s[0]) then Some(0)
    else
      match FirstIndex(s[1..], p)
      case Some(i) => Some(i + 1)
      case None => None
  }

  /** Two sequences on which `p` agrees element by element stop the search at the same place. */
  lemma FirstIndexAgrees<T>(s: seq<T>, t: seq<T>, p: T -> bool)
    requires |s| == |t|
    requires forall j :: 0 <= j < |s| ==> p(s[j]) == p(t[j])
    ensures FirstIndex(s, p) == FirstIndex(t, p)
  {
  }

  /** The last index of `s` at which `p` holds, or -1 when it holds nowhere. */
  lemma LastIndex<T>(s: seq<T>, p: T -> bool) returns (i: int)
    ensures -1 <= i < |s|
    ensures i == -1 ==> forall k :: 0 <= k < |s| ==> !p(s[k])
    ensures 0 <= i ==> p(s[i]) && forall k :: i < k < |s| ==> !p(s[k])
  {
    i := |s| - 1;
    while i >= 0 && !p(s[i])
      invariant -1 <= i < |s|
      invariant forall k :: i < k < |s| ==> !p(s[k])
    {
      i := i - 1;
    }
  }

  /** Row `rows[i]` contributes the entry for key `k`. */
  predicate Contributes<R, K(==), V>(rows: seq<R>, key: R -> K, value: R -> Option<V>, i: int, k: K)
    requires 0 <= i < |rows|
  {
    key(rows[i]) == k && value(rows[i]).Some?
  }

  /** The dictionary `{key(x): v for x in rows if value(x) is Some(v)}`, or equally a loop assigning
      `d[key(x)] = v` row by row: a later row with the same key replaces an earlier one. */
  function Collect<R, K(==), V>(rows: seq<R>, key: R -> K, value: R -> Option<V>): (m: map<K, V>)
    ensures forall i :: 0 <= i < |rows| && value(rows[i]).Some? ==> key(rows[i]) in m
    ensures forall k :: k in m ==>
              exists i :: 0 <= i < |rows| && Contributes(rows, key, value, i, k) && value(rows[i]) == Some(m[k])
                          && forall j :: i < j < |rows| ==> !Contributes(rows, key, value, j, k)
  {
    if |rows| == 0 then map[]
    else
      var n := |rows| - 1;
      var m := Collect(rows[..n], key, value);
      var x := rows[n];
      var r := match value(x) case Some(v) => m[key(x) := v] case None => m;
      CollectStep(rows, key, value, m, r);
      r
  }

  /** One more row: its key, when it contributes, now maps to its value, and every other key keeps
      the value of the last earlier row contributing it. */
  lemma CollectStep<R, K, V>(rows: seq<R>, key: R -> K, value: R -> Option<V>, m: map<K, V>, r: map<K, V>)
    requires |rows| > 0
    requires var n := |rows| - 1;
             forall i :: 0 <= i < n && value(rows[..n][i]).Some? ==> key(rows[..n][i]) in m
    requires var n := |rows| - 1;
             forall k :: k in m ==>
               exists i :: 0 <= i < n && Contributes(rows[..n], key, value, i, k) && value(rows[..n][i]) == Some(m[k])
                           && forall j :: i < j < n ==> !Contributes(rows[..n], key, value, j, k)
    requires var x := rows[|rows| - 1];
             r == match value(x) case Some(v) => m[key(x) := v] case None => m
    ensures forall i :: 0 <= i < |rows| && value(rows[i]).Some? ==> key(rows[i]) in r
    ensures forall k :: k in r ==>
              exists i :: 0 <= i < |rows| && Contributes(rows, key, value, i, k) && value(rows[i]) == Some(r[k])
                          && forall j :: i < j < |rows| ==> !Contributes(rows, key, value, j, k)
  {
    var n := |rows| - 1;
    var front := rows[..n];
    var x := rows[n];
    assert forall i :: 0 <= i < n ==> front[i] == rows[i];
    forall k | k in r
      ensures exists i :: 0 <= i < |rows| && Contributes(rows, key, value, i, k) && value(rows[i]) == Some(r[k])
                          && forall j :: i < j < |rows| ==> !Contributes(rows, key, value, j, k)
    {
      if value(x).Some? && key(x) == k {
        assert Contributes(rows, key, value, n, k);
      } else {
        assert k in m && r[k] == m[k];
        var i :| 0 <= i < n && Contributes(front, key, value, i, k) && value(front[i]) == Some(m[k])
                 && forall j :: i < j < n ==> !Contributes(front, key, value, j, k);
        assert Contributes(rows, key, value, i, k);
        forall j | i < j < |rows| ensures !Contributes(rows, key, value, j, k) {
          if j < n {
            assert !Contributes(front, key, value, j, k);
          }
        }
      }
    }
  }

  /** The row a key of a collected dict takes its value from. */
  lemma CollectWitness<R, K, V>(rows: seq<R>, key: R -> K, value: R -> Option<V>, k: K) returns (i: nat)
    requires k in Collect(rows, key, value)
    ensures i < |rows| && Contributes(rows, key, value, i, k) && value(rows[i]) == Some(Collect(rows, key, value)[k])
    ensures forall j :: i < j < |rows| ==> !Contributes(rows, key, value, j, k)
  {
    var m := Collect(rows, key, value);
    i :| 0 <= i < |rows| && Contributes(rows, key, value, i, k) && value(rows[i]) == Some(m[k])
         && forall j :: i < j < |rows| ==> !Contributes(rows, key, value, j, k);
  }

  /** `rs[i]` is the first failure in `rs`. */
  predicate FirstError<T, E>(rs: seq<Result<T, E>>, i: int)
    requires 0 <= i < |rs|
  {
    rs[i].Failure? && forall j :: 0 <= j < i ==> rs[j].Success?
  }

  /** A loop that runs a step per element and lets the first exception escape: it yields every
      step's value when all succeed, and the first step's error otherwise. */
  function AllOrFirstError<T(==), E(==)>(rs: seq<Result<T, E>>): (r: Result<seq<T>, E>)
    ensures r.Success? <==> forall i :: 0 <= i < |rs| ==> rs[i].Success?
    ensures r.Success? ==> |r.value| == |rs| && forall i :: 0 <= i < |rs| ==> rs[i] == Success(r.value[i])
    ensures r.Failure? ==> exists i :: 0 <= i < |rs| && FirstError(rs, i) && rs[i] == Failure(r.error)
  {
    if |rs| == 0 then Success([])
    else
      var n := |rs| - 1;
      match AllOrFirstError(rs[..n])
      case Failure(e) =>
        var i :| 0 <= i < n && FirstError(rs[..n], i) && rs[..n][i] == Failure(e);
        assert FirstError(rs, i);
        Failure(e)
      case Success(front) =>
        match rs[n]
        case Failure(e) =>
          assert FirstError(rs, n);
          Failure(e)
        case Success(b) => Success(front + [b])
  }
}
