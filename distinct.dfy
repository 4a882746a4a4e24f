/**
 * `mapDistinct(arr, cb)`: each element, mapped through `cb` when one is
 * given, is pushed onto a fresh accumulator unless it is null, undefined or
 * already there.
 */
module Distinct {
  import opened Wrappers
  import opened JsValues
  import opened JsNumbers

  /** `cb ? cb(x) : x` */
  function MapOne(cb: Option<JsValue -> JsValue>, x: JsValue): (y: JsValue)
    ensures cb.None? ==> y == x
  {
    if cb.Some? then cb.value(x) else x
  }

  /** The mapped elements, in order. */
  function Mapped(arr: seq<JsValue>, cb: Option<JsValue -> JsValue>): (m: seq<JsValue>)
    ensures |m| == |arr| && forall i :: 0 <= i < |arr| ==> m[i] == MapOne(cb, arr[i])
  {
    seq(|arr|, i requires 0 <= i < |arr| => MapOne(cb, arr[i]))
  }

  /** The present elements of `s`, each kept at its first occurrence. */
  function DistinctPresent(s: seq<JsValue>): (r: seq<JsValue>)
    ensures |r| <= |s|
  {
    if s == [] then []
    else
      var p := DistinctPresent(s[..|s| - 1]);
      var x := s[|s| - 1];
      if !IsAbsent(x) && x !in p then p + [x] else p
  }

  /** The `reduce` over `arr`, with the accumulator `a` grown by `push`. */
  method MapDistinct(arr: seq<JsValue>, cb: Option<JsValue -> JsValue>) returns (a: seq<JsValue>)
    ensures a == DistinctPresent(Mapped(arr, cb))
  {
    ghost var m := Mapped(arr, cb);
    a := [];
    var i := 0;
    while i < |arr|
      invariant 0 <= i <= |arr|
      invariant a == DistinctPresent(m[..i])
    {
      var x := MapOne(cb, arr[i]);
      assert m[..i + 1][..i] == m[..i] && m[..i + 1][i] == x;
      if !IsAbsent(x) && x !in a {
        a := a + [x];
      }
      i := i + 1;
    }
    assert m[..|arr|] == m;
  }

  // ---------------------------------------------------------------------------
  // What the result is

  /** No element is null or undefined, and no element occurs twice. */
  lemma {:induction false} DistinctPresentClean(s: seq<JsValue>)
    ensures forall i :: 0 <= i < |DistinctPresent(s)| ==> !IsAbsent(DistinctPresent(s)[i])
    ensures forall i, j :: 0 <= i < j < |DistinctPresent(s)| ==> DistinctPresent(s)[i] != DistinctPresent(s)[j]
    decreases |s|
  {
    if s != [] {
      DistinctPresentClean(s[..|s| - 1]);
    }
  }

  /** An element is in the result exactly when it is a present element of the input. */
  lemma {:induction false} DistinctPresentMembers(s: seq<JsValue>, y: JsValue)
    ensures y in DistinctPresent(s) <==> y in s && !IsAbsent(y)
    decreases |s|
  {
    if s != [] {
      var init := s[..|s| - 1];
      DistinctPresentMembers(init, y);
      assert s == init + [s[|s| - 1]];
    }
  }

  /** The position of the first occurrence of `x` in `s`. */
  function IndexOf(s: seq<JsValue>, x: JsValue): (k: nat)
    requires x in s
    ensures k < |s| && s[k] == x && x !in s[..k]
  {
    if s[0] == x then 0
    else
      assert s == [s[0]] + s[1..];
      var k := 1 + IndexOf(s[1..], x);
      assert s[..k] == [s[0]] + s[1..][..k - 1];
      k
  }

  /** An element's first occurrence lies in any prefix that holds it. */
  lemma IndexOfPrefix(s: seq<JsValue>, n: nat, x: JsValue)
    requires n <= |s| && x in s[..n]
    ensures IndexOf(s, x) == IndexOf(s[..n], x)
  {
  }

  /** The result lists the elements in the order of their first occurrence in the input. */
  lemma {:induction false} DistinctPresentOrder(s: seq<JsValue>)
    ensures forall i :: 0 <= i < |DistinctPresent(s)| ==> DistinctPresent(s)[i] in s
    ensures forall i, j :: 0 <= i < j < |DistinctPresent(s)| ==>
      IndexOf(s, DistinctPresent(s)[i]) < IndexOf(s, DistinctPresent(s)[j])
    decreases |s|
  {
    if s != [] {
      var n := |s| - 1;
      var init := s[..n];
      var p := DistinctPresent(init);
      var r := DistinctPresent(s);
      DistinctPresentOrder(init);
      forall i | 0 <= i < |p|
        ensures p[i] in s && IndexOf(s, p[i]) == IndexOf(init, p[i])
      {
        IndexOfPrefix(s, n, p[i]);
      }
      var x := s[n];
      if !IsAbsent(x) && x !in p {
        DistinctPresentMembers(init, x);
        assert x !in init;
        assert IndexOf(s, x) == n by {
          assert s[..n] == init;
        }
        forall i, j | 0 <= i < j < |r|
          ensures IndexOf(s, r[i]) < IndexOf(s, r[j])
        {
          if j < |p| {
            assert r[i] == p[i] && r[j] == p[j];
          } else {
            assert r[i] == p[i] && r[j] == x;
          }
        }
      }
    }
  }

  /** `mapDistinct` on its own output changes nothing: the result is already distinct and present. */
  lemma {:induction false} DistinctPresentIdempotent(s: seq<JsValue>)
    requires forall i :: 0 <= i < |s| ==> !IsAbsent(s[i])
    requires forall i, j :: 0 <= i < j < |s| ==> s[i] != s[j]
    ensures DistinctPresent(s) == s
    decreases |s|
  {
    if s != [] {
      var init := s[..|s| - 1];
      DistinctPresentIdempotent(init);
      assert forall k :: 0 <= k < |init| ==> init[k] == s[k];
      assert s == init + [s[|s| - 1]];
    }
  }

  /** `mapDistinct([1, null, 1, 2])` is `[1, 2]`. */
  lemma MapDistinctExample()
    ensures DistinctPresent(Mapped([Num(Finite(Decimal(1, 0))), Null, Num(Finite(Decimal(1, 0))),
      Num(Finite(Decimal(2, 0)))], None)) == [Num(Finite(Decimal(1, 0))), Num(Finite(Decimal(2, 0)))]
  {
    var one, two := Num(Finite(Decimal(1, 0))), Num(Finite(Decimal(2, 0)));
    var s := Mapped([one, Null, one, two], None);
    assert s == [one, Null, one, two];
    assert s[..3] == [one, Null, one] && s[..3][..2] == [one, Null] && s[..3][..2][..1] == [one];
    assert DistinctPresent([one]) == [one];
    assert DistinctPresent([one, Null]) == [one];
    assert DistinctPresent([one, Null, one]) == [one];
  }
}
