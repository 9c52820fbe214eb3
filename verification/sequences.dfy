/** Linear scans over ordered lists, as the commands' for-each loops do them. */
module Sequences {
  import opened Wrappers

  /** The position of the first element satisfying `p`: a for-each loop that
      `break`s (or returns) at the first hit, and `None` when the loop ends. */
  function FindFirst<T>(xs: seq<T>, p: T -> bool): (r: Option<nat>)
    ensures r.Some? ==> r.value < |xs| && p(xs[r.value])
    ensures r.Some? ==> forall k :: 0 <= k < r.value ==> !p(xs[k])
    ensures r.None? <==> forall k :: 0 <= k < |xs| ==> !p(xs[k])
  {
    if |xs| == 0 then None
    else if p(xs[0]) then Some(0)
    else
      match FindFirst(xs[1..], p)
      case None =>
        assert forall k :: 1 <= k < |xs| ==> xs[k] == xs[1..][k - 1];
        None
      case Some(i) => Some(i + 1)
  }

  /** The elements satisfying `keep`, in their original order: the filtered
      view of a list. */
  function Keep<T>(xs: seq<T>, keep: T -> bool): (r: seq<T>)
    ensures |r| <= |xs|
    ensures forall k :: 0 <= k < |r| ==> keep(r[k]) && r[k] in xs
    ensures forall k :: 0 <= k < |xs| && keep(xs[k]) ==> xs[k] in r
    ensures (forall k :: 0 <= k < |xs| ==> keep(xs[k])) ==> r == xs
  {
    if |xs| == 0 then []
    else if keep(xs[0]) then [xs[0]] + Keep(xs[1..], keep)
    else Keep(xs[1..], keep)
  }

  /** Where the element at `k` of the filtered view sits in `xs`. */
  lemma {:induction false} KeepSource<T>(xs: seq<T>, keep: T -> bool, k: int) returns (i: int)
    requires 0 <= k < |Keep(xs, keep)|
    ensures 0 <= i < |xs| && xs[i] == Keep(xs, keep)[k]
  {
    var rest := Keep(xs[1..], keep);
    if keep(xs[0]) && k == 0 {
      i := 0;
    } else if keep(xs[0]) {
      assert Keep(xs, keep) == [xs[0]] + rest;
      var i' := KeepSource(xs[1..], keep, k - 1);
      i := i' + 1;
    } else {
      var i' := KeepSource(xs[1..], keep, k);
      i := i' + 1;
    }
  }

  /** The filtered view keeps the original order: of two elements of the
      view, the earlier one occurs in `xs` before the later one. */
  lemma {:induction false} KeepKeepsOrder<T>(xs: seq<T>, keep: T -> bool, a: int, b: int) returns (i: int, j: int)
    requires 0 <= a < b < |Keep(xs, keep)|
    ensures 0 <= i < j < |xs| && xs[i] == Keep(xs, keep)[a] && xs[j] == Keep(xs, keep)[b]
  {
    var r := Keep(xs, keep);
    var rest := Keep(xs[1..], keep);
    if keep(xs[0]) {
      assert r == [xs[0]] + rest;
      assert r[b] == rest[b - 1];
      var j' := KeepSource(xs[1..], keep, b - 1);
      if a == 0 {
        i := 0;
      } else {
        assert r[a] == rest[a - 1];
        var i'; i', j' := KeepKeepsOrder(xs[1..], keep, a - 1, b - 1);
        i := i' + 1;
      }
      j := j' + 1;
    } else {
      assert r == rest;
      var i', j' := KeepKeepsOrder(xs[1..], keep, a, b);
      i, j := i' + 1, j' + 1;
    }
  }

  /** The first element of the filtered view satisfying `p` is the first
      element of the whole list satisfying both `keep` and `p`. */
  lemma {:induction false} FindFirstInKept<T>(xs: seq<T>, keep: T -> bool, p: T -> bool, q: T -> bool)
    requires forall x :: q(x) == (keep(x) && p(x))
    ensures FindFirst(Keep(xs, keep), p).Some? <==> FindFirst(xs, q).Some?
    ensures FindFirst(Keep(xs, keep), p).Some? ==>
              Keep(xs, keep)[FindFirst(Keep(xs, keep), p).value] == xs[FindFirst(xs, q).value]
  {
    if |xs| != 0 {
      var rest := Keep(xs[1..], keep);
      FindFirstInKept(xs[1..], keep, p, q);
      if keep(xs[0]) {
        assert Keep(xs, keep) == [xs[0]] + rest;
        if !p(xs[0]) {
          assert ([xs[0]] + rest)[1..] == rest;
        }
      } else {
        assert Keep(xs, keep) == rest;
      }
    }
  }

  /** The position of the first element equal to `x`, as `List.indexOf`. */
  function IndexOf<T(==)>(xs: seq<T>, x: T): (r: Option<nat>)
    ensures r.Some? <==> x in xs
    ensures r.Some? ==> r.value < |xs| && xs[r.value] == x && x !in xs[..r.value]
  {
    FindFirst(xs, y => y == x)
  }

  /** Replaces the first element equal to `target` by `v`: a by-value swap
      such as `setEmployee(target, edited)`. */
  function ReplaceFirst<T(==)>(xs: seq<T>, target: T, v: T): (r: seq<T>)
    requires target in xs
    ensures |r| == |xs|
    ensures exists i :: 0 <= i < |xs| && xs[i] == target && target !in xs[..i] && r == xs[i := v]
  {
    var i := IndexOf(xs, target).value;
    xs[i := v]
  }
}
