/**
 * The closing policy: how many tabs `close` asks for, which tail of the sorted
 * list that selects, and which of those may actually be closed.
 */
module Closing {
  import opened Host
  import opened ListViews

  /**
   * The number of tabs to consider for closing among `n` open ones: a negative
   * `close` is a percentage of `n`, rounded down, and a count of zero (asked
   * for or rounded to) becomes one.
   */
  function CloseCount(close: int, n: nat): (r: nat)
    ensures r >= 1
    ensures close > 0 ==> r == close
    ensures close == 0 ==> r == 1
    ensures close < 0 && r > 1 ==> r * 100 <= n * -close < (r + 1) * 100
    ensures close < 0 && r == 1 ==> n * -close < 200
  {
    var c := if close < 0 then n * -close / 100 else close;
    if c != 0 then c else 1
  }

  /** A percentage of at most 100 never asks for more tabs than are open (when any are). */
  lemma CloseCountPercentBound(close: int, n: nat)
    requires -100 <= close < 0 && n > 0
    ensures CloseCount(close, n) <= n
  {
    var r := CloseCount(close, n);
    var pct := -close;
    if r > 1 {
      assert r * 100 <= n * pct;
      assert n * pct <= n * 100 by {
        assert n * 100 - n * pct == n * (100 - pct);
        assert n * (100 - pct) >= 0;
      }
    }
  }

  lemma CloseCountExamples()
    ensures CloseCount(-50, 10) == 5
    ensures CloseCount(0, 10) == 1
    ensures CloseCount(-5, 10) == 1
    ensures CloseCount(3, 10) == 3
    ensures CloseCount(20, 10) == 20
  {
  }

  /** Python's `s[start:]`: a negative start counts from the end, and both ends are clamped. */
  function SliceFrom<T>(s: seq<T>, start: int): (r: seq<T>)
    ensures |r| <= |s| && r == s[|s| - |r|..]
    ensures start >= 0 ==> |r| == if start <= |s| then |s| - start else 0
    ensures start < 0 ==> |r| == if -start <= |s| then -start else |s|
  {
    var from := if start < 0 then (if start + |s| < 0 then 0 else start + |s|)
                else (if start > |s| then |s| else start);
    s[from..]
  }

  /** `list[-c:]` for a count c >= 1: the last c items, or all of them when there are fewer. */
  lemma LastItems<T>(s: seq<T>, c: nat)
    requires c >= 1
    ensures |SliceFrom(s, -(c as int))| == if c <= |s| then c else |s|
    ensures c >= |s| ==> SliceFrom(s, -(c as int)) == s
  {
  }

  /** A view that close_views may close: not the active view, not dirty, not scratch. */
  predicate Closable(v: View, current: View) {
    v.id != current.id && !v.dirty && !v.scratch
  }

  /** The closable views among `candidates`, in order. */
  function CloseSelection(candidates: seq<View>, current: View): (r: seq<View>)
    ensures |r| <= |candidates|
    ensures forall v :: v in r <==> v in candidates && Closable(v, current)
  {
    if candidates == [] then []
    else
      var rest := CloseSelection(candidates[1..], current);
      assert candidates == [candidates[0]] + candidates[1..];
      if Closable(candidates[0], current) then [candidates[0]] + rest else rest
  }

  /** The views close_views closes, given the sorted list and the `close` argument. */
  function Victims(listViews: seq<Entry>, close: int, current: View): (r: seq<View>)
    ensures forall v :: v in r ==> Closable(v, current)
    ensures forall v :: v in r ==> exists m :: 0 <= m < |listViews| && listViews[m].view == v
  {
    CloseSelection(ViewsOf(SliceFrom(listViews, -(CloseCount(close, |listViews|) as int))), current)
  }

  /**
   * At most `CloseCount` views and at most every open view are closed; none is
   * the active, a dirty or a scratch view; every closable view in the tail is.
   */
  lemma VictimsBounds(listViews: seq<Entry>, close: int, current: View)
    ensures var r := Victims(listViews, close, current);
      && |r| <= CloseCount(close, |listViews|)
      && |r| <= |listViews|
      && (listViews == [] ==> r == [])
      && (forall v :: v in r ==> v.id != current.id && !v.dirty && !v.scratch)
  {
    var c := CloseCount(close, |listViews|);
    LastItems(listViews, c);
  }

  /**
   * A view is closed exactly when it sits among the last `CloseCount` records
   * and is closable.
   */
  lemma VictimsExactly(listViews: seq<Entry>, close: int, current: View, v: View)
    ensures var c := CloseCount(close, |listViews|);
      var from := if c <= |listViews| then |listViews| - c else 0;
      v in Victims(listViews, close, current) <==>
        (exists m :: from <= m < |listViews| && listViews[m].view == v) && Closable(v, current)
  {
    var c := CloseCount(close, |listViews|);
    var from := if c <= |listViews| then |listViews| - c else 0;
    LastItems(listViews, c);
    assert SliceFrom(listViews, -(c as int)) == listViews[from..];
    ViewsOfSuffix(listViews, from, v);
  }

  /** A view is among the views of the records from `from` on exactly when one of those records holds it. */
  lemma ViewsOfSuffix(s: seq<Entry>, from: nat, v: View)
    requires from <= |s|
    ensures v in ViewsOf(s[from..]) <==> exists m :: from <= m < |s| && s[m].view == v
  {
    var views := ViewsOf(s[from..]);
    if v in views {
      var j :| 0 <= j < |views| && views[j] == v;
      assert s[from + j].view == v;
    }
    if exists m :: from <= m < |s| && s[m].view == v {
      var m :| from <= m < |s| && s[m].view == v;
      assert views[m - from] == v;
    }
  }
}
