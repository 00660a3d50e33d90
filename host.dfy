/**
 * The part of the editor the tab sorter talks to: views, and a window whose
 * panes (groups) each hold an ordered row of tabs. `get_view_index` and
 * `set_view_index` are the host calls the sorter uses to read and change a
 * view's (group, index) placement.
 */
module Host {

  datatype Option<T> = None | Some(value: T)

  type ViewId = int

  /**
   * A snapshot of one view: its id, the file it shows (None for an unsaved
   * buffer), and whether it has unsaved changes or is a scratch buffer.
   */
  datatype View = View(id: ViewId, fileName: Option<string>, dirty: bool, scratch: bool)

  /** No view id occurs twice in `vs`. */
  predicate DistinctIds(vs: seq<View>) {
    forall i, j :: 0 <= i < j < |vs| ==> vs[i].id != vs[j].id
  }

  /** No view id occurs twice in the window, within a pane or across panes. */
  predicate ValidPanes(panes: seq<seq<View>>) {
    && (forall g :: 0 <= g < |panes| ==> DistinctIds(panes[g]))
    && (forall g, h, i, j :: 0 <= g < h < |panes| && 0 <= i < |panes[g]| && 0 <= j < |panes[h]| ==>
          panes[g][i].id != panes[h][j].id)
  }

  /** Position of the first occurrence of `v` in `pane`, or -1. */
  function IndexIn(pane: seq<View>, v: View): (r: int)
    ensures -1 <= r < |pane|
    ensures r == -1 <==> v !in pane
    ensures r >= 0 ==> pane[r] == v && v !in pane[..r]
  {
    if pane == [] then -1
    else if pane[0] == v then 0
    else
      var r := IndexIn(pane[1..], v);
      assert pane == [pane[0]] + pane[1..];
      if r == -1 then -1
      else
        assert pane[..r + 1] == [pane[0]] + pane[1..][..r];
        r + 1
  }

  /** `get_view_index` restricted to the panes from `g` on. */
  function ViewIndexFrom(panes: seq<seq<View>>, v: View, g: nat): (r: (int, int))
    requires g <= |panes|
    decreases |panes| - g
    ensures r.0 == -1 <==> forall h :: g <= h < |panes| ==> v !in panes[h]
    ensures r.0 == -1 ==> r.1 == -1
    ensures r.0 != -1 ==> g <= r.0 < |panes| && 0 <= r.1 < |panes[r.0]| && panes[r.0][r.1] == v
    ensures r.0 != -1 ==> v !in panes[r.0][..r.1] && forall h :: g <= h < r.0 ==> v !in panes[h]
  {
    if g == |panes| then (-1, -1)
    else
      var i := IndexIn(panes[g], v);
      if i >= 0 then (g, i) else ViewIndexFrom(panes, v, g + 1)
  }

  /** The window's `get_view_index`: the (group, index) of the view, or (-1, -1). */
  function ViewIndex(panes: seq<seq<View>>, v: View): (r: (int, int))
    ensures r.0 == -1 <==> forall h :: 0 <= h < |panes| ==> v !in panes[h]
    ensures r.0 == -1 ==> r.1 == -1
    ensures r.0 != -1 ==> 0 <= r.0 < |panes| && 0 <= r.1 < |panes[r.0]| && panes[r.0][r.1] == v
    ensures r.0 != -1 ==> v !in panes[r.0][..r.1] && forall h :: 0 <= h < r.0 ==> v !in panes[h]
  {
    ViewIndexFrom(panes, v, 0)
  }

  function RemoveAt(s: seq<View>, p: nat): (r: seq<View>)
    requires p < |s|
    ensures |r| == |s| - 1
    ensures multiset(r) + multiset{s[p]} == multiset(s)
  {
    assert s == s[..p] + [s[p]] + s[p + 1..];
    s[..p] + s[p + 1..]
  }

  function InsertAt(s: seq<View>, k: nat, v: View): (r: seq<View>)
    requires k <= |s|
    ensures |r| == |s| + 1 && r[k] == v
    ensures multiset(r) == multiset(s) + multiset{v}
  {
    assert s == s[..k] + s[k..];
    s[..k] + [v] + s[k..]
  }

  /** What `set_view_index(v, group, index)` does: take the view out of its pane, then insert it at `index` of `group`. */
  function MoveView(panes: seq<seq<View>>, v: View, group: nat, index: nat): (r: seq<seq<View>>)
    requires ViewIndex(panes, v).0 != -1 && group < |panes|
    requires index <= |panes[group]| - (if ViewIndex(panes, v).0 == group then 1 else 0)
    ensures |r| == |panes| && index < |r[group]| && r[group][index] == v
    ensures forall h :: 0 <= h < |panes| && h != group && h != ViewIndex(panes, v).0 ==> r[h] == panes[h]
  {
    var (g0, p) := ViewIndex(panes, v);
    var removed := panes[g0 := RemoveAt(panes[g0], p)];
    removed[group := InsertAt(removed[group], index, v)]
  }

  /**
   * Moving a view forward within its own pane, to a slot at or before where it
   * now stands, keeps the slots ahead of the target, puts the view at the
   * target, keeps the pane's contents and leaves every other pane alone.
   */
  lemma MoveWithinPane(panes: seq<seq<View>>, v: View, g: nat, k: nat)
    requires g < |panes| && ViewIndex(panes, v).0 == g && k <= ViewIndex(panes, v).1
    ensures k < |panes[g]|
    ensures var r := MoveView(panes, v, g, k);
      && |r| == |panes|
      && r[g][..k] == panes[g][..k] && r[g][k] == v
      && multiset(r[g]) == multiset(panes[g])
      && forall h :: 0 <= h < |panes| && h != g ==> r[h] == panes[h]
  {
    var p := ViewIndex(panes, v).1;
    var removed := RemoveAt(panes[g], p);
    assert removed[..k] == panes[g][..k];
    var r := MoveView(panes, v, g, k);
    assert r[g] == InsertAt(removed, k, v);
    assert r[g][..k] == removed[..k];
  }

  /**
   * Past the target slot, a view moved forward within its own pane leaves the
   * pane's other tabs in their old order: those that stood from the target up
   * to the view shift one slot right, those after it stay where they were.
   */
  lemma MoveTail(panes: seq<seq<View>>, v: View, g: nat, k: nat)
    requires g < |panes| && ViewIndex(panes, v).0 == g && k <= ViewIndex(panes, v).1
    ensures var r, p := MoveView(panes, v, g, k)[g], ViewIndex(panes, v).1;
      && |r| == |panes[g]|
      && (forall j :: k < j <= p ==> r[j] == panes[g][j - 1])
      && (forall j :: p < j < |r| ==> r[j] == panes[g][j])
  {
    var p := ViewIndex(panes, v).1;
    assert MoveView(panes, v, g, k)[g] == InsertAt(RemoveAt(panes[g], p), k, v);
    ShiftTail(panes[g], p, k, v);
  }

  /** Taking the tab at `p` out and inserting `v` at `k <= p` shifts the tabs from `k` to `p` one slot right. */
  lemma ShiftTail(s: seq<View>, p: nat, k: nat, v: View)
    requires k <= p < |s|
    ensures var r := InsertAt(RemoveAt(s, p), k, v);
      && |r| == |s|
      && (forall j :: k < j <= p ==> r[j] == s[j - 1])
      && (forall j :: p < j < |r| ==> r[j] == s[j])
  {
    var removed := RemoveAt(s, p);
    var r := InsertAt(removed, k, v);
    assert r == removed[..k] + [v] + removed[k..];
    forall j | k < j < |r| ensures r[j] == removed[j - 1] {
    }
  }

  class Window {
    /** Each group's tabs, left to right. */
    var panes: seq<seq<View>>
    /** Ids of the views whose settings carry the `sorttabs_tosort` flag. */
    var toSort: set<ViewId>
    /** The window's active view. */
    var active: View

    constructor (panes: seq<seq<View>>, toSort: set<ViewId>, active: View)
      requires ValidPanes(panes)
      ensures Valid()
      ensures this.panes == panes && this.toSort == toSort && this.active == active
    {
      this.panes := panes;
      this.toSort := toSort;
      this.active := active;
    }

    /**
     * No view id occurs twice in the window. The host guarantees this; the
     * constructor and `EraseToSort` keep it, and `Run` relies on it.
     */
    predicate Valid()
      reads this
    {
      ValidPanes(panes)
    }

    /** The host's `set_view_index`. */
    method SetViewIndex(v: View, group: nat, index: nat)
      requires ViewIndex(panes, v).0 != -1 && group < |panes|
      requires index <= |panes[group]| - (if ViewIndex(panes, v).0 == group then 1 else 0)
      modifies this
      ensures panes == MoveView(old(panes), v, group, index)
      ensures toSort == old(toSort) && active == old(active)
    {
      panes := MoveView(panes, v, group, index);
    }

    /** `view.settings().erase('sorttabs_tosort')`. */
    method EraseToSort(id: ViewId)
      modifies this
      ensures toSort == old(toSort) - {id}
      ensures old(Valid()) ==> Valid()
      ensures panes == old(panes) && active == old(active)
    {
      toSort := toSort - {id};
    }
  }
}
