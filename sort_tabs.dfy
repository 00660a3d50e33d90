/**
 * The `sort_tabs` window command: build one record per open view, sort the
 * records stably by (group, key), move every view whose placement differs
 * from its rank in its group, and optionally close tabs from the end of the
 * sorted list.
 */
module SortTabs {
  import opened Host
  import opened Names
  import opened ListViews
  import opened Closing

  class SortTabsCommand {
    const window: Window
    /** The view that was active when `Run` began. */
    var currentView: View

    constructor (window: Window)
      ensures this.window == window && currentView == window.active
    {
      this.window := window;
      currentView := window.active;
    }

    /** One [view, group] record per open view, pane by pane. */
    method InitFileViews() returns (listViews: seq<Placed>)
      ensures listViews == Placements(window.panes)
    {
      var panes := window.panes;
      listViews := [];
      var g := 0;
      while g < |panes|
        invariant 0 <= g <= |panes|
        invariant listViews == Placements(panes[..g])
      {
        var pane := panes[g];
        var i := 0;
        while i < |pane|
          invariant 0 <= i <= |pane|
          invariant listViews == Placements(panes[..g]) + PaneRow(pane, g)[..i]
        {
          listViews := listViews + [Placed(pane[i], g)];
          i := i + 1;
        }
        assert panes[..g + 1][..g] == panes[..g];
        assert PaneRow(pane, g)[..i] == PaneRow(pane, g);
        g := g + 1;
      }
      assert panes[..g] == panes;
    }

    /** Extends every record with its view's sort key. */
    method FillListViews(listViews: seq<Placed>) returns (filled: seq<Entry>)
      ensures filled == Keyed(listViews)
    {
      filled := [];
      var i := 0;
      while i < |listViews|
        invariant 0 <= i <= |listViews|
        invariant filled == Keyed(listViews)[..i]
      {
        var item := listViews[i];
        filled := filled + [Entry(item.view, item.group, SortKey(item.view.fileName))];
        i := i + 1;
      }
    }

    /**
     * Sorts the records in place by (group, key), stably: an insertion sort
     * that only ever exchanges neighbours that are strictly out of order.
     */
    method SortListViews(a: array<Entry>)
      modifies a
      ensures Sorted(a[..])
      ensures multiset(a[..]) == multiset(old(a[..]))
      ensures SameBuckets(a[..], old(a[..]))
    {
      var i := 0;
      while i < a.Length
        invariant 0 <= i <= a.Length
        invariant SortedBetween(a[..], 0, i)
        invariant multiset(a[..]) == multiset(old(a[..]))
        invariant SameBuckets(a[..], old(a[..]))
      {
        ghost var before := a[..];
        InsertNext(a, i);
        SameBucketsTransitive(a[..], before, old(a[..]));
        i := i + 1;
      }
      SortedBetweenIsSorted(a[..]);
    }

    /**
     * One pass of the insertion sort: the record at `i` sinks past every
     * record before it that it is strictly below, so that the first `i + 1`
     * records are in order.
     */
    method InsertNext(a: array<Entry>, i: nat)
      requires i < a.Length && SortedBetween(a[..], 0, i)
      modifies a
      ensures SortedBetween(a[..], 0, i + 1)
      ensures multiset(a[..]) == multiset(old(a[..])) && SameBuckets(a[..], old(a[..]))
      ensures a[i + 1..] == old(a[i + 1..])
      ensures multiset(a[..i + 1]) == multiset(old(a[..i + 1]))
    {
      var j := i;
      while j > 0 && !Le(a[j - 1], a[j])
        invariant 0 <= j <= i
        invariant SortedBetween(a[..], 0, j) && SortedBetween(a[..], j, i + 1)
        invariant 0 < j < i ==> Le(a[j - 1], a[j + 1])
        invariant multiset(a[..]) == multiset(old(a[..]))
        invariant SameBuckets(a[..], old(a[..]))
        invariant a[i + 1..] == old(a[..])[i + 1..]
      {
        ghost var before := a[..];
        SwapStep(before, i, j);
      SwapKeepsTail(before, j - 1, i + 1);
        a[j - 1], a[j] := a[j], a[j - 1];
        assert a[..] == Swap(before, j - 1);
        SameBucketsTransitive(a[..], before, old(a[..]));
        j := j - 1;
      }
      InsertDone(a[..], i, j);
      PrefixReordered(a[..], old(a[..]), i + 1);
    }

    /**
     * Walks each group of the sorted list, erases the "to sort" flag of every
     * view and moves each view whose (group, index) is not its rank in the
     * group. Returns the number of moves made.
     */
    method SortViews(listViews: seq<Entry>) returns (moves: nat)
      requires GroupsSorted(listViews) && IdsDistinct(listViews)
      requires forall m :: 0 <= m < |listViews| ==> listViews[m].group < |window.panes|
      requires PanesHold(window.panes, listViews)
      modifies window
      ensures |window.panes| == |old(window.panes)|
      ensures Arranged(window.panes, listViews)
      ensures window.toSort == old(window.toSort) - IdsOf(listViews)
      ensures window.active == old(window.active)
      ensures moves <= |listViews|
      ensures moves == 0 <==> Arranged(old(window.panes), listViews)
    {
      ghost var panes0 := window.panes;
      ghost var flags := window.toSort;
      ghost var arranged := Arranged(panes0, listViews);
      var n := |listViews|;
      PanesBeforeFirst(window.panes, listViews);
      moves := 0;
      var i := 0;
      while i < n
        invariant 0 <= i <= n
        invariant |window.panes| == |panes0| && window.active == old(window.active)
        invariant Swept(window.panes, listViews, i)
        invariant window.toSort == Erased(flags, listViews, i)
        invariant moves <= i
        invariant moves == 0 ==> window.panes == panes0
        invariant arranged ==> moves == 0
      {
        var count, made := SortGroup(listViews, i, flags, arranged);
        CloseGroup(window.panes, listViews, i, count);
        moves := moves + made;
        i := i + count;
        assert Swept(window.panes, listViews, i);
      }
      ErasedIds(flags, listViews, n);
      assert listViews[..n] == listViews;
    }

    /**
     * One group of `sort_views`: the records from `i` on that share record
     * `i`'s group take the slots 0, 1, ... of that group's pane, each moved
     * only when it is not there already. Returns the number of records in the
     * run and how many moves were made. The ghost `flags` are the "to sort"
     * flags before `SortViews` began; `arranged` says whether the window
     * already matched the list then, in which case nothing moves.
     */
    method SortGroup(listViews: seq<Entry>, i: nat, ghost flags: set<ViewId>, ghost arranged: bool)
      returns (count: nat, moves: nat)
      requires GroupsSorted(listViews) && IdsDistinct(listViews)
      requires i < |listViews| && listViews[i].group < |window.panes|
      requires 0 < i ==> listViews[i - 1].group < listViews[i].group
      requires PanesHold(window.panes, listViews) && ArrangedBelow(window.panes, listViews, i)
      requires window.toSort == Erased(flags, listViews, i)
      requires arranged ==> Arranged(window.panes, listViews)
      modifies window
      ensures 0 < count && i + count <= |listViews|
      ensures i + count < |listViews| ==> listViews[i + count].group != listViews[i].group
      ensures Placing(window.panes, listViews, i, count, listViews[i].group)
      ensures |window.panes| == |old(window.panes)| && window.active == old(window.active)
      ensures window.toSort == Erased(flags, listViews, i + count)
      ensures moves <= count
      ensures moves == 0 ==> window.panes == old(window.panes)
      ensures arranged ==> moves == 0
      ensures forall h :: 0 <= h < |window.panes| && h != listViews[i].group ==> window.panes[h] == old(window.panes)[h]
    {
      var group := listViews[i].group;
      var index := 0;
      moves := 0;
      while i + index < |listViews| && listViews[i + index].group == group
        invariant Placing(window.panes, listViews, i, index, group)
        invariant |window.panes| == |old(window.panes)| && window.active == old(window.active)
        invariant window.toSort == Erased(flags, listViews, i + index)
        invariant moves <= index
        invariant moves == 0 ==> window.panes == old(window.panes)
        invariant arranged ==> moves == 0
        invariant forall h :: 0 <= h < |window.panes| && h != group ==> window.panes[h] == old(window.panes)[h]
      {
        var moved := PlaceView(listViews, i, index, group, flags, arranged);
        if moved {
          moves := moves + 1;
        }
        index := index + 1;
      }
      count := index;
    }

    /**
     * One step of `sort_views`: erases the record's "to sort" flag and, when
     * its view is not at slot `index` of its group's pane, moves it there.
     * Returns whether a move was made: exactly when the view was elsewhere.
     */
    method PlaceView(listViews: seq<Entry>, i: nat, index: nat, group: nat, ghost flags: set<ViewId>, ghost arranged: bool)
      returns (moved: bool)
      requires GroupsSorted(listViews) && IdsDistinct(listViews)
      requires Placing(window.panes, listViews, i, index, group)
      requires i + index < |listViews| && listViews[i].group == group && listViews[i + index].group == group
      requires 0 < i ==> listViews[i - 1].group < group
      requires window.toSort == Erased(flags, listViews, i + index)
      requires arranged ==> Arranged(window.panes, listViews)
      modifies window
      ensures Placing(window.panes, listViews, i, index + 1, group)
      ensures |window.panes| == |old(window.panes)| && window.active == old(window.active)
      ensures window.toSort == Erased(flags, listViews, i + index + 1)
      ensures !moved ==> window.panes == old(window.panes)
      ensures moved <==> ViewIndex(old(window.panes), listViews[i + index].view) != (group, index)
      ensures arranged ==> !moved
      ensures forall h :: 0 <= h < |window.panes| && h != group ==> window.panes[h] == old(window.panes)[h]
      ensures ViewIndex(old(window.panes), listViews[i + index].view).0 == group
      ensures index <= ViewIndex(old(window.panes), listViews[i + index].view).1
      ensures |window.panes[group]| == |old(window.panes)[group]|
      ensures var p := ViewIndex(old(window.panes), listViews[i + index].view).1;
        forall k :: index < k <= p ==> window.panes[group][k] == old(window.panes)[group][k - 1]
      ensures var p := ViewIndex(old(window.panes), listViews[i + index].view).1;
        forall k :: p < k < |window.panes[group]| ==> window.panes[group][k] == old(window.panes)[group][k]
    {
      var view := listViews[i + index].view;
      window.EraseToSort(view.id);
      ghost var panes := window.panes;
      PlaceNext(panes, listViews, i, index, group);
      MoveNeeded(panes, listViews, i, index, group);
      var at := ViewIndex(window.panes, view);
      moved := at != (group, index);
      if moved {
        window.SetViewIndex(view, group, index);
      }
      assert window.panes == Step(panes, view, group, index);
      StepTail(panes, view, group, index);
    }

    /**
     * The views `close_views` closes: from the last `CloseCount` records of the
     * sorted list, those that are not the active view, not dirty and not
     * scratch. Returns how many there are and which, in list order.
     */
    method CloseViews(listViews: seq<Entry>, close: int) returns (closed: nat, victims: seq<View>)
      ensures victims == Victims(listViews, close, currentView)
      ensures closed == |victims|
      ensures closed <= CloseCount(close, |listViews|) && closed <= |listViews|
      ensures forall v :: v in victims ==> v.id != currentView.id && !v.dirty && !v.scratch
    {
      var count := CloseCount(close, |listViews|);
      var tail := SliceFrom(listViews, -(count as int));
      closed := 0;
      victims := [];
      var i := 0;
      while i < |tail|
        invariant 0 <= i <= |tail|
        invariant victims == CloseSelection(ViewsOf(tail[..i]), currentView)
        invariant closed == |victims|
      {
        var view := tail[i].view;
        CloseSelectionSnoc(ViewsOf(tail[..i]), view, currentView);
        ViewsOfPrefix(tail, i);
        if view.id != currentView.id && !view.dirty && !view.scratch {
          victims := victims + [view];
          closed := closed + 1;
        }
        i := i + 1;
      }
      assert tail[..i] == tail;
      VictimsBounds(listViews, close, currentView);
    }

    /** The record list `run` builds: one record per view, keyed, and sorted stably by (group, key). */
    method SortedListViews() returns (listViews: seq<Entry>)
      ensures Sorted(listViews) && SameBuckets(listViews, Keyed(Placements(window.panes)))
      ensures multiset(listViews) == multiset(Keyed(Placements(window.panes)))
    {
      var placed := InitFileViews();
      var filled := FillListViews(placed);
      var a := new Entry[|filled|](i requires 0 <= i < |filled| => filled[i]);
      assert a[..] == filled;
      SortListViews(a);
      listViews := a[..];
    }

    /**
     * The command: sorts the window's tabs when `sort` holds, then closes tabs
     * when `close` is given (None stands for Python's `close=False`). The
     * sorted record list is returned as a ghost value for the contract.
     */
    method Run(sort: bool, close: Option<int>)
      returns (moves: nat, closed: nat, victims: seq<View>, ghost listViews: seq<Entry>)
      requires window.Valid()
      modifies this, window
      ensures currentView == old(window.active)
      ensures window.Valid() && window.active == old(window.active)
      ensures |window.panes| == |old(window.panes)|
      ensures Sorted(listViews) && SameBuckets(listViews, Keyed(Placements(old(window.panes))))
      ensures multiset(listViews) == multiset(Keyed(Placements(old(window.panes))))
      ensures sort ==> Arranged(window.panes, listViews)
      ensures sort ==> PanesSortedFrom(old(window.panes), window.panes)
      ensures sort ==> window.toSort == old(window.toSort) - IdsOf(Keyed(Placements(old(window.panes))))
      ensures sort ==> (moves == 0 <==> window.panes == old(window.panes))
      ensures sort && PanesKeySorted(old(window.panes)) ==> moves == 0 && window.panes == old(window.panes)
      ensures !sort ==> moves == 0 && window.panes == old(window.panes) && window.toSort == old(window.toSort)
      ensures close.None? ==> closed == 0 && victims == []
      ensures close.Some? ==> victims == Victims(listViews, close.value, currentView) && closed == |victims|
    {
      currentView := window.active;
      var sorted := SortedListViews();
      listViews := sorted;

      ghost var panes0 := window.panes;
      SortedRecords(panes0, sorted);
      moves := 0;
      if sort {
        moves := SortViews(sorted);
        SortedOutcome(panes0, window.panes, sorted);
      }

      closed, victims := 0, [];
      if close.Some? {
        closed, victims := CloseViews(sorted, close.value);
      }
    }
  }

  /**
   * What the sorted record list of a valid window is: sorted by group, one
   * record per view, keys that are the views' sort keys, groups that exist,
   * and per group the views of that group's pane.
   */
  lemma SortedRecords(panes: seq<seq<View>>, s: seq<Entry>)
    requires ValidPanes(panes) && Sorted(s) && multiset(s) == multiset(Keyed(Placements(panes)))
    ensures GroupsSorted(s) && IdsDistinct(s) && KeyConsistent(s)
    ensures forall m :: 0 <= m < |s| ==> s[m].group < |panes|
    ensures PanesHold(panes, s)
    ensures IdsOf(s) == IdsOf(Keyed(Placements(panes)))
  {
    var unsorted := Keyed(Placements(panes));
    PlacementsDistinct(panes);
    IdsDistinctPermutation(unsorted, s);
    PlacementsShape(panes);
    SortedGroups(s);
    forall m | 0 <= m < |s| ensures s[m].key == SortKey(s[m].view.fileName) && s[m].group < |panes| {
      assert s[m] in multiset(unsorted);
      var m' :| 0 <= m' < |unsorted| && unsorted[m'] == s[m];
    }
    forall g | 0 <= g < |panes| ensures multiset(panes[g]) == multiset(GroupViews(s, g)) {
      PlacementsGroupViews(panes, g);
      GroupViewsPermutation(unsorted, s, g);
    }
    IdsOfPermutation(s, unsorted);
  }

  /**
   * Once the panes are arranged as the sorted list says, each pane is in key
   * order, holds the views it held before, keeps the relative order of views
   * with equal keys, and no view id occurs twice in the window.
   */
  lemma SortedOutcome(before: seq<seq<View>>, after: seq<seq<View>>, s: seq<Entry>)
    requires ValidPanes(before) && |after| == |before|
    requires Sorted(s) && KeyConsistent(s) && IdsDistinct(s)
    requires multiset(s) == multiset(Keyed(Placements(before))) && SameBuckets(s, Keyed(Placements(before)))
    requires Arranged(after, s)
    ensures ValidPanes(after) && PanesSortedFrom(before, after)
    ensures Arranged(before, s) <==> after == before
    ensures PanesKeySorted(before) ==> after == before
  {
    var unsorted := Keyed(Placements(before));
    forall g | 0 <= g < |after|
      ensures KeySorted(after[g]) && multiset(after[g]) == multiset(before[g])
      ensures forall k :: KeyFilter(after[g], k) == KeyFilter(before[g], k)
    {
      GroupViewsKeySorted(s, g);
      PlacementsGroupViews(before, g);
      GroupViewsPermutation(unsorted, s, g);
      forall k ensures KeyFilter(after[g], k) == KeyFilter(before[g], k) {
        KeyFilterGroupViews(s, g, k);
        KeyFilterGroupViews(unsorted, g, k);
      }
    }
    ArrangedValid(before, after, s);
    if Arranged(before, s) {
      ArrangedUnique(before, after, s);
    }
    if PanesKeySorted(before) {
      AlreadySorted(before, s);
      ArrangedUnique(before, after, s);
    }
  }

  /** Panes whose tabs are all in key order are already arranged as the sorted list says. */
  lemma AlreadySorted(panes: seq<seq<View>>, s: seq<Entry>)
    requires PanesKeySorted(panes)
    requires Sorted(s) && SameBuckets(s, Keyed(Placements(panes)))
    ensures Arranged(panes, s)
  {
    ArrangedPlacementsSorted(panes);
    SortedUnique(s, Keyed(Placements(panes)));
    forall g | 0 <= g < |panes| ensures panes[g] == GroupViews(s, g) {
      PlacementsGroupViews(panes, g);
    }
  }

  /** A record list arranges at most one window of a given number of panes. */
  lemma ArrangedUnique(a: seq<seq<View>>, b: seq<seq<View>>, s: seq<Entry>)
    requires |a| == |b| && Arranged(a, s) && Arranged(b, s)
    ensures a == b
  {
    assert forall g :: 0 <= g < |a| ==> a[g] == GroupViews(s, g) == b[g];
  }

  /** The first `n` tabs of `pane` are the views of records `i` to `i + n - 1` of `s`. */
  predicate Leads(pane: seq<View>, s: seq<Entry>, i: nat, n: nat) {
    n <= |pane| && i + n <= |s| && forall p :: 0 <= p < n ==> pane[p] == s[i + p].view
  }

  /** The record being inserted has stopped: the list is in order up to and including slot `i`. */
  lemma InsertDone(s: seq<Entry>, i: nat, j: nat)
    requires j <= i < |s|
    requires SortedBetween(s, 0, j) && SortedBetween(s, j, i + 1)
    requires j == 0 || Le(s[j - 1], s[j])
    ensures SortedBetween(s, 0, i + 1)
  {
  }

  /**
   * One exchange of the insertion sort: moving the out-of-order record at `j`
   * one slot down keeps the list's records and buckets, and keeps the sorted
   * stretches either side of the record being moved.
   */
  lemma SwapStep(s: seq<Entry>, i: nat, j: nat)
    requires 0 < j <= i < |s|
    requires SortedBetween(s, 0, j) && SortedBetween(s, j, i + 1)
    requires j < i ==> Le(s[j - 1], s[j + 1])
    requires !Le(s[j - 1], s[j])
    ensures var t := Swap(s, j - 1);
      && SortedBetween(t, 0, j - 1) && SortedBetween(t, j - 1, i + 1)
      && (0 < j - 1 < i ==> Le(t[j - 2], t[j]))
      && multiset(t) == multiset(s) && SameBuckets(t, s)
  {
    var t := Swap(s, j - 1);
    SwapKeepsBuckets(s, j - 1);
    assert |t| == |s|;
    assert t[j - 1] == s[j] && t[j] == s[j - 1];
    forall m | 0 < m < j - 1 ensures Le(t[m - 1], t[m]) {
      assert t[m - 1] == s[m - 1] && t[m] == s[m];
    }
    forall m | j - 1 < m < i + 1 ensures Le(t[m - 1], t[m]) {
      if m == j {
        LeTotal(s[j - 1], s[j]);
      } else if m == j + 1 {
        assert t[m] == s[j + 1];
      } else {
        assert t[m - 1] == s[m - 1] && t[m] == s[m];
      }
    }
    if 0 < j - 1 {
      assert t[j - 2] == s[j - 2];
      assert Le(s[j - 2], s[j - 1]);
    }
  }

  /**
   * In a sorted list, the views of the group whose run starts at `i` begin
   * with the run's views, in list order.
   */
  lemma RunViews(s: seq<Entry>, i: nat, j: nat)
    requires GroupsSorted(s) && i < j <= |s|
    requires 0 < i ==> s[i - 1].group < s[i].group
    requires s[j - 1].group == s[i].group
    ensures GroupViews(s, s[i].group) == ViewsOf(s[i..j]) + GroupViews(s[j..], s[i].group)
  {
    var g := s[i].group;
    BeforeRun(s, i);
    RunUniform(s, i, j);
    GroupViewsUniform(s[i..j], g, g);
    SliceSplit(s, i, j);
    GroupViewsConcat(s[i..j], s[j..], g);
  }

  lemma SliceSplit<T>(s: seq<T>, i: nat, j: nat)
    requires i <= j <= |s|
    ensures s[i..] == s[i..j] + s[j..]
  {
  }

  /** No record before the run that starts at `i` is in the run's group. */
  lemma BeforeRun(s: seq<Entry>, i: nat)
    requires GroupsSorted(s) && i < |s|
    requires 0 < i ==> s[i - 1].group < s[i].group
    ensures GroupViews(s, s[i].group) == GroupViews(s[i..], s[i].group)
  {
    forall m | 0 <= m < i ensures s[m].group != s[i].group {
      GroupsSortedAt(s, m, i - 1);
    }
    GroupViewsSkip(s, i, s[i].group);
  }

  /** Every record between two of the same group is in that group. */
  lemma RunUniform(s: seq<Entry>, i: nat, j: nat)
    requires GroupsSorted(s) && i < j <= |s|
    requires s[j - 1].group == s[i].group
    ensures forall m :: 0 <= m < |s[i..j]| ==> s[i..j][m].group == s[i].group
  {
    forall m | 0 <= m < j - i ensures s[i..j][m].group == s[i].group {
      assert s[i..j][m] == s[i + m];
      GroupsSortedAt(s, i, i + m);
      GroupsSortedAt(s, i + m, j - 1);
    }
  }

  /** The record at `k`, inside the run that starts at `i`, has rank `k - i` in its group. */
  lemma RunAt(s: seq<Entry>, i: nat, k: nat)
    requires GroupsSorted(s) && i <= k < |s|
    requires 0 < i ==> s[i - 1].group < s[i].group
    requires s[k].group == s[i].group
    ensures k - i < |GroupViews(s, s[i].group)| && GroupViews(s, s[i].group)[k - i] == s[k].view
  {
    RunViews(s, i, k + 1);
    assert ViewsOf(s[i..k + 1])[k - i] == s[k].view;
  }

  /** A whole run, `i` to `j - 1`, is exactly its group's views. */
  lemma RunComplete(s: seq<Entry>, i: nat, j: nat)
    requires GroupsSorted(s) && i < j <= |s|
    requires 0 < i ==> s[i - 1].group < s[i].group
    requires s[j - 1].group == s[i].group
    requires j < |s| ==> s[j].group != s[i].group
    ensures |GroupViews(s, s[i].group)| == j - i
    ensures forall p :: 0 <= p < j - i ==> GroupViews(s, s[i].group)[p] == s[i + p].view
  {
    var g := s[i].group;
    RunViews(s, i, j);
    if j < |s| {
      GroupsSortedAt(s, i, j);
    }
    NoLaterRecords(s, j, g);
    assert GroupViews(s, g) == ViewsOf(s[i..j]);
  }

  /** With distinct ids, a view has one record in the list. */
  lemma OnlyRecordOf(s: seq<Entry>, k: nat)
    requires IdsDistinct(s) && k < |s|
    ensures forall m :: 0 <= m < |s| && s[m].view == s[k].view ==> m == k
  {
    forall m | 0 <= m < |s| && s[m].view == s[k].view ensures m == k {
      IdsDistinctAt(s, m, k);
    }
  }

  /** A view whose group's views are a reordering of pane `g` and no other is in that pane alone. */
  lemma OnlyInOwnPane(panes: seq<seq<View>>, s: seq<Entry>, k: nat)
    requires IdsDistinct(s) && k < |s| && s[k].group < |panes|
    requires PanesHold(panes, s)
    ensures s[k].view in panes[s[k].group]
    ensures forall h :: 0 <= h < |panes| && h != s[k].group ==> s[k].view !in panes[h]
  {
    var v := s[k].view;
    GroupViewsHas(s, k);
    assert v in multiset(panes[s[k].group]);
    OnlyRecordOf(s, k);
    forall h | 0 <= h < |panes| && h != s[k].group ensures v !in panes[h] {
      NotInGroupViews(s, v, h);
      assert v !in multiset(GroupViews(s, h));
    }
  }

  /** `get_view_index` of a view that is in pane `g` alone, and not among its first `index` tabs. */
  lemma ViewIndexAt(panes: seq<seq<View>>, v: View, g: nat, index: nat)
    requires g < |panes| && v in panes[g] && index <= |panes[g]|
    requires forall p :: 0 <= p < index ==> panes[g][p] != v
    requires forall h :: 0 <= h < |panes| && h != g ==> v !in panes[h]
    ensures ViewIndex(panes, v).0 == g && ViewIndex(panes, v).1 >= index
  {
    var r := ViewIndex(panes, v);
    assert panes[r.0][r.1] == v;
  }

  /**
   * The next record's view sits in its own group's pane, at or after the slot
   * it is to take, when the slots ahead of that hold the records before it.
   */
  lemma NextInOwnPane(panes: seq<seq<View>>, s: seq<Entry>, i: nat, index: nat, g: nat)
    requires IdsDistinct(s) && i + index < |s| && s[i + index].group == g && g < |panes|
    requires PanesHold(panes, s)
    requires Leads(panes[g], s, i, index)
    ensures ViewIndex(panes, s[i + index].view).0 == g
    ensures ViewIndex(panes, s[i + index].view).1 >= index
  {
    var k := i + index;
    var v := s[k].view;
    OnlyInOwnPane(panes, s, k);
    assert v in panes[g] && forall h :: 0 <= h < |panes| && h != g ==> v !in panes[h];
    forall p | 0 <= p < index ensures panes[g][p] != v {
      IdsDistinctAt(s, i + p, k);
    }
    ViewIndexAt(panes, v, g, index);
  }

  /** `flags` with the "to sort" flags of the first `k` records of `s` erased, one record at a time. */
  ghost function Erased(flags: set<ViewId>, s: seq<Entry>, k: nat): set<ViewId>
    requires k <= |s|
  {
    if k == 0 then flags else Erased(flags, s, k - 1) - {s[k - 1].view.id}
  }

  /** Erasing record by record erases exactly the ids of the records erased. */
  lemma {:induction false} ErasedIds(flags: set<ViewId>, s: seq<Entry>, k: nat)
    requires k <= |s|
    ensures Erased(flags, s, k) == flags - IdsOf(s[..k])
  {
    if k > 0 {
      ErasedIds(flags, s, k - 1);
      assert s[..k][..k - 1] == s[..k - 1];
    }
  }

  /**
   * The state of `SortGroup` after the first `index` records of the run that
   * starts at `i`, all in group `g`: every pane holds its group's views in
   * some order, the panes below `g` hold them in list order, and pane `g`
   * starts with the run's first `index` views.
   */
  predicate Placing(panes: seq<seq<View>>, s: seq<Entry>, i: nat, index: nat, g: nat) {
    && i + index <= |s| && g < |panes|
    && (0 < index ==> s[i + index - 1].group == g)
    && PanesHold(panes, s) && ArrangedBelow(panes, s, i)
    && Leads(panes[g], s, i, index)
  }

  /** Every pane holds the views the list assigns to its group, in some order. */
  predicate PanesHold(panes: seq<seq<View>>, s: seq<Entry>) {
    forall g {:trigger GroupViews(s, g)} :: 0 <= g < |panes| ==>
      multiset(panes[g]) == multiset(GroupViews(s, g))
  }

  /**
   * Every pane below record `j`'s group (every pane, once `j` is past the
   * end) holds its group's views in list order.
   */
  predicate ArrangedBelow(panes: seq<seq<View>>, s: seq<Entry>, j: nat) {
    forall g {:trigger GroupViews(s, g)} :: 0 <= g < |panes| && (j >= |s| || g < s[j].group) ==>
      panes[g] == GroupViews(s, g)
  }

  /** The window after one step of `SortGroup`: `v` moved to slot `index` of pane `g`, unless it is there already. */
  ghost function Step(panes: seq<seq<View>>, v: View, g: nat, index: nat): seq<seq<View>>
    requires g < |panes| && ViewIndex(panes, v).0 == g && index <= ViewIndex(panes, v).1
  {
    if ViewIndex(panes, v) != (g, index) then MoveView(panes, v, g, index) else panes
  }

  /** A step keeps the slots ahead of `index`, puts `v` at `index`, and changes no pane's contents. */
  lemma StepShape(panes: seq<seq<View>>, v: View, g: nat, index: nat)
    requires g < |panes| && ViewIndex(panes, v).0 == g && index <= ViewIndex(panes, v).1
    ensures var r := Step(panes, v, g, index);
      && |r| == |panes| && index < |r[g]|
      && r[g][..index] == panes[g][..index] && r[g][index] == v
      && multiset(r[g]) == multiset(panes[g])
      && forall h :: 0 <= h < |panes| && h != g ==> r[h] == panes[h]
  {
    MoveWithinPane(panes, v, g, index);
  }

  /**
   * After a step that moves `v`, the tabs past slot `index` are the pane's
   * other tabs in their old order.
   */
  lemma StepTail(panes: seq<seq<View>>, v: View, g: nat, index: nat)
    requires g < |panes| && ViewIndex(panes, v).0 == g && index <= ViewIndex(panes, v).1
    ensures var r, p := Step(panes, v, g, index)[g], ViewIndex(panes, v).1;
      && |r| == |panes[g]|
      && (forall k :: index < k <= p ==> r[k] == panes[g][k - 1])
      && (forall k :: p < k < |r| ==> r[k] == panes[g][k])
  {
    if ViewIndex(panes, v).1 != index {
      MoveTail(panes, v, g, index);
    }
  }

  /** A view that has to be moved is out of place: the window does not match the list yet. */
  lemma MoveNeeded(panes: seq<seq<View>>, s: seq<Entry>, i: nat, index: nat, g: nat)
    requires GroupsSorted(s) && i + index < |s| && g < |panes|
    requires s[i].group == g && s[i + index].group == g
    requires 0 < i ==> s[i - 1].group < g
    requires ViewIndex(panes, s[i + index].view).0 == g && index <= ViewIndex(panes, s[i + index].view).1
    ensures Arranged(panes, s) ==> ViewIndex(panes, s[i + index].view) == (g, index)
  {
    var v := s[i + index].view;
    var r := ViewIndex(panes, v);
    if r != (g, index) {
      assert panes[g][index] != v by {
        assert panes[g][..r.1][index] == panes[g][index];
      }
      RunAt(s, i, i + index);
      assert panes[g] != GroupViews(s, g);
    }
  }

  lemma LeadsStep(pane: seq<View>, moved: seq<View>, s: seq<Entry>, i: nat, index: nat)
    requires Leads(pane, s, i, index) && i + index < |s|
    requires index < |moved| && moved[..index] == pane[..index] && moved[index] == s[i + index].view
    ensures Leads(moved, s, i, index + 1)
  {
    forall p | 0 <= p < index + 1 ensures moved[p] == s[i + p].view {
      if p < index {
        assert moved[..index][p] == pane[..index][p];
      }
    }
  }

  /**
   * One step of `SortGroup`: the next record's view is found in its group's
   * pane at or after its target slot, and after the step the pane agrees with
   * the list one slot further.
   */
  lemma PlaceNext(panes: seq<seq<View>>, s: seq<Entry>, i: nat, index: nat, g: nat)
    requires IdsDistinct(s)
    requires Placing(panes, s, i, index, g)
    requires i + index < |s| && s[i].group == g && s[i + index].group == g
    ensures var v := s[i + index].view;
      && ViewIndex(panes, v).0 == g && index <= ViewIndex(panes, v).1
      && Placing(Step(panes, v, g, index), s, i, index + 1, g)
      && forall h :: 0 <= h < |panes| && h != g ==> Step(panes, v, g, index)[h] == panes[h]
  {
    var v := s[i + index].view;
    NextInOwnPane(panes, s, i, index, g);
    StepShape(panes, v, g, index);
    var r := Step(panes, v, g, index);
    LeadsStep(panes[g], r[g], s, i, index);
    OnePaneReordered(panes, r, s, i, g);
  }

  /**
   * Reordering the pane of record `i`'s group, and no other, keeps every pane
   * holding its group's views and keeps the panes below that group as they are.
   */
  lemma OnePaneReordered(panes: seq<seq<View>>, r: seq<seq<View>>, s: seq<Entry>, i: nat, g: nat)
    requires i < |s| && s[i].group == g && g < |panes| && |r| == |panes|
    requires multiset(r[g]) == multiset(panes[g])
    requires forall h :: 0 <= h < |panes| && h != g ==> r[h] == panes[h]
    requires PanesHold(panes, s) && ArrangedBelow(panes, s, i)
    ensures PanesHold(r, s) && ArrangedBelow(r, s, i)
  {
    forall h | 0 <= h < |r| ensures multiset(r[h]) == multiset(GroupViews(s, h)) {
    }
  }

  /** A pane whose group has no record in the list holds nothing, as the list says. */
  lemma GroupAbsent(panes: seq<seq<View>>, s: seq<Entry>, g: nat)
    requires g < |panes| && multiset(panes[g]) == multiset(GroupViews(s, g))
    requires forall m :: 0 <= m < |s| ==> s[m].group != g
    ensures panes[g] == GroupViews(s, g) == []
  {
    GroupViewsSkip(s, |s|, g);
    assert s[|s|..] == [];
    assert |panes[g]| == |multiset(panes[g])| == 0;
  }

  /**
   * The state of `SortViews` before the run that starts at record `i`: every
   * pane holds its group's views, the panes of the groups before that run
   * hold them in list order, and record `i` starts a new group.
   */
  predicate Swept(panes: seq<seq<View>>, s: seq<Entry>, i: nat) {
    && i <= |s| && PanesHold(panes, s) && ArrangedBelow(panes, s, i)
    && (0 < i < |s| ==> s[i - 1].group < s[i].group)
  }

  /** Before `SortViews` starts, every pane below the first record's group already matches. */
  lemma PanesBeforeFirst(panes: seq<seq<View>>, s: seq<Entry>)
    requires GroupsSorted(s)
    requires PanesHold(panes, s)
    ensures Swept(panes, s, 0)
  {
    forall g | 0 <= g < |panes| && (0 >= |s| || g < s[0].group) ensures panes[g] == GroupViews(s, g) {
      forall m | 0 <= m < |s| ensures s[m].group != g {
        if m > 0 {
          GroupsSortedAt(s, 0, m);
        }
      }
      GroupAbsent(panes, s, g);
    }
  }

  /**
   * The end of the run of `n` records from `i` in `SortGroup`: when the
   * run's pane starts with the run's views, that pane and every pane below
   * the next run's group hold exactly what the list assigns them.
   */
  lemma CloseGroup(panes: seq<seq<View>>, s: seq<Entry>, i: nat, n: nat)
    requires GroupsSorted(s) && i < |s| && 0 < n && Placing(panes, s, i, n, s[i].group)
    requires i + n < |s| ==> s[i + n].group != s[i].group
    requires 0 < i ==> s[i - 1].group < s[i].group
    ensures Swept(panes, s, i + n)
  {
    var group := s[i].group;
    var j := i + n;
    RunComplete(s, i, j);
    GroupComplete(panes[group], s, i, j, group);
    if j < |s| {
      GroupsSortedAt(s, j - 1, j);
    }
    PanesBetweenRuns(panes, s, i, j);
    ArrangedPastRun(panes, s, i, j);
  }

  /**
   * The panes below a run's group, the run's own pane and the panes between
   * it and the next run's group together are every pane below the next run's
   * group.
   */
  lemma ArrangedPastRun(panes: seq<seq<View>>, s: seq<Entry>, i: nat, j: nat)
    requires i < j <= |s| && (j < |s| ==> s[i].group < s[j].group)
    requires ArrangedBelow(panes, s, i)
    requires s[i].group < |panes| && panes[s[i].group] == GroupViews(s, s[i].group)
    requires forall g {:trigger GroupViews(s, g)} :: 0 <= g < |panes| && s[i].group < g && (j == |s| || g < s[j].group) ==>
      panes[g] == GroupViews(s, g)
    ensures ArrangedBelow(panes, s, j)
  {
    forall g | 0 <= g < |panes| && (j >= |s| || g < s[j].group)
      ensures panes[g] == GroupViews(s, g)
    {
      if g < s[i].group {
        assert i < |s| && g < s[i].group;
      } else if s[i].group < g {
        assert j == |s| || g < s[j].group;
      }
    }
  }

  /** The panes of the groups strictly between one run and the next are empty, as the list says. */
  lemma PanesBetweenRuns(panes: seq<seq<View>>, s: seq<Entry>, i: nat, j: nat)
    requires GroupsSorted(s) && i < j <= |s| && s[j - 1].group == s[i].group
    requires PanesHold(panes, s)
    ensures forall g {:trigger GroupViews(s, g)} :: 0 <= g < |panes| && s[i].group < g && (j == |s| || g < s[j].group) ==>
      panes[g] == GroupViews(s, g)
  {
    forall g | 0 <= g < |panes| && s[i].group < g && (j == |s| || g < s[j].group)
      ensures panes[g] == GroupViews(s, g)
    {
      BetweenRuns(s, i, j, g);
      GroupAbsent(panes, s, g);
    }
  }

  /** A group strictly between one run and the next has no record in a sorted list. */
  lemma BetweenRuns(s: seq<Entry>, i: nat, j: nat, g: nat)
    requires GroupsSorted(s) && i < j <= |s|
    requires s[j - 1].group == s[i].group
    requires s[i].group < g && (j == |s| || g < s[j].group)
    ensures forall m :: 0 <= m < |s| ==> s[m].group != g
  {
    forall m | 0 <= m < |s| ensures s[m].group != g {
      if m < j - 1 {
        GroupsSortedAt(s, m, j - 1);
      } else if j < m {
        GroupsSortedAt(s, j, m);
      }
    }
  }

  /** Past the end of a group's run in a sorted list, no record is in that group. */
  lemma NoLaterRecords(s: seq<Entry>, j: nat, g: nat)
    requires GroupsSorted(s) && j <= |s|
    requires j < |s| ==> g < s[j].group
    ensures GroupViews(s[j..], g) == []
  {
    var rest := s[j..];
    forall m | 0 <= m < |rest| ensures rest[m].group != g {
      if m > 0 {
        GroupsSortedAt(s, j, j + m);
      }
    }
    GroupViewsSkip(rest, |rest|, g);
    assert rest[|rest|..] == [];
  }

  /** A pane that holds its group's views, and starts with all of them in order, is exactly them. */
  lemma GroupComplete(pane: seq<View>, s: seq<Entry>, i: nat, j: nat, g: nat)
    requires i <= j && Leads(pane, s, i, j - i)
    requires multiset(pane) == multiset(GroupViews(s, g))
    requires |GroupViews(s, g)| == j - i
    requires forall p :: 0 <= p < j - i ==> GroupViews(s, g)[p] == s[i + p].view
    ensures pane == GroupViews(s, g)
  {
    assert |pane| == |multiset(pane)| == j - i;
  }

  /** Filtering one more candidate appends it exactly when it is closable. */
  lemma CloseSelectionSnoc(candidates: seq<View>, v: View, current: View)
    ensures CloseSelection(candidates + [v], current) ==
      CloseSelection(candidates, current) + (if Closable(v, current) then [v] else [])
  {
    if candidates != [] {
      CloseSelectionSnoc(candidates[1..], v, current);
      assert (candidates + [v])[1..] == candidates[1..] + [v];
    }
  }
}
