# Sort tabs: a verified model of the `sort_tabs` window command

The `sort_tabs` command of the Sublime Text plugin *AutoSortTabs* puts the
tabs of every pane (group) of a window in order of their files' base names.
It does this in five steps:

1. `init_file_views` collects one `[view, group]` record per open view.
2. `fill_list_views` extends each record with the view's sort key. The key is
   the lower-cased base name of the view's file, or the empty string for a
   view without a file.
3. `sort_list_views` sorts the records by (group, key).
4. `sort_views` walks the sorted records group by group. It erases each
   view's `sorttabs_tosort` flag. It moves a view with `set_view_index`
   when its (group, index) placement is not its rank within its group.
5. `close_views` runs when `close` is given. It closes, among the last few
   records of the sorted list, every view that is not the active view, not
   dirty and not scratch. A negative `close` is a percentage of the open
   views.

The model follows the command's own structure:

- `Names` holds the file-name side of the sort key: the base name, ASCII
  lower-casing, and Python's order on strings, proved to be a total order.
- `Host` holds the part of the editor the command talks to. It defines
  views, `get_view_index` (`ViewIndex`) and `set_view_index` (`MoveView`).
  The class `Window` holds the panes, the set of flagged views and the
  active view, and changes them in place.
- `ListViews` holds the record list and its specification functions. These
  are the records of a window (`Placements`, `Keyed`), the order (`Le`,
  `Sorted`), what a stable sort keeps (`Bucket`, `SameBuckets`) and a group's
  views in list order (`GroupViews`).
- `Closing` holds the close count, Python's `list[-c:]` slice and the filter
  that decides which tabs may be closed.
- `SortTabs` holds the class `SortTabsCommand`. Its methods are imperative,
  like the source: loops over the record list and over an array, each
  proved against the specification functions above.

`sort_views` is proved in three layers, from the outside in:
- `SortViews` is the loop over the runs of equal group.
- `SortGroup` is the loop over one run.
- `PlaceView` is one record: erase the flag, then move the view if it is
  misplaced.

Together they show four things:
- after `sort_views` every pane is exactly its group's views in sorted order;
- a view is moved only while the window is not yet in that order;
- a window whose panes are already in key order is left unchanged, with no
  move made;
- the flag is erased on every visited view and on no other.

## Model

| member | source | states |
|---|---|---|
| Names.Basename | auto_sort_tabs.py:59 | The result is the part of the path after its last '/': a suffix of the path holding no '/', preceded in the path by a '/' whenever it is shorter than the path. |
| Names.Lower | auto_sort_tabs.py:60 | Lower-casing keeps the length, leaves no upper-case letter, turns each upper-case ASCII letter into its lower-case letter (32 code points on), and changes no character that was not upper-case. |
| Names.KeyLeReflexive | auto_sort_tabs.py:64 | Python's string order relates every key to itself. |
| Names.KeyLeTotal | auto_sort_tabs.py:64 | Any two keys are comparable, so the sort is defined on every list. |
| Names.KeyLeAntisymmetric | auto_sort_tabs.py:64 | Two keys each at most the other are equal. |
| Names.KeyLeTransitive | auto_sort_tabs.py:64 | The string order is transitive. |
| Names.EmptyKeyLeast | auto_sort_tabs.py:59 | The empty key of a view without a file sorts before every other key of its group. |
| Host.IndexIn | auto_sort_tabs.py:72 | The position of a view in one pane is its first occurrence, or -1 exactly when the view is not there. |
| Host.ViewIndex | auto_sort_tabs.py:72 | `get_view_index` gives the first pane holding the view and the view's first slot there, or (-1, -1) exactly when no pane holds it. |
| Host.MoveView | auto_sort_tabs.py:73 | `set_view_index` keeps the number of panes, puts the view at the requested slot, and leaves every pane other than its old and new one unchanged. |
| Host.MoveWithinPane | auto_sort_tabs.py:73 | Moving a view forward within its own pane keeps the slots before the target, keeps the pane's contents and changes no other pane. |
| Host.MoveTail | auto_sort_tabs.py:73 | After a view moves forward within its own pane, the pane keeps its length, the tabs from the target slot up to the view's old slot stand one slot further right, and the tabs after its old slot stay where they were. |
| Host.ShiftTail | auto_sort_tabs.py:73 | Taking a tab out and inserting a view at or before its slot keeps the length, shifts the tabs in between one slot right and keeps the tabs after it in place. |
| Host.Window.SetViewIndex | auto_sort_tabs.py:73 | The window's panes become `MoveView` of the old panes; the flags and the active view are unchanged. |
| Host.Window.EraseToSort | auto_sort_tabs.py:71 | Exactly the view's `sorttabs_tosort` flag is removed; the panes and the active view are unchanged. |
| ListViews.SortKeyLowered | auto_sort_tabs.py:59-60 | `SortKey`: the key of a view without a file is empty; otherwise it is the base name of the path, as long as it, with every upper-case letter replaced by its lower-case letter and every other character kept. |
| ListViews.Le | auto_sort_tabs.py:64 | The order of the `[group, key]` sort: a lower group always comes first, a higher group never does, and records of one group with equal keys are in order either way. |
| ListViews.LeTotal | auto_sort_tabs.py:64 | Any two records are comparable by (group, key). |
| ListViews.LeTransitive | auto_sort_tabs.py:64 | The (group, key) order is transitive, so sorting by it is well defined. |
| ListViews.SortKeyLowerFixed | auto_sort_tabs.py:59-60 | The key `fill_list_views` stores is already lower case: lower-casing it again changes nothing. |
| ListViews.SortKeyShape | auto_sort_tabs.py:59-60 | A sort key holds no '/' and no upper-case letter, is no longer than the path, and is empty exactly for a view without a file or a path ending in '/'. |
| ListViews.IdsOfMembers | auto_sort_tabs.py:68-71 | An id belongs to the ids of a record list exactly when some record's view has that id. |
| ListViews.IdsOfPermutation | auto_sort_tabs.py:64 | Sorting the records keeps the set of their view ids. |
| ListViews.SortedGroups | auto_sort_tabs.py:64 | A list sorted by (group, key) lists its groups in increasing order, so each group forms one run, as `groupby` needs. |
| ListViews.SortedBetweenIsSorted | auto_sort_tabs.py:64 | A list whose neighbours are all in order is sorted. |
| ListViews.SwapKeepsBuckets | auto_sort_tabs.py:64 | Exchanging two neighbours that are out of order keeps the records and, for every (group, key), their relative order. |
| ListViews.SortedUnique | auto_sort_tabs.py:64 | Two sorted lists with the same records in the same order within each (group, key) are equal: a stable sort has one result. |
| ListViews.GroupViewsPermutation | auto_sort_tabs.py:64 | Reordering the records keeps each group's views, up to order. |
| ListViews.PlacementsShape | auto_sort_tabs.py:53-55 | Every record built from the window names an existing group and a view that sits in that group's pane. |
| ListViews.PlacementsDistinct | auto_sort_tabs.py:53-55 | A window with no repeated view gives a record list with no repeated view id. |
| ListViews.PlacementsGroupViews | auto_sort_tabs.py:53-55 | The views the unsorted records assign to group g are pane g's tabs, left to right, and nothing for a missing group. |
| ListViews.ArrangedPlacementsSorted | auto_sort_tabs.py:62-64 | When every pane is already in key order, the unsorted record list is already sorted. |
| ListViews.RowSorted | auto_sort_tabs.py:55-64 | The records of one pane whose tabs are in key order are sorted. |
| ListViews.SortedConcat | auto_sort_tabs.py:62-64 | Two sorted lists, each record of the first in order before each record of the second, join into a sorted list. |
| ListViews.PrefixReordered | auto_sort_tabs.py:62-64 | Two lists with the same records that agree from a slot on hold the same records before that slot. |
| ListViews.GroupViewsKeySorted | auto_sort_tabs.py:66-73 | In a sorted list with true keys, each group's views are in key order. |
| ListViews.KeyFilterGroupViews | auto_sort_tabs.py:66-73 | The views of a group with a given key, in order, are the views of that (group, key) bucket. |
| ListViews.ArrangedValid | auto_sort_tabs.py:66-73 | Panes that hold the same views as before, arranged by a list with distinct ids, still repeat no view. |
| ListViews.IdsDistinctPermutation | auto_sort_tabs.py:64 | Sorting keeps the record list free of repeated view ids. |
| Closing.CloseCount | auto_sort_tabs.py:76-79 | The count is at least one; a positive `close` is used as it is; zero becomes one; a negative one is the percentage of the open views rounded down, one when that rounds to zero. |
| Closing.CloseCountPercentBound | auto_sort_tabs.py:76-78 | When at least one tab is open, a percentage of at most 100 never asks for more tabs than are open. |
| Closing.CloseCountExamples | auto_sort_tabs.py:76-79 | Worked values: -50 of 10 gives 5, 0 gives 1, -5 of 10 gives 1, 3 gives 3, and 20 of 10 stays 20. |
| Closing.SliceFrom | auto_sort_tabs.py:81 | Python's `s[start:]` is a suffix of `s`, with a negative start counted from the end and both ends clamped. |
| Closing.LastItems | auto_sort_tabs.py:81 | `list[-c:]` holds the last c items, or the whole list when it is shorter. |
| Closing.CloseSelection | auto_sort_tabs.py:81-82 | The kept candidates are exactly the candidates that are not the active view, not dirty and not scratch. |
| Closing.Victims | auto_sort_tabs.py:81-85 | Every view selected for closing is closable (not the active view, not dirty, not scratch) and is the view of some record of the sorted list. |
| Closing.VictimsBounds | auto_sort_tabs.py:75-86 | At most `CloseCount` views and at most every open view are closed; none is the active, a dirty or a scratch view; nothing is closed in an empty window. |
| Closing.VictimsExactly | auto_sort_tabs.py:81-85 | A view is closed exactly when it is among the last `CloseCount` records and is closable. |
| SortTabs.SortTabsCommand.InitFileViews | auto_sort_tabs.py:52-55 | The records are the window's views pane by pane, each with its group. |
| SortTabs.SortTabsCommand.FillListViews | auto_sort_tabs.py:57-60 | Every record gains its view's sort key, in order. |
| SortTabs.SortTabsCommand.SortListViews | auto_sort_tabs.py:62-64 | The array ends sorted by (group, key), a permutation of its old contents, with every (group, key) bucket in its old order (stable). |
| SortTabs.SortTabsCommand.InsertNext | auto_sort_tabs.py:62-64 | One insertion step extends the sorted prefix by one record, keeps the records and every bucket's order, leaves every record after the inserted one in its slot, and keeps the same records in the slots up to it. |
| SortTabs.SortTabsCommand.SortViews | auto_sort_tabs.py:66-73 | Afterwards every pane is exactly its group's views in list order. The flags of all listed views are erased and no other flag changes. At most one move is made per record, and none exactly when the window was already in that order. |
| SortTabs.SortTabsCommand.SortGroup | auto_sort_tabs.py:68-73 | One `groupby` group: the run's views take slots 0, 1, ... of its pane; the run ends at a group change; the run's flags are erased; at most one move is made per record, none in a window already in order, the panes are unchanged when none is made, and every pane other than the run's group's keeps its tabs in their order. |
| SortTabs.SortTabsCommand.PlaceView | auto_sort_tabs.py:69-73 | One record: its flag is erased, its pane then starts with the run's views one slot further, a move is made exactly when `get_view_index` did not report the view at its slot, nothing changes without a move, no move is made in a window already in order, and every pane other than the run's group's keeps its tabs in their order. Before the step the view stood in its group's pane at or after its slot; afterwards that pane keeps its length, the tabs from the slot up to the view's old slot stand one slot further right, and the tabs after its old slot stay where they were. |
| SortTabs.SortTabsCommand.CloseViews | auto_sort_tabs.py:75-86 | Returns the views selected for closing and their number. The number is at most `CloseCount` and at most the number of open views, and no selected view is the active, a dirty or a scratch view. |
| SortTabs.SortTabsCommand.SortedListViews | auto_sort_tabs.py:36-39 | The first three steps of the command: the record list is sorted by (group, key), holds exactly the window's keyed records, and keeps every (group, key) bucket in window order. |
| SortTabs.SortTabsCommand.Run | auto_sort_tabs.py:32-50 | The whole command. It records the active view and returns the sorted records: sorted, stable and a permutation of the window's records. With `sort`, every pane ends in key order with the same views and equal-key views in their old order; the window repeats no view; the active view is unchanged; every flag of a listed view is erased; no move is made exactly when the window is unchanged; and a window already in order is left as it was. Without `sort`, nothing changes. With `close`, the closed views are `Victims` of the sorted list. |
| SortTabs.SortedRecords | auto_sort_tabs.py:36-39 | The sorted record list of a valid window has groups in order, distinct ids, true keys and existing groups. Each group holds its pane's views, and its ids are the window's. |
| SortTabs.SortedOutcome | auto_sort_tabs.py:41-42 | Once sorted, each pane is in key order, holds the views it held, keeps equal-key views in their old order, and the window repeats no view. |
| SortTabs.AlreadySorted | auto_sort_tabs.py:66-73 | A window whose panes are all in key order is already arranged as the sorted list says, so `sort_views` moves nothing. |
| SortTabs.ArrangedUnique | auto_sort_tabs.py:66-73 | A record list determines the panes it arranges, so "no move" and "window unchanged" coincide. |
| SortTabs.SwapStep | auto_sort_tabs.py:64 | One exchange of the insertion sort keeps the sorted stretches on either side, the records and every bucket. |
| SortTabs.PlaceNext | auto_sort_tabs.py:72-73 | The next view is in its group's pane at or after its target slot, and after the step (a move only when it is away from the slot) the pane agrees with the run one slot further while every pane still holds its group's views, and every other pane is unchanged. |
| SortTabs.OnePaneReordered | auto_sort_tabs.py:73 | Reordering one group's pane and no other keeps every pane holding its group's views and keeps the finished panes below it. |
| SortTabs.MoveNeeded | auto_sort_tabs.py:72 | In a window already in sorted order, `get_view_index` reports every view of the run at its target slot, so no move is made. |
| SortTabs.NextInOwnPane | auto_sort_tabs.py:72 | With distinct ids, the next view of the run is in its own group's pane, after the slots already filled. |
| SortTabs.StepTail | auto_sort_tabs.py:72-73 | After a step the group's pane keeps its length, the tabs between the slot and the view's old slot shift one right, and the tabs after the old slot stay in place. |
| SortTabs.StepShape | auto_sort_tabs.py:72-73 | A step keeps the filled slots, puts the view at its slot and changes no pane's contents. |
| SortTabs.CloseGroup | auto_sort_tabs.py:68 | When a run ends, its pane is exactly its group's views, and so is every pane of a group with no record before the next run. |
| SortTabs.PanesBetweenRuns | auto_sort_tabs.py:68 | The panes of the groups strictly between one run and the next hold exactly what the list assigns them: nothing. |
| SortTabs.ArrangedPastRun | auto_sort_tabs.py:68 | The finished panes below a run, the run's own pane and the empty panes after it together make every pane below the next run finished. |
| SortTabs.PanesBeforeFirst | auto_sort_tabs.py:68 | Before the first run, every pane of a group below the first record's group is empty, as the list says. |
| SortTabs.ErasedIds | auto_sort_tabs.py:71 | Erasing the flag record by record over the first k records removes exactly those records' view ids from the flags. |
| SortTabs.CloseSelectionSnoc | auto_sort_tabs.py:81-85 | Filtering one more candidate appends it exactly when it may be closed. |

## Left out

- The event listener (auto_sort_tabs.py:8-26) is host callbacks that run the command on load, save and activation. It and its `sorttabs_lastactivated` setting are not part of this model.
- `status_message`, `description` and the message text (auto_sort_tabs.py:40, 43, 46-48, 88-90) are user-interface output only.
- `focus_view` and `close_file` (auto_sort_tabs.py:50, 83-84) are host calls. `CloseViews` returns the views it would close, in list order, instead of focusing and closing them; restoring focus is not modelled.
- CloseCount: uses the exact percentage `n * |close| / 100`, rounded down. Python computes `int(n / 100.0 * abs(close))` in binary floating point, which can land one below that. With 29 views and `close=-100`, Python gives 28 and the model gives 29.
- Names.Basename: splits at '/' only, as POSIX `os.path.basename` does; a Windows host also splits at '\\'.
- Names.Lower: lower-cases ASCII letters only; Python's `str.lower` also maps other Unicode letters.
- SortTabs.SortTabsCommand.SortListViews: Python's `list.sort` is Timsort; the model uses an insertion sort by neighbour exchanges. Both are stable sorts, and `SortedUnique` shows that a stable sort by (group, key) has exactly one result.
- `close` is modelled as `Option<int>`: `None` stands for Python's `close=False` and `Some(1)` for `close=True`, which Python treats as 1.
- `window.views()` is modelled as the panes' tabs, pane by pane, left to right. `InitFileViews` takes each view's group from the pane it sits in, which is what `get_view_index` returns for a window with no repeated view; `Run` requires such a window (`Window.Valid`).
- The `moves` count returned by `SortViews` and `Run` is not in the source. It counts `set_view_index` calls, so that the contracts can say when none is made.
- `SortGroup` and `PlaceView` take two ghost parameters that are not in the source: the flags as they were before `sort_views`, and whether the window was already in order. They only state the contracts and change nothing the methods compute.
- SortTabs.SortTabsCommand.InitFileViews, SortTabs.SortTabsCommand.FillListViews: return new sequences. The source appends to the caller's `list_views` and extends each record list in place with `append`; no other code holds those lists, so the model does not capture that sharing.
