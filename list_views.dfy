/**
 * The records the sort command builds (`list_views`), the order it sorts them
 * by, and the facts about that list the command's proofs rest on.
 *
 * A record starts as (view, group) and then gains the view's sort key, the
 * lower-cased base name of its file. The list is sorted by (group, key).
 */
module ListViews {
  import opened Host
  import opened Names

  /** A `list_views` item after `init_file_views`: [view, group]. */
  datatype Placed = Placed(view: View, group: nat)

  /** A `list_views` item after `fill_list_views`: [view, group, key]. */
  datatype Entry = Entry(view: View, group: nat, key: string)

  /**
   * The sort key of a view: the lower-cased base name of its file, or the
   * empty string for a view without a file.
   */
  function SortKey(fileName: Option<string>): string {
    match fileName
    case None => []
    case Some(path) => Lower(Basename(path))
  }

  /**
   * The key of a file is its base name with each upper-case letter replaced
   * by its lower-case letter and every other character kept; a view without
   * a file has the empty key.
   */
  lemma SortKeyLowered(fileName: Option<string>)
    ensures fileName.None? ==> SortKey(fileName) == []
    ensures fileName.Some? ==> var k, b := SortKey(fileName), Basename(fileName.value);
      && |k| == |b|
      && (forall i :: 0 <= i < |b| && IsUpper(b[i]) ==> k[i] as int == b[i] as int + 32)
      && (forall i :: 0 <= i < |b| && !IsUpper(b[i]) ==> k[i] == b[i])
  {
  }

  /** The stored key is already lower case: lower-casing it again changes nothing. */
  lemma SortKeyLowerFixed(fileName: Option<string>)
    ensures Lower(SortKey(fileName)) == SortKey(fileName)
  {
    if fileName.Some? {
      LowerIdempotent(Basename(fileName.value));
    }
  }

  /**
   * A sort key holds no '/' and no upper-case letter, and is empty exactly
   * for a view without a file or with a path ending in '/'.
   */
  lemma SortKeyShape(fileName: Option<string>)
    ensures var k := SortKey(fileName);
      && '/' !in k
      && (forall i :: 0 <= i < |k| ==> !IsUpper(k[i]))
      && (k == [] <==> fileName.None? || Basename(fileName.value) == [])
      && (fileName.Some? ==> |k| <= |fileName.value|)
  {
    if fileName.Some? {
      var b := Basename(fileName.value);
      assert forall i :: 0 <= i < |b| ==> Lower(b)[i] == LowerChar(b[i]);
    }
  }

  function PaneRow(pane: seq<View>, g: nat): seq<Placed> {
    seq(|pane|, i requires 0 <= i < |pane| => Placed(pane[i], g))
  }

  /** `window.views()` with each view's group: pane by pane, each pane's tabs left to right. */
  function Placements(panes: seq<seq<View>>): seq<Placed> {
    if panes == [] then []
    else Placements(panes[..|panes| - 1]) + PaneRow(panes[|panes| - 1], |panes| - 1)
  }

  /** Every item of `placed` extended with its view's sort key. */
  function Keyed(placed: seq<Placed>): seq<Entry> {
    seq(|placed|, i requires 0 <= i < |placed| => Entry(placed[i].view, placed[i].group, SortKey(placed[i].view.fileName)))
  }

  /** The sort order: by group, then by key. */
  predicate Le(x: Entry, y: Entry): (b: bool)
    ensures x.group < y.group ==> b
    ensures x.group > y.group ==> !b
    ensures x.group == y.group && x.key == y.key ==> b
  {
    KeyLeReflexive(x.key);
    x.group < y.group || (x.group == y.group && KeyLe(x.key, y.key))
  }

  predicate Sorted(s: seq<Entry>) {
    forall p, q :: 0 <= p < q < |s| ==> Le(s[p], s[q])
  }

  /** The records come group by group (the first half of `Sorted`). */
  predicate GroupsSorted(s: seq<Entry>) {
    forall p, q {:trigger GroupLe(s[p], s[q])} :: 0 <= p < q < |s| ==> GroupLe(s[p], s[q])
  }

  predicate GroupLe(x: Entry, y: Entry) {
    x.group <= y.group
  }

  lemma GroupsSortedAt(s: seq<Entry>, p: nat, q: nat)
    requires GroupsSorted(s) && p <= q < |s|
    ensures s[p].group <= s[q].group
  {
    if p < q {
      assert GroupLe(s[p], s[q]);
    }
  }

  /** Each pair of neighbours in s[lo..hi] is in order. */
  predicate SortedBetween(s: seq<Entry>, lo: nat, hi: nat)
    requires lo <= hi <= |s|
  {
    forall m :: lo < m < hi ==> Le(s[m - 1], s[m])
  }

  /** Every record's key is the sort key of its view's file. */
  predicate KeyConsistent(s: seq<Entry>) {
    forall m :: 0 <= m < |s| ==> s[m].key == SortKey(s[m].view.fileName)
  }

  /** The records of `s` whose (group, key) is (g, k), in their order in `s`. */
  function Bucket(s: seq<Entry>, g: nat, k: string): seq<Entry> {
    if s == [] then []
    else (if s[0].group == g && s[0].key == k then [s[0]] else []) + Bucket(s[1..], g, k)
  }

  /**
   * `s` and `t` hold, for every (group, key), the same records in the same
   * order: what a stable sort keeps of its input.
   */
  ghost predicate SameBuckets(s: seq<Entry>, t: seq<Entry>) {
    forall g: nat, k: string :: Bucket(s, g, k) == Bucket(t, g, k)
  }

  /** The views of the records of `s` that are in group `g`, in their order in `s`. */
  function GroupViews(s: seq<Entry>, g: nat): seq<View> {
    if s == [] then []
    else (if s[0].group == g then [s[0].view] else []) + GroupViews(s[1..], g)
  }

  function ViewsOf(s: seq<Entry>): seq<View> {
    seq(|s|, i requires 0 <= i < |s| => s[i].view)
  }

  /** No two records of `s` are for views with the same id. */
  predicate IdsDistinct(s: seq<Entry>) {
    forall p, q {:trigger IdsDiffer(s[p], s[q])} :: 0 <= p < q < |s| ==> IdsDiffer(s[p], s[q])
  }

  predicate IdsDiffer(x: Entry, y: Entry) {
    x.view.id != y.view.id
  }

  /** In a list with distinct ids, two records with the same view id are the same record. */
  lemma IdsDistinctAt(s: seq<Entry>, p: nat, q: nat)
    requires IdsDistinct(s) && p < |s| && q < |s|
    ensures s[p].view.id == s[q].view.id ==> p == q
  {
    if p < q {
      assert IdsDiffer(s[p], s[q]);
    } else if q < p {
      assert IdsDiffer(s[q], s[p]);
    }
  }

  /** The ids of the views of the records of `s`. */
  function IdsOf(s: seq<Entry>): set<ViewId> {
    if |s| == 0 then {} else IdsOf(s[..|s| - 1]) + {s[|s| - 1].view.id}
  }

  /** An id is in `IdsOf(s)` exactly when some record of `s` has a view with that id. */
  lemma {:induction false} IdsOfMembers(s: seq<Entry>, id: ViewId)
    ensures id in IdsOf(s) <==> exists m :: 0 <= m < |s| && s[m].view.id == id
  {
    if s != [] {
      var init := s[..|s| - 1];
      IdsOfMembers(init, id);
      if exists m :: 0 <= m < |s| && s[m].view.id == id {
        var m :| 0 <= m < |s| && s[m].view.id == id;
        if m < |s| - 1 {
          assert init[m] == s[m];
        }
      }
      if exists m :: 0 <= m < |init| && init[m].view.id == id {
        var m :| 0 <= m < |init| && init[m].view.id == id;
        assert s[m] == init[m];
      }
    }
  }

  /** Reordering the records keeps their ids. */
  lemma IdsOfPermutation(s: seq<Entry>, t: seq<Entry>)
    requires multiset(s) == multiset(t)
    ensures IdsOf(s) == IdsOf(t)
  {
    forall id ensures id in IdsOf(s) <==> id in IdsOf(t) {
      IdsOfMembers(s, id);
      IdsOfMembers(t, id);
      if exists m :: 0 <= m < |s| && s[m].view.id == id {
        var m :| 0 <= m < |s| && s[m].view.id == id;
        assert s[m] in multiset(t);
        var m' :| 0 <= m' < |t| && t[m'] == s[m];
      }
      if exists m :: 0 <= m < |t| && t[m].view.id == id {
        var m :| 0 <= m < |t| && t[m].view.id == id;
        assert t[m] in multiset(s);
        var m' :| 0 <= m' < |s| && s[m'] == t[m];
      }
    }
  }

  /** Every pane holds exactly the views the list assigns to its group, in list order. */
  predicate Arranged(panes: seq<seq<View>>, s: seq<Entry>) {
    forall g :: 0 <= g < |panes| ==> panes[g] == GroupViews(s, g)
  }

  /** The tabs of one pane are in key order. */
  predicate KeySorted(vs: seq<View>) {
    forall p, q :: 0 <= p < q < |vs| ==> KeyLe(SortKey(vs[p].fileName), SortKey(vs[q].fileName))
  }

  /** The views of `vs` whose sort key is `k`, in their order in `vs`. */
  function KeyFilter(vs: seq<View>, k: string): seq<View> {
    if vs == [] then []
    else (if SortKey(vs[0].fileName) == k then [vs[0]] else []) + KeyFilter(vs[1..], k)
  }

  /** Every pane's tabs are in key order. */
  predicate PanesKeySorted(panes: seq<seq<View>>) {
    forall g :: 0 <= g < |panes| ==> KeySorted(panes[g])
  }

  /**
   * `after` is `before` with every pane sorted stably by key: each pane is in
   * key order, holds the views it held, and keeps views of equal key in their
   * old order.
   */
  ghost predicate PanesSortedFrom(before: seq<seq<View>>, after: seq<seq<View>>) {
    && |after| == |before|
    && forall g :: 0 <= g < |after| ==>
      && KeySorted(after[g])
      && multiset(after[g]) == multiset(before[g])
      && forall k :: KeyFilter(after[g], k) == KeyFilter(before[g], k)
  }

  // ---------------------------------------------------------------------------
  // The order

  lemma LeReflexive(x: Entry)
    ensures Le(x, x)
  {
    KeyLeReflexive(x.key);
  }

  lemma LeTotal(x: Entry, y: Entry)
    ensures Le(x, y) || Le(y, x)
  {
    KeyLeTotal(x.key, y.key);
  }

  lemma LeTransitive(x: Entry, y: Entry, z: Entry)
    requires Le(x, y) && Le(y, z)
    ensures Le(x, z)
  {
    if x.group == y.group == z.group {
      KeyLeTransitive(x.key, y.key, z.key);
    }
  }

  /** Records out of order never share (group, key). */
  lemma OutOfOrderDiffer(x: Entry, y: Entry)
    requires !Le(x, y)
    ensures x.group != y.group || x.key != y.key
  {
    KeyLeReflexive(x.key);
  }

  lemma SortedGroups(s: seq<Entry>)
    requires Sorted(s)
    ensures GroupsSorted(s)
  {
    forall p, q | 0 <= p < q < |s| ensures s[p].group <= s[q].group {
      assert Le(s[p], s[q]);
    }
  }

  /** A list whose neighbours are in order is sorted. */
  lemma {:induction false} SortedBetweenIsSorted(s: seq<Entry>)
    requires SortedBetween(s, 0, |s|)
    ensures Sorted(s)
  {
    if |s| > 1 {
      var n := |s| - 1;
      var init := s[..n];
      assert SortedBetween(init, 0, n) by {
        forall m | 0 < m < n ensures Le(init[m - 1], init[m]) {
          assert Le(s[m - 1], s[m]);
        }
      }
      SortedBetweenIsSorted(init);
      forall p, q | 0 <= p < q < |s| ensures Le(s[p], s[q]) {
        if q < n {
          assert Le(init[p], init[q]);
        } else if p < n - 1 {
          assert Le(init[p], init[n - 1]);
          assert Le(s[n - 1], s[n]);
          LeTransitive(s[p], s[n - 1], s[n]);
        } else {
          assert Le(s[n - 1], s[n]);
        }
      }
    }
  }

  // ---------------------------------------------------------------------------
  // Buckets: what a stable sort keeps

  lemma {:induction false} BucketConcat(a: seq<Entry>, b: seq<Entry>, g: nat, k: string)
    ensures Bucket(a + b, g, k) == Bucket(a, g, k) + Bucket(b, g, k)
  {
    if a != [] {
      assert (a + b)[1..] == a[1..] + b;
      BucketConcat(a[1..], b, g, k);
    } else {
      assert a + b == b;
    }
  }

  lemma {:induction false} BucketMember(s: seq<Entry>, g: nat, k: string, e: Entry)
    requires e in Bucket(s, g, k)
    ensures e in s && e.group == g && e.key == k
  {
    if s[0] != e || s[0].group != g || s[0].key != k {
      BucketMember(s[1..], g, k, e);
    }
  }

  /** `s` with the neighbours at `m` and `m + 1` exchanged. */
  function Swap(s: seq<Entry>, m: nat): seq<Entry>
    requires m + 1 < |s|
  {
    s[m := s[m + 1]][m + 1 := s[m]]
  }

  /** An exchange below slot `n` leaves the records from `n` on where they were. */
  lemma SwapKeepsTail(s: seq<Entry>, m: nat, n: nat)
    requires m + 1 < n <= |s|
    ensures Swap(s, m)[n..] == s[n..]
  {
  }

  /** Two lists with the same records that agree from slot `n` on hold the same records before `n`. */
  lemma PrefixReordered(t: seq<Entry>, s: seq<Entry>, n: nat)
    requires n <= |t| == |s| && multiset(t) == multiset(s)
    requires forall k :: n <= k < |t| ==> t[k] == s[k]
    ensures t[n..] == s[n..]
    ensures multiset(t[..n]) == multiset(s[..n])
  {
    assert t[n..] == s[n..];
    assert t == t[..n] + t[n..];
    assert s == s[..n] + s[n..];
    assert multiset(t) == multiset(t[..n]) + multiset(t[n..]);
    assert multiset(s) == multiset(s[..n]) + multiset(s[n..]);
    assert multiset(t[..n]) == multiset(t) - multiset(t[n..]);
    assert multiset(s[..n]) == multiset(s) - multiset(s[n..]);
  }

  /**
   * Exchanging two neighbours that are out of order keeps the multiset of
   * records and every bucket: the step an insertion sort takes.
   */
  lemma SwapKeepsBuckets(s: seq<Entry>, m: nat)
    requires m + 1 < |s| && !Le(s[m], s[m + 1])
    ensures multiset(Swap(s, m)) == multiset(s) && SameBuckets(Swap(s, m), s)
  {
    var x, y := s[m], s[m + 1];
    var pre, post := s[..m], s[m + 2..];
    assert Swap(s, m) == pre + [y, x] + post;
    assert s == pre + [x, y] + post;
    OutOfOrderDiffer(x, y);
    forall g: nat, k: string ensures Bucket(Swap(s, m), g, k) == Bucket(s, g, k) {
      BucketAround(pre, [y, x], post, g, k);
      BucketAround(pre, [x, y], post, g, k);
      BucketPair(x, y, g, k);
    }
  }

  lemma BucketAround(pre: seq<Entry>, mid: seq<Entry>, post: seq<Entry>, g: nat, k: string)
    ensures Bucket(pre + mid + post, g, k) == Bucket(pre, g, k) + Bucket(mid, g, k) + Bucket(post, g, k)
  {
    BucketConcat(pre + mid, post, g, k);
    BucketConcat(pre, mid, g, k);
  }

  /** Two records of different buckets can trade places without changing any bucket. */
  lemma BucketPair(x: Entry, y: Entry, g: nat, k: string)
    requires x.group != y.group || x.key != y.key
    ensures Bucket([y, x], g, k) == Bucket([x, y], g, k)
  {
    assert [y, x][1..] == [x] && [x, y][1..] == [y];
    assert [x][1..] == [] && [y][1..] == [];
  }

  lemma SameBucketsTransitive(s: seq<Entry>, t: seq<Entry>, u: seq<Entry>)
    requires SameBuckets(s, t) && SameBuckets(t, u)
    ensures SameBuckets(s, u)
  {
    forall g: nat, k: string ensures Bucket(s, g, k) == Bucket(u, g, k) {
      assert Bucket(s, g, k) == Bucket(t, g, k);
    }
  }

  lemma SameBucketsSymmetric(s: seq<Entry>, t: seq<Entry>)
    requires SameBuckets(s, t)
    ensures SameBuckets(t, s)
  {
    forall g: nat, k: string ensures Bucket(t, g, k) == Bucket(s, g, k) {
      assert Bucket(s, g, k) == Bucket(t, g, k);
    }
  }

  /** The first record of a list heads its own bucket. */
  lemma BucketFirst(s: seq<Entry>)
    requires s != []
    ensures Bucket(s, s[0].group, s[0].key) == [s[0]] + Bucket(s[1..], s[0].group, s[0].key)
  {
  }

  /** A sorted list with the same buckets as `s` starts with a record no greater than `s`'s first. */
  lemma SortedHeadLeast(s: seq<Entry>, t: seq<Entry>)
    requires s != [] && Sorted(t) && SameBuckets(s, t)
    ensures t != [] && Le(t[0], s[0])
  {
    var x := s[0];
    BucketFirst(s);
    assert x in Bucket(t, x.group, x.key);
    BucketMember(t, x.group, x.key, x);
    var m :| 0 <= m < |t| && t[m] == x;
    if m == 0 {
      LeReflexive(x);
    } else {
      assert Le(t[0], t[m]);
    }
  }

  /** Two sorted lists with the same buckets start with the same record. */
  lemma SortedHeadsEqual(s: seq<Entry>, t: seq<Entry>)
    requires s != [] && Sorted(s) && Sorted(t) && SameBuckets(s, t)
    ensures t != [] && s[0] == t[0]
  {
    SortedHeadLeast(s, t);
    SameBucketsSymmetric(s, t);
    SortedHeadLeast(t, s);
    var x, y := s[0], t[0];
    KeyLeAntisymmetric(x.key, y.key);
    assert x.group == y.group && x.key == y.key;
    BucketFirst(s);
    BucketFirst(t);
    assert Bucket(s, x.group, x.key)[0] == x;
    assert Bucket(t, x.group, x.key)[0] == y;
  }

  /** Lists with the same buckets and the same first record have the same buckets after it. */
  lemma TailBuckets(s: seq<Entry>, t: seq<Entry>)
    requires s != [] && t != [] && s[0] == t[0] && SameBuckets(s, t)
    ensures SameBuckets(s[1..], t[1..])
  {
    var x := s[0];
    forall g: nat, k: string ensures Bucket(s[1..], g, k) == Bucket(t[1..], g, k) {
      var head := if x.group == g && x.key == k then [x] else [];
      assert Bucket(s, g, k) == head + Bucket(s[1..], g, k);
      assert Bucket(t, g, k) == head + Bucket(t[1..], g, k);
      assert Bucket(s[1..], g, k) == Bucket(s, g, k)[|head|..];
      assert Bucket(t[1..], g, k) == Bucket(t, g, k)[|head|..];
    }
  }

  /**
   * A stable sort has one possible outcome: two sorted lists with the same
   * buckets are the same list.
   */
  lemma {:induction false} SortedUnique(s: seq<Entry>, t: seq<Entry>)
    requires Sorted(s) && Sorted(t) && SameBuckets(s, t)
    ensures s == t
    decreases |s|
  {
    if s != [] {
      SortedHeadsEqual(s, t);
      TailBuckets(s, t);
      SortedTail(s);
      SortedTail(t);
      SortedUnique(s[1..], t[1..]);
      assert s == [s[0]] + s[1..] && t == [t[0]] + t[1..];
    } else if t != [] {
      SameBucketsSymmetric(s, t);
      SortedHeadLeast(t, s);
    }
  }

  // ---------------------------------------------------------------------------
  // Group views: what each pane should hold

  lemma {:induction false} GroupViewsConcat(a: seq<Entry>, b: seq<Entry>, g: nat)
    ensures GroupViews(a + b, g) == GroupViews(a, g) + GroupViews(b, g)
  {
    if a != [] {
      assert (a + b)[1..] == a[1..] + b;
      GroupViewsConcat(a[1..], b, g);
    } else {
      assert a + b == b;
    }
  }

  lemma {:induction false} GroupViewsMember(s: seq<Entry>, g: nat, v: View)
    requires v in GroupViews(s, g)
    ensures exists m :: 0 <= m < |s| && s[m].view == v && s[m].group == g
  {
    if s[0].view != v || s[0].group != g {
      GroupViewsMember(s[1..], g, v);
      var m :| 0 <= m < |s[1..]| && s[1..][m].view == v && s[1..][m].group == g;
      assert s[m + 1] == s[1..][m];
    }
  }

  /** A record of group `g` puts its view among the group's views. */
  lemma {:induction false} GroupViewsHas(s: seq<Entry>, m: nat)
    requires m < |s|
    ensures s[m].view in GroupViews(s, s[m].group)
  {
    if m > 0 {
      GroupViewsHas(s[1..], m - 1);
    }
  }

  /** Records ahead of `i` that are not in group `g` do not contribute to it. */
  lemma {:induction false} GroupViewsSkip(s: seq<Entry>, i: nat, g: nat)
    requires i <= |s|
    requires forall m :: 0 <= m < i ==> s[m].group != g
    ensures GroupViews(s, g) == GroupViews(s[i..], g)
  {
    if i > 0 {
      GroupViewsSkip(s[1..], i - 1, g);
      assert s[1..][i - 1..] == s[i..];
    }
  }

  lemma {:induction false} GroupViewsUniform(s: seq<Entry>, h: nat, g: nat)
    requires forall m :: 0 <= m < |s| ==> s[m].group == h
    ensures GroupViews(s, g) == if h == g then ViewsOf(s) else []
  {
    if s != [] {
      GroupViewsUniform(s[1..], h, g);
      assert ViewsOf(s) == [s[0].view] + ViewsOf(s[1..]);
    }
  }

  lemma RemoveMatching(s: seq<Entry>, t: seq<Entry>, i: nat)
    requires multiset(s) == multiset(t) && s != [] && i < |t| && t[i] == s[0]
    ensures multiset(t[..i] + t[i + 1..]) == multiset(s[1..])
  {
    assert s == [s[0]] + s[1..];
    assert t == t[..i] + [t[i]] + t[i + 1..];
    var rest := t[..i] + t[i + 1..];
    assert multiset(t) == multiset(rest) + multiset{s[0]};
    assert multiset(s) == multiset(s[1..]) + multiset{s[0]};
    assert multiset(rest) == multiset(t) - multiset{s[0]};
  }

  /** A view none of whose records is in group `h` is not among that group's views. */
  lemma {:induction false} NotInGroupViews(s: seq<Entry>, v: View, h: nat)
    requires forall m :: 0 <= m < |s| && s[m].view == v ==> s[m].group != h
    ensures v !in GroupViews(s, h)
  {
    if s != [] {
      assert forall m :: 0 <= m < |s| - 1 ==> s[1..][m] == s[m + 1];
      NotInGroupViews(s[1..], v, h);
    }
  }

  /** With distinct ids in the list, each group's views have distinct ids. */
  lemma {:induction false} GroupViewsDistinct(s: seq<Entry>, g: nat)
    requires IdsDistinct(s)
    ensures DistinctIds(GroupViews(s, g))
  {
    if s != [] {
      assert IdsDistinct(s[1..]) by {
        forall p, q | 0 <= p < q < |s| - 1 ensures IdsDiffer(s[1..][p], s[1..][q]) {
          assert s[1..][p] == s[p + 1] && s[1..][q] == s[q + 1];
          assert IdsDiffer(s[p + 1], s[q + 1]);
        }
      }
      GroupViewsDistinct(s[1..], g);
      var rest := GroupViews(s[1..], g);
      if s[0].group == g {
        var gv := [s[0].view] + rest;
        assert GroupViews(s, g) == gv;
        forall i, j | 0 <= i < j < |gv| ensures gv[i].id != gv[j].id {
          if i == 0 {
            GroupViewsMember(s[1..], g, rest[j - 1]);
            var m :| 0 <= m < |s[1..]| && s[1..][m].view == rest[j - 1] && s[1..][m].group == g;
            assert s[m + 1].view == gv[j] && gv[0] == s[0].view;
            assert IdsDiffer(s[0], s[m + 1]);
          } else {
            assert gv[i] == rest[i - 1] && gv[j] == rest[j - 1];
            assert rest[i - 1].id != rest[j - 1].id;
          }
        }
      }
    }
  }

  /**
   * Replacing each pane of a window with distinct ids by the views the list
   * assigns to its group (a reordering of that pane) keeps ids distinct.
   */
  lemma ArrangedValid(before: seq<seq<View>>, after: seq<seq<View>>, s: seq<Entry>)
    requires ValidPanes(before) && IdsDistinct(s) && |after| == |before|
    requires Arranged(after, s)
    requires forall g :: 0 <= g < |before| ==> multiset(after[g]) == multiset(before[g])
    ensures ValidPanes(after)
  {
    forall g | 0 <= g < |after| ensures DistinctIds(after[g]) {
      GroupViewsDistinct(s, g);
      assert after[g] == GroupViews(s, g);
    }
    forall g, h, i, j | 0 <= g < h < |after| && 0 <= i < |after[g]| && 0 <= j < |after[h]|
      ensures after[g][i].id != after[h][j].id
    {
      assert after[g][i] in multiset(before[g]) && after[h][j] in multiset(before[h]);
      var i' :| 0 <= i' < |before[g]| && before[g][i'] == after[g][i];
      var j' :| 0 <= j' < |before[h]| && before[h][j'] == after[h][j];
    }
  }

  /** Reordering the records reorders each group's views the same way. */
  lemma {:induction false} GroupViewsPermutation(s: seq<Entry>, t: seq<Entry>, g: nat)
    requires multiset(s) == multiset(t)
    ensures multiset(GroupViews(s, g)) == multiset(GroupViews(t, g))
    decreases |s|
  {
    if s == [] {
      assert |t| == |multiset(t)| == 0;
    } else {
      var x := s[0];
      assert x in multiset(t);
      var i :| 0 <= i < |t| && t[i] == x;
      RemoveMatching(s, t, i);
      GroupViewsPermutation(s[1..], t[..i] + t[i + 1..], g);
      GroupViewsRemove(t, i, g);
      var head := if x.group == g then [x.view] else [];
      assert GroupViews(s, g) == head + GroupViews(s[1..], g);
      assert GroupViews([x], g) == head by {
        assert [x][1..] == [];
      }
    }
  }

  /** Taking record `i` out of a list takes what it adds to group `g`'s views out of them. */
  lemma GroupViewsRemove(t: seq<Entry>, i: nat, g: nat)
    requires i < |t|
    ensures multiset(GroupViews(t, g)) == multiset(GroupViews(t[..i] + t[i + 1..], g)) + multiset(GroupViews([t[i]], g))
  {
    var before, after := t[..i], t[i + 1..];
    assert t == before + [t[i]] + after;
    GroupViewsConcat(before + [t[i]], after, g);
    GroupViewsConcat(before, [t[i]], g);
    GroupViewsConcat(before, after, g);
  }

  // ---------------------------------------------------------------------------
  // The list built from a window

  lemma {:induction false} PlacementsShape(panes: seq<seq<View>>)
    ensures forall m :: 0 <= m < |Placements(panes)| ==>
      Placements(panes)[m].group < |panes| && Placements(panes)[m].view in panes[Placements(panes)[m].group]
  {
    if panes != [] {
      var n := |panes| - 1;
      var init := panes[..n];
      PlacementsShape(init);
      var a := Placements(init);
      var p := Placements(panes);
      assert p == a + PaneRow(panes[n], n);
      forall m | 0 <= m < |p| ensures p[m].group < |panes| && p[m].view in panes[p[m].group] {
        if m < |a| {
          assert p[m] == a[m];
          assert init[a[m].group] == panes[a[m].group];
        } else {
          assert p[m] == Placed(panes[n][m - |a|], n);
        }
      }
    }
  }

  /** In a window with distinct ids, the list built from it has distinct ids. */
  lemma {:induction false} PlacementsDistinct(panes: seq<seq<View>>)
    requires ValidPanes(panes)
    ensures IdsDistinct(Keyed(Placements(panes)))
  {
    if panes != [] {
      var n := |panes| - 1;
      var init := panes[..n];
      assert ValidPanes(init) by {
        forall g | 0 <= g < n ensures init[g] == panes[g] { }
      }
      PlacementsDistinct(init);
      PlacementsShape(init);
      var a := Placements(init);
      var k := Keyed(Placements(panes));
      assert Placements(panes) == a + PaneRow(panes[n], n);
      forall p, q | 0 <= p < q < |k| ensures IdsDiffer(k[p], k[q]) {
        if q < |a| {
          assert Keyed(a)[p].view == k[p].view && Keyed(a)[q].view == k[q].view;
        } else if p >= |a| {
          assert k[p].view == panes[n][p - |a|] && k[q].view == panes[n][q - |a|];
        } else {
          var g := a[p].group;
          assert a[p].view in init[g];
          var j :| 0 <= j < |panes[g]| && panes[g][j] == a[p].view;
          assert k[q].view == panes[n][q - |a|];
        }
      }
    }
  }

  /** The views of group g in the list built from a window are that pane's tabs, in order. */
  lemma KeyedConcat(a: seq<Placed>, b: seq<Placed>)
    ensures Keyed(a + b) == Keyed(a) + Keyed(b)
  {
    var joined, parts := Keyed(a + b), Keyed(a) + Keyed(b);
    forall j | 0 <= j < |joined| ensures joined[j] == parts[j] {
      if j < |a| {
        assert (a + b)[j] == a[j];
      } else {
        assert (a + b)[j] == b[j - |a|];
      }
    }
  }

  lemma {:induction false} PlacementsGroupViews(panes: seq<seq<View>>, g: nat)
    ensures GroupViews(Keyed(Placements(panes)), g) == if g < |panes| then panes[g] else []
  {
    if panes != [] {
      var n := |panes| - 1;
      var init := panes[..n];
      PlacementsGroupViews(init, g);
      var a := Placements(init);
      var row := PaneRow(panes[n], n);
      assert Placements(panes) == a + row;
      KeyedConcat(a, row);
      GroupViewsConcat(Keyed(a), Keyed(row), g);
      GroupViewsUniform(Keyed(row), n, g);
      assert ViewsOf(Keyed(row)) == panes[n];
      if g < n {
        assert init[g] == panes[g];
      }
    }
  }

  /** A window whose panes are each in key order yields an already sorted list. */
  lemma {:induction false} ArrangedPlacementsSorted(panes: seq<seq<View>>)
    requires forall g :: 0 <= g < |panes| ==> KeySorted(panes[g])
    ensures Sorted(Keyed(Placements(panes)))
  {
    if panes != [] {
      var n := |panes| - 1;
      var init := panes[..n];
      assert forall g :: 0 <= g < n ==> init[g] == panes[g];
      ArrangedPlacementsSorted(init);
      var a, row := Placements(init), PaneRow(panes[n], n);
      assert Placements(panes) == a + row;
      KeyedConcat(a, row);
      PlacementsShape(init);
      RowSorted(panes[n], n);
      forall p, q | 0 <= p < |Keyed(a)| && 0 <= q < |Keyed(row)| ensures Le(Keyed(a)[p], Keyed(row)[q]) {
        assert Keyed(a)[p].group == a[p].group < n;
      }
      SortedConcat(Keyed(a), Keyed(row));
    }
  }

  /** The records of one pane in key order are sorted. */
  lemma RowSorted(pane: seq<View>, g: nat)
    requires KeySorted(pane)
    ensures Sorted(Keyed(PaneRow(pane, g)))
  {
    var k := Keyed(PaneRow(pane, g));
    forall p, q | 0 <= p < q < |k| ensures Le(k[p], k[q]) {
      assert k[p].view == pane[p] && k[q].view == pane[q];
    }
  }

  /** Two sorted lists, every record of the first in order before every record of the second, join into a sorted list. */
  lemma SortedConcat(x: seq<Entry>, y: seq<Entry>)
    requires Sorted(x) && Sorted(y)
    requires forall p, q :: 0 <= p < |x| && 0 <= q < |y| ==> Le(x[p], y[q])
    ensures Sorted(x + y)
  {
    var s := x + y;
    forall p, q | 0 <= p < q < |s| ensures Le(s[p], s[q]) {
      if q < |x| {
        assert s[p] == x[p] && s[q] == x[q];
      } else if p >= |x| {
        assert s[p] == y[p - |x|] && s[q] == y[q - |x|];
      } else {
        assert s[p] == x[p] && s[q] == y[q - |x|];
      }
    }
  }

  // ---------------------------------------------------------------------------
  // What the sorted list says about each pane

  lemma SortedTail(s: seq<Entry>)
    requires s != [] && Sorted(s)
    ensures Sorted(s[1..])
  {
    forall p, q | 0 <= p < q < |s| - 1 ensures Le(s[1..][p], s[1..][q]) {
      assert Le(s[p + 1], s[q + 1]);
    }
  }

  lemma KeyConsistentTail(s: seq<Entry>)
    requires s != [] && KeyConsistent(s)
    ensures KeyConsistent(s[1..])
  {
    forall m | 0 <= m < |s| - 1 ensures s[1..][m].key == SortKey(s[1..][m].view.fileName) {
      assert s[1..][m] == s[m + 1];
    }
  }

  /** A view placed ahead of a key-ordered row whose keys are all at least its own keeps the row key-ordered. */
  lemma KeySortedCons(v: View, rest: seq<View>)
    requires KeySorted(rest)
    requires forall w :: w in rest ==> KeyLe(SortKey(v.fileName), SortKey(w.fileName))
    ensures KeySorted([v] + rest)
  {
    var vs := [v] + rest;
    forall p, q | 0 <= p < q < |vs| ensures KeyLe(SortKey(vs[p].fileName), SortKey(vs[q].fileName)) {
      assert vs[q] == rest[q - 1];
      if p > 0 {
        assert vs[p] == rest[p - 1];
      }
    }
  }

  /** In a sorted, consistently keyed list, the first record's key is at most the key of every later view of its group. */
  lemma HeadKeyFirst(s: seq<Entry>, g: nat)
    requires s != [] && Sorted(s) && KeyConsistent(s) && s[0].group == g
    ensures forall w :: w in GroupViews(s[1..], g) ==> KeyLe(SortKey(s[0].view.fileName), SortKey(w.fileName))
  {
    forall w | w in GroupViews(s[1..], g) ensures KeyLe(SortKey(s[0].view.fileName), SortKey(w.fileName)) {
      GroupViewsMember(s[1..], g, w);
      var m :| 0 <= m < |s| - 1 && s[1..][m].view == w && s[1..][m].group == g;
      assert s[m + 1] == s[1..][m];
      assert Le(s[0], s[m + 1]);
    }
  }

  /** In a sorted list, each group's views come in key order. */
  lemma {:induction false} GroupViewsKeySorted(s: seq<Entry>, g: nat)
    requires Sorted(s) && KeyConsistent(s)
    ensures KeySorted(GroupViews(s, g))
  {
    if s != [] {
      SortedTail(s);
      KeyConsistentTail(s);
      GroupViewsKeySorted(s[1..], g);
      if s[0].group == g {
        HeadKeyFirst(s, g);
        KeySortedCons(s[0].view, GroupViews(s[1..], g));
      }
    }
  }

  lemma KeyFilterCons(v: View, rest: seq<View>, k: string)
    ensures KeyFilter([v] + rest, k) == (if SortKey(v.fileName) == k then [v] else []) + KeyFilter(rest, k)
  {
    assert ([v] + rest)[1..] == rest;
  }

  lemma ViewsOfCons(x: Entry, b: seq<Entry>)
    ensures ViewsOf([x] + b) == [x.view] + ViewsOf(b)
  {
  }

  lemma ViewsOfPrefix(s: seq<Entry>, i: nat)
    requires i < |s|
    ensures ViewsOf(s[..i + 1]) == ViewsOf(s[..i]) + [s[i].view]
  {
  }

  /** In a consistently keyed list, the views of group g with key k are the views of bucket (g, k). */
  lemma {:induction false} KeyFilterGroupViews(s: seq<Entry>, g: nat, k: string)
    requires KeyConsistent(s)
    ensures KeyFilter(GroupViews(s, g), k) == ViewsOf(Bucket(s, g, k))
  {
    if s != [] {
      var x := s[0];
      KeyConsistentTail(s);
      KeyFilterGroupViews(s[1..], g, k);
      var rest, b := GroupViews(s[1..], g), Bucket(s[1..], g, k);
      if x.group == g {
        assert GroupViews(s, g) == [x.view] + rest;
        assert x.key == SortKey(x.view.fileName);
        KeyFilterCons(x.view, rest, k);
        if x.key == k {
          assert Bucket(s, g, k) == [x] + b;
          ViewsOfCons(x, b);
        } else {
          assert Bucket(s, g, k) == b;
        }
      } else {
        assert GroupViews(s, g) == rest;
        assert Bucket(s, g, k) == b;
      }
    }
  }

  // ---------------------------------------------------------------------------
  // Distinct ids survive reordering

  lemma {:induction false} CountAtMostOne(s: seq<Entry>, x: Entry)
    requires IdsDistinct(s)
    ensures multiset(s)[x] <= 1
  {
    if s != [] {
      assert s == [s[0]] + s[1..];
      if s[0] == x {
        assert x !in s[1..] by {
          forall m | 0 <= m < |s| - 1 ensures s[1..][m] != x {
            assert s[1..][m] == s[m + 1];
            assert IdsDiffer(s[0], s[m + 1]);
          }
        }
      } else {
        CountAtMostOne(s[1..], x);
      }
    }
  }

  lemma CountTwo(s: seq<Entry>, p: nat, q: nat)
    requires p < q < |s| && s[p] == s[q]
    ensures multiset(s)[s[p]] >= 2
  {
    assert s == s[..p] + [s[p]] + s[p + 1..q] + [s[q]] + s[q + 1..];
  }

  lemma IdsDistinctPermutation(s: seq<Entry>, t: seq<Entry>)
    requires multiset(s) == multiset(t) && IdsDistinct(s)
    ensures IdsDistinct(t)
  {
    forall p, q | 0 <= p < q < |t| ensures IdsDiffer(t[p], t[q]) {
      if t[p].view.id == t[q].view.id {
        assert t[p] in multiset(s) && t[q] in multiset(s);
        var p' :| 0 <= p' < |s| && s[p'] == t[p];
        var q' :| 0 <= q' < |s| && s[q'] == t[q];
        IdsDistinctAt(s, p', q');
        CountTwo(t, p, q);
        CountAtMostOne(s, t[p]);
        assert false;
      }
    }
  }
}
