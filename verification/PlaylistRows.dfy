/**
 Playlist entries as rows with a sort order, and the statements that maintain it. The main results say
 that, run after run, the rows stand for plain sequences: append, filter, move and replace.
 */
module PlaylistRows {
  import opened Int32s

  /** A playlist_entries row; `order` is the 32-bit sort_order column. */
  datatype Entry = Entry(playlist: nat, item: nat, order: int)

  type Entries = map<nat, Entry>

  function Rows(e: Entries, p: nat): set<nat> {
    set x | x in e && e[x].playlist == p
  }

  // ---- ORDER BY sort_order, id ----------------------------------------------------------------

  predicate Precedes(e: Entries, a: nat, b: nat)
    requires a in e && b in e
  {
    e[a].order < e[b].order || (e[a].order == e[b].order && a < b)
  }

  ghost predicate Sorted(e: Entries, ids: set<nat>, s: seq<nat>)
    requires ids <= e.Keys
  {
    && (forall k :: 0 <= k < |s| ==> s[k] in ids)
    && (forall x :: x in ids ==> x in s)
    && (forall j, k :: 0 <= j < k < |s| ==> Precedes(e, s[j], s[k]))
  }

  predicate First(e: Entries, ids: set<nat>, m: nat)
    requires ids <= e.Keys
  {
    m in ids && forall x :: x in ids ==> x == m || Precedes(e, m, x)
  }

  lemma {:induction false} FirstExists(e: Entries, ids: set<nat>) returns (m: nat)
    requires ids <= e.Keys && ids != {}
    ensures First(e, ids, m)
    decreases ids
  {
    m :| m in ids;
    if ids - {m} != {} {
      var n := FirstExists(e, ids - {m});
      assert forall x :: x in ids ==> x == m || x in ids - {m};
      if Precedes(e, n, m) {
        m := n;
      }
    } else {
      assert ids == {m};
    }
  }

  ghost function Sort(e: Entries, ids: set<nat>): (s: seq<nat>)
    requires ids <= e.Keys
    ensures Sorted(e, ids, s)
    decreases ids
  {
    if ids == {} then []
    else
      assert exists m :: First(e, ids, m) by {
        var m := FirstExists(e, ids);
      }
      var m :| First(e, ids, m);
      [m] + Sort(e, ids - {m})
  }

  lemma {:induction false} DistinctCount(s: seq<nat>, ids: set<nat>)
    requires forall j, k :: 0 <= j < k < |s| ==> s[j] != s[k]
    requires forall x :: x in ids <==> x in s
    ensures |s| == |ids|
  {
    if s == [] {
      assert ids == {};
    } else {
      var n := |s| - 1;
      assert s == s[..n] + [s[n]];
      DistinctCount(s[..n], ids - {s[n]});
    }
  }

  /** What the client is shown. */
  ghost function Listing(e: Entries, p: nat): (s: seq<nat>)
    ensures Sorted(e, Rows(e, p), s) && |s| == |Rows(e, p)|
  {
    var s := Sort(e, Rows(e, p));
    DistinctCount(s, Rows(e, p));
    s
  }

  lemma {:induction false} SortedAgree(e: Entries, ids: set<nat>, s: seq<nat>, t: seq<nat>, n: nat)
    requires ids <= e.Keys && Sorted(e, ids, s) && Sorted(e, ids, t) && n <= |s|
    ensures n <= |t| && s[..n] == t[..n]
  {
    if n > 0 {
      var k := n - 1;
      SortedAgree(e, ids, s, t, k);
      assert forall i :: 0 <= i < k ==> s[i] == s[..k][i] == t[..k][i] == t[i];
      assert s[k] in ids && s[k] in t;
      var j :| 0 <= j < |t| && t[j] == s[k];
      assert t[k] in ids && t[k] in s;
      var i :| 0 <= i < |s| && s[i] == t[k];
    }
  }

  /** The order of the rows is determined. */
  lemma SortedIsUnique(e: Entries, ids: set<nat>, s: seq<nat>, t: seq<nat>)
    requires ids <= e.Keys && Sorted(e, ids, s) && Sorted(e, ids, t)
    ensures s == t
  {
    SortedAgree(e, ids, s, t, |s|);
    SortedAgree(e, ids, t, s, |t|);
  }

  // ---- density --------------------------------------------------------------------------------

  /** The sort orders of p's entries are exactly 0, 1, ... */
  ghost predicate Dense(e: Entries, p: nat) {
    var s := Listing(e, p);
    forall k :: 0 <= k < |s| ==> e[s[k]].order == k
  }

  ghost predicate Numbered(e: Entries, p: nat, s: seq<nat>) {
    && (forall k :: 0 <= k < |s| ==> s[k] in e && e[s[k]].playlist == p && e[s[k]].order == k)
    && (forall x :: x in Rows(e, p) ==> x in s)
  }

  lemma NumberedIsListing(e: Entries, p: nat, s: seq<nat>)
    requires Numbered(e, p, s)
    ensures Listing(e, p) == s && Dense(e, p)
  {
    assert Sorted(e, Rows(e, p), s);
    SortedIsUnique(e, Rows(e, p), s, Listing(e, p));
  }

  lemma DenseIsNumbered(e: Entries, p: nat)
    requires Dense(e, p)
    ensures Numbered(e, p, Listing(e, p))
  {
  }

  /** A playlist whose own rows did not change is shown as before. */
  lemma UntouchedListing(e: Entries, f: Entries, q: nat)
    requires Rows(e, q) == Rows(f, q) && forall x :: x in Rows(e, q) ==> e[x] == f[x]
    ensures Listing(e, q) == Listing(f, q) && (Dense(e, q) <==> Dense(f, q))
  {
    assert Sorted(f, Rows(f, q), Listing(e, q));
    SortedIsUnique(f, Rows(f, q), Listing(e, q), Listing(f, q));
  }

  ghost predicate OthersUntouched(e: Entries, f: Entries, p: nat) {
    && (forall x :: x in e && e[x].playlist != p ==> x in f && f[x] == e[x])
    && (forall x :: x in f && f[x].playlist != p ==> x in e)
    && (forall x :: x in e && x in f ==> f[x].playlist == e[x].playlist)
  }

  /** An entry never comes to stand for another item. */
  ghost predicate SameItems(e: Entries, f: Entries) {
    forall x :: x in e && x in f ==> f[x].item == e[x].item
  }

  lemma OthersKeepTheirListing(e: Entries, f: Entries, p: nat, q: nat)
    requires OthersUntouched(e, f, p) && q != p
    ensures Listing(e, q) == Listing(f, q) && (Dense(e, q) <==> Dense(f, q))
  {
    assert Rows(e, q) == Rows(f, q);
    UntouchedListing(e, f, q);
  }

  // ---- the statements -------------------------------------------------------------------------

  /** The identifiers the database draws for new rows. */
  predicate FreshIds(e: Entries, ids: seq<nat>) {
    && (forall k :: 0 <= k < |ids| ==> ids[k] !in e)
    && (forall j, k :: 0 <= j < k < |ids| ==> ids[j] != ids[k])
  }

  /** appendEntries: one INSERT an item, numbered from `from`. */
  function AppendRows(e: Entries, p: nat, from: int, items: seq<nat>, ids: seq<nat>): Entries
    requires |items| == |ids|
  {
    if items == [] then e
    else
      var n := |items| - 1;
      AppendRows(e, p, from, items[..n], ids[..n])[ids[n] := Entry(p, items[n], Int32(from + n))]
  }

  /** UPDATE ... SET sort_order = sort_order + delta WHERE playlist_id = p AND lo <= sort_order <= hi. */
  function Shift(e: Entries, p: nat, lo: int, hi: int, delta: int): Entries {
    map x | x in e :: if e[x].playlist == p && lo <= e[x].order <= hi then e[x].(order := e[x].order + delta) else e[x]
  }

  /** The two updates of MoveEntry. */
  function MoveRow(e: Entries, p: nat, id: nat, to: int): Entries
    requires id in e
  {
    var from := e[id].order;
    if from == to then e
    else
      var shifted := if to < from then Shift(e, p, to, from - 1, 1) else Shift(e, p, from + 1, to, -1);
      shifted[id := shifted[id].(order := to)]
  }

  /** renumber: UPDATE the rows whose order is not their position. */
  function Renumber(e: Entries, s: seq<nat>): (f: Entries)
    requires forall k :: 0 <= k < |s| ==> s[k] in e
    ensures f.Keys == e.Keys
  {
    if s == [] then e
    else
      var n := |s| - 1;
      var before := Renumber(e, s[..n]);
      if e[s[n]].order == n then before else before[s[n] := before[s[n]].(order := Int32(n))]
  }

  function DropRows(e: Entries, p: nat, ids: seq<nat>): Entries {
    map x | x in e && !(e[x].playlist == p && x in ids) :: e[x]
  }

  ghost function RemoveRows(e: Entries, p: nat, ids: seq<nat>): Entries {
    var left := DropRows(e, p, ids);
    Renumber(left, Listing(left, p))
  }

  function ClearRows(e: Entries, p: nat): Entries {
    map x | x in e && e[x].playlist != p :: e[x]
  }

  // ---- the plain sequence operations they refine -----------------------------------------------

  function RemoveAt(s: seq<nat>, i: nat): seq<nat>
    requires i < |s|
  {
    s[..i] + s[i + 1..]
  }

  function InsertAt(s: seq<nat>, i: nat, x: nat): seq<nat>
    requires i <= |s|
  {
    s[..i] + [x] + s[i..]
  }

  function Keep(s: seq<nat>, ids: seq<nat>): seq<nat> {
    if s == [] then []
    else Keep(s[..|s| - 1], ids) + if s[|s| - 1] in ids then [] else [s[|s| - 1]]
  }

  // ---- refinement -----------------------------------------------------------------------------

  lemma {:induction false} AppendFacts(e: Entries, p: nat, from: int, items: seq<nat>, ids: seq<nat>)
    requires |items| == |ids| && FreshIds(e, ids)
    ensures var f := AppendRows(e, p, from, items, ids);
            && (forall x :: x in f <==> x in e || x in ids)
            && (forall x :: x in e ==> f[x] == e[x])
            && (forall k :: 0 <= k < |ids| ==> f[ids[k]] == Entry(p, items[k], Int32(from + k)))
  {
    if items != [] {
      var n := |items| - 1;
      var g, f := AppendRows(e, p, from, items[..n], ids[..n]), AppendRows(e, p, from, items, ids);
      AppendFacts(e, p, from, items[..n], ids[..n]);
      assert ids == ids[..n] + [ids[n]];
      forall k | 0 <= k < |ids|
        ensures f[ids[k]] == Entry(p, items[k], Int32(from + k))
      {
        if k < n {
          assert ids[..n][k] == ids[k] && items[..n][k] == items[k];
        }
      }
    }
  }

  lemma AppendOne(e: Entries, p: nat, from: int, items: seq<nat>, ids: seq<nat>, item: nat, id: nat)
    requires |items| == |ids| && FreshIds(e, ids) && id !in AppendRows(e, p, from, items, ids)
    ensures FreshIds(e, ids + [id])
    ensures AppendRows(e, p, from, items + [item], ids + [id]) ==
            AppendRows(e, p, from, items, ids)[id := Entry(p, item, Int32(from + |items|))]
  {
    AppendFacts(e, p, from, items, ids);
    assert (items + [item])[..|items|] == items && (ids + [id])[..|ids|] == ids;
  }

  lemma AppendNumbered(e: Entries, p: nat, s: seq<nat>, items: seq<nat>, ids: seq<nat>)
    requires Numbered(e, p, s) && |items| == |ids| && FreshIds(e, ids) && |s| + |ids| <= INT32_LIMIT
    ensures Numbered(AppendRows(e, p, |s|, items, ids), p, s + ids)
  {
    var f := AppendRows(e, p, |s|, items, ids);
    AppendFacts(e, p, |s|, items, ids);
    forall x | x in Rows(f, p)
      ensures x in s + ids
    {
      assert x in e ==> x in Rows(e, p);
    }
    forall k | 0 <= k < |s + ids|
      ensures (s + ids)[k] in f && f[(s + ids)[k]].playlist == p && f[(s + ids)[k]].order == k
    {
      if k < |s| {
        assert (s + ids)[k] == s[k];
      } else {
        assert (s + ids)[k] == ids[k - |s|];
      }
    }
  }

  lemma AppendKeepsOthers(e: Entries, p: nat, from: int, items: seq<nat>, ids: seq<nat>)
    requires |items| == |ids| && FreshIds(e, ids)
    ensures OthersUntouched(e, AppendRows(e, p, from, items, ids), p) && SameItems(e, AppendRows(e, p, from, items, ids))
  {
    var f := AppendRows(e, p, from, items, ids);
    AppendFacts(e, p, from, items, ids);
    forall x | x in f && x !in e
      ensures f[x].playlist == p
    {
      var k :| 0 <= k < |ids| && ids[k] == x;
    }
  }

  /** Appending at the count refines concatenation. */
  lemma AppendRefines(e: Entries, p: nat, items: seq<nat>, ids: seq<nat>)
    requires Dense(e, p) && |items| == |ids| && FreshIds(e, ids) && |Rows(e, p)| + |ids| <= INT32_LIMIT
    ensures var f := AppendRows(e, p, |Rows(e, p)|, items, ids);
            Listing(f, p) == Listing(e, p) + ids && Dense(f, p) && OthersUntouched(e, f, p) && SameItems(e, f)
  {
    DenseIsNumbered(e, p);
    AppendNumbered(e, p, Listing(e, p), items, ids);
    NumberedIsListing(AppendRows(e, p, |Rows(e, p)|, items, ids), p, Listing(e, p) + ids);
    AppendKeepsOthers(e, p, |Rows(e, p)|, items, ids);
  }

  /** Where the entry that ends up at k stood before. */
  function Origin(from: nat, to: nat, k: nat): int {
    if k == to then from else if from <= k < to then k + 1 else if to < k <= from then k - 1 else k
  }

  /** t lists s after its entry at `from` was moved to `to`. */
  ghost predicate Moves(s: seq<nat>, from: nat, to: nat, t: seq<nat>) {
    && from < |s| && to < |s| && |t| == |s|
    && (forall k: nat :: k < |s| ==> t[k] == s[Origin(from, to, k)])
    && (forall k :: 0 <= k < |s| ==> s[k] in t)
  }

  lemma MovedLists(s: seq<nat>, from: nat, to: nat)
    requires from < |s| && to < |s|
    ensures Moves(s, from, to, InsertAt(RemoveAt(s, from), to, s[from]))
  {
    var t := InsertAt(RemoveAt(s, from), to, s[from]);
    forall k | 0 <= k < |s|
      ensures s[k] in t
    {
      if k == from {
        assert t[to] == s[k];
      } else if from < to && from < k <= to {
        assert t[k - 1] == s[k];
      } else if to < from && to <= k < from {
        assert t[k + 1] == s[k];
      } else {
        assert t[k] == s[k];
      }
    }
  }

  lemma MovedRow(e: Entries, p: nat, id: nat, to: int, x: nat)
    requires id in Rows(e, p) && x in Rows(e, p)
    ensures var from, at := e[id].order, e[x].order;
            x in MoveRow(e, p, id, to) &&
            MoveRow(e, p, id, to)[x] == e[x].(order :=
              if x == id then to else if from < at <= to then at - 1 else if to <= at < from then at + 1 else at)
  {
  }

  lemma MovedPosition(e: Entries, p: nat, s: seq<nat>, from: nat, to: nat, k: nat)
    requires Numbered(e, p, s) && from < |s| && to < |s| && k < |s|
    ensures var x, f := s[Origin(from, to, k)], MoveRow(e, p, s[from], to);
            x in f && f[x] == e[x].(order := k)
  {
    var x := s[Origin(from, to, k)];
    assert x in Rows(e, p) && s[from] in Rows(e, p);
    MovedRow(e, p, s[from], to, x);
  }

  lemma MoveKeepsOthers(e: Entries, p: nat, id: nat, to: int)
    requires id in Rows(e, p)
    ensures MoveRow(e, p, id, to).Keys == e.Keys && OthersUntouched(e, MoveRow(e, p, id, to), p)
    ensures Rows(MoveRow(e, p, id, to), p) == Rows(e, p) && SameItems(e, MoveRow(e, p, id, to))
  {
  }

  lemma MoveNumbered(e: Entries, p: nat, s: seq<nat>, from: nat, to: nat, t: seq<nat>)
    requires Numbered(e, p, s) && Moves(s, from, to, t)
    ensures Numbered(MoveRow(e, p, s[from], to), p, t)
  {
    var f := MoveRow(e, p, s[from], to);
    MoveKeepsOthers(e, p, s[from], to);
    forall k: nat | k < |t|
      ensures t[k] in f && f[t[k]].order == k && f[t[k]].playlist == p
    {
      MovedPosition(e, p, s, from, to, k);
    }
    forall x | x in Rows(f, p)
      ensures x in t
    {
      assert x in s;
    }
  }

  /** MoveEntry refines remove-then-insert, in both shift directions, and touches no other playlist. */
  lemma MoveRefines(e: Entries, p: nat, id: nat, to: nat)
    requires Dense(e, p) && id in Rows(e, p) && to < |Rows(e, p)|
    ensures var s, f := Listing(e, p), MoveRow(e, p, id, to);
            && 0 <= e[id].order < |s| && s[e[id].order] == id
            && Listing(f, p) == InsertAt(RemoveAt(s, e[id].order), to, id)
            && Dense(f, p) && f.Keys == e.Keys && OthersUntouched(e, f, p) && SameItems(e, f)
  {
    var s := Listing(e, p);
    DenseIsNumbered(e, p);
    assert id in s;
    var from :| 0 <= from < |s| && s[from] == id;
    var t := InsertAt(RemoveAt(s, from), to, id);
    MovedLists(s, from, to);
    MoveNumbered(e, p, s, from, to, t);
    NumberedIsListing(MoveRow(e, p, id, to), p, t);
    MoveKeepsOthers(e, p, id, to);
  }

  /** f is what removing the entry from the dense e and inserting it at `to` leaves, dense again. */
  ghost predicate MovedDensely(e: Entries, f: Entries, p: nat, id: nat, to: int) {
    && id in Rows(e, p) && 0 <= to < |Listing(e, p)| && 0 <= e[id].order < |Listing(e, p)|
    && Listing(e, p)[e[id].order] == id
    && Listing(f, p) == InsertAt(RemoveAt(Listing(e, p), e[id].order), to, id)
    && Dense(f, p) && OthersUntouched(e, f, p)
  }

  lemma {:induction false} RenumberFacts(e: Entries, s: seq<nat>)
    requires |s| <= INT32_LIMIT
    requires forall k :: 0 <= k < |s| ==> s[k] in e
    requires forall j, k :: 0 <= j < k < |s| ==> s[j] != s[k]
    ensures var f := Renumber(e, s);
            && f.Keys == e.Keys
            && (forall k :: 0 <= k < |s| ==> f[s[k]] == e[s[k]].(order := k))
            && (forall x :: x in e && x !in s ==> f[x] == e[x])
  {
    if s != [] {
      var n := |s| - 1;
      var f, before := Renumber(e, s), Renumber(e, s[..n]);
      RenumberFacts(e, s[..n]);
      assert s[n] !in s[..n] && before[s[n]] == e[s[n]];
      assert forall x :: x in e && x != s[n] ==> f[x] == before[x];
      forall k | 0 <= k < n
        ensures f[s[k]] == e[s[k]].(order := k)
      {
        assert s[..n][k] == s[k] && s[k] != s[n];
      }
    }
  }

  lemma RenumberKeepsRest(e: Entries, p: nat, s: seq<nat>)
    requires |s| <= INT32_LIMIT
    requires forall k :: 0 <= k < |s| ==> s[k] in e && e[s[k]].playlist == p
    requires forall j, k :: 0 <= j < k < |s| ==> s[j] != s[k]
    ensures var f := Renumber(e, s);
            Rows(f, p) == Rows(e, p) && f.Keys == e.Keys && OthersUntouched(e, f, p) && SameItems(e, f)
  {
    var f := Renumber(e, s);
    RenumberFacts(e, s);
    forall x | x in e
      ensures f[x].playlist == e[x].playlist && f[x].item == e[x].item && (e[x].playlist != p ==> f[x] == e[x])
    {
      if x in s {
        var k :| 0 <= k < |s| && s[k] == x;
      }
    }
  }

  /** renumber restores density from any starting orders and keeps the relative order shown before it. */
  lemma RenumberRestores(e: Entries, p: nat)
    requires |Rows(e, p)| <= INT32_LIMIT
    ensures var f := Renumber(e, Listing(e, p));
            Listing(f, p) == Listing(e, p) && Dense(f, p) && f.Keys == e.Keys && OthersUntouched(e, f, p) && SameItems(e, f)
  {
    var s, f := Listing(e, p), Renumber(e, Listing(e, p));
    RenumberFacts(e, s);
    RenumberKeepsRest(e, p, s);
    NumberedIsListing(f, p, s);
  }

  lemma {:induction false} KeepFacts(s: seq<nat>, ids: seq<nat>)
    ensures var t := Keep(s, ids);
            && (forall x :: x in t <==> x in s && x !in ids)
            && (forall k :: 0 <= k < |t| ==> t[k] in s)
  {
    if s != [] {
      KeepFacts(s[..|s| - 1], ids);
      assert s == s[..|s| - 1] + [s[|s| - 1]];
    }
  }

  /** Filtering a sorted listing leaves it sorted. */
  lemma {:induction false} KeepStaysSorted(e: Entries, s: seq<nat>, ids: seq<nat>)
    requires forall k :: 0 <= k < |s| ==> s[k] in e
    requires forall j, k :: 0 <= j < k < |s| ==> Precedes(e, s[j], s[k])
    ensures var t := Keep(s, ids);
            && (forall k :: 0 <= k < |t| ==> t[k] in e)
            && (forall j, k :: 0 <= j < k < |t| ==> Precedes(e, t[j], t[k]))
  {
    if s != [] {
      var n := |s| - 1;
      KeepStaysSorted(e, s[..n], ids);
      KeepFacts(s[..n], ids);
      var u := Keep(s[..n], ids);
      forall j | 0 <= j < |u|
        ensures Precedes(e, u[j], s[n])
      {
        var i :| 0 <= i < n && s[..n][i] == u[j];
        assert s[i] == u[j];
      }
    }
  }

  lemma DropListing(e: Entries, p: nat, ids: seq<nat>)
    ensures Listing(DropRows(e, p, ids), p) == Keep(Listing(e, p), ids)
    ensures Rows(DropRows(e, p, ids), p) <= Rows(e, p)
  {
    var left, s := DropRows(e, p, ids), Listing(e, p);
    KeepFacts(s, ids);
    KeepStaysSorted(e, s, ids);
    var t := Keep(s, ids);
    assert forall x :: x in Rows(left, p) <==> x in t;
    forall j, k | 0 <= j < k < |t|
      ensures t[j] in left && t[k] in left && Precedes(left, t[j], t[k])
    {
      assert t[j] in t && t[k] in t;
    }
    assert Sorted(left, Rows(left, p), t);
    SortedIsUnique(left, Rows(left, p), t, Listing(left, p));
  }

  /** RemoveEntries refines filtering whatever the orders were, and always ends dense. */
  lemma RemoveRefines(e: Entries, p: nat, ids: seq<nat>)
    requires |Rows(e, p)| <= INT32_LIMIT
    ensures var f := RemoveRows(e, p, ids);
            Listing(f, p) == Keep(Listing(e, p), ids) && Dense(f, p) && OthersUntouched(e, f, p) && SameItems(e, f)
  {
    var left := DropRows(e, p, ids);
    DropListing(e, p, ids);
    Fewer(Rows(left, p), Rows(e, p));
    RenumberRestores(left, p);
  }

  lemma Fewer(a: set<nat>, b: set<nat>)
    requires a <= b
    ensures |a| <= |b|
  {
    if a != b {
      assert b == a + (b - a);
    }
  }

  lemma ClearedIsEmpty(e: Entries, p: nat)
    ensures Rows(ClearRows(e, p), p) == {} && Dense(ClearRows(e, p), p) && Listing(ClearRows(e, p), p) == []
  {
    assert Rows(ClearRows(e, p), p) == {};
  }

  /** Update with items refines replacing the sequence. */
  lemma ReplaceRefines(e: Entries, p: nat, items: seq<nat>, ids: seq<nat>)
    requires |items| == |ids| <= INT32_LIMIT && FreshIds(ClearRows(e, p), ids)
    ensures var f := AppendRows(ClearRows(e, p), p, 0, items, ids);
            Listing(f, p) == ids && Dense(f, p) && OthersUntouched(e, f, p)
  {
    var cleared := ClearRows(e, p);
    ClearedIsEmpty(e, p);
    AppendRefines(cleared, p, items, ids);
    var f := AppendRows(cleared, p, 0, items, ids);
    assert Listing(f, p) == ids;
    ReplaceKeepsOthers(e, p, items, ids);
  }

  lemma ReplaceKeepsOthers(e: Entries, p: nat, items: seq<nat>, ids: seq<nat>)
    requires |items| == |ids| && FreshIds(ClearRows(e, p), ids)
    ensures OthersUntouched(e, AppendRows(ClearRows(e, p), p, 0, items, ids), p)
  {
    var cleared, f := ClearRows(e, p), AppendRows(ClearRows(e, p), p, 0, items, ids);
    AppendFacts(cleared, p, 0, items, ids);
    forall x | x in f && x !in cleared
      ensures f[x].playlist == p && (x in e ==> e[x].playlist == p)
    {
      var k :| 0 <= k < |ids| && ids[k] == x;
    }
  }

  // ---- whole runs -----------------------------------------------------------------------------

  datatype Op =
    | Add(playlist: nat, items: seq<nat>, ids: seq<nat>)
    | Remove(playlist: nat, ids: seq<nat>)
    | Move(playlist: nat, id: nat, to: int)
    | Replace(playlist: nat, items: seq<nat>, ids: seq<nat>)

  /** One call; a call the service or its int32 column would refuse leaves the rows alone. */
  ghost function Do(e: Entries, op: Op): Entries {
    match op
    case Add(p, items, ids) =>
      if |items| == |ids| && FreshIds(e, ids) && |Rows(e, p)| + |ids| <= INT32_LIMIT
      then AppendRows(e, p, |Rows(e, p)|, items, ids) else e
    case Remove(p, ids) => if |Rows(e, p)| <= INT32_LIMIT then RemoveRows(e, p, ids) else e
    case Move(p, id, to) => if 0 <= to < |Rows(e, p)| && id in Rows(e, p) then MoveRow(e, p, id, to) else e
    case Replace(p, items, ids) =>
      if |items| == |ids| <= INT32_LIMIT && FreshIds(ClearRows(e, p), ids) then AppendRows(ClearRows(e, p), p, 0, items, ids) else e
  }

  /** The same calls on plain sequences of entries. `used` is every entry of every playlist. */
  type Plain = map<nat, seq<nat>>

  function At(plain: Plain, p: nat): seq<nat> {
    if p in plain then plain[p] else []
  }

  function IndexOf(s: seq<nat>, x: nat): (k: nat)
    requires x in s
    ensures k < |s| && s[k] == x
  {
    if s[0] == x then 0 else 1 + IndexOf(s[1..], x)
  }

  ghost function DoPlain(e: Entries, plain: Plain, op: Op): Plain {
    match op
    case Add(p, items, ids) =>
      if |items| == |ids| && FreshIds(e, ids) && |At(plain, p)| + |ids| <= INT32_LIMIT
      then plain[p := At(plain, p) + ids] else plain
    case Remove(p, ids) => if |At(plain, p)| <= INT32_LIMIT then plain[p := Keep(At(plain, p), ids)] else plain
    case Move(p, id, to) =>
      var s := At(plain, p);
      if 0 <= to < |s| && id in s then plain[p := InsertAt(RemoveAt(s, IndexOf(s, id)), to, id)] else plain
    case Replace(p, items, ids) =>
      if |items| == |ids| <= INT32_LIMIT && FreshIds(ClearRows(e, p), ids) then plain[p := ids] else plain
  }

  ghost function Run(ops: seq<Op>): Entries {
    if ops == [] then map[] else Do(Run(ops[..|ops| - 1]), ops[|ops| - 1])
  }

  /** Identifiers are compared with the rows only to know which draws are fresh. */
  ghost function RunPlain(ops: seq<Op>): Plain {
    if ops == [] then map[]
    else DoPlain(Run(ops[..|ops| - 1]), RunPlain(ops[..|ops| - 1]), ops[|ops| - 1])
  }

  ghost predicate Mirrors(e: Entries, plain: Plain) {
    forall p :: Dense(e, p) && Listing(e, p) == At(plain, p)
  }

  lemma OrderIsIndex(e: Entries, p: nat, id: nat)
    requires Dense(e, p) && id in Rows(e, p)
    ensures id in Listing(e, p) && e[id].order == IndexOf(Listing(e, p), id)
  {
    var k := IndexOf(Listing(e, p), id);
    assert Listing(e, p)[k] == id;
  }

  /** The rows f are what the plain sequence says for the call's playlist, and other playlists are as in e. */
  ghost predicate OwnMirrors(e: Entries, f: Entries, p: nat, s: seq<nat>) {
    Dense(f, p) && Listing(f, p) == s && OthersUntouched(e, f, p)
  }

  lemma AddMirrors(e: Entries, plain: Plain, op: Op)
    requires op.Add? && Dense(e, op.playlist) && Listing(e, op.playlist) == At(plain, op.playlist)
    ensures OwnMirrors(e, Do(e, op), op.playlist, At(DoPlain(e, plain, op), op.playlist))
  {
    if |op.items| == |op.ids| && FreshIds(e, op.ids) && |Rows(e, op.playlist)| + |op.ids| <= INT32_LIMIT {
      AppendRefines(e, op.playlist, op.items, op.ids);
    }
  }

  lemma RemoveMirrors(e: Entries, plain: Plain, op: Op)
    requires op.Remove? && Dense(e, op.playlist) && Listing(e, op.playlist) == At(plain, op.playlist)
    ensures OwnMirrors(e, Do(e, op), op.playlist, At(DoPlain(e, plain, op), op.playlist))
  {
    if |Rows(e, op.playlist)| <= INT32_LIMIT {
      RemoveRefines(e, op.playlist, op.ids);
    }
  }

  lemma MoveMirrors(e: Entries, plain: Plain, op: Op)
    requires op.Move? && Dense(e, op.playlist) && Listing(e, op.playlist) == At(plain, op.playlist)
    ensures OwnMirrors(e, Do(e, op), op.playlist, At(DoPlain(e, plain, op), op.playlist))
  {
    assert op.id in Rows(e, op.playlist) <==> op.id in At(plain, op.playlist);
    if 0 <= op.to < |Rows(e, op.playlist)| && op.id in Rows(e, op.playlist) {
      MoveRefines(e, op.playlist, op.id, op.to);
      OrderIsIndex(e, op.playlist, op.id);
    }
  }

  lemma ReplaceMirrors(e: Entries, plain: Plain, op: Op)
    requires op.Replace? && Dense(e, op.playlist) && Listing(e, op.playlist) == At(plain, op.playlist)
    ensures OwnMirrors(e, Do(e, op), op.playlist, At(DoPlain(e, plain, op), op.playlist))
  {
    if |op.items| == |op.ids| <= INT32_LIMIT && FreshIds(ClearRows(e, op.playlist), op.ids) {
      ReplaceRefines(e, op.playlist, op.items, op.ids);
    }
  }

  lemma OwnPlaylistMirrors(e: Entries, plain: Plain, op: Op)
    requires Dense(e, op.playlist) && Listing(e, op.playlist) == At(plain, op.playlist)
    ensures OwnMirrors(e, Do(e, op), op.playlist, At(DoPlain(e, plain, op), op.playlist))
  {
    match op
    case Add(_, _, _) => AddMirrors(e, plain, op);
    case Remove(_, _) => RemoveMirrors(e, plain, op);
    case Move(_, _, _) => MoveMirrors(e, plain, op);
    case Replace(_, _, _) => ReplaceMirrors(e, plain, op);
  }

  lemma StepMirrors(e: Entries, plain: Plain, op: Op)
    requires Mirrors(e, plain)
    ensures Mirrors(Do(e, op), DoPlain(e, plain, op))
  {
    var p := op.playlist;
    var f, after := Do(e, op), DoPlain(e, plain, op);
    assert Dense(e, p) && Listing(e, p) == At(plain, p);
    OwnPlaylistMirrors(e, plain, op);
    forall q
      ensures Dense(f, q) && Listing(f, q) == At(after, q)
    {
      assert Dense(e, q) && Listing(e, q) == At(plain, q);
      if q != p {
        OthersKeepTheirListing(e, f, p, q);
        assert At(after, q) == At(plain, q);
      }
    }
  }

  /** Over every run every playlist stays dense and is shown in the order of the same run on sequences. */
  lemma {:induction false} EveryRunMirrors(ops: seq<Op>)
    ensures Mirrors(Run(ops), RunPlain(ops))
  {
    if ops == [] {
      forall p
        ensures Dense(map[], p) && Listing(map[], p) == []
      {
        assert Rows(map[], p) == {};
      }
    } else {
      EveryRunMirrors(ops[..|ops| - 1]);
      StepMirrors(Run(ops[..|ops| - 1]), RunPlain(ops[..|ops| - 1]), ops[|ops| - 1]);
    }
  }

  // ---- what breaks density --------------------------------------------------------------------

  /** Deleting an item cascades to its entries and closes no gap. */
  function CascadeItem(e: Entries, item: nat): Entries {
    map x | x in e && e[x].item != item :: e[x]
  }

  /** The sort orders are non-negative and no two of p's entries share one. */
  ghost predicate Spread(e: Entries, p: nat) {
    && (forall x :: x in Rows(e, p) ==> e[x].order >= 0)
    && (forall x, y :: x in Rows(e, p) && y in Rows(e, p) && x != y ==> e[x].order != e[y].order)
  }

  lemma {:induction false} SpreadOrdersGrow(e: Entries, p: nat, k: nat)
    requires Spread(e, p) && k < |Listing(e, p)|
    ensures e[Listing(e, p)[k]].order >= k
  {
    var s := Listing(e, p);
    if k > 0 {
      SpreadOrdersGrow(e, p, k - 1);
      assert Precedes(e, s[k - 1], s[k]);
      assert s[k - 1] in Rows(e, p) && s[k] in Rows(e, p);
    }
  }

  lemma {:induction false} SpreadStepsUp(e: Entries, p: nat, k: nat, m: nat)
    requires Spread(e, p) && k <= m < |Listing(e, p)|
    ensures e[Listing(e, p)[m]].order >= e[Listing(e, p)[k]].order + (m - k)
  {
    var s := Listing(e, p);
    if k < m {
      SpreadStepsUp(e, p, k, m - 1);
      assert Precedes(e, s[m - 1], s[m]);
      assert s[m - 1] in Rows(e, p) && s[m] in Rows(e, p);
    }
  }

  /** Orders that are all below the count are, when no two agree, exactly the dense ones. */
  lemma BelowCountIffDense(e: Entries, p: nat)
    requires Spread(e, p)
    ensures (forall x :: x in Rows(e, p) ==> e[x].order < |Rows(e, p)|) <==> Dense(e, p)
  {
    var s := Listing(e, p);
    if forall x :: x in Rows(e, p) ==> e[x].order < |Rows(e, p)| {
      forall k | 0 <= k < |s|
        ensures e[s[k]].order == k
      {
        SpreadOrdersGrow(e, p, k);
        SpreadStepsUp(e, p, k, |s| - 1);
        assert s[|s| - 1] in Rows(e, p);
      }
    }
    if Dense(e, p) {
      forall x | x in Rows(e, p)
        ensures e[x].order < |Rows(e, p)|
      {
        var k :| 0 <= k < |s| && s[k] == x;
      }
    }
  }

  /** The entry x is listed before a new one that was given the order `at` and the identifier id. */
  predicate StandsBefore(e: Entries, x: nat, at: int, id: nat)
    requires x in e
  {
    e[x].order < at || (e[x].order == at && x < id)
  }

  lemma AppendedIsSorted(e: Entries, p: nat, items: seq<nat>, ids: seq<nat>)
    requires |items| == |ids| && ids != [] && FreshIds(e, ids) && |Rows(e, p)| + |ids| <= INT32_LIMIT
    requires forall x :: x in Rows(e, p) ==> StandsBefore(e, x, |Rows(e, p)|, ids[0])
    ensures var f := AppendRows(e, p, |Rows(e, p)|, items, ids);
            Sorted(f, Rows(f, p), Listing(e, p) + ids)
  {
    var n, s, f := |Rows(e, p)|, Listing(e, p), AppendRows(e, p, |Rows(e, p)|, items, ids);
    AppendFacts(e, p, n, items, ids);
    forall k | 0 <= k < |s + ids|
      ensures (s + ids)[k] in Rows(f, p)
    {
      assert k < n ==> (s + ids)[k] == s[k] && s[k] in Rows(e, p);
      assert k >= n ==> (s + ids)[k] == ids[k - n];
    }
    forall j, k | 0 <= j < k < |s + ids|
      ensures Precedes(f, (s + ids)[j], (s + ids)[k])
    {
      if k < n {
        assert Precedes(e, s[j], s[k]);
      } else if j < n {
        assert s[j] in Rows(e, p) && StandsBefore(e, s[j], n, ids[0]);
      }
    }
  }

  /**
   What AddItems appends from any sort orders, gaps and ties included, is listed last and in order exactly
   when every entry there was stands before the first new one, which gets the count as its order.
   */
  lemma AppendLandsLastIff(e: Entries, p: nat, items: seq<nat>, ids: seq<nat>)
    requires |items| == |ids| && ids != [] && FreshIds(e, ids) && |Rows(e, p)| + |ids| <= INT32_LIMIT
    ensures Listing(AppendRows(e, p, |Rows(e, p)|, items, ids), p) == Listing(e, p) + ids <==>
            forall x :: x in Rows(e, p) ==> StandsBefore(e, x, |Rows(e, p)|, ids[0])
  {
    var n, s, f := |Rows(e, p)|, Listing(e, p), AppendRows(e, p, |Rows(e, p)|, items, ids);
    AppendFacts(e, p, n, items, ids);
    if Listing(f, p) == s + ids {
      forall x | x in Rows(e, p)
        ensures StandsBefore(e, x, n, ids[0])
      {
        var k :| 0 <= k < |s| && s[k] == x;
        assert (s + ids)[k] == x && (s + ids)[n] == ids[0];
        assert Precedes(f, x, ids[0]);
      }
    }
    if forall x :: x in Rows(e, p) ==> StandsBefore(e, x, n, ids[0]) {
      AppendedIsSorted(e, p, items, ids);
      SortedIsUnique(f, Rows(f, p), s + ids, Listing(f, p));
    }
  }

  /** Every entry there was stands before a new one with the count as its order. */
  ghost predicate AllStandBefore(e: Entries, p: nat, id: nat) {
    forall x :: x in Rows(e, p) ==> StandsBefore(e, x, |Rows(e, p)|, id)
  }

  /** With no two orders alike a gap is survived only by a tie that the drawn identifier happens to win. */
  lemma SpreadAppendsLastIff(e: Entries, p: nat, items: seq<nat>, ids: seq<nat>)
    requires Spread(e, p)
    requires |items| == |ids| && ids != [] && FreshIds(e, ids) && |Rows(e, p)| + |ids| <= INT32_LIMIT
    ensures Listing(AppendRows(e, p, |Rows(e, p)|, items, ids), p) == Listing(e, p) + ids <==>
            Dense(e, p) ||
            exists x :: x in Rows(e, p) && e[x].order == |Rows(e, p)| && x < ids[0] &&
                        forall y :: y in Rows(e, p) && y != x ==> e[y].order < |Rows(e, p)|
  {
    AppendLandsLastIff(e, p, items, ids);
    BelowCountIffDense(e, p);
  }

  // ---- the failing inputs -------------------------------------------------------------------------

  /** Three entries with the middle one's item deleted: the orders 0 and 2. */
  lemma CascadeLeavesGap(p: nat, a: nat, b: nat, c: nat, items: seq<nat>)
    requires |items| >= 3 && items[1] != items[0] && items[1] != items[2]
    requires a != b && b != c && a != c
    ensures var e: Entries := map[a := Entry(p, items[0], 0), b := Entry(p, items[1], 1), c := Entry(p, items[2], 2)];
            Numbered(e, p, [a, b, c]) && CascadeItem(e, items[1]) == map[a := Entry(p, items[0], 0), c := Entry(p, items[2], 2)]
  {
  }

  /** One more is added: it ties with the last entry and is listed before it when it drew the lower identifier. */
  lemma CascadeThenAddMisplaces(p: nat, a: nat, c: nat, d: nat, items: seq<nat>)
    requires |items| == 4 && a != c && d !in {a, c}
    ensures var f: Entries := map[a := Entry(p, items[0], 0), c := Entry(p, items[2], 2)];
            var g := AppendRows(f, p, |Rows(f, p)|, [items[3]], [d]);
            && !Dense(f, p) && c in g && d in g && g[c].order == g[d].order
            && Listing(f, p) == [a, c] && Listing(g, p) == if d < c then [a, d, c] else [a, c, d]
  {
    var f: Entries := map[a := Entry(p, items[0], 0), c := Entry(p, items[2], 2)];
    assert Rows(f, p) == {a, c};
    assert Sorted(f, Rows(f, p), [a, c]);
    SortedIsUnique(f, Rows(f, p), [a, c], Listing(f, p));
    var g := AppendRows(f, p, 2, [items[3]], [d]);
    AppendFacts(f, p, 2, [items[3]], [d]);
    assert [d][0] == d && g[d] == Entry(p, items[3], 2);
    assert Rows(g, p) == {a, c, d};
    var t := if d < c then [a, d, c] else [a, c, d];
    assert Sorted(g, Rows(g, p), t);
    SortedIsUnique(g, Rows(g, p), t, Listing(g, p));
  }

  // ---- moving from any sort orders ---------------------------------------------------------------

  /** The other entries that end up before the one moved to `to`. */
  function Ahead(e: Entries, p: nat, id: nat, to: int): set<nat>
    requires id in e
  {
    set y | y in Rows(e, p) && y != id && (e[y].order < to || (e[y].order == to && e[id].order < to))
  }

  lemma {:induction false} PrefixCount(s: seq<nat>, b: set<nat>)
    requires forall j, k :: 0 <= j < k < |s| ==> s[j] != s[k]
    requires forall x :: x in b ==> x in s
    requires forall j, k :: 0 <= j < k < |s| && s[k] in b ==> s[j] in b
    ensures |b| <= |s| && forall k :: 0 <= k < |s| ==> (s[k] in b <==> k < |b|)
  {
    if s == [] {
      assert b == {};
    } else {
      var n := |s| - 1;
      assert s == s[..n] + [s[n]];
      if s[n] in b {
        DistinctCount(s, b);
      } else {
        PrefixCount(s[..n], b);
        assert forall k :: 0 <= k < n ==> s[..n][k] == s[k];
      }
    }
  }

  lemma RemovedFacts(l: seq<nat>, i: nat)
    requires i < |l| && forall j, k :: 0 <= j < k < |l| ==> l[j] != l[k]
    ensures var s := RemoveAt(l, i);
            && |s| == |l| - 1
            && (forall k :: 0 <= k < |s| ==> s[k] == l[if k < i then k else k + 1])
            && (forall k :: 0 <= k < |s| ==> s[k] != l[i])
            && (forall x :: x in l && x != l[i] ==> x in s)
  {
    var s := RemoveAt(l, i);
    forall x | x in l && x != l[i]
      ensures x in s
    {
      var k :| 0 <= k < |l| && l[k] == x;
      assert s[if k < i then k else k - 1] == l[k];
    }
  }

  lemma RemovedSorted(e: Entries, ids: set<nat>, l: seq<nat>, i: nat)
    requires ids <= e.Keys && Sorted(e, ids, l) && i < |l|
    ensures l[i] !in RemoveAt(l, i) && Sorted(e, ids - {l[i]}, RemoveAt(l, i))
  {
    var s := RemoveAt(l, i);
    RemovedFacts(l, i);
    forall j, k | 0 <= j < k < |s|
      ensures Precedes(e, s[j], s[k])
    {
      assert Precedes(e, l[if j < i then j else j + 1], l[if k < i then k else k + 1]);
    }
  }

  /** The other entries in the order shown. */
  lemma OthersSorted(e: Entries, p: nat, id: nat) returns (s: seq<nat>)
    requires id in Rows(e, p)
    ensures s == RemoveAt(Listing(e, p), IndexOf(Listing(e, p), id)) && id !in s
    ensures Sorted(e, Rows(e, p) - {id}, s)
  {
    var l := Listing(e, p);
    RemovedSorted(e, Rows(e, p), l, IndexOf(l, id));
    s := RemoveAt(l, IndexOf(l, id));
  }

  /** The lower of the two orders a shift makes one: it closes the gap at the moved entry's order. */
  function Low(e: Entries, id: nat, to: int): int
    requires id in e
  {
    if to < e[id].order then e[id].order - 1 else e[id].order
  }

  /** The two orders become one and the identifiers disagree with the order shown so far. */
  predicate CrossingPair(e: Entries, id: nat, to: int, y: nat, z: nat)
    requires id in e && y in e && z in e
  {
    e[y].order == Low(e, id, to) && e[z].order == Low(e, id, to) + 1 && z < y
  }

  /** Two entries nobody moved change places. */
  ghost predicate Crosses(e: Entries, p: nat, id: nat, to: int) {
    id in e && exists y, z :: y in Rows(e, p) - {id} && z in Rows(e, p) - {id} && CrossingPair(e, id, to, y, z)
  }

  /** No other entry is left at the moved one's order: a move to the order it has changes nothing. */
  ghost predicate Clear(e: Entries, p: nat, id: nat, to: int) {
    id in e && (to == e[id].order ==> forall y :: y in Rows(e, p) && y != id ==> e[y].order != to)
  }

  lemma SpreadIsClear(e: Entries, p: nat, id: nat, to: int)
    requires Spread(e, p) && id in Rows(e, p)
    ensures Clear(e, p, id, to) && (to != e[id].order ==> !Crosses(e, p, id, to))
  {
  }

  /** Two other entries keep their order unless they are a crossing pair. */
  lemma MoveKeepsPairs(e: Entries, p: nat, id: nat, to: int, x: nat, y: nat)
    requires id in Rows(e, p) && x in Rows(e, p) - {id} && y in Rows(e, p) - {id}
    requires Precedes(e, x, y) && (to != e[id].order ==> !CrossingPair(e, id, to, x, y))
    ensures var f := MoveRow(e, p, id, to); x in f && y in f && Precedes(f, x, y)
  {
    MovedRow(e, p, id, to, x);
    MovedRow(e, p, id, to, y);
  }

  lemma MoveSetsApart(e: Entries, p: nat, id: nat, to: int, x: nat)
    requires Clear(e, p, id, to) && id in Rows(e, p) && x in Rows(e, p) - {id}
    ensures var f := MoveRow(e, p, id, to);
            x in f && id in f && if x in Ahead(e, p, id, to) then Precedes(f, x, id) else Precedes(f, id, x)
  {
    MovedRow(e, p, id, to, x);
    MovedRow(e, p, id, to, id);
  }

  lemma InsertedFacts(s: seq<nat>, i: nat, id: nat)
    requires i <= |s|
    ensures var t := InsertAt(s, i, id);
            && |t| == |s| + 1
            && (forall k :: 0 <= k < |t| ==> t[k] == if k < i then s[k] else if k == i then id else s[k - 1])
            && (forall x :: x in t <==> x in s || x == id)
  {
    var t := InsertAt(s, i, id);
    forall x | x in s
      ensures x in t
    {
      var k :| 0 <= k < |s| && s[k] == x;
      assert t[if k < i then k else k + 1] == x;
    }
    assert t[i] == id;
  }

  lemma InsertKeepsSorted(f: Entries, ids: set<nat>, s: seq<nat>, i: nat, id: nat)
    requires id in f && ids <= f.Keys && id !in ids && i <= |s| && Sorted(f, ids, s)
    requires forall k :: 0 <= k < i ==> Precedes(f, s[k], id)
    requires forall k :: i <= k < |s| ==> Precedes(f, id, s[k])
    ensures Sorted(f, ids + {id}, InsertAt(s, i, id))
  {
    var t := InsertAt(s, i, id);
    InsertedFacts(s, i, id);
    forall j, k | 0 <= j < k < |t|
      ensures t[j] in f && t[k] in f && Precedes(f, t[j], t[k])
    {
      if k < i {
        assert Precedes(f, s[j], s[k]);
      } else if k > i && j > i {
        assert Precedes(f, s[j - 1], s[k - 1]);
      } else if k > i && j < i {
        assert Precedes(f, s[j], s[k - 1]);
      }
    }
  }

  /** Among the others, shown as s, those ahead of the new place come first and all keep their order. */
  lemma OthersMoved(e: Entries, p: nat, id: nat, to: int, s: seq<nat>)
    requires Clear(e, p, id, to) && (to != e[id].order ==> !Crosses(e, p, id, to))
    requires id in Rows(e, p) && Sorted(e, Rows(e, p) - {id}, s)
    ensures var f := MoveRow(e, p, id, to);
            && f.Keys == e.Keys && Sorted(f, Rows(e, p) - {id}, s)
            && |Ahead(e, p, id, to)| <= |s|
            && (forall k :: 0 <= k < |s| ==> if k < |Ahead(e, p, id, to)| then Precedes(f, s[k], id) else Precedes(f, id, s[k]))
  {
    var f, ahead := MoveRow(e, p, id, to), Ahead(e, p, id, to);
    MoveKeepsOthers(e, p, id, to);
    forall j, k | 0 <= j < k < |s|
      ensures Precedes(f, s[j], s[k]) && (s[k] in ahead ==> s[j] in ahead)
    {
      assert Precedes(e, s[j], s[k]) && s[j] in Rows(e, p) - {id} && s[k] in Rows(e, p) - {id};
      MoveKeepsPairs(e, p, id, to, s[j], s[k]);
    }
    PrefixCount(s, ahead);
    forall k | 0 <= k < |s|
      ensures if k < |ahead| then Precedes(f, s[k], id) else Precedes(f, id, s[k])
    {
      assert s[k] in Rows(e, p) - {id};
      MoveSetsApart(e, p, id, to, s[k]);
    }
  }

  lemma InsertIsListing(f: Entries, p: nat, s: seq<nat>, n: nat, id: nat)
    requires id in Rows(f, p) && n <= |s| && Sorted(f, Rows(f, p) - {id}, s)
    requires forall k :: 0 <= k < |s| ==> if k < n then Precedes(f, s[k], id) else Precedes(f, id, s[k])
    ensures Listing(f, p) == InsertAt(s, n, id) && n < |Rows(f, p)|
  {
    InsertKeepsSorted(f, Rows(f, p) - {id}, s, n, id);
    assert Rows(f, p) - {id} + {id} == Rows(f, p);
    SortedIsUnique(f, Rows(f, p), InsertAt(s, n, id), Listing(f, p));
  }

  /** f shows what e shows with the entry taken out and put back behind those ahead of its new order. */
  ghost predicate ShownMoved(e: Entries, f: Entries, p: nat, id: nat, to: int) {
    && id in Rows(e, p) && |Ahead(e, p, id, to)| < |Listing(e, p)|
    && Listing(f, p) == InsertAt(RemoveAt(Listing(e, p), IndexOf(Listing(e, p), id)), |Ahead(e, p, id, to)|, id)
  }

  /** Where a move puts the entry when no pair crosses: behind the entries ahead of its new order. */
  lemma MoveLists(e: Entries, p: nat, id: nat, to: int)
    requires id in Rows(e, p) && Clear(e, p, id, to) && (to != e[id].order ==> !Crosses(e, p, id, to))
    ensures ShownMoved(e, MoveRow(e, p, id, to), p, id, to)
  {
    var f, n := MoveRow(e, p, id, to), |Ahead(e, p, id, to)|;
    var s := OthersSorted(e, p, id);
    OthersMoved(e, p, id, to, s);
    MoveKeepsOthers(e, p, id, to);
    InsertIsListing(f, p, s, n, id);
  }

  /** In particular when no two orders agree. */
  lemma SpreadMoveLists(e: Entries, p: nat, id: nat, to: int)
    requires Spread(e, p) && id in Rows(e, p)
    ensures ShownMoved(e, MoveRow(e, p, id, to), p, id, to)
  {
    SpreadIsClear(e, p, id, to);
    MoveLists(e, p, id, to);
  }

  /** Ties or not, the moved entry itself always ends up right behind those ahead of its new order. */
  lemma MovedEntryLands(e: Entries, p: nat, id: nat, to: int)
    requires id in Rows(e, p) && Clear(e, p, id, to)
    ensures var f, n := MoveRow(e, p, id, to), |Ahead(e, p, id, to)|;
            id in Rows(f, p) && n < |Listing(f, p)| && Listing(f, p)[n] == id
  {
    var f, ahead := MoveRow(e, p, id, to), Ahead(e, p, id, to);
    MoveKeepsOthers(e, p, id, to);
    var s := OthersSorted(f, p, id);
    forall k | 0 <= k < |s|
      ensures s[k] in Rows(e, p) - {id} && if s[k] in ahead then Precedes(f, s[k], id) else Precedes(f, id, s[k])
    {
      assert s[k] in Rows(f, p) - {id};
      MoveSetsApart(e, p, id, to, s[k]);
    }
    forall j, k | 0 <= j < k < |s| && s[k] in ahead
      ensures s[j] in ahead
    {
      assert Precedes(f, s[j], s[k]);
    }
    PrefixCount(s, ahead);
    InsertIsListing(f, p, s, |ahead|, id);
    InsertedFacts(s, |ahead|, id);
  }

  /** f shows what e shows with the entry taken out and put back at index `to`. */
  ghost predicate RemovedAndInserted(e: Entries, f: Entries, p: nat, id: nat, to: nat) {
    && id in Rows(e, p) && to < |Listing(e, p)|
    && Listing(f, p) == InsertAt(RemoveAt(Listing(e, p), IndexOf(Listing(e, p), id)), to, id)
  }

  /**
   The condition: an entry that has the order asked for is where it is; any other has as many entries ahead
   of its new order as its new index says, and no pair crosses.
   */
  ghost predicate MovesExactly(e: Entries, p: nat, id: nat, to: nat) {
    && id in Rows(e, p)
    && if to == e[id].order then IndexOf(Listing(e, p), id) == to
       else |Ahead(e, p, id, to)| == to && !Crosses(e, p, id, to)
  }

  /** A crossing pair is shown the other way round after the move. */
  lemma CrossingPairSwaps(e: Entries, p: nat, id: nat, to: int, y: nat, z: nat)
    requires id in Rows(e, p) && y in Rows(e, p) - {id} && z in Rows(e, p) - {id}
    requires to != e[id].order && CrossingPair(e, id, to, y, z)
    ensures var f := MoveRow(e, p, id, to); Precedes(e, y, z) && y in f && z in f && !Precedes(f, y, z)
  {
    MovedRow(e, p, id, to, y);
    MovedRow(e, p, id, to, z);
  }

  lemma InsertKeepsPlaces(s: seq<nat>, i: nat, id: nat, j: nat, k: nat) returns (m: nat, n: nat)
    requires i <= |s| && j < k < |s|
    ensures var t := InsertAt(s, i, id); m < n < |t| && t[m] == s[j] && t[n] == s[k]
  {
    InsertedFacts(s, i, id);
    m, n := if j < i then j else j + 1, if k < i then k else k + 1;
  }

  lemma SortedPlaces(e: Entries, ids: set<nat>, s: seq<nat>, y: nat, z: nat) returns (j: nat, k: nat)
    requires ids <= e.Keys && Sorted(e, ids, s) && y in ids && z in ids && Precedes(e, y, z)
    ensures j < k < |s| && s[j] == y && s[k] == z
  {
    j :| j < |s| && s[j] == y;
    k :| k < |s| && s[k] == z;
    assert k < j ==> Precedes(e, s[k], s[j]);
  }

  lemma ListedInOrder(f: Entries, p: nat, t: seq<nat>, m: nat, n: nat)
    requires Listing(f, p) == t && m < n < |t|
    ensures t[m] in f && t[n] in f && Precedes(f, t[m], t[n])
  {
  }

  lemma InsertedKeepsOrder(e: Entries, f: Entries, p: nat, id: nat, to: nat, y: nat, z: nat)
    requires RemovedAndInserted(e, f, p, id, to) && y in Rows(e, p) - {id} && z in Rows(e, p) - {id} && Precedes(e, y, z)
    ensures y in f && z in f && Precedes(f, y, z)
  {
    var s := OthersSorted(e, p, id);
    var j, k := SortedPlaces(e, Rows(e, p) - {id}, s, y, z);
    var m, n := InsertKeepsPlaces(s, to, id, j, k);
    ListedInOrder(f, p, InsertAt(s, to, id), m, n);
  }

  lemma CrossedIsNotInserted(e: Entries, p: nat, id: nat, to: nat)
    requires id in Rows(e, p) && to != e[id].order && Crosses(e, p, id, to)
    ensures !RemovedAndInserted(e, MoveRow(e, p, id, to), p, id, to)
  {
    var y, z :| y in Rows(e, p) - {id} && z in Rows(e, p) - {id} && CrossingPair(e, id, to, y, z);
    CrossingPairSwaps(e, p, id, to, y, z);
    if RemovedAndInserted(e, MoveRow(e, p, id, to), p, id, to) {
      InsertedKeepsOrder(e, MoveRow(e, p, id, to), p, id, to, y, z);
    }
  }

  /** From any sort orders a move is remove then insert exactly under that condition. */
  lemma MoveRefinesIff(e: Entries, p: nat, id: nat, to: nat)
    requires id in Rows(e, p) && to < |Rows(e, p)|
    ensures RemovedAndInserted(e, MoveRow(e, p, id, to), p, id, to) <==> MovesExactly(e, p, id, to)
  {
    var s := OthersSorted(e, p, id);
    if to == e[id].order {
      PutBack(Listing(e, p), IndexOf(Listing(e, p), id));
      InsertedOnce(s, IndexOf(Listing(e, p), id), to, id);
    } else if Crosses(e, p, id, to) {
      CrossedIsNotInserted(e, p, id, to);
    } else {
      MoveLists(e, p, id, to);
      InsertedOnce(s, |Ahead(e, p, id, to)|, to, id);
    }
  }

  lemma PutBack(l: seq<nat>, i: nat)
    requires i < |l|
    ensures InsertAt(RemoveAt(l, i), i, l[i]) == l
  {
  }

  /** When no two orders agree, counting the entries ahead decides alone. */
  lemma SpreadMoveRefinesIff(e: Entries, p: nat, id: nat, to: nat)
    requires Spread(e, p) && id in Rows(e, p) && to < |Rows(e, p)|
    ensures RemovedAndInserted(e, MoveRow(e, p, id, to), p, id, to) <==> |Ahead(e, p, id, to)| == to
  {
    var s := OthersSorted(e, p, id);
    SpreadMoveLists(e, p, id, to);
    InsertedOnce(s, |Ahead(e, p, id, to)|, to, id);
  }

  /** All that a move shows: on a dense playlist, with gaps, and from any sort orders. */
  ghost predicate MoveShown(e: Entries, f: Entries, p: nat, id: nat, to: nat) {
    && (Dense(e, p) ==> MovedDensely(e, f, p, id, to))
    && (Spread(e, p) ==> ShownMoved(e, f, p, id, to))
    && (RemovedAndInserted(e, f, p, id, to) <==> MovesExactly(e, p, id, to))
  }

  lemma MoveShows(e: Entries, p: nat, id: nat, to: nat)
    requires id in Rows(e, p) && to < |Rows(e, p)|
    ensures MoveShown(e, MoveRow(e, p, id, to), p, id, to)
  {
    if Dense(e, p) {
      MoveRefines(e, p, id, to);
    }
    if Spread(e, p) {
      SpreadMoveLists(e, p, id, to);
    }
    MoveRefinesIff(e, p, id, to);
  }

  lemma InsertedOnce(s: seq<nat>, i: nat, j: nat, id: nat)
    requires i <= |s| && j <= |s| && id !in s
    ensures InsertAt(s, i, id) == InsertAt(s, j, id) <==> i == j
  {
    if i < j {
      assert InsertAt(s, i, id)[i] == id && InsertAt(s, j, id)[i] == s[i];
    } else if j < i {
      assert InsertAt(s, j, id)[j] == id && InsertAt(s, i, id)[j] == s[j];
    }
  }

  /** After the cascade, moving the first of the two entries to index 1 leaves the listing as it was. */
  lemma CascadeThenMoveStays(p: nat, a: nat, c: nat, items: seq<nat>)
    requires |items| == 3 && a != c
    ensures var f: Entries := map[a := Entry(p, items[0], 0), c := Entry(p, items[2], 2)];
            Listing(f, p) == [a, c] && Listing(MoveRow(f, p, a, 1), p) == [a, c]
  {
    var f: Entries := map[a := Entry(p, items[0], 0), c := Entry(p, items[2], 2)];
    var g := MoveRow(f, p, a, 1);
    assert Rows(f, p) == {a, c} && Rows(g, p) == {a, c};
    assert Sorted(f, Rows(f, p), [a, c]) && Sorted(g, Rows(g, p), [a, c]);
    SortedIsUnique(f, Rows(f, p), [a, c], Listing(f, p));
    SortedIsUnique(g, Rows(g, p), [a, c], Listing(g, p));
  }

  lemma FourListed(g: Entries, p: nat, a: nat, b: nat, c: nat, d: nat)
    requires g.Keys == {a, b, c, d} && forall x :: x in g ==> g[x].playlist == p
    requires Precedes(g, a, b) && Precedes(g, b, c) && Precedes(g, c, d)
    ensures Listing(g, p) == [a, b, c, d]
  {
    assert Rows(g, p) == {a, b, c, d};
    assert Sorted(g, Rows(g, p), [a, b, c, d]);
    SortedIsUnique(g, Rows(g, p), [a, b, c, d], Listing(g, p));
  }

  /** The rows after two additions to the orders 0 and 2: the additions get 2 and 3. */
  function TwoAdded(p: nat, a: nat, y: nat, b: nat, z: nat, items: seq<nat>): Entries
    requires |items| == 4
  {
    map[a := Entry(p, items[0], 0), y := Entry(p, items[1], 2), b := Entry(p, items[2], 2), z := Entry(p, items[3], 3)]
  }

  lemma TwoAreAdded(p: nat, a: nat, y: nat, b: nat, z: nat, items: seq<nat>)
    requires |items| == 4 && z < y < b && a !in {y, b, z}
    ensures var f: Entries := map[a := Entry(p, items[0], 0), y := Entry(p, items[1], 2)];
            AppendRows(f, p, |Rows(f, p)|, [items[2], items[3]], [b, z]) == TwoAdded(p, a, y, b, z, items)
  {
    var f: Entries := map[a := Entry(p, items[0], 0), y := Entry(p, items[1], 2)];
    assert Rows(f, p) == {a, y};
    AppendFacts(f, p, 2, [items[2], items[3]], [b, z]);
    assert [b, z][0] == b && [b, z][1] == z;
  }

  /**
   Two entries left at 0 and 2 by the cascade, then two added. When the later addition drew the lowest
   identifier, moving the first addition to the end lets two entries nobody moved change places.
   */
  lemma CascadeThenMoveCrosses(p: nat, a: nat, y: nat, b: nat, z: nat, items: seq<nat>)
    requires |items| == 4 && z < y < b && a !in {y, b, z}
    ensures var g := TwoAdded(p, a, y, b, z, items);
            && Listing(g, p) == [a, y, b, z] && |Ahead(g, p, b, 3)| == 3
            && Listing(MoveRow(g, p, b, 3), p) == [a, z, y, b]
  {
    var g := TwoAdded(p, a, y, b, z, items);
    FourListed(g, p, a, y, b, z);
    assert Ahead(g, p, b, 3) == {a, y, z};
    var h := MoveRow(g, p, b, 3);
    assert h == map[a := Entry(p, items[0], 0), y := Entry(p, items[1], 2), b := Entry(p, items[2], 3), z := Entry(p, items[3], 2)];
    FourListed(h, p, a, z, y, b);
  }
}
