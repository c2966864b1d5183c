/** The playlist service over its tables. Each method is one transaction: refused, it changes nothing. */
module Playlists {
  import opened Options
  import opened Int32s
  import opened PlaylistRows
  import opened Expansion

  datatype Refusal = NoPlaylist | NoEntry | IndexOutside | SharesRefused

  lemma {:induction false} UnusedId(ids: set<nat>) returns (id: nat)
    ensures id !in ids && forall x :: x in ids ==> x < id
  {
    id := 0;
    var left := ids;
    while left != {}
      invariant left <= ids && forall x :: x in ids && x !in left ==> x < id
      decreases left
    {
      var y :| y in left;
      id, left := if id <= y then y + 1 else id, left - {y};
    }
  }

  class Service {
    var entries: Entries
    /** playlists.item_id is unique: the playlist of a playlist item. */
    var playlistOf: map<nat, nat>

    /** INSERT with a drawn identifier, one row an item. */
    method AppendEntries(p: nat, from: int, items: seq<nat>) returns (ids: seq<nat>)
      modifies this`entries
      ensures |ids| == |items| && FreshIds(old(entries), ids)
      ensures entries == AppendRows(old(entries), p, from, items, ids)
    {
      ghost var before := entries;
      ids := [];
      for offset := 0 to |items|
        invariant |ids| == offset && FreshIds(before, ids)
        invariant entries == AppendRows(before, p, from, items[..offset], ids)
      {
        ghost var unused := UnusedId(entries.Keys);
        var id :| id !in entries;
        AppendOne(before, p, from, items[..offset], ids, items[offset], id);
        assert items[..offset + 1] == items[..offset] + [items[offset]];
        entries := entries[id := Entry(p, items[offset], Int32(from + offset))];
        ids := ids + [id];
      }
      assert items[..|items|] == items;
    }

    /** SELECT ... ORDER BY sort_order, id. */
    method OrderedEntries(p: nat) returns (s: seq<nat>)
      ensures s == Listing(entries, p)
    {
      s := [];
      var left := Rows(entries, p);
      while left != {}
        invariant left <= Rows(entries, p)
        invariant forall x :: x in Rows(entries, p) <==> x in s || x in left
        invariant forall k :: 0 <= k < |s| ==> s[k] in Rows(entries, p) && forall x :: x in left ==> Precedes(entries, s[k], x)
        invariant forall j, k :: 0 <= j < k < |s| ==> Precedes(entries, s[j], s[k])
        decreases left
      {
        ghost var first := FirstExists(entries, left);
        assert First(entries, left, first);
        var m :| m in left && forall x :: x in left ==> x == m || Precedes(entries, m, x);
        s, left := s + [m], left - {m};
      }
      SortedIsUnique(entries, Rows(entries, p), s, Listing(entries, p));
    }

    method RenumberEntries(s: seq<nat>)
      requires forall k :: 0 <= k < |s| ==> s[k] in entries
      modifies this`entries
      ensures entries == Renumber(old(entries), s)
    {
      var rows := entries;
      for index := 0 to |s|
        invariant entries == Renumber(rows, s[..index])
      {
        assert s[..index + 1][..index] == s[..index];
        if rows[s[index]].order != index {
          entries := entries[s[index] := entries[s[index]].(order := Int32(index))];
        }
      }
      assert s[..|s|] == s;
    }

    /** A new playlist holds the expansion of the items asked for, in order. */
    method Create(item: nat, p: nat, library: Shelf, ghost height: nat -> nat, requested: seq<nat>, sharesAccepted: bool)
      returns (refused: Option<Refusal>, ghost ids: seq<nat>)
      requires library.Answered() && library.Graded(height) && library.Covers(height, requested)
      requires item !in playlistOf && Rows(entries, p) == {}
      modifies this
      ensures refused == if sharesAccepted then None else Some(SharesRefused)
      ensures refused.Some? ==> entries == old(entries) && playlistOf == old(playlistOf)
      ensures refused.None? ==> playlistOf == old(playlistOf)[item := p]
      ensures refused.None? ==> |ids| == |library.Expanded(height, requested)| && FreshIds(old(entries), ids)
      ensures refused.None? ==> entries == AppendRows(old(entries), p, 0, library.Expanded(height, requested), ids)
      ensures refused.None? && |ids| <= INT32_LIMIT ==>
                Listing(entries, p) == ids && Dense(entries, p) && OthersUntouched(old(entries), entries, p)
    {
      var saved, savedOf := entries, playlistOf;
      playlistOf := playlistOf[item := p];
      var expanded := library.Expand(requested, height);
      ids := AppendEntries(p, 0, expanded);
      if !sharesAccepted {
        entries, playlistOf := saved, savedOf;
        return Some(SharesRefused), ids;
      }
      refused := None;
      if |ids| <= INT32_LIMIT {
        assert Listing(saved, p) == [];
        AppendRefines(saved, p, expanded, ids);
      }
    }

    /** Appends after every entry of a dense playlist. */
    method AddItems(item: nat, library: Shelf, ghost height: nat -> nat, requested: seq<nat>)
      returns (refused: Option<Refusal>, ghost ids: seq<nat>)
      requires library.Answered() && library.Graded(height) && library.Covers(height, requested)
      modifies this`entries
      ensures refused == if item in playlistOf then None else Some(NoPlaylist)
      ensures refused.Some? ==> entries == old(entries)
      ensures refused.None? ==> |ids| == |library.Expanded(height, requested)| && FreshIds(old(entries), ids)
      ensures refused.None? ==> entries == AppendRows(old(entries), playlistOf[item], |Rows(old(entries), playlistOf[item])|, library.Expanded(height, requested), ids)
      ensures refused.None? && Dense(old(entries), playlistOf[item]) && |Rows(old(entries), playlistOf[item])| + |ids| <= INT32_LIMIT ==>
                var p := playlistOf[item];
                Listing(entries, p) == Listing(old(entries), p) + ids && Dense(entries, p) && OthersUntouched(old(entries), entries, p)
      ensures refused.None? && ids != [] && |Rows(old(entries), playlistOf[item])| + |ids| <= INT32_LIMIT ==>
                (Listing(entries, playlistOf[item]) == Listing(old(entries), playlistOf[item]) + ids <==>
                 AllStandBefore(old(entries), playlistOf[item], ids[0]))
    {
      ids := [];
      if item !in playlistOf {
        return Some(NoPlaylist), ids;
      }
      var p := playlistOf[item];
      ghost var before := entries;
      var count := |Rows(entries, p)|;
      var expanded := library.Expand(requested, height);
      ids := AppendEntries(p, count, expanded);
      if Dense(before, p) && count + |ids| <= INT32_LIMIT {
        AppendRefines(before, p, expanded, ids);
      }
      if ids != [] && count + |ids| <= INT32_LIMIT {
        AppendLandsLastIff(before, p, expanded, ids);
      }
      refused := None;
    }

    /** Whatever the sort orders were, the survivors keep their order and are dense again. */
    method RemoveEntries(item: nat, gone: seq<nat>) returns (refused: Option<Refusal>)
      modifies this`entries
      ensures refused == if item in playlistOf then None else Some(NoPlaylist)
      ensures refused.Some? ==> entries == old(entries)
      ensures refused.None? ==> entries == RemoveRows(old(entries), playlistOf[item], gone)
      ensures refused.None? && |Rows(old(entries), playlistOf[item])| <= INT32_LIMIT ==>
                var p := playlistOf[item];
                Listing(entries, p) == Keep(Listing(old(entries), p), gone) && Dense(entries, p) && OthersUntouched(old(entries), entries, p)
    {
      if item !in playlistOf {
        return Some(NoPlaylist);
      }
      var p := playlistOf[item];
      ghost var before := entries;
      entries := DropRows(entries, p, gone);
      var rows := OrderedEntries(p);
      RenumberEntries(rows);
      if |Rows(before, p)| <= INT32_LIMIT {
        RemoveRefines(before, p, gone);
      }
      refused := None;
    }

    /** UPDATE the range between the two places by one, then the entry itself. */
    method ShiftAndPlace(p: nat, id: nat, to: int)
      requires id in entries
      modifies this`entries
      ensures entries == MoveRow(old(entries), p, id, to)
    {
      var from := entries[id].order;
      if from == to {
        return;
      }
      if to < from {
        entries := Shift(entries, p, to, from - 1, 1);
      } else {
        entries := Shift(entries, p, from + 1, to, -1);
      }
      entries := entries[id := entries[id].(order := to)];
    }

    /** Range shift, then place: on a dense playlist, remove and insert. */
    method MoveEntry(item: nat, id: nat, newIndex: int) returns (refused: Option<Refusal>)
      requires item in playlistOf ==> |Rows(entries, playlistOf[item])| <= INT32_LIMIT
      modifies this`entries
      ensures refused ==
              if item !in playlistOf then Some(NoPlaylist)
              else if newIndex < 0 || newIndex >= |Rows(old(entries), playlistOf[item])| then Some(IndexOutside)
              else if id !in Rows(old(entries), playlistOf[item]) then Some(NoEntry)
              else None
      ensures refused.Some? ==> entries == old(entries)
      ensures refused.None? ==> entries == MoveRow(old(entries), playlistOf[item], id, newIndex)
      ensures refused.None? ==> MoveShown(old(entries), entries, playlistOf[item], id, newIndex)
    {
      if item !in playlistOf {
        return Some(NoPlaylist);
      }
      var p := playlistOf[item];
      ghost var before := entries;
      if newIndex < 0 || newIndex >= |Rows(entries, p)| {
        return Some(IndexOutside);
      }
      if id !in entries || entries[id].playlist != p {
        return Some(NoEntry);
      }
      MoveShows(before, p, id, newIndex);
      ShiftAndPlace(p, id, Int32(newIndex));
      refused := None;
    }

    /** With items given, the playlist becomes their expansion; refused shares roll that back. */
    method Update(item: nat, library: Shelf, ghost height: nat -> nat, requested: Option<seq<nat>>, sharesAccepted: bool)
      returns (refused: Option<Refusal>, ghost ids: seq<nat>)
      requires library.Answered() && library.Graded(height) && (requested.Some? ==> library.Covers(height, requested.value))
      modifies this`entries
      ensures refused == if item !in playlistOf then Some(NoPlaylist) else if !sharesAccepted then Some(SharesRefused) else None
      ensures refused.Some? || requested.None? ==> entries == old(entries)
      ensures refused.None? && requested.Some? ==>
                && |ids| == |library.Expanded(height, requested.value)| && FreshIds(ClearRows(old(entries), playlistOf[item]), ids)
                && entries == AppendRows(ClearRows(old(entries), playlistOf[item]), playlistOf[item], 0, library.Expanded(height, requested.value), ids)
      ensures refused.None? && requested.Some? && |ids| <= INT32_LIMIT ==>
                Listing(entries, playlistOf[item]) == ids && Dense(entries, playlistOf[item])
    {
      ids := [];
      if item !in playlistOf {
        return Some(NoPlaylist), ids;
      }
      var p, saved := playlistOf[item], entries;
      if requested.Some? {
        var expanded := library.Expand(requested.value, height);
        entries := ClearRows(entries, p);
        ids := AppendEntries(p, 0, expanded);
        ClearedIsEmpty(saved, p);
        if |ids| <= INT32_LIMIT {
          AppendRefines(ClearRows(saved, p), p, expanded, ids);
        }
      }
      if !sharesAccepted {
        entries := saved;
        return Some(SharesRefused), ids;
      }
      refused := None;
    }
  }
}
