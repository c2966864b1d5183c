/** Turning the items a client adds to a playlist into the playable items beneath them. */
module Expansion {
  import opened Options
  import opened Tables

  /** What the queries read of an item; `weight` is the place of its sort name in the database's collation. */
  datatype Row = Row(kind: Kind, parent: Option<nat>, index: Option<int>, weight: int)

  predicate IsFolder(kind: Kind) {
    kind in {Series, Season, Folder, CollectionFolder, BoxSet, PlaylistsFolder, UserRootFolder}
  }

  /** ORDER BY index_number NULLS LAST, sort_name; rows that tie may come either way. */
  predicate NotAfter(a: Row, b: Row) {
    match (a.index, b.index)
    case (Some(i), Some(j)) => i < j || (i == j && a.weight <= b.weight)
    case (Some(_), None) => true
    case (None, Some(_)) => false
    case (None, None) => a.weight <= b.weight
  }

  /** Row a has to come before row b: by index number, the rows without one last, and by sort name among equals. */
  predicate SortsFirst(a: Row, b: Row) {
    || (a.index.Some? && b.index.Some? && a.index.value < b.index.value)
    || (a.index.Some? && b.index.None?)
    || (a.index == b.index && a.weight < b.weight)
  }

  /** So any two rows can be put in order, and all answers can be. */
  lemma NotAfterIsTheOrder(a: Row, b: Row, c: Row)
    ensures NotAfter(a, b) <==> !SortsFirst(b, a)
    ensures NotAfter(a, b) || NotAfter(b, a)
    ensures NotAfter(a, b) && NotAfter(b, c) ==> NotAfter(a, c)
  {
  }

  /** The items and, for each, the answer of the query for its children. */
  datatype Shelf = Shelf(items: map<nat, Row>, answers: map<nat, seq<nat>>) {
    function Kids(id: nat): seq<nat> {
      if id in answers then answers[id] else []
    }

    /** Each answer lists exactly the item's children. */
    ghost predicate Answered() {
      forall f: nat, c :: c in Kids(f) <==> c in items && items[c].parent == Some(f)
    }

    /** Each answer lists a child once and in the order asked for. */
    ghost predicate Ordered() {
      && (forall f: nat, j, k :: 0 <= j < k < |Kids(f)| ==> Kids(f)[j] != Kids(f)[k])
      && (forall f: nat, j, k :: 0 <= j < k < |Kids(f)| && Kids(f)[j] in items && Kids(f)[k] in items ==>
            NotAfter(items[Kids(f)[j]], items[Kids(f)[k]]))
    }

    predicate FolderRow(id: nat) {
      id in items && IsFolder(items[id].kind)
    }

    /** Where folders have a height at all, the folders under them have a smaller one. */
    ghost predicate Graded(height: nat -> nat) {
      forall f: nat, c :: FolderRow(f) && height(f) > 0 && c in Kids(f) && FolderRow(c) ==> 0 < height(c) < height(f)
    }

    /** If it is a folder, it has a height. */
    predicate Measured(height: nat -> nat, id: nat) {
      FolderRow(id) ==> height(id) > 0
    }

    ghost predicate Covers(height: nat -> nat, ids: seq<nat>) {
      forall id :: id in ids ==> Measured(height, id)
    }

    /** The leaves under the first n children of f, depth first. */
    ghost function Under(height: nat -> nat, f: nat, n: nat): seq<nat>
      requires Graded(height) && FolderRow(f) && height(f) > 0 && n <= |Kids(f)|
      decreases height(f), n
    {
      if n == 0 then []
      else
        var c := Kids(f)[n - 1];
        Under(height, f, n - 1) + if FolderRow(c) then Under(height, c, |Kids(c)|) else [c]
    }

    ghost function Leaves(height: nat -> nat, id: nat): seq<nat>
      requires Graded(height) && Measured(height, id)
    {
      if id !in items then []
      else if FolderRow(id) then Under(height, id, |Kids(id)|)
      else [id]
    }

    ghost function Expanded(height: nat -> nat, ids: seq<nat>): seq<nat>
      requires Graded(height) && Covers(height, ids)
    {
      if ids == [] then [] else Leaves(height, ids[0]) + Expanded(height, ids[1..])
    }

    method Descendants(f: nat, ghost height: nat -> nat) returns (expanded: seq<nat>)
      requires Answered() && Graded(height) && FolderRow(f) && height(f) > 0
      ensures expanded == Under(height, f, |Kids(f)|)
      decreases height(f)
    {
      var children := Kids(f);
      expanded := [];
      for n := 0 to |children|
        invariant expanded == Under(height, f, n)
      {
        var child := children[n];
        assert child in Kids(f);
        if !IsFolder(items[child].kind) {
          expanded := expanded + [child];
        } else {
          var nested := Descendants(child, height);
          expanded := expanded + nested;
        }
      }
    }

    method LeavesOf(id: nat, ghost height: nat -> nat) returns (found: seq<nat>)
      requires Answered() && Graded(height) && Measured(height, id)
      ensures found == Leaves(height, id)
    {
      if id !in items {
        return [];
      }
      if !IsFolder(items[id].kind) {
        return [id];
      }
      found := Descendants(id, height);
    }

    method Expand(ids: seq<nat>, ghost height: nat -> nat) returns (expanded: seq<nat>)
      requires Answered() && Graded(height) && Covers(height, ids)
      ensures expanded == Expanded(height, ids)
    {
      expanded := [];
      for n := 0 to |ids|
        invariant expanded + Expanded(height, ids[n..]) == Expanded(height, ids)
      {
        var found := LeavesOf(ids[n], height);
        ghost var rest := Expanded(height, ids[n + 1..]);
        assert ids[n..][1..] == ids[n + 1..] && Expanded(height, ids[n..]) == found + rest;
        assert expanded + (found + rest) == (expanded + found) + rest;
        expanded := expanded + found;
      }
    }
  }

  // ---- when the recursion returns -----------------------------------------------------------------

  /** descendants returns from the folder within d nested calls; for anything else there is no call. */
  ghost predicate Returns(s: Shelf, d: nat, id: nat) {
    s.FolderRow(id) ==> d > 0 && forall c :: c in s.Kids(id) ==> Returns(s, d - 1, c)
  }

  ghost predicate AllReturn(s: Shelf, d: nat, ids: seq<nat>) {
    forall id :: id in ids ==> Returns(s, d, id)
  }

  /** The expansion of the items asked for returns. */
  ghost predicate ReturnsFrom(s: Shelf, ids: seq<nat>) {
    exists d: nat :: AllReturn(s, d, ids)
  }

  /** Folders one below the other. */
  ghost predicate Chain(s: Shelf, way: seq<nat>) {
    && (forall k :: 0 <= k < |way| ==> s.FolderRow(way[k]))
    && forall k :: 0 <= k < |way| - 1 ==> way[k + 1] in s.Kids(way[k])
  }

  /** A folder reached from the items asked for lies below itself. */
  ghost predicate Loops(s: Shelf, ids: seq<nat>, way: seq<nat>, j: nat, k: nat) {
    Chain(s, way) && j < k < |way| && way[0] in ids && way[j] == way[k]
  }

  lemma {:induction false} ReturnsDeeper(s: Shelf, d: nat, e: nat, id: nat)
    requires Returns(s, d, id) && d <= e
    ensures Returns(s, e, id)
    decreases d
  {
    if s.FolderRow(id) {
      forall c | c in s.Kids(id)
        ensures Returns(s, e - 1, c)
      {
        ReturnsDeeper(s, d - 1, e - 1, c);
      }
    }
  }

  /** A call that returns within d has no chain of more than d folders below it. */
  lemma {:induction false} ReturnsAlong(s: Shelf, d: nat, way: seq<nat>, k: nat)
    requires Chain(s, way) && k < |way| && Returns(s, d, way[0])
    ensures k < d && Returns(s, d - k, way[k])
  {
    if k > 0 {
      ReturnsAlong(s, d, way, k - 1);
      assert way[k - 1 + 1] in s.Kids(way[k - 1]);
    }
    assert s.FolderRow(way[k]);
  }

  lemma {:induction false} LoopNeverReturns(s: Shelf, d: nat, way: seq<nat>, j: nat, k: nat)
    requires Chain(s, way) && j < k < |way| && way[j] == way[k]
    ensures !Returns(s, d, way[j])
    decreases d
  {
    if Returns(s, d, way[j]) {
      var tail := way[j..];
      forall n | 0 <= n < |tail| - 1
        ensures tail[n + 1] in s.Kids(tail[n])
      {
        assert way[j + n + 1] in s.Kids(way[j + n]);
      }
      ReturnsAlong(s, d, tail, k - j);
      LoopNeverReturns(s, d - (k - j), way, j, k);
    }
  }

  /** A call that does not return within d starts a chain of d + 1 folders. */
  lemma {:induction false} LongChain(s: Shelf, d: nat, id: nat) returns (way: seq<nat>)
    requires !Returns(s, d, id)
    ensures |way| == d + 1 && way[0] == id && Chain(s, way)
  {
    if d == 0 {
      way := [id];
    } else {
      var c :| c in s.Kids(id) && !Returns(s, d - 1, c);
      var rest := LongChain(s, d - 1, c);
      way := [id] + rest;
      forall k | 0 <= k < |way| - 1
        ensures way[k + 1] in s.Kids(way[k])
      {
        assert k > 0 ==> way[k] == rest[k - 1] && way[k + 1] == rest[k] && rest[k - 1 + 1] in s.Kids(rest[k - 1]);
      }
    }
  }

  /** A sequence longer than the set it draws from repeats an element. */
  lemma {:induction false} Repeats(way: seq<nat>, from: set<nat>) returns (j: nat, k: nat)
    requires |way| > |from| && forall n :: 0 <= n < |way| ==> way[n] in from
    ensures j < k < |way| && way[j] == way[k]
  {
    var last := |way| - 1;
    if way[last] in way[..last] {
      j :| 0 <= j < last && way[..last][j] == way[last];
      k := last;
    } else {
      forall n | 0 <= n < last
        ensures way[..last][n] in from - {way[last]}
      {
        assert way[n] in from && way[..last][n] in way[..last];
      }
      j, k := Repeats(way[..last], from - {way[last]});
    }
  }

  lemma NoLoopReturns(s: Shelf, ids: seq<nat>, id: nat)
    requires id in ids && !Returns(s, |s.items|, id)
    ensures exists way, j: nat, k: nat :: Loops(s, ids, way, j, k)
  {
    var way := LongChain(s, |s.items|, id);
    forall n | 0 <= n < |way|
      ensures way[n] in s.items.Keys
    {
      assert s.FolderRow(way[n]);
    }
    assert |s.items.Keys| == |s.items|;
    var j, k := Repeats(way, s.items.Keys);
    assert Loops(s, ids, way, j, k);
  }

  /** The expansion returns exactly when no folder it reaches lies below itself. */
  lemma ReturnsIffNoLoop(s: Shelf, ids: seq<nat>)
    ensures ReturnsFrom(s, ids) <==> !exists way, j: nat, k: nat :: Loops(s, ids, way, j, k)
  {
    if ReturnsFrom(s, ids) {
      var d: nat :| AllReturn(s, d, ids);
      forall way, j: nat, k: nat
        ensures !Loops(s, ids, way, j, k)
      {
        if Loops(s, ids, way, j, k) {
          ReturnsAlong(s, d, way, j);
          LoopNeverReturns(s, d - j, way, j, k);
        }
      }
    } else {
      assert !AllReturn(s, |s.items|, ids);
      var id :| id in ids && !Returns(s, |s.items|, id);
      NoLoopReturns(s, ids, id);
    }
  }

  /** The least number of nested calls a folder needs; 0 for what is no folder or never returns. */
  ghost function Depth(s: Shelf, id: nat): (d: nat)
    ensures s.FolderRow(id) && (exists e: nat :: Returns(s, e, id)) ==> d > 0 && Returns(s, d, id)
    ensures d > 0 ==> Returns(s, d, id) && !Returns(s, d - 1, id)
  {
    if s.FolderRow(id) && exists e: nat :: Returns(s, e, id) then
      var e: nat :| Returns(s, e, id);
      LeastDepth(s, e, id)
    else 0
  }

  ghost function LeastDepth(s: Shelf, e: nat, id: nat): (d: nat)
    requires s.FolderRow(id) && Returns(s, e, id)
    ensures d > 0 && Returns(s, d, id) && !Returns(s, d - 1, id)
  {
    if Returns(s, e - 1, id) then LeastDepth(s, e - 1, id) else e
  }

  /** Where the recursion returns, its call depths are the heights the specification asks for. */
  lemma DepthsGrade(s: Shelf, ids: seq<nat>)
    requires ReturnsFrom(s, ids)
    ensures s.Graded(id => Depth(s, id)) && s.Covers(id => Depth(s, id), ids)
  {
    var height: nat -> nat := id => Depth(s, id);
    forall f: nat, c | s.FolderRow(f) && height(f) > 0 && c in s.Kids(f) && s.FolderRow(c)
      ensures 0 < height(c) < height(f)
    {
      assert Returns(s, height(f) - 1, c);
      if height(c) >= height(f) {
        ReturnsDeeper(s, height(f) - 1, height(c) - 1, c);
      }
    }
    var d: nat :| AllReturn(s, d, ids);
    forall id | id in ids
      ensures s.Measured(height, id)
    {
      assert Returns(s, d, id);
    }
  }

  lemma {:induction false} GradedReturns(s: Shelf, height: nat -> nat, id: nat, d: nat)
    requires s.Graded(height) && s.Measured(height, id) && (s.FolderRow(id) ==> height(id) <= d)
    ensures Returns(s, d, id)
    decreases d
  {
    if s.FolderRow(id) {
      forall c | c in s.Kids(id)
        ensures Returns(s, d - 1, c)
      {
        GradedReturns(s, height, c, d - 1);
      }
    }
  }

  function Tallest(height: nat -> nat, ids: seq<nat>): (d: nat)
    ensures forall id :: id in ids ==> height(id) <= d
  {
    if ids == [] then 0
    else
      var d := Tallest(height, ids[1..]);
      if height(ids[0]) > d then height(ids[0]) else d
  }

  /** The specification asks for no more than the recursion needs: heights exist exactly when it returns. */
  lemma HeightsExistIffReturns(s: Shelf, ids: seq<nat>)
    ensures (exists height: nat -> nat :: s.Graded(height) && s.Covers(height, ids)) <==> ReturnsFrom(s, ids)
  {
    if exists height: nat -> nat :: s.Graded(height) && s.Covers(height, ids) {
      var height: nat -> nat :| s.Graded(height) && s.Covers(height, ids);
      forall id | id in ids
        ensures Returns(s, Tallest(height, ids), id)
      {
        assert s.Measured(height, id);
        GradedReturns(s, height, id, Tallest(height, ids));
      }
      assert AllReturn(s, Tallest(height, ids), ids);
    }
    if ReturnsFrom(s, ids) {
      DepthsGrade(s, ids);
    }
  }

  // ---- properties -------------------------------------------------------------------------------

  lemma {:induction false} UnderIgnoresHeight(s: Shelf, one: nat -> nat, two: nat -> nat, f: nat, n: nat)
    requires s.Graded(one) && s.Graded(two) && s.FolderRow(f) && one(f) > 0 && two(f) > 0 && n <= |s.Kids(f)|
    ensures s.Under(one, f, n) == s.Under(two, f, n)
    decreases one(f), n
  {
    if n > 0 {
      var c := s.Kids(f)[n - 1];
      assert c in s.Kids(f);
      UnderIgnoresHeight(s, one, two, f, n - 1);
      if s.FolderRow(c) {
        UnderIgnoresHeight(s, one, two, c, |s.Kids(c)|);
      }
    }
  }

  /** The measure proves termination and nothing else: the answer does not depend on it. */
  lemma {:induction false} ExpansionIgnoresHeight(s: Shelf, one: nat -> nat, two: nat -> nat, ids: seq<nat>)
    requires s.Graded(one) && s.Graded(two) && s.Covers(one, ids) && s.Covers(two, ids)
    ensures s.Expanded(one, ids) == s.Expanded(two, ids)
  {
    if ids != [] {
      var id := ids[0];
      ExpansionIgnoresHeight(s, one, two, ids[1..]);
      assert s.Measured(one, id) && s.Measured(two, id);
      if s.FolderRow(id) {
        UnderIgnoresHeight(s, one, two, id, |s.Kids(id)|);
      }
    }
  }

  /** A way down from f through folders to x. */
  ghost predicate WayDown(s: Shelf, way: seq<nat>, f: nat, x: nat) {
    && |way| >= 2 && way[0] == f && way[|way| - 1] == x
    && (forall k :: 0 <= k < |way| - 1 ==> s.FolderRow(way[k]) && way[k + 1] in s.Kids(way[k]))
  }

  lemma LongerWay(s: Shelf, f: nat, way: seq<nat>, c: nat, x: nat)
    requires WayDown(s, way, c, x) && s.FolderRow(f) && c in s.Kids(f)
    ensures WayDown(s, [f] + way, f, x)
  {
    var longer := [f] + way;
    forall k | 0 <= k < |longer| - 1
      ensures s.FolderRow(longer[k]) && longer[k + 1] in s.Kids(longer[k])
    {
      if k > 0 {
        assert longer[k] == way[k - 1] && longer[k + 1] == way[k];
      }
    }
  }

  lemma {:induction false} UnderIsReached(s: Shelf, height: nat -> nat, f: nat, n: nat, x: nat)
    requires s.Answered() && s.Graded(height) && s.FolderRow(f) && height(f) > 0 && n <= |s.Kids(f)| && x in s.Under(height, f, n)
    ensures x in s.items && !s.FolderRow(x) && exists way :: WayDown(s, way, f, x)
    decreases height(f), n
  {
    var c := s.Kids(f)[n - 1];
    assert c in s.Kids(f);
    if x in s.Under(height, f, n - 1) {
      UnderIsReached(s, height, f, n - 1, x);
    } else if s.FolderRow(c) {
      UnderIsReached(s, height, c, |s.Kids(c)|, x);
      var way :| WayDown(s, way, c, x);
      LongerWay(s, f, way, c, x);
    } else {
      assert WayDown(s, [f, c], f, x);
    }
  }

  lemma {:induction false} UnderHoldsKid(s: Shelf, height: nat -> nat, f: nat, n: nat, k: nat, x: nat)
    requires s.Graded(height) && s.FolderRow(f) && height(f) > 0 && k < n <= |s.Kids(f)|
    requires x in if s.FolderRow(s.Kids(f)[k]) then s.Under(height, s.Kids(f)[k], |s.Kids(s.Kids(f)[k])|) else [s.Kids(f)[k]]
    ensures x in s.Under(height, f, n)
  {
    if k < n - 1 {
      UnderHoldsKid(s, height, f, n - 1, k, x);
    }
  }

  lemma {:induction false} ReachedIsUnder(s: Shelf, height: nat -> nat, way: seq<nat>, f: nat, x: nat)
    requires s.Graded(height) && height(f) > 0 && WayDown(s, way, f, x) && !s.FolderRow(x)
    ensures x in s.Under(height, f, |s.Kids(f)|)
    decreases |way|
  {
    assert s.FolderRow(way[0]) && way[1] in s.Kids(way[0]);
    var k :| 0 <= k < |s.Kids(f)| && s.Kids(f)[k] == way[1];
    if |way| > 2 {
      assert s.FolderRow(way[1]);
      forall j | 0 <= j < |way[1..]| - 1
        ensures s.FolderRow(way[1..][j]) && way[1..][j + 1] in s.Kids(way[1..][j])
      {
        assert s.FolderRow(way[j + 1]) && way[j + 2] in s.Kids(way[j + 1]);
      }
      ReachedIsUnder(s, height, way[1..], way[1], x);
    }
    UnderHoldsKid(s, height, f, |s.Kids(f)|, k, x);
  }

  /** A folder expands to exactly the non-folders below it. */
  lemma FolderExpandsToItsLeaves(s: Shelf, height: nat -> nat, f: nat, x: nat)
    requires s.Answered() && s.Graded(height) && s.FolderRow(f) && height(f) > 0
    ensures x in s.Leaves(height, f) <==> x in s.items && !s.FolderRow(x) && exists way :: WayDown(s, way, f, x)
  {
    if x in s.Leaves(height, f) {
      UnderIsReached(s, height, f, |s.Kids(f)|, x);
    }
    if x in s.items && !s.FolderRow(x) && exists way :: WayDown(s, way, f, x) {
      var way :| WayDown(s, way, f, x);
      ReachedIsUnder(s, height, way, f, x);
    }
  }

  /** Expansion distributes over concatenation. */
  lemma {:induction false} ExpansionDistributes(s: Shelf, height: nat -> nat, one: seq<nat>, two: seq<nat>)
    requires s.Graded(height) && s.Covers(height, one) && s.Covers(height, two)
    ensures s.Expanded(height, one + two) == s.Expanded(height, one) + s.Expanded(height, two)
  {
    if one == [] {
      assert one + two == two;
    } else {
      assert (one + two)[1..] == one[1..] + two;
      ExpansionDistributes(s, height, one[1..], two);
    }
  }

  lemma {:induction false} ExpansionHasNoFolders(s: Shelf, height: nat -> nat, ids: seq<nat>)
    requires s.Answered() && s.Graded(height) && s.Covers(height, ids)
    ensures forall x :: x in s.Expanded(height, ids) ==> x in s.items && !s.FolderRow(x)
  {
    if ids != [] {
      ExpansionHasNoFolders(s, height, ids[1..]);
      var id := ids[0];
      forall x | x in s.Leaves(height, id)
        ensures x in s.items && !s.FolderRow(x)
      {
        if s.FolderRow(id) {
          UnderIsReached(s, height, id, |s.Kids(id)|, x);
        }
      }
    }
  }

  /** So only what can be played, or another playlist, is ever an entry. */
  lemma ExpansionIsPlayable(s: Shelf, height: nat -> nat, ids: seq<nat>, x: nat)
    requires s.Answered() && s.Graded(height) && s.Covers(height, ids) && x in s.Expanded(height, ids)
    ensures x in s.items && s.items[x].kind in {Movie, Episode, Audio, AudioBook, Trailer, Video, Playlist}
  {
    ExpansionHasNoFolders(s, height, ids);
    FolderKinds(s.items[x].kind);
  }

  /** The other kinds are folders: a series, a season or one of the five kinds of container. */
  lemma FolderKinds(kind: Kind)
    ensures IsFolder(kind) <==> kind !in {Movie, Episode, Audio, AudioBook, Trailer, Video, Playlist}
  {
  }

  lemma {:induction false} LeavesExpandToThemselves(s: Shelf, height: nat -> nat, ids: seq<nat>)
    requires s.Graded(height) && forall x :: x in ids ==> x in s.items && !s.FolderRow(x)
    ensures s.Expanded(height, ids) == ids
  {
    if ids != [] {
      LeavesExpandToThemselves(s, height, ids[1..]);
    }
  }

  /** Adding what was already expanded adds the same items. */
  lemma ExpansionIsIdempotent(s: Shelf, height: nat -> nat, ids: seq<nat>)
    requires s.Answered() && s.Graded(height) && s.Covers(height, ids)
    ensures s.Covers(height, s.Expanded(height, ids)) && s.Expanded(height, s.Expanded(height, ids)) == s.Expanded(height, ids)
  {
    ExpansionHasNoFolders(s, height, ids);
    LeavesExpandToThemselves(s, height, s.Expanded(height, ids));
  }

  // ---- depth first, as a stack walks it -----------------------------------------------------------

  ghost function Weight(s: Shelf, height: nat -> nat, f: nat, n: nat): nat
    requires s.Graded(height) && s.FolderRow(f) && height(f) > 0 && n <= |s.Kids(f)|
    decreases height(f), n
  {
    if n == 0 then 1
    else
      var c := s.Kids(f)[n - 1];
      Weight(s, height, f, n - 1) + if s.FolderRow(c) then Weight(s, height, c, |s.Kids(c)|) else 1
  }

  ghost function StackWeight(s: Shelf, height: nat -> nat, stack: seq<nat>): nat
    requires s.Graded(height) && s.Covers(height, stack)
  {
    if stack == [] then 0
    else
      var id := stack[|stack| - 1];
      assert s.Measured(height, id);
      StackWeight(s, height, stack[..|stack| - 1]) + if s.FolderRow(id) then Weight(s, height, id, |s.Kids(id)|) else 1
  }

  lemma {:induction false} StackWeightAdds(s: Shelf, height: nat -> nat, one: seq<nat>, two: seq<nat>)
    requires s.Graded(height) && s.Covers(height, one) && s.Covers(height, two)
    ensures StackWeight(s, height, one + two) == StackWeight(s, height, one) + StackWeight(s, height, two)
  {
    if two == [] {
      assert one + two == one;
    } else {
      assert (one + two)[..|one| + |two| - 1] == one + two[..|two| - 1];
      StackWeightAdds(s, height, one, two[..|two| - 1]);
    }
  }

  lemma {:induction false} KidsWeigh(s: Shelf, height: nat -> nat, f: nat, n: nat)
    requires s.Graded(height) && s.FolderRow(f) && height(f) > 0 && n <= |s.Kids(f)|
    ensures Weight(s, height, f, n) == 1 + StackWeight(s, height, s.Kids(f)[..n])
  {
    if n > 0 {
      assert s.Kids(f)[..n][..n - 1] == s.Kids(f)[..n - 1];
      KidsWeigh(s, height, f, n - 1);
    }
  }

  lemma UnderLast(s: Shelf, height: nat -> nat, f: nat, n: nat)
    requires s.Answered() && s.Graded(height) && s.FolderRow(f) && height(f) > 0 && 0 < n <= |s.Kids(f)|
    ensures s.Under(height, f, n) == s.Under(height, f, n - 1) + s.Leaves(height, s.Kids(f)[n - 1])
  {
    assert s.Kids(f)[n - 1] in s.Kids(f);
  }

  lemma {:induction false} UnderExpandsKids(s: Shelf, height: nat -> nat, f: nat, n: nat)
    requires s.Answered() && s.Graded(height) && s.FolderRow(f) && height(f) > 0 && n <= |s.Kids(f)|
    ensures s.Under(height, f, n) == s.Expanded(height, s.Kids(f)[..n])
  {
    if n > 0 {
      var before, c := s.Kids(f)[..n - 1], s.Kids(f)[n - 1];
      assert s.Kids(f)[..n] == before + [c];
      UnderExpandsKids(s, height, f, n - 1);
      ExpansionDistributes(s, height, before, [c]);
      SingleExpands(s, height, c);
      UnderLast(s, height, f, n);
    }
  }

  lemma FolderExpandsToKids(s: Shelf, height: nat -> nat, f: nat)
    requires s.Answered() && s.Graded(height) && s.FolderRow(f) && height(f) > 0
    ensures s.Leaves(height, f) == s.Expanded(height, s.Kids(f))
  {
    UnderExpandsKids(s, height, f, |s.Kids(f)|);
    assert s.Kids(f)[..|s.Kids(f)|] == s.Kids(f);
  }

  lemma SingleExpands(s: Shelf, height: nat -> nat, id: nat)
    requires s.Graded(height) && s.Measured(height, id)
    ensures s.Expanded(height, [id]) == s.Leaves(height, id)
  {
    assert [id][1..] == [];
  }

  lemma FolderOutweighsKids(s: Shelf, height: nat -> nat, id: nat, rest: seq<nat>)
    requires s.Graded(height) && s.Measured(height, id) && s.Covers(height, rest)
    ensures StackWeight(s, height, rest) < StackWeight(s, height, [id] + rest)
    ensures s.FolderRow(id) ==> StackWeight(s, height, s.Kids(id) + rest) < StackWeight(s, height, [id] + rest)
  {
    StackWeightAdds(s, height, [id], rest);
    assert [id][..0] == [];
    if s.FolderRow(id) {
      KidsWeigh(s, height, id, |s.Kids(id)|);
      assert s.Kids(id)[..|s.Kids(id)|] == s.Kids(id);
      StackWeightAdds(s, height, s.Kids(id), rest);
    }
  }

  /** Pop the front; a folder puts its children in its place, a leaf is emitted. */
  ghost function Walk(s: Shelf, height: nat -> nat, stack: seq<nat>): seq<nat>
    requires s.Graded(height) && s.Covers(height, stack)
    decreases StackWeight(s, height, stack)
  {
    if stack == [] then []
    else
      var id, rest := stack[0], stack[1..];
      assert stack == [id] + rest;
      FolderOutweighsKids(s, height, id, rest);
      if s.FolderRow(id) then Walk(s, height, s.Kids(id) + rest)
      else if id in s.items then [id] + Walk(s, height, rest)
      else Walk(s, height, rest)
  }

  /** The recursion lists what an explicit depth-first walk emits, in the same order. */
  lemma {:induction false} ExpansionIsDepthFirst(s: Shelf, height: nat -> nat, stack: seq<nat>)
    requires s.Answered() && s.Graded(height) && s.Covers(height, stack)
    ensures s.Expanded(height, stack) == Walk(s, height, stack)
    decreases StackWeight(s, height, stack)
  {
    if stack != [] {
      var id, rest := stack[0], stack[1..];
      assert stack == [id] + rest;
      FolderOutweighsKids(s, height, id, rest);
      ExpansionDistributes(s, height, [id], rest);
      SingleExpands(s, height, id);
      if s.FolderRow(id) {
        FolderExpandsToKids(s, height, id);
        ExpansionDistributes(s, height, s.Kids(id), rest);
        ExpansionIsDepthFirst(s, height, s.Kids(id) + rest);
      } else {
        ExpansionIsDepthFirst(s, height, rest);
      }
    }
  }

  lemma ExpandedPieces(s: Shelf, height: nat -> nat, ids: seq<nat>, j: nat)
    requires s.Graded(height) && s.Covers(height, ids) && j < |ids|
    ensures s.Expanded(height, ids) == s.Expanded(height, ids[..j]) + (s.Leaves(height, ids[j]) + s.Expanded(height, ids[j + 1..]))
  {
    assert ids == ids[..j] + ids[j..] && ids[j..][1..] == ids[j + 1..];
    ExpansionDistributes(s, height, ids[..j], ids[j..]);
  }

  lemma ExpandedFivePieces(s: Shelf, height: nat -> nat, ids: seq<nat>, j: nat, k: nat)
    requires s.Graded(height) && s.Covers(height, ids) && j < k < |ids|
    ensures s.Expanded(height, ids) ==
            s.Expanded(height, ids[..j]) + (s.Leaves(height, ids[j]) +
            (s.Expanded(height, ids[j + 1..k]) + (s.Leaves(height, ids[k]) + s.Expanded(height, ids[k + 1..]))))
  {
    var tail := ids[j + 1..];
    ExpandedPieces(s, height, ids, j);
    ExpandedPieces(s, height, tail, k - j - 1);
    assert tail[..k - j - 1] == ids[j + 1..k] && tail[k - j..] == ids[k + 1..];
  }

  lemma LowerIndexListedFirst(s: Shelf, f: nat, a: nat, b: nat) returns (j: nat, k: nat)
    requires s.Answered() && s.Ordered() && a in s.Kids(f) && b in s.Kids(f) && a != b
    requires SortsFirst(s.items[a], s.items[b])
    ensures j < k < |s.Kids(f)| && s.Kids(f)[j] == a && s.Kids(f)[k] == b
  {
    j :| 0 <= j < |s.Kids(f)| && s.Kids(f)[j] == a;
    k :| 0 <= k < |s.Kids(f)| && s.Kids(f)[k] == b;
    NotAfterIsTheOrder(s.items[b], s.items[a], s.items[a]);
  }

  /** Two children of which one sorts first, by index number and then by sort name: all its leaves come before all of the other's. */
  lemma LowerIndexComesFirst(s: Shelf, height: nat -> nat, f: nat, a: nat, b: nat)
    returns (before: seq<nat>, between: seq<nat>, after: seq<nat>)
    requires s.Answered() && s.Ordered() && s.Graded(height) && s.FolderRow(f) && height(f) > 0
    requires a in s.Kids(f) && b in s.Kids(f) && a != b
    requires SortsFirst(s.items[a], s.items[b])
    ensures s.Leaves(height, f) == before + (s.Leaves(height, a) + (between + (s.Leaves(height, b) + after)))
  {
    var j, k := LowerIndexListedFirst(s, f, a, b);
    FolderExpandsToKids(s, height, f);
    ExpandedFivePieces(s, height, s.Kids(f), j, k);
    before, between := s.Expanded(height, s.Kids(f)[..j]), s.Expanded(height, s.Kids(f)[j + 1..k]);
    after := s.Expanded(height, s.Kids(f)[k + 1..]);
  }
}
