/**
 Jobs an earlier refresh left behind. A job is identified by a hash of the title as it was scanned, so when
 a title has changed the earlier job is another one: it may still be running, or be retried, after the next
 refresh of the source has pruned, and write what the newest answer no longer says.
 */
module Leftovers {
  import opened Options
  import opened Tables
  import opened Convergence

  /** The newest refresh, and how far the jobs of the earlier one have got. */
  datatype Both = Both(now: World, late: seq<Phase>)

  datatype Step = Ours(e: Event) | Theirs(e: Event)

  function Take(rf: Refresh, past: Refresh, b: Both, s: Step): Both {
    match s
    case Ours(e) => b.(now := Apply(rf, b.now, e))
    case Theirs(e) =>
      var v := Apply(past, World(b.now.c, b.late, {}, {}, {}), e);
      Both(b.now.(c := v.c), v.phase)
  }

  function Steps(rf: Refresh, past: Refresh, b: Both, ss: seq<Step>): Both {
    if ss == [] then b else Take(rf, past, Steps(rf, past, b, ss[..|ss| - 1]), ss[|ss| - 1])
  }

  // ---- what an earlier job may still write --------------------------------------------------------

  predicate Bears(rf: Refresh, i: nat, r: Ref) {
    i < |rf.titles| && rf.titles[i].files != [] && KeyOf(rf, i) == r
  }

  /** A title of the newest answer has this key and a file. */
  ghost predicate Bearing(rf: Refresh, r: Ref) {
    exists i: nat :: Bears(rf, i, r)
  }

  /** The earlier title's file, parent and tag are none the newest answer contradicts for good. */
  ghost predicate Agrees(rf: Refresh, past: Refresh, o: nat)
    requires o < |past.titles|
  {
    && (past.titles[o].files != [] ==> Bearing(rf, KeyOf(past, o)))
    && (forall i: nat :: i < |rf.titles| && KeyOf(rf, i) == KeyOf(past, o) ==> ParentRef(rf.titles[i]) == ParentRef(past.titles[o]))
    && (past.library == rf.library && past.titles[o].tagged ==> Tagged(rf, KeyOf(past, o)))
  }

  ghost predicate AllAgree(rf: Refresh, past: Refresh) {
    forall o: nat :: o < |past.titles| ==> Agrees(rf, past, o)
  }

  predicate PassedBy(rf: Refresh, past: Refresh, o: nat, j: nat, m: nat) {
    && o < |past.titles| && past.titles[o].files != [] && j < |rf.titles| && rf.titles[j].files != [] && j != m
    && past.titles[o].files[0].path == rf.titles[j].files[0].path && Bears(rf, m, KeyOf(past, o))
  }

  /** An earlier job puts the file that is title j's now on the item of title m, as it was then. */
  ghost predicate Passes(rf: Refresh, past: Refresh, j: nat, m: nat) {
    exists o: nat :: PassedBy(rf, past, o, j, m)
  }

  predicate Distinct(l: seq<nat>) {
    forall a, b :: 0 <= a < b < |l| ==> l[a] != l[b]
  }

  /** Titles whose files the earlier jobs pass round, each to the next and the last to the first. */
  ghost predicate Round(rf: Refresh, past: Refresh, l: seq<nat>) {
    && l != [] && Distinct(l)
    && (forall a :: 0 <= a < |l| - 1 ==> Passes(rf, past, l[a], l[a + 1]))
    && Passes(rf, past, l[|l| - 1], l[0])
  }

  /** Such a round, and an item outside it on which an earlier job can set one of its files aside. */
  ghost predicate Turnable(rf: Refresh, past: Refresh) {
    exists l: seq<nat>, f: nat :: Round(rf, past, l) && f !in l && Passes(rf, past, l[0], f)
  }

  /** The unique index on (item_id, source_id), for the files of one source. */
  ghost predicate Indexed(files: map<string, File<Ref>>, source: nat) {
    forall p, q :: p in files && q in files && files[p].source == source && files[q].source == source && files[p].item == files[q].item ==> p == q
  }

  // ---- what every statement keeps -------------------------------------------------------------------

  /** Where a file of title j can be once it has been filed: with j, or where an earlier job puts it. */
  ghost predicate MayBeAt(rf: Refresh, past: Refresh, j: nat, r: Ref) {
    Bears(rf, j, r) || exists m: nat :: Passes(rf, past, j, m) && Bears(rf, m, r)
  }

  ghost predicate FilesStand(rf: Refresh, past: Refresh, files: map<string, File<Ref>>, filed: set<nat>) {
    && Indexed(files, rf.source)
    && (forall p :: p in files && files[p].source == rf.source ==> Reported(rf, p) || Bearing(rf, files[p].item))
    && (forall j: nat, p :: j in filed && Holds(rf, j, p) ==>
          p in files && files[p].source == rf.source && MayBeAt(rf, past, j, files[p].item))
  }

  ghost predicate ItemsStand(rf: Refresh, items: map<Ref, Item<Ref>>, saved: set<nat>) {
    forall i: nat :: i in saved && i < |rf.titles| ==>
      KeyOf(rf, i) in items && !items[KeyOf(rf, i)].deleted && items[KeyOf(rf, i)].parent == ParentRef(rf.titles[i])
  }

  ghost predicate MembersStand(rf: Refresh, before: set<Member<Ref>>, members: set<Member<Ref>>, finished: set<nat>) {
    && before <= members
    && (forall m :: m in members && m !in before && m.library == rf.library && m.source == rf.source ==> Tagged(rf, m.item))
    && (forall i: nat :: i in finished && i < |rf.titles| && rf.titles[i].tagged ==> Member(rf.library, KeyOf(rf, i), rf.source) in members)
  }

  ghost predicate Stands(rf: Refresh, past: Refresh, c0: Catalogue, w: World) {
    && |w.phase| == |rf.titles| && w.finished <= w.filed <= w.saved
    && (forall i :: 0 <= i < |w.phase| && w.phase[i] in {Saved, Filed, Done} ==> i in w.saved)
    && (forall i :: 0 <= i < |w.phase| && w.phase[i] in {Filed, Done} ==> i in w.filed)
    && FilesStand(rf, past, w.c.files, w.filed) && ItemsStand(rf, w.c.items, w.saved)
    && MembersStand(rf, c0.members, w.c.members, w.finished)
  }

  lemma SaveStands(rf: Refresh, c: Catalogue, saved: set<nat>, t: Scanned)
    requires ItemsStand(rf, c.items, saved)
    requires forall i: nat :: i < |rf.titles| && KeyOf(rf, i) == Keyed(t.key) ==> ParentRef(rf.titles[i]) == ParentRef(t)
    ensures ItemsStand(rf, SaveScanned(c, t).items, saved)
  {
  }

  lemma FileStands(rf: Refresh, past: Refresh, c: Catalogue, filed: set<nat>, r: Ref, f: ScannedFile)
    requires FilesStand(rf, past, c.files, filed) && Bearing(rf, r) && SaveSource(c, rf.source, r, f).Some?
    requires forall j: nat :: Holds(rf, j, f.path) ==> MayBeAt(rf, past, j, r)
    ensures FilesStand(rf, past, SaveSource(c, rf.source, r, f).value.files, filed)
  {
    var files := SaveSource(c, rf.source, r, f).value.files;
    forall p, q | p in files && q in files && files[p].source == rf.source && files[q].source == rf.source && files[p].item == files[q].item
      ensures p == q
    {
    }
  }

  lemma OneFile(c: Catalogue, source: nat, r: Ref, files: seq<ScannedFile>)
    requires |files| == 1
    ensures SaveSources(c, source, r, files) ==
            match SaveSource(c, source, r, files[0])
            case None => (c, false)
            case Some(next) => (next, true)
  {
    assert files[1..] == [];
  }

  lemma FilesStandAfter(rf: Refresh, past: Refresh, c: Catalogue, filed: set<nat>, r: Ref, files: seq<ScannedFile>)
    requires FilesStand(rf, past, c.files, filed) && |files| <= 1 && (files != [] ==> Bearing(rf, r))
    requires forall j: nat :: files != [] && Holds(rf, j, files[0].path) ==> MayBeAt(rf, past, j, r)
    ensures FilesStand(rf, past, SaveSources(c, rf.source, r, files).0.files, filed)
  {
    if files != [] {
      OneFile(c, rf.source, r, files);
      if SaveSource(c, rf.source, r, files[0]).Some? {
        FileStands(rf, past, c, filed, r, files[0]);
      }
    }
  }

  lemma OwnFileStands(rf: Refresh, past: Refresh, c: Catalogue, filed: set<nat>, i: nat)
    requires WellFormed(rf) && i < |rf.titles| && FilesStand(rf, past, c.files, filed)
    ensures var (d, ok) := SaveSources(c, rf.source, KeyOf(rf, i), rf.titles[i].files);
            FilesStand(rf, past, d.files, if ok then filed + {i} else filed)
  {
    var files := rf.titles[i].files;
    if files != [] {
      assert Bears(rf, i, KeyOf(rf, i)) && files[1..] == [];
      assert Holds(rf, i, files[0].path);
    }
    FilesStandAfter(rf, past, c, filed, KeyOf(rf, i), files);
  }

  lemma OursStands(rf: Refresh, past: Refresh, c0: Catalogue, w: World, e: Event)
    requires WellFormed(rf) && Stands(rf, past, c0, w)
    ensures Stands(rf, past, c0, Apply(rf, w, e))
  {
    if e.job < |rf.titles| {
      var i, t := e.job, rf.titles[e.job];
      match e
      case Find(_) =>
      case Lose(_) =>
      case Save(_) =>
        SaveStands(rf, w.c, w.saved, t);
      case FileIt(_) =>
        OwnFileStands(rf, past, w.c, w.filed, i);
        SourcesTouchOnlyFiles(w.c, rf.source, KeyOf(rf, i), t.files);
      case Join(_) =>
        assert t.tagged ==> TaggedAs(rf, i, KeyOf(rf, i));
    }
  }

  lemma TheirFileMayBeThere(rf: Refresh, past: Refresh, o: nat, j: nat)
    requires o < |past.titles| && past.titles[o].files != [] && Bearing(rf, KeyOf(past, o)) && Holds(rf, j, past.titles[o].files[0].path)
    ensures MayBeAt(rf, past, j, KeyOf(past, o))
  {
    var m: nat :| Bears(rf, m, KeyOf(past, o));
    assert m != j ==> PassedBy(rf, past, o, j, m);
  }

  lemma TheirsStands(rf: Refresh, past: Refresh, c0: Catalogue, b: Both, e: Event)
    requires WellFormed(rf) && OneFileEach(past.titles) && past.source == rf.source
    requires AllAgree(rf, past) && Stands(rf, past, c0, b.now)
    ensures Stands(rf, past, c0, Take(rf, past, b, Theirs(e)).now)
  {
    var o, c := e.job, b.now.c;
    if o < |past.titles| {
      var t := past.titles[o];
      assert Agrees(rf, past, o);
      match e
      case Find(_) =>
      case Lose(_) =>
      case Save(_) =>
        SaveStands(rf, c, b.now.saved, t);
      case FileIt(_) =>
        forall j: nat | t.files != [] && Holds(rf, j, t.files[0].path)
          ensures MayBeAt(rf, past, j, KeyOf(past, o))
        {
          TheirFileMayBeThere(rf, past, o, j);
        }
        FilesStandAfter(rf, past, c, b.now.filed, KeyOf(past, o), t.files);
        SourcesTouchOnlyFiles(c, rf.source, KeyOf(past, o), t.files);
      case Join(_) =>
    }
  }

  lemma BeginStands(c: Catalogue, rf: Refresh, past: Refresh)
    requires WellFormed(rf) && Indexed(c.files, rf.source)
    ensures Stands(rf, past, Begin(c, rf).c, Begin(c, rf))
  {
    forall p | p in Begin(c, rf).c.files && c.files[p].source == rf.source
      ensures Reported(rf, p)
    {
      PrunedFiles(c, rf, p);
    }
  }

  /** Safety over every run beside earlier jobs, wherever these are and however they are retried. */
  lemma {:induction false} StepsStand(c: Catalogue, rf: Refresh, past: Refresh, late: seq<Phase>, ss: seq<Step>)
    requires WellFormed(rf) && OneFileEach(past.titles) && past.source == rf.source && Indexed(c.files, rf.source)
    requires AllAgree(rf, past)
    ensures Stands(rf, past, Begin(c, rf).c, Steps(rf, past, Both(Begin(c, rf), late), ss).now)
  {
    if ss == [] {
      BeginStands(c, rf, past);
    } else {
      var n := |ss| - 1;
      StepsStand(c, rf, past, late, ss[..n]);
      var b := Steps(rf, past, Both(Begin(c, rf), late), ss[..n]);
      match ss[n]
      case Ours(e) => OursStands(rf, past, Begin(c, rf).c, b.now, e);
      case Theirs(e) => TheirsStands(rf, past, Begin(c, rf).c, b, e);
    }
  }

  // ---- a group of titles no earlier job leads out of ------------------------------------------------

  predicate Sits(rf: Refresh, files: map<string, File<Ref>>, j: nat, m: nat) {
    && j < |rf.titles| && rf.titles[j].files != []
    && var p := rf.titles[j].files[0].path;
       p in files && files[p].source == rf.source && Bears(rf, m, files[p].item)
  }

  ghost predicate Closed(rf: Refresh, past: Refresh, group: set<nat>) {
    && group != {}
    && (forall j :: j in group ==> j < |rf.titles| && rf.titles[j].files != [])
    && (forall j: nat, m: nat :: Passes(rf, past, j, m) && j in group ==> m in group)
  }

  /** Once all of the group have been filed, one of them has its own file. */
  ghost predicate Settled(rf: Refresh, files: map<string, File<Ref>>, filed: set<nat>, group: set<nat>) {
    group <= filed ==> exists t :: t in group && Sits(rf, files, t, t)
  }

  predicate Injective(g: map<nat, nat>) {
    forall a, b :: a in g && b in g && g[a] == g[b] ==> a == b
  }

  lemma {:induction false} AsManyValues(g: map<nat, nat>)
    requires Injective(g)
    ensures |g.Values| == |g.Keys|
    decreases |g|
  {
    if g != map[] {
      var k :| k in g;
      var h := map x | x in g && x != k :: g[x];
      assert h.Keys == g.Keys - {k} && g[k] !in h.Values;
      forall v | v in g.Values
        ensures v in h.Values + {g[k]}
      {
        var x :| x in g && g[x] == v;
        assert x != k ==> x in h && h[x] == v;
      }
      assert g.Values == h.Values + {g[k]};
      AsManyValues(h);
    } else {
      assert g.Values == {};
    }
  }

  lemma OntoItself(g: map<nat, nat>, m: nat) returns (j: nat)
    requires Injective(g) && g.Values <= g.Keys && m in g
    ensures j in g && g[j] == m
  {
    AsManyValues(g);
    if m !in g.Values {
      SmallerThan(g.Values, g.Keys, m);
    }
    j :| j in g && g[j] == m;
  }

  lemma SmallerThan(a: set<nat>, b: set<nat>, m: nat)
    requires a <= b && m in b && m !in a
    ensures |a| < |b|
  {
    var rest := b - a;
    assert m in rest && |b| == |a + rest| && a !! rest;
  }

  lemma SitsAlone(rf: Refresh, files: map<string, File<Ref>>, a: nat, b: nat, m: nat)
    requires WellFormed(rf) && Indexed(files, rf.source) && Sits(rf, files, a, m) && Sits(rf, files, b, m)
    ensures a == b
  {
    assert rf.titles[a].files[0].path == rf.titles[b].files[0].path;
  }

  ghost predicate Seated(rf: Refresh, files: map<string, File<Ref>>, group: set<nat>, j: nat) {
    exists m :: m in group && Sits(rf, files, j, m)
  }

  ghost predicate AllSeated(rf: Refresh, files: map<string, File<Ref>>, group: set<nat>) {
    forall a {:trigger Seated(rf, files, group, a)} :: a in group ==> Seated(rf, files, group, a)
  }

  ghost function SeatOf(rf: Refresh, files: map<string, File<Ref>>, group: set<nat>, j: nat): (m: nat)
    requires Seated(rf, files, group, j)
    ensures m in group && Sits(rf, files, j, m)
  {
    var m :| m in group && Sits(rf, files, j, m);
    m
  }

  lemma SitsInGroup(rf: Refresh, past: Refresh, files: map<string, File<Ref>>, filed: set<nat>, group: set<nat>, j: nat)
    requires FilesStand(rf, past, files, filed) && Closed(rf, past, group) && group <= filed && j in group
    ensures Seated(rf, files, group, j)
  {
    var p := rf.titles[j].files[0].path;
    assert Holds(rf, j, p);
    if Bears(rf, j, files[p].item) {
      assert Sits(rf, files, j, j);
    } else {
      var m: nat :| Passes(rf, past, j, m) && Bears(rf, m, files[p].item);
      assert m in group && Sits(rf, files, j, m);
    }
  }

  /** Where each file of the group is, item by item; no two are on one. */
  lemma Seats(rf: Refresh, files: map<string, File<Ref>>, group: set<nat>) returns (g: map<nat, nat>)
    requires WellFormed(rf) && Indexed(files, rf.source)
    requires AllSeated(rf, files, group)
    ensures g.Keys == group && g.Values <= group && (forall a :: a in g ==> Sits(rf, files, a, g[a]))
    ensures Injective(g)
  {
    g := map a | a in group :: SeatOf(rf, files, group, a);
    SeatsApart(rf, files, g);
  }

  lemma SeatsApart(rf: Refresh, files: map<string, File<Ref>>, g: map<nat, nat>)
    requires WellFormed(rf) && Indexed(files, rf.source) && forall a :: a in g ==> Sits(rf, files, a, g[a])
    ensures Injective(g)
  {
    forall a, b | a in g && b in g && g[a] == g[b]
      ensures a == b
    {
      SitsAlone(rf, files, a, b, g[a]);
    }
  }

  lemma GroupIsSeated(rf: Refresh, past: Refresh, files: map<string, File<Ref>>, filed: set<nat>, group: set<nat>)
    requires FilesStand(rf, past, files, filed) && Closed(rf, past, group) && group <= filed
    ensures AllSeated(rf, files, group)
  {
    forall a | a in group
      ensures Seated(rf, files, group, a)
    {
      SitsInGroup(rf, past, files, filed, group, a);
    }
  }

  /** A filed group leaves none of its items free: its files are on its items, one on each. */
  lemma GroupIsFull(rf: Refresh, past: Refresh, files: map<string, File<Ref>>, filed: set<nat>, group: set<nat>, m: nat) returns (j: nat)
    requires WellFormed(rf) && FilesStand(rf, past, files, filed) && Closed(rf, past, group) && group <= filed && m in group
    ensures j in group && Sits(rf, files, j, m)
  {
    GroupIsSeated(rf, past, files, filed, group);
    var g := Seats(rf, files, group);
    j := OntoItself(g, m);
  }

  lemma FileSettles(rf: Refresh, past: Refresh, c: Catalogue, filed: set<nat>, r: Ref, f: ScannedFile, group: set<nat>)
    requires WellFormed(rf) && FilesStand(rf, past, c.files, filed) && Closed(rf, past, group) && Settled(rf, c.files, filed, group)
    requires SaveSource(c, rf.source, r, f).Some?
    requires forall j: nat :: Holds(rf, j, f.path) ==> MayBeAt(rf, past, j, r)
    ensures Settled(rf, SaveSource(c, rf.source, r, f).value.files, filed, group)
  {
    var files := SaveSource(c, rf.source, r, f).value.files;
    if group <= filed {
      var t :| t in group && Sits(rf, c.files, t, t);
      if rf.titles[t].files[0].path == f.path && !Bears(rf, t, r) {
        assert Holds(rf, t, f.path);
        var m: nat :| Passes(rf, past, t, m) && Bears(rf, m, r);
        var j := GroupIsFull(rf, past, c.files, filed, group, m);
      }
      assert Sits(rf, files, t, t);
    }
  }

  lemma FilesSettle(rf: Refresh, past: Refresh, c: Catalogue, filed: set<nat>, r: Ref, files: seq<ScannedFile>, group: set<nat>)
    requires WellFormed(rf) && FilesStand(rf, past, c.files, filed) && Closed(rf, past, group) && Settled(rf, c.files, filed, group)
    requires |files| <= 1
    requires forall j: nat :: files != [] && Holds(rf, j, files[0].path) ==> MayBeAt(rf, past, j, r)
    ensures Settled(rf, SaveSources(c, rf.source, r, files).0.files, filed, group)
  {
    if files != [] {
      OneFile(c, rf.source, r, files);
      if SaveSource(c, rf.source, r, files[0]).Some? {
        FileSettles(rf, past, c, filed, r, files[0], group);
      }
    }
  }

  /** Whoever of the group is filed last is the one. */
  lemma OwnFileSettles(rf: Refresh, past: Refresh, c: Catalogue, filed: set<nat>, i: nat, group: set<nat>)
    requires WellFormed(rf) && FilesStand(rf, past, c.files, filed) && Closed(rf, past, group) && Settled(rf, c.files, filed, group)
    requires i < |rf.titles|
    ensures var (d, ok) := SaveSources(c, rf.source, KeyOf(rf, i), rf.titles[i].files);
            Settled(rf, d.files, if ok then filed + {i} else filed, group)
  {
    var files := rf.titles[i].files;
    var (d, ok) := SaveSources(c, rf.source, KeyOf(rf, i), files);
    if ok && i in group {
      OneFile(c, rf.source, KeyOf(rf, i), files);
      assert Sits(rf, d.files, i, i);
    } else {
      if files != [] {
        assert Bears(rf, i, KeyOf(rf, i)) && Holds(rf, i, files[0].path);
      }
      FilesSettle(rf, past, c, filed, KeyOf(rf, i), files, group);
      assert group <= filed + {i} && i !in group ==> group <= filed;
    }
  }

  lemma TheirFileSettles(rf: Refresh, past: Refresh, c: Catalogue, filed: set<nat>, o: nat, group: set<nat>)
    requires WellFormed(rf) && OneFileEach(past.titles) && o < |past.titles| && Agrees(rf, past, o)
    requires FilesStand(rf, past, c.files, filed) && Closed(rf, past, group) && Settled(rf, c.files, filed, group)
    ensures Settled(rf, SaveSources(c, rf.source, KeyOf(past, o), past.titles[o].files).0.files, filed, group)
  {
    var files := past.titles[o].files;
    forall j: nat | files != [] && Holds(rf, j, files[0].path)
      ensures MayBeAt(rf, past, j, KeyOf(past, o))
    {
      TheirFileMayBeThere(rf, past, o, j);
    }
    FilesSettle(rf, past, c, filed, KeyOf(past, o), files, group);
  }

  lemma TakeSettles(rf: Refresh, past: Refresh, b: Both, s: Step, group: set<nat>)
    requires WellFormed(rf) && OneFileEach(past.titles) && past.source == rf.source && AllAgree(rf, past)
    requires FilesStand(rf, past, b.now.c.files, b.now.filed) && Closed(rf, past, group) && Settled(rf, b.now.c.files, b.now.filed, group)
    ensures var d := Take(rf, past, b, s).now; Settled(rf, d.c.files, d.filed, group)
  {
    match s
    case Ours(e) =>
      if e.FileIt? && e.job < |rf.titles| {
        OwnFileSettles(rf, past, b.now.c, b.now.filed, e.job, group);
      }
    case Theirs(e) =>
      if e.FileIt? && e.job < |past.titles| {
        TheirFileSettles(rf, past, b.now.c, b.now.filed, e.job, group);
      }
  }

  lemma {:induction false} StepsSettle(c: Catalogue, rf: Refresh, past: Refresh, late: seq<Phase>, ss: seq<Step>, group: set<nat>)
    requires WellFormed(rf) && OneFileEach(past.titles) && past.source == rf.source && Indexed(c.files, rf.source)
    requires AllAgree(rf, past) && Closed(rf, past, group)
    ensures var d := Steps(rf, past, Both(Begin(c, rf), late), ss).now; Settled(rf, d.c.files, d.filed, group)
  {
    if ss != [] {
      var n := |ss| - 1;
      StepsSettle(c, rf, past, late, ss[..n], group);
      StepsStand(c, rf, past, late, ss[..n]);
      TakeSettles(rf, past, Steps(rf, past, Both(Begin(c, rf), late), ss[..n]), ss[n], group);
    }
  }

  // ---- where a completed refresh ends ---------------------------------------------------------------

  predicate Chain(g: map<nat, nat>, l: seq<nat>) {
    && l != [] && Distinct(l) && (forall a :: 0 <= a < |l| ==> l[a] in g)
    && forall a :: 0 <= a < |l| - 1 ==> g[l[a]] == l[a + 1]
  }

  /** Followed from any member, a one-to-one map of a finite set to itself comes back. */
  lemma {:induction false} ChainCloses(g: map<nat, nat>, l: seq<nat>) returns (full: seq<nat>)
    requires Injective(g) && g.Values <= g.Keys && Chain(g, l)
    ensures Chain(g, full) && full[0] == l[0] && g[full[|full| - 1]] == full[0]
    decreases g.Keys - (set a | 0 <= a < |l| :: l[a])
  {
    var last := l[|l| - 1];
    var m := g[last];
    assert m in g.Values;
    if m == l[0] {
      full := l;
    } else {
      forall a | 0 <= a < |l|
        ensures l[a] != m
      {
        assert a > 0 ==> g[l[a - 1]] == l[a];
      }
      var longer := l + [m];
      assert longer[|l|] == m && forall a :: 0 <= a < |l| ==> l[a] == longer[a];
      ghost var before, after := set a | 0 <= a < |l| :: l[a], set a | 0 <= a < |longer| :: longer[a];
      assert m !in before && m in after && before <= after;
      assert m in g.Keys - before && m !in g.Keys - after;
      full := ChainCloses(g, longer);
    }
  }

  /** The titles whose files are not on their own items. */
  function Astray(rf: Refresh, files: map<string, File<Ref>>): (group: set<nat>)
    ensures forall j: nat :: j in group <==> j < |rf.titles| && rf.titles[j].files != [] && !Sits(rf, files, j, j)
  {
    set j | j in JobsOf(rf) && rf.titles[j].files != [] && !Sits(rf, files, j, j)
  }

  lemma SitsIsPassed(rf: Refresh, past: Refresh, files: map<string, File<Ref>>, filed: set<nat>, j: nat, m: nat)
    requires WellFormed(rf) && FilesStand(rf, past, files, filed) && j in filed && Sits(rf, files, j, m) && j != m
    ensures Passes(rf, past, j, m)
  {
    var p := rf.titles[j].files[0].path;
    assert Holds(rf, j, p);
  }

  lemma AstrayIsSeated(rf: Refresh, past: Refresh, files: map<string, File<Ref>>, filed: set<nat>)
    requires WellFormed(rf) && FilesStand(rf, past, files, filed) && JobsOf(rf) <= filed
    ensures AllSeated(rf, files, Astray(rf, files))
  {
    forall j | j in Astray(rf, files)
      ensures Seated(rf, files, Astray(rf, files), j)
    {
      var p := rf.titles[j].files[0].path;
      assert j in filed && Holds(rf, j, p);
      var m: nat :| Passes(rf, past, j, m) && Bears(rf, m, files[p].item);
      assert Sits(rf, files, j, m);
      if Sits(rf, files, m, m) {
        SitsAlone(rf, files, j, m, m);
      }
      assert m in Astray(rf, files);
    }
  }

  lemma ChainIsRound(rf: Refresh, past: Refresh, files: map<string, File<Ref>>, filed: set<nat>, g: map<nat, nat>, l: seq<nat>)
    requires WellFormed(rf) && FilesStand(rf, past, files, filed) && g.Keys <= filed
    requires forall a :: a in g ==> Sits(rf, files, a, g[a]) && g[a] != a
    requires Chain(g, l) && g[l[|l| - 1]] == l[0]
    ensures Round(rf, past, l)
  {
    forall a | 0 <= a < |l|
      ensures Passes(rf, past, l[a], g[l[a]])
    {
      SitsIsPassed(rf, past, files, filed, l[a], g[l[a]]);
    }
  }

  /** An earlier job that leads out of them makes the round turnable. */
  lemma WayOutTurns(rf: Refresh, past: Refresh, files: map<string, File<Ref>>, filed: set<nat>, g: map<nat, nat>, j: nat, f: nat)
    requires WellFormed(rf) && FilesStand(rf, past, files, filed) && g.Keys <= filed
    requires forall a :: a in g ==> Sits(rf, files, a, g[a]) && g[a] != a
    requires Injective(g) && g.Values <= g.Keys && j in g && f !in g && Passes(rf, past, j, f)
    ensures Turnable(rf, past)
  {
    var l := ChainCloses(g, [j]);
    ChainIsRound(rf, past, files, filed, g, l);
    assert Round(rf, past, l) && f !in l && Passes(rf, past, l[0], f);
  }

  lemma AstrayMoves(rf: Refresh, past: Refresh, files: map<string, File<Ref>>, filed: set<nat>) returns (g: map<nat, nat>)
    requires WellFormed(rf) && FilesStand(rf, past, files, filed) && JobsOf(rf) <= filed
    ensures g.Keys == Astray(rf, files) && g.Values <= g.Keys && Injective(g)
    ensures forall a :: a in g ==> Sits(rf, files, a, g[a]) && g[a] != a
  {
    AstrayIsSeated(rf, past, files, filed);
    g := Seats(rf, files, Astray(rf, files));
  }

  /** Unless files could be turned round, no earlier job leads out of the titles that are astray. */
  lemma AstrayIsClosed(rf: Refresh, past: Refresh, files: map<string, File<Ref>>, filed: set<nat>)
    requires WellFormed(rf) && FilesStand(rf, past, files, filed) && JobsOf(rf) <= filed && !Turnable(rf, past)
    requires Astray(rf, files) != {}
    ensures Closed(rf, past, Astray(rf, files))
  {
    var g := AstrayMoves(rf, past, files, filed);
    forall j: nat, f: nat | Passes(rf, past, j, f) && j in g
      ensures f in g
    {
      if f !in g {
        WayOutTurns(rf, past, files, filed, g, j, f);
      }
    }
  }

  /** Once all have been filed and none is astray, no other path of the source is left. */
  lemma FilesAreReported(rf: Refresh, past: Refresh, files: map<string, File<Ref>>, filed: set<nat>)
    requires WellFormed(rf) && FilesStand(rf, past, files, filed) && Astray(rf, files) == {}
    ensures forall j: nat, p :: Holds(rf, j, p) ==> p in files && files[p].source == rf.source && files[p].item == KeyOf(rf, j)
    ensures forall p :: p in files && files[p].source == rf.source ==> Reported(rf, p)
  {
    forall j: nat, p | Holds(rf, j, p)
      ensures p in files && files[p].source == rf.source && files[p].item == KeyOf(rf, j)
    {
      assert j !in Astray(rf, files);
      assert Sits(rf, files, j, j);
    }
    forall p | p in files && files[p].source == rf.source
      ensures Reported(rf, p)
    {
      if !Reported(rf, p) {
        var i: nat :| Bears(rf, i, files[p].item);
        assert Holds(rf, i, rf.titles[i].files[0].path);
      }
    }
  }

  lemma StandingHoldsSnapshot(c: Catalogue, rf: Refresh, past: Refresh, w: World)
    requires WellFormed(rf) && Stands(rf, past, Begin(c, rf).c, w) && AllFinished(rf, w) && Astray(rf, w.c.files) == {}
    ensures HoldsSnapshot(rf, c, w.c)
  {
    FilesAreReported(rf, past, w.c.files, w.filed);
    forall p | Reported(rf, p)
      ensures p in w.c.files && w.c.files[p].source == rf.source
    {
      var j: nat :| Holds(rf, j, p);
    }
    forall r
      ensures Member(rf.library, r, rf.source) in w.c.members <==>
              Tagged(rf, r) || (r.Keyless? && AnyTagged(rf) && Member(rf.library, r, rf.source) in c.members)
    {
      PrunedMembers(c, rf, Member(rf.library, r, rf.source));
      if Tagged(rf, r) {
        var i: nat :| TaggedAs(rf, i, r);
        assert i in w.finished;
      }
    }
  }

  /** A refresh that completes beside such earlier jobs leaves its own snapshot, whatever they did in between. */
  lemma LeftoversKeepTheSnapshot(c: Catalogue, rf: Refresh, past: Refresh, late: seq<Phase>, ss: seq<Step>)
    requires WellFormed(rf) && OneFileEach(past.titles) && past.source == rf.source && Indexed(c.files, rf.source)
    requires AllAgree(rf, past) && !Turnable(rf, past)
    requires AllFinished(rf, Steps(rf, past, Both(Begin(c, rf), late), ss).now)
    ensures HoldsSnapshot(rf, c, Steps(rf, past, Both(Begin(c, rf), late), ss).now.c)
  {
    var w := Steps(rf, past, Both(Begin(c, rf), late), ss).now;
    StepsStand(c, rf, past, late, ss);
    var group := Astray(rf, w.c.files);
    assert JobsOf(rf) <= w.filed;
    if group != {} {
      AstrayIsClosed(rf, past, w.c.files, w.filed);
      StepsSettle(c, rf, past, late, ss, group);
    }
    assert group == {};
    StandingHoldsSnapshot(c, rf, past, w);
  }
}
