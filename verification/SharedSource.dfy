/**
 Two libraries bound to one source, refreshed at the same time from one answer: the prunes of both
 refreshes and the statements of all their jobs interleave, and each refresh may repeat its prunes.
 */
module SharedSource {
  import opened Options
  import opened Tables
  import opened Convergence

  /** How far a refresh has got before its jobs are enqueued. */
  datatype Stage = Unbegun | FilesDropped | Enqueued

  /** One refresh under way: its own stage, and what Convergence keeps of its jobs beside the store. */
  datatype Side = Side(stage: Stage, phase: seq<Phase>, saved: set<nat>, filed: set<nat>, finished: set<nat>)

  /** What a refresh can do next: one of its two prunes, or a statement of one of its jobs. */
  datatype Action = DropFiles | DropMembers | Do(e: Event)

  datatype Pair = Pair(c: Catalogue, one: Side, two: Side)

  datatype Turn = First(a: Action) | Second(a: Action)

  function Idle(rf: Refresh): Side {
    Side(Unbegun, seq(|rf.titles|, _ => Start), {}, {}, {})
  }

  /** A retried refresh prunes again while its jobs are running already. */
  function Act(rf: Refresh, c: Catalogue, s: Side, a: Action): (Catalogue, Side) {
    match a
    case DropFiles =>
      (PruneFiles(c, rf.source, Paths(rf.titles)), s.(stage := if s.stage == Unbegun then FilesDropped else s.stage))
    case DropMembers =>
      if s.stage == Unbegun then (c, s)
      else (PruneMembers(c, rf.library, rf.source, TaggedKeys(rf.titles)), s.(stage := Enqueued))
    case Do(e) =>
      if s.stage != Enqueued then (c, s)
      else
        var w := Apply(rf, World(c, s.phase, s.saved, s.filed, s.finished), e);
        (w.c, Side(Enqueued, w.phase, w.saved, w.filed, w.finished))
  }

  function Take(one: Refresh, two: Refresh, p: Pair, t: Turn): Pair {
    match t
    case First(a) => var (c, s) := Act(one, p.c, p.one, a); Pair(c, s, p.two)
    case Second(a) => var (c, s) := Act(two, p.c, p.two, a); Pair(c, p.one, s)
  }

  function Turns(one: Refresh, two: Refresh, c: Catalogue, ts: seq<Turn>): Pair {
    if ts == [] then Pair(c, Idle(one), Idle(two))
    else Take(one, two, Turns(one, two, c, ts[..|ts| - 1]), ts[|ts| - 1])
  }

  // ---- the closed form --------------------------------------------------------------------------

  predicate Own(rf: Refresh, m: Member<Ref>) {
    m.library == rf.library && m.source == rf.source
  }

  ghost predicate Joined(rf: Refresh, finished: set<nat>, m: Member<Ref>) {
    exists i :: i in finished && i < |rf.titles| && rf.titles[i].tagged && m == Member(rf.library, KeyOf(rf, i), rf.source)
  }

  /** What one refresh has made of its own memberships, and where its jobs are. */
  ghost predicate SideTracks(rf: Refresh, c: Catalogue, d: Catalogue, s: Side) {
    && |s.phase| == |rf.titles| && s.finished <= s.filed <= s.saved
    && (s.stage != Enqueued ==> s.saved == {})
    && (forall i :: 0 <= i < |s.phase| && s.phase[i] in {Saved, Filed, Done} ==> i in s.saved)
    && (forall i :: 0 <= i < |s.phase| && s.phase[i] in {Filed, Done} ==> i in s.filed)
    && (forall m :: Own(rf, m) ==>
          (m in d.members <==> (if s.stage == Enqueued then m in Begin(c, rf).c.members else m in c.members) || Joined(rf, s.finished, m)))
  }

  function Base(one: Refresh, c: Catalogue, dropped: bool): Catalogue {
    if dropped then Begin(c, one).c else c
  }

  /** What both refreshes together have made of items and files: the answer is one, so the writes are the same. */
  ghost predicate TablesTrack(one: Refresh, c: Catalogue, d: Catalogue, dropped: bool, saved: set<nat>, filed: set<nat>) {
    ItemsTrack(one, c, d, saved) && FilesTrack(one, Base(one, c, dropped), d, filed)
  }

  ghost predicate PairTracks(one: Refresh, two: Refresh, c: Catalogue, p: Pair) {
    && SideTracks(one, c, p.c, p.one) && SideTracks(two, c, p.c, p.two)
    && TablesTrack(one, c, p.c, p.one.stage != Unbegun || p.two.stage != Unbegun, p.one.saved + p.two.saved, p.one.filed + p.two.filed)
    && forall m :: !Own(one, m) && !Own(two, m) ==> (m in p.c.members <==> m in c.members)
  }

  // ---- one action keeps it ------------------------------------------------------------------------

  /** The memberships of other pairs do not change. */
  ghost predicate OthersStay(rf: Refresh, c: Catalogue, d: Catalogue) {
    forall m :: !Own(rf, m) ==> (m in d.members <==> m in c.members)
  }

  lemma SameReported(one: Refresh, me: Refresh, p: string)
    requires SameAnswer(one, me)
    ensures Reported(one, p) <==> Reported(me, p)
  {
    if Reported(one, p) {
      var i: nat :| Holds(one, i, p);
      assert Holds(me, i, p);
    }
    if Reported(me, p) {
      var i: nat :| Holds(me, i, p);
      assert Holds(one, i, p);
    }
  }

  lemma DropFilesTracks(one: Refresh, me: Refresh, c: Catalogue, d: Catalogue, dropped: bool, saved: set<nat>, filed: set<nat>)
    requires WellFormed(one) && WellFormed(me) && SameAnswer(one, me) && TablesTrack(one, c, d, dropped, saved, filed)
    ensures TablesTrack(one, c, PruneFiles(d, me.source, Paths(me.titles)), true, saved, filed)
  {
    var after := PruneFiles(d, me.source, Paths(me.titles));
    forall p
      ensures Get(after.files, p) == FileAfter(one, Begin(c, one).c, filed, p)
    {
      assert Get(d.files, p) == FileAfter(one, Base(one, c, dropped), filed, p);
      PrunedFiles(c, one, p);
      PrunedFiles(d, me, p);
      SameReported(one, me, p);
      assert Get(after.files, p) == Get(Begin(d, me).c.files, p);
      if HolderOf(one, p).Some? {
        assert Reported(one, p);
      }
    }
    forall r
      ensures Get(after.items, r) == ItemAfter(one, c, saved, r)
    {
      assert Get(d.items, r) == ItemAfter(one, c, saved, r);
    }
  }

  lemma DropMembersTracks(me: Refresh, c: Catalogue, d: Catalogue, s: Side)
    requires SideTracks(me, c, d, s) && s.stage != Unbegun
    ensures var after := PruneMembers(d, me.library, me.source, TaggedKeys(me.titles));
            SideTracks(me, c, after, s.(stage := Enqueued)) && OthersStay(me, d, after)
  {
    var after := PruneMembers(d, me.library, me.source, TaggedKeys(me.titles));
    forall m
      ensures m in after.members <==> m in Begin(d, me).c.members
      ensures Own(me, m) ==> (m in after.members <==> m in Begin(c, me).c.members || Joined(me, s.finished, m))
      ensures !Own(me, m) ==> (m in after.members <==> m in d.members)
    {
      PrunedMembers(c, me, m);
      PrunedMembers(d, me, m);
      if Joined(me, s.finished, m) {
        var i :| i in s.finished && i < |me.titles| && me.titles[i].tagged && m == Member(me.library, KeyOf(me, i), me.source);
        assert TaggedAs(me, i, m.item);
      }
    }
  }

  lemma SameTitle(one: Refresh, me: Refresh, c: Catalogue, i: nat)
    requires SameAnswer(one, me) && i < |me.titles|
    ensures SaveScanned(c, me.titles[i]) == SaveScanned(c, one.titles[i])
    ensures KeyOf(me, i) == KeyOf(one, i) && me.titles[i].files == one.titles[i].files
  {
  }

  lemma DoTracksTables(one: Refresh, me: Refresh, c: Catalogue, d: Catalogue, s: Side, e: Event, saved: set<nat>, filed: set<nat>)
    requires WellFormed(one) && SameAnswer(one, me) && |s.phase| == |me.titles|
    requires TablesTrack(one, c, d, true, saved + s.saved, filed + s.filed)
    ensures var w := Apply(me, World(d, s.phase, s.saved, s.filed, s.finished), e);
            TablesTrack(one, c, w.c, true, saved + w.saved, filed + w.filed)
  {
    if e.job < |me.titles| {
      var i := e.job;
      SameTitle(one, me, d, i);
      if e.Save? && s.phase[i] == Found {
        SaveTracks(one, c, d, saved + s.saved, i);
        assert saved + (s.saved + {i}) == (saved + s.saved) + {i};
      } else if e.FileIt? && s.phase[i] == Saved {
        var (after, ok) := SaveSources(d, one.source, KeyOf(one, i), one.titles[i].files);
        SourcesTouchOnlyFiles(d, one.source, KeyOf(one, i), one.titles[i].files);
        if ok {
          FileTracks(one, Base(one, c, true), d, filed + s.filed, i);
          assert filed + (s.filed + {i}) == (filed + s.filed) + {i};
        } else {
          RefusedFileChangesNothing(d, one.source, KeyOf(one, i), one.titles[i].files);
        }
      }
    }
  }

  lemma DoTracksSide(me: Refresh, c: Catalogue, d: Catalogue, s: Side, e: Event)
    requires SideTracks(me, c, d, s) && s.stage == Enqueued
    ensures var w := Apply(me, World(d, s.phase, s.saved, s.filed, s.finished), e);
            SideTracks(me, c, w.c, Side(Enqueued, w.phase, w.saved, w.filed, w.finished)) && OthersStay(me, d, w.c)
  {
    if e.job < |me.titles| {
      var i := e.job;
      if e.FileIt? {
        SourcesTouchOnlyFiles(d, me.source, KeyOf(me, i), me.titles[i].files);
      } else if e.Join? && s.phase[i] == Filed {
        JoinTracksSide(me, c, d, s, i);
      }
    }
  }

  lemma JoinTracksSide(me: Refresh, c: Catalogue, d: Catalogue, s: Side, i: nat)
    requires SideTracks(me, c, d, s) && s.stage == Enqueued && i < |me.titles|
    ensures var after := if me.titles[i].tagged then SaveMembership(d, me.library, me.source, KeyOf(me, i)) else d;
            && OthersStay(me, d, after)
            && forall m :: Own(me, m) ==>
                 (m in after.members <==> m in Begin(c, me).c.members || Joined(me, s.finished + {i}, m))
  {
    var after := if me.titles[i].tagged then SaveMembership(d, me.library, me.source, KeyOf(me, i)) else d;
    forall m | Own(me, m)
      ensures m in after.members <==> m in Begin(c, me).c.members || Joined(me, s.finished + {i}, m)
    {
      if Joined(me, s.finished, m) {
        var k :| k in s.finished && k < |me.titles| && me.titles[k].tagged && m == Member(me.library, KeyOf(me, k), me.source);
        assert k in s.finished + {i};
      }
      assert i in s.finished + {i};
    }
  }

  /** One action of either refresh keeps the closed form of its own side and of the shared tables. */
  lemma ActTracks(one: Refresh, me: Refresh, c: Catalogue, d: Catalogue, s: Side, a: Action,
                  dropped: bool, saved: set<nat>, filed: set<nat>)
    requires WellFormed(one) && WellFormed(me) && SameAnswer(one, me) && SideTracks(me, c, d, s)
    requires TablesTrack(one, c, d, dropped || s.stage != Unbegun, saved + s.saved, filed + s.filed)
    ensures var (after, t) := Act(me, d, s, a);
            && SideTracks(me, c, after, t) && OthersStay(me, d, after)
            && TablesTrack(one, c, after, dropped || t.stage != Unbegun, saved + t.saved, filed + t.filed)
  {
    match a
    case DropFiles => DropFilesTracks(one, me, c, d, dropped || s.stage != Unbegun, saved + s.saved, filed + s.filed);
    case DropMembers =>
      if s.stage != Unbegun {
        DropMembersTracks(me, c, d, s);
      }
    case Do(e) =>
      if s.stage == Enqueued {
        DoTracksTables(one, me, c, d, s, e, saved, filed);
        DoTracksSide(me, c, d, s, e);
      }
  }

  lemma OtherSideStays(me: Refresh, other: Refresh, c: Catalogue, d: Catalogue, after: Catalogue, s: Side)
    requires me.library != other.library && OthersStay(me, d, after) && SideTracks(other, c, d, s)
    ensures SideTracks(other, c, after, s)
  {
    forall m | Own(other, m)
      ensures m in after.members <==> m in d.members
    {
    }
  }

  lemma SameAnswerItself(one: Refresh)
    ensures SameAnswer(one, one)
  {
  }

  lemma TakeTracks(one: Refresh, two: Refresh, c: Catalogue, p: Pair, t: Turn)
    requires WellFormed(one) && WellFormed(two) && SameAnswer(one, two) && one.library != two.library
    requires PairTracks(one, two, c, p)
    ensures PairTracks(one, two, c, Take(one, two, p, t))
  {
    var q := Take(one, two, p, t);
    SameAnswerItself(one);
    match t
    case First(a) =>
      assert p.one.saved + p.two.saved == p.two.saved + p.one.saved && p.one.filed + p.two.filed == p.two.filed + p.one.filed;
      ActTracks(one, one, c, p.c, p.one, a, p.two.stage != Unbegun, p.two.saved, p.two.filed);
      assert q.one.saved + q.two.saved == q.two.saved + q.one.saved && q.one.filed + q.two.filed == q.two.filed + q.one.filed;
      OtherSideStays(one, two, c, p.c, q.c, p.two);
    case Second(a) =>
      ActTracks(one, two, c, p.c, p.two, a, p.one.stage != Unbegun, p.one.saved, p.one.filed);
      OtherSideStays(two, one, c, p.c, q.c, p.one);
  }

  /** Safety over every interleaving: the store is a function of what each refresh has got done at least once. */
  lemma {:induction false} TurnsTrack(one: Refresh, two: Refresh, c: Catalogue, ts: seq<Turn>)
    requires WellFormed(one) && WellFormed(two) && SameAnswer(one, two) && one.library != two.library
    ensures PairTracks(one, two, c, Turns(one, two, c, ts))
  {
    if ts != [] {
      var n := |ts| - 1;
      TurnsTrack(one, two, c, ts[..n]);
      TakeTracks(one, two, c, Turns(one, two, c, ts[..n]), ts[n]);
    }
  }

  // ---- where both complete ------------------------------------------------------------------------

  ghost predicate AllDone(rf: Refresh, s: Side) {
    forall i: nat :: i < |rf.titles| ==> i in s.finished
  }

  ghost predicate Over(rf: Refresh, s: Side) {
    s.stage == Enqueued && AllDone(rf, s)
  }

  lemma DoneMembers(rf: Refresh, c: Catalogue, d: Catalogue, s: Side)
    requires SideTracks(rf, c, d, s) && Over(rf, s)
    ensures forall m :: Own(rf, m) ==>
              (m in d.members <==> Tagged(rf, m.item) || (m.item.Keyless? && AnyTagged(rf) && m in c.members))
  {
    forall m | Own(rf, m)
      ensures m in d.members <==> Tagged(rf, m.item) || (m.item.Keyless? && AnyTagged(rf) && m in c.members)
    {
      PrunedMembers(c, rf, m);
      if Tagged(rf, m.item) {
        var i: nat :| TaggedAs(rf, i, m.item);
        assert i in s.finished && m == Member(rf.library, KeyOf(rf, i), rf.source);
      }
      if Joined(rf, s.finished, m) {
        var i :| i in s.finished && i < |rf.titles| && rf.titles[i].tagged && m == Member(rf.library, KeyOf(rf, i), rf.source);
        assert TaggedAs(rf, i, m.item);
      }
    }
  }

  lemma DoneTables(one: Refresh, c: Catalogue, d: Catalogue, saved: set<nat>, filed: set<nat>, a: Catalogue)
    requires WellFormed(one) && TablesTrack(one, c, d, true, saved, filed) && Synchronised(one, c, a)
    requires forall i: nat :: i < |one.titles| ==> i in saved && i in filed
    ensures d.items == a.items && d.files == a.files
  {
    forall r
      ensures Get(d.items, r) == Get(a.items, r)
    {
      assert Get(d.items, r) == ItemAfter(one, c, saved, r) && Get(a.items, r) == ItemAfter(one, c, JobsOf(one), r);
    }
    forall p
      ensures Get(d.files, p) == Get(a.files, p)
    {
      assert Get(d.files, p) == FileAfter(one, Begin(c, one).c, filed, p);
      PrunedFiles(c, one, p);
      if HolderOf(one, p).Some? {
        assert Reported(one, p);
      }
    }
    SameMap(d.items, a.items);
    SameMap(d.files, a.files);
  }

  /** However the two interleave, once both have completed the store is what one after the other would leave. */
  lemma InterleavedIsOneAfterTheOther(one: Refresh, two: Refresh, c: Catalogue, ts: seq<Turn>, a: Catalogue, ab: Catalogue)
    requires WellFormed(one) && WellFormed(two) && SameAnswer(one, two) && one.library != two.library
    requires var p := Turns(one, two, c, ts); Over(one, p.one) && Over(two, p.two)
    requires Synchronised(one, c, a) && Synchronised(two, a, ab)
    ensures Turns(one, two, c, ts).c == ab
  {
    var p := Turns(one, two, c, ts);
    TurnsTrack(one, two, c, ts);
    DoneTables(one, c, p.c, p.one.saved + p.two.saved, p.one.filed + p.two.filed, a);
    SecondRefreshOnlyJoins(one, two, c, a, ab);
    DoneMembers(one, c, p.c, p.one);
    DoneMembers(two, c, p.c, p.two);
    forall m
      ensures m in p.c.members <==> m in ab.members
    {
      assert m in ab.members <==>
             if Own(two, m) then Tagged(two, m.item) || (m.item.Keyless? && AnyTagged(two) && m in a.members) else m in a.members;
      assert m in a.members <==>
             if Own(one, m) then Tagged(one, m.item) || (m.item.Keyless? && AnyTagged(one) && m in c.members) else m in c.members;
    }
    assert p.c.members == ab.members;
  }

  lemma DoneTablesAgree(one: Refresh, c: Catalogue, p: Pair, q: Pair)
    requires TablesTrack(one, c, p.c, true, p.one.saved + p.two.saved, p.one.filed + p.two.filed)
    requires TablesTrack(one, c, q.c, true, q.one.saved + q.two.saved, q.one.filed + q.two.filed)
    requires forall i: nat :: i < |one.titles| ==> i in p.one.saved && i in p.one.filed && i in q.one.saved && i in q.one.filed
    ensures p.c.items == q.c.items && p.c.files == q.c.files
  {
    forall r
      ensures Get(p.c.items, r) == Get(q.c.items, r)
    {
      assert Get(p.c.items, r) == ItemAfter(one, c, p.one.saved + p.two.saved, r);
      assert Get(q.c.items, r) == ItemAfter(one, c, q.one.saved + q.two.saved, r);
    }
    forall x
      ensures Get(p.c.files, x) == Get(q.c.files, x)
    {
      assert Get(p.c.files, x) == FileAfter(one, Begin(c, one).c, p.one.filed + p.two.filed, x);
      assert Get(q.c.files, x) == FileAfter(one, Begin(c, one).c, q.one.filed + q.two.filed, x);
    }
    SameMap(p.c.items, q.c.items);
    SameMap(p.c.files, q.c.files);
  }

  /** Schedule independence for two refreshes at once: all completed interleavings end in the same store. */
  lemma InterleavingsAgree(one: Refresh, two: Refresh, c: Catalogue, ts: seq<Turn>, us: seq<Turn>)
    requires WellFormed(one) && WellFormed(two) && SameAnswer(one, two) && one.library != two.library
    requires var p := Turns(one, two, c, ts); Over(one, p.one) && Over(two, p.two)
    requires var q := Turns(one, two, c, us); Over(one, q.one) && Over(two, q.two)
    ensures Turns(one, two, c, ts).c == Turns(one, two, c, us).c
  {
    var p, q := Turns(one, two, c, ts), Turns(one, two, c, us);
    TurnsTrack(one, two, c, ts);
    TurnsTrack(one, two, c, us);
    DoneTablesAgree(one, c, p, q);
    DoneMembers(one, c, p.c, p.one);
    DoneMembers(two, c, p.c, p.two);
    DoneMembers(one, c, q.c, q.one);
    DoneMembers(two, c, q.c, q.two);
    forall m
      ensures m in p.c.members <==> m in q.c.members
    {
    }
    assert p.c.members == q.c.members;
  }
}
