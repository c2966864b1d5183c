/**
 The refresh protocol with the attempts counted. A job is given up after its eighth lost attempt, so a
 title that too often finds its parent not stored yet, or is refused its file while it waits, is not written
 by its job any more; the next refresh starts from what is there and with fresh attempts.
 */
module Retries {
  import opened Options
  import opened Tables
  import opened Convergence
  import H = Handover
  import J = Jobs

  /** The protocol's world, and how many attempts of each job have been lost. */
  datatype Trial = Trial(w: World, lost: seq<nat>)

  function Untried(c: Catalogue, rf: Refresh): Trial {
    Trial(Begin(c, rf), seq(|rf.titles|, _ => 0))
  }

  /** Whether the event ends the attempt it belongs to: a missing parent, a refused file, a loss. */
  predicate EndsAttempt(rf: Refresh, w: World, e: Event)
    requires e.job < |rf.titles| == |w.phase|
  {
    match e
    case Find(i) => w.phase[i] == Start && !ParentFound(w.c, rf.titles[i])
    case FileIt(i) => w.phase[i] == Saved && !SaveSources(w.c, rf.source, KeyOf(rf, i), rf.titles[i].files).1
    case Lose(_) => true
    case _ => false
  }

  /** A job whose attempts are used up takes no further step. */
  function Try(rf: Refresh, t: Trial, e: Event): Trial {
    if e.job >= |rf.titles| || |t.w.phase| != |rf.titles| || |t.lost| != |rf.titles| || t.lost[e.job] >= J.MAX_ATTEMPTS then t
    else Trial(Apply(rf, t.w, e), if EndsAttempt(rf, t.w, e) then t.lost[e.job := t.lost[e.job] + 1] else t.lost)
  }

  function Tries(rf: Refresh, t: Trial, es: seq<Event>): Trial {
    if es == [] then t else Try(rf, Tries(rf, t, es[..|es| - 1]), es[|es| - 1])
  }

  lemma {:induction false} TriesAppend(rf: Refresh, t: Trial, es: seq<Event>, fs: seq<Event>)
    ensures Tries(rf, t, es + fs) == Tries(rf, Tries(rf, t, es), fs)
  {
    if fs == [] {
      assert es + fs == es;
    } else {
      var n := |fs| - 1;
      TriesAppend(rf, t, es, fs[..n]);
      assert (es + fs)[..|es| + n] == es + fs[..n];
    }
  }

  lemma TriesOne(rf: Refresh, t: Trial, e: Event)
    ensures Tries(rf, t, [e]) == Try(rf, t, e)
  {
    assert [e][..0] == [];
  }

  ghost predicate CanStillComplete(rf: Refresh, t: Trial) {
    exists es :: AllFinished(rf, Tries(rf, t, es).w)
  }

  predicate Finished(t: Trial, i: nat) {
    i in t.w.finished
  }

  /** Title i is written, or its job has an attempt left. */
  predicate InPlay(t: Trial, i: nat)
    requires i < |t.lost|
  {
    Finished(t, i) || t.lost[i] < J.MAX_ATTEMPTS
  }

  ghost predicate AllInPlay(rf: Refresh, t: Trial) {
    |t.lost| == |rf.titles| && forall i: nat :: i < |rf.titles| ==> InPlay(t, i)
  }

  // ---- counting attempts only leaves events out --------------------------------------------------

  /** What counted jobs reach, uncounted ones reach too: leave out the steps of jobs given up. */
  lemma {:induction false} TriesAreARun(c: Catalogue, rf: Refresh, es: seq<Event>) returns (fs: seq<Event>)
    ensures Tries(rf, Untried(c, rf), es).w == Run(rf, Begin(c, rf), fs)
    ensures |Tries(rf, Untried(c, rf), es).lost| == |rf.titles|
  {
    if es == [] {
      fs := [];
    } else {
      var n := |es| - 1;
      var t := Tries(rf, Untried(c, rf), es[..n]);
      var gs := TriesAreARun(c, rf, es[..n]);
      if Try(rf, t, es[n]).w == t.w {
        fs := gs;
      } else {
        fs := gs + [es[n]];
        H.RunOne(rf, Begin(c, rf), gs, es[n]);
      }
    }
  }

  lemma TriesTrack(c: Catalogue, rf: Refresh, es: seq<Event>)
    requires WellFormed(rf)
    ensures Tracks(rf, Begin(c, rf).c, Tries(rf, Untried(c, rf), es).w)
    ensures |Tries(rf, Untried(c, rf), es).lost| == |rf.titles|
  {
    var fs := TriesAreARun(c, rf, es);
    RunTracks(c, rf, fs);
  }

  // ---- a job given up stays unfinished ------------------------------------------------------------

  lemma OthersDoNotFinish(rf: Refresh, w: World, e: Event, i: nat)
    requires i !in w.finished && e.job != i
    ensures i !in Apply(rf, w, e).finished
  {
  }

  lemma {:induction false} GivenUpStaysUnfinished(rf: Refresh, t: Trial, i: nat, es: seq<Event>)
    requires i < |rf.titles| == |t.lost| && !InPlay(t, i)
    ensures var v := Tries(rf, t, es); |v.lost| == |rf.titles| && v.lost[i] == t.lost[i] && !Finished(v, i)
  {
    if es != [] {
      var n := |es| - 1;
      GivenUpStaysUnfinished(rf, t, i, es[..n]);
      if es[n].job != i {
        OthersDoNotFinish(rf, Tries(rf, t, es[..n]).w, es[n], i);
      }
    }
  }

  // ---- completing from any state, without losing another attempt ---------------------------------

  /** The state of a refresh under way: what the protocol tracks, and every unwritten title still in play. */
  ghost predicate Going(c: Catalogue, rf: Refresh, t: Trial) {
    Tracks(rf, Begin(c, rf).c, t.w) && AllInPlay(rf, t)
  }

  /** Title i is written or its running attempt has got past saving its item. */
  predicate Ready(rf: Refresh, t: Trial, i: nat) {
    i < |rf.titles| == |t.w.phase| && (Finished(t, i) || t.w.phase[i] == Saved || t.w.phase[i] == Filed)
  }

  /** From t to u no attempt was lost and nothing was unwritten; jobs other than i stand where they stood. */
  ghost predicate Advances(rf: Refresh, t: Trial, u: Trial, i: nat) {
    && u.lost == t.lost && t.w.finished <= u.w.finished
    && |u.w.phase| == |t.w.phase|
    && forall j :: 0 <= j < |t.w.phase| && j != i ==> u.w.phase[j] == t.w.phase[j]
  }

  lemma AdvancingKeepsGoing(c: Catalogue, rf: Refresh, t: Trial, u: Trial, i: nat)
    requires Going(c, rf, t) && Advances(rf, t, u, i) && Tracks(rf, Begin(c, rf).c, u.w)
    ensures Going(c, rf, u)
    ensures forall j :: j != i && Ready(rf, t, j) ==> Ready(rf, u, j)
  {
    forall j: nat | j < |rf.titles|
      ensures InPlay(u, j)
    {
      assert InPlay(t, j);
    }
  }

  lemma FindAdvances(c: Catalogue, rf: Refresh, t: Trial, i: nat)
    requires WellFormed(rf) && Going(c, rf, t) && i < |rf.titles| && !Finished(t, i)
    requires t.w.phase[i] == Start && ParentFound(t.w.c, rf.titles[i])
    ensures var u := Try(rf, t, Find(i)); Advances(rf, t, u, i) && Going(c, rf, u) && u.w.phase[i] == Found && u.w.finished == t.w.finished
  {
    assert InPlay(t, i);
    ApplyTracks(rf, Begin(c, rf).c, t.w, Find(i));
    AdvancingKeepsGoing(c, rf, t, Try(rf, t, Find(i)), i);
  }

  lemma SaveAdvances(c: Catalogue, rf: Refresh, t: Trial, i: nat)
    requires WellFormed(rf) && Going(c, rf, t) && i < |rf.titles| && !Finished(t, i) && t.w.phase[i] == Found
    ensures var u := Try(rf, t, Save(i)); Advances(rf, t, u, i) && Going(c, rf, u) && u.w.phase[i] == Saved && u.w.finished == t.w.finished
  {
    assert InPlay(t, i);
    ApplyTracks(rf, Begin(c, rf).c, t.w, Save(i));
    AdvancingKeepsGoing(c, rf, t, Try(rf, t, Save(i)), i);
  }

  lemma FileAdvances(c: Catalogue, rf: Refresh, t: Trial, i: nat)
    requires WellFormed(rf) && Going(c, rf, t) && i < |rf.titles| && !Finished(t, i) && t.w.phase[i] == Saved
    requires forall j: nat :: H.Waits(rf, c, i, j) ==> j in t.w.filed
    ensures var u := Try(rf, t, FileIt(i)); Advances(rf, t, u, i) && Going(c, rf, u) && u.w.phase[i] == Filed && u.w.finished == t.w.finished
  {
    assert InPlay(t, i);
    H.SourcesSucceedIff(t.w.c, rf.source, KeyOf(rf, i), rf.titles[i].files);
    if rf.titles[i].files != [] {
      H.RefusedIffWaiting(c, rf, t.w, i);
    }
    ApplyTracks(rf, Begin(c, rf).c, t.w, FileIt(i));
    AdvancingKeepsGoing(c, rf, t, Try(rf, t, FileIt(i)), i);
  }

  lemma JoinAdvances(c: Catalogue, rf: Refresh, t: Trial, i: nat)
    requires WellFormed(rf) && Going(c, rf, t) && i < |rf.titles| && !Finished(t, i) && t.w.phase[i] == Filed
    ensures var u := Try(rf, t, Join(i)); Advances(rf, t, u, i) && Going(c, rf, u) && u.w.finished == t.w.finished + {i}
  {
    assert InPlay(t, i);
    ApplyTracks(rf, Begin(c, rf).c, t.w, Join(i));
    AdvancingKeepsGoing(c, rf, t, Try(rf, t, Join(i)), i);
  }

  /** Bring one job past saving: from Found by one statement, from Start by two. */
  lemma GetReady(c: Catalogue, rf: Refresh, t: Trial, i: nat) returns (fs: seq<Event>)
    requires WellFormed(rf) && Going(c, rf, t) && i < |rf.titles| && ParentFound(t.w.c, rf.titles[i])
    ensures var u := Tries(rf, t, fs); Going(c, rf, u) && Ready(rf, u, i) && forall j :: Ready(rf, t, j) ==> Ready(rf, u, j)
  {
    if Ready(rf, t, i) {
      fs := [];
    } else if t.w.phase[i] == Found {
      fs := [Save(i)];
      SaveAdvances(c, rf, t, i);
      TriesOne(rf, t, Save(i));
      AdvancingKeepsGoing(c, rf, t, Try(rf, t, Save(i)), i);
    } else {
      assert t.w.phase[i] == Start;
      var u := Try(rf, t, Find(i));
      FindAdvances(c, rf, t, i);
      AdvancingKeepsGoing(c, rf, t, u, i);
      SaveAdvances(c, rf, u, i);
      AdvancingKeepsGoing(c, rf, u, Try(rf, u, Save(i)), i);
      fs := [Find(i)] + [Save(i)];
      TriesOne(rf, t, Find(i));
      TriesOne(rf, u, Save(i));
      TriesAppend(rf, t, [Find(i)], [Save(i)]);
    }
  }

  /** In the order of the answer, every job gets past saving. */
  lemma {:induction false} GetAllReady(c: Catalogue, rf: Refresh, t: Trial, n: nat) returns (fs: seq<Event>)
    requires WellFormed(rf) && H.ParentsListed(rf, c) && Going(c, rf, t) && n <= |rf.titles|
    ensures var u := Tries(rf, t, fs); Going(c, rf, u) && forall j: nat :: j < n ==> Ready(rf, u, j)
  {
    if n == 0 {
      fs := [];
    } else {
      var gs := GetAllReady(c, rf, t, n - 1);
      var hs := GetNextReady(c, rf, Tries(rf, t, gs), n - 1);
      fs := gs + hs;
      TriesAppend(rf, t, gs, hs);
    }
  }

  lemma GetNextReady(c: Catalogue, rf: Refresh, t: Trial, i: nat) returns (fs: seq<Event>)
    requires WellFormed(rf) && H.ParentsListed(rf, c) && Going(c, rf, t) && i < |rf.titles|
    requires forall j: nat :: j < i ==> Ready(rf, t, j)
    ensures var u := Tries(rf, t, fs); Going(c, rf, u) && forall j: nat :: j <= i ==> Ready(rf, u, j)
  {
    if !ParentFound(c, rf.titles[i]) {
      var j: nat :| j < i && KeyOf(rf, j) == Keyed(rf.titles[i].parentKey);
      assert Ready(rf, t, j) && j in t.w.saved;
    }
    H.ParentsStayFound(c, rf, t.w, i);
    fs := GetReady(c, rf, t, i);
  }

  ghost predicate AllReady(rf: Refresh, t: Trial) {
    forall j: nat :: j < |rf.titles| ==> Ready(rf, t, j)
  }

  /** A ready title that waits for nothing unwritten is written without losing an attempt. */
  lemma FinishReady(c: Catalogue, rf: Refresh, t: Trial, i: nat) returns (fs: seq<Event>)
    requires WellFormed(rf) && Going(c, rf, t) && AllReady(rf, t) && i < |rf.titles| && !Finished(t, i)
    requires forall j: nat :: H.Waits(rf, c, i, j) ==> Finished(t, j)
    ensures var u := Tries(rf, t, fs); Going(c, rf, u) && AllReady(rf, u) && u.w.finished == t.w.finished + {i}
  {
    assert Ready(rf, t, i);
    var u := t;
    fs := [];
    if t.w.phase[i] == Saved {
      FileAdvances(c, rf, t, i);
      u := Try(rf, t, FileIt(i));
      AdvancingKeepsGoing(c, rf, t, u, i);
      fs := [FileIt(i)];
      TriesOne(rf, t, FileIt(i));
    }
    var v := Try(rf, u, Join(i));
    JoinAdvances(c, rf, u, i);
    AdvancingKeepsGoing(c, rf, u, v, i);
    TriesOne(rf, u, Join(i));
    TriesAppend(rf, t, fs, [Join(i)]);
    fs := fs + [Join(i)];
    forall j: nat | j < |rf.titles|
      ensures Ready(rf, v, j)
    {
      assert Ready(rf, t, j);
      if j != i {
        assert Ready(rf, u, j);
      }
    }
  }

  /** Without a ring some unwritten title never has to wait, so all of them are written in turn. */
  lemma {:induction false} FinishAllReady(c: Catalogue, rf: Refresh, t: Trial) returns (fs: seq<Event>)
    requires WellFormed(rf) && !H.Stuck(c, rf) && Going(c, rf, t) && AllReady(rf, t)
    ensures AllFinished(rf, Tries(rf, t, fs).w)
    decreases JobsOf(rf) - t.w.finished
  {
    var left := JobsOf(rf) - t.w.finished;
    if left == {} {
      fs := [];
      forall i: nat | i < |rf.titles|
        ensures i in t.w.finished
      {
        assert i in JobsOf(rf) && i !in left;
      }
    } else {
      assert !H.Ring(rf, c, left);
      var i :| i in left && !H.WaitsIn(rf, c, i, left);
      forall j: nat | H.Waits(rf, c, i, j)
        ensures Finished(t, j)
      {
        assert j in JobsOf(rf) && j !in left;
      }
      var gs := FinishReady(c, rf, t, i);
      var u := Tries(rf, t, gs);
      assert i in left && i !in JobsOf(rf) - u.w.finished;
      var hs := FinishAllReady(c, rf, u);
      fs := gs + hs;
      TriesAppend(rf, t, gs, hs);
    }
  }

  // ---- the condition ----------------------------------------------------------------------------------

  lemma RingNeverCompletes(c: Catalogue, rf: Refresh, es: seq<Event>)
    requires WellFormed(rf) && H.Stuck(c, rf)
    ensures !AllFinished(rf, Tries(rf, Untried(c, rf), es).w)
  {
    var ring :| H.Ring(rf, c, ring);
    var fs := TriesAreARun(c, rf, es);
    H.RingIsNeverFiled(c, rf, ring, fs);
    RunTracks(c, rf, fs);
    var i :| i in ring;
    assert H.WaitsIn(rf, c, i, ring);
  }

  /**
   Wherever a refresh has got, it can still complete exactly when no titles have swapped files in a ring
   and every title not written yet has an attempt left.
   */
  lemma CompletesWithinAttemptsIff(c: Catalogue, rf: Refresh, es: seq<Event>)
    requires WellFormed(rf) && H.ParentsListed(rf, c)
    ensures var t := Tries(rf, Untried(c, rf), es); CanStillComplete(rf, t) <==> !H.Stuck(c, rf) && AllInPlay(rf, t)
  {
    var t := Tries(rf, Untried(c, rf), es);
    TriesTrack(c, rf, es);
    if CanStillComplete(rf, t) {
      var fs :| AllFinished(rf, Tries(rf, t, fs).w);
      TriesAppend(rf, Untried(c, rf), es, fs);
      if H.Stuck(c, rf) {
        RingNeverCompletes(c, rf, es + fs);
      }
      forall i: nat | i < |rf.titles|
        ensures InPlay(t, i)
      {
        if !InPlay(t, i) {
          GivenUpStaysUnfinished(rf, t, i, fs);
        }
      }
    }
    if !H.Stuck(c, rf) && AllInPlay(rf, t) {
      var gs := GetAllReady(c, rf, t, |rf.titles|);
      var hs := FinishAllReady(c, rf, Tries(rf, t, gs));
      TriesAppend(rf, t, gs, hs);
      assert AllFinished(rf, Tries(rf, t, gs + hs).w);
    }
  }

  /** A refresh that has not begun can complete within its attempts exactly when there is no ring. */
  lemma FreshCompletesIff(c: Catalogue, rf: Refresh)
    requires WellFormed(rf) && H.ParentsListed(rf, c)
    ensures CanStillComplete(rf, Untried(c, rf)) <==> !H.Stuck(c, rf)
  {
    CompletesWithinAttemptsIff(c, rf, []);
    assert Tries(rf, Untried(c, rf), []) == Untried(c, rf);
  }

  // ---- the next refresh -------------------------------------------------------------------------------

  /** Nothing new is waited for in a partly refreshed store, and what is still unfiled is waited for as before. */
  lemma WaitsAfter(c: Catalogue, rf: Refresh, w: World, i: nat, j: nat)
    requires WellFormed(rf) && Tracks(rf, Begin(c, rf).c, w)
    ensures H.Waits(rf, w.c, i, j) <==> H.Waits(rf, c, i, j) && j !in w.filed
  {
    if i < |rf.titles| && j < |rf.titles| && i != j && rf.titles[j].files != [] {
      var p := rf.titles[j].files[0].path;
      assert Holds(rf, j, p) && HolderOf(rf, p) == Some(j);
      assert Get(w.c.files, p) == FileAfter(rf, Begin(c, rf).c, w.filed, p);
      PrunedFiles(c, rf, p);
    }
  }

  /** However a refresh was cut short, the next one of the same answer can complete exactly when the first one could. */
  lemma NextRefreshCompletesIff(c: Catalogue, rf: Refresh, es: seq<Event>)
    requires WellFormed(rf) && H.ParentsListed(rf, c)
    ensures var d := Tries(rf, Untried(c, rf), es).w.c;
            H.ParentsListed(rf, d) && (CanStillComplete(rf, Untried(d, rf)) <==> !H.Stuck(c, rf))
  {
    var fs := TriesAreARun(c, rf, es);
    ParentsStayListed(c, rf, fs);
    RingsStay(c, rf, fs);
    FreshCompletesIff(Run(rf, Begin(c, rf), fs).c, rf);
  }

  lemma ParentsStayListed(c: Catalogue, rf: Refresh, es: seq<Event>)
    requires WellFormed(rf) && H.ParentsListed(rf, c)
    ensures H.ParentsListed(rf, Run(rf, Begin(c, rf), es).c)
  {
    RunsLeaveTheRestAlone(c, rf, es);
    forall i: nat | i < |rf.titles|
      ensures ParentFound(Run(rf, Begin(c, rf), es).c, rf.titles[i]) ||
              exists j: nat :: j < i && KeyOf(rf, j) == Keyed(rf.titles[i].parentKey)
    {
    }
  }

  lemma RingsStay(c: Catalogue, rf: Refresh, es: seq<Event>)
    requires WellFormed(rf)
    ensures H.Stuck(Run(rf, Begin(c, rf), es).c, rf) <==> H.Stuck(c, rf)
  {
    var w := Run(rf, Begin(c, rf), es);
    RunTracks(c, rf, es);
    if H.Stuck(w.c, rf) {
      var ring :| H.Ring(rf, w.c, ring);
      StuckBefore(c, rf, w, ring);
    }
    if H.Stuck(c, rf) {
      var ring :| H.Ring(rf, c, ring);
      H.RingIsNeverFiled(c, rf, ring, es);
      StuckAfter(c, rf, w, ring);
    }
  }

  lemma WaitsInAfter(c: Catalogue, rf: Refresh, w: World, i: nat, among: set<nat>)
    requires WellFormed(rf) && Tracks(rf, Begin(c, rf).c, w)
    ensures H.WaitsIn(rf, w.c, i, among) ==> H.WaitsIn(rf, c, i, among)
    ensures H.WaitsIn(rf, c, i, among) && among !! w.filed ==> H.WaitsIn(rf, w.c, i, among)
  {
    if H.WaitsIn(rf, w.c, i, among) {
      var j :| j in among && H.Waits(rf, w.c, i, j);
      WaitsAfter(c, rf, w, i, j);
    }
    if H.WaitsIn(rf, c, i, among) && among !! w.filed {
      var j :| j in among && H.Waits(rf, c, i, j);
      WaitsAfter(c, rf, w, i, j);
    }
  }

  lemma StuckBefore(c: Catalogue, rf: Refresh, w: World, ring: set<nat>)
    requires WellFormed(rf) && Tracks(rf, Begin(c, rf).c, w) && H.Ring(rf, w.c, ring)
    ensures H.Stuck(c, rf)
  {
    forall i | i in ring
      ensures H.WaitsIn(rf, c, i, ring)
    {
      WaitsInAfter(c, rf, w, i, ring);
    }
    assert H.Ring(rf, c, ring);
  }

  lemma StuckAfter(c: Catalogue, rf: Refresh, w: World, ring: set<nat>)
    requires WellFormed(rf) && Tracks(rf, Begin(c, rf).c, w) && H.Ring(rf, c, ring) && ring !! w.filed
    ensures H.Stuck(w.c, rf)
  {
    forall i | i in ring
      ensures H.WaitsIn(rf, w.c, i, ring)
    {
      WaitsInAfter(c, rf, w, i, ring);
    }
    assert H.Ring(rf, w.c, ring);
  }

  // ---- when no schedule gives a title up -----------------------------------------------------------

  /** How many of the events are losses of title i's attempts. */
  function Losses(es: seq<Event>, i: nat): nat {
    if es == [] then 0
    else Losses(es[..|es| - 1], i) + if es[|es| - 1] == Lose(i) then 1 else 0
  }

  /** No job loses all its attempts to crashes and timeouts alone. */
  ghost predicate FewLosses(rf: Refresh, es: seq<Event>) {
    forall i: nat :: i < |rf.titles| ==> Losses(es, i) < J.MAX_ATTEMPTS
  }

  /** In the store the refresh finds, title i's parent is stored and it waits for no other title. */
  ghost predicate Undisturbed(c: Catalogue, rf: Refresh, i: nat)
    requires i < |rf.titles|
  {
    ParentFound(c, rf.titles[i]) && forall j: nat :: !H.Waits(rf, c, i, j)
  }

  ghost predicate Calm(c: Catalogue, rf: Refresh) {
    forall i: nat :: i < |rf.titles| ==> Undisturbed(c, rf, i)
  }

  /** From a calm store an attempt is only ever lost to a crash or a timeout. */
  lemma CalmEndsNothing(c: Catalogue, rf: Refresh, w: World, e: Event)
    requires WellFormed(rf) && Calm(c, rf) && Tracks(rf, Begin(c, rf).c, w) && e.job < |rf.titles|
    ensures EndsAttempt(rf, w, e) ==> e.Lose?
  {
    var i := e.job;
    assert Undisturbed(c, rf, i);
    H.ParentsStayFound(c, rf, w, i);
    H.SourcesSucceedIff(w.c, rf.source, KeyOf(rf, i), rf.titles[i].files);
    if rf.titles[i].files != [] {
      H.RefusedIffWaiting(c, rf, w, i);
    }
  }

  lemma {:induction false} CalmLosesNothing(c: Catalogue, rf: Refresh, es: seq<Event>, i: nat)
    requires WellFormed(rf) && Calm(c, rf) && i < |rf.titles|
    ensures var t := Tries(rf, Untried(c, rf), es); |t.lost| == |rf.titles| && t.lost[i] <= Losses(es, i)
  {
    if es != [] {
      var n := |es| - 1;
      CalmLosesNothing(c, rf, es[..n], i);
      TriesTrack(c, rf, es[..n]);
      if es[n].job < |rf.titles| {
        CalmEndsNothing(c, rf, Tries(rf, Untried(c, rf), es[..n]).w, es[n]);
      }
    }
  }

  lemma {:induction false} WithoutLosses(es: seq<Event>, i: nat)
    requires forall k :: 0 <= k < |es| ==> !es[k].Lose?
    ensures Losses(es, i) == 0
  {
    if es != [] {
      WithoutLosses(es[..|es| - 1], i);
    }
  }

  /** Attempts of title i that do not get past looking for its parent. */
  function MissedParents(i: nat, n: nat): (es: seq<Event>)
    ensures forall k :: 0 <= k < |es| ==> es[k] == Find(i)
  {
    if n == 0 then [] else MissedParents(i, n - 1) + [Find(i)]
  }

  lemma Missed(rf: Refresh, t: Trial, i: nat)
    requires i < |rf.titles| == |t.lost| == |t.w.phase| && t.lost[i] < J.MAX_ATTEMPTS
    requires t.w.phase[i] == Start && !ParentFound(t.w.c, rf.titles[i])
    ensures Try(rf, t, Find(i)) == Trial(t.w, t.lost[i := t.lost[i] + 1])
  {
  }

  /** Each of them is lost, and nothing else happens. */
  lemma {:induction false} MissedTimes(c: Catalogue, rf: Refresh, i: nat, n: nat)
    requires i < |rf.titles| && !ParentFound(c, rf.titles[i]) && n <= J.MAX_ATTEMPTS
    ensures var t := Tries(rf, Untried(c, rf), MissedParents(i, n));
            t.w == Begin(c, rf) && |t.lost| == |rf.titles| && t.lost[i] == n
  {
    if n > 0 {
      MissedTimes(c, rf, i, n - 1);
      var t := Tries(rf, Untried(c, rf), MissedParents(i, n - 1));
      TriesAppend(rf, Untried(c, rf), MissedParents(i, n - 1), [Find(i)]);
      TriesOne(rf, t, Find(i));
      Missed(rf, t, i);
    }
  }

  /** Attempts of title i that get as far as its file. */
  function RefusedAttempts(i: nat, n: nat): (es: seq<Event>)
    ensures forall k :: 0 <= k < |es| ==> !es[k].Lose?
  {
    if n == 0 then [] else RefusedAttempts(i, n - 1) + ([Find(i)] + [Save(i)] + [FileIt(i)])
  }

  /** The first two statements of an attempt whose parent is stored. */
  lemma FoundAndSaved(c: Catalogue, rf: Refresh, t: Trial, i: nat)
    requires WellFormed(rf) && Tracks(rf, Begin(c, rf).c, t.w) && i < |rf.titles| == |t.lost|
    requires t.w.phase[i] == Start && t.lost[i] < J.MAX_ATTEMPTS && ParentFound(t.w.c, rf.titles[i])
    ensures var u := Tries(rf, t, [Find(i)] + [Save(i)]);
            && Tracks(rf, Begin(c, rf).c, u.w) && u.lost == t.lost && u.w.phase == t.w.phase[i := Saved]
            && u.w.filed == t.w.filed && u.w.finished == t.w.finished
  {
    var u := Try(rf, t, Find(i));
    ApplyTracks(rf, Begin(c, rf).c, t.w, Find(i));
    ApplyTracks(rf, Begin(c, rf).c, u.w, Save(i));
    TriesOne(rf, t, Find(i));
    TriesOne(rf, u, Save(i));
    TriesAppend(rf, t, [Find(i)], [Save(i)]);
  }

  lemma RefusedFile(c: Catalogue, rf: Refresh, t: Trial, i: nat, j: nat)
    requires WellFormed(rf) && Tracks(rf, Begin(c, rf).c, t.w) && i < |rf.titles| == |t.lost|
    requires t.w.phase[i] == Saved && t.lost[i] < J.MAX_ATTEMPTS && H.Waits(rf, c, i, j) && j !in t.w.filed
    ensures var u := Tries(rf, t, [FileIt(i)]);
            && u.lost == t.lost[i := t.lost[i] + 1] && u.w.phase == t.w.phase[i := Start]
            && u.w.filed == t.w.filed && u.w.finished == t.w.finished
  {
    H.RefusedIffWaiting(c, rf, t.w, i);
    H.SourcesSucceedIff(t.w.c, rf.source, KeyOf(rf, i), rf.titles[i].files);
    TriesOne(rf, t, FileIt(i));
  }

  /** Job i after n lost attempts, with nothing filed. */
  ghost predicate Refused(rf: Refresh, t: Trial, i: nat, n: nat) {
    && |t.lost| == |rf.titles| == |t.w.phase| && i < |rf.titles|
    && t.lost[i] == n && t.w.phase[i] == Start && t.w.filed == {} && t.w.finished == {}
  }

  /** An attempt of a waiting title saves its item, is refused its file and is lost. */
  lemma RefusedOnce(c: Catalogue, rf: Refresh, t: Trial, i: nat, j: nat, n: nat)
    requires WellFormed(rf) && Tracks(rf, Begin(c, rf).c, t.w) && Refused(rf, t, i, n)
    requires n < J.MAX_ATTEMPTS && ParentFound(c, rf.titles[i]) && H.Waits(rf, c, i, j)
    ensures Refused(rf, Tries(rf, t, [Find(i)] + [Save(i)] + [FileIt(i)]), i, n + 1)
  {
    H.ParentsStayFound(c, rf, t.w, i);
    FoundAndSaved(c, rf, t, i);
    RefusedFile(c, rf, Tries(rf, t, [Find(i)] + [Save(i)]), i, j);
    TriesAppend(rf, t, [Find(i)] + [Save(i)], [FileIt(i)]);
  }

  lemma {:induction false} RefusedTimes(c: Catalogue, rf: Refresh, i: nat, j: nat, n: nat)
    requires WellFormed(rf) && i < |rf.titles| && ParentFound(c, rf.titles[i]) && H.Waits(rf, c, i, j) && n <= J.MAX_ATTEMPTS
    ensures Refused(rf, Tries(rf, Untried(c, rf), RefusedAttempts(i, n)), i, n)
  {
    if n > 0 {
      var before := RefusedAttempts(i, n - 1);
      RefusedTimes(c, rf, i, j, n - 1);
      TriesTrack(c, rf, before);
      RefusedOnce(c, rf, Tries(rf, Untried(c, rf), before), i, j, n - 1);
      TriesAppend(rf, Untried(c, rf), before, [Find(i)] + [Save(i)] + [FileIt(i)]);
    }
  }

  /** A schedule that gives title i up without a single crash or timeout. */
  lemma GivesUp(c: Catalogue, rf: Refresh, i: nat, j: nat) returns (es: seq<Event>)
    requires WellFormed(rf) && i < |rf.titles| && (!ParentFound(c, rf.titles[i]) || H.Waits(rf, c, i, j))
    ensures forall k :: 0 <= k < |es| ==> !es[k].Lose?
    ensures var t := Tries(rf, Untried(c, rf), es); |t.lost| == |rf.titles| && !InPlay(t, i)
  {
    if !ParentFound(c, rf.titles[i]) {
      es := MissedParents(i, J.MAX_ATTEMPTS);
      MissedTimes(c, rf, i, J.MAX_ATTEMPTS);
    } else {
      es := RefusedAttempts(i, J.MAX_ATTEMPTS);
      RefusedTimes(c, rf, i, j, J.MAX_ATTEMPTS);
    }
  }

  /** What a caller can rely on: no schedule with few losses leaves a title given up. */
  ghost predicate NeverGivesUp(c: Catalogue, rf: Refresh) {
    forall es :: FewLosses(rf, es) ==> AllInPlay(rf, Tries(rf, Untried(c, rf), es))
  }

  /** No schedule gives a title up exactly when the store the refresh finds is calm. */
  lemma NoScheduleGivesUpIff(c: Catalogue, rf: Refresh)
    requires WellFormed(rf)
    ensures NeverGivesUp(c, rf) <==> Calm(c, rf)
  {
    if Calm(c, rf) {
      forall es | FewLosses(rf, es)
        ensures AllInPlay(rf, Tries(rf, Untried(c, rf), es))
      {
        TriesTrack(c, rf, es);
        forall i: nat | i < |rf.titles|
          ensures InPlay(Tries(rf, Untried(c, rf), es), i)
        {
          CalmLosesNothing(c, rf, es, i);
        }
      }
    } else {
      var i: nat :| i < |rf.titles| && !Undisturbed(c, rf, i);
      var j: nat :| !ParentFound(c, rf.titles[i]) || H.Waits(rf, c, i, j);
      var es := GivesUp(c, rf, i, j);
      forall k: nat
        ensures Losses(es, k) == 0
      {
        WithoutLosses(es, k);
      }
      assert FewLosses(rf, es) && !AllInPlay(rf, Tries(rf, Untried(c, rf), es));
    }
  }

  // ---- the failing inputs -----------------------------------------------------------------------------

  /** A series and a season below it. */
  function ShowAndSeason(show: string, season: string): seq<Scanned> {
    [Scanned(show, "", true, Series, Headline("", "", None), None, None, []),
     Scanned(season, show, true, Season, Headline("", "", None), Some(1), None, [])]
  }

  /**
   The first scan of a show: nothing is stored, nothing waits and nothing was swapped, yet eight attempts of
   the season before any of the series use up its job, and it is not written.
   */
  lemma FirstScanCanGiveUp(library: nat, source: nat, show: string, season: string)
    requires show != season && show != ""
    ensures var c, rf := Catalogue(map[], map[], {}), Refresh(library, source, ShowAndSeason(show, season));
            && WellFormed(rf) && H.ParentsListed(rf, c) && !H.Stuck(c, rf) && (forall i: nat, j: nat :: !H.Waits(rf, c, i, j))
            && !CanStillComplete(rf, Tries(rf, Untried(c, rf), MissedParents(1, 8)))
  {
    var c: Catalogue, rf := Catalogue(map[], map[], {}), Refresh(library, source, ShowAndSeason(show, season));
    assert KeyOf(rf, 0) == Keyed(rf.titles[1].parentKey);
    forall ring
      ensures !H.Ring(rf, c, ring)
    {
      if ring != {} {
        var i :| i in ring;
        assert !H.WaitsIn(rf, c, i, ring);
      }
    }
    MissedTimes(c, rf, 1, 8);
    CompletesWithinAttemptsIff(c, rf, MissedParents(1, 8));
    assert !InPlay(Tries(rf, Untried(c, rf), MissedParents(1, 8)), 1);
  }

  /** One film of the source, holding its file. */
  function OneFilm(source: nat, one: string, a: string): Catalogue {
    Catalogue(map[Keyed(one) := Item(None, Movie, Headline("", "", None), None, None, None, false, false, [], false)],
              map[a := File(Keyed(one), source, "", 1, None)], {})
  }

  lemma FirstWaitsForSecond(library: nat, source: nat, one: string, two: string, a: string, b: string)
    requires one != two && a != b
    ensures var c, rf := OneFilm(source, one, a), Refresh(library, source, [H.Film(one, b), H.Film(two, a)]);
            H.Waits(rf, c, 0, 1) && !H.Stuck(c, rf)
  {
    var c, rf := OneFilm(source, one, a), Refresh(library, source, [H.Film(one, b), H.Film(two, a)]);
    assert forall i: nat, j: nat :: H.Waits(rf, c, i, j) ==> i == 0 && j == 1;
    forall ring
      ensures !H.Ring(rf, c, ring)
    {
      if ring != {} {
        var i :| i in ring;
        assert !H.WaitsIn(rf, c, if 1 in ring then 1 else i, ring);
      }
    }
  }

  /**
   A film was given a new file and a new film its old one. There is no ring, yet eight attempts of the first
   film before any of the second use up its job: this refresh never writes it.
   */
  lemma EightRefusalsEndATitle(library: nat, source: nat, one: string, two: string, a: string, b: string)
    requires one != two && a != b
    ensures var c, rf := OneFilm(source, one, a), Refresh(library, source, [H.Film(one, b), H.Film(two, a)]);
            && WellFormed(rf) && H.ParentsListed(rf, c) && !H.Stuck(c, rf)
            && !CanStillComplete(rf, Tries(rf, Untried(c, rf), RefusedAttempts(0, 8)))
  {
    var c, rf := OneFilm(source, one, a), Refresh(library, source, [H.Film(one, b), H.Film(two, a)]);
    FirstWaitsForSecond(library, source, one, two, a, b);
    RefusedTimes(c, rf, 0, 1, 8);
    CompletesWithinAttemptsIff(c, rf, RefusedAttempts(0, 8));
    assert !InPlay(Tries(rf, Untried(c, rf), RefusedAttempts(0, 8)), 0);
  }
}
