/**
 The refresh read again. A refresh that is retried, or the next one that gets the same answer, prunes once
 more and enqueues every title: a title whose job still runs is left to it, one whose job is over, written or
 given up, gets a new job with fresh attempts.
 */
module Renewals {
  import opened Options
  import opened Tables
  import opened Convergence
  import H = Handover
  import J = Jobs
  import T = Retries

  datatype Move = Take(e: Event) | Renew

  /** Nothing of job i is running: its attempts are used up, or it has ended well. */
  predicate JobOver(t: T.Trial, i: nat)
    requires i < |t.lost| == |t.w.phase|
  {
    t.lost[i] >= J.MAX_ATTEMPTS || t.w.phase[i] == Done
  }

  function Renewed(rf: Refresh, t: T.Trial): T.Trial {
    if |t.lost| != |t.w.phase| then t
    else
      T.Trial(t.w.(c := Prune(t.w.c, rf.library, rf.source, rf.titles),
                   phase := seq(|t.w.phase|, i requires 0 <= i < |t.w.phase| => if JobOver(t, i) then Start else t.w.phase[i])),
              seq(|t.lost|, i requires 0 <= i < |t.lost| => if JobOver(t, i) then 0 else t.lost[i]))
  }

  /** A job under way goes on where it is with the attempts it has left; one that has ended begins afresh with all eight. */
  lemma RenewedJobs(rf: Refresh, t: T.Trial, i: nat)
    requires i < |t.lost| == |t.w.phase|
    ensures t.lost[i] < 8 && t.w.phase[i] != Done ==> Renewed(rf, t).w.phase[i] == t.w.phase[i] && Renewed(rf, t).lost[i] == t.lost[i]
    ensures t.lost[i] >= 8 || t.w.phase[i] == Done ==> Renewed(rf, t).w.phase[i] == Start && Renewed(rf, t).lost[i] == 0
    ensures Renewed(rf, t).w.saved == t.w.saved && Renewed(rf, t).w.filed == t.w.filed && Renewed(rf, t).w.finished == t.w.finished
  {
  }

  function Go(rf: Refresh, t: T.Trial, m: Move): T.Trial {
    match m
    case Take(e) => T.Try(rf, t, e)
    case Renew => Renewed(rf, t)
  }

  function Moves(rf: Refresh, t: T.Trial, ms: seq<Move>): T.Trial {
    if ms == [] then t else Go(rf, Moves(rf, t, ms[..|ms| - 1]), ms[|ms| - 1])
  }

  lemma {:induction false} MovesAppend(rf: Refresh, t: T.Trial, ms: seq<Move>, ns: seq<Move>)
    ensures Moves(rf, t, ms + ns) == Moves(rf, Moves(rf, t, ms), ns)
  {
    if ns == [] {
      assert ms + ns == ms;
    } else {
      var n := |ns| - 1;
      MovesAppend(rf, t, ms, ns[..n]);
      assert (ms + ns)[..|ms| + n] == ms + ns[..n];
    }
  }

  function Takes(es: seq<Event>): seq<Move> {
    if es == [] then [] else Takes(es[..|es| - 1]) + [Take(es[|es| - 1])]
  }

  lemma {:induction false} TakesAreTries(rf: Refresh, t: T.Trial, es: seq<Event>)
    ensures Moves(rf, t, Takes(es)) == T.Tries(rf, t, es)
  {
    if es != [] {
      var n := |es| - 1;
      TakesAreTries(rf, t, es[..n]);
      assert Takes(es)[..|Takes(es)| - 1] == Takes(es[..n]);
    }
  }

  /** Pruning again while the jobs run takes nothing away. */
  lemma PruneAgainChangesNothing(c: Catalogue, rf: Refresh, w: World)
    requires WellFormed(rf) && Tracks(rf, Begin(c, rf).c, w)
    ensures Prune(w.c, rf.library, rf.source, rf.titles) == w.c
  {
    var d := Begin(w.c, rf).c;
    forall p
      ensures Get(d.files, p) == Get(w.c.files, p)
    {
      assert Get(w.c.files, p) == FileAfter(rf, Begin(c, rf).c, w.filed, p);
      PrunedFiles(w.c, rf, p);
      PrunedFiles(c, rf, p);
      if HolderOf(rf, p).Some? {
        assert Reported(rf, p);
      }
    }
    SameMap(d.files, w.c.files);
    forall m
      ensures m in d.members <==> m in w.c.members
    {
      PrunedMembers(w.c, rf, m);
      PrunedMembers(c, rf, m);
      if m in w.c.members && m !in Begin(c, rf).c.members {
        var i :| i in w.finished && i < |rf.titles| && rf.titles[i].tagged && m == Member(rf.library, KeyOf(rf, i), rf.source);
        assert TaggedAs(rf, i, m.item);
      }
    }
    assert d.members == w.c.members;
  }

  /** What holds in every state reached with renewals. */
  ghost predicate Kept(c: Catalogue, rf: Refresh, t: T.Trial) {
    Tracks(rf, Begin(c, rf).c, t.w) && |t.lost| == |rf.titles|
  }

  lemma RenewedKept(c: Catalogue, rf: Refresh, t: T.Trial)
    requires WellFormed(rf) && Kept(c, rf, t)
    ensures Kept(c, rf, Renewed(rf, t)) && T.AllInPlay(rf, Renewed(rf, t))
    ensures Renewed(rf, t).w.filed == t.w.filed && Renewed(rf, t).w.finished == t.w.finished
  {
    PruneAgainChangesNothing(c, rf, t.w);
    var u := Renewed(rf, t);
    forall i: nat | i < |rf.titles|
      ensures T.InPlay(u, i)
    {
      assert u.lost[i] < J.MAX_ATTEMPTS;
    }
  }

  lemma {:induction false} MovesKept(c: Catalogue, rf: Refresh, ms: seq<Move>)
    requires WellFormed(rf)
    ensures Kept(c, rf, Moves(rf, T.Untried(c, rf), ms))
  {
    if ms == [] {
      RunTracks(c, rf, []);
    } else {
      var n := |ms| - 1;
      var t := Moves(rf, T.Untried(c, rf), ms[..n]);
      MovesKept(c, rf, ms[..n]);
      match ms[n]
      case Take(e) => ApplyTracks(rf, Begin(c, rf).c, t.w, e);
      case Renew => RenewedKept(c, rf, t);
    }
  }

  /** No number of renewals files a title of a ring. */
  lemma {:induction false} RingStaysUnfiled(c: Catalogue, rf: Refresh, ring: set<nat>, ms: seq<Move>)
    requires WellFormed(rf) && H.Ring(rf, c, ring)
    ensures ring !! Moves(rf, T.Untried(c, rf), ms).w.filed
  {
    if ms != [] {
      var n := |ms| - 1;
      var t := Moves(rf, T.Untried(c, rf), ms[..n]);
      RingStaysUnfiled(c, rf, ring, ms[..n]);
      MovesKept(c, rf, ms[..n]);
      match ms[n]
      case Take(e) =>
        assert e.job in ring ==> H.WaitsIn(rf, c, e.job, ring);
        H.RingStaysUnfiled(c, rf, ring, t.w, e);
      case Renew => RenewedKept(c, rf, t);
    }
  }

  ghost predicate CanComplete(rf: Refresh, t: T.Trial) {
    exists ms :: AllFinished(rf, Moves(rf, t, ms).w)
  }

  /** Renewing once puts every title back in play, so without a ring every state can complete. */
  lemma RenewalCompletes(c: Catalogue, rf: Refresh, t: T.Trial) returns (ms: seq<Move>)
    requires WellFormed(rf) && H.ParentsListed(rf, c) && !H.Stuck(c, rf) && Kept(c, rf, t)
    ensures AllFinished(rf, Moves(rf, t, ms).w)
  {
    RenewedKept(c, rf, t);
    var u := Renewed(rf, t);
    var gs := T.GetAllReady(c, rf, u, |rf.titles|);
    var hs := T.FinishAllReady(c, rf, T.Tries(rf, u, gs));
    T.TriesAppend(rf, u, gs, hs);
    TakesAreTries(rf, u, gs + hs);
    assert [Renew][..0] == [];
    assert Moves(rf, t, [Renew]) == u;
    MovesAppend(rf, t, [Renew], Takes(gs + hs));
    ms := [Renew] + Takes(gs + hs);
  }

  /** However far a refresh has got and whatever it gave up, with renewals it can complete exactly when there is no ring. */
  lemma CompletesWithRenewalsIff(c: Catalogue, rf: Refresh, ms: seq<Move>)
    requires WellFormed(rf) && H.ParentsListed(rf, c)
    ensures CanComplete(rf, Moves(rf, T.Untried(c, rf), ms)) <==> !H.Stuck(c, rf)
  {
    var t := Moves(rf, T.Untried(c, rf), ms);
    MovesKept(c, rf, ms);
    if H.Stuck(c, rf) {
      var ring :| H.Ring(rf, c, ring);
      forall ns
        ensures !AllFinished(rf, Moves(rf, t, ns).w)
      {
        MovesAppend(rf, T.Untried(c, rf), ms, ns);
        RingStaysUnfiled(c, rf, ring, ms + ns);
        MovesKept(c, rf, ms + ns);
        var i :| i in ring;
        assert H.WaitsIn(rf, c, i, ring);
      }
    } else {
      var ns := RenewalCompletes(c, rf, t);
    }
  }

  /** And it completes nowhere else than without renewals: the store is the one the specification names. */
  lemma RenewedCompletionIsSynchronised(c: Catalogue, rf: Refresh, ms: seq<Move>)
    requires WellFormed(rf) && AllFinished(rf, Moves(rf, T.Untried(c, rf), ms).w)
    ensures Synchronised(rf, c, Moves(rf, T.Untried(c, rf), ms).w.c)
  {
    MovesKept(c, rf, ms);
    TrackedCompletionIsSynchronised(c, rf, Moves(rf, T.Untried(c, rf), ms).w);
  }
}
