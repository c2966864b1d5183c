/** Attempting each title once: which orders write every title, and which titles no attempt can write. */
module Orders {
  import opened Options
  import opened Tables
  import opened Convergence
  import H = Handover

  // ---- attempting every title once, in some order --------------------------------------------

  function AttemptsOf(order: seq<nat>): seq<Event> {
    if order == [] then [] else AttemptsOf(order[..|order| - 1]) + H.Attempt(order[|order| - 1])
  }

  /** The order attempts each title once and a title only after its parent's title. */
  ghost predicate ParentsFirst(rf: Refresh, c: Catalogue, order: seq<nat>) {
    && (forall x :: 0 <= x < |order| ==> order[x] < |rf.titles|)
    && (forall x, y :: 0 <= x < y < |order| ==> order[x] != order[y])
    && (forall x :: 0 <= x < |order| ==>
          ParentFound(c, rf.titles[order[x]]) ||
          exists y :: 0 <= y < x && KeyOf(rf, order[y]) == Keyed(rf.titles[order[x]].parentKey))
  }

  /** Every title comes after the one it waits for. */
  ghost predicate HandsOver(rf: Refresh, c: Catalogue, order: seq<nat>) {
    forall x, j: nat :: 0 <= x < |order| && H.Waits(rf, c, order[x], j) ==> j in order[..x]
  }

  /** What attempting `order` once each leaves in the world w. */
  ghost predicate Attempted(c: Catalogue, rf: Refresh, order: seq<nat>, w: World) {
    && Tracks(rf, Begin(c, rf).c, w)
    && (forall i :: i in order ==> i in w.saved)
    && (forall i :: i in w.filed ==> i in order)
    && ((forall i :: i in order ==> i in w.finished) <==> HandsOver(rf, c, order))
  }

  lemma AttemptNext(c: Catalogue, rf: Refresh, before: seq<nat>, i: nat, w: World)
    requires WellFormed(rf) && i < |rf.titles| && i !in before && Attempted(c, rf, before, w)
    requires ParentFound(c, rf.titles[i]) || exists y :: 0 <= y < |before| && before[y] < |rf.titles| && KeyOf(rf, before[y]) == Keyed(rf.titles[i].parentKey)
    ensures Attempted(c, rf, before + [i], Run(rf, w, H.Attempt(i)))
  {
    if !ParentFound(c, rf.titles[i]) {
      var y :| 0 <= y < |before| && before[y] < |rf.titles| && KeyOf(rf, before[y]) == Keyed(rf.titles[i].parentKey);
      assert before[y] in w.saved;
    }
    H.ParentsStayFound(c, rf, w, i);
    H.AttemptIsRefreshItem(c, rf, w, i);
    var v := Run(rf, w, H.Attempt(i));
    assert (before + [i])[..|before|] == before;
    LastHandover(rf, c, before + [i]);
    assert forall k :: k in before + [i] <==> k in before || k == i;
    if forall k :: k in before + [i] ==> k in v.finished {
      assert i in before + [i];
      assert forall k :: k in before ==> k in before + [i] && k != i && k in w.finished;
      assert forall j: nat :: H.Waits(rf, c, i, j) ==> j in before;
    }
    if HandsOver(rf, c, before + [i]) {
      assert forall k :: k in before ==> k in w.finished && k in w.filed;
    }
  }

  lemma {:induction false} OrderedAttempts(c: Catalogue, rf: Refresh, order: seq<nat>)
    requires WellFormed(rf) && ParentsFirst(rf, c, order)
    ensures Attempted(c, rf, order, Run(rf, Begin(c, rf), AttemptsOf(order)))
  {
    if order == [] {
      RunTracks(c, rf, AttemptsOf(order));
    } else {
      var n := |order| - 1;
      var i, before := order[n], order[..n];
      assert order == before + [i];
      assert forall x :: 0 <= x < n ==> before[x] == order[x];
      assert ParentsFirst(rf, c, before);
      OrderedAttempts(c, rf, before);
      RunAppends(rf, Begin(c, rf), AttemptsOf(before), H.Attempt(i));
      AttemptNext(c, rf, before, i, Run(rf, Begin(c, rf), AttemptsOf(before)));
    }
  }

  lemma LastHandover(rf: Refresh, c: Catalogue, order: seq<nat>)
    requires order != []
    ensures var n := |order| - 1;
            HandsOver(rf, c, order) <==>
            HandsOver(rf, c, order[..n]) && forall j: nat :: H.Waits(rf, c, order[n], j) ==> j in order[..n]
  {
    var n := |order| - 1;
    forall x | 0 <= x < n
      ensures order[..n][x] == order[x] && order[..n][..x] == order[..x]
    {
    }
  }

  /** An order that puts parents first writes every title exactly when it also hands the files over in turn. */
  lemma OrderCompletesIff(c: Catalogue, rf: Refresh, order: seq<nat>)
    requires WellFormed(rf) && ParentsFirst(rf, c, order)
    requires forall i: nat :: i < |rf.titles| ==> i in order
    ensures AllFinished(rf, Run(rf, Begin(c, rf), AttemptsOf(order))) <==> HandsOver(rf, c, order)
  {
    OrderedAttempts(c, rf, order);
  }

  // ---- titles with several files --------------------------------------------------------------

  lemma {:induction false} HeldPathRefusesOthers(c: Catalogue, source: nat, r: Ref, files: seq<ScannedFile>, p: string)
    requires p in c.files && c.files[p].item == r && c.files[p].source == source
    requires exists k :: 0 <= k < |files| && files[k].path != p
    ensures !SaveSources(c, source, r, files).1
    decreases |files|
  {
    if files[0].path == p {
      var k :| 0 <= k < |files| && files[k].path != p;
      assert files[1..][k - 1] == files[k];
      match SaveSource(c, source, r, files[0])
      case None =>
      case Some(next) => HeldPathRefusesOthers(next, source, r, files[1..], p);
    } else {
      assert Clash(c.files, source, r, files[0].path);
    }
  }

  /** The one-file condition of WellFormed is forced: a title with two paths is refused from every store. */
  lemma TwoPathsAreRefused(c: Catalogue, library: nat, source: nat, t: Scanned, k: nat)
    requires k < |t.files| && t.files[k].path != t.files[0].path
    ensures RefreshItem(c, library, source, t).1 != Written
  {
    var saved, r := SaveScanned(c, t), Keyed(t.key);
    match SaveSource(saved, source, r, t.files[0])
    case None =>
    case Some(next) =>
      assert t.files[1..][k - 1] == t.files[k];
      HeldPathRefusesOthers(next, source, r, t.files[1..], t.files[0].path);
  }
}
