/**
 When jobs an earlier refresh left behind are harmless. Each has to agree with the newest answer, and files
 that have passed between several titles must leave them nowhere to be set aside: otherwise the earlier jobs
 can turn them round, one item at a time, under a refresh that goes on to complete.
 */
module LeftoverRounds {
  import opened Options
  import opened Tables
  import opened Convergence
  import opened Leftovers
  import H = Handover

  // ---- harmless jobs agree --------------------------------------------------------------------------

  /** From every store the index admits and wherever the earlier jobs are, completion means the snapshot. */
  ghost predicate Harmless(rf: Refresh, past: Refresh) {
    forall c: Catalogue, late, ss :: Indexed(c.files, rf.source) && AllFinished(rf, Steps(rf, past, Both(Begin(c, rf), late), ss).now) ==>
      HoldsSnapshot(rf, c, Steps(rf, past, Both(Begin(c, rf), late), ss).now.c)
  }

  function Parents(titles: seq<Scanned>): (parents: set<Ref>)
    ensures forall i :: 0 <= i < |titles| ==> Keyed(titles[i].parentKey) in parents
  {
    set i | 0 <= i < |titles| :: Keyed(titles[i].parentKey)
  }

  /** A store in which every parent is there already and nothing waits. */
  function Ready(rf: Refresh): Catalogue {
    var row := Item(None, Series, Headline("", "", None), None, None, None, false, false, [], false);
    Catalogue(map r | r in Parents(rf.titles) :: row, map[], {})
  }

  function OursOnly(es: seq<Event>): (ss: seq<Step>)
    ensures |ss| == |es| && forall i :: 0 <= i < |es| ==> ss[i] == Ours(es[i])
  {
    seq(|es|, i requires 0 <= i < |es| => Ours(es[i]))
  }

  lemma {:induction false} OursOnlyRuns(rf: Refresh, past: Refresh, w: World, late: seq<Phase>, es: seq<Event>)
    ensures Steps(rf, past, Both(w, late), OursOnly(es)) == Both(Run(rf, w, es), late)
  {
    if es != [] {
      var n := |es| - 1;
      OursOnlyRuns(rf, past, w, late, es[..n]);
      assert OursOnly(es)[..n] == OursOnly(es[..n]);
    }
  }

  /** The refresh completes from there with the earlier jobs idle. */
  lemma CompletesFromReady(rf: Refresh) returns (es: seq<Event>)
    requires WellFormed(rf)
    ensures AllFinished(rf, Run(rf, Begin(Ready(rf), rf), es))
  {
    var c := Ready(rf);
    forall ring
      ensures !H.Ring(rf, c, ring)
    {
      if ring != {} {
        var i :| i in ring;
        assert H.OnRing(i, ring) && !H.WaitsIn(rf, c, i, ring);
      }
    }
    es := H.EveryRunCanComplete(c, rf, []);
    assert [] + es == es;
  }

  /** One more statement, of earlier job o, once the refresh has completed. */
  lemma OneMore(rf: Refresh, past: Refresh, phase: Phase, e: Event) returns (w: World)
    requires WellFormed(rf) && Harmless(rf, past) && e.job < |past.titles| && !e.Lose?
    ensures AllFinished(rf, w) && HoldsSnapshot(rf, Ready(rf), w.c)
    ensures var late := seq(|past.titles|, _ => phase);
            HoldsSnapshot(rf, Ready(rf), Apply(past, World(w.c, late, {}, {}, {}), e).c)
  {
    var c, late := Ready(rf), seq(|past.titles|, _ => phase);
    var es := CompletesFromReady(rf);
    w := Run(rf, Begin(c, rf), es);
    CompletedHoldsTheSnapshot(c, rf, es);
    OursOnlyRuns(rf, past, Begin(c, rf), late, es);
    var ss := OursOnly(es) + [Theirs(e)];
    assert ss[..|es|] == OursOnly(es);
    assert Steps(rf, past, Both(Begin(c, rf), late), ss) == Take(rf, past, Both(w, late), Theirs(e));
    assert AllFinished(rf, Steps(rf, past, Both(Begin(c, rf), late), ss).now);
  }

  lemma HarmlessFileIsBorne(rf: Refresh, past: Refresh, o: nat)
    requires WellFormed(rf) && Harmless(rf, past) && o < |past.titles| && |past.titles[o].files| == 1 && past.source == rf.source
    ensures Bearing(rf, KeyOf(past, o))
  {
    var w := OneMore(rf, past, Saved, FileIt(o));
    var f, r := past.titles[o].files[0], KeyOf(past, o);
    var d := SaveSources(w.c, rf.source, r, past.titles[o].files).0;
    OneFile(w.c, rf.source, r, past.titles[o].files);
    if Clash(w.c.files, rf.source, r, f.path) {
      var q :| q in w.c.files && q != f.path && w.c.files[q].item == r && w.c.files[q].source == rf.source;
      var i: nat :| Holds(rf, i, q);
      assert Bears(rf, i, r);
    } else {
      var i: nat :| Holds(rf, i, f.path);
      assert Bears(rf, i, r);
    }
  }

  lemma HarmlessParentIsTheSame(rf: Refresh, past: Refresh, o: nat, i: nat)
    requires WellFormed(rf) && Harmless(rf, past) && o < |past.titles| && i < |rf.titles| && KeyOf(rf, i) == KeyOf(past, o)
    ensures ParentRef(rf.titles[i]) == ParentRef(past.titles[o])
  {
    var w := OneMore(rf, past, Found, Save(o));
    assert SaveScanned(w.c, past.titles[o]).items[KeyOf(rf, i)].parent == ParentRef(past.titles[o]);
  }

  lemma HarmlessTagIsTagged(rf: Refresh, past: Refresh, o: nat)
    requires WellFormed(rf) && Harmless(rf, past) && o < |past.titles| && past.titles[o].tagged
    requires past.library == rf.library && past.source == rf.source
    ensures Tagged(rf, KeyOf(past, o))
  {
    var w := OneMore(rf, past, Filed, Join(o));
    assert Member(rf.library, KeyOf(past, o), rf.source) in SaveMembership(w.c, rf.library, rf.source, KeyOf(past, o)).members;
  }

  lemma HarmlessAgrees(rf: Refresh, past: Refresh)
    requires WellFormed(rf) && OneFileEach(past.titles) && past.source == rf.source && Harmless(rf, past)
    ensures AllAgree(rf, past)
  {
    forall o: nat | o < |past.titles|
      ensures Agrees(rf, past, o)
    {
      if past.titles[o].files != [] {
        HarmlessFileIsBorne(rf, past, o);
      }
      forall i: nat | i < |rf.titles| && KeyOf(rf, i) == KeyOf(past, o)
        ensures ParentRef(rf.titles[i]) == ParentRef(past.titles[o])
      {
        HarmlessParentIsTheSame(rf, past, o, i);
      }
      if past.library == rf.library && past.titles[o].tagged {
        HarmlessTagIsTagged(rf, past, o);
      }
    }
  }

  // ---- turning files round --------------------------------------------------------------------------

  lemma {:induction false} StepsAppend(rf: Refresh, past: Refresh, b: Both, ss: seq<Step>, tt: seq<Step>)
    ensures Steps(rf, past, b, ss + tt) == Steps(rf, past, Steps(rf, past, b, ss), tt)
  {
    if tt == [] {
      assert ss + tt == ss;
    } else {
      var n := |tt| - 1;
      StepsAppend(rf, past, b, ss, tt[..n]);
      assert (ss + tt)[..|ss| + n] == ss + tt[..n] && (ss + tt)[|ss| + n] == tt[n];
    }
  }

  function TheirsOnly(es: seq<Event>): (ss: seq<Step>)
    ensures |ss| == |es| && forall i :: 0 <= i < |es| ==> ss[i] == Theirs(es[i])
  {
    seq(|es|, i requires 0 <= i < |es| => Theirs(es[i]))
  }

  lemma {:induction false} TheirsOnlyRuns(rf: Refresh, past: Refresh, b: Both, es: seq<Event>)
    ensures var v := Run(past, World(b.now.c, b.late, {}, {}, {}), es);
            Steps(rf, past, b, TheirsOnly(es)) == Both(b.now.(c := v.c), v.phase)
  {
    if es != [] {
      var n := |es| - 1;
      TheirsOnlyRuns(rf, past, b, es[..n]);
      assert TheirsOnly(es)[..n] == TheirsOnly(es[..n]);
      var v := Run(past, World(b.now.c, b.late, {}, {}, {}), es[..n]);
      var e := es[n];
      assert Apply(past, v, e).c == Apply(past, World(v.c, v.phase, {}, {}, {}), e).c;
    }
  }

  /** An attempt whose parent is there, and whose file no other path of its item keeps out, writes it all. */
  lemma AttemptWrites(rf: Refresh, w: World, i: nat)
    requires i < |rf.titles| == |w.phase| && |rf.titles[i].files| <= 1 && ParentFound(w.c, rf.titles[i])
    requires rf.titles[i].files != [] ==> !Clash(w.c.files, rf.source, KeyOf(rf, i), rf.titles[i].files[0].path)
    ensures var v, t := Run(rf, w, H.Attempt(i)), rf.titles[i];
            && |v.phase| == |rf.titles| && v.finished == w.finished + {i} && w.c.items.Keys <= v.c.items.Keys
            && v.c.files == if t.files == [] then w.c.files
                            else w.c.files[t.files[0].path := FileAt(Get(w.c.files, t.files[0].path), rf.source, KeyOf(rf, i), t.files[0])]
  {
    var t := rf.titles[i];
    H.RunAttempt(rf, w, i);
    var w2 := Apply(rf, Apply(rf, w, Lose(i)), Find(i));
    var w3 := Apply(rf, w2, Save(i));
    var w4 := Apply(rf, w3, FileIt(i));
    assert w2.phase[i] == Found && w3.phase[i] == Saved && w3.c.files == w.c.files;
    SourcesTouchOnlyFiles(w3.c, rf.source, KeyOf(rf, i), t.files);
    if t.files != [] {
      OneFile(w3.c, rf.source, KeyOf(rf, i), t.files);
    }
    assert w4.phase[i] == Filed;
  }

  predicate HasFile(rf: Refresh, j: nat) {
    j < |rf.titles| && rf.titles[j].files != []
  }

  function PathAt(rf: Refresh, j: nat): string
    requires HasFile(rf, j)
  {
    rf.titles[j].files[0].path
  }

  ghost predicate PathOfOne(rf: Refresh, at: map<nat, nat>, p: string) {
    exists j :: j in at && HasFile(rf, j) && PathAt(rf, j) == p
  }

  /** The only rows are the files of the titles in `at`, each on the item it is mapped to. */
  ghost predicate Placed(rf: Refresh, files: map<string, File<Ref>>, at: map<nat, nat>) {
    && (forall j :: j in at ==> HasFile(rf, j) && at[j] < |rf.titles|)
    && (forall j :: j in at ==> PathAt(rf, j) in files && files[PathAt(rf, j)].item == KeyOf(rf, at[j]))
    && (forall p :: p in files ==> PathOfOne(rf, at, p))
  }

  /** No other file is on title m's item. */
  predicate Free(at: map<nat, nat>, j: nat, m: nat) {
    forall x :: x in at && x != j ==> at[x] != m
  }

  lemma FreeMeansNoClash(rf: Refresh, files: map<string, File<Ref>>, at: map<nat, nat>, j: nat, m: nat)
    requires DistinctKeys(rf.titles) && Placed(rf, files, at) && HasFile(rf, j) && m < |rf.titles| && Free(at, j, m)
    ensures !Clash(files, rf.source, KeyOf(rf, m), PathAt(rf, j))
  {
    forall q | q in files && q != PathAt(rf, j)
      ensures files[q].item != KeyOf(rf, m)
    {
      assert PathOfOne(rf, at, q);
      var x :| x in at && HasFile(rf, x) && PathAt(rf, x) == q;
      KeysDiffer(rf, at[x], m);
    }
  }

  lemma KeysDiffer(rf: Refresh, i: nat, j: nat)
    requires DistinctKeys(rf.titles) && i < |rf.titles| && j < |rf.titles| && i != j
    ensures KeyOf(rf, i) != KeyOf(rf, j)
  {
  }

  lemma PathsDiffer(rf: Refresh, i: nat, j: nat)
    requires DistinctPaths(rf.titles) && HasFile(rf, i) && HasFile(rf, j) && i != j
    ensures PathAt(rf, i) != PathAt(rf, j)
  {
  }

  lemma StillAPath(rf: Refresh, at: map<nat, nat>, j: nat, m: nat, p: string)
    requires HasFile(rf, j) && (PathOfOne(rf, at, p) || p == PathAt(rf, j))
    ensures PathOfOne(rf, at[j := m], p)
  {
    if p == PathAt(rf, j) {
      assert j in at[j := m];
    } else {
      var x :| x in at && HasFile(rf, x) && PathAt(rf, x) == p;
      assert x in at[j := m];
    }
  }

  lemma PlacedAfter(rf: Refresh, files: map<string, File<Ref>>, at: map<nat, nat>, j: nat, m: nat, row: File<Ref>)
    requires DistinctPaths(rf.titles) && Placed(rf, files, at) && HasFile(rf, j) && m < |rf.titles| && row.item == KeyOf(rf, m)
    ensures Placed(rf, files[PathAt(rf, j) := row], at[j := m])
  {
    var after, moved := files[PathAt(rf, j) := row], at[j := m];
    forall x | x in moved
      ensures PathAt(rf, x) in after && after[PathAt(rf, x)].item == KeyOf(rf, moved[x])
    {
      if x != j {
        PathsDiffer(rf, x, j);
      }
    }
    forall p | p in after
      ensures PathOfOne(rf, moved, p)
    {
      StillAPath(rf, at, j, m, p);
    }
  }

  /** Where the files are, whose jobs have finished, and that every parent is there. */
  ghost predicate Lies(rf: Refresh, past: Refresh, b: Both, at: map<nat, nat>, done: set<nat>) {
    && |b.now.phase| == |rf.titles| && |b.late| == |past.titles| && b.now.finished == done
    && (forall i: nat :: i < |rf.titles| ==> ParentFound(b.now.c, rf.titles[i]))
    && Placed(rf, b.now.c.files, at)
  }

  lemma OurTurn(rf: Refresh, past: Refresh, b0: Both, ss: seq<Step>, at: map<nat, nat>, done: set<nat>, i: nat) returns (tt: seq<Step>)
    requires WellFormed(rf) && Lies(rf, past, Steps(rf, past, b0, ss), at, done) && i < |rf.titles| && Free(at, i, i)
    ensures Lies(rf, past, Steps(rf, past, b0, tt), if HasFile(rf, i) then at[i := i] else at, done + {i})
  {
    var b := Steps(rf, past, b0, ss);
    tt := ss + OursOnly(H.Attempt(i));
    StepsAppend(rf, past, b0, ss, OursOnly(H.Attempt(i)));
    OursOnlyRuns(rf, past, b.now, b.late, H.Attempt(i));
    if HasFile(rf, i) {
      FreeMeansNoClash(rf, b.now.c.files, at, i, i);
      PlacedAfter(rf, b.now.c.files, at, i, i, FileAt(Get(b.now.c.files, PathAt(rf, i)), rf.source, KeyOf(rf, i), rf.titles[i].files[0]));
    }
    AttemptWrites(rf, b.now, i);
  }

  lemma TheirTurn(rf: Refresh, past: Refresh, b0: Both, ss: seq<Step>, at: map<nat, nat>, done: set<nat>, j: nat, m: nat) returns (tt: seq<Step>)
    requires WellFormed(rf) && OneFileEach(past.titles) && past.source == rf.source && AllAgree(rf, past)
    requires Lies(rf, past, Steps(rf, past, b0, ss), at, done) && Passes(rf, past, j, m) && Free(at, j, m)
    ensures Lies(rf, past, Steps(rf, past, b0, tt), at[j := m], done)
  {
    var b := Steps(rf, past, b0, ss);
    var o: nat :| PassedBy(rf, past, o, j, m);
    tt := ss + TheirsOnly(H.Attempt(o));
    StepsAppend(rf, past, b0, ss, TheirsOnly(H.Attempt(o)));
    TheirsOnlyRuns(rf, past, b, H.Attempt(o));
    FreeMeansNoClash(rf, b.now.c.files, at, j, m);
    PlacedAfter(rf, b.now.c.files, at, j, m, FileAt(Get(b.now.c.files, PathAt(rf, j)), rf.source, KeyOf(rf, m), past.titles[o].files[0]));
    assert Agrees(rf, past, o) && ParentFound(b.now.c, rf.titles[m]);
    AttemptWrites(past, World(b.now.c, b.late, {}, {}, {}), o);
  }

  /** Each of the first n titles but f has its own file. */
  ghost predicate AtHome(rf: Refresh, at: map<nat, nat>, f: nat, n: nat) {
    && (forall j: nat :: j in at <==> j < n && j != f && HasFile(rf, j))
    && (forall j :: j in at ==> at[j] == j)
  }

  lemma BelowNext(n: nat, f: nat)
    requires 0 < n
    ensures Below(n) - {f} == if n - 1 != f then Below(n - 1) - {f} + {n - 1} else Below(n - 1) - {f}
  {
  }

  /** First every title but f is filed. */
  lemma {:induction false} FileAllBut(rf: Refresh, past: Refresh, b0: Both, f: nat, n: nat) returns (ss: seq<Step>, at: map<nat, nat>)
    requires WellFormed(rf) && Lies(rf, past, b0, map[], {}) && n <= |rf.titles|
    ensures Lies(rf, past, Steps(rf, past, b0, ss), at, Below(n) - {f}) && AtHome(rf, at, f, n)
  {
    if n == 0 {
      ss, at := [], map[];
      assert Below(0) - {f} == {};
    } else {
      ss, at := FileAllBut(rf, past, b0, f, n - 1);
      BelowNext(n, f);
      if n - 1 != f {
        ss := OurTurn(rf, past, b0, ss, at, Below(n - 1) - {f}, n - 1);
        at := if HasFile(rf, n - 1) then at[n - 1 := n - 1] else at;
      }
    }
  }

  /** Where title l[a]'s file is once the titles of the round from the h-th on have handed theirs on. */
  predicate HandedOn(l: seq<nat>, h: nat, at: map<nat, nat>, a: nat) {
    a < |l| && l[a] in at && at[l[a]] == if a < h then l[a] else if a == |l| - 1 then l[0] else l[a + 1]
  }

  ghost predicate Turned(l: seq<nat>, f: nat, h: nat, at: map<nat, nat>) {
    && 1 <= h <= |l| && l[0] in at && at[l[0]] == f
    && (forall a: nat {:trigger HandedOn(l, h, at, a)} :: 1 <= a < |l| ==> HandedOn(l, h, at, a))
    && (forall x :: x in at && x !in l ==> at[x] == x && x != f)
  }

  lemma TurnedIsFree(l: seq<nat>, f: nat, h: nat, at: map<nat, nat>, j: nat, m: nat)
    requires Distinct(l) && f !in l && Turned(l, f, h, at)
    requires if h == 1 then j == l[0] && |l| > 1 && m == l[1] else j == l[h - 1] && m == if h == |l| then l[0] else l[h]
    ensures Free(at, j, m)
  {
    forall x | x in at && x != j
      ensures at[x] != m
    {
      if x in l {
        var a: nat :| a < |l| && l[a] == x;
        assert a > 0 ==> HandedOn(l, h, at, a);
      }
    }
  }

  lemma TurnedNext(l: seq<nat>, f: nat, h: nat, at: map<nat, nat>)
    requires Distinct(l) && Turned(l, f, h, at) && h > 1
    ensures Turned(l, f, h - 1, at[l[h - 1] := if h == |l| then l[0] else l[h]])
  {
    var to, g := at[l[h - 1] := if h == |l| then l[0] else l[h]], h - 1;
    forall a: nat | 1 <= a < |l|
      ensures HandedOn(l, g, to, a)
    {
      assert HandedOn(l, h, at, a);
    }
  }

  /** The hole the first file left moves back along the round. */
  lemma {:induction false} TurnRound(rf: Refresh, past: Refresh, b0: Both, ss: seq<Step>, at: map<nat, nat>, done: set<nat>, l: seq<nat>, f: nat, h: nat)
    returns (tt: seq<Step>, to: map<nat, nat>)
    requires WellFormed(rf) && OneFileEach(past.titles) && past.source == rf.source && AllAgree(rf, past)
    requires Lies(rf, past, Steps(rf, past, b0, ss), at, done) && Round(rf, past, l) && f !in l && Turned(l, f, h, at)
    ensures Lies(rf, past, Steps(rf, past, b0, tt), to, done) && Turned(l, f, 1, to)
    decreases h
  {
    if h == 1 {
      tt, to := ss, at;
    } else {
      var j, m := l[h - 1], if h == |l| then l[0] else l[h];
      TurnedIsFree(l, f, h, at, j, m);
      var uu := TheirTurn(rf, past, b0, ss, at, done, j, m);
      TurnedNext(l, f, h, at);
      tt, to := TurnRound(rf, past, b0, uu, at[j := m], done, l, f, h - 1);
    }
  }

  lemma HarmsIf(rf: Refresh, past: Refresh, c: Catalogue, late: seq<Phase>, ss: seq<Step>, i: nat, p: string)
    requires Indexed(c.files, rf.source) && AllFinished(rf, Steps(rf, past, Both(Begin(c, rf), late), ss).now) && Holds(rf, i, p)
    requires var d := Steps(rf, past, Both(Begin(c, rf), late), ss).now.c; p in d.files && d.files[p].item != KeyOf(rf, i)
    ensures !Harmless(rf, past)
  {
    assert !HoldsSnapshot(rf, c, Steps(rf, past, Both(Begin(c, rf), late), ss).now.c);
  }

  lemma RoundHasFiles(rf: Refresh, past: Refresh, l: seq<nat>)
    requires Round(rf, past, l)
    ensures |l| > 1 && forall a :: 0 <= a < |l| ==> HasFile(rf, l[a])
  {
    forall a | 0 <= a < |l|
      ensures HasFile(rf, l[a])
    {
      assert Passes(rf, past, l[a], if a == |l| - 1 then l[0] else l[a + 1]);
    }
  }

  lemma AsideIsTurned(rf: Refresh, l: seq<nat>, f: nat, at: map<nat, nat>)
    requires Distinct(l) && |l| > 1 && f !in l && (forall a :: 0 <= a < |l| ==> HasFile(rf, l[a])) && AtHome(rf, at, f, |rf.titles|)
    ensures Free(at, l[0], f) && Turned(l, f, |l|, at[l[0] := f])
  {
    var to, h := at[l[0] := f], |l|;
    forall a: nat | 1 <= a < |l|
      ensures HandedOn(l, h, to, a)
    {
      assert HasFile(rf, l[a]) && l[a] in to;
    }
  }

  lemma ReadyLies(rf: Refresh, past: Refresh)
    requires WellFormed(rf)
    ensures Lies(rf, past, Both(Begin(Ready(rf), rf), seq(|past.titles|, _ => Start)), map[], {})
  {
  }

  /** Every title but f is filed, and the first of the round has its file set aside on f's item. */
  lemma SetAside(rf: Refresh, past: Refresh, b0: Both, l: seq<nat>, f: nat) returns (ss: seq<Step>, at: map<nat, nat>)
    requires WellFormed(rf) && OneFileEach(past.titles) && past.source == rf.source && AllAgree(rf, past)
    requires Lies(rf, past, b0, map[], {}) && Round(rf, past, l) && f !in l && Passes(rf, past, l[0], f)
    ensures Lies(rf, past, Steps(rf, past, b0, ss), at, Below(|rf.titles|) - {f}) && Turned(l, f, |l|, at)
  {
    var n := |rf.titles|;
    var rr, home := FileAllBut(rf, past, b0, f, n);
    RoundHasFiles(rf, past, l);
    AsideIsTurned(rf, l, f, home);
    ss := TheirTurn(rf, past, b0, rr, home, Below(n) - {f}, l[0], f);
    at := home[l[0] := f];
  }

  /** The file set aside goes to the item left free, and f is filed last. */
  lemma PutBack(rf: Refresh, past: Refresh, b0: Both, ss: seq<Step>, at: map<nat, nat>, l: seq<nat>, f: nat)
    returns (tt: seq<Step>, to: map<nat, nat>)
    requires WellFormed(rf) && OneFileEach(past.titles) && past.source == rf.source && AllAgree(rf, past)
    requires Lies(rf, past, Steps(rf, past, b0, ss), at, Below(|rf.titles|) - {f}) && Turned(l, f, 1, at) && f < |rf.titles|
    requires Round(rf, past, l) && |l| > 1 && f !in l
    ensures Lies(rf, past, Steps(rf, past, b0, tt), to, Below(|rf.titles|)) && l[0] in to && to[l[0]] == l[1]
  {
    TurnedIsFree(l, f, 1, at, l[0], l[1]);
    var uu := TheirTurn(rf, past, b0, ss, at, Below(|rf.titles|) - {f}, l[0], l[1]);
    var moved := at[l[0] := l[1]];
    PutBackFrees(l, f, at);
    tt := OurTurn(rf, past, b0, uu, moved, Below(|rf.titles|) - {f}, f);
    to := if HasFile(rf, f) then moved[f := f] else moved;
    assert Below(|rf.titles|) - {f} + {f} == Below(|rf.titles|);
  }

  lemma PutBackFrees(l: seq<nat>, f: nat, at: map<nat, nat>)
    requires Turned(l, f, 1, at) && |l| > 1 && f !in l
    ensures Free(at[l[0] := l[1]], f, f)
  {
    var moved := at[l[0] := l[1]];
    forall x | x in moved && x != f
      ensures moved[x] != f
    {
      if x in l {
        var a: nat :| a < |l| && l[a] == x;
        assert a > 0 ==> HandedOn(l, 1, at, a);
      }
    }
  }

  lemma AwayIsNotHome(rf: Refresh, past: Refresh, b: Both, at: map<nat, nat>, done: set<nat>, j: nat)
    requires WellFormed(rf) && Lies(rf, past, b, at, done) && j in at && at[j] != j
    ensures HasFile(rf, j) && Holds(rf, j, PathAt(rf, j))
    ensures PathAt(rf, j) in b.now.c.files && b.now.c.files[PathAt(rf, j)].item != KeyOf(rf, j)
  {
    KeysDiffer(rf, at[j], j);
  }

  /** Filed, set aside, turned round, put back, and only then is f filed. */
  lemma RoundIsTurned(rf: Refresh, past: Refresh, b0: Both, l: seq<nat>, f: nat) returns (ss: seq<Step>, at: map<nat, nat>)
    requires WellFormed(rf) && OneFileEach(past.titles) && past.source == rf.source && AllAgree(rf, past)
    requires Lies(rf, past, b0, map[], {}) && Round(rf, past, l) && f !in l && Passes(rf, past, l[0], f)
    ensures Lies(rf, past, Steps(rf, past, b0, ss), at, Below(|rf.titles|)) && |l| > 1 && l[0] in at && at[l[0]] == l[1]
  {
    RoundHasFiles(rf, past, l);
    var rr, aside := SetAside(rf, past, b0, l, f);
    var tt, turned := TurnRound(rf, past, b0, rr, aside, Below(|rf.titles|) - {f}, l, f, |l|);
    ss, at := PutBack(rf, past, b0, tt, turned, l, f);
  }

  /** So the titles of the round have one another's files for good. */
  lemma TurnableHarms(rf: Refresh, past: Refresh, l: seq<nat>, f: nat)
    requires WellFormed(rf) && OneFileEach(past.titles) && past.source == rf.source && AllAgree(rf, past)
    requires Round(rf, past, l) && f !in l && Passes(rf, past, l[0], f)
    ensures !Harmless(rf, past)
  {
    var c, late := Ready(rf), seq(|past.titles|, _ => Start);
    ReadyLies(rf, past);
    var ss, at := RoundIsTurned(rf, past, Both(Begin(c, rf), late), l, f);
    AwayIsNotHome(rf, past, Steps(rf, past, Both(Begin(c, rf), late), ss), at, Below(|rf.titles|), l[0]);
    HarmsIf(rf, past, c, late, ss, l[0], PathAt(rf, l[0]));
  }

  /** Earlier jobs are harmless exactly when each agrees and no round of files can be turned. */
  lemma HarmlessIff(rf: Refresh, past: Refresh)
    requires WellFormed(rf) && OneFileEach(past.titles) && past.source == rf.source
    ensures Harmless(rf, past) <==> AllAgree(rf, past) && !Turnable(rf, past)
  {
    if Harmless(rf, past) {
      HarmlessAgrees(rf, past);
      if Turnable(rf, past) {
        var l: seq<nat>, f: nat :| Round(rf, past, l) && f !in l && Passes(rf, past, l[0], f);
        TurnableHarms(rf, past, l, f);
      }
    }
    if AllAgree(rf, past) && !Turnable(rf, past) {
      forall c: Catalogue, late, ss | Indexed(c.files, rf.source) && AllFinished(rf, Steps(rf, past, Both(Begin(c, rf), late), ss).now)
        ensures HoldsSnapshot(rf, c, Steps(rf, past, Both(Begin(c, rf), late), ss).now.c)
      {
        LeftoversKeepTheSnapshot(c, rf, past, late, ss);
      }
    }
  }

  lemma OneJobOneItem(rf: Refresh, past: Refresh, a: nat, m: nat, b: nat, k: nat)
    requires WellFormed(rf) && |past.titles| == 1 && Passes(rf, past, a, m) && Passes(rf, past, b, k)
    ensures m == k
  {
    assert KeyOf(rf, m) == KeyOf(past, 0) == KeyOf(rf, k);
  }

  /** One earlier job alone turns nothing. */
  lemma OneLeftoverIsHarmlessIff(rf: Refresh, past: Refresh)
    requires WellFormed(rf) && |past.titles| == 1 && OneFileEach(past.titles) && past.source == rf.source
    ensures Harmless(rf, past) <==> Agrees(rf, past, 0)
  {
    HarmlessIff(rf, past);
    forall l: seq<nat> | Round(rf, past, l)
      ensures false
    {
      RoundHasFiles(rf, past, l);
      OneJobOneItem(rf, past, l[0], l[1], l[|l| - 1], l[0]);
    }
  }

  // ---- the failing input ------------------------------------------------------------------------------

  lemma TurnableIsNotHarmless(rf: Refresh, past: Refresh)
    requires WellFormed(rf) && OneFileEach(past.titles) && past.source == rf.source && Turnable(rf, past)
    ensures !Harmless(rf, past)
  {
    HarmlessIff(rf, past);
  }

  function ThreeFilms(one: string, two: string, three: string, x: string, y: string, z: string): Refresh {
    Refresh(0, 0, [H.Film(one, x), H.Film(two, y), H.Film(three, z)])
  }

  /** Earlier the first one's file was the third's, then the second's, and the second's was the first's. */
  function EarlierFilms(one: string, two: string, three: string, x: string, y: string): Refresh {
    Refresh(0, 0, [H.Film(three, x), H.Film(one, y), H.Film(two, x)])
  }

  lemma ThreeAgree(one: string, two: string, three: string, x: string, y: string, z: string)
    requires one != two && one != three && two != three && x != y && x != z && y != z
    ensures var rf, past := ThreeFilms(one, two, three, x, y, z), EarlierFilms(one, two, three, x, y);
            WellFormed(rf) && AllAgree(rf, past) && OneFileEach(past.titles) && past.source == rf.source
  {
    var rf := ThreeFilms(one, two, three, x, y, z);
    assert Bears(rf, 0, Keyed(one)) && Bears(rf, 1, Keyed(two)) && Bears(rf, 2, Keyed(three));
    assert TaggedAs(rf, 0, Keyed(one)) && TaggedAs(rf, 1, Keyed(two)) && TaggedAs(rf, 2, Keyed(three));
  }

  lemma ThreeTurn(one: string, two: string, three: string, x: string, y: string, z: string)
    ensures Turnable(ThreeFilms(one, two, three, x, y, z), EarlierFilms(one, two, three, x, y))
  {
    var rf, past := ThreeFilms(one, two, three, x, y, z), EarlierFilms(one, two, three, x, y);
    assert PassedBy(rf, past, 2, 0, 1) && PassedBy(rf, past, 1, 1, 0) && PassedBy(rf, past, 0, 0, 2);
    var l: seq<nat> := [0, 1];
    assert Round(rf, past, l) && 2 !in l && Passes(rf, past, l[0], 2);
  }

  /** Each of the three jobs agrees; together they can leave two films with each other's file in a completed refresh. */
  lemma ThreeLeftoversHarm(one: string, two: string, three: string, x: string, y: string, z: string)
    requires one != two && one != three && two != three && x != y && x != z && y != z
    ensures var rf, past := ThreeFilms(one, two, three, x, y, z), EarlierFilms(one, two, three, x, y);
            WellFormed(rf) && AllAgree(rf, past) && !Harmless(rf, past)
  {
    ThreeAgree(one, two, three, x, y, z);
    ThreeTurn(one, two, three, x, y, z);
    TurnableIsNotHarmless(ThreeFilms(one, two, three, x, y, z), EarlierFilms(one, two, three, x, y));
  }
}
