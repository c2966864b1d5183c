/**
 The job queue: workflows deduplicated by identifier, attempted at most eight times each, and enqueuing
 further jobs as they run. The main result is that every schedule of them drains.
 */
module Jobs {
  import opened Options

  datatype Name =
    | RefreshLibraries | RefreshLibrary | RefreshLibrarySource | RefreshItem | RefreshMetadata
    | RefreshItemMetadata | ProbeFile | ProbeFiles | SweepItems

  const MAX_ATTEMPTS := 8

  /** What identifies a workflow: the job's name and its parameters as written, the hash taken to be injective. */
  datatype Id = Id(name: Name, written: map<string, string>)

  function TrimQuotes(s: string): string {
    if s != "" && s[0] == '"' then TrimQuotes(s[1..])
    else if s != "" && s[|s| - 1] == '"' then TrimQuotes(s[..|s| - 1])
    else s
  }

  datatype Param = Param(name: string, value: string)

  /** The parameter map as Enqueue fills it: a later parameter of the same name wins. */
  function Held(params: seq<Param>): map<string, string> {
    if params == [] then map[]
    else Held(params[..|params| - 1])[params[|params| - 1].name := params[|params| - 1].value]
  }

  function IdOf(name: Name, params: seq<Param>): Id {
    Id(name, map key | key in Held(params) :: TrimQuotes(Held(params)[key]))
  }

  /** A workflow waits for its next attempt, or is in one and still has jobs to enqueue. */
  datatype State = Waiting | Busy(todo: seq<Id>)

  datatype Running = Running(id: Id, attempts: nat, state: State)

  type Queue = seq<Running>

  predicate Holds(q: Queue, id: Id) {
    exists k :: 0 <= k < |q| && q[k].id == id
  }

  /** ExecuteWorkflow; an identifier already running is not an error and adds nothing. */
  function Enqueued(q: Queue, id: Id): Queue {
    if Holds(q, id) then q else q + [Running(id, 0, Waiting)]
  }

  function EnqueuedAll(q: Queue, ids: seq<Id>): Queue {
    if ids == [] then q else Enqueued(EnqueuedAll(q, ids[..|ids| - 1]), ids[|ids| - 1])
  }

  ghost predicate Distinct(q: Queue) {
    forall j, k :: 0 <= j < k < |q| ==> q[j].id != q[k].id
  }

  class Client {
    var running: Queue

    method Enqueue(name: Name, params: seq<Param>)
      requires Distinct(running)
      modifies this
      ensures running == Enqueued(old(running), IdOf(name, params)) && Distinct(running)
    {
      var held: map<string, string> := map[];
      for i := 0 to |params|
        invariant held == Held(params[..i])
      {
        assert params[..i + 1][..i] == params[..i];
        held := held[params[i].name := params[i].value];
      }
      assert params[..|params|] == params;
      var id := Id(name, map key | key in held :: TrimQuotes(held[key]));
      if !Holds(running, id) {
        running := running + [Running(id, 0, Waiting)];
      }
    }

    /** One job a library. */
    method RefreshAll(libraries: seq<string>)
      requires Distinct(running)
      modifies this
      ensures running == EnqueuedAll(old(running), LibraryJobs(libraries)) && Distinct(running)
      ensures forall i :: 0 <= i < |libraries| ==> Holds(running, Id(RefreshLibrary, map["library" := TrimQuotes(libraries[i])]))
    {
      for i := 0 to |libraries|
        invariant running == EnqueuedAll(old(running), LibraryJobs(libraries[..i])) && Distinct(running)
      {
        assert LibraryJobs(libraries[..i + 1])[..i] == LibraryJobs(libraries[..i]);
        Enqueue(RefreshLibrary, [Param("library", libraries[i])]);
      }
      assert libraries[..|libraries|] == libraries;
      LibraryJobsAre(libraries);
      EnqueuedAllHolds(old(running), LibraryJobs(libraries));
      assert forall i :: 0 <= i < |libraries| ==> LibraryJobs(libraries)[i] in LibraryJobs(libraries);
    }

    /** One job a source bound to the library. */
    method RefreshOne(library: string, sources: seq<string>)
      requires Distinct(running)
      modifies this
      ensures running == EnqueuedAll(old(running), SourceJobs(library, sources)) && Distinct(running)
      ensures forall i :: 0 <= i < |sources| ==>
                Holds(running, Id(RefreshLibrarySource, map["library" := TrimQuotes(library), "source" := TrimQuotes(sources[i])]))
    {
      if |sources| == 0 {
        return;
      }
      for i := 0 to |sources|
        invariant running == EnqueuedAll(old(running), SourceJobs(library, sources[..i])) && Distinct(running)
      {
        assert SourceJobs(library, sources[..i + 1])[..i] == SourceJobs(library, sources[..i]);
        Enqueue(RefreshLibrarySource, [Param("library", library), Param("source", sources[i])]);
      }
      assert sources[..|sources|] == sources;
      SourceJobsAre(library, sources);
      EnqueuedAllHolds(old(running), SourceJobs(library, sources));
      assert forall i :: 0 <= i < |sources| ==> SourceJobs(library, sources)[i] in SourceJobs(library, sources);
    }
  }

  function LibraryJobs(libraries: seq<string>): seq<Id> {
    seq(|libraries|, i requires 0 <= i < |libraries| => IdOf(RefreshLibrary, [Param("library", libraries[i])]))
  }

  function SourceJobs(library: string, sources: seq<string>): seq<Id> {
    seq(|sources|, i requires 0 <= i < |sources| =>
      IdOf(RefreshLibrarySource, [Param("library", library), Param("source", sources[i])]))
  }

  /** Each library has a job of its own, named by the library. */
  lemma LibraryJobsAre(libraries: seq<string>)
    ensures |LibraryJobs(libraries)| == |libraries|
    ensures forall i :: 0 <= i < |libraries| ==> LibraryJobs(libraries)[i] == Id(RefreshLibrary, map["library" := TrimQuotes(libraries[i])])
  {
    forall i | 0 <= i < |libraries|
      ensures LibraryJobs(libraries)[i] == Id(RefreshLibrary, map["library" := TrimQuotes(libraries[i])])
    {
      OneWritten(RefreshLibrary, "library", libraries[i]);
    }
  }

  /** Each source bound to the library has one, named by both. */
  lemma SourceJobsAre(library: string, sources: seq<string>)
    ensures |SourceJobs(library, sources)| == |sources|
    ensures forall i :: 0 <= i < |sources| ==>
              SourceJobs(library, sources)[i] ==
              Id(RefreshLibrarySource, map["library" := TrimQuotes(library), "source" := TrimQuotes(sources[i])])
  {
    assert "library" != "source";
    forall i | 0 <= i < |sources|
      ensures SourceJobs(library, sources)[i] ==
              Id(RefreshLibrarySource, map["library" := TrimQuotes(library), "source" := TrimQuotes(sources[i])])
    {
      TwoWritten(RefreshLibrarySource, "library", library, "source", sources[i]);
    }
  }

  lemma OneWritten(name: Name, one: string, a: string)
    ensures IdOf(name, [Param(one, a)]) == Id(name, map[one := TrimQuotes(a)])
  {
    OneParam(one, a);
  }

  lemma WrittenIs(name: Name, params: seq<Param>, held: map<string, string>)
    requires Held(params) == held
    ensures IdOf(name, params).name == name && IdOf(name, params).written.Keys == held.Keys
    ensures forall key :: key in held ==> IdOf(name, params).written[key] == TrimQuotes(held[key])
  {
  }

  lemma SameTwo(m: map<string, string>, one: string, a: string, two: string, b: string)
    requires one != two && m.Keys == {one, two} && m[one] == a && m[two] == b
    ensures m == map[one := a, two := b]
  {
  }

  lemma TwoWritten(name: Name, one: string, a: string, two: string, b: string)
    requires one != two
    ensures IdOf(name, [Param(one, a), Param(two, b)]) == Id(name, map[one := TrimQuotes(a), two := TrimQuotes(b)])
  {
    TwoParams(one, a, two, b);
    WrittenIs(name, [Param(one, a), Param(two, b)], map[one := a, two := b]);
    SameTwo(IdOf(name, [Param(one, a), Param(two, b)]).written, one, TrimQuotes(a), two, TrimQuotes(b));
  }

  /** A parameter is written as JSON; the quotes a string gets around it are taken off, and nothing else. */
  lemma {:induction false} QuotesComeOff(s: string)
    requires s != "" && s[0] != '"' && s[|s| - 1] != '"'
    ensures TrimQuotes(s) == s && TrimQuotes(['"'] + s + ['"']) == s
  {
    var quoted := ['"'] + s + ['"'];
    assert quoted[1..] == s + ['"'] && (s + ['"'])[..|s|] == s;
    assert TrimQuotes(s + ['"']) == TrimQuotes((s + ['"'])[..|s|]);
  }

  lemma OneParam(name: string, value: string)
    ensures Held([Param(name, value)]) == map[name := value]
  {
    assert [Param(name, value)][..0] == [];
  }

  lemma TwoParams(one: string, a: string, two: string, b: string)
    requires one != two
    ensures Held([Param(one, a), Param(two, b)]) == map[one := a, two := b]
  {
    assert [Param(one, a), Param(two, b)][..1] == [Param(one, a)];
    OneParam(one, a);
  }

  /** After enqueueing, exactly what ran before and what was asked for runs, each once; what is new has not been attempted. */
  lemma {:induction false} EnqueuedAllHolds(q: Queue, ids: seq<Id>)
    requires Distinct(q)
    ensures var r := EnqueuedAll(q, ids);
            && Distinct(r) && |q| <= |r| && r[..|q|] == q
            && (forall id :: Holds(r, id) <==> Holds(q, id) || id in ids)
            && (forall k :: |q| <= k < |r| ==> r[k].id in ids && r[k].attempts == 0 && r[k].state.Waiting?)
  {
    if ids != [] {
      var n := |ids| - 1;
      EnqueuedAllHolds(q, ids[..n]);
      var r, id := EnqueuedAll(q, ids[..n]), ids[n];
      assert ids == ids[..n] + [id];
      EnqueuedHolds(r, id);
      if !Holds(r, id) {
        assert Enqueued(r, id)[..|q|] == q;
      }
    }
  }

  lemma EnqueuedHolds(q: Queue, id: Id)
    ensures forall other :: Holds(Enqueued(q, id), other) <==> Holds(q, other) || other == id
  {
    var r := Enqueued(q, id);
    forall other
      ensures Holds(r, other) <==> Holds(q, other) || other == id
    {
      if Holds(q, other) {
        var k :| 0 <= k < |q| && q[k].id == other;
        assert r[k].id == other;
      }
      if other == id && !Holds(q, id) {
        assert r[|q|].id == id;
      }
    }
  }

  // ---- who enqueues whom ----------------------------------------------------------------------------

  /** The jobs the code of each job enqueues. */
  function Fans(name: Name): set<Name> {
    match name
    case RefreshLibraries => {RefreshLibrary}
    case RefreshLibrary => {RefreshLibrarySource}
    case RefreshLibrarySource => {RefreshItem}
    case RefreshItem => {ProbeFile, RefreshItemMetadata}
    case RefreshMetadata => {RefreshItemMetadata}
    case _ => {}
  }

  /** What the two library jobs enqueue is within their fan-out. */
  lemma LibraryFanOut(libraries: seq<string>, library: string, sources: seq<string>)
    ensures MayEnqueue(RefreshLibraries, LibraryJobs(libraries)) && MayEnqueue(RefreshLibrary, SourceJobs(library, sources))
    ensures forall i, j :: 0 <= i < j < |sources| && TrimQuotes(sources[i]) != TrimQuotes(sources[j]) ==>
              SourceJobs(library, sources)[i] != SourceJobs(library, sources)[j]
  {
    forall i, j | 0 <= i < j < |sources| && TrimQuotes(sources[i]) != TrimQuotes(sources[j])
      ensures SourceJobs(library, sources)[i] != SourceJobs(library, sources)[j]
    {
      assert Held([Param("library", library), Param("source", sources[i])])["source"] == sources[i];
      assert Held([Param("library", library), Param("source", sources[j])])["source"] == sources[j];
      assert SourceJobs(library, sources)[i].written["source"] == TrimQuotes(sources[i]);
      assert SourceJobs(library, sources)[j].written["source"] == TrimQuotes(sources[j]);
    }
  }

  /** Every place where the code of a job enqueues another is within its fan-out, and the remaining jobs enqueue nothing. */
  lemma FanOutIs(name: Name, files: seq<Id>, items: seq<Id>)
    requires forall k :: 0 <= k < |files| ==> files[k].name == ProbeFile
    requires forall k :: 0 <= k < |items| ==> items[k].name == RefreshItemMetadata
    ensures MayEnqueue(RefreshItem, files + items) && MayEnqueue(RefreshMetadata, items)
    ensures name in {RefreshItemMetadata, ProbeFile, ProbeFiles, SweepItems} ==> forall todo: seq<Id> :: MayEnqueue(name, todo) ==> todo == []
    ensures forall todo: seq<Id> :: MayEnqueue(RefreshLibrarySource, todo) <==> forall k :: 0 <= k < |todo| ==> todo[k].name == RefreshItem
  {
    forall k | 0 <= k < |files + items|
      ensures (files + items)[k].name in Fans(RefreshItem)
    {
      assert k >= |files| ==> (files + items)[k] == items[k - |files|];
    }
    forall todo: seq<Id> | name in {RefreshItemMetadata, ProbeFile, ProbeFiles, SweepItems} && MayEnqueue(name, todo)
      ensures todo == []
    {
      assert |todo| > 0 ==> todo[0].name in Fans(name);
    }
  }

  function Rank(name: Name): (r: nat)
    ensures r < 5
  {
    match name
    case RefreshLibraries => 4
    case RefreshLibrary => 3
    case RefreshLibrarySource => 2
    case RefreshItem => 1
    case RefreshMetadata => 1
    case _ => 0
  }

  predicate MayEnqueue(name: Name, todo: seq<Id>) {
    forall k :: 0 <= k < |todo| ==> todo[k].name in Fans(name)
  }

  // ---- schedules --------------------------------------------------------------------------------------

  /** What can happen next to the k-th running workflow. */
  datatype Event =
    | Begin(k: nat, todo: seq<Id>)
    | Emit(k: nat)
    | Succeed(k: nat)
    | Fail(k: nat)

  function Dropped(q: Queue, k: nat): Queue
    requires k < |q|
  {
    q[..k] + q[k + 1..]
  }

  predicate Enabled(q: Queue, e: Event) {
    && e.k < |q|
    && match e
       case Begin(k, todo) => q[k].state.Waiting? && q[k].attempts < MAX_ATTEMPTS && MayEnqueue(q[k].id.name, todo)
       case Emit(k) => q[k].state.Busy? && q[k].state.todo != []
       case Succeed(k) => q[k].state.Busy? && q[k].state.todo == []
       case Fail(k) => q[k].state.Busy?
  }

  /** An attempt starts, enqueues its next job, ends well, or is lost; after the eighth loss the workflow is over. */
  function Next(q: Queue, e: Event): Queue
    requires Enabled(q, e)
  {
    match e
    case Begin(k, todo) => q[k := Running(q[k].id, q[k].attempts + 1, Busy(todo))]
    case Emit(k) => Enqueued(q[k := q[k].(state := Busy(q[k].state.todo[1..]))], q[k].state.todo[0])
    case Succeed(k) => Dropped(q, k)
    case Fail(k) => if q[k].attempts < MAX_ATTEMPTS then q[k := q[k].(state := Waiting)] else Dropped(q, k)
  }

  ghost predicate Step(q: Queue, r: Queue) {
    exists e :: Enabled(q, e) && r == Next(q, e)
  }

  /** Attempts are counted, and a busy workflow only has jobs of its own kind of fan-out left. */
  ghost predicate Sound(q: Queue) {
    && Distinct(q)
    && forall k :: 0 <= k < |q| ==>
         && q[k].attempts <= MAX_ATTEMPTS
         && (q[k].state.Waiting? ==> q[k].attempts < MAX_ATTEMPTS)
         && (q[k].state.Busy? ==> MayEnqueue(q[k].id.name, q[k].state.todo))
  }

  lemma EnqueuedStaysSound(q: Queue, id: Id)
    requires Sound(q)
    ensures Sound(Enqueued(q, id))
  {
  }

  /** One workflow replaced by a sound one of the same identifier. */
  lemma ReplacedStaysSound(q: Queue, k: nat, w: Running)
    requires Sound(q) && k < |q| && w.id == q[k].id && w.attempts <= MAX_ATTEMPTS
    requires w.state.Waiting? ==> w.attempts < MAX_ATTEMPTS
    requires w.state.Busy? ==> MayEnqueue(w.id.name, w.state.todo)
    ensures Sound(q[k := w])
  {
  }

  lemma DroppedStaysSound(q: Queue, k: nat)
    requires Sound(q) && k < |q|
    ensures Sound(Dropped(q, k))
  {
    var r := Dropped(q, k);
    forall i | 0 <= i < |r|
      ensures r[i] == q[if i < k then i else i + 1]
    {
    }
  }

  /** No workflow is ever attempted more than eight times, or started twice at once. */
  lemma StepStaysSound(q: Queue, e: Event)
    requires Sound(q) && Enabled(q, e)
    ensures Sound(Next(q, e))
  {
    var w := q[e.k];
    match e
    case Begin(k, todo) => ReplacedStaysSound(q, k, Running(w.id, w.attempts + 1, Busy(todo)));
    case Emit(k) =>
      var rest := w.state.todo[1..];
      assert forall j :: 0 <= j < |rest| ==> rest[j] == w.state.todo[j + 1];
      ReplacedStaysSound(q, k, w.(state := Busy(rest)));
      EnqueuedStaysSound(q[k := w.(state := Busy(rest))], w.state.todo[0]);
    case Succeed(k) => DroppedStaysSound(q, k);
    case Fail(k) =>
      if w.attempts < MAX_ATTEMPTS {
        ReplacedStaysSound(q, k, w.(state := Waiting));
      } else {
        DroppedStaysSound(q, k);
      }
  }

  // ---- what a workflow that succeeds has enqueued ----------------------------------------------------

  /** The queues that the events lead through, one after each. */
  ghost predicate Trace(qs: seq<Queue>, es: seq<Event>) {
    |qs| == |es| + 1 && forall i :: 0 <= i < |es| ==> Enabled(qs[i], es[i]) && qs[i + 1] == Next(qs[i], es[i])
  }

  /** The attempt of workflow id is under way with `left` still to enqueue. */
  ghost predicate UnderWay(q: Queue, id: Id, left: seq<Id>) {
    exists k :: 0 <= k < |q| && q[k].id == id && q[k].state == Busy(left)
  }

  /** The event is a step of another workflow, or enqueues the next job of this one. */
  predicate GoesOn(q: Queue, e: Event, id: Id)
    requires Enabled(q, e)
  {
    q[e.k].id == id ==> e.Emit?
  }

  lemma OtherStepGoesOn(q: Queue, e: Event, k: nat)
    requires Enabled(q, e) && k < |q| && e.k != k
    ensures q[k] in Next(q, e)
  {
    var r := Next(q, e);
    if e.Succeed? || (e.Fail? && q[e.k].attempts >= MAX_ATTEMPTS) {
      assert r[if e.k < k then k - 1 else k] == q[k];
    } else {
      assert r[k] == q[k];
    }
  }

  lemma EmitGoesOn(q: Queue, k: nat, left: seq<Id>)
    requires k < |q| && q[k].state == Busy(left) && left != []
    ensures Holds(Next(q, Emit(k)), left[0]) && UnderWay(Next(q, Emit(k)), q[k].id, left[1..])
  {
    var popped := q[k := q[k].(state := Busy(left[1..]))];
    EnqueuedHolds(popped, left[0]);
    assert Next(q, Emit(k))[k] == popped[k];
  }

  lemma StepGoesOn(q: Queue, e: Event, id: Id, left: seq<Id>)
    requires Sound(q) && Enabled(q, e) && GoesOn(q, e, id) && UnderWay(q, id, left)
    ensures UnderWay(Next(q, e), id, left) || (left != [] && Holds(Next(q, e), left[0]) && UnderWay(Next(q, e), id, left[1..]))
  {
    var k :| 0 <= k < |q| && q[k].id == id && q[k].state == Busy(left);
    if e.k == k {
      EmitGoesOn(q, k, left);
    } else {
      OtherStepGoesOn(q, e, k);
      var at :| 0 <= at < |Next(q, e)| && Next(q, e)[at] == q[k];
    }
  }

  /** Job t has been running at some moment of the trace. */
  ghost predicate Ran(qs: seq<Queue>, t: Id) {
    exists m :: 0 <= m < |qs| && Holds(qs[m], t)
  }

  /** However the others run in between, an attempt enqueues its jobs in order until none is left. */
  lemma {:induction false} EnqueuesInOrder(qs: seq<Queue>, es: seq<Event>, id: Id, todo: seq<Id>) returns (done: nat)
    requires Trace(qs, es) && Sound(qs[0]) && UnderWay(qs[0], id, todo)
    requires forall i :: 0 <= i < |es| ==> GoesOn(qs[i], es[i], id)
    ensures Sound(qs[|es|]) && done <= |todo| && UnderWay(qs[|es|], id, todo[done..])
    ensures forall j :: 0 <= j < done ==> Ran(qs, todo[j])
    decreases |es|
  {
    if es == [] {
      done := 0;
      assert todo[0..] == todo;
    } else {
      var n := |es| - 1;
      done := EnqueuesInOrder(qs[..|es|], es[..n], id, todo);
      assert qs[..|es|][n] == qs[n];
      forall j | 0 <= j < done
        ensures Ran(qs, todo[j])
      {
        var m :| 0 <= m < |qs[..|es|]| && Holds(qs[..|es|][m], todo[j]);
        assert Holds(qs[m], todo[j]);
      }
      StepStaysSound(qs[n], es[n]);
      StepGoesOn(qs[n], es[n], id, todo[done..]);
      if !UnderWay(qs[n + 1], id, todo[done..]) {
        assert todo[done..][1..] == todo[done + 1..] && Holds(qs[n + 1], todo[done]);
        done := done + 1;
      }
    }
  }

  /** So a workflow that succeeds has enqueued everything it was to, and nothing less. */
  lemma SucceededHasEnqueued(qs: seq<Queue>, es: seq<Event>, id: Id, todo: seq<Id>, end: Event)
    requires Trace(qs, es) && Sound(qs[0]) && UnderWay(qs[0], id, todo)
    requires forall i :: 0 <= i < |es| ==> GoesOn(qs[i], es[i], id)
    requires Enabled(qs[|es|], end) && end.Succeed? && qs[|es|][end.k].id == id
    ensures forall j :: 0 <= j < |todo| ==> Ran(qs, todo[j])
  {
    var done := EnqueuesInOrder(qs, es, id, todo);
    var k :| 0 <= k < |qs[|es|]| && qs[|es|][k].id == id && qs[|es|][k].state == Busy(todo[done..]);
    assert k == end.k;
  }

  // ---- the measure ------------------------------------------------------------------------------------

  /** Attempts a workflow of the rank has left. */
  function AttemptsLeft(w: Running, rank: nat): nat {
    if Rank(w.id.name) == rank && w.attempts <= MAX_ATTEMPTS then MAX_ATTEMPTS - w.attempts else 0
  }

  /** Steps the attempt under way still has to take. */
  function StepsLeft(w: Running, rank: nat): nat {
    if Rank(w.id.name) == rank && w.state.Busy? then |w.state.todo| + 1 else 0
  }

  function SumAttempts(q: Queue, rank: nat): nat {
    if q == [] then 0 else SumAttempts(q[..|q| - 1], rank) + AttemptsLeft(q[|q| - 1], rank)
  }

  function SumSteps(q: Queue, rank: nat): nat {
    if q == [] then 0 else SumSteps(q[..|q| - 1], rank) + StepsLeft(q[|q| - 1], rank)
  }

  lemma {:induction false} SumsAdd(p: Queue, q: Queue, rank: nat)
    ensures SumAttempts(p + q, rank) == SumAttempts(p, rank) + SumAttempts(q, rank)
    ensures SumSteps(p + q, rank) == SumSteps(p, rank) + SumSteps(q, rank)
  {
    if q == [] {
      assert p + q == p;
    } else {
      assert (p + q)[..|p| + |q| - 1] == p + q[..|q| - 1];
      SumsAdd(p, q[..|q| - 1], rank);
    }
  }

  lemma SumsSplit(q: Queue, k: nat, rank: nat)
    requires k < |q|
    ensures SumAttempts(q, rank) == SumAttempts(Dropped(q, k), rank) + AttemptsLeft(q[k], rank)
    ensures SumSteps(q, rank) == SumSteps(Dropped(q, k), rank) + StepsLeft(q[k], rank)
  {
    assert q == q[..k] + ([q[k]] + q[k + 1..]);
    assert [q[k]][..0] == [];
    SumsAdd(q[..k], [q[k]] + q[k + 1..], rank);
    SumsAdd([q[k]], q[k + 1..], rank);
    SumsAdd(q[..k], q[k + 1..], rank);
  }

  lemma SumsReplace(q: Queue, k: nat, w: Running, rank: nat)
    requires k < |q|
    ensures SumAttempts(q[k := w], rank) + AttemptsLeft(q[k], rank) == SumAttempts(q, rank) + AttemptsLeft(w, rank)
    ensures SumSteps(q[k := w], rank) + StepsLeft(q[k], rank) == SumSteps(q, rank) + StepsLeft(w, rank)
  {
    SumsSplit(q, k, rank);
    SumsSplit(q[k := w], k, rank);
    assert Dropped(q[k := w], k) == Dropped(q, k);
  }

  lemma SumsEnqueue(q: Queue, id: Id, rank: nat)
    requires Rank(id.name) != rank
    ensures SumAttempts(Enqueued(q, id), rank) == SumAttempts(q, rank) && SumSteps(Enqueued(q, id), rank) == SumSteps(q, rank)
  {
    if !Holds(q, id) {
      assert [Running(id, 0, Waiting)][..0] == [];
      SumsAdd(q, [Running(id, 0, Waiting)], rank);
    }
  }

  /** From q to r nothing at rank or above grew, and at rank the pair of sums went down. */
  ghost predicate Falls(q: Queue, r: Queue, rank: nat) {
    && (SumAttempts(r, rank) < SumAttempts(q, rank) ||
        (SumAttempts(r, rank) == SumAttempts(q, rank) && SumSteps(r, rank) < SumSteps(q, rank)))
    && forall above: nat :: above > rank ==>
         SumAttempts(r, above) == SumAttempts(q, above) && SumSteps(r, above) == SumSteps(q, above)
  }

  /** A job only enqueues jobs of lower rank, so each step falls at the rank of the workflow it is a step of. */
  lemma StepFalls(q: Queue, e: Event)
    requires Sound(q) && Enabled(q, e)
    ensures Falls(q, Next(q, e), Rank(q[e.k].id.name))
  {
    var k := e.k;
    var w, rank := q[k], Rank(q[k].id.name);
    forall at: nat | at >= rank
      ensures at > rank ==> SumAttempts(Next(q, e), at) == SumAttempts(q, at) && SumSteps(Next(q, e), at) == SumSteps(q, at)
      ensures at == rank ==>
                (SumAttempts(Next(q, e), at) < SumAttempts(q, at) ||
                 (SumAttempts(Next(q, e), at) == SumAttempts(q, at) && SumSteps(Next(q, e), at) < SumSteps(q, at)))
    {
      match e
      case Begin(_, todo) => SumsReplace(q, k, Running(w.id, w.attempts + 1, Busy(todo)), at);
      case Emit(_) =>
        var popped := q[k := w.(state := Busy(w.state.todo[1..]))];
        SumsReplace(q, k, w.(state := Busy(w.state.todo[1..])), at);
        assert w.state.todo[0].name in Fans(w.id.name);
        SumsEnqueue(popped, w.state.todo[0], at);
      case Succeed(_) => SumsSplit(q, k, at);
      case Fail(_) =>
        SumsReplace(q, k, w.(state := Waiting), at);
        SumsSplit(q, k, at);
    }
  }

  // ---- every schedule ends ------------------------------------------------------------------------------

  /** While anything is running, something happens to it. */
  ghost predicate Schedule(run: nat -> Queue) {
    Sound(run(0)) && forall i: nat :: if run(i) == [] then run(i + 1) == [] else Step(run(i), run(i + 1))
  }

  lemma {:induction false} ScheduleStaysSound(run: nat -> Queue, i: nat)
    requires Schedule(run)
    ensures Sound(run(i))
  {
    if i > 0 {
      ScheduleStaysSound(run, i - 1);
      if run(i - 1) != [] {
        assert Step(run(i - 1), run(i - 1 + 1));
        var e :| Enabled(run(i - 1), e) && run(i) == Next(run(i - 1), e);
        StepStaysSound(run(i - 1), e);
      }
    }
  }

  /** From any moment of any schedule a later moment finds the queue empty. */
  lemma {:induction false} DrainsFrom(run: nat -> Queue, i: nat) returns (n: nat)
    requires Schedule(run)
    ensures i <= n && run(n) == []
    decreases SumAttempts(run(i), 4), SumSteps(run(i), 4), SumAttempts(run(i), 3), SumSteps(run(i), 3),
              SumAttempts(run(i), 2), SumSteps(run(i), 2), SumAttempts(run(i), 1), SumSteps(run(i), 1),
              SumAttempts(run(i), 0), SumSteps(run(i), 0)
  {
    if run(i) == [] {
      n := i;
    } else {
      ScheduleStaysSound(run, i);
      assert Step(run(i), run(i + 1));
      var e :| Enabled(run(i), e) && run(i + 1) == Next(run(i), e);
      StepFalls(run(i), e);
      n := DrainsFrom(run, i + 1);
    }
  }

  /** Every schedule drains, and once drained stays so. */
  lemma EveryScheduleDrains(run: nat -> Queue) returns (n: nat)
    requires Schedule(run)
    ensures forall m: nat :: m >= n ==> run(m) == []
  {
    n := DrainsFrom(run, 0);
    forall m: nat | m >= n
      ensures run(m) == []
    {
      StaysDrained(run, n, m);
    }
  }

  lemma {:induction false} StaysDrained(run: nat -> Queue, n: nat, m: nat)
    requires Schedule(run) && run(n) == [] && n <= m
    ensures run(m) == []
  {
    if n < m {
      StaysDrained(run, n, m - 1);
      assert run(m - 1 + 1) == [];
    }
  }
}
