/**
 Who may write an item's metadata: scans, identifications and users' edits interleave on one row, and a
 lock a user's edit leaves behind decides what the others may touch.
 */
module TitleLocks {
  import opened Options
  import opened Tables

  /** Every field nil that the writer does not mean to set. */
  datatype Metadata = Metadata(
    name: Option<string>, sortName: Option<string>, year: Option<int>, overview: Option<string>, rating: Option<string>,
    tags: Option<seq<string>>, taglines: Option<seq<string>>, lockData: Option<bool>,
    lockedFields: Option<seq<string>>, providerIds: Option<map<string, string>>)

  datatype Row = Row(
    title: Headline, overview: string, rating: string, tags: seq<string>, taglines: seq<string>,
    lockData: bool, lockedFields: seq<string>, providerIds: Option<map<string, string>>)

  function Or<T>(given: Option<T>, kept: T): T {
    match given
    case None => kept
    case Some(v) => v
  }

  /** The title columns of a scan's upsert. */
  function Rescanned(row: Row, t: Headline): Row {
    if Free(row.providerIds.Some?, row.lockData, row.lockedFields) then row.(title := t) else row
  }

  /** UpdateMetadata: what is set is written, what is nil is kept. */
  function Updated(row: Row, m: Metadata): Row {
    Row(Headline(Or(m.name, row.title.name), Or(m.sortName, row.title.sortName), if m.year.Some? then m.year else row.title.year),
        Or(m.overview, row.overview), Or(m.rating, row.rating), Or(m.tags, row.tags), Or(m.taglines, row.taglines),
        Or(m.lockData, row.lockData), Or(m.lockedFields, row.lockedFields),
        if m.providerIds.Some? then m.providerIds else row.providerIds)
  }

  predicate Retitled(row: Row, m: Metadata) {
    || (m.name.Some? && m.name.value != row.title.name)
    || (m.sortName.Some? && m.sortName.value != row.title.sortName)
    || (m.year.Some? && m.year != row.title.year)
  }

  /** The edit with the lock it brings: changing the title claims it. */
  function Claiming(row: Row, m: Metadata): Metadata {
    if !Retitled(row, m) then m
    else
      var locked := Or(m.lockedFields, row.lockedFields);
      m.(lockedFields := Some(if LOCKED_NAME in locked then locked else locked + [LOCKED_NAME]))
  }

  function Edited(row: Row, m: Metadata): Row {
    Updated(row, Claiming(row, m))
  }

  /** One column: what is given is written, and without anything given it stays. */
  predicate Took<T(==)>(given: Option<T>, kept: T, after: T) {
    (given.Some? ==> after == given.value) && (given.None? ==> after == kept)
  }

  /** Every column takes what is meant for it and nothing else. */
  lemma UpdatedColumns(row: Row, m: Metadata)
    ensures var after := Updated(row, m);
            && Took(m.name, row.title.name, after.title.name) && Took(m.sortName, row.title.sortName, after.title.sortName)
            && (m.year.Some? ==> after.title.year == m.year) && (m.year.None? ==> after.title.year == row.title.year)
            && Took(m.overview, row.overview, after.overview) && Took(m.rating, row.rating, after.rating)
            && Took(m.tags, row.tags, after.tags) && Took(m.taglines, row.taglines, after.taglines)
            && Took(m.lockData, row.lockData, after.lockData) && Took(m.lockedFields, row.lockedFields, after.lockedFields)
            && (m.providerIds.Some? ==> after.providerIds == m.providerIds) && (m.providerIds.None? ==> after.providerIds == row.providerIds)
  {
  }

  /** An edit leaves the Name lock behind when it changes the name, the sort name or the year; else the locks it lists or finds. */
  lemma EditLocks(row: Row, m: Metadata)
    ensures var after := Edited(row, m);
            && (after.title.name != row.title.name || after.title.sortName != row.title.sortName || after.title.year != row.title.year ==>
                  "Name" in after.lockedFields)
            && (after.title == row.title ==> Took(m.lockedFields, row.lockedFields, after.lockedFields))
            && (forall lock :: lock != "Name" ==>
                  (lock in after.lockedFields <==> if m.lockedFields.Some? then lock in m.lockedFields.value else lock in row.lockedFields))
            && after == Updated(row, m).(lockedFields := after.lockedFields)
  {
  }

  /** A scan writes the title exactly while the item has no provider identifiers, is not locked and its title is not. */
  lemma ScanWritesTheTitleIff(row: Row, t: Headline)
    ensures row.providerIds.None? && !row.lockData && "Name" !in row.lockedFields ==> Rescanned(row, t) == row.(title := t)
    ensures row.providerIds.Some? || row.lockData || "Name" in row.lockedFields ==> Rescanned(row, t) == row
  {
  }

  /** What one lock withholds from an identification. */
  function Withheld(m: Metadata, lock: string): Metadata {
    match lock
    case "Name" => m.(name := None, sortName := None)
    case "Overview" => m.(overview := None, taglines := None)
    case "OfficialRating" => m.(rating := None)
    case "Tags" => m.(tags := None)
    case _ => m
  }

  function Stripped(m: Metadata, locked: seq<string>): Metadata {
    if locked == [] then m else Withheld(Stripped(m, locked[..|locked| - 1]), locked[|locked| - 1])
  }

  /** A field is withheld exactly when its lock is held; everything else passes. */
  lemma {:induction false} StrippedFields(m: Metadata, locked: seq<string>)
    ensures var s := Stripped(m, locked);
            && s.name == (if "Name" in locked then None else m.name)
            && s.sortName == (if "Name" in locked then None else m.sortName)
            && s.overview == (if "Overview" in locked then None else m.overview)
            && s.taglines == (if "Overview" in locked then None else m.taglines)
            && s.rating == (if "OfficialRating" in locked then None else m.rating)
            && s.tags == (if "Tags" in locked then None else m.tags)
            && s.year == m.year && s.lockData == m.lockData && s.lockedFields == m.lockedFields && s.providerIds == m.providerIds
  {
    if locked != [] {
      var front, lock := locked[..|locked| - 1], locked[|locked| - 1];
      StrippedFields(m, front);
      assert forall other :: other in locked <==> other in front || other == lock by {
        assert locked == front + [lock];
      }
    }
  }

  // ---- the records the service updates in place ---------------------------------------------------

  class Draft {
    var name: Option<string>
    var sortName: Option<string>
    var overview: Option<string>
    var taglines: Option<seq<string>>
    var rating: Option<string>
    var tags: Option<seq<string>>
    const rest: Metadata

    constructor (m: Metadata)
      ensures Value() == m
    {
      name, sortName, overview := m.name, m.sortName, m.overview;
      taglines, rating, tags := m.taglines, m.rating, m.tags;
      rest := m;
    }

    function Value(): Metadata
      reads this
    {
      rest.(name := name, sortName := sortName, overview := overview, taglines := taglines, rating := rating, tags := tags)
    }

    /** Each lock in turn clears its fields; unknown locks clear nothing. */
    method StripLockedFields(locked: seq<string>)
      modifies this
      ensures Value() == Stripped(old(Value()), locked)
    {
      for i := 0 to |locked|
        invariant Value() == Stripped(old(Value()), locked[..i])
      {
        assert locked[..i + 1][..i] == locked[..i];
        match locked[i] {
          case "Name" => name, sortName := None, None;
          case "Overview" => overview, taglines := None, None;
          case "OfficialRating" => rating := None;
          case "Tags" => tags := None;
          case _ =>
        }
      }
      assert locked[..|locked|] == locked;
    }
  }

  class Item {
    var row: Row

    method SaveScanned(t: Headline)
      modifies this
      ensures row == Rescanned(old(row), t)
    {
      if row.providerIds.None? && !row.lockData && LOCKED_NAME !in row.lockedFields {
        row := row.(title := t);
      }
    }

    /** `read` is the row as the caller read it before deciding on the edit. */
    method EditMetadata(read: Row, m: Metadata)
      modifies this
      ensures row == Updated(old(row), Claiming(read, m))
      ensures Updated(read, m).title != read.title ==> "Name" in row.lockedFields
      ensures Updated(read, m).title == read.title ==> Took(m.lockedFields, old(row).lockedFields, row.lockedFields)
    {
      var edit := m;
      if Retitled(read, m) {
        var locked := read.lockedFields;
        if m.lockedFields.Some? {
          locked := m.lockedFields.value;
        }
        if LOCKED_NAME !in locked {
          locked := locked + [LOCKED_NAME];
        }
        edit := edit.(lockedFields := Some(locked));
      }
      row := Updated(row, edit);
    }

    /** `locked` is what the row held when the item was read; nothing is written without a match. */
    method Identify(locked: seq<string>, answer: Option<Metadata>)
      modifies this
      ensures row == if answer.Some? then Updated(old(row), Stripped(answer.value, locked)) else old(row)
    {
      if answer.None? {
        return;
      }
      var found := new Draft(answer.value);
      found.StripLockedFields(locked);
      row := Updated(row, found.Value());
    }
  }

  // ---- whole runs -----------------------------------------------------------------------------------

  /** The row, and for each identification under way the locks it saw when it read the item. */
  datatype World = World(row: Row, reading: map<nat, seq<string>>)

  datatype Event =
    | Scan(title: Headline)
    | Edit(edit: Metadata)
    | Read(job: nat)
    | Write(job: nat, answer: Metadata)

  function Apply(w: World, e: Event): World {
    match e
    case Scan(t) => w.(row := Rescanned(w.row, t))
    case Edit(m) => w.(row := Edited(w.row, m))
    case Read(job) => w.(reading := w.reading[job := w.row.lockedFields])
    case Write(job, answer) =>
      if job !in w.reading then w
      else World(Updated(w.row, Stripped(answer, w.reading[job])), w.reading - {job})
  }

  function Run(w: World, es: seq<Event>): World {
    if es == [] then w else Apply(Run(w, es[..|es| - 1]), es[|es| - 1])
  }

  lemma RunOne(w: World, es: seq<Event>, e: Event)
    ensures Run(w, es + [e]) == Apply(Run(w, es), e)
  {
    assert (es + [e])[..|es|] == es;
  }

  /** No provider answers with locks. */
  predicate FromProviders(es: seq<Event>) {
    forall k :: 0 <= k < |es| && es[k].Write? ==> es[k].answer.lockedFields.None?
  }

  /** The lock is on the row and every identification under way has seen it. */
  ghost predicate Locked(w: World, lock: string) {
    lock in w.row.lockedFields && forall job :: job in w.reading ==> lock in w.reading[job]
  }

  /** What each lock guards. */
  datatype Guarded = Guarded(name: string, sortName: string, overview: string, taglines: seq<string>, rating: string, tags: seq<string>)

  function Guards(row: Row, lock: string): Guarded {
    match lock
    case "Name" => Guarded(row.title.name, row.title.sortName, "", [], "", [])
    case "Overview" => Guarded("", "", row.overview, row.taglines, "", [])
    case "OfficialRating" => Guarded("", "", "", [], row.rating, [])
    case "Tags" => Guarded("", "", "", [], "", row.tags)
    case _ => Guarded("", "", "", [], "", [])
  }

  /** Between edits a lock holds and guards: whatever scans and identifications interleave. */
  lemma {:induction false} LocksGuardBetweenEdits(w: World, es: seq<Event>, lock: string)
    requires Locked(w, lock) && FromProviders(es) && forall k :: 0 <= k < |es| ==> !es[k].Edit?
    ensures Locked(Run(w, es), lock) && Guards(Run(w, es).row, lock) == Guards(w.row, lock)
  {
    if es != [] {
      var n := |es| - 1;
      var v := Run(w, es[..n]);
      LocksGuardBetweenEdits(w, es[..n], lock);
      if es[n].Write? && es[n].job in v.reading {
        StrippedFields(es[n].answer, v.reading[es[n].job]);
      }
    }
  }

  // ---- the title lock across edits ------------------------------------------------------------------

  /** An edit that takes the lock away: it lists locks, Name is not among them, and it changes no title. */
  predicate DropsLock(row: Row, m: Metadata) {
    m.lockedFields.Some? && LOCKED_NAME !in m.lockedFields.value && Updated(row, m).title == row.title
  }

  /** No edit of the run drops the lock when its turn comes. */
  ghost predicate KeepsLock(w: World, es: seq<Event>) {
    forall k :: 0 <= k < |es| && es[k].Edit? ==> !DropsLock(Run(w, es[..k]).row, es[k].edit)
  }

  /** The titles the users alone would have written. */
  function ByUsers(title: (string, string), es: seq<Event>): (string, string) {
    if es == [] then title
    else
      var before := ByUsers(title, es[..|es| - 1]);
      match es[|es| - 1]
      case Edit(m) => (Or(m.name, before.0), Or(m.sortName, before.1))
      case _ => before
  }

  function TitleOf(w: World): (string, string) {
    (w.row.title.name, w.row.title.sortName)
  }

  /** A locked title is written by users only, over every interleaving, until an edit drops the lock. */
  lemma {:induction false} LockedTitleIsTheUsers(w: World, es: seq<Event>)
    requires Locked(w, LOCKED_NAME) && FromProviders(es) && KeepsLock(w, es)
    ensures Locked(Run(w, es), LOCKED_NAME) && TitleOf(Run(w, es)) == ByUsers(TitleOf(w), es)
  {
    if es != [] {
      var n := |es| - 1;
      var v := Run(w, es[..n]);
      assert forall k :: 0 <= k < n ==> es[..n][..k] == es[..k];
      LockedTitleIsTheUsers(w, es[..n]);
      match es[n]
      case Scan(_) =>
      case Read(_) =>
      case Edit(m) => assert !DropsLock(v.row, m);
      case Write(job, answer) =>
        if job in v.reading {
          StrippedFields(answer, v.reading[job]);
        }
    }
  }

  /** An edit that changes the title, made while nothing is being identified, begins such a run. */
  lemma EditClaimsTheTitle(w: World, m: Metadata, es: seq<Event>)
    requires Edited(w.row, m).title != w.row.title && w.reading == map[]
    requires var v := Apply(w, Edit(m)); FromProviders(es) && KeepsLock(v, es)
    ensures var v := Apply(w, Edit(m));
            && Locked(v, "Name")
            && TitleOf(v) == (Or(m.name, w.row.title.name), Or(m.sortName, w.row.title.sortName))
            && TitleOf(Run(v, es)) == ByUsers(TitleOf(v), es)
  {
    LockedTitleIsTheUsers(Apply(w, Edit(m)), es);
  }

  /**
   An identification that read the item before the edit and answers after it undoes the edit, unless the
   title was locked when it read or it answers the same names.
   */
  lemma StaleIdentificationUndoesEdit(row: Row, m: Metadata, answer: Metadata)
    ensures var w := Run(World(row, map[]), [Read(0), Edit(m), Write(0, answer)]);
            TitleOf(w) == TitleOf(World(Edited(row, m), map[])) <==>
            LOCKED_NAME in row.lockedFields ||
            ((answer.name.Some? ==> answer.name.value == Edited(row, m).title.name)
             && (answer.sortName.Some? ==> answer.sortName.value == Edited(row, m).title.sortName))
  {
    var w0, es := World(row, map[]), [Read(0), Edit(m), Write(0, answer)];
    var w1 := Apply(w0, Read(0));
    var w2 := Apply(w1, Edit(m));
    RunOne(w0, [], Read(0));
    RunOne(w0, [Read(0)], Edit(m));
    RunOne(w0, [Read(0), Edit(m)], Write(0, answer));
    assert [] + [Read(0)] == [Read(0)] && [Read(0)] + [Edit(m)] == [Read(0), Edit(m)];
    assert [Read(0), Edit(m)] + [Write(0, answer)] == es;
    assert w2.reading[0] == row.lockedFields && w2.row == Edited(row, m);
    StrippedFields(answer, row.lockedFields);
  }

  // ---- identified items -------------------------------------------------------------------------------

  function WithoutScans(es: seq<Event>): seq<Event> {
    if es == [] then []
    else WithoutScans(es[..|es| - 1]) + if es[|es| - 1].Scan? then [] else [es[|es| - 1]]
  }

  /** Once an item is identified, scans write none of its name, sort name and year: a run is the run without them. */
  lemma {:induction false} IdentifiedIgnoresScans(w: World, es: seq<Event>)
    requires w.row.providerIds.Some?
    ensures Run(w, es).row.providerIds.Some? && Run(w, es) == Run(w, WithoutScans(es))
  {
    if es != [] {
      var n := |es| - 1;
      IdentifiedIgnoresScans(w, es[..n]);
      var fs := WithoutScans(es[..n]);
      if es[n].Scan? {
        assert WithoutScans(es) == fs;
      } else {
        assert WithoutScans(es)[..|fs|] == fs;
      }
    }
  }
}
