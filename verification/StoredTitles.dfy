/**
 The columns a completed refresh leaves behind: what each title's row and each file's row hold, written out
 from the answer and from the store the refresh found.
 */
module StoredTitles {
  import opened Options
  import opened Tables
  import opened Convergence

  /** The row of a title has the answer's kind, numbers and parent; its other columns are the user's and the provider's. */
  lemma CompletedRowIsTheScan(c: Catalogue, rf: Refresh, es: seq<Event>, i: nat)
    requires WellFormed(rf) && i < |rf.titles| && AllFinished(rf, Run(rf, Begin(c, rf), es))
    ensures var d, r, t := Run(rf, Begin(c, rf), es).c, KeyOf(rf, i), rf.titles[i];
            && r in d.items && !d.items[r].deleted
            && d.items[r].kind == t.kind && d.items[r].index == t.index && d.items[r].parentIndex == t.parentIndex
            && d.items[r].parent == (if t.parentKey == "" then None else Some(Keyed(t.parentKey)))
            && d.items[r].modified == (if t.files == [] then None else Some(t.files[0].modified))
  {
    CompletedIsSynchronised(c, rf, es);
    assert Get(Run(rf, Begin(c, rf), es).c.items, KeyOf(rf, i)) == ItemAfter(rf, c, JobsOf(rf), KeyOf(rf, i));
    assert TitleOf(rf, KeyOf(rf, i)) == Some(i);
    OneFileIsNewest(rf.titles[i].files);
  }

  lemma OneFileIsNewest(files: seq<ScannedFile>)
    requires |files| <= 1
    ensures Newest(files) == if files == [] then None else Some(files[0].modified)
  {
    if files != [] {
      assert files[..0] == [];
    }
  }

  /** A title seen for the first time gets the answer's names and year, unlocked and unidentified. */
  lemma CompletedNewRow(c: Catalogue, rf: Refresh, es: seq<Event>, i: nat)
    requires WellFormed(rf) && i < |rf.titles| && AllFinished(rf, Run(rf, Begin(c, rf), es)) && KeyOf(rf, i) !in c.items
    ensures var d, r := Run(rf, Begin(c, rf), es).c, KeyOf(rf, i);
            && r in d.items && d.items[r].title == rf.titles[i].title
            && !d.items[r].lockData && d.items[r].lockedFields == [] && !d.items[r].identified
  {
    CompletedIsSynchronised(c, rf, es);
    assert Get(Run(rf, Begin(c, rf), es).c.items, KeyOf(rf, i)) == ItemAfter(rf, c, JobsOf(rf), KeyOf(rf, i));
    assert TitleOf(rf, KeyOf(rf, i)) == Some(i);
  }

  /** A title known before takes the answer's names and year exactly while nobody has claimed them; its locks stay. */
  lemma CompletedKnownRow(c: Catalogue, rf: Refresh, es: seq<Event>, i: nat)
    requires WellFormed(rf) && i < |rf.titles| && AllFinished(rf, Run(rf, Begin(c, rf), es)) && KeyOf(rf, i) in c.items
    ensures var d, r, kept := Run(rf, Begin(c, rf), es).c, KeyOf(rf, i), c.items[KeyOf(rf, i)];
            && r in d.items
            && (!kept.identified && !kept.lockData && "Name" !in kept.lockedFields ==> d.items[r].title == rf.titles[i].title)
            && (kept.identified || kept.lockData || "Name" in kept.lockedFields ==> d.items[r].title == kept.title)
            && d.items[r].lockData == kept.lockData && d.items[r].lockedFields == kept.lockedFields
            && d.items[r].identified == kept.identified
  {
    CompletedIsSynchronised(c, rf, es);
    assert Get(Run(rf, Begin(c, rf), es).c.items, KeyOf(rf, i)) == ItemAfter(rf, c, JobsOf(rf), KeyOf(rf, i));
    assert TitleOf(rf, KeyOf(rf, i)) == Some(i);
  }

  /** The row of a reported file: the source's, on its title's item, with the answer's time and the probe kept. */
  lemma CompletedFileIsTheScan(c: Catalogue, rf: Refresh, es: seq<Event>, i: nat)
    requires WellFormed(rf) && i < |rf.titles| && rf.titles[i].files != [] && AllFinished(rf, Run(rf, Begin(c, rf), es))
    ensures var d, f := Run(rf, Begin(c, rf), es).c, rf.titles[i].files[0];
            && f.path in d.files && d.files[f.path].item == KeyOf(rf, i) && d.files[f.path].source == rf.source
            && d.files[f.path].modified == f.modified && d.files[f.path].name == Base(f.path)
            && d.files[f.path].probed == (if f.path in c.files then c.files[f.path].probed else None)
  {
    var f := rf.titles[i].files[0];
    CompletedIsSynchronised(c, rf, es);
    assert Holds(rf, i, f.path) && HolderOf(rf, f.path) == Some(i);
    assert Get(Run(rf, Begin(c, rf), es).c.files, f.path) ==
           Some(FileAt(Get(c.files, f.path), rf.source, KeyOf(rf, i), f));
  }

  lemma {:induction false} AfterSlashIs(dir: string, name: string)
    requires '/' !in name && (dir == "" || dir[|dir| - 1] == '/')
    ensures AfterSlash(dir + name) == name
    decreases |name|
  {
    if name == "" {
      assert dir + name == dir;
    } else {
      var front, last := name[..|name| - 1], name[|name| - 1];
      assert (dir + name)[..|dir + name| - 1] == dir + front && front + [last] == name;
      assert last in name;
      AfterSlashIs(dir, front);
    }
  }

  /** A file is named by what follows the last slash of its path. */
  lemma BaseIsTheLastElement(dir: string, name: string)
    requires '/' !in name && name != "" && (dir == "" || dir[|dir| - 1] == '/')
    ensures Base(dir + name) == name
  {
    var path := dir + name;
    assert path[|path| - 1] == name[|name| - 1] && name[|name| - 1] in name;
    AfterSlashIs(dir, name);
  }

  /** Slashes at the end do not count, and what is nothing else is named by itself. */
  lemma BaseAtTheEdges(path: string)
    ensures Base("") == "." && Base("/") == "/" && (path != "" ==> Base(path + "/") == Base(path))
  {
    assert path != "" ==> (path + "/")[..|path + "/"| - 1] == path;
  }
}
