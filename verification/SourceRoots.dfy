/** Which directories the configured downloaders own, and where the files they report are found locally. */
module SourceRoots {
  import opened Options
  import opened Text
  import opened Paths

  datatype Source = Source(name: string, url: string, apiKeyVariable: string, kind: string, rootPath: string, localPath: string)

  datatype Configured = Configured(source: Source, libraries: seq<(nat, string)>)

  // ---- placing a reported path ------------------------------------------------------------------

  function Common(a: seq<string>, b: seq<string>): (k: nat)
    ensures k <= |a| && k <= |b| && a[..k] == b[..k]
  {
    if a != [] && b != [] && a[0] == b[0] then 1 + Common(a[1..], b[1..]) else 0
  }

  function Ups(n: nat): seq<string> {
    seq(n, _ => "..")
  }

  /** filepath.Rel: up out of what is left of the base, then down; between a rooted and an unrooted path it fails. */
  function Rel(base: string, target: string): Option<seq<string>> {
    if IsAbs(base) != IsAbs(target) then None
    else
      var k := Common(Segments(base), Segments(target));
      Some(Ups(|Segments(base)| - k) + Segments(target)[k..])
  }

  /** filepath.Join, whose result is clean. */
  function JoinPath(base: string, segments: seq<string>): string {
    Show(IsAbs(base), Resolve(IsAbs(base), Split(base, {'/'}) + segments))
  }

  function Localise(source: Source, path: string): Option<string> {
    match Rel(source.rootPath, path)
    case None => None
    case Some(relative) =>
      if !IsAbs(path) || (relative != [] && relative[0] == "..") then None
      else Some(JoinPath(source.localPath, relative))
  }

  lemma {:induction false} CommonOfPrefix(a: seq<string>, b: seq<string>)
    ensures Common(a, b) == |a| <==> a <= b
  {
    if a != [] && b != [] {
      CommonOfPrefix(a[1..], b[1..]);
      assert a == [a[0]] + a[1..] && b == [b[0]] + b[1..];
    }
  }

  /** A path is accepted exactly when it lies in the root, dots and doubled slashes aside. */
  lemma LocalisesIff(source: Source, path: string)
    ensures Localise(source, path).Some? <==>
            IsAbs(path) && IsAbs(source.rootPath) && Segments(source.rootPath) <= Segments(path)
    ensures Localise(source, path).Some? ==>
              Rel(source.rootPath, path) == Some(Segments(path)[|Segments(source.rootPath)|..])
  {
    var root, segments := Segments(source.rootPath), Segments(path);
    CommonOfPrefix(root, segments);
    SegmentsAreClean(path);
    if IsAbs(path) && IsAbs(source.rootPath) {
      var k := Common(root, segments);
      var relative := Ups(|root| - k) + segments[k..];
      if k < |root| {
        assert relative[0] == "..";
      } else {
        assert Ups(0) == [] && relative == segments[k..];
        assert relative != [] ==> relative[0] == segments[k] && Plain(segments[k]);
      }
    }
  }

  /** Where an accepted path ends up: the local directory followed by what the path has below the root. */
  lemma LocalisedBelowLocalPath(source: Source, path: string)
    requires Localise(source, path).Some?
    ensures IsAbs(Localise(source, path).value) == IsAbs(source.localPath)
    ensures Segments(Localise(source, path).value) ==
            Segments(source.localPath) + Segments(path)[|Segments(source.rootPath)|..]
  {
    LocalisesIff(source, path);
    SegmentsAreClean(path);
    SegmentsAreClean(source.localPath);
    var below := Segments(path)[|Segments(source.rootPath)|..];
    assert AllPlain(below);
    ResolveKeepsPlain(IsAbs(source.localPath), Split(source.localPath, {'/'}), below);
    ShowKeepsSegments(IsAbs(source.localPath), Segments(source.localPath) + below);
  }

  /** Two reported paths are given the same local path only if they name the same file. */
  lemma LocaliseIsInjective(source: Source, one: string, two: string)
    requires Localise(source, one).Some? && Localise(source, one) == Localise(source, two)
    ensures Clean(one) == Clean(two)
  {
    LocalisesIff(source, one);
    LocalisesIff(source, two);
    LocalisedBelowLocalPath(source, one);
    LocalisedBelowLocalPath(source, two);
    SameBelow(Segments(source.rootPath), Segments(source.localPath), Segments(one), Segments(two));
  }

  lemma SameBelow(root: seq<string>, local: seq<string>, one: seq<string>, two: seq<string>)
    requires root <= one && root <= two && local + one[|root|..] == local + two[|root|..]
    ensures one == two
  {
    assert one[|root|..] == (local + one[|root|..])[|local|..] && two[|root|..] == (local + two[|root|..])[|local|..];
    assert one == root + one[|root|..] && two == root + two[|root|..];
  }

  // ---- no file has two owners -------------------------------------------------------------------

  ghost predicate BothAccept(one: Source, two: Source) {
    exists path :: Localise(one, path).Some? && Localise(two, path).Some?
  }

  /** Two sources can both accept some path exactly when one's root, cleaned, lies in the other's. */
  lemma BothAcceptIff(one: Source, two: Source)
    requires IsAbs(one.rootPath) && IsAbs(two.rootPath)
    ensures BothAccept(one, two) <==>
            Segments(one.rootPath) <= Segments(two.rootPath) || Segments(two.rootPath) <= Segments(one.rootPath)
  {
    if BothAccept(one, two) {
      var path :| Localise(one, path).Some? && Localise(two, path).Some?;
      LocalisesIff(one, path);
      LocalisesIff(two, path);
      PrefixesNest(Segments(one.rootPath), Segments(two.rootPath), Segments(path));
    }
    if Segments(one.rootPath) <= Segments(two.rootPath) {
      InnerAccepted(one, two);
    } else if Segments(two.rootPath) <= Segments(one.rootPath) {
      InnerAccepted(two, one);
    }
  }

  lemma PrefixesNest(a: seq<string>, b: seq<string>, c: seq<string>)
    requires a <= c && b <= c
    ensures a <= b || b <= a
  {
  }

  /** The inner root itself, printed clean, is accepted by both. */
  lemma InnerAccepted(outer: Source, inner: Source)
    requires IsAbs(outer.rootPath) && IsAbs(inner.rootPath) && Segments(outer.rootPath) <= Segments(inner.rootPath)
    ensures BothAccept(outer, inner)
  {
    var path := Show(true, Segments(inner.rootPath));
    SegmentsAreClean(inner.rootPath);
    ShowKeepsSegments(true, Segments(inner.rootPath));
    LocalisesIff(outer, path);
    LocalisesIff(inner, path);
    assert Localise(outer, path).Some? && Localise(inner, path).Some?;
  }

  predicate Named(source: Source) {
    source.rootPath != "" && source.localPath != ""
  }

  /** What roots accepts. */
  predicate RootsAccepted(configured: seq<Configured>) {
    && (forall i :: 0 <= i < |configured| ==> Named(configured[i].source))
    && (forall i, j :: 0 <= i < j < |configured| ==> !Overlaps(configured[i].source.rootPath, configured[j].source.rootPath))
  }

  method Roots(configured: seq<Configured>) returns (ok: bool)
    ensures ok == RootsAccepted(configured)
  {
    for i := 0 to |configured|
      invariant forall k :: 0 <= k < i ==> Named(configured[k].source)
      invariant forall k, j :: 0 <= k < i && k < j < |configured| ==>
                  !Overlaps(configured[k].source.rootPath, configured[j].source.rootPath)
    {
      if configured[i].source.rootPath == "" || configured[i].source.localPath == "" {
        return false;
      }
      for j := i + 1 to |configured|
        invariant forall k :: i < k < j ==> !Overlaps(configured[i].source.rootPath, configured[k].source.rootPath)
      {
        if Overlaps(configured[i].source.rootPath, configured[j].source.rootPath) {
          return false;
        }
      }
    }
    return true;
  }

  lemma OverlapsIsSymmetric(one: string, other: string)
    ensures Overlaps(one, other) <==> Overlaps(other, one)
  {
  }

  /** In an accepted configuration of tidy roots no reported path belongs to two downloaders. */
  lemma AcceptedRootsShareNoPath(configured: seq<Configured>, i: nat, j: nat)
    requires RootsAccepted(configured) && i < |configured| && j < |configured| && i != j
    requires Tidy(configured[i].source.rootPath) && Tidy(configured[j].source.rootPath)
    ensures !BothAccept(configured[i].source, configured[j].source)
  {
    var one, two := configured[i].source, configured[j].source;
    OverlapsIsSymmetric(one.rootPath, two.rootPath);
    OverlapsIffPrefix(one.rootPath, two.rootPath);
    BothAcceptIff(one, two);
  }

  /** Between tidy roots the check is exact: it refuses a pair only if they would share a path. */
  lemma OverlapCheckIsExact(one: Source, two: Source)
    requires Tidy(one.rootPath) && Tidy(two.rootPath)
    ensures Overlaps(one.rootPath, two.rootPath) <==> BothAccept(one, two)
  {
    OverlapsIffPrefix(one.rootPath, two.rootPath);
    BothAcceptIff(one, two);
  }

  // ---- what the check is worth on roots as they are written ---------------------------------------

  /** Cleaning an absolute path leaves it tidy and keeps the directory it names. */
  lemma CleanedIsTidy(path: string)
    requires IsAbs(path)
    ensures Tidy(Clean(path)) && Segments(Clean(path)) == Segments(path)
  {
    SegmentsAreClean(path);
    ShowKeepsSegments(true, Segments(path));
    var segments := Segments(path);
    if segments != [] {
      FlatEndsInSegment(segments);
    }
  }

  lemma {:induction false} FlatEndsInSegment(segments: seq<string>)
    requires segments != [] && AllPlain(segments)
    ensures Flat(segments) != "" && Flat(segments)[|Flat(segments)| - 1] != '/'
  {
    if |segments| == 1 {
      assert Flat(segments[1..]) == "";
      var last := segments[0];
      assert Flat(segments) == "/" + (last + "") && last[|last| - 1] in last;
    } else {
      FlatEndsInSegment(segments[1..]);
    }
  }

  /** The comparison of the roots once they are cleaned; a relative root places nothing. */
  predicate CleanedOverlap(one: Source, two: Source) {
    IsAbs(one.rootPath) && IsAbs(two.rootPath) && Overlaps(Clean(one.rootPath), Clean(two.rootPath))
  }

  /** Whatever the roots, two sources can both accept some path exactly when their cleaned roots overlap. */
  lemma BothAcceptIffCleanedOverlap(one: Source, two: Source)
    ensures BothAccept(one, two) <==> CleanedOverlap(one, two)
  {
    if IsAbs(one.rootPath) && IsAbs(two.rootPath) {
      CleanedIsTidy(one.rootPath);
      CleanedIsTidy(two.rootPath);
      OverlapsIffPrefix(Clean(one.rootPath), Clean(two.rootPath));
      BothAcceptIff(one, two);
    } else if BothAccept(one, two) {
      var path :| Localise(one, path).Some? && Localise(two, path).Some?;
      LocalisesIff(one, path);
      LocalisesIff(two, path);
    }
  }

  /** The check of a pair is right exactly when cleaning both roots first would not change its answer. */
  lemma OverlapCheckIsRightIff(one: Source, two: Source)
    requires IsAbs(one.rootPath) && IsAbs(two.rootPath)
    ensures (Overlaps(one.rootPath, two.rootPath) <==> BothAccept(one, two)) <==>
            (Overlaps(one.rootPath, two.rootPath) <==> Overlaps(Clean(one.rootPath), Clean(two.rootPath)))
  {
    BothAcceptIffCleanedOverlap(one, two);
  }

  /** No path a downloader reports belongs to two of the configured sources. */
  ghost predicate ShareNoPath(configured: seq<Configured>) {
    forall i, j :: 0 <= i < j < |configured| ==> !BothAccept(configured[i].source, configured[j].source)
  }

  predicate AllNamed(configured: seq<Configured>) {
    forall i :: 0 <= i < |configured| ==> Named(configured[i].source)
  }

  predicate AllAbsolute(configured: seq<Configured>) {
    forall i :: 0 <= i < |configured| ==> IsAbs(configured[i].source.rootPath)
  }

  function CleanedRoots(configured: seq<Configured>): (cleaned: seq<Configured>)
    ensures |cleaned| == |configured|
    ensures forall i :: 0 <= i < |configured| ==>
              cleaned[i] == configured[i].(source := configured[i].source.(rootPath := Clean(configured[i].source.rootPath)))
  {
    seq(|configured|, i requires 0 <= i < |configured| =>
      configured[i].(source := configured[i].source.(rootPath := Clean(configured[i].source.rootPath))))
  }

  /** No reported path has two owners exactly when no two of the cleaned roots overlap. */
  lemma ShareNoPathIff(configured: seq<Configured>)
    ensures ShareNoPath(configured) <==>
            forall i, j :: 0 <= i < j < |configured| ==> !CleanedOverlap(configured[i].source, configured[j].source)
  {
    forall i, j | 0 <= i < j < |configured|
      ensures BothAccept(configured[i].source, configured[j].source) <==> CleanedOverlap(configured[i].source, configured[j].source)
    {
      BothAcceptIffCleanedOverlap(configured[i].source, configured[j].source);
    }
  }

  /** So on named absolute roots the check, handed the cleaned roots, would accept exactly what it should. */
  lemma CleaningMakesTheCheckExact(configured: seq<Configured>)
    requires AllNamed(configured) && AllAbsolute(configured)
    ensures RootsAccepted(CleanedRoots(configured)) <==> ShareNoPath(configured)
    ensures (RootsAccepted(configured) <==> ShareNoPath(configured)) <==>
            (RootsAccepted(configured) <==> RootsAccepted(CleanedRoots(configured)))
  {
    var cleaned := CleanedRoots(configured);
    forall i | 0 <= i < |configured|
      ensures Named(cleaned[i].source)
    {
      CleanedIsTidy(configured[i].source.rootPath);
    }
    ShareNoPathIff(configured);
    forall i, j | 0 <= i < j < |configured|
      ensures CleanedOverlap(configured[i].source, configured[j].source) <==>
              Overlaps(cleaned[i].source.rootPath, cleaned[j].source.rootPath)
    {
    }
  }

  // ---- where the files end up -------------------------------------------------------------------

  /** A path either of them reports is given one and the same local path. */
  ghost predicate ShareLocalPath(one: Source, two: Source) {
    exists p, q :: Localise(one, p).Some? && Localise(one, p) == Localise(two, q)
  }

  /** One local directory, cleaned, lies in the other; steps up out of a relative one are not below it. */
  predicate LocalOverlap(one: Source, two: Source) {
    var a, b := Segments(one.localPath), Segments(two.localPath);
    && IsAbs(one.rootPath) && IsAbs(two.rootPath) && IsAbs(one.localPath) == IsAbs(two.localPath)
    && ((a <= b && AllPlain(b[|a|..])) || (b <= a && AllPlain(a[|b|..])))
  }

  lemma LocalisedIs(source: Source, path: string)
    requires Localise(source, path).Some?
    ensures Localise(source, path).value ==
            Show(IsAbs(source.localPath), Segments(source.localPath) + Segments(path)[|Segments(source.rootPath)|..])
    ensures AllPlain(Segments(path)[|Segments(source.rootPath)|..])
  {
    LocalisesIff(source, path);
    SegmentsAreClean(path);
    ResolveKeepsPlain(IsAbs(source.localPath), Split(source.localPath, {'/'}), Segments(path)[|Segments(source.rootPath)|..]);
  }

  /** Every plain continuation of the root is reported by some path. */
  lemma ReportsBelow(source: Source, below: seq<string>) returns (path: string)
    requires IsAbs(source.rootPath) && AllPlain(below)
    ensures Localise(source, path) == Some(Show(IsAbs(source.localPath), Segments(source.localPath) + below))
  {
    var root := Segments(source.rootPath);
    SegmentsAreClean(source.rootPath);
    path := Show(true, root + below);
    ShowKeepsSegments(true, root + below);
    LocalisesIff(source, path);
    LocalisedIs(source, path);
    assert (root + below)[|root|..] == below;
  }

  lemma InnerLocalShared(outer: Source, inner: Source)
    requires IsAbs(outer.rootPath) && IsAbs(inner.rootPath) && IsAbs(outer.localPath) == IsAbs(inner.localPath)
    requires var a, b := Segments(outer.localPath), Segments(inner.localPath); a <= b && AllPlain(b[|a|..])
    ensures ShareLocalPath(outer, inner) && ShareLocalPath(inner, outer)
  {
    var a, b := Segments(outer.localPath), Segments(inner.localPath);
    var p := ReportsBelow(outer, b[|a|..]);
    var q := ReportsBelow(inner, []);
    assert a + b[|a|..] == b && b + [] == b;
    assert Localise(outer, p) == Localise(inner, q);
  }

  lemma PlainRemainder(a: seq<string>, b: seq<string>, x: seq<string>, y: seq<string>)
    requires AllPlain(x) && AllPlain(y) && a + x == b + y
    ensures (a <= b && AllPlain(b[|a|..])) || (b <= a && AllPlain(a[|b|..]))
  {
    if |a| <= |b| {
      assert a == (a + x)[..|a|] == (b + y)[..|a|] == b[..|a|];
      forall k | 0 <= k < |b[|a|..]|
        ensures Plain(b[|a|..][k])
      {
        assert b[|a|..][k] == (b + y)[|a| + k] == (a + x)[|a| + k] == x[k];
      }
    } else {
      assert b == (b + y)[..|b|] == (a + x)[..|b|] == a[..|b|];
      forall k | 0 <= k < |a[|b|..]|
        ensures Plain(a[|b|..][k])
      {
        assert a[|b|..][k] == (a + x)[|b| + k] == (b + y)[|b| + k] == y[k];
      }
    }
  }

  lemma SharedLocalNests(one: Source, two: Source, p: string, q: string)
    requires Localise(one, p).Some? && Localise(one, p) == Localise(two, q)
    ensures LocalOverlap(one, two)
  {
    LocalisesIff(one, p);
    LocalisesIff(two, q);
    LocalisedIs(one, p);
    LocalisedIs(two, q);
    LocalisedBelowLocalPath(one, p);
    LocalisedBelowLocalPath(two, q);
    PlainRemainder(Segments(one.localPath), Segments(two.localPath),
                   Segments(p)[|Segments(one.rootPath)|..], Segments(q)[|Segments(two.rootPath)|..]);
  }

  /** Two sources can be given one local path exactly when their local directories overlap. */
  lemma ShareLocalPathIff(one: Source, two: Source)
    ensures ShareLocalPath(one, two) <==> LocalOverlap(one, two)
  {
    if ShareLocalPath(one, two) {
      var p, q :| Localise(one, p).Some? && Localise(one, p) == Localise(two, q);
      SharedLocalNests(one, two, p, q);
    }
    if LocalOverlap(one, two) {
      var a, b := Segments(one.localPath), Segments(two.localPath);
      if a <= b && AllPlain(b[|a|..]) {
        InnerLocalShared(one, two);
      } else {
        InnerLocalShared(two, one);
      }
    }
  }

  /** For absolute directories that is the check the roots get, on the cleaned local paths. */
  lemma ShareLocalPathIffCleanedOverlap(one: Source, two: Source)
    requires IsAbs(one.rootPath) && IsAbs(two.rootPath) && IsAbs(one.localPath) && IsAbs(two.localPath)
    ensures ShareLocalPath(one, two) <==> Overlaps(Clean(one.localPath), Clean(two.localPath))
  {
    ShareLocalPathIff(one, two);
    SegmentsAreClean(one.localPath);
    SegmentsAreClean(two.localPath);
    CleanedIsTidy(one.localPath);
    CleanedIsTidy(two.localPath);
    OverlapsIffPrefix(Clean(one.localPath), Clean(two.localPath));
  }

  /** No local path, and so no file row, is fought over by two of the configured sources. */
  ghost predicate ShareNoFile(configured: seq<Configured>) {
    forall i, j :: 0 <= i < j < |configured| ==> !ShareLocalPath(configured[i].source, configured[j].source)
  }

  lemma ShareNoFileIff(configured: seq<Configured>)
    ensures ShareNoFile(configured) <==>
            forall i, j :: 0 <= i < j < |configured| ==> !LocalOverlap(configured[i].source, configured[j].source)
  {
    forall i, j | 0 <= i < j < |configured|
      ensures ShareLocalPath(configured[i].source, configured[j].source) <==> LocalOverlap(configured[i].source, configured[j].source)
    {
      ShareLocalPathIff(configured[i].source, configured[j].source);
    }
  }

  lemma FlatRootsApart(a: string, b: string)
    requires Plain(a) && Plain(b) && a != b
    ensures Flat([a]) != "" && IsAbs(Flat([a])) && !Overlaps(Flat([a]), Flat([b]))
  {
    ShowKeepsSegments(true, [a]);
    ShowKeepsSegments(true, [b]);
    FlatEndsInSegment([a]);
    FlatEndsInSegment([b]);
    OverlapsIffPrefix(Show(true, [a]), Show(true, [b]));
    assert [a][0] != [b][0];
  }

  lemma PairAccepted(one: Configured, two: Configured)
    requires Named(one.source) && Named(two.source) && !Overlaps(one.source.rootPath, two.source.rootPath)
    ensures RootsAccepted([one, two])
  {
    var configured := [one, two];
    forall i, j | 0 <= i < j < |configured|
      ensures !Overlaps(configured[i].source.rootPath, configured[j].source.rootPath)
    {
      assert i == 0 && j == 1;
    }
  }

  /** The roots /a and /b beside each other with one local directory: accepted, and every file of one is one of the other. */
  lemma OneLocalPathSlipsThrough(one: Source, two: Source, a: string, b: string)
    requires Plain(a) && Plain(b) && a != b && one.rootPath == Flat([a]) && two.rootPath == Flat([b])
    requires one.localPath == two.localPath != ""
    ensures RootsAccepted([Configured(one, []), Configured(two, [])]) && ShareLocalPath(one, two)
  {
    FlatRootsApart(a, b);
    FlatRootsApart(b, a);
    PairAccepted(Configured(one, []), Configured(two, []));
    InnerLocalShared(one, two);
  }

  lemma DotDotUndoes(a: string, b: string)
    requires Plain(a) && Plain(b)
    ensures Resolve(true, ["", a, "..", b]) == [b] && Resolve(true, ["", b]) == [b]
  {
    assert ["", a, "..", b][..3] == ["", a, ".."] && ["", a, ".."][..2] == ["", a] && ["", a][..1] == [""] && [""][..0] == [];
    assert ["", b][..1] == [""];
    assert Resolve(true, [""]) == [] && Resolve(true, ["", a]) == [a] && [a][..0] == [];
  }

  lemma FirstSegmentsApart(a: string, b: string, u: string, v: string)
    requires Plain(a) && Plain(b) && a != b && u != "" && u[0] == '/' && (v == "" || v[0] == '/')
    ensures !("/" + (a + u) <= "/" + (b + v))
  {
    PrefixAfter("/", a + u, b + v);
    FirstSegmentsAgree(a, b, u, v);
  }

  /** Untidy roots slip through: /a/../b and /b are accepted side by side and are the same directory. */
  lemma UntidyRootsSlipThrough(one: Source, two: Source, a: string, b: string)
    requires Plain(a) && Plain(b) && a != b
    requires one.rootPath == "/" + (a + ("/../" + b)) && two.rootPath == "/" + (b + "")
    ensures !Overlaps(one.rootPath, two.rootPath) && BothAccept(one, two)
  {
    var u := "/../" + b;
    assert TrimSlash(one.rootPath) == one.rootPath && TrimSlash(two.rootPath) == two.rootPath;
    FirstSegmentsApart(a, b, u, "");
    assert one.rootPath + "/" == "/" + (a + (u + "/")) && two.rootPath + "/" == "/" + (b + "/");
    FirstSegmentsApart(a, b, u + "/", "");
    FirstSegmentsApart(b, a, "/", u);
    UntidyParts(a, b);
    DotDotUndoes(a, b);
    BothAcceptIff(one, two);
  }

  lemma UntidyParts(a: string, b: string)
    requires Plain(a) && Plain(b)
    ensures Split("/" + (a + ("/../" + b)), {'/'}) == ["", a, "..", b] && Split("/" + (b + ""), {'/'}) == ["", b]
  {
    SplitUndoesJoin(["", a, "..", b], '/');
    SplitUndoesJoin(["", b], '/');
    assert b + "" == b;
    assert ["", a, "..", b][1..] == [a, "..", b] && [a, "..", b][1..] == ["..", b] && ["..", b][1..] == [b] && ["", b][1..] == [b];
    assert Join(["..", b], '/') == ".." + (['/'] + b);
    assert Join([a, "..", b], '/') == a + (['/'] + (".." + (['/'] + b)));
    assert ['/'] + (".." + (['/'] + b)) == "/../" + b;
    assert Join(["", a, "..", b], '/') == "/" + (a + ("/../" + b));
    assert Join(["", b], '/') == "/" + b;
  }

  // ---- saving the configuration -----------------------------------------------------------------

  datatype Refusal = RootsRefused | VariableRefused | NameTaken | LibraryBoundTwice

  type Rows = map<string, Source>

  /** Stored roots are pairwise apart. */
  ghost predicate Disjoint(rows: Rows) {
    forall u, v :: u in rows && v in rows && u != v ==> !Overlaps(rows[u].rootPath, rows[v].rootPath)
  }

  predicate Lists(configured: seq<Configured>, url: string) {
    exists i :: 0 <= i < |configured| && configured[i].source.url == url
  }

  /** The last entry for a url is the one its upsert leaves. */
  function LastFor(configured: seq<Configured>, url: string): (i: nat)
    requires Lists(configured, url)
    ensures i < |configured| && configured[i].source.url == url
    ensures forall j :: i < j < |configured| ==> configured[j].source.url != url
  {
    if configured[|configured| - 1].source.url == url then |configured| - 1
    else
      assert Lists(configured[..|configured| - 1], url) by {
        var i :| 0 <= i < |configured| && configured[i].source.url == url;
        assert configured[..|configured| - 1][i] == configured[i];
      }
      LastFor(configured[..|configured| - 1], url)
  }

  /** Each listed url holds its last entry and nothing else is stored. */
  ghost predicate Stored(rows: Rows, configured: seq<Configured>) {
    && (forall url :: url in rows <==> Lists(configured, url))
    && (forall url :: url in rows ==> rows[url] == configured[LastFor(configured, url)].source)
  }

  /** Rows taken from an accepted configuration, one a url, are pairwise apart. */
  lemma StoredIsDisjoint(rows: Rows, configured: seq<Configured>)
    requires Stored(rows, configured) && RootsAccepted(configured)
    ensures Disjoint(rows)
  {
    forall u, v | u in rows && v in rows && u != v
      ensures !Overlaps(rows[u].rootPath, rows[v].rootPath)
    {
      var i, j := LastFor(configured, u), LastFor(configured, v);
      OverlapsIsSymmetric(rows[u].rootPath, rows[v].rootPath);
    }
  }

  /** Only listed urls are stored, and those of the first i entries as those entries last say. */
  ghost predicate SavedUpTo(rows: Rows, configured: seq<Configured>, i: nat)
    requires i <= |configured|
  {
    && (forall url :: url in rows ==> Lists(configured, url))
    && (forall url :: Lists(configured[..i], url) ==> url in rows && rows[url] == configured[LastFor(configured[..i], url)].source)
  }

  lemma SavedOneMore(rows: Rows, configured: seq<Configured>, i: nat)
    requires i < |configured| && SavedUpTo(rows, configured, i)
    ensures SavedUpTo(rows[configured[i].source.url := configured[i].source], configured, i + 1)
  {
    OneMoreEntry(configured, i);
  }

  // ---- what one call of Update answers ------------------------------------------------------------

  type Bindings = set<(string, nat, string)>

  predicate BoundOnce(libraries: seq<(nat, string)>) {
    forall j, k :: 0 <= j < k < |libraries| ==> libraries[j].0 != libraries[k].0
  }

  /** Another stored source already has the entry's name. */
  predicate NameHeld(rows: Rows, entry: Source) {
    exists url :: url in rows && url != entry.url && rows[url].name == entry.name
  }

  /** Why an entry is refused, in the order the statements find out. */
  function EntryRefusal(rows: Rows, entry: Configured, validVariable: string -> bool): (refusal: Option<Refusal>)
    ensures refusal.None? <==> validVariable(entry.source.apiKeyVariable) && !NameHeld(rows, entry.source) && BoundOnce(entry.libraries)
    ensures refusal != Some(RootsRefused)
  {
    if !validVariable(entry.source.apiKeyVariable) then Some(VariableRefused)
    else if NameHeld(rows, entry.source) then Some(NameTaken)
    else if !BoundOnce(entry.libraries) then Some(LibraryBoundTwice)
    else None
  }

  /** The sources stored when the i-th entry's turn comes: the listed ones, the first i as configured. */
  function RowsBefore(found: Rows, configured: seq<Configured>, i: nat): Rows
    requires i <= |configured|
  {
    if i == 0 then map url | url in found && Lists(configured, url) :: found[url]
    else RowsBefore(found, configured, i - 1)[configured[i - 1].source.url := configured[i - 1].source]
  }

  /** The refusal of the first entry refused among the first i. */
  function FirstRefusal(found: Rows, configured: seq<Configured>, validVariable: string -> bool, i: nat): Option<Refusal>
    requires i <= |configured|
  {
    if i == 0 then None
    else
      match FirstRefusal(found, configured, validVariable, i - 1)
      case Some(refusal) => Some(refusal)
      case None => EntryRefusal(RowsBefore(found, configured, i - 1), configured[i - 1], validVariable)
  }

  lemma {:induction false} RefusedStaysRefused(found: Rows, configured: seq<Configured>, validVariable: string -> bool, i: nat, j: nat)
    requires i <= j <= |configured| && FirstRefusal(found, configured, validVariable, i).Some?
    ensures FirstRefusal(found, configured, validVariable, j) == FirstRefusal(found, configured, validVariable, i)
  {
    if i < j {
      RefusedStaysRefused(found, configured, validVariable, i, j - 1);
    }
  }

  /** Nothing is refused exactly when every entry passes in its turn; the roots are not judged again. */
  lemma {:induction false} NothingRefusedIff(found: Rows, configured: seq<Configured>, validVariable: string -> bool, i: nat)
    requires i <= |configured|
    ensures FirstRefusal(found, configured, validVariable, i).None? <==>
            forall k :: 0 <= k < i ==>
              EntryRefusal(RowsBefore(found, configured, k), configured[k], validVariable).None?
    ensures FirstRefusal(found, configured, validVariable, i) != Some(RootsRefused)
  {
    if i > 0 {
      NothingRefusedIff(found, configured, validVariable, i - 1);
    }
  }

  predicate BindsTo(libraries: seq<(nat, string)>, library: nat, tag: string) {
    (library, tag) in libraries
  }

  /** Every listed source is bound as its last entry says and nothing else is bound, up to the i-th entry. */
  ghost predicate BoundUpTo(bindings: Bindings, configured: seq<Configured>, i: nat)
    requires i <= |configured|
  {
    forall url, library: nat, tag :: Lists(configured[..i], url) ==>
      ((url, library, tag) in bindings <==> BindsTo(configured[LastFor(configured[..i], url)].libraries, library, tag))
  }

  ghost predicate Bound(bindings: Bindings, configured: seq<Configured>) {
    forall url, library: nat, tag :: (url, library, tag) in bindings <==>
      Lists(configured, url) && BindsTo(configured[LastFor(configured, url)].libraries, library, tag)
  }

  function Rebound(bindings: Bindings, url: string, libraries: seq<(nat, string)>): Bindings {
    (set b | b in bindings && b.0 != url) + (set k | 0 <= k < |libraries| :: (url, libraries[k].0, libraries[k].1))
  }

  lemma ReboundHas(bindings: Bindings, at: string, libraries: seq<(nat, string)>, url: string, library: nat, tag: string)
    ensures (url, library, tag) in Rebound(bindings, at, libraries) <==>
            if url == at then BindsTo(libraries, library, tag) else (url, library, tag) in bindings
  {
    if url == at && BindsTo(libraries, library, tag) {
      var k :| 0 <= k < |libraries| && libraries[k] == (library, tag);
      assert (url, libraries[k].0, libraries[k].1) in Rebound(bindings, at, libraries);
    }
  }

  lemma BoundOneMore(bindings: Bindings, configured: seq<Configured>, i: nat)
    requires i < |configured| && BoundUpTo(bindings, configured, i)
    ensures BoundUpTo(Rebound(bindings, configured[i].source.url, configured[i].libraries), configured, i + 1)
  {
    OneMoreEntry(configured, i);
    var next := Rebound(bindings, configured[i].source.url, configured[i].libraries);
    forall url, library: nat, tag | Lists(configured[..i + 1], url)
      ensures (url, library, tag) in next <==>
              BindsTo(configured[LastFor(configured[..i + 1], url)].libraries, library, tag)
    {
      ReboundHas(bindings, configured[i].source.url, configured[i].libraries, url, library, tag);
    }
  }

  class Registry {
    var rows: Rows
    /** library_sources: url, library and tag filter; a library is bound to a source once. */
    var bindings: Bindings

    /** Delete the bindings of one source, then insert what is configured. */
    method Bind(url: string, libraries: seq<(nat, string)>) returns (ok: bool)
      modifies this`bindings
      ensures ok ==> bindings == Rebound(old(bindings), url, libraries)
      ensures ok <==> BoundOnce(libraries)
    {
      bindings := set b | b in bindings && b.0 != url;
      ghost var others := bindings;
      for i := 0 to |libraries|
        invariant bindings == others + (set k | 0 <= k < i :: (url, libraries[k].0, libraries[k].1))
        invariant forall j, k :: 0 <= j < k < i ==> libraries[j].0 != libraries[k].0
      {
        if exists b :: b in bindings && b.0 == url && b.1 == libraries[i].0 {
          var b :| b in bindings && b.0 == url && b.1 == libraries[i].0;
          var k :| 0 <= k < i && (url, libraries[k].0, libraries[k].1) == b;
          return false;
        }
        forall k | 0 <= k < i
          ensures libraries[k].0 != libraries[i].0
        {
          assert (url, libraries[k].0, libraries[k].1) in bindings;
        }
        bindings := bindings + {(url, libraries[i].0, libraries[i].1)};
      }
      return true;
    }

    /** The upsert of one entry and its bindings; names are unique among the stored sources. */
    method Save(entry: Configured, validVariable: string -> bool) returns (refused: Option<Refusal>)
      modifies this
      ensures refused == EntryRefusal(old(rows), entry, validVariable)
      ensures refused.None? ==> rows == old(rows)[entry.source.url := entry.source]
      ensures refused.None? ==> bindings == Rebound(old(bindings), entry.source.url, entry.libraries)
    {
      if !validVariable(entry.source.apiKeyVariable) {
        return Some(VariableRefused);
      }
      if exists url :: url in rows && url != entry.source.url && rows[url].name == entry.source.name {
        return Some(NameTaken);
      }
      rows := rows[entry.source.url := entry.source];
      var bound := Bind(entry.source.url, entry.libraries);
      refused := if bound then None else Some(LibraryBoundTwice);
    }

    /** The loop over the entries, left at the first one refused. */
    method SaveEntries(configured: seq<Configured>, validVariable: string -> bool, ghost found: Rows) returns (refused: Option<Refusal>)
      requires rows == RowsBefore(found, configured, 0) && forall b :: b in bindings ==> Lists(configured, b.0)
      modifies this
      ensures refused == FirstRefusal(found, configured, validVariable, |configured|)
      ensures refused.None? ==> rows == RowsBefore(found, configured, |configured|)
      ensures refused.None? ==> BoundUpTo(bindings, configured, |configured|)
      ensures refused.None? ==> forall b :: b in bindings ==> Lists(configured, b.0)
    {
      for i := 0 to |configured|
        invariant FirstRefusal(found, configured, validVariable, i).None?
        invariant rows == RowsBefore(found, configured, i) && BoundUpTo(bindings, configured, i)
        invariant forall b :: b in bindings ==> Lists(configured, b.0)
      {
        BoundOneMore(bindings, configured, i);
        refused := Save(configured[i], validVariable);
        if refused.Some? {
          RefusedStaysRefused(found, configured, validVariable, i + 1, |configured|);
          return;
        }
        assert Lists(configured, configured[i].source.url);
      }
      refused := None;
    }

    /** DELETE ... WHERE url NOT IN (...), which takes the bindings along. */
    method DropUnlisted(configured: seq<Configured>)
      modifies this
      ensures rows == RowsBefore(old(rows), configured, 0)
      ensures forall b :: b in bindings ==> Lists(configured, b.0)
    {
      rows := map url | url in rows && Lists(configured, url) :: rows[url];
      bindings := set b | b in bindings && b.0 in rows;
    }

    /** One transaction; what it refuses leaves every row as it was. */
    method Update(configured: seq<Configured>, validVariable: string -> bool) returns (refused: Option<Refusal>)
      modifies this
      ensures refused == if !RootsAccepted(configured) then Some(RootsRefused) else FirstRefusal(old(rows), configured, validVariable, |configured|)
      ensures refused == Some(RootsRefused) <==> !RootsAccepted(configured)
      ensures refused.Some? ==> rows == old(rows) && bindings == old(bindings)
      ensures refused.None? ==> Stored(rows, configured) && Disjoint(rows) && Bound(bindings, configured)
      ensures refused.None? ==> forall i :: 0 <= i < |configured| ==> validVariable(configured[i].source.apiKeyVariable)
    {
      EntriesNeverRefuseRoots(rows, configured, validVariable);
      var savedRows, savedBindings := rows, bindings;
      DropUnlisted(configured);
      var ok := Roots(configured);
      if !ok {
        rows, bindings := savedRows, savedBindings;
        return Some(RootsRefused);
      }
      refused := SaveEntries(configured, validVariable, savedRows);
      if refused.Some? {
        rows, bindings := savedRows, savedBindings;
        return;
      }
      AllSaved(savedRows, bindings, configured, validVariable);
    }
  }

  lemma EntriesNeverRefuseRoots(found: Rows, configured: seq<Configured>, validVariable: string -> bool)
    ensures FirstRefusal(found, configured, validVariable, |configured|) != Some(RootsRefused)
  {
    NothingRefusedIff(found, configured, validVariable, |configured|);
  }

  lemma AllSaved(found: Rows, bindings: Bindings, configured: seq<Configured>, validVariable: string -> bool)
    requires FirstRefusal(found, configured, validVariable, |configured|).None?
    requires RootsAccepted(configured) && BoundUpTo(bindings, configured, |configured|)
    requires forall b :: b in bindings ==> Lists(configured, b.0)
    ensures var rows := RowsBefore(found, configured, |configured|);
            Stored(rows, configured) && Disjoint(rows) && Bound(bindings, configured)
    ensures forall i :: 0 <= i < |configured| ==> validVariable(configured[i].source.apiKeyVariable)
  {
    NothingRefusedIff(found, configured, validVariable, |configured|);
    var rows := RowsBefore(found, configured, |configured|);
    RowsBeforeSaved(found, configured, |configured|);
    assert configured[..|configured|] == configured;
    StoredIsDisjoint(rows, configured);
  }

  lemma {:induction false} RowsBeforeSaved(found: Rows, configured: seq<Configured>, i: nat)
    requires i <= |configured|
    ensures SavedUpTo(RowsBefore(found, configured, i), configured, i)
  {
    if i > 0 {
      RowsBeforeSaved(found, configured, i - 1);
      SavedOneMore(RowsBefore(found, configured, i - 1), configured, i - 1);
    }
  }

  lemma OneMoreEntry(configured: seq<Configured>, i: nat)
    requires i < |configured|
    ensures Lists(configured, configured[i].source.url)
    ensures forall url :: Lists(configured[..i + 1], url) <==> Lists(configured[..i], url) || url == configured[i].source.url
    ensures forall url :: Lists(configured[..i + 1], url) ==>
              LastFor(configured[..i + 1], url) == if url == configured[i].source.url then i else LastFor(configured[..i], url)
  {
    var longer := configured[..i + 1];
    assert longer[..i] == configured[..i] && longer[i] == configured[i];
    forall url
      ensures Lists(longer, url) <==> Lists(configured[..i], url) || url == configured[i].source.url
    {
      if Lists(configured[..i], url) {
        var k :| 0 <= k < i && configured[..i][k].source.url == url;
        assert longer[k].source.url == url;
      }
      if Lists(longer, url) {
        var k :| 0 <= k < |longer| && longer[k].source.url == url;
        assert k < i ==> configured[..i][k].source.url == url;
      }
      assert longer[i].source.url == configured[i].source.url;
    }
    forall url | Lists(longer, url)
      ensures LastFor(longer, url) == if url == configured[i].source.url then i else LastFor(configured[..i], url)
    {
      assert longer[|longer| - 1] == configured[i] && longer[..|longer| - 1] == configured[..i];
    }
  }
}
