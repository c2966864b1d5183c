/** Slash-separated paths: the string forms the service compares and the segment lists they stand for. */
module Paths {
  import opened Options
  import opened Text

  predicate Plain(segment: string) {
    segment != "" && segment != "." && segment != ".." && '/' !in segment
  }

  predicate AllPlain(segments: seq<string>) {
    forall k :: 0 <= k < |segments| ==> Plain(segments[k])
  }

  predicate IsAbs(path: string) {
    path != "" && path[0] == '/'
  }

  /** One element of a path folded into the segments before it, as filepath.Clean does. */
  function Resolve(rooted: bool, parts: seq<string>): seq<string> {
    if parts == [] then []
    else
      var before, part := Resolve(rooted, parts[..|parts| - 1]), parts[|parts| - 1];
      if part == "" || part == "." then before
      else if part != ".." then before + [part]
      else if before != [] && before[|before| - 1] != ".." then before[..|before| - 1]
      else if rooted then before
      else before + [".."]
  }

  function Segments(path: string): seq<string> {
    Resolve(IsAbs(path), Split(path, {'/'}))
  }

  /** Each segment after a slash; the root itself is the empty string. */
  function Flat(segments: seq<string>): string {
    if segments == [] then "" else "/" + (segments[0] + Flat(segments[1..]))
  }

  /** The cleaned path. */
  function Show(rooted: bool, segments: seq<string>): string {
    if rooted then (if segments == [] then "/" else Flat(segments))
    else if segments == [] then "."
    else Join(segments, '/')
  }

  function Clean(path: string): string {
    Show(IsAbs(path), Segments(path))
  }

  /** What cleaning leaves: no empty or dot segment, and dot-dots only in front of a relative path. */
  ghost predicate Cleaned(rooted: bool, segments: seq<string>) {
    forall k :: 0 <= k < |segments| ==>
      && segments[k] != "" && segments[k] != "." && '/' !in segments[k]
      && (segments[k] == ".." ==> !rooted && forall j :: 0 <= j < k ==> segments[j] == "..")
  }

  lemma {:induction false} SplitPiecesLackSeparator(s: string, c: char)
    ensures forall k :: 0 <= k < |Split(s, {c})| ==> c !in Split(s, {c})[k]
  {
    if s != "" {
      SplitPiecesLackSeparator(s[1..], c);
    }
  }

  lemma {:induction false} ResolveCleans(rooted: bool, parts: seq<string>)
    requires forall k :: 0 <= k < |parts| ==> '/' !in parts[k]
    ensures Cleaned(rooted, Resolve(rooted, parts))
  {
    if parts != [] {
      var n := |parts| - 1;
      var before, part := Resolve(rooted, parts[..n]), parts[n];
      ResolveCleans(rooted, parts[..n]);
      if part == ".." && !rooted && !(before != [] && before[|before| - 1] != "..") {
        assert before != [] ==> before[|before| - 1] == "..";
      }
    }
  }

  lemma SegmentsAreClean(path: string)
    ensures Cleaned(IsAbs(path), Segments(path))
    ensures IsAbs(path) ==> AllPlain(Segments(path))
  {
    SplitPiecesLackSeparator(path, '/');
    ResolveCleans(IsAbs(path), Split(path, {'/'}));
  }

  /** Plain segments after anything are kept. */
  lemma {:induction false} ResolveKeepsPlain(rooted: bool, parts: seq<string>, plain: seq<string>)
    requires AllPlain(plain)
    ensures Resolve(rooted, parts + plain) == Resolve(rooted, parts) + plain
  {
    if plain == [] {
      assert parts + plain == parts;
    } else {
      var n := |plain| - 1;
      assert (parts + plain)[..|parts| + n] == parts + plain[..n];
      assert Plain(plain[n]);
      ResolveKeepsPlain(rooted, parts, plain[..n]);
    }
  }

  lemma {:induction false} ResolveKeepsClean(rooted: bool, segments: seq<string>)
    requires Cleaned(rooted, segments)
    ensures Resolve(rooted, segments) == segments
  {
    if segments != [] {
      ResolveKeepsClean(rooted, segments[..|segments| - 1]);
    }
  }

  lemma {:induction false} FlatIsSlashJoin(segments: seq<string>)
    requires segments != []
    ensures Flat(segments) == ['/'] + Join(segments, '/')
  {
    if |segments| > 1 {
      FlatIsSlashJoin(segments[1..]);
    } else {
      assert segments[1..] == [] && segments[0] + "" == segments[0];
    }
  }

  lemma FlatIsJoin(segments: seq<string>)
    ensures Flat(segments) == Join([""] + segments, '/')
  {
    assert ([""] + segments)[1..] == segments;
    if segments != [] {
      FlatIsSlashJoin(segments);
      assert "" + (['/'] + Join(segments, '/')) == ['/'] + Join(segments, '/');
    }
  }

  /** A cleaned path stands for its segments: cleaning is a round trip. */
  lemma ShowKeepsSegments(rooted: bool, segments: seq<string>)
    requires Cleaned(rooted, segments)
    ensures IsAbs(Show(rooted, segments)) == rooted && Segments(Show(rooted, segments)) == segments
  {
    ResolveKeepsClean(rooted, segments);
    if rooted && segments != [] {
      FlatIsJoin(segments);
      SplitUndoesJoin([""] + segments, '/');
      assert AllPlain(segments);
      ResolveKeepsPlain(true, [""], segments);
      assert Resolve(true, [""]) == [] by {
        assert [""][..0] == [];
      }
    } else if rooted {
      assert Split("/", {'/'}) == ["", ""];
      assert ["", ""][..1] == [""] && [""][..0] == [];
    } else if segments == [] {
      SplitUndoesJoin(["."], '/');
      assert ["."][..0] == [];
    } else {
      SplitUndoesJoin(segments, '/');
    }
  }

  // ---- one path above another ---------------------------------------------------------------------

  function TrimSlash(path: string): string {
    if path != "" && path[|path| - 1] == '/' then path[..|path| - 1] else path
  }

  /** strings.HasPrefix. */
  predicate HasPrefix(s: string, prefix: string) {
    prefix <= s
  }

  predicate Overlaps(one: string, other: string) {
    var a, b := TrimSlash(one), TrimSlash(other);
    a == b || HasPrefix(a, b + "/") || HasPrefix(b, a + "/")
  }

  /** An absolute path in clean form, give or take one slash at its end. */
  predicate Tidy(path: string) {
    IsAbs(path) && TrimSlash(path) == Flat(Segments(path))
  }

  /** What stands before the first slash. */
  function Head(s: string): string {
    if s == "" || s[0] == '/' then "" else [s[0]] + Head(s[1..])
  }

  lemma {:induction false} HeadOfSegment(x: string, rest: string)
    requires '/' !in x && (rest == "" || rest[0] == '/')
    ensures Head(x + rest) == x
  {
    if x == "" {
      assert x + rest == rest;
    } else {
      assert (x + rest)[1..] == x[1..] + rest;
      HeadOfSegment(x[1..], rest);
    }
  }

  lemma {:induction false} HeadOfPrefix(s: string, t: string)
    requires s <= t && '/' in s
    ensures Head(s) == Head(t)
  {
    if s[0] != '/' {
      HeadOfPrefix(s[1..], t[1..]);
    }
  }

  lemma SameFirstSegment(x: string, y: string, u: string, v: string)
    requires '/' !in x && '/' !in y && (v == "" || v[0] == '/') && x + ("/" + u) <= y + v
    ensures x == y && "/" + u <= v
  {
    var s, t := x + ("/" + u), y + v;
    assert s[|x|] == '/';
    HeadOfSegment(x, "/" + u);
    HeadOfSegment(y, v);
    HeadOfPrefix(s, t);
    assert "/" + u == s[|x|..] && v == t[|x|..];
  }

  /** The same with a slash at the end. */
  function Slashed(segments: seq<string>): string {
    if segments == [] then "/" else "/" + (segments[0] + Slashed(segments[1..]))
  }

  lemma {:induction false} SlashedIsFlat(segments: seq<string>)
    ensures Slashed(segments) == Flat(segments) + "/"
  {
    if segments != [] {
      SlashedIsFlat(segments[1..]);
      var x, rest := segments[0], Flat(segments[1..]);
      assert x + (rest + "/") == (x + rest) + "/";
      assert "/" + ((x + rest) + "/") == ("/" + (x + rest)) + "/";
    }
  }

  lemma PrefixAfter(p: string, x: string, y: string)
    ensures p + x <= p + y <==> x <= y
  {
    assert (p + x)[|p|..] == x && (p + y)[|p|..] == y;
    if x <= y {
      assert y == x + y[|x|..];
      assert p + y == (p + x) + y[|x|..];
    }
  }

  lemma FirstSegmentsAgree(x: string, y: string, u: string, v: string)
    requires '/' !in x && '/' !in y && u != "" && u[0] == '/' && (v == "" || v[0] == '/')
    ensures x + u <= y + v <==> x == y && u <= v
  {
    if x + u <= y + v {
      var rest := u[1..];
      assert u == "/" + rest;
      SameFirstSegment(x, y, rest, v);
    }
    PrefixAfter(x, u, v);
  }

  lemma {:induction false} FlatPrefixIff(a: seq<string>, b: seq<string>)
    requires AllPlain(a) && AllPlain(b)
    ensures Slashed(b) <= Flat(a) <==> b < a
  {
    if b != [] && a != [] {
      FlatPrefixIff(a[1..], b[1..]);
      assert Plain(a[0]) && Plain(b[0]);
      PrefixAfter("/", b[0] + Slashed(b[1..]), a[0] + Flat(a[1..]));
      FirstSegmentsAgree(b[0], a[0], Slashed(b[1..]), Flat(a[1..]));
      assert b == [b[0]] + b[1..] && a == [a[0]] + a[1..];
      if b < a {
        assert b[0] == a[0] && b[1..] < a[1..];
      }
    }
  }

  lemma FlatIsInjective(a: seq<string>, b: seq<string>)
    requires AllPlain(a) && AllPlain(b) && Flat(a) == Flat(b)
    ensures a == b
  {
    ShowKeepsSegments(true, a);
    ShowKeepsSegments(true, b);
  }

  lemma FlatOverlapIff(a: seq<string>, b: seq<string>)
    requires AllPlain(a) && AllPlain(b)
    ensures Flat(a) == Flat(b) || Flat(b) + "/" <= Flat(a) || Flat(a) + "/" <= Flat(b) <==> a <= b || b <= a
  {
    SlashedIsFlat(a);
    SlashedIsFlat(b);
    FlatPrefixIff(a, b);
    FlatPrefixIff(b, a);
    if Flat(a) == Flat(b) {
      FlatIsInjective(a, b);
    }
    if a <= b || b <= a {
      assert a == b || a < b || b < a;
    }
  }

  /** On tidy paths the string comparison is the comparison of segments: one directory holds the other. */
  lemma OverlapsIffPrefix(one: string, other: string)
    requires Tidy(one) && Tidy(other)
    ensures Overlaps(one, other) <==> Segments(one) <= Segments(other) || Segments(other) <= Segments(one)
  {
    SegmentsAreClean(one);
    SegmentsAreClean(other);
    FlatOverlapIff(Segments(one), Segments(other));
  }
}
