/**
 How a client's declared capabilities decide what is done to a file. Plan is the nested loop with its
 four accumulators; PlanOf says what it answers by quantifying over the declared profiles.
 */
module Playback {
  import opened Options
  import opened Text

  datatype StreamKind = Audio | Video | Subtitle | EmbeddedImage | Data | Lyric

  datatype Stream = Stream(
    kind: StreamKind, codec: string, profile: string, rangeType: Option<string>, level: Option<real>,
    width: Option<int>, height: Option<int>, bitRate: Option<int>, isInterlaced: bool, isAnamorphic: bool)

  datatype Source = Source(path: string, container: string, size: Option<int>, bitrate: Option<int>, streams: seq<Stream>)

  datatype Profile = Profile(container: string, videoCodec: string, audioCodec: string)

  datatype Condition = Condition(codec: string, property: string, verb: string, value: string)

  /** What ParseFloat answers for a limit: an error, a number, or one of the values no number equals. */
  datatype Limit = Unreadable | Number(value: real) | PlusInfinity | MinusInfinity | NotANumber

  type Parse = string -> Limit

  datatype Change = ChangeNone | ChangeContainer | ChangeAudio | ChangeVideo | ChangeVideoAudio

  /** The order the constants are declared in: each change costs more than the one before. */
  function Cost(c: Change): nat {
    match c
    case ChangeNone => 0
    case ChangeContainer => 1
    case ChangeAudio => 2
    case ChangeVideo => 3
    case ChangeVideoAudio => 4
  }

  predicate Available(c: Change) {
    Cost(c) < Cost(ChangeVideo)
  }

  datatype Plan = Plan(change: Change, container: string, audioCodec: string)

  // ---- declared lists --------------------------------------------------------------------------

  /** Whether a declared list names a value; a list or value left empty refuses nothing. */
  predicate Lists(declared: string, value: string) {
    declared == "" || value == "" ||
    exists piece :: piece in Split(declared, {',', '|'}) && piece != "" && EqualFold(Trim(piece), value)
  }

  /** The extension of the last path element, its dot included. */
  function Extension(path: string): string {
    if path == "" || path[|path| - 1] == '/' then ""
    else if path[|path| - 1] == '.' then "."
    else
      var rest := Extension(path[..|path| - 1]);
      if rest == "" then "" else rest + [path[|path| - 1]]
  }

  // ---- the file -------------------------------------------------------------------------------

  function First(streams: seq<Stream>, kind: StreamKind): Option<Stream> {
    if streams == [] then None
    else if streams[0].kind == kind then Some(streams[0])
    else First(streams[1..], kind)
  }

  function Codec(s: Option<Stream>): string {
    match s
    case None => ""
    case Some(stream) => Lower(stream.codec)
  }

  function ContainerOf(source: Source): string {
    if source.container != "" then Lower(source.container)
    else
      var extension := Lower(Extension(source.path));
      if extension != "" && extension[0] == '.' then extension[1..] else extension
  }

  function OrZero(n: Option<int>): int {
    match n
    case None => 0
    case Some(v) => v
  }

  // ---- what ffmpeg can write --------------------------------------------------------------------

  const VIDEO_CONTAINER := "mp4"

  predicate CarriesVideo(container: string) {
    Lower(container) in {"ts", "mp4"}
  }

  function AudioCodecOf(container: string): string {
    var name := Lower(container);
    if name in {"aac", "ts", "mp4"} then "aac" else if name in {"mp3", "opus"} then name else ""
  }

  /** A container that cannot hold a picture on a pipe is replaced. */
  function Writable(name: string): string {
    if CarriesVideo(name) then name else VIDEO_CONTAINER
  }

  // ---- one condition ----------------------------------------------------------------------------

  function Named(property: string, picture: Stream): string {
    match property
    case "VideoRangeType" =>
      if picture.rangeType.Some? && picture.rangeType.value != "Unknown" then picture.rangeType.value else ""
    case "VideoProfile" => picture.profile
    case "IsInterlaced" => if picture.isInterlaced then "true" else "false"
    case "IsAnamorphic" => if picture.isAnamorphic then "true" else "false"
    case _ => ""
  }

  function Ceiling(property: string, picture: Stream): real {
    match property
    case "VideoLevel" => if picture.level.Some? then picture.level.value else 0.0
    case "Width" => OrZero(picture.width) as real
    case "Height" => OrZero(picture.height) as real
    case "VideoBitrate" => OrZero(picture.bitRate) as real
    case _ => 0.0
  }

  predicate Within(ceiling: real, limit: Limit) {
    match limit
    case Unreadable => true
    case Number(value) => ceiling <= value
    case PlusInfinity => true
    case MinusInfinity => false
    case NotANumber => false
  }

  const PROPERTIES := {
    "VideoRangeType", "VideoProfile", "IsInterlaced", "IsAnamorphic", "VideoLevel", "Width", "Height", "VideoBitrate"
  }

  predicate Holds(c: Condition, parse: Parse, picture: Stream) {
    if c.property !in PROPERTIES then true
    else
      match c.verb
      case "EqualsAny" => Lists(c.value, Named(c.property, picture))
      case "NotEquals" => Named(c.property, picture) == "" || !EqualFold(Trim(c.value), Named(c.property, picture))
      case "LessThanEqual" => Ceiling(c.property, picture) == 0.0 || Within(Ceiling(c.property, picture), parse(Trim(c.value)))
      case _ => true
  }

  // ---- the plan, declaratively --------------------------------------------------------------------

  /** What the loops look at: the declared capabilities and the streams of one file. */
  datatype Case = Case(profiles: seq<Profile>, conditions: seq<Condition>, parse: Parse, source: Source) {
    function Picture(): Option<Stream> { First(source.streams, Video) }

    function VideoCodec(): string { Codec(Picture()) }

    function AudioCodec(): string { Codec(First(source.streams, Audio)) }

    predicate Refuses(c: Condition) {
      Picture().Some? && Lists(c.codec, VideoCodec()) && !Holds(c, parse, Picture().value)
    }

    predicate Decodes() {
      forall c :: c in conditions ==> !Refuses(c)
    }

    predicate Carries(p: Profile) {
      Decodes() && Lists(p.videoCodec, VideoCodec())
    }

    predicate Keeps(p: Profile) {
      Lists(p.audioCodec, AudioCodec())
    }

    predicate HandsOver(p: Profile) {
      Carries(p) && Keeps(p) && ContainerOf(source) in Names(p)
    }

    predicate Encodes(p: Profile, name: string) {
      Carries(p) && Lists(p.audioCodec, AudioCodecOf(Writable(name)))
    }

    /** The first container of the first profile that takes both streams as they are. */
    function CopyInto(ps: seq<Profile>): Option<string> {
      if ps == [] then None
      else
        match CopyInto(ps[..|ps| - 1])
        case Some(name) => Some(name)
        case None =>
          var p := ps[|ps| - 1];
          if Carries(p) && Keeps(p) then Some(Writable(Names(p)[0])) else None
    }

    /** The first of the profile's containers whose own audio codec the profile declares. */
    function EncodeFrom(p: Profile, names: seq<string>): Option<string> {
      if names == [] then None
      else
        match EncodeFrom(p, names[..|names| - 1])
        case Some(name) => Some(name)
        case None => if Encodes(p, names[|names| - 1]) then Some(Writable(names[|names| - 1])) else None
    }

    function EncodeInto(ps: seq<Profile>): Option<string> {
      if ps == [] then None
      else
        match EncodeInto(ps[..|ps| - 1])
        case Some(name) => Some(name)
        case None => EncodeFrom(ps[|ps| - 1], Names(ps[|ps| - 1]))
    }

    function ChangeOf(): Change {
      if profiles == [] || (exists p :: p in profiles && HandsOver(p)) then ChangeNone
      else if !(exists p :: p in profiles && Carries(p)) then
        if exists p :: p in profiles && Keeps(p) then ChangeVideo else ChangeVideoAudio
      else if exists p :: p in profiles && Carries(p) && Keeps(p) then ChangeContainer
      else ChangeAudio
    }

    function PlanOf(): Plan {
      match ChangeOf()
      case ChangeContainer =>
        Plan(ChangeContainer, if CopyInto(profiles).Some? then CopyInto(profiles).value else VIDEO_CONTAINER, AudioCodec())
      case ChangeAudio =>
        var into := if EncodeInto(profiles).Some? then EncodeInto(profiles).value else VIDEO_CONTAINER;
        Plan(ChangeAudio, into, AudioCodecOf(into))
      case change => Plan(change, ContainerOf(source), AudioCodec())
    }
  }

  /** The container names a profile declares. */
  function Names(p: Profile): (names: seq<string>)
    ensures names != []
  {
    var pieces := Split(p.container, {','});
    seq(|pieces|, i requires 0 <= i < |pieces| => Lower(Trim(pieces[i])))
  }

  lemma WritableIsNamed(name: string)
    ensures Writable(name) != ""
  {
    if CarriesVideo(name) {
      assert |Lower(name)| == |name|;
    }
  }

  // ---- the loops ----------------------------------------------------------------------------------

  /** "" while nothing has been chosen, as the loop's variables start. */
  function Chosen(name: Option<string>): string {
    if name.Some? then name.value else ""
  }

  lemma {:induction false} ChosenIsNamed(k: Case, ps: seq<Profile>)
    ensures k.CopyInto(ps).Some? ==> k.CopyInto(ps).value != ""
    ensures k.EncodeInto(ps).Some? ==> k.EncodeInto(ps).value != ""
  {
    if ps != [] {
      ChosenIsNamed(k, ps[..|ps| - 1]);
      WritableIsNamed(Names(ps[|ps| - 1])[0]);
      EncodedIsNamed(k, ps[|ps| - 1], Names(ps[|ps| - 1]));
    }
  }

  lemma {:induction false} EncodedIsNamed(k: Case, p: Profile, names: seq<string>)
    ensures k.EncodeFrom(p, names).Some? ==> k.EncodeFrom(p, names).value != ""
  {
    if names != [] {
      EncodedIsNamed(k, p, names[..|names| - 1]);
      WritableIsNamed(names[|names| - 1]);
    }
  }

  method DecodesAll(k: Case) returns (decodes: bool)
    ensures decodes == k.Decodes()
  {
    decodes := true;
    for i := 0 to |k.conditions|
      invariant decodes == forall c :: c in k.conditions[..i] ==> !k.Refuses(c)
    {
      assert k.conditions[..i + 1] == k.conditions[..i] + [k.conditions[i]];
      if k.Refuses(k.conditions[i]) {
        decodes := false;
      }
    }
    assert k.conditions[..|k.conditions|] == k.conditions;
  }

  /** One container name that does not end the search. */
  method TryName(k: Case, p: Profile, name: string, keeps: bool, copyBefore: string, encodeBefore: string)
    returns (copyInto: string, encodeInto: string)
    requires k.Carries(p)
    ensures copyInto == if keeps && copyBefore == "" then Writable(name) else copyBefore
    ensures encodeInto == if encodeBefore == "" && k.Encodes(p, name) then Writable(name) else encodeBefore
  {
    copyInto, encodeInto := copyBefore, encodeBefore;
    var into := Writable(name);
    if keeps && copyInto == "" {
      copyInto := into;
    }
    if encodeInto == "" && Lists(p.audioCodec, AudioCodecOf(into)) {
      encodeInto := into;
    }
  }

  lemma EncodeFromNext(k: Case, p: Profile, names: seq<string>, i: nat)
    requires i < |names|
    ensures Chosen(k.EncodeFrom(p, names[..i + 1])) ==
            if Chosen(k.EncodeFrom(p, names[..i])) == "" && k.Encodes(p, names[i]) then Writable(names[i]) else Chosen(k.EncodeFrom(p, names[..i]))
  {
    assert names[..i + 1][..i] == names[..i];
    EncodedIsNamed(k, p, names[..i]);
  }

  /** The inner loop over one profile's container names; done means the file can be handed over as it is. */
  method TryNames(k: Case, p: Profile, copyBefore: string, encodeBefore: string)
    returns (done: bool, copyInto: string, encodeInto: string)
    requires k.Carries(p)
    ensures done <==> k.HandsOver(p)
    ensures !done ==> copyInto == if copyBefore == "" && k.Keeps(p) then Writable(Names(p)[0]) else copyBefore
    ensures !done ==> encodeInto == if encodeBefore == "" then Chosen(k.EncodeFrom(p, Names(p))) else encodeBefore
  {
    var names, keeps := Names(p), k.Keeps(p);
    var own := ContainerOf(k.source);
    done, copyInto, encodeInto := false, copyBefore, encodeBefore;
    WritableIsNamed(names[0]);
    for i := 0 to |names|
      invariant keeps ==> own !in names[..i]
      invariant copyInto == if i > 0 && copyBefore == "" && keeps then Writable(names[0]) else copyBefore
      invariant encodeInto == if encodeBefore == "" then Chosen(k.EncodeFrom(p, names[..i])) else encodeBefore
    {
      if names[i] == own && keeps {
        return true, copyInto, encodeInto;
      }
      assert names[..i + 1] == names[..i] + [names[i]];
      EncodeFromNext(k, p, names, i);
      copyInto, encodeInto := TryName(k, p, names[i], keeps, copyInto, encodeInto);
    }
    assert names[..|names|] == names;
  }

  predicate AnyCarries(k: Case, ps: seq<Profile>) {
    exists p :: p in ps && k.Carries(p)
  }

  predicate AnyKeeps(k: Case, ps: seq<Profile>) {
    exists p :: p in ps && k.Keeps(p)
  }

  predicate AnyHandsOver(k: Case, ps: seq<Profile>) {
    exists p :: p in ps && k.HandsOver(p)
  }

  lemma OneMoreProfile(k: Case, ps: seq<Profile>, p: Profile)
    ensures AnyCarries(k, ps + [p]) <==> AnyCarries(k, ps) || k.Carries(p)
    ensures AnyKeeps(k, ps + [p]) <==> AnyKeeps(k, ps) || k.Keeps(p)
    ensures AnyHandsOver(k, ps + [p]) <==> AnyHandsOver(k, ps) || k.HandsOver(p)
  {
    assert p in ps + [p] && forall q :: q in ps + [p] <==> q in ps || q == p;
  }

  lemma OneMoreChoice(k: Case, ps: seq<Profile>, p: Profile)
    ensures Chosen(k.CopyInto(ps + [p])) ==
            if Chosen(k.CopyInto(ps)) == "" && k.Carries(p) && k.Keeps(p) then Writable(Names(p)[0]) else Chosen(k.CopyInto(ps))
    ensures Chosen(k.EncodeInto(ps + [p])) ==
            if Chosen(k.EncodeInto(ps)) == "" then Chosen(k.EncodeFrom(p, Names(p))) else Chosen(k.EncodeInto(ps))
  {
    assert (ps + [p])[..|ps|] == ps;
    ChosenIsNamed(k, ps);
  }

  /** The outer loop and its four accumulators; done is the early return. */
  method TryProfiles(k: Case, decodes: bool)
    returns (done: bool, playsVideo: bool, playsAudio: bool, copyInto: string, encodeInto: string)
    requires decodes == k.Decodes()
    ensures done <==> AnyHandsOver(k, k.profiles)
    ensures !done ==> playsVideo == AnyCarries(k, k.profiles) && playsAudio == AnyKeeps(k, k.profiles)
    ensures !done ==> copyInto == Chosen(k.CopyInto(k.profiles)) && encodeInto == Chosen(k.EncodeInto(k.profiles))
  {
    done, playsVideo, playsAudio, copyInto, encodeInto := false, false, false, "", "";
    for i := 0 to |k.profiles|
      invariant !done && !AnyHandsOver(k, k.profiles[..i])
      invariant playsVideo == AnyCarries(k, k.profiles[..i]) && playsAudio == AnyKeeps(k, k.profiles[..i])
      invariant copyInto == Chosen(k.CopyInto(k.profiles[..i])) && encodeInto == Chosen(k.EncodeInto(k.profiles[..i]))
    {
      var profile := k.profiles[i];
      assert k.profiles[..i + 1] == k.profiles[..i] + [profile];
      OneMoreProfile(k, k.profiles[..i], profile);
      OneMoreChoice(k, k.profiles[..i], profile);
      var carries, keeps := decodes && Lists(profile.videoCodec, k.VideoCodec()), k.Keeps(profile);
      playsVideo, playsAudio := playsVideo || carries, playsAudio || keeps;
      if carries {
        var found, copied, encoded := TryNames(k, profile, copyInto, encodeInto);
        if found {
          AnyOfMore(k, i);
          done := true;
          return;
        }
        copyInto, encodeInto := copied, encoded;
      } else {
        NothingEncodes(k, profile, Names(profile));
      }
    }
    assert k.profiles[..|k.profiles|] == k.profiles;
  }

  lemma AnyOfMore(k: Case, i: nat)
    requires i < |k.profiles| && k.HandsOver(k.profiles[i])
    ensures AnyHandsOver(k, k.profiles)
  {
    assert k.profiles[i] in k.profiles;
  }

  /** The loops compute the closed form. */
  method PlanFor(k: Case) returns (plan: Plan)
    ensures plan == k.PlanOf()
  {
    plan := Plan(ChangeNone, ContainerOf(k.source), k.AudioCodec());
    if |k.profiles| == 0 {
      return;
    }
    var decodes := DecodesAll(k);
    var done, playsVideo, playsAudio, copyInto, encodeInto := TryProfiles(k, decodes);
    if done {
      return;
    }
    ChosenIsNamed(k, k.profiles);
    CopyIntoFindsOne(k, k.profiles);
    if !playsVideo {
      plan := plan.(change := if playsAudio then ChangeVideo else ChangeVideoAudio);
    } else if copyInto != "" {
      plan := plan.(change := ChangeContainer, container := copyInto);
    } else {
      if encodeInto == "" {
        encodeInto := VIDEO_CONTAINER;
      }
      plan := Plan(ChangeAudio, encodeInto, AudioCodecOf(encodeInto));
    }
  }

  lemma {:induction false} NothingEncodes(k: Case, p: Profile, names: seq<string>)
    requires !k.Carries(p)
    ensures k.EncodeFrom(p, names) == None
  {
    if names != [] {
      NothingEncodes(k, p, names[..|names| - 1]);
    }
  }

  predicate TakesCopy(k: Case, p: Profile) {
    k.Carries(p) && k.Keeps(p)
  }

  lemma {:induction false} NobodyTakesCopy(k: Case, ps: seq<Profile>)
    requires k.CopyInto(ps).None?
    ensures forall i :: 0 <= i < |ps| ==> !TakesCopy(k, ps[i])
  {
    if ps != [] {
      var n := |ps| - 1;
      NobodyTakesCopy(k, ps[..n]);
      forall i | 0 <= i < n
        ensures !TakesCopy(k, ps[i])
      {
        assert ps[..n][i] == ps[i];
      }
    }
  }

  ghost predicate FirstTaker(k: Case, ps: seq<Profile>, i: nat) {
    i < |ps| && TakesCopy(k, ps[i]) && forall j :: 0 <= j < i ==> !TakesCopy(k, ps[j])
  }

  lemma {:induction false} CopyIntoFirst(k: Case, ps: seq<Profile>) returns (i: nat)
    requires k.CopyInto(ps).Some?
    ensures FirstTaker(k, ps, i) && k.CopyInto(ps).value == Writable(Names(ps[i])[0])
  {
    var n := |ps| - 1;
    if k.CopyInto(ps[..n]).Some? {
      i := CopyIntoFirst(k, ps[..n]);
      forall j | 0 <= j < i
        ensures !TakesCopy(k, ps[j])
      {
        assert ps[..n][j] == ps[j];
      }
    } else {
      i := n;
      NobodyTakesCopy(k, ps[..n]);
      forall j | 0 <= j < n
        ensures !TakesCopy(k, ps[j])
      {
        assert ps[..n][j] == ps[j];
      }
    }
  }

  lemma CopyIntoFindsOne(k: Case, ps: seq<Profile>)
    ensures k.CopyInto(ps).Some? <==> exists p :: p in ps && k.Carries(p) && k.Keeps(p)
    ensures k.CopyInto(ps).Some? ==> exists i: nat :: FirstTaker(k, ps, i) && k.CopyInto(ps).value == Writable(Names(ps[i])[0])
  {
    if k.CopyInto(ps).Some? {
      var i := CopyIntoFirst(k, ps);
      assert ps[i] in ps;
    } else {
      NobodyTakesCopy(k, ps);
      forall p | p in ps
        ensures !TakesCopy(k, p)
      {
      }
    }
  }

  lemma {:induction false} EncodeFromFindsOne(k: Case, p: Profile, names: seq<string>)
    ensures k.EncodeFrom(p, names).Some? <==> exists name :: name in names && k.Encodes(p, name)
    ensures k.EncodeFrom(p, names).Some? ==>
              exists name :: name in names && k.Encodes(p, name) && k.EncodeFrom(p, names).value == Writable(name)
  {
    if names != [] {
      EncodeFromFindsOne(k, p, names[..|names| - 1]);
      assert names == names[..|names| - 1] + [names[|names| - 1]];
    }
  }

  ghost predicate CanEncode(k: Case, p: Profile, name: string) {
    name in Names(p) && k.Encodes(p, name)
  }

  lemma {:induction false} EncodeIntoFindsOne(k: Case, ps: seq<Profile>)
    ensures k.EncodeInto(ps).Some? <==> exists p, name :: p in ps && CanEncode(k, p, name)
    ensures k.EncodeInto(ps).Some? ==>
              exists p, name :: p in ps && CanEncode(k, p, name) && k.EncodeInto(ps).value == Writable(name)
  {
    if ps != [] {
      var n := |ps| - 1;
      EncodeIntoFindsOne(k, ps[..n]);
      EncodeFromFindsOne(k, ps[n], Names(ps[n]));
      assert ps == ps[..n] + [ps[n]];
      if k.EncodeInto(ps[..n]).None? && k.EncodeFrom(ps[n], Names(ps[n])).Some? {
        var name :| name in Names(ps[n]) && k.Encodes(ps[n], name) && k.EncodeFrom(ps[n], Names(ps[n])).value == Writable(name);
        assert CanEncode(k, ps[n], name);
      }
      forall p, name | p in ps && CanEncode(k, p, name)
        ensures k.EncodeInto(ps).Some?
      {
      }
    }
  }

  // ---- what the plan is worth -----------------------------------------------------------------------

  ghost predicate SomeEncode(k: Case, container: string) {
    exists p, name :: p in k.profiles && CanEncode(k, p, name) && container == Writable(name)
  }

  /** A copy goes into the first container of the first profile that takes both streams as they are. */
  lemma CopyIsJustified(k: Case)
    requires k.PlanOf().change == ChangeContainer
    ensures k.PlanOf().audioCodec == k.AudioCodec()
    ensures exists i: nat :: FirstTaker(k, k.profiles, i) && k.PlanOf().container == Writable(Names(k.profiles[i])[0])
  {
    CopyIntoFindsOne(k, k.profiles);
  }

  /** Audio is encoded for a container whose codec some profile declares, or into the fallback when none does. */
  lemma EncodeIsJustified(k: Case)
    requires k.PlanOf().change == ChangeAudio
    ensures k.PlanOf().audioCodec == AudioCodecOf(k.PlanOf().container)
    ensures SomeEncode(k, k.PlanOf().container) ||
            (k.PlanOf().container == VIDEO_CONTAINER && forall container :: !SomeEncode(k, container))
  {
    EncodeIntoFindsOne(k, k.profiles);
  }

  /** More profiles never make the change worse; fewer conditions never do either. */
  lemma MoreCapableCostsNoMore(k: Case, than: Case)
    requires k.source == than.source && k.parse == than.parse && than.profiles != []
    requires forall p :: p in than.profiles ==> p in k.profiles
    requires forall c :: c in k.conditions ==> c in than.conditions
    ensures Cost(k.ChangeOf()) <= Cost(than.ChangeOf())
  {
    assert than.profiles[0] in k.profiles;
    assert than.Decodes() ==> k.Decodes() by {
      if than.Decodes() {
        forall c | c in k.conditions
          ensures !k.Refuses(c)
        {
          assert !than.Refuses(c);
        }
      }
    }
    forall p | p in than.profiles
      ensures p in k.profiles && (than.Carries(p) ==> k.Carries(p)) && (than.Keeps(p) <==> k.Keeps(p))
      ensures than.HandsOver(p) ==> k.HandsOver(p)
    {
    }
  }

  /** Only which profiles and conditions were declared matters, not their order or repetition. */
  lemma OrderDoesNotMatter(k: Case, other: Case)
    requires k.source == other.source && k.parse == other.parse
    requires forall p :: p in k.profiles <==> p in other.profiles
    requires forall c :: c in k.conditions <==> c in other.conditions
    ensures k.ChangeOf() == other.ChangeOf()
  {
    if |k.profiles| > 0 {
      assert k.profiles[0] in k.profiles;
    }
    if |other.profiles| > 0 {
      assert other.profiles[0] in other.profiles;
      MoreCapableCostsNoMore(k, other);
      MoreCapableCostsNoMore(other, k);
    }
  }
}
