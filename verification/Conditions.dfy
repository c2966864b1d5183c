/**
 What a declaration means for a file: when a profile takes it as it is, and which column of the picture each
 condition is about, stated on the plan for one profile and one condition.
 */
module Conditions {
  import opened Options
  import opened Text
  import opened Playback

  const SEPARATORS := {',', '|'}

  /** One of the names, blanks around it and case aside. */
  ghost predicate OneOf(names: seq<string>, value: string) {
    exists i :: 0 <= i < |names| && EqualFold(Trim(names[i]), value)
  }

  ghost predicate Listable(names: seq<string>) {
    names != [] && forall i :: 0 <= i < |names| ==> Unbroken(names[i], SEPARATORS)
  }

  /** A declared list, written with either separator, refuses exactly the values it does not name, and an empty one none. */
  lemma ListsIff(names: seq<string>, separator: char, value: string)
    requires Listable(names) && separator in SEPARATORS
    ensures Lists(Join(names, separator), value) <==> Join(names, separator) == "" || value == "" || OneOf(names, value)
  {
    SplitUndoesJoinAmong(names, separator, SEPARATORS);
    assert SEPARATORS == {',', '|'};
    if value != "" && OneOf(names, value) {
      var i :| 0 <= i < |names| && EqualFold(Trim(names[i]), value);
      assert names[i] in Split(Join(names, separator), {',', '|'});
      assert Lower(value) != "" && Trim("") == "";
    }
  }

  // ---- one profile ----------------------------------------------------------------------------------

  function Change1(k: Case, p: Profile, conditions: seq<Condition>): Change {
    k.(profiles := [p], conditions := conditions).ChangeOf()
  }

  /** The first stream of the kind, if there is one. */
  lemma {:induction false} FirstIs(streams: seq<Stream>, kind: StreamKind)
    ensures First(streams, kind).None? <==> forall i :: 0 <= i < |streams| ==> streams[i].kind != kind
    ensures First(streams, kind).Some? ==>
              exists i :: 0 <= i < |streams| && streams[i] == First(streams, kind).value && streams[i].kind == kind &&
                forall j :: 0 <= j < i ==> streams[j].kind != kind
  {
    if streams != [] && streams[0].kind != kind {
      FirstIs(streams[1..], kind);
      if First(streams[1..], kind).Some? {
        var i :| 0 <= i < |streams[1..]| && streams[1..][i] == First(streams[1..], kind).value && streams[1..][i].kind == kind &&
          forall j :: 0 <= j < i ==> streams[1..][j].kind != kind;
        assert streams[i + 1] == First(streams, kind).value;
        forall j | 0 <= j < i + 1
          ensures streams[j].kind != kind
        {
          assert j > 0 ==> streams[1..][j - 1] == streams[j];
        }
      } else {
        forall i | 0 <= i < |streams|
          ensures streams[i].kind != kind
        {
          assert i > 0 ==> streams[1..][i - 1] == streams[i];
        }
      }
    }
  }

  lemma NamesAre(containers: seq<string>, videoCodec: string, audioCodec: string, own: string)
    requires containers != [] && forall i :: 0 <= i < |containers| ==> ',' !in containers[i]
    ensures Lower(own) in Names(Profile(Join(containers, ','), videoCodec, audioCodec)) <==> OneOf(containers, own)
  {
    var p := Profile(Join(containers, ','), videoCodec, audioCodec);
    SplitUndoesJoin(containers, ',');
    if OneOf(containers, own) {
      var i :| 0 <= i < |containers| && EqualFold(Trim(containers[i]), own);
      assert Names(p)[i] == Lower(own);
    }
    if Lower(own) in Names(p) {
      var i :| 0 <= i < |Names(p)| && Names(p)[i] == Lower(own);
      assert EqualFold(Trim(containers[i]), own);
    }
  }

  lemma LowerTwice(s: string)
    ensures Lower(Lower(s)) == Lower(s)
  {
  }

  /** A stream's codec is nothing, or one of the names. */
  ghost predicate Spoken(stream: Option<Stream>, names: seq<string>) {
    stream.None? || stream.value.codec == "" || OneOf(names, stream.value.codec)
  }

  lemma CodecSpoken(stream: Option<Stream>, names: seq<string>)
    ensures Codec(stream) == "" || OneOf(names, Codec(stream)) <==> Spoken(stream, names)
  {
    if stream.Some? {
      LowerTwice(stream.value.codec);
      assert forall s :: EqualFold(s, Codec(stream)) <==> EqualFold(s, stream.value.codec);
    }
  }

  /**
   What one profile, unconditionally, asks for: nothing when it names the container and both codecs, a copy when it
   names both codecs, else the encoding of each stream whose codec it does not name.
   */
  lemma OneProfileDecides(k: Case, containers: seq<string>, videos: seq<string>, audios: seq<string>)
    requires containers != [] && forall i :: 0 <= i < |containers| ==> ',' !in containers[i]
    requires Listable(videos) && Listable(audios) && Join(videos, ',') != "" && Join(audios, ',') != ""
    requires k.source.container != ""
    ensures var video, audio := Spoken(First(k.source.streams, Video), videos), Spoken(First(k.source.streams, Audio), audios);
            Change1(k, Profile(Join(containers, ','), Join(videos, ','), Join(audios, ',')), []) ==
            if video && audio then if OneOf(containers, k.source.container) then ChangeNone else ChangeContainer
            else if video then ChangeAudio
            else if audio then ChangeVideo
            else ChangeVideoAudio
  {
    var p := Profile(Join(containers, ','), Join(videos, ','), Join(audios, ','));
    var one := k.(profiles := [p], conditions := []);
    NamesAre(containers, p.videoCodec, p.audioCodec, k.source.container);
    ListsIff(videos, ',', one.VideoCodec());
    ListsIff(audios, ',', one.AudioCodec());
    CodecSpoken(First(k.source.streams, Video), videos);
    CodecSpoken(First(k.source.streams, Audio), audios);
    assert p in one.profiles;
    assert one.Carries(p) <==> Spoken(First(k.source.streams, Video), videos);
    assert one.Keeps(p) <==> Spoken(First(k.source.streams, Audio), audios);
    assert one.HandsOver(p) <==> one.Carries(p) && one.Keeps(p) && OneOf(containers, k.source.container);
  }

  /** Several profiles ask for what the least demanding of them does; without any nothing is changed. */
  lemma CheapestProfileDecides(k: Case)
    ensures k.profiles == [] ==> k.ChangeOf() == ChangeNone
    ensures forall p :: p in k.profiles ==> Cost(k.ChangeOf()) <= Cost(k.(profiles := [p]).ChangeOf())
    ensures k.profiles != [] ==> exists p :: p in k.profiles && k.(profiles := [p]).ChangeOf() == k.ChangeOf()
  {
    forall p | p in k.profiles
      ensures Cost(k.ChangeOf()) <= Cost(k.(profiles := [p]).ChangeOf())
    {
      MoreCapableCostsNoMore(k, k.(profiles := [p]));
    }
    if k.profiles != [] {
      var p := Deciding(k);
      SameAlone(k, p);
    }
  }

  /** A profile the answer is due to. */
  lemma Deciding(k: Case) returns (p: Profile)
    requires k.profiles != []
    ensures p in k.profiles
    ensures match k.ChangeOf()
            case ChangeNone => k.HandsOver(p)
            case ChangeContainer => k.Carries(p) && k.Keeps(p) && !k.HandsOver(p)
            case ChangeAudio => k.Carries(p) && !k.Keeps(p)
            case ChangeVideo => !k.Carries(p) && k.Keeps(p)
            case ChangeVideoAudio => !k.Carries(p) && !k.Keeps(p)
  {
    match k.ChangeOf()
    case ChangeNone => p :| p in k.profiles && k.HandsOver(p);
    case ChangeContainer => p :| p in k.profiles && k.Carries(p) && k.Keeps(p);
    case ChangeAudio => p :| p in k.profiles && k.Carries(p);
    case ChangeVideo => p :| p in k.profiles && k.Keeps(p);
    case ChangeVideoAudio => p := k.profiles[0];
  }

  lemma SameAlone(k: Case, p: Profile)
    ensures var one := k.(profiles := [p]);
            one.ChangeOf() ==
            if k.HandsOver(p) then ChangeNone
            else if k.Carries(p) then if k.Keeps(p) then ChangeContainer else ChangeAudio
            else if k.Keeps(p) then ChangeVideo else ChangeVideoAudio
  {
    var one := k.(profiles := [p]);
    assert p in one.profiles && (one.Decodes() <==> k.Decodes());
    assert (one.Carries(p) <==> k.Carries(p)) && (one.Keeps(p) <==> k.Keeps(p)) && (one.HandsOver(p) <==> k.HandsOver(p));
  }

  // ---- one condition --------------------------------------------------------------------------------

  /** Nothing but the condition can keep the profile from taking the file as it is, and it is about its codec. */
  ghost predicate Decisive(k: Case, p: Profile, codec: string) {
    k.Picture().Some? && Change1(k, p, []) == ChangeNone && Lists(codec, k.VideoCodec())
  }

  /** What the condition is worth: the file is handed over, or its picture would have to be encoded. */
  predicate Passes(k: Case, p: Profile, c: Condition) {
    Change1(k, p, [c]) == ChangeNone
  }

  lemma OneConditionDecides(k: Case, p: Profile, c: Condition)
    requires Decisive(k, p, c.codec)
    ensures Change1(k, p, [c]) == if Holds(c, k.parse, k.Picture().value) then ChangeNone else ChangeVideo
  {
    var free, bound := k.(profiles := [p], conditions := []), k.(profiles := [p], conditions := [c]);
    assert p in free.profiles && p in bound.profiles && c in bound.conditions;
    assert free.HandsOver(p) && free.Keeps(p) && bound.Keeps(p);
    assert bound.Decodes() <==> !bound.Refuses(c);
  }

  /** A condition that fails asks for the picture to be encoded, which is not available. */
  lemma FailingNeedsThePicture(k: Case, p: Profile, c: Condition)
    requires Decisive(k, p, c.codec) && !Passes(k, p, c)
    ensures Change1(k, p, [c]) == ChangeVideo && !Available(Change1(k, p, [c]))
  {
    OneConditionDecides(k, p, c);
  }

  /** A condition about a codec the picture does not have decides nothing, and neither does any without a picture. */
  lemma OtherCodecsPass(k: Case, p: Profile, c: Condition)
    requires k.Picture().None? || !Lists(c.codec, k.VideoCodec())
    ensures Change1(k, p, [c]) == Change1(k, p, [])
  {
    var free, bound := k.(profiles := [p], conditions := []), k.(profiles := [p], conditions := [c]);
    assert !bound.Refuses(c) && bound.Decodes() && free.Decodes();
    assert forall q :: (free.Carries(q) <==> bound.Carries(q)) && (free.Keeps(q) <==> bound.Keeps(q));
  }

  lemma PassesIff(k: Case, p: Profile, c: Condition)
    requires Decisive(k, p, c.codec)
    ensures Passes(k, p, c) <==> Holds(c, k.parse, k.Picture().value)
  {
    OneConditionDecides(k, p, c);
  }

  /** EqualsAny: the named column is empty or one of the values. */
  lemma EqualsAnyDecides(k: Case, p: Profile, codec: string, values: seq<string>, separator: char)
    requires Decisive(k, p, codec) && Listable(values) && separator in SEPARATORS && Join(values, separator) != ""
    ensures var picture, value := k.Picture().value, Join(values, separator);
            && (Passes(k, p, Condition(codec, "VideoProfile", "EqualsAny", value)) <==>
                picture.profile == "" || OneOf(values, picture.profile))
            && (Passes(k, p, Condition(codec, "VideoRangeType", "EqualsAny", value)) <==>
                picture.rangeType.None? || picture.rangeType.value in {"", "Unknown"} || OneOf(values, picture.rangeType.value))
            && (Passes(k, p, Condition(codec, "IsInterlaced", "EqualsAny", value)) <==>
                OneOf(values, if picture.isInterlaced then "true" else "false"))
            && (Passes(k, p, Condition(codec, "IsAnamorphic", "EqualsAny", value)) <==>
                OneOf(values, if picture.isAnamorphic then "true" else "false"))
  {
    var picture, value := k.Picture().value, Join(values, separator);
    PassesIff(k, p, Condition(codec, "VideoProfile", "EqualsAny", value));
    PassesIff(k, p, Condition(codec, "VideoRangeType", "EqualsAny", value));
    PassesIff(k, p, Condition(codec, "IsInterlaced", "EqualsAny", value));
    PassesIff(k, p, Condition(codec, "IsAnamorphic", "EqualsAny", value));
    EqualsAnyHolds(picture, k.parse, codec, values, separator);
  }

  lemma EqualsAnyHolds(picture: Stream, parse: Parse, codec: string, values: seq<string>, separator: char)
    requires Listable(values) && separator in SEPARATORS && Join(values, separator) != ""
    ensures var value := Join(values, separator);
            && (Holds(Condition(codec, "VideoProfile", "EqualsAny", value), parse, picture) <==>
                picture.profile == "" || OneOf(values, picture.profile))
            && (Holds(Condition(codec, "VideoRangeType", "EqualsAny", value), parse, picture) <==>
                picture.rangeType.None? || picture.rangeType.value in {"", "Unknown"} || OneOf(values, picture.rangeType.value))
            && (Holds(Condition(codec, "IsInterlaced", "EqualsAny", value), parse, picture) <==>
                OneOf(values, if picture.isInterlaced then "true" else "false"))
            && (Holds(Condition(codec, "IsAnamorphic", "EqualsAny", value), parse, picture) <==>
                OneOf(values, if picture.isAnamorphic then "true" else "false"))
  {
    ListsIff(values, separator, picture.profile);
    if picture.rangeType.Some? {
      ListsIff(values, separator, picture.rangeType.value);
    }
    ListsIff(values, separator, "true");
    ListsIff(values, separator, "false");
  }

  /** NotEquals: the named column is empty or differs from the value, case aside. */
  lemma NotEqualsDecides(k: Case, p: Profile, codec: string, value: string)
    requires Decisive(k, p, codec)
    ensures var picture := k.Picture().value;
            && (Passes(k, p, Condition(codec, "VideoProfile", "NotEquals", value)) <==>
                picture.profile == "" || !EqualFold(Trim(value), picture.profile))
            && (Passes(k, p, Condition(codec, "VideoRangeType", "NotEquals", value)) <==>
                picture.rangeType.None? || picture.rangeType.value in {"", "Unknown"} || !EqualFold(Trim(value), picture.rangeType.value))
    ensures var picture := k.Picture().value;
            && (Passes(k, p, Condition(codec, "IsInterlaced", "NotEquals", value)) <==>
                !EqualFold(Trim(value), if picture.isInterlaced then "true" else "false"))
            && (Passes(k, p, Condition(codec, "IsAnamorphic", "NotEquals", value)) <==>
                !EqualFold(Trim(value), if picture.isAnamorphic then "true" else "false"))
  {
    var picture := k.Picture().value;
    var profile, rangeType := Condition(codec, "VideoProfile", "NotEquals", value), Condition(codec, "VideoRangeType", "NotEquals", value);
    var interlaced, anamorphic := Condition(codec, "IsInterlaced", "NotEquals", value), Condition(codec, "IsAnamorphic", "NotEquals", value);
    PassesIff(k, p, profile);
    PassesIff(k, p, rangeType);
    PassesIff(k, p, interlaced);
    PassesIff(k, p, anamorphic);
    NotEqualsHolds(profile, k.parse, picture);
    NotEqualsHolds(rangeType, k.parse, picture);
    NotEqualsHolds(interlaced, k.parse, picture);
    NotEqualsHolds(anamorphic, k.parse, picture);
  }

  lemma NotEqualsHolds(c: Condition, parse: Parse, picture: Stream)
    requires c.verb == "NotEquals"
    ensures c.property == "VideoProfile" ==>
              (Holds(c, parse, picture) <==> picture.profile == "" || !EqualFold(Trim(c.value), picture.profile))
    ensures c.property == "VideoRangeType" ==>
              (Holds(c, parse, picture) <==>
               picture.rangeType.None? || picture.rangeType.value in {"", "Unknown"} || !EqualFold(Trim(c.value), picture.rangeType.value))
    ensures c.property == "IsInterlaced" ==>
              (Holds(c, parse, picture) <==> !EqualFold(Trim(c.value), if picture.isInterlaced then "true" else "false"))
    ensures c.property == "IsAnamorphic" ==>
              (Holds(c, parse, picture) <==> !EqualFold(Trim(c.value), if picture.isAnamorphic then "true" else "false"))
  {
  }

  /** Neither of the two looks at a column of numbers. */
  lemma NumbersAreNotNames(k: Case, p: Profile, codec: string, property: string, verb: string, value: string)
    requires Decisive(k, p, codec) && verb in {"EqualsAny", "NotEquals"}
    requires property in {"VideoLevel", "Width", "Height", "VideoBitrate"}
    ensures Passes(k, p, Condition(codec, property, verb, value))
  {
    PassesIff(k, p, Condition(codec, property, verb, value));
  }

  /** A number column is absent, zero or within the limit. */
  predicate AtMost(column: Option<int>, limit: real) {
    column.None? || column.value == 0 || column.value as real <= limit
  }

  /** LessThanEqual with a readable limit: the very column the property names is absent, zero or within it. */
  lemma LessThanEqualDecides(k: Case, p: Profile, codec: string, value: string, limit: real)
    requires Decisive(k, p, codec) && k.parse(Trim(value)) == Number(limit)
    ensures var picture := k.Picture().value;
            && (Passes(k, p, Condition(codec, "VideoLevel", "LessThanEqual", value)) <==>
                picture.level.None? || picture.level.value == 0.0 || picture.level.value <= limit)
            && (Passes(k, p, Condition(codec, "Width", "LessThanEqual", value)) <==> AtMost(picture.width, limit))
            && (Passes(k, p, Condition(codec, "Height", "LessThanEqual", value)) <==> AtMost(picture.height, limit))
            && (Passes(k, p, Condition(codec, "VideoBitrate", "LessThanEqual", value)) <==> AtMost(picture.bitRate, limit))
  {
    var picture := k.Picture().value;
    var level, width := Condition(codec, "VideoLevel", "LessThanEqual", value), Condition(codec, "Width", "LessThanEqual", value);
    var height, bitRate := Condition(codec, "Height", "LessThanEqual", value), Condition(codec, "VideoBitrate", "LessThanEqual", value);
    PassesIff(k, p, level);
    PassesIff(k, p, width);
    PassesIff(k, p, height);
    PassesIff(k, p, bitRate);
    LessThanEqualHolds(level, k.parse, picture, limit);
    LessThanEqualHolds(width, k.parse, picture, limit);
    LessThanEqualHolds(height, k.parse, picture, limit);
    LessThanEqualHolds(bitRate, k.parse, picture, limit);
  }

  lemma LessThanEqualHolds(c: Condition, parse: Parse, picture: Stream, limit: real)
    requires c.verb == "LessThanEqual" && parse(Trim(c.value)) == Number(limit)
    ensures c.property == "VideoLevel" ==>
              (Holds(c, parse, picture) <==> picture.level.None? || picture.level.value == 0.0 || picture.level.value <= limit)
    ensures c.property == "Width" ==> (Holds(c, parse, picture) <==> AtMost(picture.width, limit))
    ensures c.property == "Height" ==> (Holds(c, parse, picture) <==> AtMost(picture.height, limit))
    ensures c.property == "VideoBitrate" ==> (Holds(c, parse, picture) <==> AtMost(picture.bitRate, limit))
  {
  }

  /** And does not look at a named column. */
  lemma NamesAreNotNumbers(k: Case, p: Profile, codec: string, property: string, value: string)
    requires Decisive(k, p, codec) && property in {"VideoRangeType", "VideoProfile", "IsInterlaced", "IsAnamorphic"}
    ensures Passes(k, p, Condition(codec, property, "LessThanEqual", value))
  {
    PassesIff(k, p, Condition(codec, property, "LessThanEqual", value));
  }

  /** A limit that cannot be read or is endless keeps nothing out; one no number reaches keeps every stored number out. */
  lemma OtherLimitsDecide(k: Case, p: Profile, codec: string, value: string)
    requires Decisive(k, p, codec) && !k.parse(Trim(value)).Number?
    ensures Passes(k, p, Condition(codec, "Height", "LessThanEqual", value)) <==>
            || k.Picture().value.height.None? || k.Picture().value.height.value == 0
            || k.parse(Trim(value)).Unreadable? || k.parse(Trim(value)).PlusInfinity?
  {
    OneConditionDecides(k, p, Condition(codec, "Height", "LessThanEqual", value));
  }

  /** A property or a verb the program does not know keeps nothing out. */
  lemma UnknownPasses(k: Case, p: Profile, c: Condition)
    requires Change1(k, p, []) == ChangeNone
    requires c.property !in {"VideoRangeType", "VideoProfile", "IsInterlaced", "IsAnamorphic", "VideoLevel", "Width", "Height", "VideoBitrate"}
          || c.verb !in {"EqualsAny", "NotEquals", "LessThanEqual"}
    ensures Passes(k, p, c)
  {
    if k.Picture().Some? && Lists(c.codec, k.VideoCodec()) {
      OneConditionDecides(k, p, c);
    } else {
      OtherCodecsPass(k, p, c);
    }
  }

  lemma PassesUnlessRefused(k: Case, p: Profile, conditions: seq<Condition>, c: Condition)
    requires Change1(k, p, []) == ChangeNone
    ensures Passes(k, p, c) <==> !k.(profiles := [p], conditions := conditions).Refuses(c)
  {
    var free, one := k.(profiles := [p], conditions := []), k.(profiles := [p], conditions := [c]);
    assert p in free.profiles && free.HandsOver(p) && p in one.profiles && c in one.conditions;
    assert one.Decodes() <==> !one.Refuses(c);
  }

  /** Several conditions together pass exactly when each does alone. */
  lemma ConditionsAddUp(k: Case, p: Profile, conditions: seq<Condition>)
    requires Change1(k, p, []) == ChangeNone
    ensures Change1(k, p, conditions) == ChangeNone <==> forall c :: c in conditions ==> Passes(k, p, c)
  {
    var free, all := k.(profiles := [p], conditions := []), k.(profiles := [p], conditions := conditions);
    assert p in free.profiles && p in all.profiles && free.HandsOver(p);
    forall c | c in conditions
      ensures Passes(k, p, c) <==> !all.Refuses(c)
    {
      PassesUnlessRefused(k, p, conditions, c);
    }
  }

  // ---- the container --------------------------------------------------------------------------------

  lemma {:induction false} ExtensionIs(stem: string, extension: string)
    requires Unbroken(extension, {'.', '/'})
    ensures Extension(stem + "." + extension) == "." + extension
    decreases |extension|
  {
    var path := stem + "." + extension;
    if extension == "" {
      assert path == stem + ".";
    } else {
      var front, last := extension[..|extension| - 1], extension[|extension| - 1];
      assert last in extension && path[|path| - 1] == last && path[..|path| - 1] == stem + "." + front;
      assert forall c :: c in front ==> c in extension;
      ExtensionIs(stem, front);
      assert "." + front + [last] == "." + extension;
    }
  }

  lemma {:induction false} NoExtension(dir: string, name: string)
    requires Unbroken(name, {'.', '/'}) && (dir == "" || dir[|dir| - 1] == '/')
    ensures Extension(dir + name) == ""
    decreases |name|
  {
    if name == "" {
      assert dir + name == dir;
    } else {
      var front, last := name[..|name| - 1], name[|name| - 1];
      assert last in name && (dir + name)[|dir + name| - 1] == last && (dir + name)[..|dir + name| - 1] == dir + front;
      assert forall c :: c in front ==> c in name;
      NoExtension(dir, front);
    }
  }

  /** A file whose name has no dot is in no container unless one is stored. */
  lemma NoContainer(source: Source, dir: string, name: string)
    requires Unbroken(name, {'.', '/'}) && (dir == "" || dir[|dir| - 1] == '/') && source.path == dir + name && source.container == ""
    ensures ContainerOf(source) == ""
  {
    NoExtension(dir, name);
  }

  /** The container is the stored one, else what follows the last dot of the file's name, in lower case. */
  lemma ContainerIs(source: Source, stem: string, extension: string)
    requires Unbroken(extension, {'.', '/'}) && source.path == stem + "." + extension
    ensures ContainerOf(source) == Lower(if source.container != "" then source.container else extension)
  {
    ExtensionIs(stem, extension);
    var lowered := Lower("." + extension);
    assert lowered == "." + Lower(extension) && lowered[1..] == Lower(extension);
  }

  // ---- what comes out -------------------------------------------------------------------------------

  lemma WritableIsWritten(name: string)
    requires Lower(name) == name
    ensures Writable(name) in {"ts", "mp4"} && AudioCodecOf(Writable(name)) == "aac"
  {
    assert Lower("mp4") == "mp4" && Lower("ts") == "ts";
  }

  lemma NamesAreLower(p: Profile, name: string)
    requires name in Names(p)
    ensures Lower(name) == name
  {
    var i :| 0 <= i < |Names(p)| && Names(p)[i] == name;
    LowerTwice(Trim(Split(p.container, {','})[i]));
  }

  /** What the encoder can write: which containers hold a picture, and the one audio codec of each. */
  lemma FormatsAre(name: string)
    ensures CarriesVideo(name) <==> EqualFold(name, "ts") || EqualFold(name, "mp4")
    ensures Writable(name) == if CarriesVideo(name) then name else "mp4"
    ensures EqualFold(name, "aac") || EqualFold(name, "ts") || EqualFold(name, "mp4") ==> AudioCodecOf(name) == "aac"
    ensures (EqualFold(name, "mp3") ==> AudioCodecOf(name) == "mp3") && (EqualFold(name, "opus") ==> AudioCodecOf(name) == "opus")
    ensures AudioCodecOf(name) != "" ==>
              EqualFold(name, "aac") || EqualFold(name, "ts") || EqualFold(name, "mp4") || EqualFold(name, "mp3") || EqualFold(name, "opus")
  {
    assert Lower("aac") == "aac" && Lower("ts") == "ts" && Lower("mp4") == "mp4" && Lower("mp3") == "mp3" && Lower("opus") == "opus";
  }

  /** Whatever is declared, a file that is not handed over comes out in one of the two containers the picture fits in. */
  lemma ComesOutWritable(k: Case)
    requires k.PlanOf().change in {ChangeContainer, ChangeAudio}
    ensures k.PlanOf().container in {"ts", "mp4"}
    ensures k.PlanOf().change == ChangeAudio ==> k.PlanOf().audioCodec == "aac"
    ensures k.PlanOf().change == ChangeContainer ==> k.PlanOf().audioCodec == k.AudioCodec()
  {
    assert Lower("mp4") == "mp4" && AudioCodecOf("mp4") == "aac";
    if k.PlanOf().change == ChangeContainer {
      CopyIsJustified(k);
      var i: nat :| FirstTaker(k, k.profiles, i) && k.PlanOf().container == Writable(Names(k.profiles[i])[0]);
      NamesAreLower(k.profiles[i], Names(k.profiles[i])[0]);
      WritableIsWritten(Names(k.profiles[i])[0]);
    } else {
      EncodeIsJustified(k);
      if SomeEncode(k, k.PlanOf().container) {
        var p, name :| p in k.profiles && CanEncode(k, p, name) && k.PlanOf().container == Writable(name);
        NamesAreLower(p, name);
        WritableIsWritten(name);
      }
    }
  }

  /** What the server can do: anything short of encoding the picture. */
  lemma AvailableIff(change: Change)
    ensures Available(change) <==> change in {ChangeNone, ChangeContainer, ChangeAudio}
    ensures change == ChangeNone <==> Cost(change) == 0
  {
  }
}
