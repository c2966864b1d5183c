/** Which of an item's files is played: the best by height, bitrate and size that needs no picture encode. */
module SourceChoice {
  import opened Options
  import opened Int32s
  import opened Playback
  import opened Conditions

  function Height(s: Source): int {
    var picture := First(s.streams, Video);
    if picture.Some? then OrZero(picture.value.height) else 0
  }

  predicate Richer(s: Source, than: Source) {
    if OrZero(s.bitrate) != OrZero(than.bitrate) then OrZero(s.bitrate) > OrZero(than.bitrate)
    else OrZero(s.size) > OrZero(than.size)
  }

  /** The comparison handed to the sort, its 32-bit subtraction included. */
  function Compare(s: Source, than: Source): int {
    var taller := Int32(Height(than) - Height(s));
    if taller != 0 then taller
    else if Richer(s, than) then -1
    else if Richer(than, s) then 1
    else 0
  }

  /** By height, then bitrate, then size, as the numbers stand. */
  predicate Better(s: Source, than: Source) {
    Height(s) > Height(than) || (Height(s) == Height(than) && Richer(s, than))
  }

  /** A column that may be absent counts as zero. */
  predicate Counts(column: Option<int>, n: int) {
    (column.Some? ==> n == column.value) && (column.None? ==> n == 0)
  }

  /** The columns compared: the height of the first picture, the bitrate and the size. */
  lemma RankIs(s: Source) returns (height: int, bitrate: int, size: int)
    ensures height == Height(s) && Counts(s.bitrate, bitrate) && Counts(s.size, size)
    ensures (forall i :: 0 <= i < |s.streams| ==> s.streams[i].kind != Video) ==> height == 0
    ensures forall i :: 0 <= i < |s.streams| && s.streams[i].kind == Video && (forall j :: 0 <= j < i ==> s.streams[j].kind != Video) ==>
              Counts(s.streams[i].height, height)
  {
    height, bitrate, size := Height(s), OrZero(s.bitrate), OrZero(s.size);
    FirstIs(s.streams, Video);
  }

  /** Richer is the order of bitrates, sizes deciding between equal ones; Better puts heights before it. */
  lemma BetterIsLexicographic(s: Source, than: Source, b: int, z: int, thanB: int, thanZ: int)
    requires Counts(s.bitrate, b) && Counts(s.size, z) && Counts(than.bitrate, thanB) && Counts(than.size, thanZ)
    ensures Richer(s, than) <==> b > thanB || (b == thanB && z > thanZ)
    ensures Better(s, than) <==>
            || Height(s) > Height(than) || (Height(s) == Height(than) && b > thanB)
            || (Height(s) == Height(than) && b == thanB && z > thanZ)
  {
  }

  /** The height column is 32 bits wide. */
  predicate HeightStored(s: Source) {
    FitsInt32(Height(s))
  }

  /** The subtraction does not wrap. */
  predicate Comparable(s: Source, than: Source) {
    FitsInt32(Height(than) - Height(s))
  }

  /** The comparison means what it says exactly for files whose heights differ by less than 2^31. */
  lemma CompareIsBetterIff(s: Source, than: Source)
    requires HeightStored(s) && HeightStored(than)
    ensures ((Compare(s, than) < 0 <==> Better(s, than)) && (Compare(s, than) > 0 <==> Better(than, s))) <==> Comparable(s, than)
  {
    var exact := Height(than) - Height(s);
    var wrapped := Int32(exact);
    if exact >= INT32_LIMIT {
      assert wrapped == exact - INT32_SPAN;
    } else if exact < -INT32_LIMIT {
      assert wrapped == exact + INT32_SPAN;
    }
  }

  lemma NaturalHeightsCompare(s: Source, than: Source)
    requires HeightStored(s) && HeightStored(than) && Height(s) >= 0 && Height(than) >= 0
    ensures Comparable(s, than)
  {
  }

  /** Better is a strict weak order. */
  lemma BetterIsStrictWeakOrder(a: Source, b: Source, c: Source)
    ensures !Better(a, a)
    ensures Better(a, b) && Better(b, c) ==> Better(a, c)
    ensures !Better(a, b) && !Better(b, c) ==> !Better(a, c)
  {
  }

  /** A negative height far enough from a positive one makes the comparison prefer the smaller picture. */
  lemma WrappedHeightsInvert(s: Source, than: Source)
    requires Height(s) == INT32_LIMIT - 1 && Height(than) == -2
    ensures HeightStored(s) && HeightStored(than) && Better(s, than) && Compare(s, than) > 0
  {
    assert Int32(-INT32_LIMIT - 1) == INT32_LIMIT - 1;
  }

  ghost predicate AllComparable(sources: seq<Source>) {
    forall i, j :: 0 <= i < |sources| && 0 <= j < |sources| ==>
      HeightStored(sources[i]) && Comparable(sources[i], sources[j])
  }

  // ---- sorting ----------------------------------------------------------------------------------

  predicate Places(sources: seq<Source>, order: seq<nat>) {
    forall k :: 0 <= k < |order| ==> order[k] < |sources|
  }

  /** Position a comes before position b in a stable sort: its file is better, or as good and listed first. */
  predicate Ahead(sources: seq<Source>, a: nat, b: nat)
    requires a < |sources| && b < |sources|
  {
    Better(sources[a], sources[b]) || (!Better(sources[b], sources[a]) && a < b)
  }

  ghost predicate StablySorted(sources: seq<Source>, order: seq<nat>)
    requires Places(sources, order)
  {
    forall j, k :: 0 <= j < k < |order| ==> Ahead(sources, order[j], order[k])
  }

  lemma AheadIsTransitive(sources: seq<Source>, a: nat, b: nat, c: nat)
    requires a < |sources| && b < |sources| && c < |sources|
    requires Ahead(sources, a, b) && Ahead(sources, b, c)
    ensures Ahead(sources, a, c)
  {
    BetterIsStrictWeakOrder(sources[a], sources[b], sources[c]);
    BetterIsStrictWeakOrder(sources[c], sources[b], sources[a]);
    BetterIsStrictWeakOrder(sources[b], sources[a], sources[c]);
    BetterIsStrictWeakOrder(sources[c], sources[a], sources[b]);
  }

  /** x stands at k: behind what precedes it, before what follows it. */
  ghost predicate Fits(sources: seq<Source>, order: seq<nat>, k: nat, x: nat)
    requires Places(sources, order) && x < |sources| && k <= |order|
  {
    && (forall j :: 0 <= j < k ==> Ahead(sources, order[j], x))
    && (forall j :: k <= j < |order| ==> Ahead(sources, x, order[j]))
  }

  /** Where x goes among the positions before it: behind every one it does not compare below. */
  method InsertionPoint(sources: seq<Source>, order: seq<nat>, x: nat) returns (k: nat)
    requires Places(sources, order) && x < |sources| && AllBelow(order, x)
    ensures k <= |order|
    ensures AllComparable(sources) && StablySorted(sources, order) ==> Fits(sources, order, k, x)
  {
    k := |order|;
    while k > 0 && Compare(sources[x], sources[order[k - 1]]) < 0
      invariant k <= |order|
      invariant AllComparable(sources) ==> forall j :: k <= j < |order| ==> Ahead(sources, x, order[j])
    {
      if AllComparable(sources) {
        CompareIsBetterIff(sources[x], sources[order[k - 1]]);
      }
      k := k - 1;
    }
    if AllComparable(sources) && StablySorted(sources, order) && k > 0 {
      CompareIsBetterIff(sources[x], sources[order[k - 1]]);
      assert Ahead(sources, order[k - 1], x);
      forall j | 0 <= j < k
        ensures Ahead(sources, order[j], x)
      {
        if j < k - 1 {
          AheadIsTransitive(sources, order[j], order[k - 1], x);
        }
      }
    }
  }

  predicate AllBelow(order: seq<nat>, x: nat) {
    forall k :: 0 <= k < |order| ==> order[k] < x
  }

  /** Inserting behind what precedes x and before what follows it keeps any relation between earlier and later. */
  lemma InsertKeepsPairs(rel: (nat, nat) -> bool, order: seq<nat>, k: nat, x: nat)
    requires k <= |order| && forall i, j :: 0 <= i < j < |order| ==> rel(order[i], order[j])
    requires forall j :: 0 <= j < k ==> rel(order[j], x)
    requires forall j :: k <= j < |order| ==> rel(x, order[j])
    ensures var longer := order[..k] + [x] + order[k..];
            (forall i, j :: 0 <= i < j < |longer| ==> rel(longer[i], longer[j])) && forall i :: i in longer <==> i in order || i == x
  {
    var longer := order[..k] + [x] + order[k..];
    assert longer[k] == x && order == order[..k] + order[k..];
    forall i, j | 0 <= i < j < |longer|
      ensures rel(longer[i], longer[j])
    {
      assert i < k ==> longer[i] == order[i];
      assert k < i ==> longer[i] == order[i - 1];
      assert j < k ==> longer[j] == order[j];
      assert k < j ==> longer[j] == order[j - 1];
    }
  }

  lemma InsertKeepsPlaces(sources: seq<Source>, order: seq<nat>, k: nat, x: nat)
    requires Places(sources, order) && x < |sources| && AllBelow(order, x) && k <= |order|
    ensures var longer := order[..k] + [x] + order[k..];
            AllBelow(longer, x + 1) && Places(sources, longer) && x in longer && forall i :: i in order ==> i in longer
  {
    InsertKeepsPairs((a: nat, b: nat) => true, order, k, x);
    var longer := order[..k] + [x] + order[k..];
    forall j | 0 <= j < |longer|
      ensures longer[j] <= x
    {
      assert longer[j] in longer;
    }
  }

  lemma InsertKeepsSorted(sources: seq<Source>, order: seq<nat>, k: nat, x: nat)
    requires Places(sources, order) && x < |sources| && AllBelow(order, x) && StablySorted(sources, order)
    requires k <= |order| && Fits(sources, order, k, x)
    ensures var longer := order[..k] + [x] + order[k..];
            Places(sources, longer) && StablySorted(sources, longer)
  {
    InsertKeepsPlaces(sources, order, k, x);
    InsertKeepsPairs((a: nat, b: nat) => a < |sources| && b < |sources| && Ahead(sources, a, b), order, k, x);
  }

  /** The sort of the clone, by insertion: stable whenever the comparison means what it says. */
  method SortStable(sources: seq<Source>) returns (order: seq<nat>)
    ensures |order| == |sources| && Places(sources, order)
    ensures forall i: nat :: i < |sources| ==> i in order
    ensures AllComparable(sources) ==> StablySorted(sources, order)
  {
    order := [];
    for x := 0 to |sources|
      invariant |order| == x && AllBelow(order, x) && Places(sources, order)
      invariant forall i: nat :: i < x ==> i in order
      invariant AllComparable(sources) ==> StablySorted(sources, order)
    {
      var k := InsertionPoint(sources, order, x);
      InsertKeepsPlaces(sources, order, k, x);
      if AllComparable(sources) {
        InsertKeepsSorted(sources, order, k, x);
      }
      order := order[..k] + [x] + order[k..];
    }
  }

  predicate CanPlay(k: Case, sources: seq<Source>, i: nat) {
    i < |sources| && Available(k.(source := sources[i]).ChangeOf())
  }

  /** The chosen file can be played, nothing better can, and among equals it was listed first. */
  ghost predicate Chosen(k: Case, sources: seq<Source>, i: nat) {
    CanPlay(k, sources, i) && forall j: nat :: j != i && CanPlay(k, sources, j) ==> Ahead(sources, i, j)
  }

  datatype Choice = NoSource | NoPlayable | Play(index: nat, plan: Plan)

  lemma FirstIsChosen(k: Case, sources: seq<Source>, order: seq<nat>, n: nat)
    requires Places(sources, order) && StablySorted(sources, order) && n < |order| && CanPlay(k, sources, order[n])
    requires forall i: nat :: i < |sources| ==> i in order
    requires forall m :: 0 <= m < n ==> !CanPlay(k, sources, order[m])
    ensures Chosen(k, sources, order[n])
  {
    forall j: nat | j != order[n] && CanPlay(k, sources, j)
      ensures Ahead(sources, order[n], j)
    {
      assert j in order;
      var m :| 0 <= m < |order| && order[m] == j;
      assert n < m;
    }
  }

  lemma NonePlays(k: Case, sources: seq<Source>, order: seq<nat>)
    requires forall i: nat :: i < |sources| ==> i in order
    requires forall m :: 0 <= m < |order| ==> !CanPlay(k, sources, order[m])
    ensures forall j: nat :: !CanPlay(k, sources, j)
  {
    forall j: nat | j < |sources|
      ensures !CanPlay(k, sources, j)
    {
      assert j in order;
      var m :| 0 <= m < |order| && order[m] == j;
    }
  }

  /** An error exactly when nothing can be played, whatever the heights; the best choice when none wraps. */
  method SourceFor(k: Case, sources: seq<Source>) returns (choice: Choice)
    ensures choice == NoSource <==> sources == []
    ensures choice == NoPlayable <==>
            sources != [] && forall j: nat :: !CanPlay(k, sources, j)
    ensures choice.Play? ==>
              choice.index < |sources| && choice.plan == k.(source := sources[choice.index]).PlanOf() && Available(choice.plan.change)
    ensures choice.Play? && AllComparable(sources) ==> Chosen(k, sources, choice.index)
  {
    if |sources| == 0 {
      return NoSource;
    }
    var order := SortStable(sources);
    for n := 0 to |order|
      invariant forall m :: 0 <= m < n ==> !CanPlay(k, sources, order[m])
    {
      var plan := PlanFor(k.(source := sources[order[n]]));
      if Available(plan.change) {
        assert CanPlay(k, sources, order[n]);
        if AllComparable(sources) {
          FirstIsChosen(k, sources, order, n);
        }
        return Play(order[n], plan);
      }
    }
    NonePlays(k, sources, order);
    return NoPlayable;
  }

  /** The choice is determined: no two files can both be it. */
  lemma ChoiceIsUnique(k: Case, sources: seq<Source>, i: nat, j: nat)
    requires Chosen(k, sources, i) && Chosen(k, sources, j)
    ensures i == j
  {
  }

  /** Everything strictly better than the chosen file by height, bitrate and size cannot be played. */
  lemma NothingBetterPlays(k: Case, sources: seq<Source>, i: nat, j: nat)
    requires Chosen(k, sources, i) && j < |sources| && Better(sources[j], sources[i])
    ensures !Available(k.(source := sources[j]).ChangeOf())
  {
    assert j != i && (CanPlay(k, sources, j) ==> Ahead(sources, i, j));
    BetterIsStrictWeakOrder(sources[i], sources[j], sources[i]);
  }

  // ---- the best file whatever the client --------------------------------------------------------

  /** Head of a stable sort by Richer: nothing is richer, and everything listed before it is poorer. */
  ghost predicate Richest(sources: seq<Source>, i: nat) {
    && i < |sources|
    && (forall j :: 0 <= j < |sources| ==> !Richer(sources[j], sources[i]))
    && (forall j :: 0 <= j < i ==> Richer(sources[i], sources[j]))
  }

  method BestSource(sources: seq<Source>) returns (best: Option<nat>)
    ensures best.None? <==> sources == []
    ensures best.Some? ==> Richest(sources, best.value)
  {
    best := None;
    for i := 0 to |sources|
      invariant best.None? <==> i == 0
      invariant best.Some? ==> best.value < i && Richest(sources[..i], best.value)
    {
      if best.None? || Richer(sources[i], sources[best.value]) {
        best := Some(i);
      }
    }
    assert sources[..|sources|] == sources;
  }

  /** No file has a higher bitrate than the best one, none of its bitrate is larger, and of its equals it is listed first. */
  lemma RichestIff(sources: seq<Source>, i: nat)
    ensures Richest(sources, i) <==>
            && i < |sources|
            && (forall j :: 0 <= j < |sources| ==> OrZero(sources[j].bitrate) <= OrZero(sources[i].bitrate))
            && (forall j :: 0 <= j < |sources| && OrZero(sources[j].bitrate) == OrZero(sources[i].bitrate) ==>
                  OrZero(sources[j].size) <= OrZero(sources[i].size))
            && (forall j :: 0 <= j < i ==>
                  OrZero(sources[j].bitrate) != OrZero(sources[i].bitrate) || OrZero(sources[j].size) != OrZero(sources[i].size))
  {
    if i < |sources| {
      forall j | 0 <= j < |sources|
        ensures !Richer(sources[j], sources[i]) <==>
                && OrZero(sources[j].bitrate) <= OrZero(sources[i].bitrate)
                && (OrZero(sources[j].bitrate) == OrZero(sources[i].bitrate) ==> OrZero(sources[j].size) <= OrZero(sources[i].size))
      {
      }
    }
  }

  lemma RichestIsUnique(sources: seq<Source>, i: nat, j: nat)
    requires Richest(sources, i) && Richest(sources, j)
    ensures i == j
  {
    var one, two := sources[i], sources[j];
  }
}
