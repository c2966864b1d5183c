/** What titles are sorted by: the words of a name without its article, and season numbers that sort as numbers. */
module SortNames {
  import opened Options
  import opened Text
  import opened Titles

  // ---- letters and blanks ---------------------------------------------------------------------------

  /** Upper-case letters become the lower-case ones; every other character stays. */
  lemma LowerIs(s: string, i: nat)
    requires i < |s|
    ensures Lower("ABCDEFGHIJKLMNOPQRSTUVWXYZ") == "abcdefghijklmnopqrstuvwxyz"
    ensures s[i] !in "ABCDEFGHIJKLMNOPQRSTUVWXYZ" ==> Lower(s)[i] == s[i]
  {
    var upper := "ABCDEFGHIJKLMNOPQRSTUVWXYZ";
    if 'A' <= s[i] <= 'Z' {
      assert upper[s[i] as int - 'A' as int] == s[i];
    }
  }

  predicate AllBlank(s: string) {
    forall c :: c in s ==> c == ' ' || c == '\t' || c == '\n' || c == '\r' || c == 11 as char || c == 12 as char
  }

  lemma {:induction false} TrimLeftIs(left: string, rest: string)
    requires AllBlank(left) && (rest == "" || !Blank(rest[0]))
    ensures TrimLeft(left + rest) == rest
  {
    if left == "" {
      assert left + rest == rest;
    } else {
      assert left[0] in left && (left + rest)[1..] == left[1..] + rest;
      assert forall c :: c in left[1..] ==> c in left;
      TrimLeftIs(left[1..], rest);
    }
  }

  lemma {:induction false} TrimRightIs(rest: string, right: string)
    requires AllBlank(right) && (rest == "" || !Blank(rest[|rest| - 1]))
    ensures TrimRight(rest + right) == rest
    decreases |right|
  {
    if right == "" {
      assert rest + right == rest;
    } else {
      var n := |right| - 1;
      assert right[n] in right && (rest + right)[|rest| + n] == right[n] && (rest + right)[..|rest| + n] == rest + right[..n];
      assert forall c :: c in right[..n] ==> c in right;
      TrimRightIs(rest, right[..n]);
    }
  }

  /** Blanks on either side come off, and nothing in between does. */
  lemma TrimIs(left: string, core: string, right: string)
    requires AllBlank(left) && AllBlank(right) && core != "" && !Blank(core[0]) && !Blank(core[|core| - 1])
    ensures Trim(left + core + right) == core
  {
    assert left + core + right == left + (core + right);
    TrimLeftIs(left, core + right);
    TrimRightIs(core, right);
  }

  // ---- names ----------------------------------------------------------------------------------------

  /** A word: something, and no blank, dot or underscore in it. */
  ghost predicate Word(w: string) {
    w != "" && forall c :: c in w ==> !Parting(c)
  }

  lemma {:induction false} WordsOfWord(before: string, w: string, rest: string)
    requires forall c :: c in w ==> !Parting(c)
    ensures Words(w + rest, before) == Words(rest, before + w)
    decreases |w|
  {
    if w == "" {
      assert w + rest == rest && before + w == before;
    } else {
      assert w[0] in w && (w + rest)[1..] == w[1..] + rest && before + [w[0]] + w[1..] == before + w;
      WordsOfWord(before + [w[0]], w[1..], rest);
    }
  }

  /** The words of a name are the pieces between dots, underscores and blanks. */
  lemma {:induction false} WordsOfJoined(words: seq<string>, parting: char)
    requires words != [] && Parting(parting) && forall k :: 0 <= k < |words| ==> Word(words[k])
    ensures Words(Join(words, parting), "") == words
    decreases |words|
  {
    if |words| == 1 {
      WordsOfWord("", words[0], "");
      assert words[0] + "" == words[0] && "" + words[0] == words[0];
    } else {
      var rest := Join(words[1..], parting);
      WordsOfWord("", words[0], [parting] + rest);
      WordsOfJoined(words[1..], parting);
      assert "" + words[0] == words[0] && ([parting] + rest)[1..] == rest;
      assert [words[0]] + words[1..] == words;
    }
  }

  lemma {:induction false} LowerOfJoined(words: seq<string>, parting: char)
    requires words != [] && Parting(parting)
    ensures Lower(Join(words, parting)) == Join(seq(|words|, k requires 0 <= k < |words| => Lower(words[k])), parting)
    decreases |words|
  {
    var lowered := seq(|words|, k requires 0 <= k < |words| => Lower(words[k]));
    if |words| > 1 {
      var rest := words[1..];
      LowerOfJoined(rest, parting);
      assert lowered[1..] == seq(|rest|, k requires 0 <= k < |rest| => Lower(rest[k]));
      assert Lower(words[0] + ([parting] + Join(rest, parting))) == Lower(words[0]) + ([parting] + Lower(Join(rest, parting)));
    }
  }

  lemma LowerKeepsWords(w: string)
    requires Word(w)
    ensures Word(Lower(w))
  {
    forall c | c in Lower(w)
      ensures !Parting(c)
    {
      var i :| 0 <= i < |w| && Lower(w)[i] == c;
      assert w[i] in w;
    }
  }

  /** A name sorts by its words in lower case, one blank apart, without the article it starts with unless that is all there is. */
  lemma SortNameIs(words: seq<string>, parting: char)
    requires words != [] && Parting(parting) && forall k :: 0 <= k < |words| ==> Word(words[k])
    ensures SortName(Join(words, parting)) ==
            Lower(Join(if |words| > 1 && Lower(words[0]) in {"the", "a", "an"} then words[1..] else words, ' '))
  {
    var lowered := seq(|words|, k requires 0 <= k < |words| => Lower(words[k]));
    forall k | 0 <= k < |words|
      ensures Word(lowered[k])
    {
      LowerKeepsWords(words[k]);
    }
    LowerOfJoined(words, parting);
    WordsOfJoined(lowered, parting);
    LowerOfJoined(words, ' ');
    if |words| > 1 {
      var rest := words[1..];
      LowerOfJoined(rest, ' ');
      assert lowered[1..] == seq(|rest|, k requires 0 <= k < |rest| => Lower(rest[k]));
    }
  }

  /** Blanks, dots and underscores around a name do not show. */
  lemma {:induction false} WordsSkip(left: string, name: string)
    requires forall c :: c in left ==> Parting(c)
    ensures Words(left + name, "") == Words(name, "")
  {
    if left == "" {
      assert left + name == name;
    } else {
      assert left[0] in left && (left + name)[1..] == left[1..] + name;
      WordsSkip(left[1..], name);
    }
  }

  lemma PartingChars(c: char)
    ensures Parting(c) <==> c == '.' || c == '_' || AllBlank([c])
  {
    assert c in [c];
  }

  // ---- seasons --------------------------------------------------------------------------------------

  lemma {:induction false} PaddedIs(digits: string, width: nat)
    requires AllDigits(digits)
    ensures AllDigits(Padded(digits, width)) && Value(Padded(digits, width)) == Value(digits)
    ensures |Padded(digits, width)| == if |digits| >= width then |digits| else width
    decreases width - |digits|
  {
    if |digits| < width {
      LeadingZero(digits);
      PaddedIs("0" + digits, width);
    }
  }

  lemma {:induction false} LeadingZero(digits: string)
    requires AllDigits(digits)
    ensures AllDigits("0" + digits) && Value("0" + digits) == Value(digits)
  {
    var zero := "0" + digits;
    forall k | 0 <= k < |zero|
      ensures '0' <= zero[k] <= '9'
    {
      assert k > 0 ==> zero[k] == digits[k - 1];
    }
    if digits == "" {
      assert zero[..0] == "";
    } else {
      var n := |digits| - 1;
      LeadingZero(digits[..n]);
      assert zero[..n + 1] == "0" + digits[..n];
    }
  }

  /** Before in the order of strings of one length. */
  predicate Before(a: string, b: string)
    requires |a| == |b|
  {
    a != "" && (a[0] < b[0] || (a[0] == b[0] && Before(a[1..], b[1..])))
  }

  function Power(n: nat): nat {
    if n == 0 then 1 else 10 * Power(n - 1)
  }

  lemma TenTimes(d: nat, p: nat)
    ensures d * (10 * p) == 10 * (d * p)
  {
  }

  lemma {:induction false} FirstDigitWeighs(s: string)
    requires s != "" && AllDigits(s)
    ensures AllDigits(s[1..]) && Value(s) == (s[0] - '0') as nat * Power(|s| - 1) + Value(s[1..]) && Value(s[1..]) < Power(|s| - 1)
  {
    var n := |s| - 1;
    if n == 0 {
      assert s[..0] == "" && s[1..] == "";
    } else {
      FirstDigitWeighs(s[..n]);
      var rest, d := s[1..], (s[0] - '0') as nat;
      assert s[..n][1..] == rest[..n - 1] && rest[n - 1] == s[n] && s[..n][0] == s[0];
      assert Value(rest) == Value(rest[..n - 1]) * 10 + (s[n] - '0') as nat;
      TenTimes(d, Power(n - 1));
    }
  }

  /** Numerals of one length sort as their numbers. */
  lemma {:induction false} NumeralsSort(a: string, b: string)
    requires |a| == |b| && AllDigits(a) && AllDigits(b)
    ensures Before(a, b) <==> Value(a) < Value(b)
  {
    if a != "" {
      FirstDigitWeighs(a);
      FirstDigitWeighs(b);
      NumeralsSort(a[1..], b[1..]);
      var x, y, p := (a[0] - '0') as nat, (b[0] - '0') as nat, Power(|a| - 1);
      if x < y {
        HigherDigitWins(x, y, p);
      } else if y < x {
        HigherDigitWins(y, x, p);
      }
    }
  }

  lemma {:induction false} HigherDigitWins(x: nat, y: nat, p: nat)
    requires x < y
    ensures x * p + p <= y * p
  {
    if x + 1 < y {
      HigherDigitWins(x, y - 1, p);
    }
    assert y * p == (y - 1) * p + p;
  }

  lemma {:induction false} FewDigits(n: nat, width: nat)
    requires n < Power(width) && width > 0
    ensures |Digits(n)| <= width
    decreases width
  {
    if n >= 10 {
      assert Power(width) == 10 * Power(width - 1);
      assert width > 1 by {
        assert Power(0) == 1;
      }
      FewDigits(n / 10, width - 1);
    }
  }

  /** Whatever the season's number, it can be read back from the name it sorts by, which is at least four long. */
  lemma SeasonNumberReads(n: int)
    ensures |SeasonSortName(n)| >= 4
    ensures n >= 0 ==> AllDigits(SeasonSortName(n)) && Value(SeasonSortName(n)) == n
    ensures n < 0 ==> SeasonSortName(n)[0] == '-' && AllDigits(SeasonSortName(n)[1..]) && Value(SeasonSortName(n)[1..]) == -n
    ensures -1000 < n < 10000 ==> |SeasonSortName(n)| == 4
  {
    var size: nat := if n < 0 then -n else n;
    DigitsRead(size);
    PaddedIs(Digits(size), if n < 0 then 3 else 4);
    assert Power(1) == 10 && Power(2) == 100 && Power(3) == 1000 && Power(4) == 10000;
    if n < 0 {
      assert SeasonSortName(n)[1..] == Padded(Digits(size), 3);
      if n > -1000 {
        FewDigits(size, 3);
      }
    } else if n < 10000 {
      FewDigits(size, 4);
    }
  }

  /** A name without a word sorts as nothing. */
  lemma WordlessSortsEmpty(name: string)
    requires forall c :: c in name ==> Parting(c)
    ensures SortName(name) == ""
  {
    assert Lower(name) == name by {
      forall i | 0 <= i < |name|
        ensures Lower(name)[i] == name[i]
      {
        assert name[i] in name;
      }
    }
    WordsSkip(name, "");
    assert name + "" == name;
  }

  /** Seasons up to 9999 sort by name as they do by number. */
  lemma SeasonsSort(m: nat, n: nat)
    requires m < 10000 && n < 10000
    ensures |SeasonSortName(m)| == |SeasonSortName(n)| == 4 && (Before(SeasonSortName(m), SeasonSortName(n)) <==> m < n)
  {
    assert Power(4) == 10000 by {
      assert Power(1) == 10 && Power(2) == 100 && Power(3) == 1000;
    }
    FewDigits(m, 4);
    FewDigits(n, 4);
    DigitsRead(m);
    DigitsRead(n);
    PaddedIs(Digits(m), 4);
    PaddedIs(Digits(n), 4);
    NumeralsSort(SeasonSortName(m), SeasonSortName(n));
  }
}
