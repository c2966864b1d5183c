/** The string functions of the Go library the service relies on, on ASCII. */
module Text {
  import opened Options

  function LowerChar(c: char): char {
    if 'A' <= c <= 'Z' then (c as int + 32) as char else c
  }

  function Lower(s: string): (t: string)
    ensures |t| == |s|
  {
    seq(|s|, i requires 0 <= i < |s| => LowerChar(s[i]))
  }

  predicate EqualFold(a: string, b: string) {
    Lower(a) == Lower(b)
  }

  predicate Blank(c: char) {
    c in {' ', '\t', '\n', '\r', 11 as char, 12 as char}
  }

  function TrimLeft(s: string): string {
    if s != "" && Blank(s[0]) then TrimLeft(s[1..]) else s
  }

  function TrimRight(s: string): string {
    if s != "" && Blank(s[|s| - 1]) then TrimRight(s[..|s| - 1]) else s
  }

  function Trim(s: string): string {
    TrimRight(TrimLeft(s))
  }

  /** strings.Split: the pieces between separators, empty ones included, so never no piece. */
  function Split(s: string, separators: set<char>): (pieces: seq<string>)
    ensures pieces != []
  {
    if s == "" then [""]
    else
      var rest := Split(s[1..], separators);
      if s[0] in separators then [""] + rest else [[s[0]] + rest[0]] + rest[1..]
  }

  /** strings.Join with a one-character separator. */
  function Join(parts: seq<string>, separator: char): string
    requires parts != []
  {
    if |parts| == 1 then parts[0] else parts[0] + ([separator] + Join(parts[1..], separator))
  }

  /** None of the separators occurs in the piece. */
  predicate Unbroken(piece: string, separators: set<char>) {
    forall c :: c in piece ==> c !in separators
  }

  lemma {:induction false} SplitAfterPiece(piece: string, rest: string, separators: set<char>)
    requires Unbroken(piece, separators)
    ensures var pieces := Split(rest, separators);
            Split(piece + rest, separators) == [piece + pieces[0]] + pieces[1..]
  {
    if piece == "" {
      var pieces := Split(rest, separators);
      assert piece + rest == rest && piece + pieces[0] == pieces[0];
      assert pieces == [pieces[0]] + pieces[1..];
    } else {
      assert (piece + rest)[1..] == piece[1..] + rest && (piece + rest)[0] == piece[0];
      SplitAfterPiece(piece[1..], rest, separators);
      var pieces := Split(rest, separators);
      assert [piece[0]] + (piece[1..] + pieces[0]) == piece + pieces[0];
    }
  }

  /** Splitting at any of several separators undoes joining by one of them. */
  lemma {:induction false} SplitUndoesJoinAmong(parts: seq<string>, separator: char, separators: set<char>)
    requires parts != [] && separator in separators && forall k :: 0 <= k < |parts| ==> Unbroken(parts[k], separators)
    ensures Split(Join(parts, separator), separators) == parts
  {
    if |parts| == 1 {
      SplitAfterPiece(parts[0], "", separators);
      assert parts[0] + "" == parts[0] && Split("", separators) == [""];
      assert parts == [parts[0]];
    } else {
      var rest := Join(parts[1..], separator);
      SplitUndoesJoinAmong(parts[1..], separator, separators);
      assert ([separator] + rest)[1..] == rest;
      assert Split([separator] + rest, separators) == [""] + parts[1..];
      SplitAfterPiece(parts[0], [separator] + rest, separators);
      assert ([""] + parts[1..])[1..] == parts[1..] && parts[0] + "" == parts[0];
      assert parts == [parts[0]] + parts[1..];
    }
  }

  /** Splitting undoes joining. */
  lemma SplitUndoesJoin(parts: seq<string>, separator: char)
    requires parts != [] && forall k :: 0 <= k < |parts| ==> separator !in parts[k]
    ensures Split(Join(parts, separator), {separator}) == parts
  {
    SplitUndoesJoinAmong(parts, separator, {separator});
  }

  // ---- decimal numbers --------------------------------------------------------------------------

  function Digit(d: nat): char
    requires d < 10
  {
    '0' + d as char
  }

  function Digits(n: nat): string {
    if n < 10 then [Digit(n)] else Digits(n / 10) + [Digit(n % 10)]
  }

  /** %d. */
  function Decimal(n: int): string {
    if n < 0 then "-" + Digits(-n) else Digits(n)
  }

  predicate AllDigits(s: string) {
    forall k :: 0 <= k < |s| ==> '0' <= s[k] <= '9'
  }

  function Value(s: string): nat
    requires AllDigits(s)
  {
    if s == "" then 0 else Value(s[..|s| - 1]) * 10 + (s[|s| - 1] - '0') as nat
  }

  const INT64_MAX := 0x7fff_ffff_ffff_ffff

  /** strconv.Atoi: an optional sign, then digits, within 64 bits. */
  function Atoi(s: string): Option<int> {
    var negative := s != "" && s[0] == '-';
    var digits := if s != "" && s[0] in {'-', '+'} then s[1..] else s;
    if digits == "" || !AllDigits(digits) then None
    else if negative then if Value(digits) <= INT64_MAX + 1 then Some(-(Value(digits) as int)) else None
    else if Value(digits) <= INT64_MAX then Some(Value(digits))
    else None
  }

  lemma {:induction false} DigitsRead(n: nat)
    ensures Digits(n) != "" && AllDigits(Digits(n)) && Value(Digits(n)) == n
    decreases n
  {
    if n >= 10 {
      DigitsRead(n / 10);
      assert Digits(n)[..|Digits(n)| - 1] == Digits(n / 10);
    } else {
      assert [Digit(n)][..0] == "";
    }
  }

  lemma SignedDigitsRead(digits: string)
    requires digits != "" && AllDigits(digits)
    ensures Value(digits) <= INT64_MAX ==> Atoi(digits) == Some(Value(digits) as int)
    ensures Value(digits) <= INT64_MAX + 1 ==> Atoi("-" + digits) == Some(-(Value(digits) as int))
  {
    assert '0' <= digits[0] <= '9';
    assert ("-" + digits)[1..] == digits;
  }

  /** What is read: digits with or without a sign, within 64 bits; nothing else. */
  lemma AtoiReads(digits: string)
    requires digits != "" && AllDigits(digits)
    ensures Atoi(digits) == Atoi("+" + digits) == if Value(digits) <= INT64_MAX then Some(Value(digits) as int) else None
    ensures Atoi("-" + digits) == if Value(digits) <= INT64_MAX + 1 then Some(-(Value(digits) as int)) else None
  {
    assert '0' <= digits[0] <= '9';
    assert ("-" + digits)[1..] == digits && ("+" + digits)[1..] == digits;
  }

  lemma AtoiRefuses(s: string, k: nat)
    requires k < |s| && !('0' <= s[k] <= '9') && (k == 0 ==> s[0] !in {'+', '-'})
    ensures Atoi(s) == None && Atoi("") == None && Atoi("+") == None && Atoi("-") == None
  {
    assert !AllDigits(s) && (k > 0 ==> s[1..][k - 1] == s[k]);
  }

  /** Reading undoes printing for every number that fits. */
  lemma AtoiUndoesDecimal(n: int)
    requires -INT64_MAX - 1 <= n <= INT64_MAX
    ensures Atoi(Decimal(n)) == Some(n)
  {
    var size: nat := if n < 0 then -n else n;
    DigitsRead(size);
    SignedDigitsRead(Digits(size));
  }

  lemma DecimalIsInjective(m: int, n: int)
    requires Decimal(m) == Decimal(n)
    ensures m == n
  {
    DigitsRead(if m < 0 then -m else m);
    DigitsRead(if n < 0 then -n else n);
    assert Decimal(m)[0] == '-' <==> m < 0;
    assert Decimal(n)[0] == '-' <==> n < 0;
    if m < 0 {
      assert Decimal(m)[1..] == Digits(-m) && Decimal(n)[1..] == Digits(-n);
    }
  }

  lemma DecimalHasNo(n: int, c: char)
    requires !('0' <= c <= '9') && c != '-'
    ensures c !in Decimal(n)
  {
    DigitsRead(if n < 0 then -n else n);
  }
}
