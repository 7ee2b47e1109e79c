/** The parts of Go's `strings` and `strconv` packages that the server's text handling rests on.
    Strings are sequences of Unicode characters; letter case is ASCII. */
module GoText {
  import opened Wrappers

  const MIN_INT64: int := -0x8000_0000_0000_0000
  const MAX_INT64: int := 0x7FFF_FFFF_FFFF_FFFF

  type int64 = n: int | MIN_INT64 <= n <= MAX_INT64

  // ----- letter case

  function LowerChar(c: char): char {
    if 'A' <= c <= 'Z' then (c as int + 32) as char else c
  }

  /** strings.ToLower. */
  function ToLower(s: string): (r: string)
    ensures |r| == |s|
    ensures forall i :: 0 <= i < |s| ==> r[i] == LowerChar(s[i])
  {
    seq(|s|, i requires 0 <= i < |s| => LowerChar(s[i]))
  }

  const CAPITALS := "ABCDEFGHIJKLMNOPQRSTUVWXYZ"
  const SMALL_LETTERS := "abcdefghijklmnopqrstuvwxyz"

  /** Folding, letter by letter. */
  lemma CapitalsFold(i: nat)
    requires i < 26
    ensures LowerChar(CAPITALS[i]) == SMALL_LETTERS[i]
  {
    assert CAPITALS[i] as int == 65 + i && SMALL_LETTERS[i] as int == 97 + i;
  }

  /** And nothing else changes. */
  lemma OthersStay(c: char)
    ensures c !in CAPITALS ==> LowerChar(c) == c
  {
    if 'A' <= c <= 'Z' {
      assert CAPITALS[c as int - 65] as int == c as int;
    }
  }

  lemma LowerConcat(s: string, t: string)
    ensures ToLower(s + t) == ToLower(s) + ToLower(t)
  {}

  // ----- white space

  /** unicode.IsSpace. */
  predicate IsSpace(c: char) {
    c in "\t\n\r " || c in ['\U{b}', '\U{c}', '\U{85}', '\U{a0}', '\U{1680}',
                            '\U{2028}', '\U{2029}', '\U{202f}', '\U{205f}', '\U{3000}']
    || '\U{2000}' <= c <= '\U{200a}'
  }

  /** White space by code point: the six ASCII characters, and those of Unicode. */
  lemma SpaceCodes(c: char)
    ensures IsSpace(c) <==>
              || 9 <= c as int <= 13 || c as int == 32
              || c as int in {0x85, 0xA0, 0x1680, 0x2028, 0x2029, 0x202F, 0x205F, 0x3000}
              || 0x2000 <= c as int <= 0x200A
  {}

  function TrimLeft(s: string): string {
    if s != [] && IsSpace(s[0]) then TrimLeft(s[1..]) else s
  }

  function TrimRight(s: string): string {
    if s != [] && IsSpace(s[|s| - 1]) then TrimRight(s[..|s| - 1]) else s
  }

  /** strings.TrimSpace. */
  function TrimSpace(s: string): string {
    TrimRight(TrimLeft(s))
  }

  ghost predicate AllSpace(s: string) {
    forall c <- s :: IsSpace(c)
  }

  /** A core that neither starts nor ends with a space, given any padding. */
  lemma {:induction false} TrimPadded(before: string, core: string, after: string)
    requires AllSpace(before) && AllSpace(after)
    requires core != [] && !IsSpace(core[0]) && !IsSpace(core[|core| - 1])
    ensures TrimSpace(before + core + after) == core
    decreases |before|, |after|
  {
    var s := before + core + after;
    if before != [] {
      assert s[1..] == before[1..] + core + after;
      TrimPadded(before[1..], core, after);
    } else if after != [] {
      var shorter := core + after[..|after| - 1];
      assert s == core + after && s[..|s| - 1] == shorter;
      assert TrimLeft(s) == s && TrimLeft(shorter) == shorter;
      TrimPadded([], core, after[..|after| - 1]);
      assert [] + core + after[..|after| - 1] == shorter;
    } else {
      assert s == core;
    }
  }

  lemma {:induction false} TrimLeftCuts(s: string) returns (before: string)
    ensures AllSpace(before) && s == before + TrimLeft(s)
    ensures TrimLeft(s) == [] || !IsSpace(TrimLeft(s)[0])
  {
    if s != [] && IsSpace(s[0]) {
      var rest := TrimLeftCuts(s[1..]);
      before := [s[0]] + rest;
    } else {
      before := [];
    }
  }

  lemma {:induction false} TrimRightCuts(s: string) returns (after: string)
    ensures AllSpace(after) && s == TrimRight(s) + after
    ensures TrimRight(s) == [] || !IsSpace(TrimRight(s)[|TrimRight(s)| - 1])
  {
    if s != [] && IsSpace(s[|s| - 1]) {
      var rest := TrimRightCuts(s[..|s| - 1]);
      after := rest + [s[|s| - 1]];
    } else {
      after := [];
    }
  }

  /** What is left has no space at either end and lacks only spaces; nothing is left of spaces alone. */
  lemma TrimSpaceMeaning(s: string) returns (before: string, after: string)
    ensures AllSpace(before) && AllSpace(after) && s == before + TrimSpace(s) + after
    ensures var t := TrimSpace(s); t == [] || (!IsSpace(t[0]) && !IsSpace(t[|t| - 1]))
  {
    before := TrimLeftCuts(s);
    after := TrimRightCuts(TrimLeft(s));
    assert TrimSpace(s) != [] ==> TrimSpace(s)[0] == TrimLeft(s)[0];
    hide IsSpace;
  }

  // ----- splitting

  /** strings.Split at a one-character separator. */
  function Split(s: string, sep: char): (parts: seq<string>)
    ensures |parts| > 0
  {
    if s == [] then [[]]
    else
      var rest := Split(s[1..], sep);
      if s[0] == sep then [[]] + rest else [[s[0]] + rest[0]] + rest[1..]
  }

  function Join(parts: seq<string>, sep: char): string
    requires |parts| > 0
  {
    if |parts| == 1 then parts[0] else parts[0] + [sep] + Join(parts[1..], sep)
  }

  lemma {:induction false} SplitAtFirst(part: string, rest: string, sep: char)
    requires sep !in part
    ensures Split(part, sep) == [part]
    ensures Split(part + [sep] + rest, sep) == [part] + Split(rest, sep)
  {
    var s := part + [sep] + rest;
    if part == [] {
      assert s[1..] == rest;
    } else {
      SplitAtFirst(part[1..], rest, sep);
      assert s[1..] == part[1..] + [sep] + rest;
      assert [part[0]] + part[1..] == part;
    }
  }

  /** Splitting undoes joining when no part contains the separator. */
  lemma {:induction false} SplitJoin(parts: seq<string>, sep: char)
    requires |parts| > 0 && forall p <- parts :: sep !in p
    ensures Split(Join(parts, sep), sep) == parts
  {
    if |parts| == 1 {
      SplitAtFirst(parts[0], [], sep);
    } else {
      SplitAtFirst(parts[0], Join(parts[1..], sep), sep);
      SplitJoin(parts[1..], sep);
    }
  }

  /** A further character in front of parts. */
  function Prefixed(c: char, sep: char, parts: seq<string>): seq<string>
    requires parts != []
  {
    if c == sep then [[]] + parts else [[c] + parts[0]] + parts[1..]
  }

  lemma SplitStep(s: string, sep: char)
    requires s != []
    ensures Split(s, sep) == Prefixed(s[0], sep, Split(s[1..], sep))
  {}

  lemma PrefixedBoth(c: char, sep: char, parts: seq<string>, more: seq<string>)
    requires parts != []
    ensures Prefixed(c, sep, parts + more) == Prefixed(c, sep, parts) + more
  {
    assert (parts + more)[1..] == parts[1..] + more;
  }

  lemma PrefixedAppend(c: char, sep: char, parts: seq<string>, text: string)
    requires parts != []
    ensures Prefixed(c, sep, LastExtended(parts, text)) == LastExtended(Prefixed(c, sep, parts), text)
  {
    var n := |parts| - 1;
    if c != sep {
      if n == 0 {
        assert [c] + (parts[0] + text) == ([c] + parts[0]) + text;
      } else {
        assert LastExtended(parts, text)[1..] == parts[1..][..n - 1] + [parts[n] + text];
        assert Prefixed(c, sep, parts)[..n] == [[c] + parts[0]] + parts[1..][..n - 1];
      }
    }
  }

  function LastExtended(parts: seq<string>, text: string): (r: seq<string>)
    requires parts != []
    ensures r != []
  {
    parts[..|parts| - 1] + [parts[|parts| - 1] + text]
  }

  /** Splitting on both sides of a separator. */
  lemma {:induction false} SplitBoth(a: string, b: string, sep: char)
    ensures Split(a + [sep] + b, sep) == Split(a, sep) + Split(b, sep)
  {
    var s := a + [sep] + b;
    SplitStep(s, sep);
    if a == [] {
      assert s[1..] == b;
    } else {
      SplitBoth(a[1..], b, sep);
      assert s[1..] == a[1..] + [sep] + b;
      SplitStep(a, sep);
      PrefixedBoth(a[0], sep, Split(a[1..], sep), Split(b, sep));
      hide Split, Prefixed;
    }
  }

  /** Text without the separator joins the last part. */
  lemma {:induction false} SplitAppend(a: string, b: string, sep: char)
    requires sep !in b
    ensures Split(a + b, sep) == LastExtended(Split(a, sep), b)
  {
    if a == [] {
      assert a + b == b;
      SplitAtFirst(b, [], sep);
    } else {
      SplitAppend(a[1..], b, sep);
      assert (a + b)[1..] == a[1..] + b;
      SplitStep(a, sep);
      SplitStep(a + b, sep);
      PrefixedAppend(a[0], sep, Split(a[1..], sep), b);
      hide Split, Prefixed, LastExtended;
    }
  }

  /** Parts are made of the text's characters other than the separator. */
  lemma {:induction false} SplitChars(s: string, sep: char)
    ensures forall part <- Split(s, sep) :: sep !in part && forall c <- part :: c in s
  {
    if s != [] {
      SplitChars(s[1..], sep);
    }
  }

  lemma {:induction false} TrimChars(s: string)
    ensures forall c <- TrimSpace(s) :: c in s
  {
    TrimLeftChars(s);
    TrimRightChars(TrimLeft(s));
  }

  lemma {:induction false} TrimLeftChars(s: string)
    ensures forall c <- TrimLeft(s) :: c in s
  {
    if s != [] {
      TrimLeftChars(s[1..]);
    }
  }

  lemma {:induction false} TrimRightChars(s: string)
    ensures forall c <- TrimRight(s) :: c in s
  {
    if s != [] {
      TrimRightChars(s[..|s| - 1]);
    }
  }

  /** Joining undoes splitting: with SplitChars, this is all that splitting does. */
  lemma {:induction false} JoinSplit(s: string, sep: char)
    ensures Join(Split(s, sep), sep) == s
  {
    if s != [] {
      JoinSplit(s[1..], sep);
      var rest := Split(s[1..], sep);
      if s[0] == sep {
        assert ([[]] + rest)[1..] == rest;
      } else if |rest| > 1 {
        assert ([[s[0]] + rest[0]] + rest[1..])[1..] == rest[1..];
      }
      hide Split;
    }
  }

  // ----- decimal numbers

  predicate IsDigit(c: char) { '0' <= c <= '9' }

  function DigitChar(d: nat): char
    requires d < 10
  {
    ('0' as int + d) as char
  }

  function FormatNat(n: nat): (s: string)
    ensures s != [] && forall c <- s :: IsDigit(c)
  {
    if n < 10 then [DigitChar(n)] else FormatNat(n / 10) + [DigitChar(n % 10)]
  }

  /** strconv.FormatInt in base 10. */
  function FormatInt(n: int): (s: string)
    ensures s != [] && forall c <- s :: IsDigit(c) || c == '-'
  {
    if n < 0 then "-" + FormatNat(-n) else FormatNat(n)
  }

  function DigitsValue(s: string): nat
    requires forall c <- s :: IsDigit(c)
  {
    if s == [] then 0
    else
      assert IsDigit(s[|s| - 1]);
      10 * DigitsValue(s[..|s| - 1]) + (s[|s| - 1] as int - '0' as int)
  }

  function ParseDigits(s: string): Option<nat> {
    if s != [] && forall c <- s :: IsDigit(c) then Some(DigitsValue(s)) else None
  }

  /** strconv.ParseInt in base 10 and 64 bits (and strconv.Atoi on a 64-bit machine): an optional
      sign, at least one digit, and a value in range. */
  function ParseInt(s: string): Option<int64> {
    if s == [] then None
    else
      var negative := s[0] == '-';
      match ParseDigits(if negative || s[0] == '+' then s[1..] else s)
      case None => None
      case Some(magnitude) =>
        var n: int := if negative then 0 - magnitude else magnitude;
        if MIN_INT64 <= n <= MAX_INT64 then Some(n) else None
  }

  lemma {:induction false} DigitsOfFormat(n: nat)
    ensures DigitsValue(FormatNat(n)) == n
  {
    if n >= 10 {
      DigitsOfFormat(n / 10);
      var s := FormatNat(n);
      assert s[..|s| - 1] == FormatNat(n / 10);
    } else {
      assert [DigitChar(n)][..0] == [];
    }
  }

  lemma ParseFormatNat(n: nat)
    ensures ParseDigits(FormatNat(n)) == Some(n)
  {
    DigitsOfFormat(n);
  }

  lemma ParseSigned(digits: string, n: nat)
    requires ParseDigits(digits) == Some(n)
    ensures n <= MAX_INT64 ==> ParseInt(digits) == Some(n)
    ensures 0 - n >= MIN_INT64 ==> ParseInt("-" + digits) == Some(0 - n)
  {
    assert IsDigit(digits[0]);
    assert ("-" + digits)[1..] == digits;
  }

  /** Printing an int64 and parsing it back is the identity, minimum value included. */
  lemma ParseFormat(n: int64)
    ensures ParseInt(FormatInt(n)) == Some(n)
  {
    var magnitude: nat := if n < 0 then 0 - n else n;
    ParseFormatNat(magnitude);
    ParseSigned(FormatNat(magnitude), magnitude);
  }

  // ----- what decimals mean

  function PowerOfTen(n: nat): nat {
    if n == 0 then 1 else 10 * PowerOfTen(n - 1)
  }

  /** The value of digits by position, the first one counting most. */
  function Positional(s: string): nat
    requires forall c <- s :: IsDigit(c)
  {
    if s == [] then 0
    else
      assert IsDigit(s[0]);
      (s[0] as int - 48) * PowerOfTen(|s| - 1) + Positional(s[1..])
  }

  lemma PositionalHead(s: string)
    requires s != [] && forall c <- s :: IsDigit(c)
    ensures IsDigit(s[0])
    ensures Positional(s) == (s[0] as int - 48) * PowerOfTen(|s| - 1) + Positional(s[1..])
  {
    assert IsDigit(s[0]);
  }

  lemma Shift(d: nat, power: nat, rest: nat, last: int)
    ensures d * (10 * power) + (10 * rest + last) == 10 * (d * power + rest) + last
  {}

  lemma {:induction false} PositionalLast(s: string)
    requires s != [] && forall c <- s :: IsDigit(c)
    ensures IsDigit(s[|s| - 1])
    ensures Positional(s) == 10 * Positional(s[..|s| - 1]) + (s[|s| - 1] as int - 48)
  {
    var n := |s| - 1;
    PositionalHead(s);
    assert IsDigit(s[n]);
    if n == 0 {
      assert s[1..] == [] && s[..0] == [];
    } else {
      PositionalLast(s[1..]);
      PositionalHead(s[..n]);
      assert s[1..][..n - 1] == s[..n][1..] && s[..n][0] == s[0];
      assert PowerOfTen(n) == 10 * PowerOfTen(n - 1);
      hide Positional, PowerOfTen;
      Shift(s[0] as int - 48, PowerOfTen(n - 1), Positional(s[..n][1..]), s[n] as int - 48);
    }
  }

  lemma {:induction false} ValueIsPositional(s: string)
    requires forall c <- s :: IsDigit(c)
    ensures DigitsValue(s) == Positional(s)
  {
    if s != [] {
      ValueIsPositional(s[..|s| - 1]);
      PositionalLast(s);
    }
  }

  /** A sign or none, then digits, that say n. */
  ghost predicate Denotes(sign: string, digits: string, n: int) {
    && sign in ["", "+", "-"] && digits != [] && (forall c <- digits :: IsDigit(c))
    && n == if sign == "-" then 0 - Positional(digits) else Positional(digits)
  }

  lemma ParsedDenotes(s: string, n: int64) returns (sign: string, digits: string)
    requires ParseInt(s) == Some(n)
    ensures s == sign + digits && Denotes(sign, digits, n)
  {
    hide DigitsValue, Positional;
    var cut := if s[0] == '-' || s[0] == '+' then 1 else 0;
    sign, digits := s[..cut], s[cut..];
    assert digits == if cut == 1 then s[1..] else s;
    ValueIsPositional(digits);
    assert sign == if s[0] == '-' then "-" else if s[0] == '+' then "+" else "";
    assert ParseDigits(digits) == Some(Positional(digits));
  }

  lemma DenotedParses(sign: string, digits: string, n: int64)
    requires Denotes(sign, digits, n)
    ensures ParseInt(sign + digits) == Some(n)
  {
    hide DigitsValue, Positional;
    ValueIsPositional(digits);
    assert IsDigit(digits[0]) && sign in ["", "+", "-"];
    assert ParseDigits(digits) == Some(Positional(digits));
    var s := sign + digits;
    if sign == "" {
      assert s == digits;
    } else {
      assert s[0] == sign[0] && s[1..] == digits;
    }
  }

  /** A text parses to n exactly when it is a decimal of n, with a sign or none. */
  lemma ParseIntExactly(s: string, n: int64)
    ensures ParseInt(s) == Some(n) <==> exists sign, digits :: s == sign + digits && Denotes(sign, digits, n)
  {
    hide ParseInt, Denotes;
    if ParseInt(s) == Some(n) {
      var sign, digits := ParsedDenotes(s, n);
    }
    if sign, digits :| s == sign + digits && Denotes(sign, digits, n) {
      DenotedParses(sign, digits, n);
    }
  }

  lemma {:induction false} FormatNatLeads(n: nat)
    ensures FormatNat(n)[0] == '0' <==> n == 0
  {
    if n >= 10 {
      FormatNatLeads(n / 10);
    }
  }

  /** The printed decimal is the shortest one: no leading zero, and a sign only for negative numbers. */
  lemma FormatIsShortest(n: int64)
    ensures FormatInt(n)[0] == '0' <==> n == 0
    ensures FormatInt(n)[0] == '-' <==> n < 0
    ensures n < 0 ==> |FormatInt(n)| > 1 && FormatInt(n)[1] != '0'
  {
    var magnitude: nat := if n < 0 then 0 - n else n;
    FormatNatLeads(magnitude);
    assert IsDigit(FormatNat(magnitude)[0]);
  }
}
