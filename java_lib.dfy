/** The Java library operations the process manager relies on, stated over
    `string` (a `seq<char>`) and `int`: `String.trim`, `String.split("\\s+")`,
    `Integer.parseInt`, `String.valueOf(int)`, `toLowerCase`,
    `equalsIgnoreCase`, `String.contains` and `List.remove(Object)`.
    Case mapping is the ASCII one. */
module JavaLib {
  import opened Wrappers

  const MIN_INT: int := -0x8000_0000
  const MAX_INT: int := 0x7FFF_FFFF

  /** A value a Java `int` can hold. */
  predicate InIntRange(n: int) {
    MIN_INT <= n <= MAX_INT
  }

  // ---------------------------------------------------------------------
  // String.trim(): strips every leading and trailing char at or below U+0020

  predicate IsTrimmable(c: char) {
    c <= ' '
  }

  /** A string that `trim` leaves as it is. */
  predicate Trimmed(s: string) {
    s == [] || (!IsTrimmable(s[0]) && !IsTrimmable(s[|s| - 1]))
  }

  /** Number of trimmable chars at the start of `s`. */
  function LeadingTrimmable(s: string): (n: nat)
    ensures n <= |s|
    ensures forall k :: 0 <= k < n ==> IsTrimmable(s[k])
    ensures n < |s| ==> !IsTrimmable(s[n])
  {
    if s != [] && IsTrimmable(s[0]) then 1 + LeadingTrimmable(s[1..]) else 0
  }

  /** Number of trimmable chars at the end of `s`. */
  function TrailingTrimmable(s: string): (n: nat)
    ensures n <= |s|
    ensures forall k :: |s| - n <= k < |s| ==> IsTrimmable(s[k])
    ensures n < |s| ==> !IsTrimmable(s[|s| - 1 - n])
  {
    if s != [] && IsTrimmable(s[|s| - 1]) then 1 + TrailingTrimmable(s[..|s| - 1]) else 0
  }

  /** `s.trim()`: the slice of `s` left after dropping the trimmable chars at
      both ends. */
  function Trim(s: string): (r: string)
    ensures Trimmed(r)
    ensures LeadingTrimmable(s) + |r| <= |s|
    ensures r == s[LeadingTrimmable(s)..LeadingTrimmable(s) + |r|]
    ensures forall k :: LeadingTrimmable(s) + |r| <= k < |s| ==> IsTrimmable(s[k])
  {
    var n := LeadingTrimmable(s);
    var t := s[n..];
    var m := TrailingTrimmable(t);
    var r := t[..|t| - m];
    assert r == s[n..n + |r|];
    assert forall k :: n + |r| <= k < |s| ==> s[k] == t[k - n];
    assert r != [] ==> r[0] == s[n] && r[|r| - 1] == t[|t| - 1 - m];
    r
  }

  /** A non-empty string with no char that `trim` would strip. */
  predicate Visible(s: string) {
    s != [] && forall k :: 0 <= k < |s| ==> !IsTrimmable(s[k])
  }

  // ---------------------------------------------------------------------
  // String.split("\\s+") on a trimmed string

  /** The chars the regular expression class `\s` matches. */
  predicate IsSpace(c: char) {
    c == ' ' || c == '\t' || c == '\n' || c == '\U{000B}' || c == '\U{000C}' || c == '\r'
  }

  predicate NoSpace(s: string) {
    forall k :: 0 <= k < |s| ==> !IsSpace(s[k])
  }

  /** Length of the run of non-space chars that starts `s`. */
  function RunLength(s: string): (n: nat)
    ensures n <= |s|
    ensures forall k :: 0 <= k < n ==> !IsSpace(s[k])
    ensures n < |s| ==> IsSpace(s[n])
  {
    if s == [] || IsSpace(s[0]) then 0 else 1 + RunLength(s[1..])
  }

  /** `RunLength` is the length of the leading run of non-space chars. */
  lemma {:induction false} RunLengthIs(s: string, n: nat)
    requires n <= |s|
    requires forall k :: 0 <= k < n ==> !IsSpace(s[k])
    requires n == |s| || IsSpace(s[n])
    ensures RunLength(s) == n
  {
    if n > 0 {
      RunLengthIs(s[1..], n - 1);
    }
  }

  /** The maximal runs of non-space chars of `s`, left to right. */
  function Tokens(s: string): (r: seq<string>)
    ensures forall k :: 0 <= k < |r| ==> r[k] != [] && NoSpace(r[k])
    decreases |s|
  {
    if s == [] then []
    else if IsSpace(s[0]) then Tokens(s[1..])
    else
      var n := RunLength(s);
      [s[..n]] + Tokens(s[n..])
  }

  /** A string that starts with a space-free word followed by a space (or by
      nothing) splits into that word and the tokens of the rest. */
  lemma TokensStartingWith(s: string, word: string)
    requires word != [] && NoSpace(word)
    requires |word| <= |s| && s[..|word|] == word
    requires |s| > |word| ==> IsSpace(s[|word|])
    ensures Tokens(s) == [word] + Tokens(s[|word|..])
  {
    assert forall k :: 0 <= k < |word| ==> s[k] == word[k];
    RunLengthIs(s, |word|);
  }

  /** `t.split("\\s+")` for a `t` with no space at either end: no separator can
      then produce an empty leading or trailing piece, and the only empty
      piece is the one Java returns for the empty string. */
  function SplitOnSpaces(t: string): (parts: seq<string>)
    requires Trimmed(t)
    ensures |parts| >= 1
    ensures t == [] ==> parts == [[]]
    ensures t != [] ==> forall k :: 0 <= k < |parts| ==> parts[k] != [] && NoSpace(parts[k])
  {
    if t == [] then [[]]
    else
      assert !IsSpace(t[0]);
      Tokens(t)
  }

  /** `s` with every space char removed. */
  function RemoveSpaces(s: string): string {
    if s == [] then [] else (if IsSpace(s[0]) then [] else [s[0]]) + RemoveSpaces(s[1..])
  }

  function Concat(parts: seq<string>): string {
    if parts == [] then [] else parts[0] + Concat(parts[1..])
  }

  lemma {:induction false} RemoveSpacesAfterRun(s: string, n: nat)
    requires n <= |s|
    requires forall k :: 0 <= k < n ==> !IsSpace(s[k])
    ensures RemoveSpaces(s) == s[..n] + RemoveSpaces(s[n..])
  {
    if n > 0 {
      RemoveSpacesAfterRun(s[1..], n - 1);
      assert s[1..][..n - 1] == s[1..n];
      assert s[1..][n - 1..] == s[n..];
      assert s[..n] == [s[0]] + s[1..n];
    }
  }

  /** No char is lost or invented by splitting: the tokens, joined, are the
      non-space chars of `s` in their order. */
  lemma {:induction false} TokensKeepEveryNonSpaceChar(s: string)
    ensures Concat(Tokens(s)) == RemoveSpaces(s)
    decreases |s|
  {
    if s == [] {
    } else if IsSpace(s[0]) {
      TokensKeepEveryNonSpaceChar(s[1..]);
    } else {
      var n := RunLength(s);
      TokensKeepEveryNonSpaceChar(s[n..]);
      RemoveSpacesAfterRun(s, n);
      assert Tokens(s) == [s[..n]] + Tokens(s[n..]);
      assert ([s[..n]] + Tokens(s[n..]))[1..] == Tokens(s[n..]);
    }
  }

  // ---------------------------------------------------------------------
  // Integer.parseInt(s) and String.valueOf(int)

  predicate IsDigit(c: char) {
    '0' <= c <= '9'
  }

  predicate AllDigits(s: string) {
    forall k :: 0 <= k < |s| ==> IsDigit(s[k])
  }

  function DigitValue(c: char): (d: nat)
    requires IsDigit(c)
    ensures d < 10
  {
    c as int - '0' as int
  }

  function DigitChar(d: nat): (c: char)
    requires d < 10
    ensures IsDigit(c) && DigitValue(c) == d
  {
    ('0' as int + d) as char
  }

  /** The value of a decimal digit string, most significant digit first. */
  function DigitsValue(s: string): nat
    requires AllDigits(s)
  {
    if s == [] then 0 else 10 * DigitsValue(s[..|s| - 1]) + DigitValue(s[|s| - 1])
  }

  /** The text after an optional leading `-` or `+`. */
  function Unsigned(s: string): string {
    if s != [] && (s[0] == '-' || s[0] == '+') then s[1..] else s
  }

  /** The texts `parseInt` reads as a number before the range check: an
      optional sign followed by one or more ASCII digits. */
  predicate IsNumeral(s: string) {
    Unsigned(s) != [] && AllDigits(Unsigned(s))
  }

  /** The value of a numeral, with unbounded precision. */
  function NumeralValue(s: string): int
    requires IsNumeral(s)
  {
    if s[0] == '-' then -(DigitsValue(Unsigned(s)) as int) else DigitsValue(Unsigned(s))
  }

  /** `Integer.parseInt(s)`; `None` where Java throws `NumberFormatException`.
      A text that parses gives an `int`; a sign may only come first, every
      other char is a digit, and there is at least one digit. */
  function ParseInt(s: string): (r: Option<int>)
    ensures r.Some? ==> InIntRange(r.value)
    ensures r.Some? ==> s != [] && (IsDigit(s[0]) || s[0] == '-' || s[0] == '+')
    ensures r.Some? ==> IsDigit(s[|s| - 1]) && forall k :: 1 <= k < |s| ==> IsDigit(s[k])
  {
    if IsNumeral(s) && InIntRange(NumeralValue(s)) then
      var digits := Unsigned(s);
      assert forall k :: 1 <= k < |s| ==> s[k] == digits[k - |s| + |digits|];
      Some(NumeralValue(s))
    else None
  }

  /** A text parses exactly when it is a numeral whose value fits an `int`,
      and it then parses to that value. */
  lemma ParseIntIffNumeral(s: string)
    ensures ParseInt(s).Some? <==> IsNumeral(s) && InIntRange(NumeralValue(s))
    ensures ParseInt(s).Some? ==> ParseInt(s).value == NumeralValue(s)
  {
  }

  /** A numeral in range parses to its value. */
  lemma ParseIntOfNumeral(s: string)
    requires IsNumeral(s) && InIntRange(NumeralValue(s))
    ensures ParseInt(s) == Some(NumeralValue(s))
  {
    ParseIntIffNumeral(s);
  }

  /** The decimal digits of `n`, without leading zeros. */
  function NatToString(n: nat): (r: string)
    ensures r != [] && AllDigits(r)
    ensures r[0] == '0' ==> n == 0
  {
    if n < 10 then [DigitChar(n)] else NatToString(n / 10) + [DigitChar(n % 10)]
  }

  /** `String.valueOf(n)`: a minus sign exactly for negatives, then the
      digits; no char of it is one that `trim` strips or `split` splits at. */
  function IntToString(n: int): (r: string)
    ensures Visible(r)
    ensures r[0] == '-' <==> n < 0
    ensures n >= 0 ==> AllDigits(r)
    ensures n < 0 ==> AllDigits(r[1..])
  {
    if n < 0 then
      var digits := NatToString(-n);
      assert ("-" + digits)[1..] == digits;
      "-" + digits
    else NatToString(n)
  }

  lemma {:induction false} NatToStringValue(n: nat)
    ensures DigitsValue(NatToString(n)) == n
  {
    if n >= 10 {
      NatToStringValue(n / 10);
      var s := NatToString(n);
      assert s[..|s| - 1] == NatToString(n / 10);
    }
  }

  /** `valueOf` prints a numeral whose value is the number printed. */
  lemma IntToStringIsNumeral(n: int)
    ensures IsNumeral(IntToString(n)) && NumeralValue(IntToString(n)) == n
  {
    var s := IntToString(n);
    if n < 0 {
      var digits := NatToString(-n);
      NatToStringValue(-n);
      assert s == "-" + digits;
      assert s[0] == '-' && s[1..] == digits;
    } else {
      var digits := NatToString(n);
      NatToStringValue(n);
      assert s == digits && IsDigit(s[0]);
    }
  }

  /** `Integer.parseInt(String.valueOf(n)) == n` for every Java `int`. */
  lemma ParseIntOfIntToString(n: int)
    requires InIntRange(n)
    ensures ParseInt(IntToString(n)) == Some(n)
  {
    IntToStringIsNumeral(n);
    ParseIntOfNumeral(IntToString(n));
  }

  /** The text of a number outside the `int` range makes `parseInt` throw. */
  lemma ParseIntOutOfRange(n: int)
    requires !InIntRange(n)
    ensures ParseInt(IntToString(n)) == None
  {
    IntToStringIsNumeral(n);
    ParseIntIffNumeral(IntToString(n));
  }

  predicate AllZeros(s: string) {
    forall k :: 0 <= k < |s| ==> s[k] == '0'
  }

  /** Leading zeros add nothing to the value of a digit string. */
  lemma {:induction false} LeadingZerosValue(zeros: string, digits: string)
    requires AllZeros(zeros) && AllDigits(digits)
    ensures AllDigits(zeros + digits) && DigitsValue(zeros + digits) == DigitsValue(digits)
    decreases |zeros| + |digits|
  {
    var s := zeros + digits;
    assert AllDigits(s) by {
      forall k | 0 <= k < |s| ensures IsDigit(s[k]) {
        if k < |zeros| { assert s[k] == zeros[k]; } else { assert s[k] == digits[k - |zeros|]; }
      }
    }
    if digits == [] {
      assert s == zeros;
      if zeros != [] {
        LeadingZerosValue(zeros[..|zeros| - 1], []);
        assert zeros[..|zeros| - 1] + [] == s[..|s| - 1];
      }
    } else {
      var init := digits[..|digits| - 1];
      LeadingZerosValue(zeros, init);
      assert s[..|s| - 1] == zeros + init;
      assert s[|s| - 1] == digits[|digits| - 1];
    }
  }

  /** `parseInt` reads texts that `valueOf` never prints: leading zeros do
      not change the value, */
  lemma ParseIntLeadingZeros(zeros: string, m: nat)
    requires AllZeros(zeros) && m <= MAX_INT
    ensures ParseInt(zeros + NatToString(m)) == Some(m)
  {
    var digits := NatToString(m);
    NatToStringValue(m);
    LeadingZerosValue(zeros, digits);
    var plain := zeros + digits;
    assert IsDigit(plain[0]);
    assert Unsigned(plain) == plain;
    assert NumeralValue(plain) == DigitsValue(plain) == m;
    ParseIntOfNumeral(plain);
  }

  /** nor does a `+` before them, */
  lemma ParseIntPlusSign(zeros: string, m: nat)
    requires AllZeros(zeros) && m <= MAX_INT
    ensures ParseInt("+" + zeros + NatToString(m)) == Some(m)
  {
    var digits := NatToString(m);
    NatToStringValue(m);
    LeadingZerosValue(zeros, digits);
    var s := "+" + zeros + digits;
    assert s[0] == '+' && s[1..] == zeros + digits;
    assert Unsigned(s) == zeros + digits;
    assert NumeralValue(s) == DigitsValue(zeros + digits) == m;
    ParseIntOfNumeral(s);
  }

  /** and a `-` negates, down to `MIN_INT` (so `-0` is zero). */
  lemma ParseIntMinusSign(zeros: string, m: nat)
    requires AllZeros(zeros) && m <= -MIN_INT
    ensures ParseInt("-" + zeros + NatToString(m)) == Some(-(m as int))
  {
    var digits := NatToString(m);
    NatToStringValue(m);
    LeadingZerosValue(zeros, digits);
    var s := "-" + zeros + digits;
    assert s[0] == '-' && s[1..] == zeros + digits;
    assert Unsigned(s) == zeros + digits;
    assert NumeralValue(s) == -(DigitsValue(zeros + digits) as int) == -(m as int);
    ParseIntOfNumeral(s);
  }

  /** A few texts as `parseInt` reads them. */
  lemma ParseIntSamples()
    ensures ParseInt("+7") == Some(7)
    ensures ParseInt("007") == Some(7)
    ensures ParseInt("-0") == Some(0)
    ensures ParseInt("1a") == None
    ensures ParseInt("-") == None
    ensures ParseInt("") == None
  {
    assert NatToString(7) == "7";
    assert NatToString(0) == "0";
    ParseIntPlusSign("", 7);
    assert "+" + "" + "7" == "+7";
    ParseIntLeadingZeros("00", 7);
    assert "00" + "7" == "007";
    ParseIntMinusSign("", 0);
    assert "-" + "" + "0" == "-0";
    assert !IsDigit("1a"[1]);
    assert Unsigned("-") == [];
  }

  // ---------------------------------------------------------------------
  // toLowerCase, equalsIgnoreCase, contains

  function LowerChar(c: char): char {
    if 'A' <= c <= 'Z' then (c as int + 32) as char else c
  }

  function UpperChar(c: char): char {
    if 'a' <= c <= 'z' then (c as int - 32) as char else c
  }

  /** `s.toLowerCase()`: the same length, no upper-case letter left, and
      each char equal to the original one ignoring case. */
  function ToLower(s: string): (r: string)
    ensures |r| == |s|
    ensures forall k :: 0 <= k < |r| ==> !('A' <= r[k] <= 'Z')
    ensures forall k :: 0 <= k < |r| ==> CharsEqualIgnoreCase(r[k], s[k])
  {
    seq(|s|, k requires 0 <= k < |s| => LowerChar(s[k]))
  }

  /** Lower-casing twice is lower-casing once. */
  lemma ToLowerIdempotent(s: string)
    ensures ToLower(ToLower(s)) == ToLower(s)
  {
    var once := ToLower(s);
    assert forall k :: 0 <= k < |once| ==> ToLower(once)[k] == LowerChar(once[k]) == once[k];
  }

  /** The per-char test of `String.equalsIgnoreCase`. */
  predicate CharsEqualIgnoreCase(a: char, b: char) {
    a == b || UpperChar(a) == UpperChar(b) || LowerChar(a) == LowerChar(b)
  }

  /** `a.equalsIgnoreCase(b)`: equal lengths and every pair of chars equal
      ignoring case; every string equals itself ignoring case. */
  predicate EqualsIgnoreCase(a: string, b: string): (r: bool)
    ensures a == b ==> r
  {
    |a| == |b| && forall k :: 0 <= k < |a| ==> CharsEqualIgnoreCase(a[k], b[k])
  }

  /** `equalsIgnoreCase` holds exactly when both strings lower-case alike. */
  lemma EqualsIgnoreCaseIffSameLower(a: string, b: string)
    ensures EqualsIgnoreCase(a, b) <==> ToLower(a) == ToLower(b)
  {
    if |a| == |b| {
      forall k | 0 <= k < |a|
        ensures CharsEqualIgnoreCase(a[k], b[k]) <==> ToLower(a)[k] == ToLower(b)[k]
      {
      }
      if ToLower(a) == ToLower(b) {
        assert forall k :: 0 <= k < |a| ==> ToLower(a)[k] == ToLower(b)[k];
      }
    }
  }

  predicate StartsWith(s: string, prefix: string) {
    |prefix| <= |s| && s[..|prefix|] == prefix
  }

  /** `s.contains(sub)`, scanning the start positions left to right. The
      empty string and every prefix are contained; nothing longer than `s` is. */
  predicate Contains(s: string, sub: string): (r: bool)
    ensures sub == [] ==> r
    ensures StartsWith(s, sub) ==> r
    ensures r ==> |sub| <= |s|
    decreases |s|
  {
    StartsWith(s, sub) || (s != [] && Contains(s[1..], sub))
  }

  /** `sub` occurs in `s` starting at index `i`. */
  predicate OccursAt(s: string, sub: string, i: int) {
    0 <= i && i + |sub| <= |s| && s[i..i + |sub|] == sub
  }

  /** The scan agrees with the definition of a substring by position. */
  lemma {:induction false} ContainsIffOccurs(s: string, sub: string)
    ensures Contains(s, sub) <==> exists i :: OccursAt(s, sub, i)
    decreases |s|
  {
    if s != [] {
      ContainsIffOccurs(s[1..], sub);
      if exists i :: OccursAt(s[1..], sub, i) {
        var i :| OccursAt(s[1..], sub, i);
        assert s[1..][i..i + |sub|] == s[i + 1..i + 1 + |sub|];
        assert OccursAt(s, sub, i + 1);
      }
      if exists i :: OccursAt(s, sub, i) {
        var i :| OccursAt(s, sub, i);
        if i > 0 {
          assert s[1..][i - 1..i - 1 + |sub|] == s[i..i + |sub|];
          assert OccursAt(s[1..], sub, i - 1);
        } else {
          assert StartsWith(s, sub);
        }
      }
      if StartsWith(s, sub) {
        assert OccursAt(s, sub, 0);
      }
    } else {
      if exists i :: OccursAt(s, sub, i) {
        var i :| OccursAt(s, sub, i);
        assert sub == [];
        assert StartsWith(s, sub);
      }
      if Contains(s, sub) {
        assert OccursAt(s, sub, 0);
      }
    }
  }

  // ---------------------------------------------------------------------
  // List.indexOf(Object) and List.remove(Object)

  /** `xs.indexOf(x)`: the first index holding `x`, or -1. */
  function IndexOf<T(==)>(xs: seq<T>, x: T): (i: int)
    ensures -1 <= i < |xs|
    ensures i >= 0 ==> xs[i] == x && forall k :: 0 <= k < i ==> xs[k] != x
    ensures i == -1 ==> x !in xs
  {
    if xs == [] then -1
    else if xs[0] == x then 0
    else
      var j := IndexOf(xs[1..], x);
      if j < 0 then -1 else j + 1
  }

  /** `xs.remove(x)`: drops the first element equal to `x`, if any. */
  function Remove<T(==)>(xs: seq<T>, x: T): (r: seq<T>)
    ensures x !in xs ==> r == xs
    ensures x in xs ==> |r| == |xs| - 1
    ensures multiset(r) == multiset(xs) - multiset{x}
    ensures forall y :: y in r ==> y in xs
  {
    var i := IndexOf(xs, x);
    if i < 0 then xs
    else
      assert xs == xs[..i] + [x] + xs[i + 1..];
      xs[..i] + xs[i + 1..]
  }

  /** Removal keeps the order of the rest: everything before the first `x`
      stays in place and everything after it moves up by one. */
  lemma RemoveKeepsOrder<T>(xs: seq<T>, x: T)
    requires x in xs
    ensures var i := IndexOf(xs, x);
      |Remove(xs, x)| == |xs| - 1 &&
      (forall k :: 0 <= k < i ==> Remove(xs, x)[k] == xs[k]) &&
      (forall k :: i <= k < |xs| - 1 ==> Remove(xs, x)[k] == xs[k + 1])
  {
    var i := IndexOf(xs, x);
    var r := Remove(xs, x);
    assert r == xs[..i] + xs[i + 1..];
    assert forall k :: 0 <= k < i ==> r[k] == xs[..i][k];
    assert forall k :: i <= k < |xs| - 1 ==> r[k] == xs[i + 1..][k - i];
  }
}
