/**
 * The parts of Python's `str` that the scraper relies on: `strip`, `lower`,
 * `upper`, `replace` of one character, `"sep".join`, splitting on one
 * character, and decimal digits. Case mapping covers ASCII letters only.
 */
module Text {

  /** Python's `str.isspace` (and the `\s` class of `re` on strings). */
  predicate IsSpace(c: char) {
    var n := c as int;
    (9 <= n <= 13) || (28 <= n <= 32) || n == 0x85 || n == 0xA0 || n == 0x1680
    || (0x2000 <= n <= 0x200A) || n == 0x2028 || n == 0x2029 || n == 0x202F
    || n == 0x205F || n == 0x3000
  }

  predicate IsDigit(c: char) {
    '0' <= c <= '9'
  }

  function DigitValue(c: char): (d: nat)
    requires IsDigit(c)
    ensures d < 10
  {
    (c as int) - ('0' as int)
  }

  function DigitChar(d: nat): (c: char)
    requires d < 10
    ensures IsDigit(c) && DigitValue(c) == d
  {
    (('0' as int) + d) as char
  }

  predicate IsUpperAscii(c: char) {
    'A' <= c <= 'Z'
  }

  predicate IsLowerAscii(c: char) {
    'a' <= c <= 'z'
  }

  /** The `\w` class of `re`, restricted to ASCII: letters, digits and underscore. */
  predicate IsWordChar(c: char) {
    IsUpperAscii(c) || IsLowerAscii(c) || IsDigit(c) || c == '_'
  }

  function LowerChar(c: char): char {
    if IsUpperAscii(c) then ((c as int) + 32) as char else c
  }

  function UpperChar(c: char): char {
    if IsLowerAscii(c) then ((c as int) - 32) as char else c
  }

  /** `s.lower()` */
  function Lower(s: string): (r: string)
    ensures |r| == |s|
    ensures forall i :: 0 <= i < |s| ==> r[i] == LowerChar(s[i])
  {
    seq(|s|, i requires 0 <= i < |s| => LowerChar(s[i]))
  }

  /** `s.upper()` */
  function Upper(s: string): (r: string)
    ensures |r| == |s|
    ensures forall i :: 0 <= i < |s| ==> r[i] == UpperChar(s[i])
  {
    seq(|s|, i requires 0 <= i < |s| => UpperChar(s[i]))
  }

  /** `s.lstrip()`: what is left after the leading whitespace. */
  function TrimStart(s: string): (r: string)
    ensures |r| <= |s| && r == s[|s| - |r|..]
    ensures r == [] || !IsSpace(r[0])
    ensures forall i :: 0 <= i < |s| - |r| ==> IsSpace(s[i])
  {
    if |s| > 0 && IsSpace(s[0]) then TrimStart(s[1..]) else s
  }

  /** One space before text that does not start with whitespace is all `lstrip()` removes. */
  lemma TrimStartOneSpace(t: string)
    requires t == [] || !IsSpace(t[0])
    ensures TrimStart(" " + t) == t
  {
    var u := " " + t;
    assert u[1..] == t;
    TrimStartSkip(u);
    TrimStartNoop(t);
  }

  lemma TrimStartSkip(u: string)
    requires |u| > 0 && IsSpace(u[0])
    ensures TrimStart(u) == TrimStart(u[1..])
  {
  }

  lemma TrimStartNoop(t: string)
    requires t == [] || !IsSpace(t[0])
    ensures TrimStart(t) == t
  {
  }

  /** The pieces of `name + " " + t`. */
  lemma PrefixSpaceRest(name: string, t: string)
    ensures (name + " " + t)[..|name|] == name
    ensures (name + " " + t)[|name|] == ' '
    ensures (name + " " + t)[|name|..] == " " + t
    ensures (name + " " + t)[|name| + 1..] == t
  {
  }

  /** `s.rstrip()`: what is left before the trailing whitespace. */
  function TrimEnd(s: string): (r: string)
    ensures |r| <= |s| && r == s[..|r|]
    ensures r == [] || !IsSpace(r[|r| - 1])
    ensures forall i :: |r| <= i < |s| ==> IsSpace(s[i])
  {
    if |s| > 0 && IsSpace(s[|s| - 1]) then TrimEnd(s[..|s| - 1]) else s
  }

  /** How many whitespace characters `lstrip()` removes from the front of `s`. */
  function LeadingSpace(s: string): (n: nat)
    ensures n <= |s|
  {
    |s| - |TrimStart(s)|
  }

  /** `s.strip()` */
  function Strip(s: string): (r: string)
    ensures r == [] || (!IsSpace(r[0]) && !IsSpace(r[|r| - 1]))
    ensures |r| <= |s|
  {
    TrimEnd(TrimStart(s))
  }

  /**
   * `strip()` removes the whitespace at both ends and nothing else: its
   * result is the slice of `s` that starts after the leading whitespace,
   * and everything before and after that slice is whitespace.
   */
  lemma StripSlice(s: string)
    ensures LeadingSpace(s) + |Strip(s)| <= |s|
    ensures forall k :: 0 <= k < |Strip(s)| ==> Strip(s)[k] == s[LeadingSpace(s) + k]
    ensures forall k :: 0 <= k < LeadingSpace(s) ==> IsSpace(s[k])
    ensures forall k :: LeadingSpace(s) + |Strip(s)| <= k < |s| ==> IsSpace(s[k])
  {
    TrimBoth(s);
    TrimBothAfter(s);
  }

  lemma TrimBoth(s: string)
    ensures LeadingSpace(s) + |TrimEnd(TrimStart(s))| <= |s|
    ensures forall k :: 0 <= k < |TrimEnd(TrimStart(s))| ==> TrimEnd(TrimStart(s))[k] == s[LeadingSpace(s) + k]
  {
    var t := TrimStart(s);
    TrimChars(s, t, TrimEnd(t), LeadingSpace(s));
  }

  /** A prefix of the suffix of `s` from `i` on holds the characters of `s` from `i`. */
  lemma TrimChars(s: string, t: string, r: string, i: nat)
    requires i <= |s| && t == s[i..] && |r| <= |t| && r == t[..|r|]
    ensures i + |r| <= |s|
    ensures forall k :: 0 <= k < |r| ==> r[k] == s[i + k]
  {
  }

  /** What follows that slice is whitespace. */
  lemma TrimBothAfter(s: string)
    ensures forall k :: LeadingSpace(s) + |TrimEnd(TrimStart(s))| <= k < |s| ==> IsSpace(s[k])
  {
    var t := TrimStart(s);
    var r := TrimEnd(t);
    var i := |s| - |t|;
    forall k | i + |r| <= k < |s|
      ensures IsSpace(s[k])
    {
      assert s[k] == t[k - i];
    }
  }

  /** A string with no whitespace at either end is its own `strip()`. */
  lemma StripNoop(s: string)
    requires s == [] || (!IsSpace(s[0]) && !IsSpace(s[|s| - 1]))
    ensures Strip(s) == s
  {
  }

  /** Stripping twice is stripping once. */
  lemma StripIdempotent(s: string)
    ensures Strip(Strip(s)) == Strip(s)
  {
    StripNoop(Strip(s));
  }

  predicate NoLower(s: string) {
    forall i :: 0 <= i < |s| ==> !IsLowerAscii(s[i])
  }

  /** A string with no lower-case ASCII letter is its own `upper()`. */
  lemma UpperNoop(s: string)
    requires NoLower(s)
    ensures Upper(s) == s
  {
  }

  lemma NoLowerConcat(a: string, b: string)
    requires NoLower(a) && NoLower(b)
    ensures NoLower(a + b)
  {
    var s := a + b;
    forall i | 0 <= i < |s|
      ensures !IsLowerAscii(s[i])
    {
      if i < |a| {
        assert s[i] == a[i];
      } else {
        assert s[i] == b[i - |a|];
      }
    }
  }

  /** `s.upper().lower() == s.lower()` on ASCII letters. */
  lemma LowerOfUpper(s: string)
    ensures Lower(Upper(s)) == Lower(s)
  {
    forall i | 0 <= i < |s|
      ensures Lower(Upper(s))[i] == Lower(s)[i]
    {
      assert LowerChar(UpperChar(s[i])) == LowerChar(s[i]);
    }
  }

  lemma DigitsNoLower(s: string)
    requires AllDigits(s)
    ensures NoLower(s)
  {
  }

  /** `s.replace(a, b)` for one-character `a` and `b`. */
  function ReplaceChar(s: string, a: char, b: char): (r: string)
    ensures |r| == |s|
    ensures forall i :: 0 <= i < |s| ==> r[i] == (if s[i] == a then b else s[i])
  {
    seq(|s|, i requires 0 <= i < |s| => if s[i] == a then b else s[i])
  }

  /** The index of the first `c` in `s`, or `|s|` when there is none. */
  function IndexOf(s: string, c: char): (i: nat)
    ensures i <= |s|
    ensures i < |s| ==> s[i] == c
    ensures forall k :: 0 <= k < i ==> s[k] != c
  {
    if |s| == 0 then 0 else if s[0] == c then 0 else 1 + IndexOf(s[1..], c)
  }

  /** The index of the first whitespace character in `s`, or `|s|`. */
  function IndexOfSpace(s: string): (i: nat)
    ensures i <= |s|
    ensures i < |s| ==> IsSpace(s[i])
    ensures forall k :: 0 <= k < i ==> !IsSpace(s[k])
  {
    if |s| == 0 then 0 else if IsSpace(s[0]) then 0 else 1 + IndexOfSpace(s[1..])
  }

  /** Text without whitespace, then a space: the first whitespace is that space. */
  lemma IndexOfSpaceAfter(a: string, b: string)
    requires forall i :: 0 <= i < |a| ==> !IsSpace(a[i])
    ensures IndexOfSpace(a + " " + b) == |a|
  {
    var s := a + " " + b;
    assert s[|a|] == ' ';
  }

  lemma IndexOfSpaceAbsent(a: string)
    requires forall i :: 0 <= i < |a| ==> !IsSpace(a[i])
    ensures IndexOfSpace(a) == |a|
  {
  }

  /** `s.split(sep)` for a one-character separator: every occurrence splits, empty parts are kept. */
  function SplitOn(s: string, sep: char): (parts: seq<string>)
    ensures |parts| >= 1
    ensures forall k :: 0 <= k < |parts| ==> sep !in parts[k]
    decreases |s|
  {
    var i := IndexOf(s, sep);
    if i == |s| then [s] else [s[..i]] + SplitOn(s[i + 1..], sep)
  }

  /** `sep.join(parts)` for a one-character separator. */
  function Join(parts: seq<string>, sep: char): string {
    if |parts| == 0 then ""
    else if |parts| == 1 then parts[0]
    else parts[0] + [sep] + Join(parts[1..], sep)
  }

  lemma IndexOfAbsent(a: string, c: char)
    requires c !in a
    ensures IndexOf(a, c) == |a|
  {
  }

  lemma IndexOfAfter(a: string, c: char, b: string)
    requires c !in a
    ensures IndexOf(a + [c] + b, c) == |a|
  {
    var s := a + [c] + b;
    assert s[|a|] == c;
  }

  /** A string without `sep` splits into itself alone. */
  lemma SplitOnAbsent(a: string, sep: char)
    requires sep !in a
    ensures SplitOn(a, sep) == [a]
  {
    IndexOfAbsent(a, sep);
  }

  /** Splitting at the first separator. */
  lemma SplitOnAfter(a: string, sep: char, b: string)
    requires sep !in a
    ensures SplitOn(a + [sep] + b, sep) == [a] + SplitOn(b, sep)
  {
    var s := a + [sep] + b;
    IndexOfAfter(a, sep, b);
    assert s[..|a|] == a;
    assert s[|a| + 1..] == b;
  }

  /** Three fields joined by a separator split back into the three fields. */
  lemma SplitThree(a: string, b: string, c: string, sep: char)
    requires sep !in a && sep !in b && sep !in c
    ensures SplitOn(a + [sep] + b + [sep] + c, sep) == [a, b, c]
  {
    assert a + [sep] + b + [sep] + c == a + [sep] + (b + [sep] + c);
    SplitOnAfter(a, sep, b + [sep] + c);
    SplitOnAfter(b, sep, c);
    SplitOnAbsent(c, sep);
  }

  /** A string of digits holds no separator that is not a digit. */
  lemma DigitsLack(s: string, c: char)
    requires AllDigits(s) && !IsDigit(c)
    ensures c !in s
  {
  }

  /** Joining lines that hold no separator and splitting again gives the lines back. */
  lemma {:induction false} SplitJoin(parts: seq<string>, sep: char)
    requires |parts| >= 1
    requires forall k :: 0 <= k < |parts| ==> sep !in parts[k]
    ensures SplitOn(Join(parts, sep), sep) == parts
    decreases |parts|
  {
    if |parts| == 1 {
      SplitOnAbsent(parts[0], sep);
    } else {
      SplitOnAfter(parts[0], sep, Join(parts[1..], sep));
      SplitJoin(parts[1..], sep);
      assert [parts[0]] + parts[1..] == parts;
    }
  }

  predicate AllDigits(s: string) {
    forall i :: 0 <= i < |s| ==> IsDigit(s[i])
  }

  /** `int(s)` for a string of ASCII digits. */
  function DigitsValue(s: string): (n: nat)
    requires AllDigits(s)
  {
    if |s| == 0 then 0 else 10 * DigitsValue(s[..|s| - 1]) + DigitValue(s[|s| - 1])
  }

  lemma DigitsValueShort(s: string)
    ensures AllDigits(s) && |s| == 1 ==> DigitsValue(s) == DigitValue(s[0])
    ensures AllDigits(s) && |s| == 2 ==> DigitsValue(s) == 10 * DigitValue(s[0]) + DigitValue(s[1])
  {
    if |s| == 2 && AllDigits(s) {
      assert s[..1][..0] == [];
    }
  }

  /** Four digits stand for a number below 10000. */
  lemma DigitsValueFour(s: string)
    requires AllDigits(s) && |s| == 4
    ensures DigitsValue(s) < 10000
  {
    assert s[..3][..2] == s[..2];
    assert s[..2][..1] == s[..1];
    assert s[..1][..0] == [];
    assert DigitsValue(s[..1]) <= 9;
    assert DigitsValue(s[..2]) <= 99;
    assert DigitsValue(s[..3]) <= 999;
    assert s[..4] == s;
  }

  /** Two decimal digits with a leading zero, as `%02d` prints them. */
  function Pad2(n: nat): (s: string)
    requires n < 100
    ensures |s| == 2 && AllDigits(s)
  {
    [DigitChar(n / 10), DigitChar(n % 10)]
  }

  /** Four decimal digits with leading zeros, as `%04d` prints them. */
  function Pad4(n: nat): (s: string)
    requires n < 10000
    ensures |s| == 4 && AllDigits(s)
  {
    [DigitChar(n / 1000), DigitChar(n / 100 % 10), DigitChar(n / 10 % 10), DigitChar(n % 10)]
  }

  /** `str(n)` for a number below 100: no leading zero. */
  function Decimal2(n: nat): (s: string)
    requires n < 100
    ensures 1 <= |s| <= 2 && AllDigits(s)
  {
    if n < 10 then [DigitChar(n)] else Pad2(n)
  }

  lemma Decimal2Value(n: nat)
    requires n < 100
    ensures DigitsValue(Decimal2(n)) == n
  {
    if n < 10 {
      DigitsValueShort(Decimal2(n));
    } else {
      Pad2Value(n);
    }
  }

  lemma Pad2Value(n: nat)
    requires n < 100
    ensures DigitsValue(Pad2(n)) == n
  {
    var s := Pad2(n);
    assert s[..1] == [DigitChar(n / 10)];
    assert s[..1][..0] == [];
    assert DigitsValue(s[..1]) == n / 10;
    assert s[..2] == s;
  }

  lemma Pad4Value(n: nat)
    requires n < 10000
    ensures DigitsValue(Pad4(n)) == n
  {
    var s := Pad4(n);
    FourDigitsValue(s);
    FourDigitsOf(n);
  }

  /** The value of four digits, place by place. */
  lemma FourDigitsValue(s: string)
    requires AllDigits(s) && |s| == 4
    ensures DigitsValue(s) ==
      1000 * DigitValue(s[0]) + 100 * DigitValue(s[1]) + 10 * DigitValue(s[2]) + DigitValue(s[3])
  {
    assert s[..4] == s;
    assert s[..3][..2] == s[..2];
    assert s[..2][..1] == s[..1];
    assert s[..1][..0] == [];
    assert DigitsValue(s[..1]) == DigitValue(s[0]);
    assert DigitsValue(s[..2]) == 10 * DigitValue(s[0]) + DigitValue(s[1]);
    assert DigitsValue(s[..3]) == 100 * DigitValue(s[0]) + 10 * DigitValue(s[1]) + DigitValue(s[2]);
  }

  /** A number below 10000 is the sum of its four decimal places. */
  lemma FourDigitsOf(n: nat)
    requires n < 10000
    ensures n == 1000 * (n / 1000) + 100 * (n / 100 % 10) + 10 * (n / 10 % 10) + n % 10
  {
    var a := n / 10;
    var b := a / 10;
    assert n == 10 * a + n % 10;
    assert a == 10 * b + a % 10;
    assert b == 10 * (b / 10) + b % 10;
    assert n / 100 == b;
    assert n / 1000 == b / 10;
  }
}
