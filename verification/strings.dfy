/**
  The Python string built-ins the banking core relies on, over `string`
  (a sequence of Unicode code points, as Python's `str` is):
  `str.isspace`, `strip`, `lstrip`, `rstrip`, `rstrip(ch)`, `split(sep)`,
  `sep.join`, `int(text)` and `str(n)`.
 */
module Strings {
  import opened Wrappers

  /**
    Python's `str.isspace` for one character: the ASCII controls 9-13 and
    28-31, the space, and the Unicode separators U+0085, U+00A0, U+1680,
    U+2000-U+200A, U+2028, U+2029, U+202F, U+205F and U+3000.
   */
  predicate IsSpace(c: char) {
    var n := c as int;
    if n <= 0x20 then n == 0x20 || 0x09 <= n <= 0x0D || 0x1C <= n <= 0x1F
    else if n < 0x1680 then n == 0x85 || n == 0xA0
    else n == 0x1680 || 0x2000 <= n <= 0x200A || n == 0x2028 || n == 0x2029
         || n == 0x202F || n == 0x205F || n == 0x3000
  }

  /** An ASCII decimal digit. */
  predicate IsDigit(c: char) {
    '0' <= c <= '9'
  }

  predicate AllDigits(s: string) {
    forall i :: 0 <= i < |s| ==> IsDigit(s[i])
  }

  /** `s.lstrip()`: drops the longest all-whitespace prefix. */
  function LStrip(s: string): (r: string)
    ensures |r| <= |s|
  {
    if |s| > 0 && IsSpace(s[0]) then LStrip(s[1..]) else s
  }

  /** `lstrip` leaves a suffix, removes only whitespace and stops at a non-blank character. */
  lemma {:induction false} LStripSuffix(s: string)
    ensures var r := LStrip(s);
            && |r| <= |s| && r == s[|s| - |r|..]
            && (forall i :: 0 <= i < |s| - |r| ==> IsSpace(s[i]))
            && (r == [] || !IsSpace(r[0]))
  {
    if |s| > 0 && IsSpace(s[0]) {
      LStripSuffix(s[1..]);
    }
  }

  /** `s.rstrip()`: drops the longest all-whitespace suffix. */
  function RStrip(s: string): (r: string)
    ensures |r| <= |s|
  {
    if |s| > 0 && IsSpace(s[|s| - 1]) then RStrip(s[..|s| - 1]) else s
  }

  /** `rstrip` leaves a prefix, removes only whitespace and stops at a non-blank character. */
  lemma {:induction false} RStripPrefix(s: string)
    ensures var r := RStrip(s);
            && |r| <= |s| && r == s[..|r|]
            && (forall i :: |r| <= i < |s| ==> IsSpace(s[i]))
            && (r == [] || !IsSpace(r[|r| - 1]))
  {
    if |s| > 0 && IsSpace(s[|s| - 1]) {
      RStripPrefix(s[..|s| - 1]);
    }
  }

  /** `s.strip()`: text that neither starts nor ends with whitespace (`StripIsSlice` places it in `s`). */
  function Strip(s: string): (r: string)
    ensures |r| <= |s|
    ensures r == [] || (!IsSpace(r[0]) && !IsSpace(r[|r| - 1]))
  {
    var l := LStrip(s);
    var r := RStrip(l);
    LStripSuffix(s);
    RStripPrefix(l);
    assert r != [] ==> r[0] == l[0];
    r
  }

  /** What `strip` keeps is one slice of `s`, starting where `lstrip` stops. */
  lemma StripIsSlice(s: string)
    ensures var i := |s| - |LStrip(s)|; var r := Strip(s); i + |r| <= |s| && r == s[i..i + |r|]
  {
    LStripSuffix(s);
    RStripPrefix(LStrip(s));
  }

  /** What `strip` removes from either end of `s` is whitespace. */
  lemma StripRemovesOnlyWhitespace(s: string)
    ensures var i := |s| - |LStrip(s)|;
            && (forall k :: 0 <= k < i ==> IsSpace(s[k]))
            && (forall k :: i + |Strip(s)| <= k < |s| ==> IsSpace(s[k]))
  {
    var l := LStrip(s);
    var i := |s| - |l|;
    var m := |Strip(s)|;
    LStripSuffix(s);
    RStripPrefix(l);
    assert Strip(s) == RStrip(l);
    forall k | i + m <= k < |s|
      ensures IsSpace(s[k])
    {
      assert s[k] == l[k - i];
    }
  }

  /** `strip` introduces no character the text did not hold. */
  lemma StripHasNoNewChar(s: string, c: char)
    requires c !in s
    ensures c !in Strip(s)
  {
    StripIsSlice(s);
    var i := |s| - |LStrip(s)|;
    var r := Strip(s);
    forall k | 0 <= k < |r|
      ensures r[k] != c
    {
      assert r[k] == s[i + k];
    }
  }

  /** Stripping a string that starts and ends with non-whitespace changes nothing. */
  lemma StripUnchanged(s: string)
    requires s == [] || (!IsSpace(s[0]) && !IsSpace(s[|s| - 1]))
    ensures Strip(s) == s
  {
    assert LStrip(s) == s;
    assert RStrip(s) == s;
  }

  /** A final newline after a text with non-space ends is all that `strip` removes. */
  lemma StripTrailingNewline(t: string)
    requires t == [] || (!IsSpace(t[0]) && !IsSpace(t[|t| - 1]))
    ensures Strip(t + ['\n']) == t
  {
    var s := t + ['\n'];
    if t == [] {
      assert LStrip(s) == [];
    } else {
      assert LStrip(s) == s;
      assert s[..|s| - 1] == t;
      assert RStrip(t) == t;
    }
  }

  /** A text holding the separator splits into at least two pieces. */
  lemma {:induction false} SplitAtSeparator(s: string, c: char)
    requires c in s
    ensures |Split(s, c)| >= 2
  {
    if s[0] != c {
      assert c in s[1..] by {
        var k :| 0 <= k < |s| && s[k] == c;
        assert s[1..][k - 1] == c;
      }
      SplitAtSeparator(s[1..], c);
    }
  }

  /** `s.rstrip(c)`: drops the longest suffix made only of `c`. */
  function RStripChar(s: string, c: char): (r: string)
    ensures |r| <= |s| && r == s[..|r|]
    ensures forall i :: |r| <= i < |s| ==> s[i] == c
    ensures r == [] || r[|r| - 1] != c
  {
    if |s| > 0 && s[|s| - 1] == c then RStripChar(s[..|s| - 1], c) else s
  }

  /** `s.split(c)`: the pieces between occurrences of `c`; always at least one piece. */
  function Split(s: string, c: char): (parts: seq<string>)
    ensures |parts| >= 1
  {
    if s == [] then [[]]
    else
      var rest := Split(s[1..], c);
      if s[0] == c then [[]] + rest
      else [[s[0]] + rest[0]] + rest[1..]
  }

  /** No piece of a split contains the separator. */
  lemma {:induction false} SplitPiecesFree(s: string, c: char)
    ensures forall i :: 0 <= i < |Split(s, c)| ==> c !in Split(s, c)[i]
  {
    if s != [] {
      SplitPiecesFree(s[1..], c);
    }
  }

  /** `c.join(parts)`. */
  function Join(parts: seq<string>, c: char): string
    requires |parts| >= 1
  {
    if |parts| == 1 then parts[0] else parts[0] + [c] + Join(parts[1..], c)
  }

  /** Joining the pieces of a split with the separator gives back the original text. */
  lemma {:induction false} JoinSplit(s: string, c: char)
    ensures Join(Split(s, c), c) == s
  {
    if s != [] {
      var rest := Split(s[1..], c);
      JoinSplit(s[1..], c);
      if s[0] != c {
        var parts := Split(s, c);
        if |rest| == 1 {
          assert parts == [[s[0]] + rest[0]];
        } else {
          assert parts[1..] == rest[1..];
          assert Join(parts, c) == [s[0]] + rest[0] + [c] + Join(rest[1..], c);
        }
      }
    }
  }

  /** A text without the separator splits into itself alone. */
  lemma {:induction false} SplitWithoutSeparator(s: string, c: char)
    requires c !in s
    ensures Split(s, c) == [s]
  {
    if s != [] {
      SplitWithoutSeparator(s[1..], c);
      assert [s[0]] + s[1..] == s;
    }
  }

  /** Extending the first piece of a list of pieces. */
  lemma ExtendFirstPiece(x: char, sa: seq<string>, sb: seq<string>)
    requires |sa| >= 1
    ensures [[x] + (sa + sb)[0]] + (sa + sb)[1..] == ([[x] + sa[0]] + sa[1..]) + sb
  {
    assert (sa + sb)[0] == sa[0];
    assert (sa + sb)[1..] == sa[1..] + sb;
  }

  /** Splitting `a` + separator + `b` splits the two sides independently. */
  lemma {:induction false} SplitConcat(a: string, b: string, c: char)
    ensures Split(a + [c] + b, c) == Split(a, c) + Split(b, c)
  {
    var s := a + [c] + b;
    if a == [] {
      assert s[0] == c && s[1..] == b;
    } else {
      assert s[0] == a[0] && s[1..] == a[1..] + [c] + b;
      SplitConcat(a[1..], b, c);
      if a[0] != c {
        var sa, sb := Split(a[1..], c), Split(b, c);
        assert Split(s, c) == [[a[0]] + (sa + sb)[0]] + (sa + sb)[1..];
        assert Split(a, c) == [[a[0]] + sa[0]] + sa[1..];
        ExtendFirstPiece(a[0], sa, sb);
      }
    }
  }

  /** Splitting a join of separator-free pieces gives back the pieces. */
  lemma {:induction false} SplitJoin(parts: seq<string>, c: char)
    requires |parts| >= 1
    requires forall i :: 0 <= i < |parts| ==> c !in parts[i]
    ensures Split(Join(parts, c), c) == parts
  {
    SplitWithoutSeparator(parts[0], c);
    if |parts| > 1 {
      SplitJoin(parts[1..], c);
      SplitConcat(parts[0], Join(parts[1..], c), c);
      assert parts == [parts[0]] + parts[1..];
    }
  }

  // ---------------------------------------------------------------------
  // int(text) and str(n), base 10

  function DigitValue(c: char): nat
    requires IsDigit(c)
  {
    c as int - '0' as int
  }

  function DigitChar(d: nat): (c: char)
    requires d < 10
    ensures IsDigit(c) && DigitValue(c) == d
  {
    ('0' as int + d) as char
  }

  /**
    The digit body `int()` accepts: ASCII digits with single underscores
    allowed between two digits.
   */
  predicate IsDigitGroup(b: string) {
    && |b| > 0
    && IsDigit(b[0]) && IsDigit(b[|b| - 1])
    && (forall i :: 0 <= i < |b| ==> IsDigit(b[i]) || b[i] == '_')
    && (forall i :: 0 <= i < |b| - 1 ==> b[i] == '_' ==> b[i + 1] != '_')
  }

  /** The value of a digit body, underscores ignored. */
  function GroupValue(b: string): nat {
    if b == [] then 0
    else
      var n := |b| - 1;
      if IsDigit(b[n]) then 10 * GroupValue(b[..n]) + DigitValue(b[n]) else GroupValue(b[..n])
  }

  /**
    CPython's limit on the decimal digits `int()` reads and `str()` writes
    (`sys.int_info.default_max_str_digits`): past it both raise `ValueError`.
   */
  const MaxStrDigits := 4300

  /** The number of digits in a body, underscores not counted. */
  function DigitCount(b: string): (k: nat)
    ensures k <= |b|
  {
    if b == [] then 0
    else DigitCount(b[..|b| - 1]) + (if IsDigit(b[|b| - 1]) then 1 else 0)
  }

  lemma {:induction false} DigitCountAllDigits(s: string)
    requires AllDigits(s)
    ensures DigitCount(s) == |s|
  {
    if s != [] {
      DigitCountAllDigits(s[..|s| - 1]);
    }
  }

  function Power10(k: nat): nat {
    if k == 0 then 1 else 10 * Power10(k - 1)
  }

  /** A body of `k` digits denotes less than `10^k`. */
  lemma {:induction false} GroupValueBound(b: string)
    ensures GroupValue(b) < Power10(DigitCount(b))
  {
    if b != [] {
      GroupValueBound(b[..|b| - 1]);
    }
  }

  /**
    The characters `int()` skips around a number: tab, line feed, vertical
    tab, form feed, carriage return and space among the ASCII characters, and
    every non-ASCII character `str.isspace` accepts. Unlike `strip`, it does
    not skip the separators U+001C-U+001F.
   */
  predicate IsIntSpace(c: char) {
    IsSpace(c) && !(0x1C <= c as int <= 0x1F)
  }

  /** Drops the leading characters `int()` skips. */
  function IntLStrip(s: string): (r: string)
    ensures |r| <= |s|
  {
    if |s| > 0 && IsIntSpace(s[0]) then IntLStrip(s[1..]) else s
  }

  /** Drops the trailing characters `int()` skips. */
  function IntRStrip(s: string): (r: string)
    ensures |r| <= |s|
  {
    if |s| > 0 && IsIntSpace(s[|s| - 1]) then IntRStrip(s[..|s| - 1]) else s
  }

  /** The text `int()` reads a number from, once the skipped characters are gone. */
  function IntStrip(s: string): (r: string)
    ensures |r| <= |s|
  {
    IntRStrip(IntLStrip(s))
  }

  /** Python's `int(text)`: `None` stands for the `ValueError` it raises. */
  function ParseInt(s: string): Option<int> {
    ParseSigned(IntStrip(s))
  }

  lemma {:induction false} IntLStripKeeps(s: string, k: nat)
    requires k < |s| && !IsIntSpace(s[k])
    ensures s[k] in IntLStrip(s)
  {
    if IsIntSpace(s[0]) {
      assert s[k] == s[1..][k - 1];
      IntLStripKeeps(s[1..], k - 1);
    }
  }

  lemma {:induction false} IntRStripKeeps(s: string, k: nat)
    requires k < |s| && !IsIntSpace(s[k])
    ensures s[k] in IntRStrip(s)
  {
    if IsIntSpace(s[|s| - 1]) {
      assert s[k] == s[..|s| - 1][k];
      IntRStripKeeps(s[..|s| - 1], k);
    }
  }

  /** A character `int()` does not skip is still there when the number is read. */
  lemma IntStripKeepsInnerChar(s: string, k: nat)
    requires k < |s| && !IsIntSpace(s[k])
    ensures s[k] in IntStrip(s)
  {
    IntLStripKeeps(s, k);
    var l := IntLStrip(s);
    var j :| 0 <= j < |l| && l[j] == s[k];
    IntRStripKeeps(l, j);
  }

  /** A text whose ends `int()` does not skip is read as it stands. */
  lemma IntStripUnchanged(t: string)
    requires t != [] && !IsIntSpace(t[0]) && !IsIntSpace(t[|t| - 1])
    ensures IntStrip(t) == t
  {
    assert IntLStrip(t) == t;
  }

  /** A separator control character U+001C-U+001F before the digits makes `int()` fail. */
  lemma ParseIntRefusesSeparatorControl(c: char, digits: string)
    requires 0x1C <= c as int <= 0x1F && IsDigitGroup(digits)
    ensures ParseInt([c] + digits) == None
  {
    var t := [c] + digits;
    assert t[|t| - 1] == digits[|digits| - 1];
    IntStripUnchanged(t);
    assert !IsDigit(t[0]);
  }

  /** A digit body `int()` converts: well formed and within the digit limit. */
  predicate ReadableBody(b: string) {
    IsDigitGroup(b) && DigitCount(b) <= MaxStrDigits
  }

  /** An optional sign followed by a digit body of at most 4300 digits. */
  function ParseSigned(t: string): Option<int> {
    if |t| > 0 && (t[0] == '-' || t[0] == '+') then
      if ReadableBody(t[1..]) then
        Some(if t[0] == '-' then -(GroupValue(t[1..]) as int) else GroupValue(t[1..]))
      else None
    else if ReadableBody(t) then Some(GroupValue(t))
    else None
  }

  /** Python's `str(n)` for a non-negative integer: its decimal digits, no leading zeros. */
  function NatToString(n: nat): (s: string)
    ensures |s| >= 1 && AllDigits(s)
  {
    if n < 10 then [DigitChar(n)] else NatToString(n / 10) + [DigitChar(n % 10)]
  }

  /** The magnitude of `n`, the number `str(n)` writes the digits of. */
  function Abs(n: int): nat {
    if n < 0 then -n else n
  }

  /** `str(n)` succeeds: `n` has at most 4300 digits. */
  predicate WithinStrLimit(n: int) {
    |NatToString(Abs(n))| <= MaxStrDigits
  }

  /**
    Python's `str(n)`, the digits of `n` after a `-` for a negative `n`.
    Python raises `ValueError` instead when `WithinStrLimit(n)` fails.
   */
  function IntToString(n: int): (s: string)
    ensures |s| >= 1 && (s[0] == '-' <==> n < 0) && IsDigit(s[|s| - 1])
  {
    if n < 0 then "-" + NatToString(-n) else NatToString(n)
  }

  lemma {:induction false} NatToStringValue(n: nat)
    ensures GroupValue(NatToString(n)) == n
  {
    if n >= 10 {
      NatToStringValue(n / 10);
      var s := NatToString(n);
      assert s[..|s| - 1] == NatToString(n / 10);
    }
  }

  /** A digit body of at most 4300 digits parses to its value. */
  lemma ParseIntOfDigits(digits: string)
    requires IsDigitGroup(digits) && DigitCount(digits) <= MaxStrDigits
    ensures ParseInt(digits) == Some(GroupValue(digits) as int)
  {
    IntStripUnchanged(digits);
    assert !(digits[0] == '-' || digits[0] == '+');
    assert ParseSigned(digits) == Some(GroupValue(digits) as int);
  }

  /** A minus sign followed by a digit body of at most 4300 digits parses to the negated value. */
  lemma ParseIntOfNegativeDigits(digits: string)
    requires IsDigitGroup(digits) && DigitCount(digits) <= MaxStrDigits
    ensures ParseInt("-" + digits) == Some(-(GroupValue(digits) as int))
  {
    var t := "-" + digits;
    assert t[|t| - 1] == digits[|digits| - 1];
    IntStripUnchanged(t);
    assert t[0] == '-' && t[1..] == digits;
    assert ParseSigned(t) == Some(-(GroupValue(digits) as int));
  }

  /** `int(str(n)) == n` for every integer `str` can write. */
  lemma ParseIntOfIntToString(n: int)
    requires WithinStrLimit(n)
    ensures ParseInt(IntToString(n)) == Some(n)
  {
    var digits := NatToString(Abs(n));
    NatToStringValue(Abs(n));
    DigitCountAllDigits(digits);
    if n < 0 {
      ParseIntOfNegativeDigits(digits);
    } else {
      ParseIntOfDigits(digits);
    }
  }

  /** A body of more than 4300 digits is refused, with or without a sign. */
  lemma ParseIntRefusesTooManyDigits(digits: string)
    requires IsDigitGroup(digits) && DigitCount(digits) > MaxStrDigits
    ensures ParseInt(digits) == None && ParseInt("-" + digits) == None
  {
    IntStripUnchanged(digits);
    assert !(digits[0] == '-' || digits[0] == '+');
    var t := "-" + digits;
    assert t[|t| - 1] == digits[|digits| - 1];
    IntStripUnchanged(t);
    assert t[1..] == digits;
  }

  /** A number of fewer than `10^k` is written with at most `k` digits. */
  lemma {:induction false} NatToStringLength(m: nat, k: nat)
    requires 1 <= k && m < Power10(k)
    ensures |NatToString(m)| <= k
  {
    if m >= 10 {
      assert k >= 2;
      NatToStringLength(m / 10, k - 1);
    }
  }

  /** Every number `int()` reads can be written back by `str()`. */
  lemma ParseIntWithinStrLimit(s: string)
    requires ParseInt(s).Some?
    ensures WithinStrLimit(ParseInt(s).value)
  {
    var t := IntStrip(s);
    var b := if |t| > 0 && (t[0] == '-' || t[0] == '+') then t[1..] else t;
    assert ReadableBody(b);
    assert Abs(ParseInt(s).value) == GroupValue(b);
    assert IsDigit(b[|b| - 1]);
    GroupValueBound(b);
    NatToStringLength(GroupValue(b), DigitCount(b));
  }
}
