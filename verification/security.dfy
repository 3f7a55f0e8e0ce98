/**
  The stateless credential and input utilities of `SecurityManager`:
  salted password hashing, password strength, input sanitisation, e-mail and
  phone format checks, and the session-timeout test. The regular expressions
  of the source are written out as hand-made recognisers, each proved equal
  to a declarative description of the language the expression denotes.
 */
module Security {
  import opened Wrappers
  import opened Strings

  /** Application configuration (`APP_CONFIG`). */
  const SessionTimeoutSeconds := 30 * 60
  const MaxLoginAttempts := 3
  const PasswordMinLength := 8

  // ---------------------------------------------------------------------
  // Hashing

  /**
    `hash_password`: SHA-256 of the password followed by the salt. The digest
    function itself is a parameter (`sha256`); only its argument is modelled.
   */
  function HashPassword(sha256: string -> string, salt: string, password: string): string {
    sha256(password + salt)
  }

  // ---------------------------------------------------------------------
  // Character classes of the regular expressions

  datatype CharClass =
    | SpecialChar      // [!@#$%^&*(),.?":{}|<>]
    | DecimalDigit     // \d, ASCII digits
    | UppercaseLetter  // [A-Z]
    | EmailLocalChar   // [a-zA-Z0-9._%+-]
    | EmailDomainChar  // [a-zA-Z0-9.-]
    | AsciiLetter      // [a-zA-Z]

  predicate IsAsciiLetter(c: char) {
    ('a' <= c <= 'z') || ('A' <= c <= 'Z')
  }

  predicate InClass(k: CharClass, c: char) {
    match k
    case SpecialChar =>
      c in {'!', '@', '#', '$', '%', '^', '&', '*', '(', ')', ',', '.', '?', '"', ':', '{', '}', '|', '<', '>'}
    case DecimalDigit => IsDigit(c)
    case UppercaseLetter => 'A' <= c <= 'Z'
    case EmailLocalChar => IsAsciiLetter(c) || IsDigit(c) || c in {'.', '_', '%', '+', '-'}
    case EmailDomainChar => IsAsciiLetter(c) || IsDigit(c) || c == '.' || c == '-'
    case AsciiLetter => IsAsciiLetter(c)
  }

  /** Some character of `s` is in class `k`. */
  ghost predicate Contains(s: string, k: CharClass) {
    exists i :: 0 <= i < |s| && InClass(k, s[i])
  }

  /** Every character of `s` is in class `k`. */
  ghost predicate AllIn(s: string, k: CharClass) {
    forall i :: 0 <= i < |s| ==> InClass(k, s[i])
  }

  /** `re.search` with a one-character-class pattern: scans `s` from the left. */
  function Search(s: string, k: CharClass): (found: bool)
    ensures found <==> Contains(s, k)
  {
    if s == [] then false
    else if InClass(k, s[0]) then true
    else
      assert forall i :: 1 <= i < |s| ==> s[i] == s[1..][i - 1];
      Search(s[1..], k)
  }

  /** Tests that every character of `s` is in class `k`, from the left. */
  function Every(s: string, k: CharClass): (all: bool)
    ensures all <==> AllIn(s, k)
  {
    if s == [] then true
    else if !InClass(k, s[0]) then false
    else
      assert forall i :: 1 <= i < |s| ==> s[i] == s[1..][i - 1];
      Every(s[1..], k)
  }

  /** Length of the longest prefix of `s` in class `k` (the greedy `[...]+` run). */
  function Span(s: string, k: CharClass): (n: nat)
    ensures n <= |s| && AllIn(s[..n], k)
    ensures n < |s| ==> !InClass(k, s[n])
  {
    if s == [] || !InClass(k, s[0]) then 0
    else
      var m := Span(s[1..], k);
      assert s[..m + 1] == [s[0]] + s[1..][..m];
      m + 1
  }

  /** Position of the last occurrence of `c` in `s`. */
  function LastIndexOf(s: string, c: char): (r: Option<nat>)
    ensures r.Some? ==> r.value < |s| && s[r.value] == c
                        && forall j :: r.value < j < |s| ==> s[j] != c
    ensures r.None? ==> c !in s
  {
    if s == [] then None
    else if s[|s| - 1] == c then Some(|s| - 1)
    else
      var r := LastIndexOf(s[..|s| - 1], c);
      assert forall j :: 0 <= j < |s| - 1 ==> s[j] == s[..|s| - 1][j];
      r
  }

  // ---------------------------------------------------------------------
  // sanitize_input

  /** The characters `sanitize_input` deletes: `;`, `'`, `"` and `\`. */
  predicate IsDangerous(c: char) {
    c == ';' || c == '\'' || c == '"' || c == '\\'
  }

  /** `re.sub(r'[;\'\"\\]', '', s)`. */
  function RemoveDangerous(s: string): (r: string)
    ensures |r| <= |s|
  {
    if s == [] then []
    else if IsDangerous(s[0]) then RemoveDangerous(s[1..])
    else [s[0]] + RemoveDangerous(s[1..])
  }

  /**
    `sanitize_input`: the dangerous characters deleted, then surrounding
    whitespace stripped. The result holds none of them and is already stripped.
   */
  function Sanitize(s: string): (r: string)
    ensures forall i :: 0 <= i < |r| ==> !IsDangerous(r[i])
    ensures r == [] || (!IsSpace(r[0]) && !IsSpace(r[|r| - 1]))
  {
    var d := RemoveDangerous(s);
    var r := Strip(d);
    RemoveDangerousIsSafe(s);
    StripIsSlice(d);
    SliceOfSafeIsSafe(d, |d| - |LStrip(d)|, r);
    r
  }

  /** No dangerous character survives `RemoveDangerous`. */
  lemma {:induction false} RemoveDangerousIsSafe(s: string)
    ensures forall i :: 0 <= i < |RemoveDangerous(s)| ==> !IsDangerous(RemoveDangerous(s)[i])
  {
    if s != [] {
      RemoveDangerousIsSafe(s[1..]);
    }
  }

  lemma SliceOfSafeIsSafe(d: string, i: nat, r: string)
    requires i + |r| <= |d| && r == d[i..i + |r|]
    requires forall k :: 0 <= k < |d| ==> !IsDangerous(d[k])
    ensures forall k :: 0 <= k < |r| ==> !IsDangerous(r[k])
  {
    forall k | 0 <= k < |r|
      ensures !IsDangerous(r[k])
    {
      assert r[k] == d[i + k];
    }
  }

  /** `pos` lists, in increasing order, positions of `s` that spell out `r`. */
  ghost predicate InOrderAt(r: string, s: string, pos: seq<int>) {
    && |pos| == |r|
    && (forall k :: 0 <= k < |pos| ==> 0 <= pos[k] < |s| && s[pos[k]] == r[k])
    && (forall k, l :: 0 <= k < l < |pos| ==> pos[k] < pos[l])
  }

  /** `r` is obtained from `s` by deleting characters. */
  ghost predicate IsSubsequence(r: string, s: string) {
    exists pos :: InOrderAt(r, s, pos)
  }

  /** Every position moved one to the right. */
  ghost function Shift(p: seq<int>): (q: seq<int>)
    ensures |q| == |p| && forall k :: 0 <= k < |p| ==> q[k] == p[k] + 1
  {
    seq(|p|, k requires 0 <= k < |p| => p[k] + 1)
  }

  /** The positions of `s` that `RemoveDangerous` keeps. */
  ghost function KeptPositions(s: string): seq<int> {
    if s == [] then []
    else if IsDangerous(s[0]) then Shift(KeptPositions(s[1..]))
    else [0] + Shift(KeptPositions(s[1..]))
  }

  /** Prepending a character to the text shifts every position of a match by one. */
  lemma InOrderAtShift(r: string, t: string, p: seq<int>, c: char)
    requires InOrderAt(r, t, p)
    ensures InOrderAt(r, [c] + t, Shift(p))
    ensures InOrderAt([c] + r, [c] + t, [0] + Shift(p))
  {
    var s := [c] + t;
    var q := Shift(p);
    forall k | 0 <= k < |q|
      ensures 0 <= q[k] < |s| && s[q[k]] == r[k]
    {
      assert s[q[k]] == t[p[k]];
    }
    var q0 := [0] + q;
    forall k | 0 <= k < |q0|
      ensures 0 <= q0[k] < |s| && s[q0[k]] == ([c] + r)[k]
    {
      if k > 0 {
        assert q0[k] == q[k - 1];
      }
    }
  }

  /** `RemoveDangerous` spells its result out of the kept positions, in order. */
  lemma {:induction false} RemoveDangerousKeptInOrder(s: string)
    ensures InOrderAt(RemoveDangerous(s), s, KeptPositions(s))
  {
    if s != [] {
      var t := s[1..];
      RemoveDangerousKeptInOrder(t);
      InOrderAtShift(RemoveDangerous(t), t, KeptPositions(t), s[0]);
      assert [s[0]] + t == s;
    }
  }

  /** Every position `RemoveDangerous` leaves out holds a dangerous character. */
  lemma {:induction false} RemoveDangerousDropsOnlyDangerous(s: string)
    ensures forall k :: 0 <= k < |s| && k !in KeptPositions(s) ==> IsDangerous(s[k])
  {
    if s != [] {
      var t := s[1..];
      RemoveDangerousDropsOnlyDangerous(t);
      var p := KeptPositions(t);
      var q := Shift(p);
      forall k | 0 <= k < |s| && k !in KeptPositions(s)
        ensures IsDangerous(s[k])
      {
        if k > 0 {
          assert s[k] == t[k - 1];
        }
      }
    }
  }

  /** `sanitize_input` only deletes characters: its output is a subsequence of its input. */
  lemma SanitizeOnlyDeletes(s: string)
    ensures IsSubsequence(Sanitize(s), s)
  {
    var d := RemoveDangerous(s);
    RemoveDangerousKeptInOrder(s);
    var r := Strip(d);
    assert Sanitize(s) == r;
    StripIsSlice(d);
    SliceIsSubsequence(d, s, KeptPositions(s), |d| - |LStrip(d)|, r);
  }

  /** A slice of a subsequence is a subsequence, spelt out by the same slice of positions. */
  lemma SliceIsSubsequence(d: string, s: string, pos: seq<int>, i: nat, r: string)
    requires InOrderAt(d, s, pos)
    requires i + |r| <= |d| && r == d[i..i + |r|]
    ensures IsSubsequence(r, s)
  {
    var sub := pos[i..i + |r|];
    forall k | 0 <= k < |sub|
      ensures 0 <= sub[k] < |s| && s[sub[k]] == r[k]
    {
      assert sub[k] == pos[i + k] && r[k] == d[i + k];
    }
    forall k, l | 0 <= k < l < |sub|
      ensures sub[k] < sub[l]
    {
      assert sub[k] == pos[i + k] && sub[l] == pos[i + l];
    }
    assert InOrderAt(r, s, sub);
  }

  lemma {:induction false} RemoveDangerousUnchanged(s: string)
    requires forall i :: 0 <= i < |s| ==> !IsDangerous(s[i])
    ensures RemoveDangerous(s) == s
  {
    if s != [] {
      RemoveDangerousUnchanged(s[1..]);
      assert [s[0]] + s[1..] == s;
    }
  }

  /** Deleting characters works piecewise over a concatenation. */
  lemma {:induction false} RemoveDangerousConcat(a: string, b: string)
    ensures RemoveDangerous(a + b) == RemoveDangerous(a) + RemoveDangerous(b)
  {
    if a == [] {
      assert a + b == b;
    } else {
      var ab := a + b;
      assert ab[0] == a[0] && ab[1..] == a[1..] + b;
      RemoveDangerousConcat(a[1..], b);
      var rest := RemoveDangerous(a[1..]);
      if !IsDangerous(a[0]) {
        assert RemoveDangerous(ab) == [a[0]] + (rest + RemoveDangerous(b));
        assert RemoveDangerous(a) == [a[0]] + rest;
      }
    }
  }

  /** Deleting one dangerous character between two texts. */
  lemma RemoveDangerousAround(a: string, c: char, b: string)
    requires IsDangerous(c)
    ensures RemoveDangerous(a + [c] + b) == RemoveDangerous(a) + RemoveDangerous(b)
  {
    RemoveDangerousConcat(a, [c] + b);
    assert ([c] + b)[1..] == b;
    assert a + [c] + b == a + ([c] + b);
  }

  /**
    For any texts, a dangerous character between two
    clean texts (such as the quote in `O'Brien`) is deleted and nothing else is.
   */
  lemma SanitizeDeletesDangerous(a: string, c: char, b: string)
    requires IsDangerous(c)
    requires forall i :: 0 <= i < |a| ==> !IsDangerous(a[i])
    requires forall i :: 0 <= i < |b| ==> !IsDangerous(b[i])
    requires a + b == [] || (!IsSpace((a + b)[0]) && !IsSpace((a + b)[|a + b| - 1]))
    ensures Sanitize(a + [c] + b) == a + b
  {
    RemoveDangerousUnchanged(a);
    RemoveDangerousUnchanged(b);
    RemoveDangerousAround(a, c, b);
    StripUnchanged(a + b);
    assert Sanitize(a + [c] + b) == Strip(RemoveDangerous(a + [c] + b));
  }

  /** Sanitizing twice gives what sanitizing once gives. */
  lemma SanitizeIdempotent(s: string)
    ensures Sanitize(Sanitize(s)) == Sanitize(s)
  {
    RemoveDangerousUnchanged(Sanitize(s));
    StripUnchanged(Sanitize(s));
  }

  // ---------------------------------------------------------------------
  // validate_password

  /** The outcome of the four strength checks, in the order they are made. */
  datatype PasswordVerdict = Strong | TooShort | MissingSpecial | MissingDigit | MissingUppercase

  /** What the source promises of an accepted password. */
  ghost predicate StrongPassword(p: string) {
    && |p| >= PasswordMinLength
    && Contains(p, SpecialChar)
    && Contains(p, DecimalDigit)
    && Contains(p, UppercaseLetter)
  }

  /** The checks of `validate_password`, reporting the first one that fails. */
  function CheckPassword(p: string): (v: PasswordVerdict)
    ensures v == Strong <==> StrongPassword(p)
    ensures v == TooShort <==> |p| < PasswordMinLength
    ensures v == MissingSpecial <==> |p| >= PasswordMinLength && !Contains(p, SpecialChar)
    ensures v == MissingDigit <==>
              |p| >= PasswordMinLength && Contains(p, SpecialChar) && !Contains(p, DecimalDigit)
    ensures v == MissingUppercase <==>
              && |p| >= PasswordMinLength && Contains(p, SpecialChar) && Contains(p, DecimalDigit)
              && !Contains(p, UppercaseLetter)
  {
    if |p| < PasswordMinLength then TooShort
    else if !Search(p, SpecialChar) then MissingSpecial
    else if !Search(p, DecimalDigit) then MissingDigit
    else if !Search(p, UppercaseLetter) then MissingUppercase
    else Strong
  }

  function PasswordMessage(v: PasswordVerdict): string {
    match v
    case TooShort => "Password must be at least 8 characters long"
    case MissingSpecial => "Password must contain at least one special character"
    case MissingDigit => "Password must contain at least one number"
    case MissingUppercase => "Password must contain at least one uppercase letter"
    case Strong => "Password is valid"
  }

  /** `validate_password`: the verdict as the pair (accepted, reason). */
  function ValidatePassword(p: string): (r: (bool, string))
    ensures r.0 <==> StrongPassword(p)
    ensures r.0 ==> r.1 == "Password is valid"
    ensures !r.0 ==> r.1 == PasswordMessage(CheckPassword(p)) && r.1 != "Password is valid"
  {
    var v := CheckPassword(p);
    (v == Strong, PasswordMessage(v))
  }

  // ---------------------------------------------------------------------
  // validate_email: ^[a-zA-Z0-9._%+-]+@[a-zA-Z0-9.-]+\.[a-zA-Z]{2,}$

  /**
    `t` splits at `at` and `dot` as the pattern requires: a non-empty local
    part, `@`, a non-empty domain part, `.`, and two or more ASCII letters.
   */
  ghost predicate EmailSplit(t: string, at: int, dot: int) {
    && 0 < at && at + 1 < dot && dot + 2 < |t|
    && t[at] == '@' && t[dot] == '.'
    && AllIn(t[..at], EmailLocalChar)
    && AllIn(t[at + 1..dot], EmailDomainChar)
    && AllIn(t[dot + 1..], AsciiLetter)
  }

  /** The language of the e-mail pattern without its anchors. */
  ghost predicate EmailLanguage(t: string) {
    exists at, dot :: EmailSplit(t, at, dot)
  }

  /**
    A deterministic recogniser: the local part is the longest run of local
    characters, the rest must be domain characters, and the top-level part
    follows its last dot.
   */
  function MatchEmail(t: string): bool {
    var n := Span(t, EmailLocalChar);
    if !(0 < n < |t| && t[n] == '@') then false
    else
      var u := t[n + 1..];
      if !Every(u, EmailDomainChar) then false
      else
        match LastIndexOf(u, '.')
        case None => false
        case Some(d) => 0 < d && d + 2 < |u| && Every(u[d + 1..], AsciiLetter)
  }

  lemma MatchEmailSound(t: string)
    requires MatchEmail(t)
    ensures EmailLanguage(t)
  {
    var n := Span(t, EmailLocalChar);
    var u := t[n + 1..];
    var d := LastIndexOf(u, '.').value;
    var dot := n + 1 + d;
    assert t[n + 1..dot] == u[..d];
    assert t[dot + 1..] == u[d + 1..];
    assert EmailSplit(t, n, dot);
  }

  lemma MatchEmailComplete(t: string, at: int, dot: int)
    requires EmailSplit(t, at, dot)
    ensures MatchEmail(t)
  {
    assert t[..at] == t[..at];
    var n := Span(t, EmailLocalChar);
    assert n == at;
    var u := t[n + 1..];
    var d := dot - at - 1;
    assert u[d] == '.';
    forall i | 0 <= i < |u|
      ensures InClass(EmailDomainChar, u[i])
    {
      if i < d {
        assert u[i] == t[at + 1..dot][i];
      } else if i > d {
        assert u[i] == t[dot + 1..][i - d - 1];
      }
    }
    forall j | d < j < |u|
      ensures u[j] != '.'
    {
      assert u[j] == t[dot + 1..][j - d - 1];
    }
    var last := LastIndexOf(u, '.');
    assert last == Some(d);
    assert u[d + 1..] == t[dot + 1..];
  }

  lemma MatchEmailCorrect(t: string)
    ensures MatchEmail(t) <==> EmailLanguage(t)
  {
    if MatchEmail(t) {
      MatchEmailSound(t);
    }
    if EmailLanguage(t) {
      var at, dot :| EmailSplit(t, at, dot);
      MatchEmailComplete(t, at, dot);
    }
  }

  /** An entry the e-mail check accepts: an address, possibly followed by one newline. */
  ghost predicate EmailAccepted(s: string) {
    EmailLanguage(s) || (|s| > 0 && s[|s| - 1] == '\n' && EmailLanguage(s[..|s| - 1]))
  }

  /**
    `validate_email`: `re.match` with the anchored pattern. Python's `$` also
    matches just before a final newline, so one trailing `\n` is allowed.
   */
  function ValidateEmail(s: string): (ok: bool)
    ensures ok <==> EmailAccepted(s)
  {
    MatchEmailCorrect(s);
    MatchEmailCorrect(if |s| > 0 then s[..|s| - 1] else s);
    MatchEmail(s) || (|s| > 0 && s[|s| - 1] == '\n' && MatchEmail(s[..|s| - 1]))
  }

  /** The text split as the e-mail pattern requires has its only `@` at the split. */
  lemma EmailSplitOneAt(t: string, at: int, dot: int)
    requires EmailSplit(t, at, dot)
    ensures forall j :: 0 <= j < |t| && t[j] == '@' ==> j == at
  {
  }

  /** An accepted address holds exactly one `@`. */
  lemma ValidEmailHasOneAt(s: string)
    requires ValidateEmail(s)
    ensures exists i :: 0 <= i < |s| && s[i] == '@' && forall j :: 0 <= j < |s| && s[j] == '@' ==> j == i
  {
    if EmailLanguage(s) {
      var at, dot :| EmailSplit(s, at, dot);
      EmailSplitOneAt(s, at, dot);
    } else {
      var t := s[..|s| - 1];
      var at, dot :| EmailSplit(t, at, dot);
      EmailSplitOneAt(t, at, dot);
      assert s[at] == t[at];
      forall j | 0 <= j < |s| && s[j] == '@'
        ensures j == at
      {
        if j < |t| {
          assert s[j] == t[j];
        }
      }
    }
  }

  // ---------------------------------------------------------------------
  // validate_phone: ^\+?1?\d{9,15}$

  /**
    `t` is an optional `+` (`plus` = 1), an optional `1` (`one` = 1) and then
    nine to fifteen digits.
   */
  ghost predicate PhoneSplit(t: string, plus: nat, one: nat) {
    && plus <= 1 && one <= 1 && plus + one <= |t|
    && (plus == 1 ==> t[0] == '+')
    && (one == 1 ==> t[plus] == '1')
    && AllDigits(t[plus + one..])
    && 9 <= |t| - plus - one <= 15
  }

  /** The language of the phone pattern without its anchors. */
  ghost predicate PhoneLanguage(t: string) {
    exists plus: nat, one: nat :: PhoneSplit(t, plus, one)
  }

  /** A deterministic recogniser: an optional `+`, then 9-15 digits, or 16 digits led by `1`. */
  function MatchPhone(t: string): bool {
    var body := if |t| > 0 && t[0] == '+' then t[1..] else t;
    AllDigits(body) && (9 <= |body| <= 15 || (|body| == 16 && body[0] == '1'))
  }

  lemma MatchPhoneCorrect(t: string)
    ensures MatchPhone(t) <==> PhoneLanguage(t)
  {
    var plus: nat := if |t| > 0 && t[0] == '+' then 1 else 0;
    var body := t[plus..];
    if MatchPhone(t) {
      if |body| <= 15 {
        assert PhoneSplit(t, plus, 0);
      } else {
        assert t[plus + 1..] == body[1..];
        assert PhoneSplit(t, plus, 1);
      }
    }
    if PhoneLanguage(t) {
      var p: nat, o: nat :| PhoneSplit(t, p, o);
      assert p == plus;
      if o == 1 {
        assert forall i :: 1 <= i < |body| ==> body[i] == t[p + o..][i - 1];
      } else {
        assert body == t[p + o..];
      }
    }
  }

  /** An entry the phone check accepts: a number, possibly followed by one newline. */
  ghost predicate PhoneAccepted(s: string) {
    PhoneLanguage(s) || (|s| > 0 && s[|s| - 1] == '\n' && PhoneLanguage(s[..|s| - 1]))
  }

  /** `validate_phone`: `re.match` with the anchored pattern, one trailing `\n` allowed. */
  function ValidatePhone(s: string): (ok: bool)
    ensures ok <==> PhoneAccepted(s)
  {
    MatchPhoneCorrect(s);
    MatchPhoneCorrect(if |s| > 0 then s[..|s| - 1] else s);
    MatchPhone(s) || (|s| > 0 && s[|s| - 1] == '\n' && MatchPhone(s[..|s| - 1]))
  }

  // ---------------------------------------------------------------------
  // check_session_timeout

  /** `check_session_timeout`, with the clock reading `now` in whole seconds. */
  function SessionTimedOut(lastActivity: int, now: int): bool {
    now - lastActivity > SessionTimeoutSeconds
  }

  /** The comparison is strict: still active at exactly 1800 s, expired one second later. */
  lemma SessionTimeoutBoundary(t: int)
    ensures !SessionTimedOut(t, t)
    ensures !SessionTimedOut(t, t + 1799) && !SessionTimedOut(t, t + 1800)
    ensures SessionTimedOut(t, t + 1801)
  {
  }

  /** Once expired, a session stays expired as the clock advances. */
  lemma SessionTimeoutMonotonic(lastActivity: int, now: int, later: int)
    requires SessionTimedOut(lastActivity, now) && now <= later
    ensures SessionTimedOut(lastActivity, later)
  {
  }
}
