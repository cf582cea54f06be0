/**
 * The few pieces of Python's `str` behaviour the reminder core relies on:
 * `isspace`, `lower`/`upper`, `split(sep, maxsplit)`, `strip`, `int(s)` and `str(n)`.
 */
module Text {
  import opened Wrappers

  /** ASCII decimal digit: the only digits this model accepts for `\d` and `int()`. */
  predicate IsDigit(c: char) {
    '0' <= c <= '9'
  }

  predicate AllDigits(s: string) {
    forall i :: 0 <= i < |s| ==> IsDigit(s[i])
  }

  function DigitValue(c: char): (v: nat)
    requires IsDigit(c)
    ensures v <= 9
  {
    c as int - '0' as int
  }

  function Digit(v: nat): (c: char)
    requires v <= 9
    ensures IsDigit(c) && DigitValue(c) == v
  {
    ('0' as int + v) as char
  }

  /** Python's `str.isspace()`: the characters both `\s` in `re` and `str.split()` treat as whitespace. */
  predicate IsSpace(c: char) {
    c == ' ' || '\t' <= c <= '\r' || '\U{1C}' <= c <= '\U{1F}' || c == '\U{85}' || c == '\U{A0}'
    || c == '\U{1680}' || '\U{2000}' <= c <= '\U{200A}' || c == '\U{2028}' || c == '\U{2029}'
    || c == '\U{202F}' || c == '\U{205F}' || c == '\U{3000}'
  }

  predicate AllSpace(s: string) {
    forall i :: 0 <= i < |s| ==> IsSpace(s[i])
  }

  // ---------------------------------------------------------------- case mapping

  /** `str.lower()` on one character, for ASCII and the Cyrillic block U+0400..U+042F. */
  function LowerChar(c: char): char {
    if 'A' <= c <= 'Z' || '\U{0410}' <= c <= '\U{042F}' then (c as int + 32) as char
    else if '\U{0400}' <= c <= '\U{040F}' then (c as int + 80) as char
    else c
  }

  /** `str.upper()` on one character, for ASCII and the Cyrillic block U+0430..U+045F. */
  function UpperChar(c: char): char {
    if 'a' <= c <= 'z' || '\U{0430}' <= c <= '\U{044F}' then (c as int - 32) as char
    else if '\U{0450}' <= c <= '\U{045F}' then (c as int - 80) as char
    else c
  }

  /** A lower-case letter of the modelled alphabets. */
  predicate IsLowerLetter(c: char) {
    'a' <= c <= 'z' || '\U{0430}' <= c <= '\U{045F}'
  }

  /** An upper-case letter of the modelled alphabets. */
  predicate IsUpperLetter(c: char) {
    'A' <= c <= 'Z' || '\U{0400}' <= c <= '\U{042F}'
  }

  /** `s.lower()`, character by character; `LowerFoldsCase` states what it does. */
  function Lower(s: string): (t: string)
    ensures |t| == |s|
  {
    seq(|s|, i requires 0 <= i < |s| => LowerChar(s[i]))
  }

  /**
   * `s.lower()` leaves no upper-case letter, and position by position gives the same
   * letter up to case; anything that is not an upper-case letter, digits and
   * whitespace included, is kept.
   */
  lemma LowerFoldsCase(s: string)
    ensures forall i :: 0 <= i < |s| ==>
      !IsUpperLetter(Lower(s)[i]) && UpperChar(Lower(s)[i]) == UpperChar(s[i])
    ensures forall i :: 0 <= i < |s| && !IsUpperLetter(s[i]) ==> Lower(s)[i] == s[i]
  {
  }

  /**
   * `s.upper()`: the result has the same length, no lower-case letter is left,
   * and position by position it is the same letter up to case.
   */
  function Upper(s: string): (t: string)
    ensures |t| == |s|
    ensures forall i :: 0 <= i < |t| ==> !IsLowerLetter(t[i]) && LowerChar(t[i]) == LowerChar(s[i])
  {
    seq(|s|, i requires 0 <= i < |s| => UpperChar(s[i]))
  }

  // ---------------------------------------------------------------- split

  /** The pieces joined back with the separator, the inverse of `split`. */
  function Join(parts: seq<string>, sep: char): string {
    if |parts| == 0 then []
    else if |parts| == 1 then parts[0]
    else parts[0] + [sep] + Join(parts[1..], sep)
  }

  /** Position of the first `c` in `s`, or `|s|` when there is none. */
  function IndexOf(s: string, c: char): (i: nat)
    ensures i <= |s|
    ensures i < |s| ==> s[i] == c
    ensures c !in s[..i]
  {
    if s == [] then 0
    else if s[0] == c then 0
    else
      var j := IndexOf(s[1..], c);
      assert s[1..][..j] == s[1..j + 1];
      1 + j
  }

  /**
   * Python's `s.split(sep, maxsplit)` with a one-character separator: at most
   * `maxsplit` cuts, made at the leftmost separators, empty pieces kept. The pieces
   * join back to `s`, no piece but the last holds the separator, and the last holds
   * one only when all `maxsplit` cuts were made.
   */
  function SplitOn(s: string, sep: char, maxsplit: nat): (parts: seq<string>)
    ensures 1 <= |parts| <= maxsplit + 1
    ensures Join(parts, sep) == s
    ensures forall k :: 0 <= k < |parts| - 1 ==> sep !in parts[k]
    ensures |parts| <= maxsplit ==> sep !in parts[|parts| - 1]
    decreases maxsplit
  {
    var i := IndexOf(s, sep);
    if maxsplit == 0 || i == |s| then
      [s]
    else
      var rest := SplitOn(s[i + 1..], sep, maxsplit - 1);
      var parts := [s[..i]] + rest;
      assert parts[1..] == rest;
      assert s == s[..i] + [sep] + s[i + 1..];
      parts
  }

  /** A head without the separator is cut off as the first piece. */
  lemma {:induction false} SplitOnHead(a: string, sep: char, b: string, maxsplit: nat)
    requires sep !in a && maxsplit >= 1
    ensures SplitOn(a + [sep] + b, sep, maxsplit) == [a] + SplitOn(b, sep, maxsplit - 1)
  {
    var s := a + [sep] + b;
    var i := IndexOf(s, sep);
    assert s[|a|] == sep;
    assert i == |a|;
    assert s[..i] == a;
    assert s[i + 1..] == b;
  }

  /** A string without the separator is not cut. */
  lemma SplitOnNone(s: string, sep: char, maxsplit: nat)
    requires sep !in s
    ensures SplitOn(s, sep, maxsplit) == [s]
  {
    assert s[..IndexOf(s, sep)] == s[..|s|];
  }

  // ---------------------------------------------------------------- strip

  /** `s.lstrip()`: the longest suffix of `s` that does not start with whitespace. */
  function StripLeft(s: string): (t: string)
    ensures |t| <= |s| && t == s[|s| - |t|..]
    ensures forall j :: 0 <= j < |s| - |t| ==> IsSpace(s[j])
    ensures t != [] ==> !IsSpace(t[0])
  {
    if s != [] && IsSpace(s[0]) then StripLeft(s[1..]) else s
  }

  /** `s.rstrip()`: the longest prefix of `s` that does not end with whitespace. */
  function StripRight(s: string): (t: string)
    ensures |t| <= |s| && t == s[..|t|]
    ensures forall j :: |t| <= j < |s| ==> IsSpace(s[j])
    ensures t != [] ==> !IsSpace(t[|t| - 1])
  {
    if s != [] && IsSpace(s[|s| - 1]) then StripRight(s[..|s| - 1]) else s
  }

  /**
   * `s.strip()`: a contiguous middle part of `s`, with only whitespace cut off before
   * and after it, that neither starts nor ends with whitespace; a string that
   * neither starts nor ends with whitespace is its own strip.
   */
  function Strip(s: string): (t: string)
    ensures |t| <= |s|
    ensures exists a :: TrimmedAt(s, t, a)
    ensures t != [] ==> !IsSpace(t[0]) && !IsSpace(t[|t| - 1])
    ensures (s != [] && !IsSpace(s[0]) && !IsSpace(s[|s| - 1])) ==> t == s
    ensures AllSpace(s) <==> t == []
  {
    StripTrims(s);
    StripEnds(s);
    StripAllSpace(s);
    StripClean(s);
    StripRight(StripLeft(s))
  }

  /** `t` is the part of `s` from `a` on, with nothing but whitespace before and after it. */
  predicate TrimmedAt(s: string, t: string, a: int) {
    0 <= a <= |s| - |t| && t == s[a..a + |t|] && AllSpace(s[..a]) && AllSpace(s[a + |t|..])
  }

  lemma StripTrims(s: string)
    ensures TrimmedAt(s, StripRight(StripLeft(s)), |s| - |StripLeft(s)|)
  {
    var l := StripLeft(s);
    var t := StripRight(l);
    TrimmedFrom(s, l, t);
  }

  /** Whitespace cut off the front of `s` leaves `l`; whitespace cut off the back of `l` leaves `t`. */
  lemma TrimmedFrom(s: string, l: string, t: string)
    requires |l| <= |s| && l == s[|s| - |l|..]
    requires forall j :: 0 <= j < |s| - |l| ==> IsSpace(s[j])
    requires |t| <= |l| && t == l[..|t|]
    requires forall j :: |t| <= j < |l| ==> IsSpace(l[j])
    ensures TrimmedAt(s, t, |s| - |l|)
  {
    var a := |s| - |l|;
    var pre := s[..a];
    forall j | 0 <= j < |pre| ensures IsSpace(pre[j]) {
      assert pre[j] == s[j];
    }
    var post := s[a + |t|..];
    forall j | 0 <= j < |post| ensures IsSpace(post[j]) {
      assert post[j] == l[|t| + j];
    }
  }

  lemma StripEnds(s: string)
    ensures var t := StripRight(StripLeft(s));
      |t| <= |s| && (t != [] ==> !IsSpace(t[0]) && !IsSpace(t[|t| - 1]))
  {
    var l := StripLeft(s);
    var t := StripRight(l);
    if t != [] {
      assert t[0] == l[0];
    }
  }

  lemma StripAllSpace(s: string)
    ensures AllSpace(s) <==> StripRight(StripLeft(s)) == []
  {
    var l := StripLeft(s);
    var t := StripRight(l);
    var k := |s| - |l|;
    if l == [] {
      assert t == [];
    } else {
      assert !IsSpace(l[0]);
      assert t != [];
      assert s[k] == l[0];
    }
  }

  lemma StripClean(s: string)
    ensures (s != [] && !IsSpace(s[0]) && !IsSpace(s[|s| - 1])) ==> StripRight(StripLeft(s)) == s
  {
    if s != [] && !IsSpace(s[0]) && !IsSpace(s[|s| - 1]) {
      assert StripLeft(s) == s;
    }
  }

  /** Digits, with single underscores allowed between two digits: the body `int()` accepts in base 10. */
  predicate IsDigitRun(s: string) {
    && |s| > 0
    && IsNumeral(s)
    && forall i :: 0 <= i < |s| && s[i] == '_' ==> 0 < i && i + 1 < |s| && IsDigit(s[i + 1])
  }

  /** Digits and underscores only. */
  predicate IsNumeral(s: string) {
    forall i :: 0 <= i < |s| ==> IsDigit(s[i]) || s[i] == '_'
  }

  /** The value of a decimal numeral, underscores skipped. */
  function DigitsValue(s: string): nat
    requires IsNumeral(s)
  {
    if s == [] then 0
    else if s[|s| - 1] == '_' then DigitsValue(s[..|s| - 1])
    else DigitsValue(s[..|s| - 1]) * 10 + DigitValue(s[|s| - 1])
  }

  // ---------------------------------------------------------------- int()

  /**
   * The whitespace `int()` skips around a numeral: that of `str.isspace()` except the
   * ASCII separators U+001C..U+001F, which `int()` refuses in an ASCII string.
   */
  predicate IsIntSpace(c: char) {
    IsSpace(c) && !('\U{1C}' <= c <= '\U{1F}')
  }

  predicate AllIntSpace(s: string) {
    forall i :: 0 <= i < |s| ==> IsIntSpace(s[i])
  }

  function IntTrimLeft(s: string): (t: string)
    ensures |t| <= |s| && t == s[|s| - |t|..]
    ensures forall j :: 0 <= j < |s| - |t| ==> IsIntSpace(s[j])
    ensures t != [] ==> !IsIntSpace(t[0])
  {
    if s != [] && IsIntSpace(s[0]) then IntTrimLeft(s[1..]) else s
  }

  function IntTrimRight(s: string): (t: string)
    ensures |t| <= |s| && t == s[..|t|]
    ensures forall j :: |t| <= j < |s| ==> IsIntSpace(s[j])
    ensures t != [] ==> !IsIntSpace(t[|t| - 1])
  {
    if s != [] && IsIntSpace(s[|s| - 1]) then IntTrimRight(s[..|s| - 1]) else s
  }

  /** `t` is the part of `s` from `a` on, with nothing but `int()` whitespace before and after it. */
  predicate IntTrimmedAt(s: string, t: string, a: int) {
    0 <= a <= |s| - |t| && t == s[a..a + |t|] && AllIntSpace(s[..a]) && AllIntSpace(s[a + |t|..])
  }

  /**
   * The text `int(s)` reads as a numeral: a contiguous middle part of `s`, with only
   * `int()` whitespace cut off before and after it, that neither starts nor ends with
   * such whitespace.
   */
  function IntTrim(s: string): (t: string)
    ensures exists a :: IntTrimmedAt(s, t, a)
    ensures t != [] ==> !IsIntSpace(t[0]) && !IsIntSpace(t[|t| - 1])
    ensures (s != [] && !IsIntSpace(s[0]) && !IsIntSpace(s[|s| - 1])) ==> t == s
  {
    var l := IntTrimLeft(s);
    var t := IntTrimRight(l);
    IntTrimmedFrom(s, l, t);
    assert t != [] ==> t[0] == l[0];
    t
  }

  lemma IntTrimmedFrom(s: string, l: string, t: string)
    requires |l| <= |s| && l == s[|s| - |l|..]
    requires forall j :: 0 <= j < |s| - |l| ==> IsIntSpace(s[j])
    requires |t| <= |l| && t == l[..|t|]
    requires forall j :: |t| <= j < |l| ==> IsIntSpace(l[j])
    ensures IntTrimmedAt(s, t, |s| - |l|)
  {
    var a := |s| - |l|;
    var pre := s[..a];
    forall j | 0 <= j < |pre| ensures IsIntSpace(pre[j]) {
      assert pre[j] == s[j];
    }
    var post := s[a + |t|..];
    forall j | 0 <= j < |post| ensures IsIntSpace(post[j]) {
      assert post[j] == l[|t| + j];
    }
  }

  /**
   * Python's `int(s)` in base 10: `int()` whitespace skipped at both ends, then an
   * optional sign and a digit run; text without such whitespace at its ends is read
   * as it stands.
   */
  function PyInt(s: string): (r: Option<int>)
    ensures (s != [] && !IsIntSpace(s[0]) && !IsIntSpace(s[|s| - 1])) ==> r == ReadSigned(s)
  {
    ReadSigned(IntTrim(s))
  }

  /**
   * Whatever `int(s)` accepts, `str.strip()` followed by the same reading accepts with
   * the same value: `str.strip()` cuts off exactly what `int()` skips.
   */
  lemma IntTrimStrips(s: string)
    ensures PyInt(s).Some? ==> Strip(s) == IntTrim(s) && ReadSigned(Strip(s)) == PyInt(s)
  {
    var t := IntTrim(s);
    if ReadSigned(t).Some? {
      ReadSignedEnds(t);
      var a :| IntTrimmedAt(s, t, a);
      IntTrimmedIsTrimmed(s, t, a);
      StripFindsTrimmed(s, t, a);
    }
  }

  /** A cut with only whitespace around it and none at its ends is the strip. */
  lemma StripFindsTrimmed(s: string, t: string, a: int)
    requires TrimmedAt(s, t, a) && t != [] && !IsSpace(t[0]) && !IsSpace(t[|t| - 1])
    ensures Strip(s) == t
  {
    var u := Strip(s);
    assert !AllSpace(s) by {
      assert s[a] == t[0];
    }
    var b :| TrimmedAt(s, u, b);
    TrimmedUnique(s, t, a, u, b);
  }

  lemma IntTrimmedIsTrimmed(s: string, t: string, a: int)
    requires IntTrimmedAt(s, t, a)
    ensures TrimmedAt(s, t, a)
  {
  }

  /** Two cuts of `s` with only whitespace around them and none at their ends are the same cut. */
  lemma TrimmedUnique(s: string, t: string, a: int, u: string, b: int)
    requires TrimmedAt(s, t, a) && t != [] && !IsSpace(t[0]) && !IsSpace(t[|t| - 1])
    requires TrimmedAt(s, u, b) && u != [] && !IsSpace(u[0]) && !IsSpace(u[|u| - 1])
    ensures t == u
  {
    TrimmedAtIndices(s, t, a);
    TrimmedAtIndices(s, u, b);
    assert a == b;
    assert |t| == |u|;
  }

  /** `TrimmedAt` spelt out position by position in `s`. */
  lemma TrimmedAtIndices(s: string, t: string, a: int)
    requires TrimmedAt(s, t, a) && t != []
    ensures forall j :: 0 <= j < a ==> IsSpace(s[j])
    ensures forall j :: a + |t| <= j < |s| ==> IsSpace(s[j])
    ensures s[a] == t[0] && s[a + |t| - 1] == t[|t| - 1]
  {
    forall j | 0 <= j < a ensures IsSpace(s[j]) {
      assert s[..a][j] == s[j];
    }
    forall j | a + |t| <= j < |s| ensures IsSpace(s[j]) {
      assert s[a + |t|..][j - a - |t|] == s[j];
    }
  }

  /** A numeral neither starts nor ends with whitespace. */
  lemma ReadSignedEnds(t: string)
    ensures ReadSigned(t).Some? ==> t != [] && !IsSpace(t[0]) && !IsSpace(t[|t| - 1])
  {
    if ReadSigned(t).Some? {
      var body := if t[0] == '+' || t[0] == '-' then t[1..] else t;
      DigitRunEnds(body);
      assert body[|body| - 1] == t[|t| - 1];
    }
  }

  /** When `int(s)` succeeds, `int(s.strip())` succeeds with the same value. */
  lemma StripKeepsPyInt(s: string)
    ensures PyInt(s).Some? ==> PyInt(Strip(s)) == PyInt(s)
  {
    var t := Strip(s);
    if PyInt(s).Some? {
      IntTrimStrips(s);
      ReadSignedEnds(t);
    }
  }

  /**
   * The converse fails: `int()` refuses a digit run followed by U+001F, so
   * `int("5\x1f")` raises, while `StripDropsSeparator` shows `str.strip()` removing it.
   */
  lemma SeparatorRefusedByInt(d: string)
    requires IsDigitRun(d)
    ensures PyInt(d + "\U{1F}") == None
  {
    var s := d + "\U{1F}";
    DigitRunEnds(d);
    assert s[0] == d[0] && s[|s| - 1] == '\U{1F}';
    assert PyInt(s) == ReadSigned(s);
    assert !IsNumeral(s) by {
      assert !IsDigit(s[|s| - 1]) && s[|s| - 1] != '_';
    }
  }

  /** `str.strip()` removes a U+001F after a digit run, so `int("5\x1f".strip())` is 5. */
  lemma StripDropsSeparator(d: string)
    requires IsDigitRun(d)
    ensures Strip(d + "\U{1F}") == d
  {
    var s := d + "\U{1F}";
    DigitRunEnds(d);
    assert s[0] == d[0];
    assert StripLeft(s) == s;
    assert StripRight(s) == StripRight(d) by {
      assert IsSpace(s[|s| - 1]) && s[..|s| - 1] == d;
    }
    assert StripRight(d) == d by {
      assert !IsSpace(d[|d| - 1]);
    }
  }

  /** A digit run starts and ends with a digit. */
  lemma DigitRunEnds(d: string)
    requires IsDigitRun(d)
    ensures IsDigit(d[0]) && IsDigit(d[|d| - 1])
  {
    assert d[|d| - 1] != '_';
  }

  /** An optional sign followed by a digit run, and nothing else. */
  function ReadSigned(t: string): Option<int> {
    if |t| > 0 && (t[0] == '+' || t[0] == '-') then
      var body := t[1..];
      var magnitude: int := if IsDigitRun(body) then DigitsValue(body) else 0;
      if IsDigitRun(body) then Some(if t[0] == '-' then -magnitude else magnitude)
      else None
    else if IsDigitRun(t) then Some(DigitsValue(t))
    else None
  }

  /** `str(n)` for a natural number: decimal digits without leading zeros. */
  function ShowNat(n: nat): (s: string)
    ensures |s| >= 1 && AllDigits(s)
    ensures s[0] == '0' ==> n == 0
    ensures DigitsValue(s) == n
  {
    if n < 10 then [Digit(n)]
    else
      var init := ShowNat(n / 10);
      var s := init + [Digit(n % 10)];
      assert s[..|s| - 1] == init;
      s
  }

  /**
   * `str(n)` for any integer: a minus sign exactly when `n` is negative, then the
   * decimal digits of its magnitude without leading zeros.
   */
  function ShowInt(n: int): (s: string)
    ensures |s| >= 1 && (s[0] == '-' <==> n < 0)
    ensures var d := if n < 0 then s[1..] else s;
      && |d| >= 1 && AllDigits(d) && (d[0] == '0' ==> n == 0)
      && DigitsValue(d) == (if n < 0 then -n else n)
  {
    if n < 0 then "-" + ShowNat(-n) else ShowNat(n)
  }

  /** `int(str(n)) == n`: printing an integer and reading it back gives it back. */
  lemma ShowIntRoundTrip(n: int)
    ensures PyInt(ShowInt(n)) == Some(n)
  {
    var s := ShowInt(n);
    var d := if n < 0 then s[1..] else s;
    assert s[|s| - 1] == d[|d| - 1];
    assert !IsIntSpace(s[0]) && !IsIntSpace(s[|s| - 1]);
    ReadShown(n);
  }

  lemma ReadShown(n: int)
    ensures ReadSigned(ShowInt(n)) == Some(n)
  {
    var s := ShowInt(n);
    if n < 0 {
      var d := s[1..];
      DigitsAreRun(d);
      assert DigitsValue(d) == -n;
    } else {
      DigitsAreRun(s);
    }
  }

  lemma DigitsAreRun(d: string)
    requires |d| > 0 && AllDigits(d)
    ensures IsDigitRun(d)
  {
  }

  /** `str(n)` never holds an underscore. */
  lemma ShowIntNoUnderscore(n: int)
    ensures '_' !in ShowInt(n)
  {
    var digits := if n < 0 then ShowNat(-n) else ShowNat(n);
    assert forall i :: 0 <= i < |digits| ==> digits[i] != '_';
    if n < 0 {
      assert ShowInt(n) == ['-'] + digits;
      assert forall i :: 0 <= i < |ShowInt(n)| ==> ShowInt(n)[i] != '_' by {
        forall i | 0 <= i < |ShowInt(n)| ensures ShowInt(n)[i] != '_' {
          if i > 0 { assert ShowInt(n)[i] == digits[i - 1]; }
        }
      }
    }
  }
}
