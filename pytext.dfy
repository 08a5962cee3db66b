/** The pieces of Python's `str` behaviour the program relies on:
    `rfind`, `lower`, `strip`, `isdigit` and `int(...)` on a string. */
module PyText {
  import opened Wrappers

  /** `s.rfind(c)`: the index of the last occurrence of `c`, or -1. */
  function RFind(s: string, c: char): (r: int)
    ensures -1 <= r < |s|
    ensures r >= 0 ==> s[r] == c
    ensures forall k :: r < k < |s| ==> s[k] != c
  {
    RFindBelow(s, c, |s|)
  }

  /** The last occurrence of `c` in `s[..hi]`, or -1. */
  function RFindBelow(s: string, c: char, hi: nat): (r: int)
    requires hi <= |s|
    ensures -1 <= r < hi
    ensures r >= 0 ==> s[r] == c
    ensures forall k :: r < k < hi ==> s[k] != c
  {
    if hi == 0 then -1
    else if s[hi - 1] == c then hi - 1
    else RFindBelow(s, c, hi - 1)
  }

  /** Case folding of one character. Only the ASCII capitals are folded.
      Of the other characters, only the Kelvin sign (to 'k') and U+0130 (to
      'i' and a combining dot) lower-case to text holding an ASCII letter;
      neither gives w, e, b or p, so the comparison with "webp" is
      unaffected. */
  function LowerChar(c: char): char {
    if 'A' <= c <= 'Z' then (c as int - 'A' as int + 'a' as int) as char else c
  }

  /** `s.lower()` restricted as described at LowerChar. */
  function Lower(s: string): (r: string)
    ensures |r| == |s|
    ensures forall i :: 0 <= i < |s| ==> r[i] == LowerChar(s[i])
  {
    seq(|s|, i requires 0 <= i < |s| => LowerChar(s[i]))
  }

  /** The characters for which Python's `str.isspace()` holds: tab to
      carriage return, the four separators U+001C-U+001F, space, U+0085,
      U+00A0, U+1680, U+2000-U+200A, U+2028, U+2029, U+202F, U+205F and
      U+3000. */
  predicate IsSpace(c: char) {
    || ('\t' <= c <= '\r')
    || ('\U{001C}' <= c <= ' ')
    || c == '\U{0085}' || c == '\U{00A0}' || c == '\U{1680}'
    || ('\U{2000}' <= c <= '\U{200A}')
    || c == '\U{2028}' || c == '\U{2029}' || c == '\U{202F}' || c == '\U{205F}' || c == '\U{3000}'
  }

  /** The file, group, record and unit separators U+001C-U+001F. */
  predicate IsSeparator(c: char) {
    '\U{001C}' <= c <= '\U{001F}'
  }

  /** The whitespace `int()` skips around a number. CPython turns every
      non-ASCII `isspace()` character into a space and then skips only the
      ASCII blanks tab to carriage return and space, so the separators,
      which `str.isspace()` accepts, are not skipped. */
  predicate IsIntSpace(c: char) {
    IsSpace(c) && !IsSeparator(c)
  }

  /** The suffix left after dropping the leading characters in `ws`;
      `s.lstrip()` when `ws` is `IsSpace`. */
  function TrimLeft(s: string, ws: char -> bool): (r: string)
    ensures |r| <= |s| && r == s[|s| - |r|..]
    ensures forall k :: 0 <= k < |s| - |r| ==> ws(s[k])
    ensures r == [] || !ws(r[0])
  {
    if |s| > 0 && ws(s[0]) then TrimLeft(s[1..], ws) else s
  }

  /** The prefix left after dropping the trailing characters in `ws`;
      `s.rstrip()` when `ws` is `IsSpace`. */
  function TrimRight(s: string, ws: char -> bool): (r: string)
    ensures |r| <= |s| && r == s[..|r|]
    ensures forall k :: |r| <= k < |s| ==> ws(s[k])
    ensures r == [] || !ws(r[|r| - 1])
  {
    if |s| > 0 && ws(s[|s| - 1]) then TrimRight(s[..|s| - 1], ws) else s
  }

  /** Dropping the characters in `ws` at both ends. */
  function StripBy(s: string, ws: char -> bool): string {
    TrimRight(TrimLeft(s, ws), ws)
  }

  /** `s.strip()`. */
  function Strip(s: string): string {
    StripBy(s, IsSpace)
  }

  predicate IsDecimalChar(c: char) {
    '0' <= c <= '9'
  }

  /** Characters outside 0-9 that Python's `str.isdigit()` accepts but
      `int()` rejects: the superscript digits U+00B2, U+00B3, U+00B9,
      U+2070 and U+2074-U+2079, and the subscript digits U+2080-U+2089. */
  predicate IsNonDecimalDigit(c: char) {
    || c == '\U{00B2}' || c == '\U{00B3}' || c == '\U{00B9}' || c == '\U{2070}'
    || ('\U{2074}' <= c <= '\U{2079}')
    || ('\U{2080}' <= c <= '\U{2089}')
  }

  predicate IsDigitChar(c: char) {
    IsDecimalChar(c) || IsNonDecimalDigit(c)
  }

  /** `s.isdigit()`: non-empty and every character a digit. */
  predicate IsDigit(s: string) {
    |s| > 0 && forall i :: 0 <= i < |s| ==> IsDigitChar(s[i])
  }

  /** Non-empty and made of 0-9 only (`s.isdecimal()` over ASCII). */
  predicate IsDecimal(s: string) {
    |s| > 0 && forall i :: 0 <= i < |s| ==> IsDecimalChar(s[i])
  }

  function DigitValue(c: char): nat
    requires IsDecimalChar(c)
  {
    c as int - '0' as int
  }

  /** The number a string of decimal digits denotes (leading zeros allowed). */
  function DecimalValue(s: string): nat
    requires forall i :: 0 <= i < |s| ==> IsDecimalChar(s[i])
  {
    if |s| == 0 then 0 else DecimalValue(s[..|s| - 1]) * 10 + DigitValue(s[|s| - 1])
  }

  function DigitChar(d: nat): (c: char)
    requires d < 10
    ensures IsDecimalChar(c) && DigitValue(c) == d
  {
    ('0' as int + d) as char
  }

  /** `str(n)` for a natural number. */
  function ShowNat(n: nat): (s: string)
    ensures IsDecimal(s)
  {
    if n < 10 then [DigitChar(n)] else ShowNat(n / 10) + [DigitChar(n % 10)]
  }

  /** `str(n)` for any integer. */
  function ShowInt(n: int): string {
    if n < 0 then "-" + ShowNat(-n) else ShowNat(n)
  }

  /** `sys.int_info.default_max_str_digits`: since Python 3.11 (and the
      security releases 3.7.14, 3.8.14, 3.9.14 and 3.10.7) `int()` raises
      ValueError on a string of more digits than this, leading zeros
      included, and `str(n)` raises for a number of more digits. */
  const MAX_STR_DIGITS := 4300

  /** The value of a run of decimal digits, or None past the digit limit. */
  function DigitsValue(d: string): Option<nat>
    requires IsDecimal(d)
  {
    if |d| > MAX_STR_DIGITS then None else Some(DecimalValue(d))
  }

  /** `int(s)` on a string: surrounding `IsIntSpace` whitespace, an
      optional sign and one to `MAX_STR_DIGITS` digits 0-9; anything else
      raises `ValueError` (None). */
  function ParseInt(s: string): Option<int> {
    ParseStripped(StripBy(s, IsIntSpace))
  }

  /** `int()` on text already stripped of surrounding whitespace. */
  function ParseStripped(t: string): Option<int> {
    if |t| > 1 && (t[0] == '-' || t[0] == '+') && IsDecimal(t[1..]) then
      match DigitsValue(t[1..])
      case None => None
      case Some(v) => var w: int := v; Some(if t[0] == '-' then -w else w)
    else if IsDecimal(t) then
      match DigitsValue(t)
      case None => None
      case Some(v) => Some(v)
    else None
  }

  lemma {:induction false} DecimalValueOfShowNat(n: nat)
    ensures DecimalValue(ShowNat(n)) == n
  {
    if n >= 10 {
      var s := ShowNat(n);
      assert s[..|s| - 1] == ShowNat(n / 10);
      DecimalValueOfShowNat(n / 10);
    }
  }

  /** A string whose ends are not in `ws` is left alone. */
  lemma StripByUntrimmed(s: string, ws: char -> bool)
    requires |s| > 0 && !ws(s[0]) && !ws(s[|s| - 1])
    ensures StripBy(s, ws) == s
  {
  }

  /** A string without whitespace at either end is left alone by `strip()`. */
  lemma StripUntrimmed(s: string)
    requires |s| > 0 && !IsSpace(s[0]) && !IsSpace(s[|s| - 1])
    ensures Strip(s) == s
  {
    StripByUntrimmed(s, IsSpace);
  }

  /** `int(str(n)) == n` for every number `str` can print, negative ones
      included; the digits of a longer number are rejected by `int()`, as
      `str(n)` itself raises for it. */
  lemma {:induction false} ParseShowInt(n: int)
    ensures |ShowNat(if n < 0 then -n else n)| <= MAX_STR_DIGITS ==> ParseInt(ShowInt(n)) == Some(n)
    ensures |ShowNat(if n < 0 then -n else n)| > MAX_STR_DIGITS ==> ParseInt(ShowInt(n)) == None
  {
    var s := ShowInt(n);
    var magnitude: nat := if n < 0 then -n else n;
    var digits := ShowNat(magnitude);
    DecimalValueOfShowNat(magnitude);
    if n >= 0 {
      assert s == digits;
      ParseDigits(digits);
    } else {
      assert s == "-" + digits;
      ParseNegative(digits);
    }
  }

  /** `int()` on a minus sign followed by digits 0-9: the negated value,
      or a raise past the digit limit. */
  lemma {:induction false} ParseNegative(d: string)
    requires IsDecimal(d)
    ensures ParseInt("-" + d) == (if |d| <= MAX_STR_DIGITS then Some(-(DecimalValue(d) as int)) else None)
  {
    var s := "-" + d;
    assert IsDigitChar(d[|d| - 1]);
    DigitsAreNotSpace(d[|d| - 1]);
    assert !IsIntSpace(s[0]) && !IsIntSpace(s[|s| - 1]);
    StripByUntrimmed(s, IsIntSpace);
    assert s[1..] == d;
  }

  /** Digit characters are never whitespace. */
  lemma DigitsAreNotSpace(c: char)
    requires IsDigitChar(c)
    ensures !IsSpace(c) && !IsIntSpace(c)
  {
  }

  /** `int()` on a run of `isdigit()` characters: their value when they
      are all 0-9 and within the digit limit, otherwise it raises. */
  lemma {:induction false} ParseDigits(t: string)
    requires IsDigit(t)
    ensures ParseInt(t) == (if IsDecimal(t) && |t| <= MAX_STR_DIGITS then Some(DecimalValue(t)) else None)
  {
    assert IsDigitChar(t[0]) && IsDigitChar(t[|t| - 1]);
    DigitsAreNotSpace(t[0]);
    DigitsAreNotSpace(t[|t| - 1]);
    StripByUntrimmed(t, IsIntSpace);
    assert t[0] != '-' && t[0] != '+';
  }

  /** Leading characters in `ws` are dropped by `TrimLeft`. */
  lemma {:induction false} TrimLeftSpaces(pre: string, x: string, ws: char -> bool)
    requires forall k :: 0 <= k < |pre| ==> ws(pre[k])
    ensures TrimLeft(pre + x, ws) == TrimLeft(x, ws)
  {
    if |pre| > 0 {
      assert (pre + x)[1..] == pre[1..] + x;
      TrimLeftSpaces(pre[1..], x, ws);
    } else {
      assert pre + x == x;
    }
  }

  /** Trailing characters in `ws` are dropped by `TrimRight`. */
  lemma {:induction false} TrimRightSpaces(x: string, post: string, ws: char -> bool)
    requires forall k :: 0 <= k < |post| ==> ws(post[k])
    ensures TrimRight(x + post, ws) == TrimRight(x, ws)
  {
    if |post| > 0 {
      var m := |post|;
      assert (x + post)[..|x + post| - 1] == x + post[..m - 1];
      TrimRightSpaces(x, post[..m - 1], ws);
    } else {
      assert x + post == x;
    }
  }

  /** Text that starts outside `ws` is left alone by `TrimLeft`. */
  lemma TrimLeftStops(x: string, ws: char -> bool)
    requires |x| > 0 && !ws(x[0])
    ensures TrimLeft(x, ws) == x
  {
  }

  /** Text appended after the first character outside `ws` survives
      `TrimLeft`. */
  lemma {:induction false} TrimLeftAppend(s: string, post: string, ws: char -> bool)
    requires TrimLeft(s, ws) != []
    ensures TrimLeft(s + post, ws) == TrimLeft(s, ws) + post
  {
    if ws(s[0]) {
      assert (s + post)[1..] == s[1..] + post;
      TrimLeftAppend(s[1..], post, ws);
    } else {
      TrimLeftStops(s + post, ws);
    }
  }

  /** Text made only of `ws` characters stays so when more are appended,
      so `TrimLeft` empties it. */
  lemma {:induction false} TrimLeftBlank(s: string, post: string, ws: char -> bool)
    requires TrimLeft(s, ws) == []
    requires forall k :: 0 <= k < |post| ==> ws(post[k])
    ensures TrimLeft(s + post, ws) == []
  {
    var sp := s + post;
    forall k | 0 <= k < |sp| ensures ws(sp[k]) {
      if k < |s| {
        assert sp[k] == s[k];
      } else {
        assert sp[k] == post[k - |s|];
      }
    }
    TrimLeftSpaces(sp, [], ws);
    assert sp + [] == sp;
  }

  /** Stripping does not see padding around its argument: `strip()` with
      `ws` = `IsSpace`, and the skipping `int()` does with `IsIntSpace`. */
  lemma {:induction false} StripPadded(pre: string, s: string, post: string, ws: char -> bool)
    requires forall k :: 0 <= k < |pre| ==> ws(pre[k])
    requires forall k :: 0 <= k < |post| ==> ws(post[k])
    ensures StripBy(pre + s + post, ws) == StripBy(s, ws)
  {
    assert pre + s + post == pre + (s + post);
    TrimLeftSpaces(pre, s + post, ws);
    if TrimLeft(s, ws) != [] {
      calc {
        StripBy(pre + s + post, ws);
        TrimRight(TrimLeft(s + post, ws), ws);
        { TrimLeftAppend(s, post, ws); }
        TrimRight(TrimLeft(s, ws) + post, ws);
        { TrimRightSpaces(TrimLeft(s, ws), post, ws); }
        TrimRight(TrimLeft(s, ws), ws);
      }
    } else {
      TrimLeftBlank(s, post, ws);
    }
  }

  /** Stripping is idempotent. */
  lemma {:induction false} StripIdempotent(s: string, ws: char -> bool)
    ensures StripBy(StripBy(s, ws), ws) == StripBy(s, ws)
  {
    var t := TrimLeft(s, ws);
    var r := StripBy(s, ws);
    if r != [] {
      assert r[0] == t[0];
      StripByUntrimmed(r, ws);
    }
  }

  /** `TrimLeft` depends only on `ws` at the characters of its argument. */
  lemma {:induction false} TrimLeftAgree(s: string, ws: char -> bool, ws': char -> bool)
    requires forall k :: 0 <= k < |s| ==> (ws(s[k]) <==> ws'(s[k]))
    ensures TrimLeft(s, ws) == TrimLeft(s, ws')
  {
    if |s| > 0 && ws(s[0]) {
      assert forall k :: 0 <= k < |s[1..]| ==> s[1..][k] == s[k + 1];
      TrimLeftAgree(s[1..], ws, ws');
    }
  }

  /** `TrimRight` depends only on `ws` at the characters of its argument. */
  lemma {:induction false} TrimRightAgree(s: string, ws: char -> bool, ws': char -> bool)
    requires forall k :: 0 <= k < |s| ==> (ws(s[k]) <==> ws'(s[k]))
    ensures TrimRight(s, ws) == TrimRight(s, ws')
  {
    if |s| > 0 && ws(s[|s| - 1]) {
      assert forall k :: 0 <= k < |s| - 1 ==> s[..|s| - 1][k] == s[k];
      TrimRightAgree(s[..|s| - 1], ws, ws');
    }
  }

  /** On text without the four separators, `strip()` removes exactly what
      `int()` skips. */
  lemma {:induction false} StripWithoutSeparators(s: string)
    requires forall k :: 0 <= k < |s| ==> !IsSeparator(s[k])
    ensures Strip(s) == StripBy(s, IsIntSpace)
  {
    var t := TrimLeft(s, IsSpace);
    TrimLeftAgree(s, IsSpace, IsIntSpace);
    assert forall k :: 0 <= k < |t| ==> t[k] == s[|s| - |t| + k];
    TrimRightAgree(t, IsSpace, IsIntSpace);
  }

  /** `int()` ignores the whitespace it skips around the number, and on
      text without the four separators it gives the same result on the
      `strip()`ped text. */
  lemma {:induction false} ParseIntIgnoresPadding(pre: string, s: string, post: string)
    requires forall k :: 0 <= k < |pre| ==> IsIntSpace(pre[k])
    requires forall k :: 0 <= k < |post| ==> IsIntSpace(post[k])
    ensures ParseInt(pre + s + post) == ParseInt(s)
    ensures (forall k :: 0 <= k < |s| ==> !IsSeparator(s[k])) ==> ParseInt(Strip(s)) == ParseInt(s)
  {
    StripPadded(pre, s, post, IsIntSpace);
    if forall k :: 0 <= k < |s| ==> !IsSeparator(s[k]) {
      StripWithoutSeparators(s);
      StripIdempotent(s, IsIntSpace);
    }
  }

  /** `int()` rejects stripped text that ends in a non-digit, or that
      starts with a character that is neither a digit nor a sign. */
  lemma {:induction false} ParseStrippedRejects(t: string)
    requires |t| > 0
    requires !IsDecimalChar(t[|t| - 1]) || (!IsDecimalChar(t[0]) && t[0] != '-' && t[0] != '+')
    ensures ParseStripped(t) == None
  {
    if |t| > 1 && !IsDecimalChar(t[|t| - 1]) {
      assert t[1..][|t| - 2] == t[|t| - 1];
    }
  }

  /** A separator at either end of the text makes `int()` raise, although
      `strip()` would remove it. */
  lemma {:induction false} SeparatorRejected(c: char, s: string)
    requires IsSeparator(c)
    ensures ParseInt([c] + s) == None
    ensures ParseInt(s + [c]) == None
  {
    var a := [c] + s;
    assert !IsIntSpace(a[0]);
    var r := StripBy(a, IsIntSpace);
    assert r == TrimRight(a, IsIntSpace);
    assert r != [] && r[0] == c;
    ParseStrippedRejects(r);

    var b := s + [c];
    var t := TrimLeft(b, IsIntSpace);
    assert b[|b| - 1] == c;
    assert t != [] && t[|t| - 1] == c;
    assert !IsIntSpace(t[|t| - 1]);
    assert StripBy(b, IsIntSpace) == t;
    ParseStrippedRejects(t);
  }
}
