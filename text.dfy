/**
 * The string handling the request handlers apply to form fields and token
 * claims: Python's `str.strip()`, `str.lower()`, `str.isdigit()`, `int(...)`
 * on a digit string and `str(n)` on a non-negative integer.
 */
module Text {

  /** Python's `str.isspace()` for a single character. */
  predicate IsSpace(c: char) {
    var n := c as int;
    (9 <= n <= 13) || (28 <= n <= 32) || n == 0x85 || n == 0xA0 || n == 0x1680
    || (0x2000 <= n <= 0x200A) || n == 0x2028 || n == 0x2029 || n == 0x202F
    || n == 0x205F || n == 0x3000
  }

  /** Neither end of `s` is whitespace. */
  predicate IsStripped(s: string) {
    s == [] || (!IsSpace(s[0]) && !IsSpace(s[|s| - 1]))
  }

  /** The first index at or after `i` whose character is not whitespace, or `|s|`. */
  function SkipSpace(s: string, i: nat): (j: nat)
    requires i <= |s|
    ensures i <= j <= |s|
    ensures forall k | i <= k < j :: IsSpace(s[k])
    ensures j < |s| ==> !IsSpace(s[j])
    decreases |s| - i
  {
    if i < |s| && IsSpace(s[i]) then SkipSpace(s, i + 1) else i
  }

  /** The index just after the last character before `j`, and not before `lo`, that is not whitespace; `lo` if none is. */
  function SkipSpaceBack(s: string, lo: nat, j: nat): (k: nat)
    requires lo <= j <= |s|
    ensures lo <= k <= j
    ensures forall m | k <= m < j :: IsSpace(s[m])
    ensures k > lo ==> !IsSpace(s[k - 1])
  {
    if j > lo && IsSpace(s[j - 1]) then SkipSpaceBack(s, lo, j - 1) else j
  }

  /** Python's `s.strip()`: the text between the leading and the trailing whitespace. */
  function Strip(s: string): (r: string)
    ensures IsStripped(r)
    ensures |r| <= |s|
    ensures IsStripped(s) ==> r == s
    // the input with only whitespace removed, and only at its two ends
    ensures exists a, b | 0 <= a <= b <= |s| ::
              && r == s[a..b]
              && (forall k | 0 <= k < a :: IsSpace(s[k]))
              && (forall k | b <= k < |s| :: IsSpace(s[k]))
  {
    var a := SkipSpace(s, 0);
    var b := SkipSpaceBack(s, a, |s|);
    assert forall k | b <= k < |s| :: IsSpace(s[k]);
    s[a..b]
  }

  /** Python's `str.lower()` on one character, restricted to ASCII letters. */
  function LowerChar(c: char): char {
    if 'A' <= c <= 'Z' then (c as int + 32) as char else c
  }

  /** Python's `str.lower()`, restricted to ASCII letters. */
  function Lower(s: string): (r: string)
    ensures |r| == |s|
    ensures forall i | 0 <= i < |s| :: r[i] == LowerChar(s[i])
  {
    seq(|s|, i requires 0 <= i < |s| => LowerChar(s[i]))
  }

  /** No ASCII upper-case letter occurs in `s`. */
  predicate IsLower(s: string) {
    forall i | 0 <= i < |s| :: !('A' <= s[i] <= 'Z')
  }

  /**
   * `(value or "").strip().lower()`: the normal form every handler gives an
   * e-mail address before it looks the address up or stores it.
   */
  function NormalizeEmail(s: string): (r: string)
    ensures IsStripped(r) && IsLower(r)
    ensures |r| == |Strip(s)|
    ensures forall i | 0 <= i < |r| :: r[i] == LowerChar(Strip(s)[i])
  {
    var t := Strip(s);
    LowerKeepsStripped(t);
    Lower(t)
  }

  /** Lower-casing never turns whitespace into non-whitespace or back. */
  lemma LowerKeepsStripped(s: string)
    requires IsStripped(s)
    ensures IsStripped(Lower(s))
  {
    if s != [] {
      assert Lower(s)[0] == LowerChar(s[0]);
      assert Lower(s)[|s| - 1] == LowerChar(s[|s| - 1]);
    }
  }

  /** `strip()` yields the empty string exactly when every character is whitespace. */
  lemma StripEmpty(s: string)
    ensures Strip(s) == [] <==> forall i | 0 <= i < |s| :: IsSpace(s[i])
  {
    var a := SkipSpace(s, 0);
    var b := SkipSpaceBack(s, a, |s|);
    assert Strip(s) == s[a..b];
  }

  /** An address is normal exactly when it has no surrounding whitespace and no upper-case letter. */
  lemma NormalizeEmailFixed(s: string)
    ensures NormalizeEmail(s) == s <==> IsStripped(s) && IsLower(s)
  {
    if IsStripped(s) && IsLower(s) {
      assert Lower(s) == s by {
        forall i | 0 <= i < |s| ensures Lower(s)[i] == s[i] {
          assert !('A' <= s[i] <= 'Z');
        }
      }
    }
  }

  /** Normalising an address twice is normalising it once. */
  lemma NormalizeEmailIdempotent(s: string)
    ensures NormalizeEmail(NormalizeEmail(s)) == NormalizeEmail(s)
  {
    NormalizeEmailFixed(NormalizeEmail(s));
  }

  // ---------------------------------------------------------------------------
  // Decimal digits: `str.isdigit()`, `int(s)` and `str(n)`

  predicate IsDigit(c: char) {
    '0' <= c <= '9'
  }

  /** Python's `str.isdigit()` on ASCII input: non-empty, and every character a digit. */
  predicate IsDigits(s: string) {
    |s| > 0 && forall i | 0 <= i < |s| :: IsDigit(s[i])
  }

  function DigitChar(d: nat): (c: char)
    requires d < 10
    ensures IsDigit(c) && c as int - '0' as int == d
  {
    ('0' as int + d) as char
  }

  /** Python's `int(s)` for a string of decimal digits (leading zeros allowed). */
  function DigitsValue(s: string): nat
    requires forall i | 0 <= i < |s| :: IsDigit(s[i])
  {
    if s == [] then 0
    else
      assert IsDigit(s[|s| - 1]);
      DigitsValue(s[..|s| - 1]) * 10 + (s[|s| - 1] as int - '0' as int)
  }

  /** Python's `str(n)` for a non-negative integer; `int(...)` reads it back. */
  function Decimal(n: nat): (r: string)
    ensures IsDigits(r)
    ensures DigitsValue(r) == n
    ensures r[0] == '0' ==> r == "0"
  {
    if n < 10 then [DigitChar(n)]
    else
      var head := Decimal(n / 10);
      var r := head + [DigitChar(n % 10)];
      assert r[..|r| - 1] == head;
      r
  }

  /** `int(s)` where a string that is not all digits raises (modelled as `None`). */
  function ParseNat(s: string): (r: Option<nat>)
    ensures r.Some? <==> IsDigits(s)
    ensures r.Some? ==> r.value == DigitsValue(s)
  {
    if IsDigits(s) then Some(DigitsValue(s)) else None
  }

  datatype Option<T> = None | Some(value: T)

  /** Python's `text or None` on a string: absent exactly when the text is empty. */
  function OrNone(s: string): (r: Option<string>)
    ensures r.None? <==> s == []
    ensures r.Some? ==> r.value == s
  {
    if s == [] then None else Some(s)
  }

  /**
   * Python's `request.form.get(name) or default`: the default when the field is
   * missing or empty, the submitted text otherwise.
   */
  function Or(field: Option<string>, default: string): (r: string)
    ensures r == default || (field.Some? && r == field.value && r != [])
    ensures field.Some? && field.value != [] ==> r == field.value
  {
    if field.Some? && field.value != [] then field.value else default
  }
}
