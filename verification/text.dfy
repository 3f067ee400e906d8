/**
 * The string primitives the backend and the page rely on: Java's
 * `toLowerCase`, `trim` and `contains`, and JavaScript's `trim`,
 * `replace` (with a string pattern), `padStart` and `String(number)`.
 * Strings are sequences of Unicode scalar values.
 */
module Text {
  import opened Wrappers

  // ---------------------------------------------------------------------
  // Lower-casing
  // ---------------------------------------------------------------------

  predicate IsAsciiUpper(c: char) {
    'A' <= c <= 'Z'
  }

  /** Lower-cases one character; only the ASCII letters are mapped. */
  function LowerChar(c: char): (r: char)
    ensures !IsAsciiUpper(r)
    ensures !IsAsciiUpper(c) ==> r == c
  {
    if IsAsciiUpper(c) then (c as int + 32) as char else c
  }

  /** `String.toLowerCase()`, restricted to the ASCII letters. */
  function ToLower(s: string): (r: string)
    ensures |r| == |s|
    ensures forall i :: 0 <= i < |r| ==> !IsAsciiUpper(r[i])
    ensures forall i :: 0 <= i < |s| && !IsAsciiUpper(s[i]) ==> r[i] == s[i]
    ensures forall i :: 0 <= i < |s| && IsAsciiUpper(s[i]) ==> r[i] as int == s[i] as int + 32
  {
    seq(|s|, i requires 0 <= i < |s| => LowerChar(s[i]))
  }

  /** Lower-casing twice is lower-casing once. */
  lemma ToLowerIdempotent(s: string)
    ensures ToLower(ToLower(s)) == ToLower(s)
  {
  }

  // ---------------------------------------------------------------------
  // Trimming
  // ---------------------------------------------------------------------

  /** Java's `String.trim()` strips every code point up to U+0020. */
  predicate IsJavaWhitespace(c: char) {
    c as int <= 0x20
  }

  /**
   * JavaScript's `String.prototype.trim()` strips WhiteSpace and
   * LineTerminator code points (section 22.1.3.32 of ECMA-262): tab, line
   * feed, vertical tab, form feed, carriage return, the Zs space
   * separators, U+2028, U+2029 and the byte-order mark.
   */
  predicate IsJsWhitespace(c: char) {
    var n := c as int;
    || n == 0x09 || n == 0x0A || n == 0x0B || n == 0x0C || n == 0x0D
    || n == 0x20 || n == 0xA0 || n == 0x1680
    || (0x2000 <= n <= 0x200A)
    || n == 0x2028 || n == 0x2029 || n == 0x202F || n == 0x205F
    || n == 0x3000 || n == 0xFEFF
  }

  /** Drops the leading characters that satisfy `ws`. */
  function TrimStart(s: string, ws: char -> bool): (r: string)
    ensures |r| <= |s| && r == s[|s| - |r|..]
    ensures forall k :: 0 <= k < |s| - |r| ==> ws(s[k])
    ensures |r| > 0 ==> !ws(r[0])
  {
    if |s| > 0 && ws(s[0]) then TrimStart(s[1..], ws) else s
  }

  /** Drops the trailing characters that satisfy `ws`. */
  function TrimEnd(s: string, ws: char -> bool): (r: string)
    ensures |r| <= |s| && r == s[..|r|]
    ensures forall k :: |r| <= k < |s| ==> ws(s[k])
    ensures |r| > 0 ==> !ws(r[|r| - 1])
  {
    if |s| > 0 && ws(s[|s| - 1]) then TrimEnd(s[..|s| - 1], ws) else s
  }

  /**
   * `r` is the infix of `s` starting at `i` such that everything before and
   * after it is whitespace and its own ends are not.
   */
  ghost predicate TrimmedAt(r: string, s: string, ws: char -> bool, i: int) {
    && 0 <= i && i + |r| <= |s|
    && r == s[i..i + |r|]
    && (forall k :: 0 <= k < i ==> ws(s[k]))
    && (forall k :: i + |r| <= k < |s| ==> ws(s[k]))
    && (|r| > 0 ==> !ws(r[0]) && !ws(r[|r| - 1]))
  }

  ghost predicate IsTrimOf(r: string, s: string, ws: char -> bool) {
    exists i :: TrimmedAt(r, s, ws, i)
  }

  /** Strips whitespace, as `ws` defines it, from both ends. */
  function Trim(s: string, ws: char -> bool): (r: string)
    ensures IsTrimOf(r, s, ws)
  {
    var t := TrimStart(s, ws);
    var r := TrimEnd(t, ws);
    TrimStartThenEnd(s, ws, t, r);
    r
  }

  /** Trimming the end of a start-trimmed string trims both ends. */
  lemma TrimStartThenEnd(s: string, ws: char -> bool, t: string, r: string)
    requires |t| <= |s| && t == s[|s| - |t|..]
    requires forall k :: 0 <= k < |s| - |t| ==> ws(s[k])
    requires |t| > 0 ==> !ws(t[0])
    requires |r| <= |t| && r == t[..|r|]
    requires forall k :: |r| <= k < |t| ==> ws(t[k])
    requires |r| > 0 ==> !ws(r[|r| - 1])
    ensures TrimmedAt(r, s, ws, |s| - |t|)
  {
    var i := |s| - |t|;
    assert r == s[i..i + |r|];
    forall k | i + |r| <= k < |s|
      ensures ws(s[k])
    {
      assert s[k] == t[k - i];
    }
    if |r| > 0 {
      assert r[0] == t[0];
    }
  }

  /** What `TrimmedAt` says about the characters of `s` at the ends of `r`. */
  lemma TrimmedAtEnds(r: string, s: string, ws: char -> bool, i: int)
    requires TrimmedAt(r, s, ws, i)
    ensures |r| > 0 ==> !ws(s[i]) && !ws(s[i + |r| - 1])
    ensures |r| == 0 ==> forall k :: 0 <= k < |s| ==> ws(s[k])
  {
    if |r| > 0 {
      assert s[i] == r[0] && s[i + |r| - 1] == r[|r| - 1];
    }
  }

  /** There is only one trim of a string: `IsTrimOf` is a complete specification. */
  lemma TrimIsUnique(r1: string, r2: string, s: string, ws: char -> bool)
    requires IsTrimOf(r1, s, ws) && IsTrimOf(r2, s, ws)
    ensures r1 == r2
  {
    var i1 :| TrimmedAt(r1, s, ws, i1);
    var i2 :| TrimmedAt(r2, s, ws, i2);
    TrimmedAtEnds(r1, s, ws, i1);
    TrimmedAtEnds(r2, s, ws, i2);
  }

  /** Trimming a trimmed string changes nothing. */
  lemma TrimIdempotent(s: string, ws: char -> bool)
    ensures Trim(Trim(s, ws), ws) == Trim(s, ws)
  {
    var r := Trim(s, ws);
    assert TrimmedAt(r, r, ws, 0) by { assert r[0..|r|] == r; }
    TrimIsUnique(Trim(r, ws), r, r, ws);
  }

  /** The trim is empty exactly when every character is whitespace. */
  lemma TrimEmptyIff(s: string, ws: char -> bool)
    ensures Trim(s, ws) == [] <==> forall k :: 0 <= k < |s| ==> ws(s[k])
  {
    var r := Trim(s, ws);
    var i :| TrimmedAt(r, s, ws, i);
    TrimmedAtEnds(r, s, ws, i);
  }

  /** Trimming only removes characters: every character of the trim occurs in the original. */
  lemma TrimKeepsCharacters(r: string, s: string, ws: char -> bool)
    requires IsTrimOf(r, s, ws)
    ensures forall k :: 0 <= k < |r| ==> r[k] in s
  {
    var i :| TrimmedAt(r, s, ws, i);
    assert forall k :: 0 <= k < |r| ==> r[k] == s[i + k];
  }

  /** Java's `String.trim()`. */
  function JavaTrim(s: string): (r: string)
    ensures IsTrimOf(r, s, IsJavaWhitespace)
  {
    Trim(s, IsJavaWhitespace)
  }

  /** JavaScript's `String.prototype.trim()`. */
  function JsTrim(s: string): (r: string)
    ensures IsTrimOf(r, s, IsJsWhitespace)
  {
    Trim(s, IsJsWhitespace)
  }

  // ---------------------------------------------------------------------
  // Substring search
  // ---------------------------------------------------------------------

  /** `pat` occurs in `s` starting at index `i`. */
  ghost predicate OccursAt(s: string, pat: string, i: int) {
    0 <= i && i + |pat| <= |s| && s[i..i + |pat|] == pat
  }

  lemma OccursShift(s: string, pat: string, j: int)
    requires |s| > 0 && j >= 0
    ensures OccursAt(s, pat, j + 1) <==> OccursAt(s[1..], pat, j)
  {
    if 0 <= j && j + 1 + |pat| <= |s| {
      assert s[1..][j..j + |pat|] == s[j + 1..j + 1 + |pat|];
    }
  }

  /** `indexOf`: the first index at which `pat` occurs, if any. */
  function IndexOf(s: string, pat: string): (r: Option<nat>)
    ensures r.Some? ==> OccursAt(s, pat, r.value)
    ensures r.Some? ==> forall j :: 0 <= j < r.value ==> !OccursAt(s, pat, j)
    ensures r.None? ==> forall j :: !OccursAt(s, pat, j)
  {
    if pat <= s then
      assert s[0..|pat|] == pat;
      Some(0)
    else if |s| == 0 then
      None
    else
      var rest := IndexOf(s[1..], pat);
      assert !OccursAt(s, pat, 0);
      match rest
      case Some(j) =>
        assert forall k :: 0 < k <= j ==> !OccursAt(s, pat, k) by {
          forall k | 0 < k <= j ensures !OccursAt(s, pat, k) { OccursShift(s, pat, k - 1); }
        }
        assert OccursAt(s, pat, j + 1) by { OccursShift(s, pat, j);
        }
        Some(j + 1)
      case None =>
        assert forall k :: !OccursAt(s, pat, k) by {
          forall k ensures !OccursAt(s, pat, k) {
            if k > 0 { OccursShift(s, pat, k - 1); }
          }
        }
        None
  }

  /** Java's `String.contains`: `pat` is a substring of `s`. */
  function Contains(s: string, pat: string): (r: bool)
    ensures r <==> exists j :: OccursAt(s, pat, j)
  {
    IndexOf(s, pat).Some?
  }

  /**
   * JavaScript's `s.replace(pat, rep)` with a string pattern: only the first
   * occurrence of `pat` is replaced.
   */
  function ReplaceFirst(s: string, pat: string, rep: string): (r: string)
    ensures (forall j :: !OccursAt(s, pat, j)) ==> r == s
    ensures forall i :: OccursAt(s, pat, i) && (forall j :: 0 <= j < i ==> !OccursAt(s, pat, j))
                        ==> r == s[..i] + rep + s[i + |pat|..]
  {
    match IndexOf(s, pat)
    case None => s
    case Some(i) => s[..i] + rep + s[i + |pat|..]
  }

  // ---------------------------------------------------------------------
  // Padding and decimal rendering
  // ---------------------------------------------------------------------

  function Repeat(c: char, n: nat): (r: string)
    ensures |r| == n
    ensures forall i :: 0 <= i < n ==> r[i] == c
  {
    seq(n, _ => c)
  }

  /** `s.padStart(width, fill)` with a one-character fill string. */
  function PadStart(s: string, width: nat, fill: char): (r: string)
    ensures |r| == if |s| >= width then |s| else width
    ensures r[|r| - |s|..] == s
    ensures forall i :: 0 <= i < |r| - |s| ==> r[i] == fill
  {
    if |s| >= width then s else Repeat(fill, width - |s|) + s
  }

  predicate IsDigit(c: char) {
    '0' <= c <= '9'
  }

  predicate AllDigits(s: string) {
    forall i :: 0 <= i < |s| ==> IsDigit(s[i])
  }

  function DigitChar(d: nat): (c: char)
    requires d < 10
    ensures IsDigit(c)
    ensures c as int - '0' as int == d
  {
    ('0' as int + d) as char
  }

  function DigitValue(c: char): nat
    requires IsDigit(c)
  {
    c as int - '0' as int
  }

  /** The number a string of decimal digits denotes (0 for the empty string). */
  function DigitsValue(s: string): nat
    requires AllDigits(s)
  {
    if |s| == 0 then 0 else DigitsValue(s[..|s| - 1]) * 10 + DigitValue(s[|s| - 1])
  }

  /** Decimal rendering of a natural number, without leading zeros. */
  function NatToString(n: nat): (r: string)
    ensures |r| >= 1
    ensures AllDigits(r)
    ensures |r| > 1 ==> r[0] != '0'
  {
    if n < 10 then [DigitChar(n)] else NatToString(n / 10) + [DigitChar(n % 10)]
  }

  /** Reading back the digits of `NatToString(n)` gives `n`. */
  lemma {:induction false} NatToStringRoundTrip(n: nat)
    ensures DigitsValue(NatToString(n)) == n
  {
    if n >= 10 {
      var s := NatToString(n);
      assert s[..|s| - 1] == NatToString(n / 10);
      NatToStringRoundTrip(n / 10);
    }
  }

  /** Decimal digits with no leading zero, unless the numeral is "0" itself. */
  predicate IsCanonicalDigits(s: string) {
    |s| >= 1 && AllDigits(s) && (|s| > 1 ==> s[0] != '0')
  }

  /** The decimal form `String(n)` gives an integer: canonical digits, with `-` before a non-zero magnitude. */
  predicate IsCanonicalNumeral(s: string) {
    || IsCanonicalDigits(s)
    || (|s| >= 2 && s[0] == '-' && IsCanonicalDigits(s[1..]) && s[1] != '0')
  }

  /** Only the digit string "0", or one of zeros, denotes 0. */
  lemma {:induction false} ZeroValueDigits(s: string)
    requires AllDigits(s) && DigitsValue(s) == 0
    ensures forall i :: 0 <= i < |s| ==> s[i] == '0'
  {
    if |s| > 0 {
      var t := s[..|s| - 1];
      ZeroValueDigits(t);
      assert forall i :: 0 <= i < |t| ==> s[i] == t[i];
    }
  }

  /**
   * The other half of the round trip: canonical digits are the rendering of
   * the number they denote, so `NatToString` is a bijection onto them.
   */
  lemma {:induction false} CanonicalDigitsRoundTrip(s: string)
    requires IsCanonicalDigits(s)
    ensures NatToString(DigitsValue(s)) == s
    decreases |s|
  {
    if |s| > 1 {
      var t := s[..|s| - 1];
      assert t[0] == s[0];
      assert IsCanonicalDigits(t);
      if DigitsValue(t) == 0 {
        ZeroValueDigits(t);
        assert false;
      }
      CanonicalDigitsRoundTrip(t);
      var v := DigitsValue(s);
      assert v / 10 == DigitsValue(t) && v % 10 == DigitValue(s[|s| - 1]);
      assert s == t + [s[|s| - 1]];
    }
  }

  /** `String(n)` for an integral JavaScript number small enough to print in plain decimal (below 1e21 in magnitude). */
  function IntToString(n: int): (r: string)
    ensures |r| >= 1
    ensures n >= 0 <==> IsDigit(r[0])
    ensures n < 0 <==> r[0] == '-'
    ensures IsCanonicalNumeral(r)
  {
    if n < 0 then "-" + NatToString(-n) else NatToString(n)
  }

  /** Reads an optionally negative decimal numeral. */
  function ParseInt(s: string): Option<int> {
    if |s| > 1 && s[0] == '-' && AllDigits(s[1..]) then Some(0 - DigitsValue(s[1..]))
    else if |s| > 0 && AllDigits(s) then Some(DigitsValue(s))
    else None
  }

  /** `IntToString` is inverted by `ParseInt`. */
  lemma IntToStringRoundTrip(n: int)
    ensures ParseInt(IntToString(n)) == Some(n)
  {
    if n < 0 {
      assert IntToString(n)[1..] == NatToString(-n);
      NatToStringRoundTrip(-n);
    } else {
      NatToStringRoundTrip(n);
    }
  }

  /**
   * A canonical numeral is the rendering of the integer it reads as, so
   * `IsCanonicalNumeral` and `ParseInt` together determine `IntToString`.
   */
  lemma CanonicalNumeralRoundTrip(s: string)
    requires IsCanonicalNumeral(s)
    ensures ParseInt(s).Some? && IntToString(ParseInt(s).value) == s
  {
    if IsCanonicalDigits(s) {
      CanonicalDigitsRoundTrip(s);
    } else {
      var d := s[1..];
      if DigitsValue(d) == 0 {
        ZeroValueDigits(d);
        assert false;
      }
      CanonicalDigitsRoundTrip(d);
      assert s == "-" + d;
    }
  }

  lemma {:induction false} ZerosValue(k: nat)
    ensures AllDigits(Repeat('0', k))
    ensures DigitsValue(Repeat('0', k)) == 0
  {
    if k > 0 {
      assert Repeat('0', k)[..k - 1] == Repeat('0', k - 1);
      ZerosValue(k - 1);
    }
  }

  /** Leading zeros do not change the value of a numeral. */
  lemma {:induction false} LeadingZerosValue(k: nat, s: string)
    requires AllDigits(s)
    ensures AllDigits(Repeat('0', k) + s)
    ensures DigitsValue(Repeat('0', k) + s) == DigitsValue(s)
    decreases |s|
  {
    var t := Repeat('0', k) + s;
    if |s| == 0 {
      assert t == Repeat('0', k);
      ZerosValue(k);
    } else {
      assert t[..|t| - 1] == Repeat('0', k) + s[..|s| - 1];
      LeadingZerosValue(k, s[..|s| - 1]);
    }
  }
}
