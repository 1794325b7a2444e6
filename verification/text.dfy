/**
 * The string functions the email handling relies on: `String.trim`,
 * `String.toLowerCase` (ASCII only) and their composition, the normalised
 * email; plus the decimal rendering of an id used in one error message.
 */
module Text {

  /** `String.trim` strips every code point at or below U+0020. */
  predicate IsBlank(c: char) {
    c <= ' '
  }

  predicate IsUpper(c: char) {
    'A' <= c <= 'Z'
  }

  predicate AllBlank(s: string) {
    forall i :: 0 <= i < |s| ==> IsBlank(s[i])
  }

  /** ASCII lower-casing of one character; every other character is kept. */
  function LowerChar(c: char): (d: char)
    ensures !IsUpper(d)
    ensures IsBlank(d) <==> IsBlank(c)
    ensures !IsUpper(c) ==> d == c
  {
    if IsUpper(c) then (c as int - 'A' as int + 'a' as int) as char else c
  }

  /** `toLowerCase`, restricted to the ASCII letters. */
  function ToLower(s: string): (r: string)
    ensures |r| == |s|
    ensures forall i :: 0 <= i < |s| ==> r[i] == LowerChar(s[i])
  {
    seq(|s|, i requires 0 <= i < |s| => LowerChar(s[i]))
  }

  /** Two strings that `equalsIgnoreCase` would accept, for ASCII letters. */
  predicate EqualIgnoringCase(a: string, b: string) {
    |a| == |b| && forall i :: 0 <= i < |a| ==> LowerChar(a[i]) == LowerChar(b[i])
  }

  lemma ToLowerIdempotent(s: string)
    ensures ToLower(ToLower(s)) == ToLower(s)
  {
  }

  /** Lower-casing identifies exactly the strings that differ only in letter case. */
  lemma ToLowerSameIffEqualIgnoringCase(a: string, b: string)
    ensures ToLower(a) == ToLower(b) <==> EqualIgnoringCase(a, b)
  {
    if ToLower(a) == ToLower(b) {
      forall i | 0 <= i < |a|
        ensures LowerChar(a[i]) == LowerChar(b[i])
      {
        assert ToLower(a)[i] == ToLower(b)[i];
      }
    }
  }

  /** The number of blanks at the front of `s`. */
  function LeadingBlanks(s: string): (k: nat)
    ensures k <= |s|
    ensures forall i :: 0 <= i < k ==> IsBlank(s[i])
    ensures k < |s| ==> !IsBlank(s[k])
  {
    if |s| == 0 || !IsBlank(s[0]) then 0 else 1 + LeadingBlanks(s[1..])
  }

  /** The number of blanks at the back of `s`. */
  function TrailingBlanks(s: string): (k: nat)
    ensures k <= |s|
    ensures forall i :: |s| - k <= i < |s| ==> IsBlank(s[i])
    ensures k < |s| ==> !IsBlank(s[|s| - 1 - k])
  {
    if |s| == 0 || !IsBlank(s[|s| - 1]) then 0 else 1 + TrailingBlanks(s[..|s| - 1])
  }

  /**
   * `[a, b)` delimits the trim of `s`: everything before `a` and from `b` on
   * is blank, and the kept slice starts and ends with a non-blank character.
   */
  predicate IsTrimRange(s: string, a: int, b: int) {
    && 0 <= a <= b <= |s|
    && (forall i :: 0 <= i < a ==> IsBlank(s[i]))
    && (forall i :: b <= i < |s| ==> IsBlank(s[i]))
    && (a < b ==> !IsBlank(s[a]) && !IsBlank(s[b - 1]))
  }

  /** Independent description of trimming: `r` is the slice of `s` inside a trim range. */
  ghost predicate IsTrimOf(r: string, s: string) {
    exists a, b :: IsTrimRange(s, a, b) && r == s[a..b]
  }

  /** `String.trim`: drop the leading blanks, then the trailing ones. */
  function Trim(s: string): (r: string)
    ensures IsTrimOf(r, s)
  {
    var a := LeadingBlanks(s);
    var b := if a == |s| then a else |s| - TrailingBlanks(s);
    assert IsTrimRange(s, a, b);
    s[a..b]
  }

  /** All trim ranges of a string cut out the same slice. */
  lemma TrimRangesAgree(s: string, a: int, b: int, c: int, d: int)
    requires IsTrimRange(s, a, b) && IsTrimRange(s, c, d)
    ensures s[a..b] == s[c..d]
  {
    assert a < b ==> !IsBlank(s[a]);
    assert c < d ==> !IsBlank(s[c]);
    assert a < b <==> c < d;
    if a < b {
      assert !IsBlank(s[b - 1]) && !IsBlank(s[d - 1]);
    }
  }

  /** Any trim range of `s` delimits exactly `Trim(s)`. */
  lemma TrimOfRange(s: string, a: int, b: int)
    requires IsTrimRange(s, a, b)
    ensures Trim(s) == s[a..b]
  {
    var c, d :| IsTrimRange(s, c, d) && Trim(s) == s[c..d];
    TrimRangesAgree(s, a, b, c, d);
  }

  lemma TrimIdempotent(s: string)
    ensures Trim(Trim(s)) == Trim(s)
  {
    var r := Trim(s);
    var a, b :| IsTrimRange(s, a, b) && r == s[a..b];
    assert IsTrimRange(r, 0, |r|);
    TrimOfRange(r, 0, |r|);
  }

  /** Trimming and ASCII lower-casing commute, so `trim().toLowerCase()` equals `lower(trim(..))`. */
  lemma TrimToLowerCommute(s: string)
    ensures Trim(ToLower(s)) == ToLower(Trim(s))
  {
    assert IsTrimOf(Trim(s), s);
    var a, b :| IsTrimRange(s, a, b) && Trim(s) == s[a..b];
    ToLowerKeepsTrimRange(s, a, b);
    TrimOfRange(ToLower(s), a, b);
    ToLowerSlice(s, a, b);
  }

  /** Lower-casing keeps blanks blank and non-blanks non-blank, so trim ranges survive it. */
  lemma ToLowerKeepsTrimRange(s: string, a: int, b: int)
    requires IsTrimRange(s, a, b)
    ensures IsTrimRange(ToLower(s), a, b)
  {
  }

  lemma ToLowerSlice(s: string, a: int, b: int)
    requires 0 <= a <= b <= |s|
    ensures ToLower(s[a..b]) == ToLower(s)[a..b]
  {
    var t := s[a..b];
    var l, r := ToLower(t), ToLower(s)[a..b];
    forall i | 0 <= i < |t|
      ensures l[i] == r[i]
    {
      assert t[i] == s[a + i];
    }
  }

  /** The normalised email: `email.trim().toLowerCase()`. */
  function Normalize(s: string): string {
    ToLower(Trim(s))
  }

  /** A normalised email is the trim of the lower-cased input and holds no upper-case letter. */
  lemma NormalizeIsTrimmedLowerCase(s: string)
    ensures IsTrimOf(Normalize(s), ToLower(s))
    ensures forall i :: 0 <= i < |Normalize(s)| ==> !IsUpper(Normalize(s)[i])
  {
    TrimToLowerCommute(s);
  }

  /** Normalising twice is normalising once: the service normalises, then the gateway does again. */
  lemma NormalizeIdempotent(s: string)
    ensures Normalize(Normalize(s)) == Normalize(s)
  {
    TrimToLowerCommute(Trim(s));
    TrimIdempotent(s);
    ToLowerIdempotent(Trim(s));
  }

  /** A normalised email is its own lower-case form, as the `lower(email)` index sees it. */
  lemma NormalizeIsLowerCase(s: string)
    ensures ToLower(Normalize(s)) == Normalize(s)
  {
    ToLowerIdempotent(Trim(s));
  }

  /** A string without upper-case letters or outer blanks is already normalised. */
  lemma NormalizeFixesNormalForm(s: string)
    requires forall i :: 0 <= i < |s| ==> !IsUpper(s[i])
    requires |s| > 0 ==> !IsBlank(s[0]) && !IsBlank(s[|s| - 1])
    ensures Normalize(s) == s
  {
    assert IsTrimRange(s, 0, |s|);
    TrimOfRange(s, 0, |s|);
    assert s[0..|s|] == s;
  }

  lemma TrimIgnoresLeadingBlanks(p: string, s: string)
    requires AllBlank(p)
    ensures Trim(p + s) == Trim(s)
  {
    assert IsTrimOf(Trim(s), s);
    var a, b :| IsTrimRange(s, a, b) && Trim(s) == s[a..b];
    PrefixShiftsTrimRange(p, s, a, b);
    TrimOfRange(p + s, |p| + a, |p| + b);
  }

  /** Blanks in front of `s` move its trim range right by their number and keep the slice. */
  lemma PrefixShiftsTrimRange(p: string, s: string, a: int, b: int)
    requires AllBlank(p) && IsTrimRange(s, a, b)
    ensures IsTrimRange(p + s, |p| + a, |p| + b)
    ensures (p + s)[|p| + a..|p| + b] == s[a..b]
  {
    var w := p + s;
    assert forall i :: |p| <= i < |w| ==> w[i] == s[i - |p|];
    assert w[|p|..] == s;
  }

  lemma TrimIgnoresTrailingBlanks(s: string, q: string)
    requires AllBlank(q)
    ensures Trim(s + q) == Trim(s)
  {
    assert IsTrimOf(Trim(s), s);
    var a, b :| IsTrimRange(s, a, b) && Trim(s) == s[a..b];
    SuffixKeepsTrimRange(s, q, a, b);
    TrimOfRange(s + q, a, b);
  }

  /** Blanks behind `s` leave its trim range and the slice it delimits as they were. */
  lemma SuffixKeepsTrimRange(s: string, q: string, a: int, b: int)
    requires AllBlank(q) && IsTrimRange(s, a, b)
    ensures IsTrimRange(s + q, a, b)
    ensures (s + q)[a..b] == s[a..b]
  {
    var w := s + q;
    assert forall i :: |s| <= i < |w| ==> w[i] == q[i - |s|];
    assert w[..|s|] == s;
  }

  /** Blank padding around a string does not survive trimming. */
  lemma TrimIgnoresPadding(p: string, s: string, q: string)
    requires AllBlank(p) && AllBlank(q)
    ensures Trim(p + s + q) == Trim(s)
  {
    TrimIgnoresTrailingBlanks(p + s, q);
    TrimIgnoresLeadingBlanks(p, s);
  }

  /** Emails that differ only in letter case and surrounding blanks normalise alike. */
  lemma NormalizeIgnoresCaseAndPadding(p: string, s: string, q: string, t: string)
    requires AllBlank(p) && AllBlank(q)
    requires EqualIgnoringCase(s, t)
    ensures Normalize(p + s + q) == Normalize(t)
  {
    TrimIgnoresPadding(p, s, q);
    ToLowerSameIffEqualIgnoringCase(s, t);
    TrimToLowerCommute(s);
    TrimToLowerCommute(t);
  }

  predicate IsDigit(c: char) {
    '0' <= c <= '9'
  }

  function DigitChar(d: nat): (c: char)
    requires d < 10
    ensures IsDigit(c)
  {
    (d + '0' as int) as char
  }

  function DigitValue(c: char): nat
    requires IsDigit(c)
  {
    c as int - '0' as int
  }

  /** `Long.toString` of a non-negative id: its decimal digits, no leading zero. */
  function NatToString(n: nat): (s: string)
    ensures 1 <= |s|
    ensures forall i :: 0 <= i < |s| ==> IsDigit(s[i])
    ensures 1 < |s| ==> s[0] != '0'
  {
    if n < 10 then [DigitChar(n)] else NatToString(n / 10) + [DigitChar(n % 10)]
  }

  /** Reads decimal digits back into a number. */
  function ParseNat(s: string): nat
    requires forall i :: 0 <= i < |s| ==> IsDigit(s[i])
  {
    if s == [] then 0 else 10 * ParseNat(s[..|s| - 1]) + DigitValue(s[|s| - 1])
  }

  /** The rendered id reads back as the same id, so the message names the requested id. */
  lemma {:induction false} ParseNatToString(n: nat)
    ensures ParseNat(NatToString(n)) == n
  {
    var s := NatToString(n);
    if n >= 10 {
      ParseNatToString(n / 10);
      assert s[..|s| - 1] == NatToString(n / 10);
    }
  }

  /** `Long.toString`: a minus sign before the digits of a negative value. */
  function IntToString(n: int): string {
    if n < 0 then "-" + NatToString(-n) else NatToString(n)
  }

  /** Decimal digits, optionally after one minus sign. */
  predicate IsNumeral(s: string) {
    if 0 < |s| && s[0] == '-' then forall i :: 1 <= i < |s| ==> IsDigit(s[i])
    else forall i :: 0 <= i < |s| ==> IsDigit(s[i])
  }

  /** Reads a numeral back into a number, in the manner of `Long.parseLong`. */
  function ParseInt(s: string): int
    requires IsNumeral(s)
  {
    if 0 < |s| && s[0] == '-' then -(ParseNat(s[1..]) as int) else ParseNat(s)
  }

  /** Every rendered value, negative ones included, is a numeral that reads back as itself. */
  lemma ParseIntToString(n: int)
    ensures IsNumeral(IntToString(n)) && ParseInt(IntToString(n)) == n
  {
    var s := IntToString(n);
    if n < 0 {
      assert s[1..] == NatToString(-n);
      ParseNatToString(-n);
    } else {
      ParseNatToString(n);
    }
  }
}
