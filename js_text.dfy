/** The JavaScript string primitives the service and the controller rely on:
    `String.prototype.trim`, `toLowerCase` (ASCII only), `parseInt(s, 10)`,
    `Number.prototype.toString()` on a non-negative integer and the `/^(\d{4})/` year match. */
module JsText {
  import opened MovieTypes

  /** ECMAScript WhiteSpace and LineTerminator code points: what `trim` strips
      and what `parseInt` skips before the number. */
  predicate IsSpace(c: char) {
    || c == '\t' || c == '\n' || c == '\U{000B}' || c == '\U{000C}' || c == '\r' || c == ' '
    || c == '\U{00A0}' || c == '\U{1680}' || ('\U{2000}' <= c <= '\U{200A}')
    || c == '\U{2028}' || c == '\U{2029}' || c == '\U{202F}' || c == '\U{205F}'
    || c == '\U{3000}' || c == '\U{FEFF}'
  }

  predicate AllSpace(s: string) {
    forall i :: 0 <= i < |s| ==> IsSpace(s[i])
  }

  /** The length of the whitespace run that starts `s`. */
  function LeadingSpaces(s: string): (k: nat)
    ensures k <= |s| && AllSpace(s[..k])
    ensures k < |s| ==> !IsSpace(s[k])
  {
    if |s| > 0 && IsSpace(s[0]) then
      var k := LeadingSpaces(s[1..]);
      assert s[..k + 1] == [s[0]] + s[1..][..k];
      k + 1
    else 0
  }

  /** The index where the whitespace run that ends `s` begins. */
  function TrailingSpacesStart(s: string): (k: nat)
    ensures k <= |s| && AllSpace(s[k..])
    ensures k > 0 ==> !IsSpace(s[k - 1])
  {
    if |s| > 0 && IsSpace(s[|s| - 1]) then
      var k := TrailingSpacesStart(s[..|s| - 1]);
      assert s[k..] == s[..|s| - 1][k..] + [s[|s| - 1]];
      k
    else |s|
  }

  /** `s.trim()`: the part of `s` between its leading and its trailing whitespace. */
  function Trim(s: string): (r: string)
    ensures |r| <= |s|
    ensures exists i | 0 <= i <= |s| - |r| :: AllSpace(s[..i]) && s[i..i + |r|] == r && AllSpace(s[i + |r|..])
    ensures r == [] || (!IsSpace(r[0]) && !IsSpace(r[|r| - 1]))
  {
    var i := LeadingSpaces(s);
    var t := s[i..];
    var j := TrailingSpacesStart(t);
    assert s[i..i + j] == t[..j];
    assert s[i + j..] == t[j..];
    t[..j]
  }

  /** A string is blank (`s.trim().length === 0`) exactly when it is all whitespace. */
  lemma BlankIffAllSpace(s: string)
    ensures Trim(s) == [] <==> AllSpace(s)
  {
    var i := LeadingSpaces(s);
    if Trim(s) == [] {
      // a non-space character after the leading run would survive the trim
      assert TrailingSpacesStart(s[i..]) == 0;
      assert s[..i] == s;
    } else {
      var r := Trim(s);
      var w :| 0 <= w <= |s| - |r| && AllSpace(s[..w]) && s[w..w + |r|] == r && AllSpace(s[w + |r|..]);
      assert s[w] == r[0];
    }
  }

  /** `toLowerCase` on one character, restricted to ASCII letters. */
  function Lower(c: char): char {
    if 'A' <= c <= 'Z' then (c as int + 32) as char else c
  }

  function LowerCase(s: string): (r: string)
    ensures |r| == |s|
    ensures forall i :: 0 <= i < |r| ==> !('A' <= r[i] <= 'Z')
    ensures forall i :: 0 <= i < |r| ==> !('A' <= s[i] <= 'Z') ==> r[i] == s[i]
    ensures forall i :: 0 <= i < |r| && 'A' <= s[i] <= 'Z' ==> r[i] as int == s[i] as int + 32
  {
    seq(|s|, i requires 0 <= i < |s| => Lower(s[i]))
  }

  /** `a.toLowerCase() === b.toLowerCase()`. */
  predicate FoldEq(a: string, b: string): (r: bool)
    ensures r ==> |a| == |b|
    ensures a == b ==> r
  {
    LowerCase(a) == LowerCase(b)
  }

  /** Two ids are equal up to case exactly when they have the same length and agree letter by
      letter once folded. */
  lemma FoldEqPointwise(a: string, b: string)
    ensures FoldEq(a, b) <==> |a| == |b| && forall i :: 0 <= i < |a| ==> Lower(a[i]) == Lower(b[i])
  {
    if |a| == |b| && forall i :: 0 <= i < |a| ==> Lower(a[i]) == Lower(b[i]) {
      assert forall i :: 0 <= i < |a| ==> LowerCase(a)[i] == LowerCase(b)[i];
    }
    if FoldEq(a, b) {
      assert |LowerCase(a)| == |a|;
      forall i | 0 <= i < |a| ensures Lower(a[i]) == Lower(b[i]) {
        assert LowerCase(a)[i] == LowerCase(b)[i];
      }
    }
  }

  lemma FoldEqExample()
    ensures FoldEq("tt001", "TT001")
    ensures "tt001" != "TT001"
  {
    FoldEqPointwise("tt001", "TT001");
  }

  predicate IsDigit(c: char) {
    '0' <= c <= '9'
  }

  predicate AllDigits(s: string) {
    forall i :: 0 <= i < |s| ==> IsDigit(s[i])
  }

  function DigitValue(c: char): nat
    requires IsDigit(c)
  {
    c as int - '0' as int
  }

  function DigitChar(d: nat): (c: char)
    requires d < 10
    ensures IsDigit(c) && DigitValue(c) == d
  {
    ('0' as int + d) as char
  }

  function Pow10(n: nat): (p: nat)
    ensures p >= 1
  {
    if n == 0 then 1 else 10 * Pow10(n - 1)
  }

  /** The value of a run of decimal digits, most significant first. */
  function DigitsValue(ds: string): (v: nat)
    requires AllDigits(ds)
    ensures v < Pow10(|ds|)
  {
    if ds == [] then 0 else DigitsValue(ds[..|ds| - 1]) * 10 + DigitValue(ds[|ds| - 1])
  }

  /** The length of the digit run that starts `s`. */
  function DigitRun(s: string): (k: nat)
    ensures k <= |s| && AllDigits(s[..k])
    ensures k < |s| ==> !IsDigit(s[k])
  {
    if |s| > 0 && IsDigit(s[0]) then
      var k := DigitRun(s[1..]);
      assert s[..k + 1] == [s[0]] + s[1..][..k];
      k + 1
    else 0
  }

  /** The value of the digit run that starts `body`, or `None` (NaN) when there is none; the
      text after the run is ignored. */
  function ParseUnsigned(body: string): (r: Option<int>)
    ensures r.None? <==> DigitRun(body) == 0
    ensures r.Some? ==> r.value == DigitsValue(body[..DigitRun(body)])
  {
    var k := DigitRun(body);
    if k == 0 then None else Some(DigitsValue(body[..k]))
  }

  /** `parseInt(s, 10)`: skip leading whitespace, read an optional sign and the longest digit
      run after it, and ignore the rest; `None` stands for NaN (no digit there). Values are
      exact integers here, where JavaScript rounds above 2^53. */
  function ParseInt(s: string): (r: Option<int>)
    ensures AllSpace(s) ==> r.None?
    ensures |s| > 0 && !IsSpace(s[0]) && !IsDigit(s[0]) && s[0] != '-' && s[0] != '+' ==> r.None?
    ensures |s| > 0 && IsDigit(s[0]) ==> r.Some? && r.value >= 0
    ensures |s| > 0 && IsDigit(s[0]) ==> r == Some(DigitsValue(s[..DigitRun(s)]))
    ensures |s| > 0 && (s[0] == '-' || s[0] == '+') ==> (r.None? <==> DigitRun(s[1..]) == 0)
  {
    var t := s[LeadingSpaces(s)..];
    if |t| > 0 && t[0] == '-' then
      match ParseUnsigned(t[1..])
      case None => None
      case Some(v) => Some(0 - v)
    else if |t| > 0 && t[0] == '+' then ParseUnsigned(t[1..])
    else ParseUnsigned(t)
  }

  /** `n.toString()` for a non-negative integer: its shortest decimal digits. */
  function DecimalString(n: nat): (r: string)
    ensures |r| >= 1 && AllDigits(r)
    ensures r[0] == '0' <==> n == 0
    ensures r[0] == '0' ==> |r| == 1
  {
    if n < 10 then [DigitChar(n)] else DecimalString(n / 10) + [DigitChar(n % 10)]
  }

  lemma DigitsValueSnoc(ds: string, c: char)
    requires AllDigits(ds) && IsDigit(c)
    ensures AllDigits(ds + [c]) && DigitsValue(ds + [c]) == DigitsValue(ds) * 10 + DigitValue(c)
  {
    assert (ds + [c])[..|ds|] == ds;
  }

  /** Reading back the digits `toString` writes gives the number. */
  lemma {:induction false} DecimalRoundTrip(n: nat)
    ensures DigitsValue(DecimalString(n)) == n
  {
    if n < 10 {
      assert DecimalString(n)[..0] == [];
    } else {
      DecimalRoundTrip(n / 10);
      DigitsValueSnoc(DecimalString(n / 10), DigitChar(n % 10));
    }
  }

  /** `parseInt` reads a decimal number back from its `toString` form, whatever non-digit text
      follows it. */
  lemma ParseIntOfDecimal(n: nat, rest: string)
    requires rest == [] || !IsDigit(rest[0])
    ensures ParseInt(DecimalString(n) + rest) == Some(n)
  {
    var d := DecimalString(n);
    var s := d + rest;
    assert s[0] == d[0];
    assert !IsSpace(s[0]);
    assert LeadingSpaces(s) == 0;
    assert s[0..] == s;
    DigitRunOfDigits(d, rest);
    assert s[..|d|] == d;
    DecimalRoundTrip(n);
  }

  lemma {:induction false} LeadingSpacesOfPrefix(ws: string, t: string)
    requires AllSpace(ws) && (t == [] || !IsSpace(t[0]))
    ensures LeadingSpaces(ws + t) == |ws|
  {
    if ws != [] {
      assert (ws + t)[1..] == ws[1..] + t;
      LeadingSpacesOfPrefix(ws[1..], t);
    } else {
      assert ws + t == t;
    }
  }

  /** `parseInt` skips any leading whitespace. */
  lemma {:induction false} ParseIntSkipsSpaces(ws: string, t: string)
    requires AllSpace(ws) && (t == [] || !IsSpace(t[0]))
    ensures ParseInt(ws + t) == ParseInt(t)
  {
    var s := ws + t;
    LeadingSpacesOfPrefix(ws, t);
    var u := s[LeadingSpaces(s)..];
    assert u == t;
    assert LeadingSpaces(t) == 0;
    assert t[LeadingSpaces(t)..] == t;
  }

  /** `parseInt` of a digit run (leading zeros allowed) followed by text that does not start
      with a digit: the run's value. */
  lemma {:induction false} ParseIntDigits(ds: string, rest: string)
    requires |ds| > 0 && AllDigits(ds)
    requires rest == [] || !IsDigit(rest[0])
    ensures ParseInt(ds + rest) == Some(DigitsValue(ds))
  {
    var body := ds + rest;
    DigitRunOfDigits(ds, rest);
    assert body[..|ds|] == ds;
    ParseIntOfDigitsFirst(body, |ds|);
  }

  /** The same after a sign: the run's value, negated after a minus. */
  lemma {:induction false} ParseIntSigned(c: char, ds: string, rest: string)
    requires c == '+' || c == '-'
    requires |ds| > 0 && AllDigits(ds)
    requires rest == [] || !IsDigit(rest[0])
    ensures ParseInt([c] + (ds + rest)) == Some(if c == '-' then 0 - DigitsValue(ds) else DigitsValue(ds))
  {
    ParseUnsignedDigits(ds, rest);
    ParseIntAfterSign(c, ds + rest);
  }

  /** A digit run followed by text that does not start with a digit: the run's value. */
  lemma {:induction false} ParseUnsignedDigits(ds: string, rest: string)
    requires |ds| > 0 && AllDigits(ds)
    requires rest == [] || !IsDigit(rest[0])
    ensures ParseUnsigned(ds + rest) == Some(DigitsValue(ds))
  {
    DigitRunOfDigits(ds, rest);
    PrefixOfAppend(ds, rest);
  }

  /** A sign followed by any text: NaN when no digit follows the sign ("-abc", "+", "- 3"),
      otherwise the digit run's value, negated after a minus. */
  lemma {:induction false} ParseIntAfterSign(c: char, body: string)
    requires c == '+' || c == '-'
    ensures ParseInt([c] + body) ==
      match ParseUnsigned(body)
      case None => None
      case Some(v) => Some(if c == '-' then 0 - v else v)
  {
    var s := [c] + body;
    assert !IsSpace(s[0]);
    var t := s[LeadingSpaces(s)..];
    assert t == s;
    assert t[1..] == body;
    assert |t| > 0 && t[0] == c;
  }

  lemma PrefixOfAppend(a: string, b: string)
    ensures (a + b)[..|a|] == a
  {
  }

  /** A string whose first character is a digit is read from its first digit run. */
  lemma {:induction false} ParseIntOfDigitsFirst(s: string, k: nat)
    requires 0 < k <= |s| && DigitRun(s) == k
    ensures ParseInt(s) == Some(DigitsValue(s[..k]))
  {
    assert !IsSpace(s[0]);
    var t := s[LeadingSpaces(s)..];
    assert t == s;
  }

  lemma {:induction false} DigitRunOfDigits(d: string, rest: string)
    requires AllDigits(d)
    requires rest == [] || !IsDigit(rest[0])
    ensures DigitRun(d + rest) == |d|
  {
    if d != [] {
      assert (d + rest)[1..] == d[1..] + rest;
      DigitRunOfDigits(d[1..], rest);
    } else {
      assert d + rest == rest;
    }
  }

  /** `yearStr.match(/^(\d{4})/)` then `parseInt(match[1], 10)`, or 0 without a match: the value
      of the first four characters when they are all digits. */
  function ParseYear(year: string): (y: nat)
    ensures y <= 9999
    ensures y > 0 ==> |year| >= 4 && AllDigits(year[..4])
  {
    if |year| >= 4 && AllDigits(year[..4]) then DigitsValue(year[..4]) else 0
  }

  /** The four-digit, zero-padded form of a year in 0..9999. */
  function YearDigits(y: nat): (r: string)
    requires y <= 9999
    ensures |r| == 4 && AllDigits(r)
  {
    [DigitChar(y / 10 / 10 / 10), DigitChar(y / 10 / 10 % 10), DigitChar(y / 10 % 10), DigitChar(y % 10)]
  }

  /** Whatever follows the four leading digits ("1999–2001", "2004 ") does not change the year. */
  lemma ParseYearOfYearDigits(y: nat, rest: string)
    requires y <= 9999
    ensures ParseYear(YearDigits(y) + rest) == y
  {
    var d := YearDigits(y);
    assert (d + rest)[..4] == d;
    assert d[..1][..0] == [];
    assert DigitsValue(d[..1]) == y / 10 / 10 / 10;
    assert d[..2][..1] == d[..1];
    assert DigitsValue(d[..2]) == y / 10 / 10;
    assert d[..3][..2] == d[..2];
    assert DigitsValue(d[..3]) == y / 10;
    assert d[..4][..3] == d[..3];
    assert d[..4] == d;
  }

  lemma ParseYearExamples()
    ensures ParseYear("1999\U{2013}2001") == 1999
    ensures ParseYear("N/A") == 0
    ensures ParseYear("199") == 0
  {
    assert YearDigits(1999) == "1999";
    assert "1999\U{2013}2001" == YearDigits(1999) + "\U{2013}2001";
    ParseYearOfYearDigits(1999, "\U{2013}2001");
    assert !IsDigit("N/A"[0]);
  }
}
