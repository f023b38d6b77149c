// Text helpers shared by the page scripts: decimal rendering of numbers,
// String.prototype.padStart(2, '0'), trim, parseInt and the first match
// of the regular expression /\d+/.

module Strings {
  import opened Wrappers

  predicate IsDigit(c: char) {
    '0' <= c <= '9'
  }

  predicate AllDigits(s: string) {
    forall i :: 0 <= i < |s| ==> IsDigit(s[i])
  }

  /** The white space that String.prototype.trim and parseInt skip: the
      ECMAScript WhiteSpace set (tab, vertical tab, form feed, U+FEFF and
      every space separator of category Zs) and the LineTerminator set. */
  predicate IsWhitespace(c: char) {
    c == '\t' || c == '\U{000B}' || c == '\U{000C}' || c == '\U{FEFF}'
    || c == ' ' || c == '\U{00A0}' || c == '\U{1680}' || '\U{2000}' <= c <= '\U{200A}'
    || c == '\U{202F}' || c == '\U{205F}' || c == '\U{3000}'
    || c == '\n' || c == '\r' || c == '\U{2028}' || c == '\U{2029}'
  }

  function DigitChar(d: nat): (c: char)
    requires d < 10
    ensures IsDigit(c)
  {
    "0123456789"[d]
  }

  function DigitValue(c: char): (d: nat)
    requires IsDigit(c)
    ensures d < 10
  {
    (c as int - '0' as int) as nat
  }

  /** `${n}` / String(n) for a non-negative integer: its decimal digits. */
  function Decimal(n: nat): (s: string)
    ensures 0 < |s| && AllDigits(s)
    ensures (|s| == 1) == (n < 10)
    ensures n != 0 ==> s[0] != '0'
    decreases n
  {
    if n < 10 then [DigitChar(n)] else Decimal(n / 10) + [DigitChar(n % 10)]
  }

  /** The value of a non-empty run of decimal digits, most significant first. */
  function DigitsValue(s: string): nat
    requires AllDigits(s)
  {
    if s == [] then 0 else DigitsValue(s[..|s| - 1]) * 10 + DigitValue(s[|s| - 1])
  }

  lemma {:induction false} DecimalValue(n: nat)
    ensures DigitsValue(Decimal(n)) == n
    decreases n
  {
    if n >= 10 {
      var s := Decimal(n);
      assert s[..|s| - 1] == Decimal(n / 10);
      DecimalValue(n / 10);
    }
  }

  /** A leading '0' does not change the value of a digit run. */
  lemma {:induction false} LeadingZeroValue(s: string)
    requires AllDigits(s)
    ensures AllDigits(['0'] + s) && DigitsValue(['0'] + s) == DigitsValue(s)
  {
    if s != [] {
      var t := ['0'] + s;
      assert t[..|t| - 1] == ['0'] + s[..|s| - 1];
      LeadingZeroValue(s[..|s| - 1]);
    }
  }

  /** String(i).padStart(2, '0'). */
  function PadStart2(s: string): (r: string)
    ensures |s| < 2 ==> |r| == 2 && r[2 - |s|..] == s && forall i :: 0 <= i < 2 - |s| ==> r[i] == '0'
    ensures |s| >= 2 ==> r == s
  {
    if |s| == 0 then "00" else if |s| == 1 then "0" + s else s
  }

  /** The zero-padded two-character label of a wheel value. */
  function Label(n: nat): (r: string)
    ensures |r| >= 2 && AllDigits(r)
    ensures n < 100 ==> |r| == 2
  {
    PadStart2(Decimal(n))
  }

  function TrimStart(s: string): (r: string)
    ensures |r| <= |s| && r == s[|s| - |r|..]
    ensures r == [] || !IsWhitespace(r[0])
    ensures forall i :: 0 <= i < |s| - |r| ==> IsWhitespace(s[i])
  {
    if s != [] && IsWhitespace(s[0]) then TrimStart(s[1..]) else s
  }

  function TrimEnd(s: string): (r: string)
    ensures |r| <= |s| && r == s[..|r|]
    ensures r == [] || !IsWhitespace(r[|r| - 1])
    ensures forall i :: |r| <= i < |s| ==> IsWhitespace(s[i])
  {
    if s != [] && IsWhitespace(s[|s| - 1]) then TrimEnd(s[..|s| - 1]) else s
  }

  /** String.prototype.trim: the part of s left once the white space at
      both ends is cut off. */
  function Trim(s: string): (r: string)
    ensures r == [] || (!IsWhitespace(r[0]) && !IsWhitespace(r[|r| - 1]))
    ensures exists i, j :: 0 <= i <= j <= |s| && r == s[i..j]
              && (forall k :: 0 <= k < i ==> IsWhitespace(s[k]))
              && (forall k :: j <= k < |s| ==> IsWhitespace(s[k]))
  {
    var t := TrimStart(s);
    SliceOfSlice(s, t, TrimEnd(t));
    TrimEnd(t)
  }

  /** A string with no white space at either end is its own trim. */
  lemma TrimUnpadded(s: string)
    requires s != [] && !IsWhitespace(s[0]) && !IsWhitespace(s[|s| - 1])
    ensures Trim(s) == s
  {
    var i, j :| 0 <= i <= j <= |s| && Trim(s) == s[i..j]
                && (forall k :: 0 <= k < i ==> IsWhitespace(s[k]))
                && (forall k :: j <= k < |s| ==> IsWhitespace(s[k]));
    assert i == 0 && j == |s|;
  }

  /** r, a prefix of the suffix t of s, followed by white space in t and
      preceded by white space in s, is a slice of s framed by white space. */
  lemma SliceOfSlice(s: string, t: string, r: string)
    requires |t| <= |s| && t == s[|s| - |t|..]
    requires forall i :: 0 <= i < |s| - |t| ==> IsWhitespace(s[i])
    requires |r| <= |t| && r == t[..|r|]
    requires forall i :: |r| <= i < |t| ==> IsWhitespace(t[i])
    ensures exists i, j :: 0 <= i <= j <= |s| && r == s[i..j]
              && (forall k :: 0 <= k < i ==> IsWhitespace(s[k]))
              && (forall k :: j <= k < |s| ==> IsWhitespace(s[k]))
  {
    var i := |s| - |t|;
    var j := i + |r|;
    assert r == s[i..j];
    forall k | j <= k < |s|
      ensures IsWhitespace(s[k])
    {
      assert s[k] == t[k - i];
    }
  }

  /** The longest prefix of `s` made of decimal digits. */
  function LeadingDigits(s: string): (r: string)
    ensures |r| <= |s| && r == s[..|r|] && AllDigits(r)
    ensures |r| < |s| ==> !IsDigit(s[|r|])
  {
    if s != [] && IsDigit(s[0]) then [s[0]] + LeadingDigits(s[1..]) else []
  }

  /** parseInt(s) with no radix, for decimal text: leading white space is
      skipped, one optional sign is read, then the longest run of digits;
      None stands for NaN (no digit there). */
  function ParseInt(s: string): (r: Option<int>)
    ensures r.Some? <==> StartsNumber(s)
  {
    ParseIntDefined(s);
    ParseSigned(TrimStart(s))
  }

  predicate IsSign(c: char) {
    c == '-' || c == '+'
  }

  /** s[k] is a digit, reached past white space and at most one sign. */
  predicate NumberAt(s: string, k: nat) {
    k < |s| && IsDigit(s[k])
    && forall i :: 0 <= i < k ==> IsWhitespace(s[i]) || (i == k - 1 && IsSign(s[i]))
  }

  /** After leading white space and at most one sign, a digit follows. */
  predicate StartsNumber(s: string) {
    exists k: nat :: k < |s| && NumberAt(s, k)
  }

  /** parseInt gives a number only when a digit follows the white space and
      the sign. */
  lemma ParseIntSome(s: string)
    requires ParseSigned(TrimStart(s)).Some?
    ensures StartsNumber(s)
  {
    var t := TrimStart(s);
    var o := |s| - |t|;
    assert t == s[o..];
    var k := if IsSign(t[0]) then o + 1 else o;
    assert IsDigit(s[k]);
    assert NumberAt(s, k) && k < |s|;
  }

  lemma ParseIntDefined(s: string)
    ensures ParseSigned(TrimStart(s)).Some? <==> StartsNumber(s)
  {
    if ParseSigned(TrimStart(s)).Some? {
      ParseIntSome(s);
    }
    if StartsNumber(s) {
      var k: nat :| k < |s| && NumberAt(s, k);
      ParseIntOfNumber(s, k);
    }
  }

  /** ... and whenever one does, it gives a number. */
  lemma ParseIntOfNumber(s: string, k: nat)
    requires NumberAt(s, k)
    ensures ParseSigned(TrimStart(s)).Some?
  {
    var t := TrimStart(s);
    NumberAfterSkip(s, t, k);
    if IsDigit(t[0]) {
      assert t[0] != '-' && t[0] != '+';
    } else {
      assert t[1..][0] == t[1];
    }
  }

  /** Once the white space before a number is skipped, a digit or a sign
      and a digit come next. */
  lemma NumberAfterSkip(s: string, t: string, k: nat)
    requires |t| <= |s| && t == s[|s| - |t|..]
    requires forall i :: 0 <= i < |s| - |t| ==> IsWhitespace(s[i])
    requires t == [] || !IsWhitespace(t[0])
    requires NumberAt(s, k)
    ensures t != [] && (IsDigit(t[0]) || (IsSign(t[0]) && |t| > 1 && IsDigit(t[1])))
  {
    var o := |s| - |t|;
    assert !IsWhitespace(s[k]);
    if o < k {
      assert t[0] == s[o];
      assert o == k - 1;
      assert t[1] == s[k];
    } else {
      assert o == k && t[0] == s[k];
    }
  }

  /** An optional sign, then digits. */
  function ParseSigned(t: string): Option<int> {
    if t != [] && t[0] == '-' then
      match ParseDigits(t[1..])
      case None => None
      case Some(n) => Some(-n)
    else if t != [] && t[0] == '+' then ParseDigits(t[1..])
    else ParseDigits(t)
  }

  /** The value of the leading run of digits, None when there is none. */
  function ParseDigits(t: string): Option<int> {
    var digits := LeadingDigits(t);
    if digits == [] then None else Some(DigitsValue(digits))
  }

  /** Text that starts with a digit has no white space to skip. */
  lemma TrimStartOfDigit(s: string)
    requires s != [] && IsDigit(s[0])
    ensures TrimStart(s) == s
  {
    assert !IsWhitespace(s[0]);
  }

  /** ... and no sign. */
  lemma ParseSignedOfDigit(s: string)
    requires s != [] && IsDigit(s[0])
    ensures ParseSigned(s) == Some(DigitsValue(LeadingDigits(s)))
  {
  }

  /** Text that starts with a digit parses to the value of its leading
      digits. */
  lemma ParseFromDigit(s: string)
    requires s != [] && IsDigit(s[0])
    ensures ParseInt(s) == Some(DigitsValue(LeadingDigits(s)))
  {
    TrimStartOfDigit(s);
    ParseSignedOfDigit(s);
  }

  /** parseInt reads a leading run of digits and stops at the first
      character that is not a digit. */
  lemma ParseDigitsThen(d: string, t: string)
    requires d != [] && AllDigits(d)
    requires t == [] || !IsDigit(t[0])
    ensures ParseInt(d + t) == Some(DigitsValue(d))
  {
    assert (d + t)[0] == d[0];
    ParseFromDigit(d + t);
    LeadingDigitsPrefix(d, t);
  }

  lemma {:induction false} LeadingDigitsPrefix(d: string, t: string)
    requires AllDigits(d)
    requires t == [] || !IsDigit(t[0])
    ensures LeadingDigits(d + t) == d
  {
    if d != [] {
      assert (d + t)[1..] == d[1..] + t;
      LeadingDigitsPrefix(d[1..], t);
    } else {
      assert d + t == t;
    }
  }

  lemma ParseAllDigits(s: string)
    requires s != [] && AllDigits(s)
    ensures ParseInt(s) == Some(DigitsValue(s))
  {
    ParseDigitsThen(s, []);
    assert s + [] == s;
  }

  /** The digits of a wheel label stand for its value. */
  lemma LabelValue(n: nat)
    ensures DigitsValue(Label(n)) == n
  {
    var d := Decimal(n);
    DecimalValue(n);
    if |d| == 1 {
      LeadingZeroValue(d);
    }
  }

  /** Parsing a wheel label gives back its value. */
  lemma LabelParses(n: nat)
    ensures ParseInt(Label(n)) == Some(n)
  {
    LabelValue(n);
    ParseAllDigits(Label(n));
  }

  /** The first maximal run of digits in `s`, as matched by /\d+/; None when
      `s` holds no digit (String.prototype.match then returns null). */
  function FirstDigitRun(s: string): (r: Option<string>)
    ensures r.None? <==> forall i :: 0 <= i < |s| ==> !IsDigit(s[i])
    ensures r.Some? ==> r.value != [] && AllDigits(r.value)
  {
    if s == [] then None
    else if IsDigit(s[0]) then Some(LeadingDigits(s))
    else FirstDigitRun(s[1..])
  }

  predicate HasDigit(s: string) {
    exists i :: 0 <= i < |s| && IsDigit(s[i])
  }

  /** The run /\d+/ matches starts at the first digit p of s and is the
      longest run of digits there. */
  lemma {:induction false} FirstDigitRunAt(s: string, p: nat)
    requires p < |s| && IsDigit(s[p])
    requires forall i :: 0 <= i < p ==> !IsDigit(s[i])
    ensures FirstDigitRun(s) == Some(LeadingDigits(s[p..]))
  {
    if p > 0 {
      assert s[1..][p - 1..] == s[p..];
      FirstDigitRunAt(s[1..], p - 1);
    }
  }
}
