/** The field encoder and row writer of the declaration file: each field
    renders to text under a fixed rule (DDMMYYYY dates, comma-separated
    fixed-precision decimals, verbatim text, empty), and a row is the rendered
    fields joined by '|' and terminated by CRLF. */
module Encoding {
  import opened Wrappers
  import Calendar

  const Delimiter: char := '|'
  const LineEnd: string := "\r\n"

  // ---------------------------------------------------------------------
  // Decimal digits

  predicate IsDigit(c: char) {
    '0' <= c <= '9'
  }

  predicate AllDigits(s: string) {
    forall i :: 0 <= i < |s| ==> IsDigit(s[i])
  }

  function Pow10(k: nat): (r: nat)
    ensures r >= 1
  {
    if k == 0 then 1 else 10 * Pow10(k - 1)
  }

  function DigitChar(k: int): (c: char)
    requires 0 <= k < 10
    ensures IsDigit(c)
  {
    ('0' as int + k) as char
  }

  /** The shortest decimal numeral of n ("0" for zero). */
  function DigitsOf(n: nat): (s: string)
    ensures |s| >= 1 && AllDigits(s)
  {
    if n < 10 then [DigitChar(n)] else DigitsOf(n / 10) + [DigitChar(n % 10)]
  }

  /** The number a string of decimal digits denotes. */
  function DigitsValue(s: string): (n: nat)
    requires AllDigits(s)
  {
    if s == [] then 0 else DigitsValue(s[..|s| - 1]) * 10 + (s[|s| - 1] as int - '0' as int)
  }

  lemma {:induction false} DigitsRoundTrip(n: nat)
    ensures DigitsValue(DigitsOf(n)) == n
  {
    if n >= 10 {
      var s := DigitsOf(n);
      assert s[..|s| - 1] == DigitsOf(n / 10);
      DigitsRoundTrip(n / 10);
    }
  }

  lemma {:induction false} DigitsFit(n: nat, k: nat)
    requires k >= 1 && n < Pow10(k)
    ensures |DigitsOf(n)| <= k
  {
    if n >= 10 {
      assert n / 10 < Pow10(k - 1);
      DigitsFit(n / 10, k - 1);
    }
  }

  lemma AllDigitsAppend(a: string, b: string)
    requires AllDigits(a) && AllDigits(b)
    ensures AllDigits(a + b)
  {
    var ab := a + b;
    forall i | 0 <= i < |ab| ensures IsDigit(ab[i]) {
      if i < |a| { assert ab[i] == a[i]; } else { assert ab[i] == b[i - |a|]; }
    }
  }

  lemma Regroup(va: int, p: int, vb: int, last: int)
    ensures (va * p + vb) * 10 + last == va * (10 * p) + (vb * 10 + last)
  {
  }

  lemma {:induction false} DigitsValueAppend(a: string, b: string)
    requires AllDigits(a) && AllDigits(b)
    ensures AllDigits(a + b)
    ensures DigitsValue(a + b) == DigitsValue(a) * Pow10(|b|) + DigitsValue(b)
    decreases |b|
  {
    AllDigitsAppend(a, b);
    var ab := a + b;
    if b == [] {
      assert ab == a;
    } else {
      var b' := b[..|b| - 1];
      assert ab[..|ab| - 1] == a + b';
      assert ab[|ab| - 1] == b[|b| - 1];
      DigitsValueAppend(a, b');
      Regroup(DigitsValue(a), Pow10(|b'|), DigitsValue(b'), b[|b| - 1] as int - '0' as int);
    }
  }

  function Zeros(k: nat): (s: string)
    ensures |s| == k && AllDigits(s)
  {
    if k == 0 then "" else Zeros(k - 1) + "0"
  }

  lemma {:induction false} ZerosValue(k: nat)
    ensures DigitsValue(Zeros(k)) == 0
  {
    if k > 0 {
      assert Zeros(k)[..k - 1] == Zeros(k - 1);
      ZerosValue(k - 1);
    }
  }

  /** Left-pads a numeral with zeros to width w (Rust's `{:0w}` on a
      non-negative integer). */
  function ZeroPad(s: string, w: nat): (r: string)
    requires AllDigits(s)
    ensures AllDigits(r) && |r| == if |s| < w then w else |s|
  {
    Zeros(if |s| < w then w - |s| else 0) + s
  }

  /** Padding keeps the value of the numeral. */
  lemma ZeroPadValue(s: string, w: nat)
    requires AllDigits(s)
    ensures DigitsValue(ZeroPad(s, w)) == DigitsValue(s)
  {
    var k := if |s| < w then w - |s| else 0;
    assert ZeroPad(s, w) == Zeros(k) + s;
    DigitsValueAppend(Zeros(k), s);
    ZerosValue(k);
    assert DigitsValue(Zeros(k)) * Pow10(|s|) == 0;
  }

  /** Rust's `{:0w}` on an integer: the sign counts towards the width. */
  function PadInt(n: int, w: nat): (r: string)
  {
    if n >= 0 then ZeroPad(DigitsOf(n), w)
    else "-" + ZeroPad(DigitsOf(-n), if w >= 1 then w - 1 else 0)
  }

  // ---------------------------------------------------------------------
  // Rounding and decimal rendering

  /** Rounds x to the nearest integer, ties to the even neighbour (the
      midpoint rule of `round_dp`). */
  function RoundHalfEven(x: real): (r: int)
    ensures -0.5 <= x - r as real <= 0.5
    ensures (x - r as real == 0.5 || x - r as real == -0.5) ==> r % 2 == 0
  {
    var f := x.Floor;
    var frac := x - f as real;
    if frac < 0.5 then f
    else if frac > 0.5 then f + 1
    else if f % 2 == 0 then f
    else f + 1
  }

  /** value * 10^p, by repeated multiplication by ten. */
  function Shift(value: real, p: nat): real {
    if p == 0 then value else 10.0 * Shift(value, p - 1)
  }

  lemma {:induction false} ShiftIsScaling(value: real, p: nat)
    ensures Shift(value, p) == value * Pow10(p) as real
  {
    if p > 0 {
      ShiftIsScaling(value, p - 1);
      assert Pow10(p) as real == 10.0 * Pow10(p - 1) as real;
    }
  }

  /** `value` rounded to `p` places, as a count of 10^-p units. */
  function Scaled(value: real, p: nat): (m: int)
    ensures -0.5 <= Shift(value, p) - m as real <= 0.5
    ensures Shift(value, p) - m as real == 0.5 || Shift(value, p) - m as real == -0.5 ==> m % 2 == 0
  {
    RoundHalfEven(Shift(value, p))
  }

  function Abs(n: int): nat {
    if n < 0 then -n else n
  }

  /** a with its last p decimal digits dropped (a / 10^p). */
  function DropDigits(a: nat, p: nat): nat {
    if p == 0 then a else DropDigits(a / 10, p - 1)
  }

  /** The last p decimal digits of a, as a number (a % 10^p). */
  function LowDigits(a: nat, p: nat): nat {
    if p == 0 then 0 else a % 10 + 10 * LowDigits(a / 10, p - 1)
  }

  lemma {:induction false} DigitSplit(a: nat, p: nat)
    ensures a == DropDigits(a, p) * Pow10(p) + LowDigits(a, p)
    ensures LowDigits(a, p) < Pow10(p)
  {
    if p > 0 {
      DigitSplit(a / 10, p - 1);
      var d, l, P := DropDigits(a / 10, p - 1), LowDigits(a / 10, p - 1), Pow10(p - 1);
      assert a / 10 == d * P + l;
      assert a == 10 * (a / 10) + a % 10;
      calc {
        a;
        10 * (d * P + l) + a % 10;
        d * (10 * P) + (a % 10 + 10 * l);
      }
      assert l <= P - 1;
      assert 10 * l <= 10 * P - 10;
    }
  }

  /** The unsigned text of a count a of 10^-p units: the integer digits,
      then ',' and exactly p digits when p > 0. */
  function UnsignedText(a: nat, p: nat): string {
    var whole := DigitsOf(DropDigits(a, p));
    if p == 0 then whole else whole + "," + ZeroPad(DigitsOf(LowDigits(a, p)), p)
  }

  /** The text of a decimal rounded to p places, with a leading '-' when the
      rounded value is negative. */
  function RenderDecimal(value: real, p: nat): (s: string)
  {
    var m := Scaled(value, p);
    (if m < 0 then "-" else "") + UnsignedText(Abs(m), p)
  }

  /** Every character of a signed numeral is a digit or a leading '-'. */
  predicate SignedNumeral(s: string) {
    forall i :: 0 <= i < |s| ==> IsDigit(s[i]) || (i == 0 && s[i] == '-')
  }

  lemma SignedNumeralJoin(sign: string, digits: string)
    requires sign == "" || sign == "-"
    requires AllDigits(digits)
    ensures SignedNumeral(sign + digits)
  {
    var s := sign + digits;
    forall i | 0 <= i < |s| ensures IsDigit(s[i]) || (i == 0 && s[i] == '-') {
      if i >= |sign| { assert s[i] == digits[i - |sign|]; }
    }
  }

  /** A decimal's text has a ',' exactly when p > 0, then followed by exactly
      p digits; before that come digits, at least one, after an optional
      '-'. It never holds the delimiter. */
  lemma RenderDecimalShape(value: real, p: nat)
    ensures var s := RenderDecimal(value, p);
      && ((',' in s) <==> p > 0)
      && (p > 0 ==> |s| > p + 1 && s[|s| - p - 1] == ',' && AllDigits(s[|s| - p..]))
      && Delimiter !in s
      && var head := if p > 0 then s[..|s| - p - 1] else s;
         |head| >= 1 && IsDigit(head[|head| - 1]) && SignedNumeral(head)
  {
    var m := Scaled(value, p);
    var a := Abs(m);
    var sign := if m < 0 then "-" else "";
    var whole := DigitsOf(DropDigits(a, p));
    SignedNumeralJoin(sign, whole);
    var head := sign + whole;
    var s := RenderDecimal(value, p);
    assert s == sign + UnsignedText(a, p);
    assert IsDigit(head[|head| - 1]) by {
      assert head[|head| - 1] == whole[|whole| - 1];
    }
    SignedNumeralPlain(head);
    if p > 0 {
      DigitSplit(a, p);
      var frac := ZeroPad(DigitsOf(LowDigits(a, p)), p);
      DigitsFit(LowDigits(a, p), p);
      assert s == head + "," + frac;
      CommaJoinShape(head, frac);
    }
  }

  /** A signed numeral holds neither a ',' nor the delimiter. */
  lemma SignedNumeralPlain(head: string)
    requires SignedNumeral(head)
    ensures ',' !in head && Delimiter !in head
  {
    forall i | 0 <= i < |head| ensures head[i] != ',' && head[i] != Delimiter {
      assert IsDigit(head[i]) || head[i] == '-';
    }
  }

  /** Joining a signed numeral and a run of digits with ',' puts the comma
      exactly |frac| + 1 places from the end, and adds no delimiter. */
  lemma CommaJoinShape(head: string, frac: string)
    requires ',' !in head && Delimiter !in head && AllDigits(frac) && |frac| >= 1
    ensures var s, p := head + "," + frac, |frac|;
      && |s| > p && s[|s| - p - 1] == ',' && s[|s| - p..] == frac && s[..|s| - p - 1] == head
      && ',' in s && Delimiter !in s
  {
    var s, p := head + "," + frac, |frac|;
    assert s[|head|] == ',';
    forall i | 0 <= i < |s| ensures s[i] != Delimiter {
      if i < |head| { assert s[i] == head[i]; }
      else if i > |head| { assert s[i] == frac[i - |head| - 1]; assert IsDigit(frac[i - |head| - 1]); }
    }
  }

  /** Reads back unsigned decimal text at precision p: the number of 10^-p
      units it denotes, or None when it is not of that shape. */
  function ParseUnsigned(body: string, p: nat): Option<nat> {
    if p == 0 then
      (if body != [] && AllDigits(body) then Some(DigitsValue(body)) else None)
    else if |body| >= p + 2 && body[|body| - p - 1] == ','
            && AllDigits(body[..|body| - p - 1]) && AllDigits(body[|body| - p..]) then
      Some(DigitsValue(body[..|body| - p - 1]) * Pow10(p) + DigitsValue(body[|body| - p..]))
    else None
  }

  /** Reads back the text of a decimal at precision p, with an optional
      leading '-'. */
  function ParseDecimal(s: string, p: nat): Option<int> {
    if |s| > 0 && s[0] == '-' then
      match ParseUnsigned(s[1..], p)
      case None => None
      case Some(k) => Some(-(k as int))
    else
      match ParseUnsigned(s, p)
      case None => None
      case Some(k) => Some(k)
  }

  lemma UnsignedRoundTrip(a: nat, p: nat)
    ensures ParseUnsigned(UnsignedText(a, p), p) == Some(a)
  {
    var q, r := DropDigits(a, p), LowDigits(a, p);
    DigitSplit(a, p);
    var whole := DigitsOf(q);
    assert DigitsValue(whole) == q by {
      DigitsRoundTrip(q);
    }
    if p > 0 {
      var frac := ZeroPad(DigitsOf(r), p);
      assert |frac| == p && AllDigits(frac) && DigitsValue(frac) == r by {
        PaddedNumeral(r, p);
      }
      ParseCommaText(whole, frac, p);
      assert UnsignedText(a, p) == whole + "," + frac;
    }
  }

  /** Digits, a comma and exactly p digits read back as the whole part
      shifted by p places plus the fraction. */
  lemma ParseCommaText(whole: string, frac: string, p: nat)
    requires p >= 1 && |frac| == p && |whole| >= 1 && AllDigits(whole) && AllDigits(frac)
    ensures ParseUnsigned(whole + "," + frac, p) == Some(DigitsValue(whole) * Pow10(p) + DigitsValue(frac))
  {
    CommaParts(whole, frac);
    ParseCommaAt(whole + "," + frac, whole, frac, p);
  }

  /** The same, for any text whose parts around position |whole| are known. */
  lemma ParseCommaAt(b: string, whole: string, frac: string, p: nat)
    requires p >= 1 && |frac| == p && |whole| >= 1 && AllDigits(whole) && AllDigits(frac)
    requires |b| == |whole| + 1 + p && b[|whole|] == ',' && b[..|whole|] == whole && b[|whole| + 1..] == frac
    ensures ParseUnsigned(b, p) == Some(DigitsValue(whole) * Pow10(p) + DigitsValue(frac))
  {
    assert |b| - p - 1 == |whole|;
  }

  /** The parts on either side of the comma of whole + "," + frac. */
  lemma CommaParts(whole: string, frac: string)
    ensures var b := whole + "," + frac;
      && |b| == |whole| + 1 + |frac| && b[|whole|] == ','
      && b[..|whole|] == whole && b[|whole| + 1..] == frac
  {
    var b := whole + "," + frac;
    assert b[..|whole|] == whole;
    assert b[|whole| + 1..] == frac;
  }

  /** The signed text of m units of 10^-p reads back as m. */
  lemma SignedRoundTrip(m: int, p: nat)
    ensures ParseDecimal((if m < 0 then "-" else "") + UnsignedText(Abs(m), p), p) == Some(m)
  {
    var a := Abs(m);
    var body := UnsignedText(a, p);
    UnsignedRoundTrip(a, p);
    if m < 0 {
      ParseNegatedText(body, p, a);
      assert -(a as int) == m;
    } else {
      UnsignedTextLeads(a, p);
      ParseSignedText(body, p, a);
      assert "" + body == body;
    }
  }

  /** Unsigned text opens with a digit. */
  lemma UnsignedTextLeads(a: nat, p: nat)
    ensures |UnsignedText(a, p)| >= 1 && IsDigit(UnsignedText(a, p)[0])
  {
    var whole := DigitsOf(DropDigits(a, p));
    assert UnsignedText(a, p)[0] == whole[0];
  }

  /** Without a sign, the text denotes what its unsigned reading does. */
  lemma ParseSignedText(body: string, p: nat, k: nat)
    requires |body| >= 1 && body[0] != '-' && ParseUnsigned(body, p) == Some(k)
    ensures ParseDecimal(body, p) == Some(k)
  {
  }

  /** A leading '-' negates what the unsigned text denotes. */
  lemma ParseNegatedText(body: string, p: nat, k: nat)
    requires ParseUnsigned(body, p) == Some(k)
    ensures ParseDecimal("-" + body, p) == Some(-(k as int))
  {
    var s := "-" + body;
    assert s[1..] == body;
  }

  /** The rendered text of a decimal denotes exactly the value rounded to p
      places, ties to even, so it lies within half a unit of the last place. */
  lemma RenderDecimalRoundTrip(value: real, p: nat)
    ensures ParseDecimal(RenderDecimal(value, p), p) == Some(Scaled(value, p))
    ensures -0.5 <= value * Pow10(p) as real - Scaled(value, p) as real <= 0.5
  {
    ShiftIsScaling(value, p);
    var m := Scaled(value, p);
    SignedRoundTrip(m, p);
    assert RenderDecimal(value, p) == (if m < 0 then "-" else "") + UnsignedText(Abs(m), p);
  }

  // ---------------------------------------------------------------------
  // Fields

  datatype Field =
    | Date(date: Calendar.Date)
    | DecimalNumber(number: real, precision: nat)
    | AlphaNumber(text: string)
    | Empty

  datatype EncodingError = DelimiterInText(text: string)

  /** `From<&str>` and `From<&String>`: text becomes an alphanumeric field
      unless it contains the delimiter, which is refused. */
  function FieldFromText(text: string): (r: Result<Field, EncodingError>)
    ensures r.Ok? <==> Delimiter !in text
    ensures r.Ok? ==> r.value == AlphaNumber(text)
    ensures r.Err? ==> r.error == DelimiterInText(text)
  {
    if Delimiter in text then Err(DelimiterInText(text)) else Ok(AlphaNumber(text))
  }

  /** DDMMYYYY: day and month zero-padded to two places, year to four. */
  function RenderDate(d: Calendar.Date): string {
    PadInt(d.day, 2) + PadInt(d.month, 2) + PadInt(d.year, 4)
  }

  lemma PadIntNoDelimiter(n: int, w: nat)
    ensures Delimiter !in PadInt(n, w)
  {
    var s := PadInt(n, w);
    if n >= 0 {
      assert AllDigits(s);
    } else {
      assert AllDigits(s[1..]);
      assert forall i :: 0 <= i < |s| ==> s[i] == '-' || s[i] == s[1..][i - 1];
    }
  }

  /** A natural number below 10^w pads to exactly w digits that read back
      as the number. */
  lemma PaddedNumeral(n: nat, w: nat)
    requires w >= 1 && n < Pow10(w)
    ensures |PadInt(n, w)| == w && AllDigits(PadInt(n, w)) && DigitsValue(PadInt(n, w)) == n
  {
    DigitsFit(n, w);
    DigitsRoundTrip(n);
    ZeroPadValue(DigitsOf(n), w);
  }

  /** For the years 0..9999 a valid date renders as eight digits that read
      back as day, month and year. */
  lemma RenderDateFields(d: Calendar.Date)
    requires Calendar.ValidDate(d) && 0 <= d.year <= 9999
    ensures var s := RenderDate(d);
      && |s| == 8 && AllDigits(s)
      && DigitsValue(s[..2]) == d.day
      && DigitsValue(s[2..4]) == d.month
      && DigitsValue(s[4..]) == d.year
  {
    assert Pow10(2) == 100 && Pow10(4) == 10000;
    var dd, mm, yyyy := PadInt(d.day, 2), PadInt(d.month, 2), PadInt(d.year, 4);
    PaddedNumeral(d.day, 2);
    PaddedNumeral(d.month, 2);
    PaddedNumeral(d.year, 4);
    AllDigitsAppend(dd, mm);
    AllDigitsAppend(dd + mm, yyyy);
    DateSlices(dd, mm, yyyy);
  }

  /** The three parts of a day-month-year text, recovered by position. */
  lemma DateSlices(dd: string, mm: string, yyyy: string)
    requires |dd| == 2 && |mm| == 2 && |yyyy| == 4
    ensures var s := dd + mm + yyyy;
      |s| == 8 && s[..2] == dd && s[2..4] == mm && s[4..] == yyyy
  {
    var s := dd + mm + yyyy;
    assert s[..2] == dd;
    assert s[2..4] == mm;
  }

  /** `Display` for a field. */
  function Render(f: Field): string {
    match f
    case Date(d) => RenderDate(d)
    case DecimalNumber(v, p) => RenderDecimal(v, p)
    case AlphaNumber(t) => t
    case Empty => ""
  }

  /** Only alphanumeric text can put a delimiter into a rendered field. */
  lemma RenderedDelimiterComesFromText(f: Field)
    ensures Delimiter in Render(f) ==> f.AlphaNumber? && Delimiter in f.text
    ensures f.Empty? ==> Render(f) == ""
    ensures f.AlphaNumber? ==> Render(f) == f.text
  {
    if f.Date? {
      var d := f.date;
      PadIntNoDelimiter(d.day, 2);
      PadIntNoDelimiter(d.month, 2);
      PadIntNoDelimiter(d.year, 4);
      var s := RenderDate(d);
      var a, b, c := PadInt(d.day, 2), PadInt(d.month, 2), PadInt(d.year, 4);
      assert s == a + b + c;
      assert forall i :: 0 <= i < |s| ==> s[i] in a || s[i] in b || s[i] in c by {
        forall i | 0 <= i < |s| ensures s[i] in a || s[i] in b || s[i] in c {
          if i < |a| { assert s[i] == a[i]; }
          else if i < |a| + |b| { assert s[i] == b[i - |a|]; }
          else { assert s[i] == c[i - |a| - |b|]; }
        }
      }
    }
  }

  // ---------------------------------------------------------------------
  // Rows

  /** The parts joined with the delimiter, nothing before the first or
      after the last. */
  function Join(parts: seq<string>): string {
    if |parts| == 0 then ""
    else if |parts| == 1 then parts[0]
    else parts[0] + [Delimiter] + Join(parts[1..])
  }

  function IndexOf(s: string, c: char): (i: nat)
    ensures i <= |s|
    ensures i < |s| ==> s[i] == c
    ensures forall j :: 0 <= j < i ==> s[j] != c
  {
    if s == [] then 0 else if s[0] == c then 0 else 1 + IndexOf(s[1..], c)
  }

  /** The pieces of s between delimiters (always at least one). */
  function Split(s: string): (r: seq<string>)
    ensures |r| >= 1
    decreases |s|
  {
    var i := IndexOf(s, Delimiter);
    if i == |s| then [s] else [s[..i]] + Split(s[i + 1..])
  }

  function Count(s: string, c: char): nat {
    if s == [] then 0 else (if s[0] == c then 1 else 0) + Count(s[1..], c)
  }

  lemma {:induction false} CountAppend(a: string, b: string, c: char)
    ensures Count(a + b, c) == Count(a, c) + Count(b, c)
  {
    if a == [] {
      assert a + b == b;
    } else {
      assert (a + b)[1..] == a[1..] + b;
      CountAppend(a[1..], b, c);
    }
  }

  lemma {:induction false} CountAbsent(s: string, c: char)
    requires c !in s
    ensures Count(s, c) == 0
  {
    if s != [] {
      CountAbsent(s[1..], c);
    }
  }

  predicate NoDelimiters(parts: seq<string>) {
    forall i :: 0 <= i < |parts| ==> Delimiter !in parts[i]
  }

  /** Framing: splitting a joined line on the delimiter gives the parts
      back. */
  lemma {:induction false} SplitJoin(parts: seq<string>)
    requires |parts| >= 1 && NoDelimiters(parts)
    ensures Split(Join(parts)) == parts
  {
    if |parts| > 1 {
      var s := Join(parts);
      var rest := Join(parts[1..]);
      var first := parts[0];
      assert s == first + [Delimiter] + rest;
      var i := IndexOf(s, Delimiter);
      assert s[|first|] == Delimiter;
      assert forall j :: 0 <= j < |first| ==> s[j] == first[j];
      assert s[..i] == first;
      assert s[i + 1..] == rest;
      SplitJoin(parts[1..]);
      assert parts == [first] + parts[1..];
    }
  }

  /** A joined line holds exactly |parts| - 1 delimiters: none is added
      after the last part. */
  lemma {:induction false} CountJoin(parts: seq<string>)
    requires |parts| >= 1 && NoDelimiters(parts)
    ensures Count(Join(parts), Delimiter) == |parts| - 1
  {
    CountAbsent(parts[0], Delimiter);
    if |parts| > 1 {
      var rest := Join(parts[1..]);
      CountJoin(parts[1..]);
      CountAppend(parts[0], [Delimiter], Delimiter);
      CountAppend(parts[0] + [Delimiter], rest, Delimiter);
    }
  }

  lemma {:induction false} JoinAppend(xs: seq<string>, ys: seq<string>)
    requires |xs| >= 1 && |ys| >= 1
    ensures Join(xs + ys) == Join(xs) + [Delimiter] + Join(ys)
  {
    if |xs| == 1 {
      assert (xs + ys)[1..] == ys;
    } else {
      assert (xs + ys)[1..] == xs[1..] + ys;
      JoinAppend(xs[1..], ys);
    }
  }

  /** A part holding the delimiter joins to the same text as its two halves
      would. */
  lemma JoinSplicesPart(pre: seq<string>, a: string, b: string, post: seq<string>)
    requires |pre| >= 1 && |post| >= 1
    ensures Join(pre + [a + [Delimiter] + b] + post) == Join(pre + [a, b] + post)
  {
    JoinAppend(pre, [a + [Delimiter] + b]);
    JoinAppend(pre + [a + [Delimiter] + b], post);
    JoinAppend(pre, [a, b]);
    JoinAppend(pre + [a, b], post);
    assert [a, b][1..] == [b];
  }

  /** The images of a sequence's elements under g, in order. */
  function MapAll<A, B>(g: A -> B, xs: seq<A>): (r: seq<B>)
    ensures |r| == |xs|
    ensures forall i :: 0 <= i < |xs| ==> r[i] == g(xs[i])
  {
    seq(|xs|, i requires 0 <= i < |xs| => g(xs[i]))
  }

  // The images of literal sequences of the lengths the rows have.

  lemma MapEight<A, B>(g: A -> B, x0: A, x1: A, x2: A, x3: A, x4: A, x5: A, x6: A, x7: A)
    ensures MapAll(g, [x0, x1, x2, x3, x4, x5, x6, x7]) == [g(x0), g(x1), g(x2), g(x3), g(x4), g(x5), g(x6), g(x7)]
  {
  }

  lemma MapNine<A, B>(g: A -> B, x0: A, x1: A, x2: A, x3: A, x4: A, x5: A, x6: A, x7: A, x8: A)
    ensures MapAll(g, [x0, x1, x2, x3, x4, x5, x6, x7, x8]) == [g(x0), g(x1), g(x2), g(x3), g(x4), g(x5), g(x6), g(x7), g(x8)]
  {
  }

  lemma MapTen<A, B>(g: A -> B, x0: A, x1: A, x2: A, x3: A, x4: A, x5: A, x6: A, x7: A, x8: A, x9: A)
    ensures MapAll(g, [x0, x1, x2, x3, x4, x5, x6, x7, x8, x9]) == [g(x0), g(x1), g(x2), g(x3), g(x4), g(x5), g(x6), g(x7), g(x8), g(x9)]
  {
  }

  lemma MapEleven<A, B>(g: A -> B, x0: A, x1: A, x2: A, x3: A, x4: A, x5: A, x6: A, x7: A, x8: A, x9: A, x10: A)
    ensures MapAll(g, [x0, x1, x2, x3, x4, x5, x6, x7, x8, x9, x10]) == [g(x0), g(x1), g(x2), g(x3), g(x4), g(x5), g(x6), g(x7), g(x8), g(x9), g(x10)]
  {
  }

  /** The text of each field of a row, in order. */
  function Rendered(fields: seq<Field>): (r: seq<string>)
    ensures |r| == |fields|
    ensures forall i :: 0 <= i < |fields| ==> r[i] == Render(fields[i])
  {
    MapAll(Render, fields)
  }

  /** `write_register_row`: the text of one row of the file. */
  function RegisterRow(fields: seq<Field>): (row: string)
    ensures |row| >= 2 && row[|row| - 2..] == LineEnd
  {
    Join(Rendered(fields)) + LineEnd
  }

  /** The row with its CRLF terminator taken off. */
  function Line(row: string): string
    requires |row| >= 2
  {
    row[..|row| - 2]
  }

  /** When no alphanumeric field holds a delimiter, the written row splits
      back into exactly the rendered fields, in order, with one delimiter
      between neighbours and none at the end. */
  lemma RowFraming(fields: seq<Field>)
    requires |fields| >= 1
    requires forall i :: 0 <= i < |fields| && fields[i].AlphaNumber? ==> Delimiter !in fields[i].text
    ensures Split(Line(RegisterRow(fields))) == Rendered(fields)
    ensures Count(Line(RegisterRow(fields)), Delimiter) == |fields| - 1
  {
    var parts := Rendered(fields);
    forall i | 0 <= i < |parts| ensures Delimiter !in parts[i] {
      RenderedDelimiterComesFromText(fields[i]);
    }
    var row := RegisterRow(fields);
    assert Line(row) == Join(parts);
    SplitJoin(parts);
    CountJoin(parts);
  }

  // ---------------------------------------------------------------------
  // Worked cases of the encoder

  lemma DecimalExamples()
    ensures RenderDecimal(1234.5678, 2) == "1234,57"
    ensures RenderDecimal(1234.5678, 3) == "1234,568"
    ensures RenderDecimal(1234.5678, 0) == "1235"
    ensures RenderDecimal(0.01, 2) == "0,01"
    ensures RenderDecimal(10000.0, 2) == "10000,00"
  {
    RoundsToTwoPlaces();
    RoundsToThreePlaces();
    RoundsToWholeNumber();
    KeepsSmallFraction();
    PadsWholeNumber();
  }
  lemma RoundsToTwoPlaces()
    ensures RenderDecimal(1234.5678, 2) == "1234,57"
  {
    assert Shift(1234.5678, 2) == 123456.78;
    assert RoundHalfEven(123456.78) == 123457;
    assert DropDigits(123457, 2) == 1234;
    assert LowDigits(123457, 2) == 57;
    assert DigitsOf(1234) == "1234";
    assert ZeroPad(DigitsOf(57), 2) == "57";
    DecimalExample(1234.5678, 2, 123457, 1234, 57, "1234", "57");
  }
  lemma RoundsToThreePlaces()
    ensures RenderDecimal(1234.5678, 3) == "1234,568"
  {
    DecimalExample(1234.5678, 3, 1234568, 1234, 568, "1234", "568");
  }
  lemma RoundsToWholeNumber()
    ensures RenderDecimal(1234.5678, 0) == "1235"
  {
    assert RoundHalfEven(1234.5678) == 1235;
    assert DigitsOf(1235) == "1235";
  }
  lemma KeepsSmallFraction()
    ensures RenderDecimal(0.01, 2) == "0,01"
  {
    DecimalExample(0.01, 2, 1, 0, 1, "0", "01");
  }
  lemma PadsWholeNumber()
    ensures RenderDecimal(10000.0, 2) == "10000,00"
  {
    DecimalExample(10000.0, 2, 1000000, 10000, 0, "10000", "00");
  }

  lemma DecimalExample(value: real, p: nat, m: nat, q: nat, r: nat, whole: string, frac: string)
    requires p > 0
    requires RoundHalfEven(Shift(value, p)) == m
    requires DropDigits(m, p) == q && LowDigits(m, p) == r
    requires DigitsOf(q) == whole && ZeroPad(DigitsOf(r), p) == frac
    ensures RenderDecimal(value, p) == whole + "," + frac
  {
    assert Scaled(value, p) == m;
    assert Abs(m) == m;
  }

  lemma DateExample()
    ensures RenderDate(Calendar.Date(2023, 12, 31)) == "31122023"
  {
  }

  lemma RowExamples()
    ensures RegisterRow([AlphaNumber("I550"), AlphaNumber("José Silva"), AlphaNumber("12345678912"), AlphaNumber("01238578455")])
      == "I550|José Silva|12345678912|01238578455\r\n"
    ensures RegisterRow([AlphaNumber("I550"), AlphaNumber("João Silva"), Empty, AlphaNumber("96325874177")])
      == "I550|João Silva||96325874177\r\n"
    ensures RegisterRow([AlphaNumber("I550"), Empty, Empty, Empty]) == "I550|||\r\n"
    ensures RegisterRow([AlphaNumber("I550"), Date(Calendar.Date(2023, 12, 31))]) == "I550|31122023\r\n"
  {
    RowOfTexts();
    RowWithEmptyField();
    RowOfTrailingEmpties();
    RowWithDate();
  }

  lemma RowOfTexts()
    ensures RegisterRow([AlphaNumber("I550"), AlphaNumber("José Silva"), AlphaNumber("12345678912"), AlphaNumber("01238578455")])
      == "I550|José Silva|12345678912|01238578455\r\n"
  {
    assert Rendered([AlphaNumber("I550"), AlphaNumber("José Silva"), AlphaNumber("12345678912"), AlphaNumber("01238578455")])
      == ["I550", "José Silva", "12345678912", "01238578455"];
    JoinOfTexts();
  }

  lemma JoinOfTexts()
    ensures Join(["I550", "José Silva", "12345678912", "01238578455"]) == "I550|José Silva|12345678912|01238578455"
  {
    var parts := ["I550", "José Silva", "12345678912", "01238578455"];
    assert parts[1..][1..][1..] == ["01238578455"];
    assert Join(parts[1..][1..]) == "12345678912" + "|" + "01238578455";
    assert Join(parts[1..]) == "José Silva" + "|" + ("12345678912" + "|" + "01238578455");
  }

  lemma RowWithEmptyField()
    ensures RegisterRow([AlphaNumber("I550"), AlphaNumber("João Silva"), Empty, AlphaNumber("96325874177")])
      == "I550|João Silva||96325874177\r\n"
  {
    assert Rendered([AlphaNumber("I550"), AlphaNumber("João Silva"), Empty, AlphaNumber("96325874177")])
      == ["I550", "João Silva", "", "96325874177"];
    JoinWithEmptyPart();
  }

  lemma JoinWithEmptyPart()
    ensures Join(["I550", "João Silva", "", "96325874177"]) == "I550|João Silva||96325874177"
  {
    var parts := ["I550", "João Silva", "", "96325874177"];
    assert parts[1..][1..][1..] == ["96325874177"];
    assert Join(parts[1..][1..]) == "" + "|" + "96325874177";
    assert Join(parts[1..]) == "João Silva" + "|" + ("" + "|" + "96325874177");
  }

  lemma RowOfTrailingEmpties()
    ensures RegisterRow([AlphaNumber("I550"), Empty, Empty, Empty]) == "I550|||\r\n"
  {
    var fs := [AlphaNumber("I550"), Empty, Empty, Empty];
    var parts := ["I550", "", "", ""];
    assert Rendered(fs) == parts;
    assert Join(parts[3..]) == "";
    assert Join(parts[2..]) == "|";
    assert Join(parts[1..]) == "||";
  }

  lemma RowWithDate()
    ensures RegisterRow([AlphaNumber("I550"), Date(Calendar.Date(2023, 12, 31))]) == "I550|31122023\r\n"
  {
    DateExample();
    assert Rendered([AlphaNumber("I550"), Date(Calendar.Date(2023, 12, 31))]) == ["I550", "31122023"];
    var parts := ["I550", "31122023"];
    assert Join(parts[1..]) == "31122023";
  }
}
