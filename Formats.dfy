/** The canonical text forms of FinancialTracker: the "yyyy-MM-dd", "HH:mm:ss"
    and "yyyy-MM-dd HH:mm:ss" patterns (DateTimeFormatter.ofPattern, whose
    resolver style is SMART), Double.parseDouble for amounts, the parseDouble
    helper's rounding to cents, and "%.2f" for printing an amount. Amounts are
    held as a whole number of cents. */
module Formats {
  import opened Text
  import opened Calendar

  // ------------------------------------------------------------ years

  /** "yyyy" prints at least four digits and puts '+' before a year that
      needs more (SignStyle.EXCEEDS_PAD). */
  function FormatYear(y: nat): (s: string)
    ensures |s| >= 4 && (y <= 9999 <==> |s| == 4)
    ensures forall i :: 0 <= i < |s| ==> s[i] == '+' || IsDigit(s[i])
  {
    assert Pow10(4) == 10000;
    NatToTextLength(y, 4);
    if y <= 9999 then Pad4(y) else "+" + NatToText(y)
  }

  /** Strict "yyyy" parsing: exactly four unsigned digits, or '+' and five to
      nineteen digits; the year of era must lie in 1..MaxYear. */
  function ParseYear(s: string): (r: Option<int>)
    ensures r.Some? ==> 1 <= r.value <= MaxYear
  {
    assert Pow10(4) == 10000;
    if |s| == 4 && AllDigits(s) && TextToNat(s) >= 1 then Some(TextToNat(s))
    else if 6 <= |s| <= 20 && s[0] == '+' && AllDigits(s[1..]) && 1 <= TextToNat(s[1..]) <= MaxYear
    then Some(TextToNat(s[1..]))
    else None
  }

  lemma ParseFormatYear(y: int)
    requires 1 <= y <= MaxYear
    ensures ParseYear(FormatYear(y)) == Some(y)
  {
    if y <= 9999 {
      Pad4Value(y);
    } else {
      var t := NatToText(y);
      assert Pow10(4) == 10000;
      assert Pow10(9) == 1_000_000_000;
      NatToTextLength(y, 4);
      NatToTextLength(y, 9);
      TextToNatOfNatToText(y);
      assert FormatYear(y)[1..] == t;
    }
  }

  // ------------------------------------------------------------ dates

  predicate InYearRange(d: Date)
  {
    1 <= d.year <= MaxYear
  }

  /** "yyyy-MM-dd". */
  function FormatDate(d: Date): (s: string)
    requires ValidDate(d) && InYearRange(d)
    ensures |s| >= 10 && s[|s| - 6] == '-' && s[|s| - 3] == '-' && (d.year <= 9999 <==> |s| == 10)
    ensures '|' !in s && s[0] != '-'
  {
    FormatYear(d.year) + "-" + Pad2(d.month) + "-" + Pad2(d.day)
  }

  /** LocalDate.parse(s, "yyyy-MM-dd"): the month must be 1..12 and the day
      1..31; a day past the end of the month is moved back to its last day. */
  function ParseDate(s: string): (r: Option<Date>)
    ensures r.Some? ==> ValidDate(r.value) && InYearRange(r.value)
  {
    if |s| >= 6 && s[|s| - 6] == '-' && s[|s| - 3] == '-'
       && AllDigits(s[|s| - 5..|s| - 3]) && AllDigits(s[|s| - 2..]) then
      ResolveDate(ParseYear(s[..|s| - 6]), TextToNat(s[|s| - 5..|s| - 3]), TextToNat(s[|s| - 2..]))
    else None
  }

  /** The SMART resolution of a year, a month and a day of month. */
  function ResolveDate(year: Option<int>, m: int, day: int): (r: Option<Date>)
    ensures r.Some? ==> ValidDate(r.value) && InYearRange(r.value)
  {
    match year
    case None => None
    case Some(y) =>
      if 1 <= y <= MaxYear && 1 <= m <= 12 && 1 <= day <= 31 then Some(Date(y, m, Min(day, DaysInMonth(y, m)))) else None
  }

  /** The text of a date splits into its three fields. */
  lemma ParseDateOfParts(yt: string, mt: string, dt: string)
    requires |mt| == 2 && |dt| == 2 && AllDigits(mt) && AllDigits(dt)
    ensures ParseDate(yt + "-" + mt + "-" + dt) == ResolveDate(ParseYear(yt), TextToNat(mt), TextToNat(dt))
  {
    var s := yt + "-" + mt + "-" + dt;
    assert s[..|s| - 6] == yt;
    assert s[|s| - 5..|s| - 3] == mt;
    assert s[|s| - 2..] == dt;
  }

  /** Reading the text of a year, a month and a day checks the month and the
      day-of-month bounds and clamps the day to the month's length. */
  lemma ParseDateOfFields(y: int, m: nat, day: nat)
    requires 1 <= y <= MaxYear && m < 100 && day < 100
    ensures ParseDate(FormatYear(y) + "-" + Pad2(m) + "-" + Pad2(day))
         == if 1 <= m <= 12 && 1 <= day <= 31 then Some(Date(y, m, Min(day, DaysInMonth(y, m)))) else None
  {
    ParseDateOfParts(FormatYear(y), Pad2(m), Pad2(day));
    ParseFormatYear(y);
    Pad2Value(m);
    Pad2Value(day);
  }

  /** Every date in range prints to text that parses back to it. */
  lemma ParseFormatDate(d: Date)
    requires ValidDate(d) && InYearRange(d)
    ensures ParseDate(FormatDate(d)) == Some(d)
  {
    ParseDateOfFields(d.year, d.month, d.day);
  }

  /** The day is clamped, not rejected: 2023-02-30 reads as 2023-02-28. */
  lemma ParseDateClampsDay()
    ensures ParseDate("2023-02-30") == Some(Date(2023, 2, 28))
  {
    ParseDateOfFields(2023, 2, 30);
    assert FormatYear(2023) + "-" + Pad2(2) + "-" + Pad2(30) == "2023-02-30";
  }

  /** In a leap year February 31 becomes February 29. */
  lemma ParseDateClampsLeapDay()
    ensures ParseDate("2024-02-31") == Some(Date(2024, 2, 29))
  {
    ParseDateOfFields(2024, 2, 31);
    assert FormatYear(2024) + "-" + Pad2(2) + "-" + Pad2(31) == "2024-02-31";
  }

  /** A thirteenth month is refused. */
  lemma ParseDateRejectsMonth()
    ensures ParseDate("2023-13-01") == None
  {
    ParseDateOfFields(2023, 13, 1);
    assert FormatYear(2023) + "-" + Pad2(13) + "-" + Pad2(1) == "2023-13-01";
  }

  /** A 32nd day is refused. */
  lemma ParseDateRejectsDay()
    ensures ParseDate("2023-02-32") == None
  {
    ParseDateOfFields(2023, 2, 32);
    assert FormatYear(2023) + "-" + Pad2(2) + "-" + Pad2(32) == "2023-02-32";
  }

  // ------------------------------------------------------------ times

  /** "HH:mm:ss": the nanoseconds are not printed. */
  function FormatTime(t: Time): (s: string)
    requires ValidTime(t)
    ensures |s| == 8 && s[2] == ':' && s[5] == ':' && '|' !in s
  {
    Pad2(t.hour) + ":" + Pad2(t.minute) + ":" + Pad2(t.second)
  }

  /** Strict "HH:mm:ss" parsing with the SMART resolver: the minute and second
      must be at most 59 and the hour at most 23, except that 24:00:00 reads as
      midnight with one day carried over (the flag). */
  function ResolveTime(s: string): (r: Option<(Time, bool)>)
    ensures r.Some? ==> ValidTime(r.value.0) && r.value.0.nano == 0
  {
    if |s| == 8 && s[2] == ':' && s[5] == ':' && AllDigits(s[..2]) && AllDigits(s[3..5]) && AllDigits(s[6..]) then
      var h, m, sec := TextToNat(s[..2]), TextToNat(s[3..5]), TextToNat(s[6..]);
      if m > 59 then None
      else if h == 24 && m == 0 && sec == 0 then Some((Time(0, 0, 0, 0), true))
      else if h <= 23 && sec <= 59 then Some((Time(h, m, sec, 0), false))
      else None
    else None
  }

  /** LocalTime.parse(s, "HH:mm:ss"): a carried day is dropped. */
  function ParseTime(s: string): (r: Option<Time>)
    ensures r.Some? ==> ValidTime(r.value) && r.value.nano == 0
  {
    match ResolveTime(s)
    case None => None
    case Some((t, _)) => Some(t)
  }

  lemma ParseFormatTime(t: Time)
    requires ValidTime(t)
    ensures ResolveTime(FormatTime(t)) == Some((t.(nano := 0), false))
    ensures ParseTime(FormatTime(t)) == Some(t.(nano := 0))
  {
    var s := FormatTime(t);
    assert s[..2] == Pad2(t.hour) && s[3..5] == Pad2(t.minute) && s[6..] == Pad2(t.second);
    Pad2Value(t.hour);
    Pad2Value(t.minute);
    Pad2Value(t.second);
  }

  /** Conversely, a time text that parses is the canonical text of its value,
      with the one exception of 24:00:00. */
  lemma FormatParseTime(s: string)
    requires ParseTime(s).Some?
    ensures FormatTime(ParseTime(s).value) == s || s == "24:00:00"
  {
    var t := ParseTime(s).value;
    Pad2OfText(s[..2]);
    Pad2OfText(s[3..5]);
    Pad2OfText(s[6..]);
    var h, m, sec := TextToNat(s[..2]), TextToNat(s[3..5]), TextToNat(s[6..]);
    assert s == s[..2] + [':'] + s[3..5] + [':'] + s[6..];
    if h == 24 && m == 0 && sec == 0 {
      assert Pad2(24) == "24" && Pad2(0) == "00";
    } else {
      assert t == Time(h, m, sec, 0);
    }
  }

  // ------------------------------------------------------------ date and time

  /** LocalDateTime.parse(s, "yyyy-MM-dd HH:mm:ss"): a carried day moves the
      date forward, which fails past the last supported date. */
  function ParseDateTime(s: string): (r: Option<DateTime>)
    ensures r.Some? ==> ValidDateTime(r.value) && InYearRange(r.value.date) && r.value.time.nano == 0
  {
    if |s| >= 9 && s[|s| - 9] == ' ' then JoinDateTime(ParseDate(s[..|s| - 9]), ResolveTime(s[|s| - 8..]))
    else None
  }

  /** A parsed date and time; a carried day moves the date forward. */
  function JoinDateTime(date: Option<Date>, time: Option<(Time, bool)>): (r: Option<DateTime>)
    requires date.Some? ==> ValidDate(date.value) && InYearRange(date.value)
    requires time.Some? ==> ValidTime(time.value.0) && time.value.0.nano == 0
    ensures r.Some? ==> ValidDateTime(r.value) && InYearRange(r.value.date) && r.value.time.nano == 0
  {
    match (date, time)
    case (Some(d), Some((t, carry))) =>
      if !carry then Some(DateTime(d, t))
      else if d.year == MaxYear && d.month == 12 && d.day == 31 then None
      else Some(DateTime(NextDay(d), t))
    case _ => None
  }

  /** The text of a date and time splits at the space before the time. */
  lemma ParseDateTimeOfParts(ds: string, ts: string)
    requires |ts| == 8
    ensures ParseDateTime(ds + " " + ts) == JoinDateTime(ParseDate(ds), ResolveTime(ts))
  {
    var s := ds + " " + ts;
    assert s[..|s| - 9] == ds;
    assert s[|s| - 8..] == ts;
  }

  lemma ParseFormatDateTime(dt: DateTime)
    requires ValidDateTime(dt) && InYearRange(dt.date)
    ensures ParseDateTime(FormatDate(dt.date) + " " + FormatTime(dt.time)) == Some(DateTime(dt.date, dt.time.(nano := 0)))
  {
    ParseDateTimeOfParts(FormatDate(dt.date), FormatTime(dt.time));
    ParseFormatDate(dt.date);
    ParseFormatTime(dt.time);
  }

  /** 24:00:00 resolves to midnight with one day carried over. */
  lemma ResolveEndOfDay()
    ensures ResolveTime("24:00:00") == Some((Time(0, 0, 0, 0), true))
  {
    var t := "24:00:00";
    assert t[..2] == "24" && t[3..5] == "00" && t[6..] == "00";
    assert "24"[..1] == "2" && "00"[..1] == "0" && "2"[..0] == "" && "0"[..0] == "";
    assert TextToNat("24") == 24 && TextToNat("00") == 0;
  }

  /** End-of-day text 24:00:00 rolls the date over to the next day (across a
      month or year end too), except past the last supported date. */
  lemma ParseDateTimeEndOfDay(d: Date)
    requires ValidDate(d) && InYearRange(d)
    ensures ParseDateTime(FormatDate(d) + " 24:00:00")
         == if d == Date(MaxYear, 12, 31) then None else Some(DateTime(NextDay(d), Time(0, 0, 0, 0)))
  {
    assert FormatDate(d) + " 24:00:00" == FormatDate(d) + " " + "24:00:00";
    ParseDateTimeOfParts(FormatDate(d), "24:00:00");
    ResolveEndOfDay();
    ParseFormatDate(d);
  }

  // ------------------------------------------------------------ amounts

  /** An exact decimal number: (negative ? -digits : digits) / 10^scale. */
  datatype Decimal = Decimal(negative: bool, digits: nat, scale: nat)

  function SignedDigits(x: Decimal): int
  {
    if x.negative then -(x.digits as int) else x.digits
  }

  /** Index of the first '.' in s, or |s| when there is none. */
  function DotIndex(s: string): (i: nat)
    ensures i <= |s| && '.' !in s[..i] && (i < |s| ==> s[i] == '.')
  {
    if s == [] then 0
    else if s[0] == '.' then 0
    else
      var j := DotIndex(s[1..]);
      assert s[..j + 1] == [s[0]] + s[1..][..j];
      j + 1
  }

  /** Unsigned decimal text: digits with at most one '.', and at least one
      digit in all; the result is the digits and the count after the point. */
  function ParseUnsigned(body: string): (r: Option<(nat, nat)>)
  {
    var i := DotIndex(body);
    var whole := body[..i];
    var frac := if i < |body| then body[i + 1..] else [];
    if AllDigits(whole) && AllDigits(frac) && |whole| + |frac| >= 1 then
      TextToNatAppend(whole, frac);
      Some((TextToNat(whole + frac), |frac|))
    else None
  }

  /** An optional sign followed by the unsigned part. */
  function ParseSigned(t: string): (r: Option<Decimal>)
  {
    if t != [] && t[0] == '-' then
      match ParseUnsigned(t[1..])
      case None => None
      case Some((n, k)) => Some(Decimal(true, n, k))
    else
      match ParseUnsigned(if t != [] && t[0] == '+' then t[1..] else t)
      case None => None
      case Some((n, k)) => Some(Decimal(false, n, k))
  }

  /** Double.parseDouble on plain decimal text: String.trim, then a signed
      decimal. */
  function ParseNumber(s: string): (r: Option<Decimal>)
  {
    ParseSigned(Trim(s))
  }

  /** Math.round(x * 100) / 100 held in cents: floor(100 x + 1/2). */
  function RoundToCents(x: Decimal): int
  {
    (200 * SignedDigits(x) + Pow10(x.scale)) / (2 * Pow10(x.scale))
  }

  /** Lies within half a cent of x, with a half rounded up: 100 x - 1/2 <= c < 100 x + 1/2. */
  predicate NearestCents(x: Decimal, c: int)
  {
    Pow10(x.scale) * (2 * c - 1) <= 200 * SignedDigits(x) < Pow10(x.scale) * (2 * c + 1)
  }

  /** The rounded amount is the one whole number of cents nearest to x. */
  lemma RoundToCentsIsNearest(x: Decimal, c: int)
    ensures NearestCents(x, c) <==> c == RoundToCents(x)
  {
    var den, v := Pow10(x.scale), 200 * SignedDigits(x);
    var k := RoundToCents(x);
    RoundingBounds(v, den, k);
    if NearestCents(x, c) {
      BelowTimes(den, 2 * c - 1, 2 * k + 1);
      BelowTimes(den, 2 * k - 1, 2 * c + 1);
    }
  }

  lemma RoundingBounds(v: int, den: int, c: int)
    requires den >= 1 && c == (v + den) / (2 * den)
    ensures den * (2 * c - 1) <= v < den * (2 * c + 1)
  {
    var q := 2 * den;
    assert q * c <= v + den < q * c + q;
    assert den * (2 * c - 1) == q * c - den;
    assert den * (2 * c + 1) == q * c + den;
  }

  lemma BelowTimes(den: int, a: int, b: int)
    requires den >= 1 && den * a < den * b
    ensures a < b
  {
    assert den * b - den * a == den * (b - a);
  }

  /** The parseDouble helper: the parsed number rounded to cents, None when
      the text is not a number. */
  function ParseAmount(s: string): (r: Option<int>)
  {
    match ParseNumber(s)
    case None => None
    case Some(x) => Some(RoundToCents(x))
  }

  /** "%.2f" of an amount in cents: a '-' for a negative amount, the whole
      units, a '.', and exactly two digits of cents. */
  function FormatAmount(c: int): (s: string)
    ensures |s| >= 4 && s[|s| - 3] == '.' && IsDigit(s[|s| - 2]) && IsDigit(s[|s| - 1]) && '|' !in s
    ensures (s[0] == '-') == (c < 0)
    ensures AllDigits(if c < 0 then s[1..|s| - 3] else s[..|s| - 3]) && |s| - 3 > (if c < 0 then 1 else 0)
  {
    var a := if c < 0 then -c else c;
    (if c < 0 then "-" else "") + NatToText(a / 100) + "." + Pad2(a % 100)
  }

  lemma {:induction false} DotIndexOfJoin(a: string, b: string)
    requires AllDigits(a)
    ensures DotIndex(a + "." + b) == |a|
    decreases |a|
  {
    var s := a + "." + b;
    if a != [] {
      assert s[1..] == a[1..] + "." + b;
      DotIndexOfJoin(a[1..], b);
    }
  }

  /** Digits, a point and digits read as all the digits together, scaled by
      the number of digits after the point (TextToNatAppend gives the value of
      the joined digits). */
  lemma ParseUnsignedOfText(whole: string, frac: string)
    requires AllDigits(whole) && |whole| >= 1 && AllDigits(frac) && |frac| >= 1
    ensures AllDigits(whole + frac)
    ensures ParseUnsigned(whole + "." + frac) == Some((TextToNat(whole + frac), |frac|))
  {
    var u := whole + "." + frac;
    DotIndexOfJoin(whole, frac);
    assert u[..|whole|] == whole;
    assert u[|whole| + 1..] == frac;
    AllDigitsAppend(whole, frac);
  }

  /** Text without surrounding blanks: a leading '-' makes the number
      negative, and the rest is read unsigned. */
  lemma ParseNumberOfSigned(negative: bool, u: string)
    requires u != [] && u[0] != '-' && u[0] != '+' && !IsBlank(u[0]) && !IsBlank(u[|u| - 1])
    requires ParseUnsigned(u).Some?
    ensures ParseNumber((if negative then "-" else "") + u)
         == Some(Decimal(negative, ParseUnsigned(u).value.0, ParseUnsigned(u).value.1))
  {
    var s := (if negative then "-" else "") + u;
    assert s[|s| - 1] == u[|u| - 1];
    assert Trim(s) == s;
    if negative {
      assert s[1..] == u;
    } else {
      assert s == u;
    }
  }

  /** The text of an amount reads as its cents over a hundred. */
  lemma ParseNumberOfAmount(c: int)
    ensures ParseNumber(FormatAmount(c)) == Some(Decimal(c < 0, if c < 0 then -c else c, 2))
  {
    var a := if c < 0 then -c else c;
    var q, r := a / 100, a % 100;
    var whole, frac := NatToText(q), Pad2(r);
    var u := whole + "." + frac;
    assert FormatAmount(c) == (if c < 0 then "-" else "") + u;
    ParseUnsignedOfText(whole, frac);
    TextToNatAppend2(whole, frac);
    TextToNatOfNatToText(q);
    Pad2Value(r);
    assert TextToNat(whole + frac) == a;
    assert ParseUnsigned(u) == Some((a, 2));
    assert u[0] == whole[0] && IsDigit(u[0]) && u[|u| - 1] == frac[1] && IsDigit(frac[1]);
    ParseNumberOfSigned(c < 0, u);
  }

  /** A number with two decimals is already a whole number of cents. */
  lemma RoundWholeCents(c: int)
    ensures RoundToCents(Decimal(c < 0, if c < 0 then -c else c, 2)) == c
  {
    var x := Decimal(c < 0, if c < 0 then -c else c, 2);
    assert SignedDigits(x) == c;
    assert Pow10(2) == 100;
    assert NearestCents(x, c);
    RoundToCentsIsNearest(x, c);
  }

  /** Every amount prints to text that parses back to the same number of cents. */
  lemma ParseFormatAmount(c: int)
    ensures ParseAmount(FormatAmount(c)) == Some(c)
  {
    ParseNumberOfAmount(c);
    RoundWholeCents(c);
  }

  /** Text that is not a number gives None. */
  lemma ParseAmountRejects()
    ensures ParseAmount("abc") == None && ParseAmount(".") == None && ParseAmount("") == None
  {
    assert Trim("abc") == "abc";
    assert DotIndex("abc") == 3;
    assert !IsDigit("abc"[..3][0]);
    assert ParseUnsigned("abc") == None;
    assert Trim(".") == ".";
    assert DotIndex(".") == 0;
    assert ParseUnsigned(".") == None;
  }


}
