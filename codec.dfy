/**
 * The two NMEA field codecs: time of day (`HHMMSS[.ffff]`, nmea_time) and
 * angle (`[D]DDMM.mmm`, nmea_angle).
 */
module Codec {
  import opened CText
  import opened Values

  // ---------------------------------------------------------------- time

  /** What nmea_time accepts, stated on the clock fields rather than on characters. */
  predicate TimeAccepted(t: CString)
  {
    && |t| >= 6 && AllDigits(t[..6])
    && Decimal(t[0..2]) <= 23 && Decimal(t[2..4]) <= 59 && Decimal(t[4..6]) <= 59
    && (|t| == 6 || t[6] == '.')
    // every fractional digit the code inspects (at most four) is a digit
    && forall k | 7 <= k < |t| && k <= 10 :: IsDigit(t[k])
  }

  /** The k-th character as a digit, 0 when it is past the end. */
  function FracDigit(t: CString, k: nat): nat
    requires k < |t| ==> IsDigit(t[k])
  {
    if k < |t| then DigitValue(t[k]) else 0
  }

  /**
   * Milliseconds since midnight of an accepted time: three fractional digits,
   * plus one when a fourth fractional digit is greater than '5'.
   */
  function TimeMillis(t: CString): nat
    requires TimeAccepted(t)
  {
    ((Decimal(t[0..2]) * 60 + Decimal(t[2..4])) * 60 + Decimal(t[4..6])) * 1000
      + 100 * FracDigit(t, 7) + 10 * FracDigit(t, 8) + FracDigit(t, 9)
      + (if |t| > 10 && t[10] > '5' then 1 else 0)
  }

  /** The first test of nmea_time, on the six clock characters and the one after them. */
  predicate ClockRejected(text: CString)
  {
    At(text, 0) < '0' || At(text, 0) > '2'
    || At(text, 1) < '0' || At(text, 1) > (if At(text, 0) == '2' then '3' else '9')
    || At(text, 2) < '0' || At(text, 2) > '5'
    || At(text, 3) < '0' || At(text, 3) > '9'
    || At(text, 4) < '0' || At(text, 4) > '5'
    || At(text, 5) < '0' || At(text, 5) > '9'
    || (At(text, 6) != '\0' && At(text, 6) != '.')
  }

  /** The character ranges of that test are the clock ranges 23:59:59. */
  lemma ClockCheck(t: CString)
    requires NulFree(t)
    ensures !ClockRejected(t) <==>
      && |t| >= 6 && AllDigits(t[..6])
      && Decimal(t[0..2]) <= 23 && Decimal(t[2..4]) <= 59 && Decimal(t[4..6]) <= 59
      && (|t| == 6 || t[6] == '.')
    ensures !ClockRejected(t) ==>
      && Decimal(t[0..2]) == DigitValue(t[0]) * 10 + DigitValue(t[1])
      && Decimal(t[2..4]) == DigitValue(t[2]) * 10 + DigitValue(t[3])
      && Decimal(t[4..6]) == DigitValue(t[4]) * 10 + DigitValue(t[5])
  {
    if |t| >= 6 && AllDigits(t[..6]) {
      assert t[0..2] == [t[0], t[1]] && t[2..4] == [t[2], t[3]] && t[4..6] == [t[4], t[5]];
      assert forall i | 0 <= i < 6 :: IsDigit(t[..6][i]);
      Decimal2(t[0], t[1]);
      Decimal2(t[2], t[3]);
      Decimal2(t[4], t[5]);
    }
    if !ClockRejected(t) {
      assert |t| >= 6;
      assert forall i | 0 <= i < 6 :: t[..6][i] == t[i];
    }
  }

  /** The six clock digits as nmea_time accumulates them, in milliseconds. */
  function ClockMillis(text: CString): (x: nat)
    requires !ClockRejected(text)
  {
    var x := DigitValue(At(text, 0));
    var x := x * 10 + DigitValue(At(text, 1));
    var x := x * 6 + DigitValue(At(text, 2));
    var x := x * 10 + DigitValue(At(text, 3));
    var x := x * 6 + DigitValue(At(text, 4));
    var x := x * 10 + DigitValue(At(text, 5));
    x * 1000
  }

  /** The clock digits accumulate to hours, minutes and seconds in milliseconds. */
  lemma ClockValue(t: CString)
    requires NulFree(t) && !ClockRejected(t)
    ensures TimeAccepted(t) || (|t| > 6 && t[6] == '.')
    ensures ClockMillis(t) == ((Decimal(t[0..2]) * 60 + Decimal(t[2..4])) * 60 + Decimal(t[4..6])) * 1000
  {
    ClockCheck(t);
  }

  /**
   * The fractional digits after the point at `text[6]`: up to four, each
   * checked to be a digit; the fourth only rounds.
   */
  function Fraction(text: CString, x: nat): Option<nat>
  {
    if At(text, 7) == '\0' then Some(x)
    else if !IsDigit(At(text, 7)) then None
    else
      var x := x + DigitValue(At(text, 7)) * 100;
      if At(text, 8) == '\0' then Some(x)
      else if !IsDigit(At(text, 8)) then None
      else
        var x := x + DigitValue(At(text, 8)) * 10;
        if At(text, 9) == '\0' then Some(x)
        else if !IsDigit(At(text, 9)) then None
        else
          var x := x + DigitValue(At(text, 9));
          if At(text, 10) == '\0' then Some(x)
          else if !IsDigit(At(text, 10)) then None
          else Some(x + (if At(text, 10) > '5' then 1 else 0))
  }

  /** The fraction is accepted when every inspected character is a digit, and it adds their value. */
  lemma FractionValue(t: CString, x: nat)
    requires NulFree(t)
    ensures Fraction(t, x).Some? <==> forall k | 7 <= k < |t| && k <= 10 :: IsDigit(t[k])
    ensures Fraction(t, x).Some? ==>
      Fraction(t, x).value == x + 100 * FracDigit(t, 7) + 10 * FracDigit(t, 8) + FracDigit(t, 9) + (if |t| > 10 && t[10] > '5' then 1 else 0)
  {
  }

  /** nmea_time: the digit-by-digit checks and accumulation of the C code. */
  function Time(text: CString): (r: Option<nat>)
    requires NulFree(text)
    ensures r.Some? <==> TimeAccepted(text)
    ensures r.Some? ==> r.value == TimeMillis(text) && r.value <= 86400000
  {
    ClockCheck(text);
    if ClockRejected(text) then None
    else
      var x := ClockMillis(text);
      ClockValue(text);
      FractionValue(text, x);
      if At(text, 6) != '.' then Some(x) else Fraction(text, x)
  }

  /** Two decimal digits of `n`. */
  function TwoDigits(n: nat): (s: seq<char>)
    requires n < 100
    ensures |s| == 2 && AllDigits(s) && Decimal(s) == n
  {
    Decimal2(DigitChar(n / 10), DigitChar(n % 10));
    [DigitChar(n / 10), DigitChar(n % 10)]
  }

  /** `HHMMSS.fff` for a time of day in milliseconds. */
  function FormatTime(ms: nat): (s: CString)
    requires ms < 86400000
    ensures |s| == 10
  {
    var f := ms % 1000;
    TwoDigits(ms / 3600000) + TwoDigits(ms / 60000 % 60) + TwoDigits(ms / 1000 % 60)
      + ['.', DigitChar(f / 100), DigitChar(f / 10 % 10), DigitChar(f % 10)]
  }

  /** Hours, minutes, seconds and the three millisecond digits recompose `ms`. */
  lemma ClockSplit(ms: nat)
    ensures ms / 1000 == ((ms / 3600000) * 60 + ms / 60000 % 60) * 60 + ms / 1000 % 60
    ensures ms == ms / 1000 * 1000 + ms % 1000
    ensures ms % 1000 == 100 * (ms % 1000 / 100) + 10 * (ms % 1000 / 10 % 10) + ms % 1000 % 10
  {
    var q := ms / 1000;
    assert ms / 60000 == q / 60;
    assert ms / 3600000 == q / 3600;
    assert q / 3600 == (q / 60) / 60;
  }

  /** nmea_time inverts FormatTime on the whole day. */
  lemma TimeOfFormat(ms: nat)
    requires ms < 86400000
    ensures Time(FormatTime(ms)) == Some(ms)
  {
    var t := FormatTime(ms);
    var h, m, s, f := ms / 3600000, ms / 60000 % 60, ms / 1000 % 60, ms % 1000;
    assert t[0..2] == TwoDigits(h) && t[2..4] == TwoDigits(m) && t[4..6] == TwoDigits(s);
    assert t[..6] == TwoDigits(h) + TwoDigits(m) + TwoDigits(s);
    assert t[6] == '.' && t[7] == DigitChar(f / 100) && t[8] == DigitChar(f / 10 % 10) && t[9] == DigitChar(f % 10);
    assert TimeAccepted(t);
    ClockSplit(ms);
    assert TimeMillis(t) == ms;
  }

  lemma TimeLastDigit()
    ensures Time("235959") == Some(86399000)
  {
    ClockCheck("235959");
    assert !ClockRejected("235959");
  }

  /** The fourth fractional digit rounds up when it is above '5' ... */
  lemma TimeRoundsUp()
    ensures Time("000000.0006") == Some(1)
  {
    var t := "000000.0006";
    assert !ClockRejected(t) && ClockMillis(t) == 0;
    assert Fraction(t, 0) == Some(1);
  }

  /** ... and not when it is '5'. */
  lemma TimeRoundsDown()
    ensures Time("000000.0005") == Some(0)
  {
    var t := "000000.0005";
    assert !ClockRejected(t) && ClockMillis(t) == 0;
    assert Fraction(t, 0) == Some(0);
  }

  lemma TimeOutOfRange()
    ensures Time("246000") == None
    ensures Time("236000") == None
    ensures Time("12351") == None
  {
    assert ClockRejected("246000");
    assert ClockRejected("236000");
    assert ClockRejected("12351");
  }

  // --------------------------------------------------------------- angle

  function Max0(n: int): nat
  {
    if n < 0 then 0 else n
  }

  /** Position of the decimal point, or the length (strchrnul). */
  function DotIndex(t: CString): nat
  {
    IndexOf(t, '.')
  }

  /**
   * What nmea_angle accepts: at most five characters before the point, the
   * ones before the two minute digits are digits, and a lone character
   * before the point is a digit.
   */
  predicate AngleAccepted(t: CString)
  {
    var d := DotIndex(t);
    d <= 5 && AllDigits(t[..Max0(d - 2)]) && (d == 1 ==> IsDigit(t[0]))
  }

  /**
   * nmea_angle: the fall-through switch on the position of the point. The
   * whole degrees are the digits before the two minute digits; the minutes
   * (with their fraction) go to atof and stay symbolic.
   */
  function Angle(text: CString): (r: Option<Real>)
    requires NulFree(text)
    ensures r.Some? <==> AngleAccepted(text)
    ensures r.Some? ==>
      var w := Max0(DotIndex(text) - 2);
      AllDigits(text[..w]) && r.value == Degrees(Decimal(text[..w]), Atof(text[w..]))
    ensures r.Some? ==> r.value.Degrees? && r.value.whole <= 999
  {
    var d := DotIndex(text);
    if d == 5 then
      if !IsDigit(text[0]) || !IsDigit(text[1]) || !IsDigit(text[2]) then None
      else
        assert text[..3] == [text[0], text[1], text[2]];
        Decimal3(text[0], text[1], text[2]);
        Some(Degrees(
          (DigitValue(text[0]) * 10 + DigitValue(text[1])) * 10 + DigitValue(text[2]),
          Atof(text[3..])))
    else if d == 4 then
      if !IsDigit(text[0]) || !IsDigit(text[1]) then None
      else
        assert text[..2] == [text[0], text[1]];
        Decimal2(text[0], text[1]);
        Some(Degrees(DigitValue(text[0]) * 10 + DigitValue(text[1]), Atof(text[2..])))
    else if d == 3 then
      if !IsDigit(text[0]) then None
      else
        assert text[..1] == [text[0]];
        Decimal1(text[0]);
        Some(Degrees(DigitValue(text[0]), Atof(text[1..])))
    else if d == 2 then
      Some(Degrees(0, Atof(text[0..])))
    else if d == 1 then
      if !IsDigit(text[0]) then None
      else Some(Degrees(0, Atof(text)))
    else if d == 0 then
      Some(Degrees(0, Atof(text)))
    else
      None
  }

  /**
   * An NMEA angle written as up to three degree digits followed by a
   * minutes field `MM.mmm` decodes to those degrees and those minutes.
   */
  lemma {:induction false} AngleOfFormat(deg: seq<char>, minutes: CString)
    requires |deg| <= 3 && AllDigits(deg)
    requires NulFree(minutes) && IndexOf(minutes, '.') == 2
    ensures Angle(deg + minutes) == Some(Degrees(Decimal(deg), Atof(minutes)))
  {
    var t := deg + minutes;
    IndexOfIs(deg, '.', |deg|);
    IndexOfConcat(deg, minutes, '.');
    assert DotIndex(t) == |deg| + 2;
    assert t[..|deg|] == deg && t[|deg|..] == minutes;
  }

  lemma AngleOfLatitude()
    ensures Angle("4807.038") == Some(Degrees(48, Atof("07.038")))
  {
    assert IndexOf("07.038", '.') == 2;
    AngleOfFormat("48", "07.038");
    assert "48" + "07.038" == "4807.038";
    Decimal2('4', '8');
    assert "48" == ['4', '8'];
  }

  lemma AngleOfLongitude()
    ensures Angle("01131.000") == Some(Degrees(11, Atof("31.000")))
  {
    var t := "01131.000";
    IndexOfIs(t, '.', 5);
    assert t[3..] == "31.000";
  }

  /** More than five characters before the point. */
  lemma AngleTooLong()
    ensures Angle("123456.7") == None
  {
    assert DotIndex("123456.7") == 6;
  }

  /** A non-digit among the degree digits, or a lone non-digit before the point. */
  lemma AngleNotDigit()
    ensures Angle("4x07.038") == None
    ensures Angle("x.5") == None
  {
    assert DotIndex("4x07.038") == 4;
    assert "4x07.038"[1] == 'x';
    assert DotIndex("x.5") == 1;
  }
}
