/**
 * The degrees-minutes-seconds codec of transform.py: `dec2dms`, `dms2dec`, `splitdms` and
 * `dms2string`. Every value they take or return is a Python Decimal, modelled as `Dec`.
 */
module Transform {
  import opened Wrappers
  import opened Decimals
  import opened DmsPattern

  /** A (degree, minutes, seconds) triple of Decimals. */
  datatype Dms = Dms(degree: Dec, minutes: Dec, seconds: Dec)

  /** `round(seconds, 4)`: seconds are quantized to four decimal places. */
  const SecondsPlaces: nat := 4

  function RealAbs(x: real): real
  {
    if x < 0.0 then -x else x
  }

  /** The quotient of `divmod(x, 1)` on a Decimal: the integer part, truncated toward zero. */
  function IntegerPart(x: real): (n: int)
    ensures x >= 0.0 ==> n >= 0 && 0.0 <= x - n as real < 1.0
    ensures x < 0.0 ==> n <= 0 && -1.0 < x - n as real <= 0.0
  {
    if x >= 0.0 then x.Floor else -((-x).Floor)
  }

  /** `abs(minutes * 60)`: the remainder of `divmod(value, 1)`, in minutes, without its sign. */
  function ScaledMinutes(value: real): real
  {
    RealAbs((value - IntegerPart(value) as real) * 60.0)
  }

  /** `seconds * 60` before rounding: the fractional part of the scaled minutes, in seconds. */
  function RawSeconds(value: real): (s: real)
    ensures 0.0 <= s < 60.0
  {
    (ScaledMinutes(value) - ScaledMinutes(value).Floor as real) * 60.0
  }

  /** `dec2dms(value)`: the degree is the integer part with the sign of `value`; the absolute
      remainder, times 60, gives whole minutes; what is left, times 60 and rounded half-to-even
      to four places, gives the seconds. */
  function DecimalToDms(value: real): (r: Dms)
    ensures r.degree.places == 0 && r.minutes.places == 0 && r.seconds.places == SecondsPlaces
    ensures value >= 0.0 ==> 0 <= r.degree.coeff && 0.0 <= value - r.degree.coeff as real < 1.0
    ensures value < 0.0 ==> r.degree.coeff <= 0 && -1.0 < value - r.degree.coeff as real <= 0.0
    ensures 0 <= r.minutes.coeff <= 59
    ensures 0 <= r.seconds.coeff <= 60 * Pow10(SecondsPlaces)
    ensures -0.00005 <= Value(r.seconds) - RawSeconds(value) <= 0.00005
  {
    assert Pow10(SecondsPlaces) == 10000;
    Dms(Dec(IntegerPart(value), 0),
        Dec(ScaledMinutes(value).Floor, 0),
        Dec(RoundHalfEven(RawSeconds(value) * 10000.0), SecondsPlaces))
  }

  /** `dms2dec(degree, minutes, seconds)`: minutes and seconds are added to the degree as they
      are, whatever the degree's sign. */
  function DmsToDecimal(t: Dms): real
  {
    Value(t.degree) + Value(t.minutes) / 60.0 + Value(t.seconds) / 3600.0
  }

  // ---------------------------------------------------------------------------------------------
  // splitdms and dms2string

  /** `str.replace(',', '.')`. */
  function ReplaceComma(s: string): (r: string)
  {
    seq(|s|, i requires 0 <= i < |s| => if s[i] == ',' then '.' else s[i])
  }

  function Group1(m: DmsMatch): string
  {
    m.head.sign + m.head.degree
  }

  function Group2(m: DmsMatch): string
  {
    m.head.minutes
  }

  function Group3(m: DmsMatch): string
  {
    m.tail.seconds + m.tail.fraction
  }

  /** The digits after the separator of group 4 (none when it did not participate). */
  function FractionDigits(m: DmsMatch): string
  {
    if m.tail.fraction == [] then [] else m.tail.fraction[1..]
  }

  /** The numbers groups 1-3 of a match denote, read off their digits: the signed degree and the
      minutes with exponent 0, the seconds with one place per fractional digit. */
  function GroupValues(m: DmsMatch): (t: Dms)
    requires WellFormed(m)
    ensures t.degree.places == 0 && -99 <= t.degree.coeff <= 99
    ensures t.minutes.places == 0 && 0 <= t.minutes.coeff <= 99
    ensures 0 <= t.seconds.coeff < 100 * Pow10(t.seconds.places)
  {
    var degree: int := DigitsValue(m.head.degree);
    DigitsValueBound(m.head.degree);
    DigitsValueBound(m.head.minutes);
    SecondsBound(m.tail.seconds, FractionDigits(m));
    Dms(Dec(if m.head.sign == "-" then -degree else degree, 0),
        Dec(DigitsValue(m.head.minutes), 0),
        Dec(DigitsValue(m.tail.seconds + FractionDigits(m)), |FractionDigits(m)|))
  }

  lemma {:induction false} SecondsBound(seconds: string, fraction: string)
    requires 1 <= |seconds| <= 2 && AllDigits(seconds) && AllDigits(fraction)
    ensures AllDigits(seconds + fraction)
    ensures DigitsValue(seconds + fraction) < 100 * Pow10(|fraction|)
  {
    DigitsValueAppend(seconds, fraction);
    DigitsValueBound(seconds + fraction);
    Pow10Add(|seconds|, |fraction|);
    assert Pow10(|seconds|) <= 100;
  }

  /** The text of group 3 after `replace(',', '.')`. */
  lemma {:induction false} ReplaceCommaGroup3(m: DmsMatch)
    requires WellFormed(m)
    ensures ReplaceComma(Group3(m))
            == if m.tail.fraction == [] then m.tail.seconds else m.tail.seconds + ("." + FractionDigits(m))
  {
    var g := Group3(m);
    var expected := if m.tail.fraction == [] then m.tail.seconds else m.tail.seconds + ("." + FractionDigits(m));
    assert |ReplaceComma(g)| == |expected|;
    forall i | 0 <= i < |g|
      ensures ReplaceComma(g)[i] == expected[i]
    {
      if i < |m.tail.seconds| {
        assert g[i] == m.tail.seconds[i];
      } else if i > |m.tail.seconds| {
        assert g[i] == m.tail.fraction[i - |m.tail.seconds|] == FractionDigits(m)[i - |m.tail.seconds| - 1];
      }
    }
  }

  /** `Decimal()` of each group gives the group's value. */
  lemma {:induction false} GroupsAreRead(m: DmsMatch)
    requires WellFormed(m)
    ensures PlainDecimalText(Group1(m)) && PlainDecimalText(Group2(m))
    ensures PlainDecimalText(ReplaceComma(Group3(m)))
    ensures Dms(DecimalOf(Group1(m)), DecimalOf(Group2(m)), DecimalOf(ReplaceComma(Group3(m))))
            == GroupValues(m)
  {
    IntegerGroupsAreRead(m);
    SecondsGroupIsRead(m);
  }

  lemma {:induction false} IntegerGroupsAreRead(m: DmsMatch)
    requires WellFormed(m)
    ensures PlainDecimalText(Group1(m)) && DecimalOf(Group1(m)) == GroupValues(m).degree
    ensures PlainDecimalText(Group2(m)) && DecimalOf(Group2(m)) == GroupValues(m).minutes
  {
    DecimalOfInteger(m.head.sign, m.head.degree);
    DecimalOfInteger([], m.head.minutes);
    assert [] + m.head.minutes == m.head.minutes;
  }

  lemma {:induction false} SecondsGroupIsRead(m: DmsMatch)
    requires WellFormed(m)
    ensures PlainDecimalText(ReplaceComma(Group3(m)))
    ensures DecimalOf(ReplaceComma(Group3(m))) == GroupValues(m).seconds
  {
    ReplaceCommaGroup3(m);
    if m.tail.fraction == [] {
      DecimalOfInteger([], m.tail.seconds);
      assert [] + m.tail.seconds == m.tail.seconds;
      assert m.tail.seconds + FractionDigits(m) == m.tail.seconds;
    } else {
      DecimalOfPointed(m.tail.seconds, FractionDigits(m));
    }
  }

  /** `splitdms(data)`: the Decimal values of groups 1, 2 and 3 (the latter with a comma read as
      a point) of `re.match`; None where Python raises because the match is None. */
  function SplitDms(data: string): (r: Option<Dms>)
    ensures r.Some? ==> r.value.degree.places == 0 && -99 <= r.value.degree.coeff <= 99
    ensures r.Some? ==> r.value.minutes.places == 0 && 0 <= r.value.minutes.coeff <= 99
    ensures r.Some? ==> 0 <= r.value.seconds.coeff < 100 * Pow10(r.value.seconds.places)
  {
    match MatchDms(data)
    case None => None
    case Some(m) =>
      GroupsAreRead(m);
      Some(Dms(DecimalOf(Group1(m)), DecimalOf(Group2(m)), DecimalOf(ReplaceComma(Group3(m)))))
  }

  /** `dms2string(degree, minutes, seconds)`: f"{degree}°{minutes}'{seconds}''". */
  function DmsToString(t: Dms): string
  {
    DecToString(t.degree) + "°" + DecToString(t.minutes) + "'" + DecToString(t.seconds) + "''"
  }

  // ---------------------------------------------------------------------------------------------
  // What splitdms accepts and returns

  /** `splitdms` reports the values of the match backtracking prefers. */
  lemma {:induction false} SplitDmsReadsGreedyMatch(m: DmsMatch, data: string)
    requires MatchesPrefix(m, data) && Greedy(m, data)
    ensures SplitDms(data) == Some(GroupValues(m))
  {
    GreedyMatchIsFound(m, data);
    GroupsAreRead(m);
  }

  /** Texts that differ only in their degree marks and separators split to the same values. */
  lemma {:induction false} SimilarTextsSplitEqually(a: string, b: string)
    requires Similar(a, b)
    ensures SplitDms(a) == SplitDms(b)
  {
    MatchDmsAlike(a, b);
    if MatchDms(a).Some? {
      var m := MatchDms(a).value;
      var n := MatchDms(b).value;
      assert FractionDigits(m) == FractionDigits(n);
      SplitDmsReadsGreedyMatch(m, a);
      SplitDmsReadsGreedyMatch(n, b);
    }
  }

  /** `,` and `.` are interchangeable wherever they occur in the text. */
  lemma SeparatorsInterchangeable(data: string, i: nat)
    requires i < |data|
    ensures SplitDms(data[i := ',']) == SplitDms(data[i := '.'])
  {
    SimilarTextsSplitEqually(data[i := ','], data[i := '.']);
  }

  /** `°` and `*` are interchangeable wherever they occur in the text. */
  lemma MarksInterchangeable(data: string, i: nat)
    requires i < |data|
    ensures SplitDms(data[i := '°']) == SplitDms(data[i := '*'])
  {
    SimilarTextsSplitEqually(data[i := '°'], data[i := '*']);
  }

  /** `splitdms` succeeds exactly when some prefix of the text matches the pattern: the match is
      anchored at the start only, and trailing text is ignored. */
  lemma {:induction false} SplitDmsSucceedsIffPrefixMatches(data: string)
    ensures SplitDms(data).Some? <==> exists m :: MatchesPrefix(m, data)
  {
    if SplitDms(data).Some? {
      var m := MatchDms(data).value;
      assert MatchesPrefix(m, data);
    }
    if m :| MatchesPrefix(m, data) {
      PrefixMatchIsFound(m, data);
    }
  }

  /** The triples `dms2string` writes in a form `splitdms` can read back: integer degree of at
      most two digits, integer minutes 0..99, non-negative seconds below 100 whose `str()` is
      plain notation (an adjusted exponent of -6 or more; below that `str()` switches to
      scientific notation such as `1E-7`). */
  predicate Readable(t: Dms)
  {
    t.degree.places == 0 && -99 <= t.degree.coeff <= 99
    && t.minutes.places == 0 && 0 <= t.minutes.coeff <= 99
    && 0 <= t.seconds.coeff < 100 * Pow10(t.seconds.places)
    && t.seconds.places < |NatToDigits(t.seconds.coeff)| + 6
  }

  /** The match `splitdms` finds in `dms2string(t)`. */
  function WrittenMatch(t: Dms): (m: DmsMatch)
    requires Readable(t)
    ensures WellFormed(m)
  {
    NatToDigitsLength(Abs(t.degree.coeff));
    NatToDigitsLength(t.minutes.coeff);
    ShiftBound(t.seconds.coeff, t.seconds.places, 100);
    NatToDigitsLength(Shift(t.seconds.coeff, t.seconds.places));
    var fraction := if t.seconds.places == 0 then [] else "." + PadDigits(t.seconds.coeff, t.seconds.places);
    assert fraction != [] ==> fraction[1..] == PadDigits(t.seconds.coeff, t.seconds.places);
    DmsMatch(Head(if t.degree.coeff < 0 then "-" else "", NatToDigits(Abs(t.degree.coeff)), '°',
                  NatToDigits(t.minutes.coeff)),
             Tail(NatToDigits(Shift(t.seconds.coeff, t.seconds.places)), fraction, true))
  }

  lemma {:induction false} WrittenMatchRenders(t: Dms)
    requires Readable(t)
    ensures Render(WrittenMatch(t)) == DmsToString(t)
  {
    var m := WrittenMatch(t);
    assert DecToString(t.degree) == m.head.sign + m.head.degree;
    assert DecToString(t.minutes) == m.head.minutes by {
      assert "" + NatToDigits(t.minutes.coeff) == NatToDigits(t.minutes.coeff);
    }
    assert DecToString(t.seconds) == m.tail.seconds + m.tail.fraction by {
      var text := UnsignedText(t.seconds.coeff, t.seconds.places);
      assert DecToString(t.seconds) == "" + text;
      assert "" + text == text;
      if t.seconds.places == 0 {
        assert m.tail.seconds + [] == m.tail.seconds;
      } else {
        Assoc(m.tail.seconds, ".", PadDigits(t.seconds.coeff, t.seconds.places));
      }
    }
    Assoc(HeadText(m.head), m.tail.seconds + m.tail.fraction, "''");
  }

  lemma {:induction false} WrittenMatchValues(t: Dms)
    requires Readable(t)
    ensures GroupValues(WrittenMatch(t)) == t
  {
    var m := WrittenMatch(t);
    NatToDigitsValue(Abs(t.degree.coeff));
    NatToDigitsValue(t.minutes.coeff);
    var whole := NatToDigits(Shift(t.seconds.coeff, t.seconds.places));
    NatToDigitsValue(Shift(t.seconds.coeff, t.seconds.places));
    if t.seconds.places == 0 {
      assert whole + [] == whole;
    } else {
      assert FractionDigits(m) == PadDigits(t.seconds.coeff, t.seconds.places);
      DigitsValueAppend(whole, FractionDigits(m));
      ShiftPad(t.seconds.coeff, t.seconds.places);
    }
  }

  /** `splitdms(dms2string(d, m, s)) == (d, m, s)` for every readable triple, with the
      Decimals' exponents preserved. */
  lemma {:induction false} SplitDmsOfDmsToString(t: Dms)
    requires Readable(t)
    ensures SplitDms(DmsToString(t)) == Some(t)
  {
    var m := WrittenMatch(t);
    var text := DmsToString(t);
    WrittenMatchRenders(t);
    assert text[|Render(m)|..] == [];
    assert Closing(true) + [] == "''";
    SplitDmsReadsGreedyMatch(m, text);
    WrittenMatchValues(t);
  }

  /** A degree of three or more digits is written in full, and `splitdms` then finds no match. */
  lemma {:induction false} WideDegreeIsRejected(t: Dms)
    requires t.degree.places == 0 && (t.degree.coeff >= 100 || t.degree.coeff <= -100)
    ensures SplitDms(DmsToString(t)) == None
  {
    WideDegreeLeads(t);
    WideDegreeNotMatched(DmsToString(t));
  }

  /** After the optional sign, the written text starts with at least three digits. */
  lemma {:induction false} WideDegreeLeads(t: Dms)
    requires t.degree.places == 0 && (t.degree.coeff >= 100 || t.degree.coeff <= -100)
    ensures var s := ScanSign(DmsToString(t)).rest;
      |s| >= 3 && IsDigit(s[0]) && IsDigit(s[1]) && IsDigit(s[2])
  {
    var digits := NatToDigits(Abs(t.degree.coeff));
    var sign := if t.degree.coeff < 0 then "-" else "";
    var text := DmsToString(t);
    var k := |sign|;
    assert |digits| >= 3 by {
      NatToDigitsLength(Abs(t.degree.coeff));
    }
    DegreeTextLeads(t);
    assert sign + digits <= text;
    assert text[k] == digits[0] && text[k + 1] == digits[1] && text[k + 2] == digits[2];
    assert ScanSign(text).rest == text[k..] by {
      if k == 0 {
        assert !IsSign(text[0]);
      }
    }
  }

  /** `dms2string` starts with the degree: its sign, if negative, then its digits. */
  lemma {:induction false} DegreeTextLeads(t: Dms)
    requires t.degree.places == 0
    ensures (if t.degree.coeff < 0 then "-" else "") + NatToDigits(Abs(t.degree.coeff)) <= DmsToString(t)
  {
    var rest := "°" + DecToString(t.minutes) + "'" + DecToString(t.seconds) + "''";
    assert DmsToString(t) == DecToString(t.degree) + rest;
    PrefixOfConcat(DecToString(t.degree), rest);
  }

  // The digit helpers and the text examples below take their literals through parameters:
  // stated directly on string literals, the digit values are costly for the solver to evaluate.

  lemma OneDigit(s: string)
    requires |s| == 1 && IsDigit(s[0])
    ensures AllDigits(s) && DigitsValue(s) == DigitValue(s[0])
  {
    assert s[..0] == [];
  }

  lemma TwoDigits(s: string)
    requires |s| == 2 && IsDigit(s[0]) && IsDigit(s[1])
    ensures AllDigits(s) && DigitsValue(s) == 10 * DigitValue(s[0]) + DigitValue(s[1])
  {
    OneDigit(s[..1]);
  }

  lemma FourDigits(high: string, low: string)
    requires high == "44" && low == "12"
    ensures AllDigits(high + low) && DigitsValue(high + low) == 4412
  {
    TwoDigits(high);
    TwoDigits(low);
    DigitsValueAppend(high, low);
    assert Pow10(2) == 100;
  }

  /** Trailing text is ignored: in "21°0'123.4''" the seconds stop after two digits. */
  lemma TrailingTextExample(data: string)
    requires data == "21°0'123.4''"
    ensures SplitDms(data) == Some(Dms(Dec(21, 0), Dec(0, 0), Dec(12, 0)))
  {
    var m := DmsMatch(Head("", "21", '°', "0"), Tail("12", "", false));
    assert MatchesPrefix(m, data) && Greedy(m, data) by {
      assert Render(m) == "21°0'12";
      assert data[..7] == Render(m);
      assert data[7..] == "3.4''";
    }
    assert GroupValues(m) == Dms(Dec(21, 0), Dec(0, 0), Dec(12, 0)) by {
      TwoDigits("21");
      OneDigit("0");
      TwoDigits("12");
      assert "12" + [] == "12";
    }
    SplitDmsReadsGreedyMatch(m, data);
  }

  /** A DMS coordinate as the command line accepts it. */
  lemma FullTextExample(data: string)
    requires data == "21°0'44.12''"
    ensures SplitDms(data) == Some(Dms(Dec(21, 0), Dec(0, 0), Dec(4412, 2)))
  {
    var m := DmsMatch(Head("", "21", '°', "0"), Tail("44", ".12", true));
    assert MatchesPrefix(m, data) && Greedy(m, data) by {
      assert Render(m) == data;
      assert data[12..] == "";
    }
    assert GroupValues(m) == Dms(Dec(21, 0), Dec(0, 0), Dec(4412, 2)) by {
      assert FractionDigits(m) == "12";
      TwoDigits("21");
      OneDigit("0");
      FourDigits(m.tail.seconds, FractionDigits(m));
    }
    SplitDmsReadsGreedyMatch(m, data);
  }

  /** A three-digit degree is rejected. */
  lemma WideDegreeExample()
    ensures SplitDms("121°0'1''") == None
  {
    var t := Dms(Dec(121, 0), Dec(0, 0), Dec(1, 0));
    assert DecToString(Dec(121, 0)) == "121";
    assert DmsToString(t) == "121°0'1''";
    WideDegreeIsRejected(t);
  }

  /** What `dec2dms` produces for a value between -100 and 100 is written and read back as is. */
  lemma {:induction false} DecimalToDmsTextRoundTrip(value: real)
    requires -100.0 < value < 100.0
    ensures SplitDms(DmsToString(DecimalToDms(value))) == Some(DecimalToDms(value))
  {
    assert Pow10(SecondsPlaces) == 10000;
    SplitDmsOfDmsToString(DecimalToDms(value));
  }

  // ---------------------------------------------------------------------------------------------
  // dms2dec(*dec2dms(value))

  /** Whole minutes plus raw seconds give back the scaled minutes exactly. */
  lemma {:induction false} ExactSplit(value: real)
    ensures IntegerPart(value) as real + RealAbs(value - IntegerPart(value) as real)
            == (ScaledMinutes(value).Floor as real) / 60.0 + RawSeconds(value) / 3600.0
               + IntegerPart(value) as real
  {
    var fraction := value - IntegerPart(value) as real;
    assert ScaledMinutes(value) == RealAbs(fraction) * 60.0;
  }

  /** Only the rounding of the seconds separates the decoded value from the unrounded split. */
  lemma {:induction false} DecodedDecimalToDms(value: real)
    ensures var r := DecimalToDms(value);
      -1.0 / 72000000.0
      <= DmsToDecimal(r) - (IntegerPart(value) as real + RealAbs(value - IntegerPart(value) as real))
      <= 1.0 / 72000000.0
  {
    var r := DecimalToDms(value);
    assert Value(r.degree) == IntegerPart(value) as real;
    assert Value(r.minutes) == ScaledMinutes(value).Floor as real;
    ExactSplit(value);
  }

  /** For a non-negative value the round trip is exact up to half a unit in the fourth decimal
      place of the seconds, i.e. 0.00005 / 3600 degree. */
  lemma {:induction false} RoundTripNonNegative(value: real)
    requires value >= 0.0
    ensures -1.0 / 72000000.0 <= DmsToDecimal(DecimalToDms(value)) - value <= 1.0 / 72000000.0
  {
    DecodedDecimalToDms(value);
  }

  /** For a negative value the minutes and seconds come back with the wrong sign: the result is
      the integer part plus the absolute remainder, i.e. 2 * trunc(value) - value, rounded. */
  lemma {:induction false} RoundTripNegativeReflects(value: real)
    requires value < 0.0
    ensures var mirrored := 2.0 * IntegerPart(value) as real - value;
      -1.0 / 72000000.0 <= DmsToDecimal(DecimalToDms(value)) - mirrored <= 1.0 / 72000000.0
  {
    DecodedDecimalToDms(value);
  }

  /** Hence a negative value with a fractional part never survives the round trip: it always
      comes back larger, by at least the size of that fractional part. */
  lemma {:induction false} RoundTripNegativeOvershoots(value: real)
    requires value < 0.0
    ensures DmsToDecimal(DecimalToDms(value)) - value >= IntegerPart(value) as real - value
    ensures value != IntegerPart(value) as real ==> DmsToDecimal(DecimalToDms(value)) > value
  {
    var r := DecimalToDms(value);
    var fraction := IntegerPart(value) as real - value;
    assert Value(r.degree) == IntegerPart(value) as real;
    assert Value(r.minutes) == ScaledMinutes(value).Floor as real;
    assert Value(r.seconds) >= 0.0;
    ExactSplit(value);
    assert RawSeconds(value) <= ScaledMinutes(value) * 60.0 - ScaledMinutes(value).Floor as real * 60.0;
  }

  /** dec2dms(-21.5) is (-21, 30, 0.0000), which dms2dec reads as -20.5. */
  lemma NegativeExample()
    ensures DecimalToDms(-21.5) == Dms(Dec(-21, 0), Dec(30, 0), Dec(0, 4))
    ensures DmsToDecimal(DecimalToDms(-21.5)) == -20.5
  {
    assert IntegerPart(-21.5) == -21;
    assert ScaledMinutes(-21.5) == 30.0;
    assert RawSeconds(-21.5) == 0.0;
  }

  lemma ZeroExample()
    ensures DecimalToDms(0.0) == Dms(Dec(0, 0), Dec(0, 0), Dec(0, SecondsPlaces))
  {
    assert RawSeconds(0.0) == 0.0;
  }

  /** Seconds of 0.00045 are a tie at the fourth place and round to the even 0.0004. */
  lemma HalfEvenExample()
    ensures DecimalToDms(0.000000125).seconds == Dec(4, SecondsPlaces)
  {
    assert IntegerPart(0.000000125) == 0;
    assert ScaledMinutes(0.000000125) == 0.0000075;
    assert RawSeconds(0.000000125) == 0.00045;
    assert (4.5).Floor == 4;
  }

  /** The seconds are 60 only when rounding carries raw seconds of 59.99995 or more up to 60. */
  lemma {:induction false} SixtySecondsOnlyByRounding(value: real)
    requires DecimalToDms(value).seconds.coeff == 60 * Pow10(SecondsPlaces)
    ensures 59.99995 <= RawSeconds(value) < 60.0
  {
    assert Pow10(SecondsPlaces) == 10000;
    assert Value(DecimalToDms(value).seconds) == 60.0;
  }

  /** Seconds reach 60 through rounding alone: 0.016666666 degree has 59.9999976 raw seconds. */
  lemma SixtySecondsExample()
    ensures DecimalToDms(0.016666666) == Dms(Dec(0, 0), Dec(0, 0), Dec(600000, SecondsPlaces))
  {
    assert IntegerPart(0.016666666) == 0;
    assert ScaledMinutes(0.016666666) == 0.99999996;
    assert RawSeconds(0.016666666) == 59.9999976;
    assert (599999.976).Floor == 599999;
  }
}
