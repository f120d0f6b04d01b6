/**
 * The regular expression of `splitdms`,
 *     ([+-]?\d{1,2})[°*](\d{1,2})'(\d{1,2}([,.]\d+)?)('')?
 * applied with `re.match`, i.e. anchored at the start of the text only. `MatchDms` is a
 * character-level recogniser for it; `WellFormed`/`Render` describe the language of the pattern
 * independently, and `Greedy` states which of several prefix matches Python's backtracking
 * engine reports (each quantifier tries its longest alternative first).
 */
module DmsPattern {
  import opened Wrappers
  import opened Decimals

  /** `[°*]`: either the degree sign or an asterisk marks the end of the degrees. */
  predicate IsMark(c: char)
  {
    c == '°' || c == '*'
  }

  /** `[,.]`: comma or point before the fractional digits of the seconds. */
  predicate IsSeparator(c: char)
  {
    c == ',' || c == '.'
  }

  /** The text consumed by `([+-]?\d{1,2})[°*](\d{1,2})'`: group 1 is `sign + degree`, group 2
      is `minutes`. */
  datatype Head = Head(sign: string, degree: string, mark: char, minutes: string)

  /** The text consumed by `(\d{1,2}([,.]\d+)?)('')?`: group 3 is `seconds + fraction`, group 4
      is `fraction` (empty when it did not participate) and group 5 the closing `''` when `closed`. */
  datatype Tail = Tail(seconds: string, fraction: string, closed: bool)

  /** One match of the whole pattern. */
  datatype DmsMatch = DmsMatch(head: Head, tail: Tail)

  function Closing(closed: bool): string
  {
    if closed then "''" else ""
  }

  function HeadText(h: Head): string
  {
    h.sign + h.degree + [h.mark] + h.minutes + ['\'']
  }

  function TailText(t: Tail): string
  {
    t.seconds + t.fraction + Closing(t.closed)
  }

  /** The text a match consumes. */
  function Render(m: DmsMatch): string
  {
    HeadText(m.head) + TailText(m.tail)
  }

  /** `[+-]?`, `\d{1,2}`, `[°*]`, `\d{1,2}`. */
  predicate HeadWellFormed(h: Head)
  {
    |h.sign| <= 1 && (h.sign != [] ==> IsSign(h.sign[0]))
    && 1 <= |h.degree| <= 2 && AllDigits(h.degree)
    && IsMark(h.mark)
    && 1 <= |h.minutes| <= 2 && AllDigits(h.minutes)
  }

  /** `\d{1,2}`, `([,.]\d+)?`. */
  predicate TailWellFormed(t: Tail)
  {
    1 <= |t.seconds| <= 2 && AllDigits(t.seconds)
    && (t.fraction == [] || (|t.fraction| >= 2 && IsSeparator(t.fraction[0]) && AllDigits(t.fraction[1..])))
  }

  predicate WellFormed(m: DmsMatch)
  {
    HeadWellFormed(m.head) && TailWellFormed(m.tail)
  }

  /** `m` is a match of the pattern at the start of `data`; whatever follows it is ignored. */
  predicate MatchesPrefix(m: DmsMatch, data: string)
  {
    WellFormed(m) && Render(m) <= data
  }

  predicate StartsWithDigit(s: string)
  {
    s != [] && IsDigit(s[0])
  }

  predicate StartsWithFraction(s: string)
  {
    |s| >= 2 && IsSeparator(s[0]) && IsDigit(s[1])
  }

  predicate StartsWithClosing(s: string)
  {
    |s| >= 2 && s[0] == '\'' && s[1] == '\''
  }

  /** Of the tails that match, the one backtracking reports when `rest` follows it: the seconds
      take a second digit when there is one, the fraction is taken when a separator and a digit
      follow and then takes every digit, and the closing `''` is taken when present. (The degree
      and minute digits need no such condition: a mark or an apostrophe must follow them, so only
      one length can match.) */
  predicate TailGreedy(t: Tail, rest: string)
  {
    (|t.seconds| == 1 ==> !StartsWithDigit(t.fraction + Closing(t.closed) + rest))
    && (t.fraction == [] ==> !StartsWithFraction(Closing(t.closed) + rest))
    && (t.fraction != [] ==> !StartsWithDigit(Closing(t.closed) + rest))
    && (!t.closed ==> !StartsWithClosing(rest))
  }

  predicate Greedy(m: DmsMatch, data: string)
    requires Render(m) <= data
  {
    TailGreedy(m.tail, data[|Render(m)|..])
  }

  lemma PrefixOfConcat(a: string, b: string)
    ensures a <= a + b
  {
    assert (a + b)[..|a|] == a;
  }

  lemma PrefixSplit(a: string, data: string)
    requires a <= data
    ensures data == a + data[|a|..]
  {
    assert data[..|a|] == a;
  }

  lemma Assoc(a: string, b: string, c: string)
    ensures a + b + c == a + (b + c)
  {
  }

  lemma Regroup3(a: string, b: string, c: string, d: string)
    ensures a + (b + (c + d)) == a + b + c + d
  {
  }

  lemma Regroup5(a: string, b: string, c: string, d: string, e: string, f: string)
    ensures a + (b + (c + (d + (e + f)))) == a + b + c + d + e + f
  {
  }

  lemma DropPrefix(a: string, b: string)
    ensures (a + b)[|a|..] == b
  {
  }

  // ---------------------------------------------------------------------------------------------
  // The recogniser, one pattern element at a time. Each step returns what it consumed and the
  // text after it.

  datatype Scan<T> = Scan(piece: T, rest: string)

  /** `[+-]?`, taken when present. */
  function ScanSign(s: string): (r: Scan<string>)
    ensures s == r.piece + r.rest
    ensures |r.piece| <= 1 && (r.piece != [] ==> IsSign(r.piece[0]))
    ensures r.piece == [] ==> s == [] || !IsSign(s[0])
  {
    if s != [] && IsSign(s[0]) then Scan(s[..1], s[1..]) else Scan([], s)
  }

  /** `\d{0,max}`, as many digits as there are. */
  function ScanDigits(s: string, max: nat): (r: Scan<string>)
    ensures s == r.piece + r.rest
    ensures |r.piece| <= max && AllDigits(r.piece)
    ensures |r.piece| < max ==> !StartsWithDigit(r.rest)
    ensures r.piece == [] ==> max == 0 || !StartsWithDigit(s)
  {
    var digits := DigitRun(s, max);
    Scan(digits, s[|digits|..])
  }

  /** `\d{1,2}` followed by one character of `ends`: the digits and that character. */
  function ScanField(s: string, ends: string): (r: Option<Scan<(string, char)>>)
    ensures r.Some? ==> 1 <= |r.value.piece.0| <= 2 && AllDigits(r.value.piece.0) && r.value.piece.1 in ends
    ensures r.Some? ==> s == r.value.piece.0 + ([r.value.piece.1] + r.value.rest)
  {
    var digits := ScanDigits(s, 2);
    if digits.piece == [] || digits.rest == [] || digits.rest[0] !in ends then None
    else
      assert digits.rest == [digits.rest[0]] + digits.rest[1..];
      Some(Scan((digits.piece, digits.rest[0]), digits.rest[1..]))
  }

  /** `([,.]\d+)?`, taken when a separator and a digit come next. */
  function ScanFraction(s: string): (r: Scan<string>)
    ensures s == r.piece + r.rest
    ensures r.piece == [] ==> !StartsWithFraction(s)
    ensures r.piece != [] ==>
      |r.piece| >= 2 && IsSeparator(r.piece[0]) && AllDigits(r.piece[1..]) && !StartsWithDigit(r.rest)
  {
    if StartsWithFraction(s) then
      var digits := ScanDigits(s[1..], |s|);
      assert s == [s[0]] + s[1..];
      Assoc([s[0]], digits.piece, digits.rest);
      DropPrefix([s[0]], digits.piece);
      Scan([s[0]] + digits.piece, digits.rest)
    else Scan([], s)
  }

  /** `('')?`, taken when present. */
  function ScanClosing(s: string): (r: Scan<bool>)
    ensures s == Closing(r.piece) + r.rest
    ensures !r.piece ==> !StartsWithClosing(s)
  {
    if StartsWithClosing(s) then
      assert s == s[..2] + s[2..] && s[..2] == "''";
      Scan(true, s[2..])
    else Scan(false, s)
  }

  lemma MarkIn(c: char)
    requires c in ['°', '*']
    ensures IsMark(c)
  {
  }

  lemma ApostropheIn(c: char)
    requires c in ['\'']
    ensures [c] == ['\'']
  {
  }

  lemma HeadTextSplits(h: Head, rest: string)
    ensures HeadText(h) + rest == h.sign + (h.degree + ([h.mark] + (h.minutes + (['\''] + rest))))
  {
    Regroup5(h.sign, h.degree, [h.mark], h.minutes, ['\''], rest);
  }

  /** The head of the pattern at the start of `data`. Greedy digit runs need no backtracking
      here: a shorter run would leave a digit where the mark or the apostrophe must be. */
  function MatchHead(data: string): (r: Option<Scan<Head>>)
    ensures r.Some? ==> HeadWellFormed(r.value.piece) && data == HeadText(r.value.piece) + r.value.rest
  {
    var sign := ScanSign(data);
    match ScanField(sign.rest, ['°', '*'])
    case None => None
    case Some(degree) =>
      match ScanField(degree.rest, ['\''])
      case None => None
      case Some(minutes) =>
        var h := Head(sign.piece, degree.piece.0, degree.piece.1, minutes.piece.0);
        MarkIn(degree.piece.1);
        ApostropheIn(minutes.piece.1);
        HeadTextSplits(h, minutes.rest);
        Some(Scan(h, minutes.rest))
  }

  /** The tail of the pattern at the start of `text` (the text after the minutes' apostrophe). */
  function MatchTail(text: string): (r: Option<Scan<Tail>>)
    ensures r.Some? ==> TailWellFormed(r.value.piece) && text == TailText(r.value.piece) + r.value.rest
    ensures r.Some? ==> TailGreedy(r.value.piece, r.value.rest)
  {
    var seconds := ScanDigits(text, 2);
    if seconds.piece == [] then None
    else
      var fraction := ScanFraction(seconds.rest);
      var closing := ScanClosing(fraction.rest);
      var t := Tail(seconds.piece, fraction.piece, closing.piece);
      Regroup3(seconds.piece, fraction.piece, Closing(closing.piece), closing.rest);
      Assoc(fraction.piece, Closing(closing.piece), closing.rest);
      Some(Scan(t, closing.rest))
  }

  /** `re.match(pattern, data)`: the match found at the start of `data`, or None. */
  function MatchDms(data: string): (r: Option<DmsMatch>)
    ensures r.Some? ==> MatchesPrefix(r.value, data) && Greedy(r.value, data)
  {
    match MatchHead(data)
    case None => None
    case Some(head) =>
      match MatchTail(head.rest)
      case None => None
      case Some(tail) =>
        var m := DmsMatch(head.piece, tail.piece);
        Assoc(HeadText(m.head), TailText(m.tail), tail.rest);
        PrefixOfConcat(Render(m), tail.rest);
        DropPrefix(Render(m), tail.rest);
        Some(m)
  }

  // ---------------------------------------------------------------------------------------------
  // The recogniser agrees with the declarative description of the pattern.

  lemma {:induction false} SignFound(sign: string, after: string)
    requires |sign| <= 1 && (sign != [] ==> IsSign(sign[0]))
    requires after != [] && IsDigit(after[0])
    ensures ScanSign(sign + after) == Scan(sign, after)
  {
    if sign != [] {
      assert (sign + after)[..1] == sign;
      DropPrefix(sign, after);
    } else {
      assert sign + after == after;
    }
  }

  lemma {:induction false} FieldFound(digits: string, end: char, after: string, ends: string)
    requires 1 <= |digits| <= 2 && AllDigits(digits) && end in ends && !IsDigit(end)
    ensures ScanField(digits + ([end] + after), ends) == Some(Scan((digits, end), after))
  {
    DigitRunOfDigits(digits, [end] + after, 2);
    DropPrefix(digits, [end] + after);
  }

  /** A well-formed head is always recognised, whatever follows it. */
  lemma {:induction false} HeadFound(h: Head, after: string)
    requires HeadWellFormed(h)
    ensures MatchHead(HeadText(h) + after) == Some(Scan(h, after))
  {
    var minutesAndAfter := h.minutes + (['\''] + after);
    var degreeAndAfter := h.degree + ([h.mark] + minutesAndAfter);
    Regroup5(h.sign, h.degree, [h.mark], h.minutes, ['\''], after);
    SignFound(h.sign, degreeAndAfter);
    FieldFound(h.degree, h.mark, minutesAndAfter, ['°', '*']);
    FieldFound(h.minutes, '\'', after, ['\'']);
  }

  /** The tail backtracking reports is the one the recogniser builds. */
  lemma {:induction false} TailFound(t: Tail, rest: string)
    requires TailWellFormed(t) && TailGreedy(t, rest)
    ensures MatchTail(TailText(t) + rest) == Some(Scan(t, rest))
  {
    var closingAndRest := Closing(t.closed) + rest;
    var afterSeconds := t.fraction + closingAndRest;
    Regroup3(t.seconds, t.fraction, Closing(t.closed), rest);
    Assoc(t.fraction, Closing(t.closed), rest);
    DigitRunOfDigits(t.seconds, afterSeconds, 2);
    DropPrefix(t.seconds, afterSeconds);
    assert ScanDigits(TailText(t) + rest, 2) == Scan(t.seconds, afterSeconds);
    FractionFound(t.fraction, closingAndRest);
    ClosingFound(t.closed, rest);
  }

  lemma {:induction false} FractionFound(fraction: string, after: string)
    requires fraction == [] || (|fraction| >= 2 && IsSeparator(fraction[0]) && AllDigits(fraction[1..]))
    requires fraction == [] ==> !StartsWithFraction(after)
    requires fraction != [] ==> !StartsWithDigit(after)
    ensures ScanFraction(fraction + after) == Scan(fraction, after)
  {
    if fraction == [] {
      assert fraction + after == after;
    } else {
      var s := fraction + after;
      assert s[0] == fraction[0] && s[1] == fraction[1..][0];
      assert s[1..] == fraction[1..] + after;
      DigitRunOfDigits(fraction[1..], after, |s|);
      DropPrefix(fraction[1..], after);
      assert [s[0]] + fraction[1..] == fraction;
    }
  }

  lemma {:induction false} ClosingFound(closed: bool, rest: string)
    requires !closed ==> !StartsWithClosing(rest)
    ensures ScanClosing(Closing(closed) + rest) == Scan(closed, rest)
  {
    if closed {
      DropPrefix("''", rest);
    } else {
      assert Closing(closed) + rest == rest;
    }
  }

  /** A well-formed tail is always recognised (its first character is a digit). */
  lemma {:induction false} TailSucceeds(t: Tail, rest: string)
    requires TailWellFormed(t)
    ensures MatchTail(TailText(t) + rest).Some?
  {
    Regroup3(t.seconds, t.fraction, Closing(t.closed), rest);
    var text := TailText(t) + rest;
    assert text[0] == t.seconds[0];
  }

  /** Completeness: whenever some prefix of `data` matches the pattern, `re.match` succeeds. */
  lemma {:induction false} PrefixMatchIsFound(m: DmsMatch, data: string)
    requires MatchesPrefix(m, data)
    ensures MatchDms(data).Some?
  {
    var rest := data[|Render(m)|..];
    PrefixSplit(Render(m), data);
    Assoc(HeadText(m.head), TailText(m.tail), rest);
    HeadFound(m.head, TailText(m.tail) + rest);
    TailSucceeds(m.tail, rest);
  }

  /** Uniqueness: the prefix match that obeys backtracking's preferences is the one reported. */
  lemma {:induction false} GreedyMatchIsFound(m: DmsMatch, data: string)
    requires MatchesPrefix(m, data) && Greedy(m, data)
    ensures MatchDms(data) == Some(m)
  {
    var rest := data[|Render(m)|..];
    PrefixSplit(Render(m), data);
    Assoc(HeadText(m.head), TailText(m.tail), rest);
    HeadFound(m.head, TailText(m.tail) + rest);
    TailFound(m.tail, rest);
  }
  /** Three digits where the degree belongs: `\d{1,2}` stops after two and no mark follows. */
  lemma {:induction false} WideDegreeNotMatched(data: string)
    requires var s := ScanSign(data).rest; |s| >= 3 && IsDigit(s[0]) && IsDigit(s[1]) && IsDigit(s[2])
    ensures MatchDms(data) == None
  {
    var s := ScanSign(data).rest;
    var digits := ScanDigits(s, 2);
    assert digits.rest[0] == s[|digits.piece|];
    assert |digits.piece| == 2;
    assert digits.rest[0] == s[2];
    assert ScanField(s, ['°', '*']) == None;
    MatchHeadSteps(data);
    MatchDmsSteps(data);
  }

  // ---------------------------------------------------------------------------------------------
  // Texts that differ only in which degree mark or which seconds separator they use.

  /** Characters the pattern does not tell apart: equal, both degree marks or both separators. */
  predicate Alike(x: char, y: char)
  {
    x == y || (IsMark(x) && IsMark(y)) || (IsSeparator(x) && IsSeparator(y))
  }

  /** Texts of the same length whose characters are pairwise alike. */
  predicate Similar(a: string, b: string)
  {
    |a| == |b| && forall i :: 0 <= i < |a| ==> Alike(a[i], b[i])
  }

  /** Matches that agree in everything except their mark and their seconds separator. */
  predicate AlikeMatches(m: DmsMatch, n: DmsMatch)
  {
    m.head.sign == n.head.sign && m.head.degree == n.head.degree && m.head.minutes == n.head.minutes
    && m.tail.seconds == n.tail.seconds && |m.tail.fraction| == |n.tail.fraction|
    && (m.tail.fraction != [] ==> m.tail.fraction[1..] == n.tail.fraction[1..])
    && m.tail.closed == n.tail.closed
  }

  lemma SimilarSuffix(a: string, b: string, k: nat)
    requires Similar(a, b) && k <= |a|
    ensures Similar(a[k..], b[k..])
  {
    forall i | 0 <= i < |a| - k
      ensures Alike(a[k..][i], b[k..][i])
    {
      assert a[k..][i] == a[k + i] && b[k..][i] == b[k + i];
    }
  }

  lemma {:induction false} ScanSignAlike(a: string, b: string)
    requires Similar(a, b)
    ensures ScanSign(a).piece == ScanSign(b).piece
    ensures Similar(ScanSign(a).rest, ScanSign(b).rest)
  {
    if a != [] && IsSign(a[0]) {
      assert b[0] == a[0] by {
        assert Alike(a[0], b[0]);
      }
      assert b[..1] == a[..1];
      SimilarSuffix(a, b, 1);
    } else if a != [] {
      assert !IsSign(b[0]) by {
        assert Alike(a[0], b[0]);
      }
    }
  }

  lemma {:induction false} ScanDigitsAlike(a: string, b: string, max: nat)
    requires Similar(a, b)
    ensures ScanDigits(a, max).piece == ScanDigits(b, max).piece
    ensures Similar(ScanDigits(a, max).rest, ScanDigits(b, max).rest)
  {
    var r := DigitRun(a, max);
    forall j | 0 <= j < |r|
      ensures b[j] == r[j]
    {
      assert Alike(a[j], b[j]) && a[j] == r[j];
    }
    assert b[..|r|] == r;
    PrefixSplit(r, b);
    if |r| < max && |r| < |b| {
      assert Alike(a[|r|], b[|r|]);
      assert b[|r|..][0] == b[|r|];
    }
    DigitRunOfDigits(r, b[|r|..], max);
    SimilarSuffix(a, b, |r|);
  }

  lemma {:induction false} ScanFieldAlike(a: string, b: string, ends: string)
    requires Similar(a, b)
    requires ends == ['°', '*'] || ends == ['\'']
    ensures ScanField(a, ends).Some? <==> ScanField(b, ends).Some?
    ensures ScanField(a, ends).Some? ==>
      ScanField(a, ends).value.piece.0 == ScanField(b, ends).value.piece.0
      && Similar(ScanField(a, ends).value.rest, ScanField(b, ends).value.rest)
  {
    var x := ScanDigits(a, 2);
    var y := ScanDigits(b, 2);
    assert x.piece == y.piece && Similar(x.rest, y.rest) by {
      ScanDigitsAlike(a, b, 2);
    }
    if x.piece == [] || x.rest == [] {
      assert ScanField(a, ends) == None && ScanField(b, ends) == None;
    } else {
      assert x.rest[0] in ends <==> y.rest[0] in ends by {
        assert Alike(x.rest[0], y.rest[0]);
      }
      if x.rest[0] in ends {
        SimilarSuffix(x.rest, y.rest, 1);
        assert ScanField(a, ends) == Some(Scan((x.piece, x.rest[0]), x.rest[1..]));
        assert ScanField(b, ends) == Some(Scan((y.piece, y.rest[0]), y.rest[1..]));
      } else {
        assert ScanField(a, ends) == None && ScanField(b, ends) == None;
      }
    }
  }

  lemma {:induction false} ScanFractionAlike(a: string, b: string)
    requires Similar(a, b)
    ensures |ScanFraction(a).piece| == |ScanFraction(b).piece|
    ensures ScanFraction(a).piece != [] ==> ScanFraction(a).piece[1..] == ScanFraction(b).piece[1..]
    ensures Similar(ScanFraction(a).rest, ScanFraction(b).rest)
  {
    if |a| >= 2 {
      assert Alike(a[0], b[0]) && Alike(a[1], b[1]);
      assert StartsWithFraction(a) <==> StartsWithFraction(b);
    }
    if StartsWithFraction(a) {
      SimilarSuffix(a, b, 1);
      ScanDigitsAlike(a[1..], b[1..], |a|);
      var x := ScanDigits(a[1..], |a|);
      var y := ScanDigits(b[1..], |b|);
      assert ScanFraction(a) == Scan([a[0]] + x.piece, x.rest);
      assert ScanFraction(b) == Scan([b[0]] + y.piece, y.rest);
      DropPrefix([a[0]], x.piece);
      DropPrefix([b[0]], y.piece);
    } else {
      assert ScanFraction(a) == Scan([], a);
      assert ScanFraction(b) == Scan([], b);
    }
  }

  lemma {:induction false} ScanClosingAlike(a: string, b: string)
    requires Similar(a, b)
    ensures ScanClosing(a).piece == ScanClosing(b).piece
    ensures Similar(ScanClosing(a).rest, ScanClosing(b).rest)
  {
    if |a| >= 2 {
      assert Alike(a[0], b[0]) && Alike(a[1], b[1]);
      assert StartsWithClosing(a) <==> StartsWithClosing(b);
    }
    if StartsWithClosing(a) {
      SimilarSuffix(a, b, 2);
      assert ScanClosing(a) == Scan(true, a[2..]);
      assert ScanClosing(b) == Scan(true, b[2..]);
    } else {
      assert ScanClosing(a) == Scan(false, a);
      assert ScanClosing(b) == Scan(false, b);
    }
  }

  /** Heads read from similar texts: both present or both absent, with the same sign, degree and
      minutes. */
  predicate AlikeHeads(x: Option<Scan<Head>>, y: Option<Scan<Head>>)
  {
    (x.Some? <==> y.Some?)
    && (x.Some? ==>
      x.value.piece.sign == y.value.piece.sign && x.value.piece.degree == y.value.piece.degree
      && x.value.piece.minutes == y.value.piece.minutes && Similar(x.value.rest, y.value.rest))
  }

  /** The head `MatchHead` reports, in terms of its three scanning steps. */
  lemma MatchHeadSteps(a: string)
    ensures var sign := ScanSign(a);
      var degree := ScanField(sign.rest, ['°', '*']);
      var minutes := if degree.Some? then ScanField(degree.value.rest, ['\'']) else None;
      (MatchHead(a).Some? <==> minutes.Some?)
      && (minutes.Some? ==>
        MatchHead(a).value.piece.sign == sign.piece
        && MatchHead(a).value.piece.degree == degree.value.piece.0
        && MatchHead(a).value.piece.minutes == minutes.value.piece.0
        && MatchHead(a).value.rest == minutes.value.rest)
  {
  }

  lemma {:induction false} MatchHeadAlike(a: string, b: string)
    requires Similar(a, b)
    ensures AlikeHeads(MatchHead(a), MatchHead(b))
  {
    var sa := ScanSign(a);
    var sb := ScanSign(b);
    assert sa.piece == sb.piece && Similar(sa.rest, sb.rest) by {
      ScanSignAlike(a, b);
    }
    var da := ScanField(sa.rest, ['°', '*']);
    var db := ScanField(sb.rest, ['°', '*']);
    assert (da.Some? <==> db.Some?)
      && (da.Some? ==> da.value.piece.0 == db.value.piece.0 && Similar(da.value.rest, db.value.rest)) by {
      ScanFieldAlike(sa.rest, sb.rest, ['°', '*']);
    }
    var ma := if da.Some? then ScanField(da.value.rest, ['\'']) else None;
    var mb := if db.Some? then ScanField(db.value.rest, ['\'']) else None;
    assert (ma.Some? <==> mb.Some?)
      && (ma.Some? ==> ma.value.piece.0 == mb.value.piece.0 && Similar(ma.value.rest, mb.value.rest)) by {
      if da.Some? {
        ScanFieldAlike(da.value.rest, db.value.rest, ['\'']);
      }
    }
    MatchHeadSteps(a);
    MatchHeadSteps(b);
  }

  /** Tails read from similar texts: both present or both absent, with the same seconds, the same
      fractional digits and the same closing. */
  predicate AlikeTails(x: Option<Scan<Tail>>, y: Option<Scan<Tail>>)
  {
    (x.Some? <==> y.Some?)
    && (x.Some? ==>
      var (t, u) := (x.value.piece, y.value.piece);
      t.seconds == u.seconds && |t.fraction| == |u.fraction|
      && (t.fraction != [] ==> t.fraction[1..] == u.fraction[1..])
      && t.closed == u.closed)
  }

  lemma {:induction false} MatchTailAlike(a: string, b: string)
    requires Similar(a, b)
    ensures AlikeTails(MatchTail(a), MatchTail(b))
  {
    ScanDigitsAlike(a, b, 2);
    var x := ScanDigits(a, 2);
    var y := ScanDigits(b, 2);
    ScanFractionAlike(x.rest, y.rest);
    var fa := ScanFraction(x.rest);
    var fb := ScanFraction(y.rest);
    ScanClosingAlike(fa.rest, fb.rest);
    var ca := ScanClosing(fa.rest);
    var cb := ScanClosing(fb.rest);
    if x.piece == [] {
      assert MatchTail(a) == None && MatchTail(b) == None;
    } else {
      assert MatchTail(a) == Some(Scan(Tail(x.piece, fa.piece, ca.piece), ca.rest));
      assert MatchTail(b) == Some(Scan(Tail(y.piece, fb.piece, cb.piece), cb.rest));
    }
  }

  /** The match `MatchDms` reports, in terms of the head and the tail it reads. */
  lemma MatchDmsSteps(a: string)
    ensures var head := MatchHead(a);
      var tail := if head.Some? then MatchTail(head.value.rest) else None;
      (MatchDms(a).Some? <==> tail.Some?)
      && (tail.Some? ==> MatchDms(a).value == DmsMatch(head.value.piece, tail.value.piece))
  {
  }

  /** `re.match` cannot tell similar texts apart: it matches both or neither, with the same groups
      apart from the mark and the separator themselves. */
  lemma {:induction false} MatchDmsAlike(a: string, b: string)
    requires Similar(a, b)
    ensures MatchDms(a).Some? <==> MatchDms(b).Some?
    ensures MatchDms(a).Some? ==> AlikeMatches(MatchDms(a).value, MatchDms(b).value)
  {
    var ha := MatchHead(a);
    var hb := MatchHead(b);
    assert AlikeHeads(ha, hb) by {
      MatchHeadAlike(a, b);
    }
    var ta := if ha.Some? then MatchTail(ha.value.rest) else None;
    var tb := if hb.Some? then MatchTail(hb.value.rest) else None;
    assert AlikeTails(ta, tb) by {
      if ha.Some? {
        MatchTailAlike(ha.value.rest, hb.value.rest);
      }
    }
    MatchDmsSteps(a);
    MatchDmsSteps(b);
  }
}
