/**
 * `ICalDuration` of ical.go: a span of nanoseconds written as an iCalendar
 * DURATION value (section 3.3.6 of RFC 5545), such as `PT1H0M0S`, `P1D` or
 * `-PT15M0S`. Spans of a week or more and spans of at most one second either
 * way are refused; sub-second parts are dropped.
 */
module Duration {
  import opened Results
  import opened GoText

  // `time.Duration` counts nanoseconds.
  const Second: int := 1_000_000_000
  const Minute: int := 60 * Second
  const Hour: int := 60 * Minute
  const Day: int := 24 * Hour
  const Week: int := 7 * Day

  datatype DurationError =
    | TooLarge  // at least a week either way
    | TooSmall  // at most a second either way

  /** The text of each error. */
  function ErrorText(e: DurationError): string {
    match e
    case TooLarge => "duration too large (must be under 1 week)"
    case TooSmall => "duration too small (must be at least 1 second)"
  }

  /** The sign and the whole days, hours, minutes and seconds of a span. */
  datatype Parts = Parts(negative: bool, days: nat, hours: nat, minutes: nat, seconds: nat)
  {
    /** The number of whole seconds the parts stand for. */
    function Total(): nat {
      days * 86400 + hours * 3600 + minutes * 60 + seconds
    }

    predicate InRange() {
      days <= 6 && hours < 24 && minutes < 60 && seconds < 60
    }
  }

  function Abs(t: int): nat {
    if t < 0 then -t else t
  }

  /** The decomposition of `ICalDuration`: whole days of the magnitude, then
      whole hours, minutes and seconds of what is left at each step. */
  function Decompose(t: int): (p: Parts)
    ensures p.negative <==> t < 0
    ensures p.hours < 24 && p.minutes < 60 && p.seconds < 60
  {
    var a := Abs(t);
    var afterDays := a % Day;
    var afterHours := afterDays % Hour;
    Parts(t < 0, a / Day, afterDays / Hour, afterHours / Minute, afterHours % Minute / Second)
  }

  /** One unit: its numeral and its letter. */
  function Unit(n: nat, letter: char): string {
    Itoa(n) + [letter]
  }

  /** The time part after `T`: the first non-zero unit and every smaller one
      after it, as the `fallthrough` cases of the `switch` write them. */
  function TimeUnits(p: Parts): string {
    if p.hours > 0 then Unit(p.hours, 'H') + Unit(p.minutes, 'M') + Unit(p.seconds, 'S')
    else if p.minutes > 0 then Unit(p.minutes, 'M') + Unit(p.seconds, 'S')
    else if p.seconds > 0 then Unit(p.seconds, 'S')
    else ""
  }

  /** The text `ICalDuration` writes for the parts. */
  function Render(p: Parts): (r: string)
    ensures |r| >= (if p.negative then 2 else 1)
    ensures (r[0] == '-' <==> p.negative) && r[if p.negative then 1 else 0] == 'P'
  {
    (if p.negative then "-" else "")
    + "P"
    + (if p.days > 0 then Unit(p.days, 'D') else "")
    + (if p.hours > 0 || p.minutes > 0 || p.seconds > 0 then "T" + TimeUnits(p) else "")
  }

  predicate TooLong(t: int) {
    t >= Week || t <= -Week
  }

  predicate TooShort(t: int) {
    -Second <= t <= Second
  }

  /** What `ICalDuration` returns. */
  function FormatDuration(t: int): (r: Result<string, DurationError>)
    ensures r.Ok? <==> !TooLong(t) && !TooShort(t)
    ensures r == Err(TooLarge) <==> TooLong(t)
  {
    if TooLong(t) then Err(TooLarge)
    else if TooShort(t) then Err(TooSmall)
    else Ok(Render(Decompose(t)))
  }

  /** `ICalDuration`: the span is made non-negative, cut into units from days
      down to seconds, and written unit by unit into a buffer. */
  method ICalDuration(span: int) returns (r: Result<string, DurationError>)
    ensures r == FormatDuration(span)
  {
    var t := span;
    if t >= Week || t <= -Week {
      return Err(TooLarge);
    } else if t >= -Second && t <= Second {
      return Err(TooSmall);
    }
    var neg := false;
    if t < 0 {
      t := t * -1;
      neg := true;
    }
    var d, h, m, s := Cut(t);
    ghost var parts := Parts(neg, d, h, m, s);
    assert parts == Decompose(span);
    var buf := WriteHead(neg, d);
    if h > 0 || m > 0 || s > 0 {
      buf := WriteTime(buf, h, m, s);
    }
    RenderPieces(parts, buf);
    return Ok(buf);
  }

  /** The cuts of `ICalDuration`: whole days, then whole hours, minutes and
      seconds of what is left at each step. */
  method Cut(a: nat) returns (d: nat, h: nat, m: nat, s: nat)
    ensures Parts(false, d, h, m, s) == Decompose(a)
  {
    var t := a;
    d, t := t / Day, t % Day;
    h, t := t / Hour, t % Hour;
    m, t := t / Minute, t % Minute;
    s := t / Second;
  }

  /** The buffer holds the head and, when some time unit is non-zero, the
      time part: that is `Render`. */
  lemma RenderPieces(p: Parts, buf: string)
    requires p.hours > 0 || p.minutes > 0 || p.seconds > 0 ==>
      buf == Head(Parts(p.negative, p.days, 0, 0, 0)) + "T" + TimeUnits(Parts(false, 0, p.hours, p.minutes, p.seconds))
    requires !(p.hours > 0 || p.minutes > 0 || p.seconds > 0) ==> buf == Head(Parts(p.negative, p.days, 0, 0, 0))
    ensures buf == Render(p)
  {
    if !(p.hours > 0 || p.minutes > 0 || p.seconds > 0) {
      assert buf + [] == buf;
    }
  }

  /** The `T` branch of `ICalDuration`: the letter, then the `switch` whose
      cases fall through to the smaller units. */
  method WriteTime(start: string, h: nat, m: nat, s: nat) returns (buf: string)
    requires h > 0 || m > 0 || s > 0
    ensures buf == start + "T" + TimeUnits(Parts(false, 0, h, m, s))
  {
    buf := start + "T";
    ghost var front := buf;
    // A `case` runs when its condition holds or when the case above it ran.
    var fall := false;
    if h > 0 {
      buf := WriteUnit(buf, h, 'H');
      fall := true;
    }
    ghost var afterHours := buf;
    if fall || m > 0 {
      buf := WriteUnit(buf, m, 'M');
      fall := true;
    }
    ghost var afterMinutes := buf;
    if fall || s > 0 {
      buf := WriteUnit(buf, s, 'S');
    }
    if h > 0 {
      Regroup3(front, Unit(h, 'H'), Unit(m, 'M'), Unit(s, 'S'), afterHours, afterMinutes, buf);
    } else if m > 0 {
      Regroup2(front, Unit(m, 'M'), Unit(s, 'S'), afterMinutes, buf);
    }
  }

  /** Three units written one after the other, stated on opaque values. */
  lemma Regroup3(front: string, a: string, b: string, c: string, first: string, second: string, buf: string)
    requires first == front + a && second == first + b && buf == second + c
    ensures buf == front + (a + b + c)
  {
  }

  lemma Regroup2(front: string, b: string, c: string, second: string, buf: string)
    requires second == front + b && buf == second + c
    ensures buf == front + (b + c)
  {
  }

  /** One `case` of the `switch`: the numeral, then the unit letter. */
  method WriteUnit(start: string, n: nat, letter: char) returns (buf: string)
    ensures buf == start + Unit(n, letter)
  {
    buf := start + Itoa(n);
    buf := buf + [letter];
  }

  /** Everything up to the time part. */
  function Head(p: Parts): string {
    (if p.negative then "-" else "") + "P" + (if p.days > 0 then Unit(p.days, 'D') else "")
  }

  /** The sign, `P` and the days of `ICalDuration`. */
  method WriteHead(neg: bool, d: nat) returns (buf: string)
    ensures buf == Head(Parts(neg, d, 0, 0, 0))
  {
    buf := "";
    if neg {
      buf := buf + "-";
    }
    buf := buf + "P";
    if d > 0 {
      buf := buf + Itoa(d) + "D";
    }
    assert [] + "-" == "-";
  }

  // ---------------------------------------------------------------------------
  // Properties

  /** The span is refused exactly when it is a week or more, or at most a
      second, either way. */
  lemma FormatDurationRefuses(t: int)
    ensures FormatDuration(t).Err? <==> TooLong(t) || TooShort(t)
    ensures FormatDuration(t) == Err(TooLarge) <==> TooLong(t)
    ensures FormatDuration(t) == Err(TooSmall) <==> !TooLong(t) && TooShort(t)
  {
  }

  /** The units are in range and add up to the whole seconds of the span. */
  lemma DecomposeSound(t: int)
    requires !TooLong(t)
    ensures Decompose(t).InRange()
    ensures Decompose(t).Total() == Abs(t) / Second
    ensures Decompose(t).negative <==> t < 0
  {
    DecomposeInRange(Abs(t));
    DecomposeTotal(Abs(t));
    assert Decompose(t) == Decompose(Abs(t)).(negative := t < 0);
  }

  /** Each unit of a magnitude under a week is below the next larger unit. */
  lemma DecomposeInRange(a: nat)
    requires a < Week
    ensures Decompose(a).InRange()
  {
    var r1 := a % Day;
    var r2 := r1 % Hour;
    QuotientBound(a, Day, 7);
    QuotientBound(r1, Hour, 24);
    QuotientBound(r2, Minute, 60);
    QuotientBound(r2 % Minute, Second, 60);
  }

  /** The units of a magnitude add up to its whole seconds. */
  lemma DecomposeTotal(a: nat)
    ensures Decompose(a).Total() == a / Second
  {
    var p := Decompose(a);
    var r1 := a % Day;
    var r2 := r1 % Hour;
    var r3 := r2 % Minute;
    assert a == p.days * Day + r1;
    assert r1 == p.hours * Hour + r2;
    assert r2 == p.minutes * Minute + r3;
    assert r3 == p.seconds * Second + r3 % Second;
    Recombine(p.days, p.hours, p.minutes, p.seconds, r3 % Second, a);
    DivideExactly(a, p.Total(), r3 % Second);
  }

  /** A remainder below `n` units holds fewer than `n` whole units. */
  lemma QuotientBound(x: nat, k: nat, n: nat)
    requires k > 0 && x < n * k
    ensures x / k < n
  {
  }

  /** The units of a magnitude, added up in seconds. */
  lemma Recombine(d: int, h: int, m: int, s: int, r: int, a: int)
    requires a == d * 86_400_000_000_000 + (h * 3_600_000_000_000 + (m * 60_000_000_000 + (s * 1_000_000_000 + r)))
    ensures a == (d * 86400 + h * 3600 + m * 60 + s) * Second + r
  {
  }

  lemma DivideExactly(a: int, q: int, r: int)
    requires 0 <= r < Second && a == q * Second + r
    ensures a / Second == q
  {
  }

  /** No other units in range stand for the same number of seconds. */
  lemma DecomposeUnique(t: int, p: Parts)
    requires !TooLong(t) && p.InRange() && p.Total() == Abs(t) / Second && (p.negative <==> t < 0)
    ensures p == Decompose(t)
  {
    DecomposeSound(t);
    var q := Decompose(t);
    UnitsUnique(p, q);
  }

  lemma UnitsUnique(p: Parts, q: Parts)
    requires p.InRange() && q.InRange() && p.Total() == q.Total() && p.negative == q.negative
    ensures p == q
  {
    assert p.Total() == ((p.days * 24 + p.hours) * 60 + p.minutes) * 60 + p.seconds;
    assert q.Total() == ((q.days * 24 + q.hours) * 60 + q.minutes) * 60 + q.seconds;
    PlaceUnique((p.days * 24 + p.hours) * 60 + p.minutes, (q.days * 24 + q.hours) * 60 + q.minutes, p.seconds, q.seconds, 60);
    PlaceUnique(p.days * 24 + p.hours, q.days * 24 + q.hours, p.minutes, q.minutes, 60);
    PlaceUnique(p.days, q.days, p.hours, q.hours, 24);
  }

  /** A number has one quotient and one remainder by `k`. */
  lemma PlaceUnique(a: nat, b: nat, x: nat, y: nat, k: nat)
    requires x < k && y < k && a * k + x == b * k + y
    ensures a == b && x == y
  {
    if a < b {
      Larger(a, b - a, k);
    } else if b < a {
      Larger(b, a - b, k);
    }
  }

  lemma Larger(a: nat, e: nat, k: nat)
    requires e >= 1
    ensures (a + e) * k >= a * k + k
  {
    assert (a + e) * k == a * k + e * k;
    assert e * k == k + (e - 1) * k;
  }

  /** Some unit is always written: an accepted span is longer than a second. */
  lemma SomeUnit(t: int)
    requires !TooLong(t) && !TooShort(t)
    ensures Decompose(t).Total() >= 1
    ensures Decompose(t).days > 0 || Decompose(t).hours > 0 || Decompose(t).minutes > 0 || Decompose(t).seconds > 0
  {
    DecomposeSound(t);
    assert Abs(t) > Second;
  }

  lemma NoLetterInNumeral(s: string, c: char)
    requires AllDigits(s) && !IsDigit(c)
    ensures c !in s
  {
  }

  /** Where the unit letters occur in the rendered text. */
  lemma RenderLetters(p: Parts)
    ensures var r := Render(p);
      && (r[0] == '-' <==> p.negative)
      && r[if p.negative then 1 else 0] == 'P'
      && ('D' in r <==> p.days > 0)
      && ('T' in r <==> p.hours > 0 || p.minutes > 0 || p.seconds > 0)
      && ('H' in r <==> p.hours > 0)
      && ('M' in r <==> p.hours > 0 || p.minutes > 0)
      && ('S' in r <==> p.hours > 0 || p.minutes > 0 || p.seconds > 0)
  {
    Numerals(p);
    var sign := if p.negative then "-" else "";
    var days := if p.days > 0 then Unit(p.days, 'D') else "";
    var time := if p.hours > 0 || p.minutes > 0 || p.seconds > 0 then "T" + TimeUnits(p) else "";
    RenderIs(p, sign, days, time);
    var r := Render(p);
    SignFirst(p.negative, sign, days + time, r);
    DaysLetters(p, days);
    TimeLetters(p, time);
    LettersAfterSign(sign, days, time, r);
  }

  lemma RenderIs(p: Parts, sign: string, days: string, time: string)
    requires sign == (if p.negative then "-" else "")
    requires days == (if p.days > 0 then Unit(p.days, 'D') else "")
    requires time == (if p.hours > 0 || p.minutes > 0 || p.seconds > 0 then "T" + TimeUnits(p) else "")
    ensures Render(p) == sign + "P" + (days + time)
  {
  }

  /** The unit letters of the text are those of the days and the time part. */
  lemma LettersAfterSign(sign: string, days: string, time: string, r: string)
    requires sign == "-" || sign == ""
    requires r == sign + "P" + (days + time)
    ensures forall c :: c in "DTHMS" ==> (c in r <==> c in days || c in time)
  {
    forall c | c in "DTHMS"
      ensures c in r <==> c in days || c in time
    {
      assert c !in sign && c != 'P';
    }
  }

  lemma SignFirst(negative: bool, sign: string, rest: string, r: string)
    requires sign == (if negative then "-" else "")
    requires r == sign + "P" + rest
    ensures (r[0] == '-' <==> negative) && r[if negative then 1 else 0] == 'P'
  {
    assert r[|sign|] == 'P';
  }

  lemma DaysLetters(p: Parts, days: string)
    requires forall c :: c in "-PDTHMS" ==> c !in Itoa(p.days)
    requires days == (if p.days > 0 then Unit(p.days, 'D') else "")
    ensures 'D' in days <==> p.days > 0
    ensures forall c :: c in "THMS" ==> c !in days
  {
  }

  lemma TimeLetters(p: Parts, time: string)
    requires forall c :: c in "-PDTHMS" ==> c !in Itoa(p.hours) && c !in Itoa(p.minutes) && c !in Itoa(p.seconds)
    requires time == (if p.hours > 0 || p.minutes > 0 || p.seconds > 0 then "T" + TimeUnits(p) else "")
    ensures 'D' !in time
    ensures 'T' in time <==> p.hours > 0 || p.minutes > 0 || p.seconds > 0
    ensures 'H' in time <==> p.hours > 0
    ensures 'M' in time <==> p.hours > 0 || p.minutes > 0
    ensures 'S' in time <==> p.hours > 0 || p.minutes > 0 || p.seconds > 0
  {
  }

  /** No numeral holds a unit letter or a sign. */
  lemma Numerals(p: Parts)
    ensures forall c :: c in "-PDTHMS" ==> c !in Itoa(p.days) && c !in Itoa(p.hours)
    ensures forall c :: c in "-PDTHMS" ==> c !in Itoa(p.minutes) && c !in Itoa(p.seconds)
  {
    forall c | c in "-PDTHMS"
      ensures c !in Itoa(p.days) && c !in Itoa(p.hours) && c !in Itoa(p.minutes) && c !in Itoa(p.seconds)
    {
      NoLetterInNumeral(Itoa(p.days), c);
      NoLetterInNumeral(Itoa(p.hours), c);
      NoLetterInNumeral(Itoa(p.minutes), c);
      NoLetterInNumeral(Itoa(p.seconds), c);
    }
  }

  /** The output of an accepted span: the sign iff it is negative, then `P`,
      `D` iff there are whole days, `T` iff there is a time part, and hours
      bring minutes and seconds along, minutes bring seconds. */
  lemma FormatDurationShape(t: int)
    requires FormatDuration(t).Ok?
    ensures var r := FormatDuration(t).value; var p := Decompose(t);
      && (r[0] == '-' <==> t < 0)
      && r[if t < 0 then 1 else 0] == 'P'
      && ('D' in r <==> p.days > 0)
      && ('T' in r <==> p.hours + p.minutes + p.seconds > 0)
      && ('H' in r ==> 'M' in r && 'S' in r)
      && ('M' in r ==> 'S' in r)
  {
    RenderLetters(Decompose(t));
  }

  // ---------------------------------------------------------------------------
  // Examples

  lemma SmallNumerals()
    ensures Itoa(0) == "0" && Itoa(1) == "1" && Itoa(15) == "15" && Itoa(30) == "30"
  {
    assert DigitChar(0) == '0' && DigitChar(1) == '1';
    assert DigitChar(3) == '3' && DigitChar(5) == '5';
    assert Itoa(1) == [DigitChar(1)] && Itoa(3) == [DigitChar(3)];
  }

  lemma OneHour()
    ensures FormatDuration(Hour) == Ok("PT1H0M0S")
  {
    var p := Parts(false, 0, 1, 0, 0);
    assert Decompose(Hour) == p;
    assert !TooLong(Hour) && !TooShort(Hour);
    assert FormatDuration(Hour) == Ok(Render(p));
    SmallNumerals();
    assert TimeUnits(p) == "1" + "H" + ("0" + "M") + ("0" + "S");
    assert Render(p) == "" + "P" + "" + ("T" + ("1" + "H" + ("0" + "M") + ("0" + "S")));
    assert "" + "P" + "" + ("T" + ("1" + "H" + ("0" + "M") + ("0" + "S"))) == "PT1H0M0S";
  }

  lemma FifteenMinutes()
    ensures FormatDuration(15 * Minute) == Ok("PT15M0S")
  {
    var p := Parts(false, 0, 0, 15, 0);
    assert Decompose(15 * Minute) == p;
    assert !TooLong(15 * Minute) && !TooShort(15 * Minute);
    assert FormatDuration(15 * Minute) == Ok(Render(p));
    SmallNumerals();
    assert TimeUnits(p) == "15" + "M" + ("0" + "S");
    assert Render(p) == "" + "P" + "" + ("T" + ("15" + "M" + ("0" + "S")));
    assert "" + "P" + "" + ("T" + ("15" + "M" + ("0" + "S"))) == "PT15M0S";
  }

  lemma OneDay()
    ensures FormatDuration(Day) == Ok("P1D")
  {
    var p := Parts(false, 1, 0, 0, 0);
    assert Decompose(Day) == p;
    assert !TooLong(Day) && !TooShort(Day);
    assert FormatDuration(Day) == Ok(Render(p));
    SmallNumerals();
    assert Unit(1, 'D') == "1" + "D";
    assert Render(p) == "" + "P" + ("1" + "D") + "";
    assert "" + "P" + ("1" + "D") + "" == "P1D";
  }

  lemma MinusNinetyMinutesAndAHalfSecond()
    ensures FormatDuration(-(90 * Minute + Second / 2)) == Ok("-PT1H30M0S")
  {
    var t := -(90 * Minute + Second / 2);
    var p := Parts(true, 0, 1, 30, 0);
    assert Decompose(t) == p;
    assert !TooLong(t) && !TooShort(t);
    assert FormatDuration(t) == Ok(Render(p));
    SmallNumerals();
    assert TimeUnits(p) == "1" + "H" + ("30" + "M") + ("0" + "S");
    assert Render(p) == "-" + "P" + "" + ("T" + ("1" + "H" + ("30" + "M") + ("0" + "S")));
    assert "-" + "P" + "" + ("T" + ("1" + "H" + ("30" + "M") + ("0" + "S"))) == "-PT1H30M0S";
  }
}
