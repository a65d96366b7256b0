/** DateTime: reading and printing ISO 8601 dates.  Wide characters are modelled up to code 0xff; the code tells no
    others apart. */
module DateTime {
  import opened ByteStrings
  import opened JsonValue
  import opened JsonNumbers
  import opened SplitString

  const LETTER_T: Byte := 0x54
  const CAPITAL_Z: Byte := 0x5a
  const SMALL_Z: Byte := 0x7a
  const HYPHEN: Byte := 0x2d
  const PLUS: Byte := 0x2b
  const COLON: Byte := 0x3a

  /** Two-byte unsigned fields. */
  type Word = w: int | 0 <= w < 0x1_0000

  datatype TimeKind = LocalTime | UtcTime

  datatype ISO8601DateTime = ISO8601DateTime(
    year: Word, month: Word, day: Word, hour: Word, minute: Word, second: Word, milliseconds: Word,
    zoneHour: int, zoneMinute: Word, timeKind: TimeKind)

  datatype SystemTime = SystemTime(
    wYear: Word, wMonth: Word, wDayOfWeek: Word, wDay: Word, wHour: Word, wMinute: Word, wSecond: Word,
    wMilliseconds: Word)

  datatype TimeError = InvalidFormat | NotANumber | OutOfRange | InvalidTimeKind

  datatype Outcome<+T> = Ok(value: T) | Thrown(error: TimeError)

  // ---- std::stoi

  predicate IsSpace(c: Byte) {
    c == 0x20 || 0x09 <= c <= 0x0d
  }

  function SkipSpaces(s: Bytes): Bytes {
    if s != [] && IsSpace(s[0]) then SkipSpaces(s[1..]) else s
  }

  function LeadingDigits(s: Bytes): (d: Bytes)
    ensures AllDigits(d)
  {
    if s != [] && IsDigit(s[0]) then [s[0]] + LeadingDigits(s[1..]) else []
  }

  /** Leading blanks and a sign are accepted, and whatever follows the digits is ignored. */
  function Stoi(s: Bytes): Outcome<int> {
    var t := SkipSpaces(s);
    var negative := t != [] && t[0] == HYPHEN;
    var digits := LeadingDigits(if t != [] && (t[0] == HYPHEN || t[0] == PLUS) then t[1..] else t);
    if digits == [] then Thrown(NotANumber)
    else
      var v: int := DigitsValue(digits);
      var n := if negative then -v else v;
      if -0x8000_0000 <= n <= MAX_INT32 then Ok(n) else Thrown(OutOfRange)
  }

  /** static_cast<WORD>. */
  function ToWord(n: int): Word {
    n % 0x1_0000
  }

  /** Conversion to short. */
  function ToShort(n: int): int {
    (n + 0x8000) % 0x1_0000 - 0x8000
  }

  lemma {:induction false} DigitsLead(d: Bytes)
    requires AllDigits(d)
    ensures LeadingDigits(d) == d
  {
    if d != [] {
      assert d[0] in d;
      DigitsLead(d[1..]);
      assert d == [d[0]] + d[1..];
    }
  }

  /** stoi of a numeral is its value, where that is an int. */
  lemma StoiOfDigits(d: Bytes)
    requires AllDigits(d) && d != [] && DigitsValue(d) <= MAX_INT32
    ensures Stoi(d) == Ok(DigitsValue(d))
  {
    assert IsDigit(d[0]);
    DigitsLead(d);
  }

  // ---- printing

  /** An unsigned number with setw and setfill('0'). */
  function Padded(n: nat, width: nat): (d: Bytes)
    ensures d != [] && AllDigits(d)
  {
    Fill(Decimal(n), width)
  }

  function Fill(d: Bytes, width: nat): (r: Bytes)
    requires d != [] && AllDigits(d)
    ensures r != [] && AllDigits(r)
    decreases width - |d|
  {
    if |d| >= width then d else Fill([ZERO] + d, width)
  }

  function ISO8601FromSystemTime(t: SystemTime): Bytes {
    Padded(t.wYear, 4) + [HYPHEN] + Padded(t.wMonth, 2) + [HYPHEN] + Padded(t.wDay, 2) + [LETTER_T] +
    Padded(t.wHour, 2) + [COLON] + Padded(t.wMinute, 2) + [COLON] + Padded(t.wSecond, 2)
  }

  lemma {:induction false} LeadingZeros(d: Bytes)
    requires AllDigits(d)
    ensures AllDigits([ZERO] + d) && DigitsValue([ZERO] + d) == DigitsValue(d)
    decreases |d|
  {
    var z := [ZERO] + d;
    if d == [] {
      assert z[..0] == [];
    } else {
      var u := d[..|d| - 1];
      assert forall c :: c in u ==> c in d;
      assert z[..|z| - 1] == [ZERO] + u;
      LeadingZeros(u);
    }
  }

  lemma {:induction false} FillDenotes(d: Bytes, width: nat)
    requires d != [] && AllDigits(d)
    ensures DigitsValue(Fill(d, width)) == DigitsValue(d)
    decreases width - |d|
  {
    if |d| < width {
      LeadingZeros(d);
      FillDenotes([ZERO] + d, width);
    }
  }

  lemma PaddedReadsBack(n: Word, width: nat)
    ensures Stoi(Padded(n, width)) == Ok(n) && ToWord(n) == n
  {
    DecimalDenotes(n);
    FillDenotes(Decimal(n), width);
    StoiOfDigits(Padded(n, width));
  }

  // ---- reading

  /** Three numbers between delimiters; the first that stoi refuses is reported. */
  function ThreeNumbers(s: Bytes, delim: Byte): Outcome<(Word, Word, Word)> {
    var parts := Split(s, delim);
    if |parts| != 3 then Thrown(InvalidFormat)
    else
      match (Stoi(parts[0]), Stoi(parts[1]), Stoi(parts[2]))
      case (Ok(a), Ok(b), Ok(c)) => Ok((ToWord(a), ToWord(b), ToWord(c)))
      case (Thrown(e), _, _) => Thrown(e)
      case (_, Thrown(e), _) => Thrown(e)
      case (_, _, Thrown(e)) => Thrown(e)
  }

  /** The time without its zone, the character that begins the zone, and what follows that. */
  datatype Zoned = Zoned(time: Bytes, zoneChar: Option<Byte>, zone: Bytes)

  function CutZone(time: Bytes): Zoned {
    var west, east := Split(time, HYPHEN), Split(time, PLUS);
    if |west| == 2 then Zoned(west[0], Some(HYPHEN), west[1])
    else if |east| == 2 then Zoned(east[0], Some(PLUS), east[1])
    else if time != [] && time[|time| - 1] in {CAPITAL_Z, SMALL_Z} then Zoned(time[..|time| - 1], Some(CAPITAL_Z), [])
    else Zoned(time, None, [])
  }

  /** The hours and minutes of a zone, and whether the time is local. */
  function ZoneOffset(z: Zoned): Outcome<(int, Word, TimeKind)> {
    match z.zoneChar
    case None => Ok((0, 0, LocalTime))
    case Some(c) =>
      if c == CAPITAL_Z then Ok((0, 0, UtcTime))
      else
        var parts := Split(z.zone, COLON);
        if |parts| != 2 then Thrown(InvalidFormat)
        else
          match (Stoi(parts[0]), Stoi(parts[1]))
          case (Ok(h), Ok(m)) => Ok((ToShort(ToShort(h) * if c == HYPHEN then -1 else 1), ToWord(m), UtcTime))
          case (Thrown(e), _) => Thrown(e)
          case (_, Thrown(e)) => Thrown(e)
  }

  function Parsed(s: Bytes): Outcome<ISO8601DateTime> {
    var tokens := Split(s, LETTER_T);
    if |tokens| != 2 then Thrown(InvalidFormat)
    else
      match ThreeNumbers(tokens[0], HYPHEN)
      case Thrown(e) => Thrown(e)
      case Ok((year, month, day)) =>
        var zoned := CutZone(tokens[1]);
        match ThreeNumbers(zoned.time, COLON)
        case Thrown(e) => Thrown(e)
        case Ok((hour, minute, second)) =>
          match ZoneOffset(zoned)
          case Thrown(e) => Thrown(e)
          case Ok((zoneHour, zoneMinute, kind)) =>
            Ok(ISO8601DateTime(year, month, day, hour, minute, second, 0, zoneHour, zoneMinute, kind))
  }

  method ISO8601DateTimeFromString(dateTimeString: Bytes) returns (o: Outcome<ISO8601DateTime>)
    ensures o == Parsed(dateTimeString)
  {
    hide Split, Stoi;
    var tokens := SplitString.SplitString(dateTimeString, LETTER_T, []);
    if |tokens| != 2 {
      return Thrown(InvalidFormat);
    }
    var dateComponents := SplitString.SplitString(tokens[0], HYPHEN, []);
    if |dateComponents| != 3 {
      return Thrown(InvalidFormat);
    }
    var year, month, day := Stoi(dateComponents[0]), Stoi(dateComponents[1]), Stoi(dateComponents[2]);
    if year.Thrown? { return Thrown(year.error); }
    if month.Thrown? { return Thrown(month.error); }
    if day.Thrown? { return Thrown(day.error); }

    var timeString, zoneString, zoneChar: Option<Byte> := tokens[1], [], None;
    var timeComponents := SplitString.SplitString(timeString, HYPHEN, []);
    if |timeComponents| == 2 {
      timeString, zoneChar, zoneString := timeComponents[0], Some(HYPHEN), timeComponents[1];
    } else {
      timeComponents := SplitString.SplitString(timeString, PLUS, []);
      if |timeComponents| == 2 {
        timeString, zoneChar, zoneString := timeComponents[0], Some(PLUS), timeComponents[1];
      } else if |timeString| > 0 && timeString[|timeString| - 1] in {CAPITAL_Z, SMALL_Z} {
        timeString, zoneChar := timeString[..|timeString| - 1], Some(CAPITAL_Z);
      }
    }
    assert Zoned(timeString, zoneChar, zoneString) == CutZone(tokens[1]);

    timeComponents := SplitString.SplitString(timeString, COLON, []);
    if |timeComponents| != 3 {
      return Thrown(InvalidFormat);
    }
    var hour, minute, second := Stoi(timeComponents[0]), Stoi(timeComponents[1]), Stoi(timeComponents[2]);
    if hour.Thrown? { return Thrown(hour.error); }
    if minute.Thrown? { return Thrown(minute.error); }
    if second.Thrown? { return Thrown(second.error); }
    var dateTime := ISO8601DateTime(ToWord(year.value), ToWord(month.value), ToWord(day.value), ToWord(hour.value),
                                    ToWord(minute.value), ToWord(second.value), 0, 0, 0, LocalTime);
    if zoneChar == Some(CAPITAL_Z) {
      dateTime := dateTime.(timeKind := UtcTime);
    } else if zoneChar.Some? {
      timeComponents := SplitString.SplitString(zoneString, COLON, []);
      if |timeComponents| != 2 {
        return Thrown(InvalidFormat);
      }
      var zoneHour, zoneMinute := Stoi(timeComponents[0]), Stoi(timeComponents[1]);
      if zoneHour.Thrown? { return Thrown(zoneHour.error); }
      if zoneMinute.Thrown? { return Thrown(zoneMinute.error); }
      dateTime := dateTime.(zoneHour := ToShort(ToShort(zoneHour.value) * if zoneChar.value == HYPHEN then -1 else 1),
                            zoneMinute := ToWord(zoneMinute.value), timeKind := UtcTime);
    }
    o := Ok(dateTime);
  }

  function LocalSystemTime(o: Outcome<ISO8601DateTime>): Outcome<SystemTime> {
    match o
    case Thrown(e) => Thrown(e)
    case Ok(d) =>
      if d.timeKind == UtcTime then Thrown(InvalidTimeKind)
      else Ok(SystemTime(d.year, d.month, 0, d.day, d.hour, d.minute, d.second, d.milliseconds))
  }

  method SystemTimeFromISO8601(dateTimeString: Bytes) returns (o: Outcome<SystemTime>)
    ensures o == LocalSystemTime(Parsed(dateTimeString))
  {
    hide Parsed;
    var dateTime := ISO8601DateTimeFromString(dateTimeString);
    if dateTime.Thrown? {
      return Thrown(dateTime.error);
    }
    var d := dateTime.value;
    if d.timeKind == UtcTime {
      return Thrown(InvalidTimeKind);
    }
    o := Ok(SystemTime(d.year, d.month, 0, d.day, d.hour, d.minute, d.second, d.milliseconds));
  }

  // ---- printed times read back

  lemma SplitsInTwo(a: Bytes, b: Bytes, delim: Byte)
    requires delim !in a && delim !in b && b != []
    ensures Split(a + [delim] + b, delim) == [a, b]
  {
    hide Split;
    SplitHead(a, delim, b);
    SplitWhole(b, delim);
  }

  /** Three printed numbers between delimiters. */
  function Joined(a: Word, width: nat, b: Word, c: Word, delim: Byte): Bytes {
    Padded(a, width) + [delim] + Padded(b, 2) + [delim] + Padded(c, 2)
  }

  lemma JoinedReadsBack(a: Word, width: nat, b: Word, c: Word, delim: Byte)
    requires !IsDigit(delim)
    ensures ThreeNumbers(Joined(a, width, b, c, delim), delim) == Ok((a, b, c))
    ensures forall x :: x in Joined(a, width, b, c, delim) ==> IsDigit(x) || x == delim
    ensures Joined(a, width, b, c, delim) != []
  {
    hide Split, Padded, Stoi, ToWord;
    var x, y, z := Padded(a, width), Padded(b, 2), Padded(c, 2);
    Regroup(x + [delim], y, [delim], z);
    SplitHead(x, delim, y + [delim] + z);
    SplitsInTwo(y, z, delim);
    PaddedReadsBack(a, width);
    PaddedReadsBack(b, 2);
    PaddedReadsBack(c, 2);
  }

  /** How a text ends: without a zone, with Z or z, or with an offset. */
  datatype Suffix = NoSuffix | Zulu(letter: Byte) | Offset(sign: Byte, hours: Word, minutes: Word) {
    predicate Valid() {
      match this
      case NoSuffix => true
      case Zulu(c) => c == CAPITAL_Z || c == SMALL_Z
      case Offset(c, _, _) => c == PLUS || c == HYPHEN
    }

    function Text(): Bytes {
      match this
      case NoSuffix => []
      case Zulu(c) => [c]
      case Offset(c, h, m) => [c] + (Padded(h, 2) + [COLON] + Padded(m, 2))
    }

    /** The offset denoted, in the 16-bit signed field it is kept in. */
    function Meaning(): (int, Word, TimeKind) {
      match this
      case NoSuffix => (0, 0, LocalTime)
      case Zulu(_) => (0, 0, UtcTime)
      case Offset(c, h, m) => (ToShort(if c == HYPHEN then -ToShort(h) else ToShort(h)), m, UtcTime)
    }
  }

  predicate DigitsAndColons(time: Bytes) {
    forall x :: x in time ==> IsDigit(x) || x == COLON
  }

  lemma OffsetReadsBack(h: Word, m: Word)
    ensures var zone := Padded(h, 2) + [COLON] + Padded(m, 2);
      DigitsAndColons(zone) && zone != [] && Split(zone, COLON) == [Padded(h, 2), Padded(m, 2)]
  {
    hide Split, Padded;
    SplitsInTwo(Padded(h, 2), Padded(m, 2), COLON);
  }

  /** The zone is cut off where it begins and means what it says. */
  lemma SuffixReadsBack(time: Bytes, suffix: Suffix)
    requires DigitsAndColons(time) && time != [] && suffix.Valid()
    ensures var z := CutZone(time + suffix.Text());
      z.time == time && ZoneOffset(z) == Ok(suffix.Meaning())
  {
    hide Split, Padded, Stoi;
    match suffix {
      case NoSuffix =>
        assert time + [] == time;
        assert time[|time| - 1] in time;
        SplitWhole(time, HYPHEN);
        SplitWhole(time, PLUS);
      case Zulu(c) =>
        SplitWhole(time + [c], HYPHEN);
        SplitWhole(time + [c], PLUS);
      case Offset(c, h, m) =>
        var zone := Padded(h, 2) + [COLON] + Padded(m, 2);
        assert time + suffix.Text() == time + [c] + zone;
        OffsetReadsBack(h, m);
        PaddedReadsBack(h, 2);
        PaddedReadsBack(m, 2);
        SplitsInTwo(time, zone, c);
        if c == PLUS { SplitWhole(time + [c] + zone, HYPHEN); }
    }
  }

  function FieldsOf(t: SystemTime, suffix: Suffix): ISO8601DateTime
    requires suffix.Valid()
  {
    var (zoneHour, zoneMinute, kind) := suffix.Meaning();
    ISO8601DateTime(t.wYear, t.wMonth, t.wDay, t.wHour, t.wMinute, t.wSecond, 0, zoneHour, zoneMinute, kind)
  }

  /** For all 16-bit fields and every zone, the text that is printed, with the zone after it, reads back as those
      fields and that zone. */
  lemma PrintedTimesReadBack(t: SystemTime, suffix: Suffix)
    requires suffix.Valid()
    ensures Parsed(ISO8601FromSystemTime(t) + suffix.Text()) == Ok(FieldsOf(t, suffix))
  {
    hide Split, Padded, CutZone, ZoneOffset, Joined, ThreeNumbers, Stoi, Parsed;
    var date, time := Joined(t.wYear, 4, t.wMonth, t.wDay, HYPHEN), Joined(t.wHour, 2, t.wMinute, t.wSecond, COLON);
    JoinedReadsBack(t.wYear, 4, t.wMonth, t.wDay, HYPHEN);
    JoinedReadsBack(t.wHour, 2, t.wMinute, t.wSecond, COLON);
    PrintsDateAndTime(t);
    Assoc(date + [LETTER_T], time, suffix.Text());
    NoLetterT(time, suffix);
    SplitsInTwo(date, time + suffix.Text(), LETTER_T);
    SuffixReadsBack(time, suffix);
    ParsedIs(date + [LETTER_T] + (time + suffix.Text()), date, time + suffix.Text());
  }

  lemma PrintsDateAndTime(t: SystemTime)
    ensures ISO8601FromSystemTime(t) ==
      Joined(t.wYear, 4, t.wMonth, t.wDay, HYPHEN) + [LETTER_T] + Joined(t.wHour, 2, t.wMinute, t.wSecond, COLON)
  {
    hide Padded;
  }

  lemma NoLetterT(time: Bytes, suffix: Suffix)
    requires DigitsAndColons(time) && suffix.Valid()
    ensures LETTER_T !in time + suffix.Text()
  {
    hide Padded, Split;
    if suffix.Offset? { OffsetReadsBack(suffix.hours, suffix.minutes); }
  }

  lemma ParsedIs(s: Bytes, date: Bytes, rest: Bytes)
    requires Split(s, LETTER_T) == [date, rest]
    requires ThreeNumbers(date, HYPHEN).Ok?
    requires ThreeNumbers(CutZone(rest).time, COLON).Ok? && ZoneOffset(CutZone(rest)).Ok?
    ensures var (d, t, z) :=
        (ThreeNumbers(date, HYPHEN).value, ThreeNumbers(CutZone(rest).time, COLON).value,
         ZoneOffset(CutZone(rest)).value);
      Parsed(s) == Ok(ISO8601DateTime(d.0, d.1, d.2, t.0, t.1, t.2, 0, z.0, z.1, z.2))
  {
    hide Split, CutZone, ZoneOffset, ThreeNumbers;
  }

  /** Reading what was printed restores year to second; milliseconds and the day of the week become zero.  With a zone
      it is refused. */
  lemma SystemTimesRoundTrip(t: SystemTime, suffix: Suffix)
    requires suffix.Valid()
    ensures LocalSystemTime(Parsed(ISO8601FromSystemTime(t) + suffix.Text())) ==
      if suffix.NoSuffix? then Ok(t.(wMilliseconds := 0, wDayOfWeek := 0)) else Thrown(InvalidTimeKind)
  {
    hide Parsed, ISO8601FromSystemTime;
    PrintedTimesReadBack(t, suffix);
  }
}
