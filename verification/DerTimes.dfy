/**
 UTCTime and GeneralizedTime values: the parsers of pki/parse_values.cc and the encoders of
 pki/encode_values.cc (section 4.1.2.5 of RFC 5280).
 */
module DerTimes {
  import opened Wrappers
  import opened Der
  import opened ByteReader
  import opened InputOrder

  type uint16 = x: int | 0 <= x < 65536

  datatype Time = Time(year: uint16, month: byte, day: byte, hours: byte, minutes: byte, seconds: byte)

  const UTC_TIME_LENGTH := 13
  const GENERALIZED_TIME_LENGTH := 15
  const ZULU: byte := 90

  // ---- Validity and order ----

  predicate IsLeapYear(year: nat) {
    year % 4 == 0 && (year % 100 != 0 || year % 400 == 0)
  }

  function DaysInMonth(year: nat, month: nat): nat
    requires 1 <= month <= 12
  {
    if month == 2 then (if IsLeapYear(year) then 29 else 28)
    else if month == 4 || month == 6 || month == 9 || month == 11 then 30
    else 31
  }

  /** A date and time of the Gregorian calendar; second 60 is a leap second. */
  ghost predicate IsValid(t: Time) {
    && 1 <= t.month <= 12
    && 1 <= t.day <= DaysInMonth(t.year, t.month)
    && t.hours <= 23 && t.minutes <= 59 && t.seconds <= 60
  }

  /** ValidateGeneralizedTime, whose switch over the month never reaches its abort. */
  predicate ValidateGeneralizedTime(t: Time)
    ensures ValidateGeneralizedTime(t) <==> IsValid(t)
  {
    if t.month < 1 || t.month > 12 then false
    else if t.day < 1 then false
    else if t.hours > 23 then false
    else if t.minutes > 59 then false
    else if t.seconds > 60 then false
    else
      match t.month
      case 4 => t.day <= 30
      case 6 => t.day <= 30
      case 9 => t.day <= 30
      case 11 => t.day <= 30
      case 2 =>
        if t.year % 4 == 0 && (t.year % 100 != 0 || t.year % 400 == 0) then t.day <= 29 else t.day <= 28
      case _ => t.day <= 31
  }

  predicate InUtcTimeRange(t: Time) {
    1950 <= t.year < 2050
  }

  /** operator< on GeneralizedTime: fields from the year down. */
  predicate Before(a: Time, b: Time) {
    if a.year != b.year then a.year < b.year
    else if a.month != b.month then a.month < b.month
    else if a.day != b.day then a.day < b.day
    else if a.hours != b.hours then a.hours < b.hours
    else if a.minutes != b.minutes then a.minutes < b.minutes
    else a.seconds < b.seconds
  }

  // ---- Digits ----

  function Digits2(v: nat): (s: Input)
    requires v < 100
    ensures |s| == 2
  {
    [48 + v / 10, 48 + v % 10]
  }

  function Digits4(v: nat): (s: Input)
    requires v < 10000
    ensures |s| == 4
  {
    Digits2(v / 100) + Digits2(v % 100)
  }

  predicate AllDigits(s: Input) {
    forall i :: 0 <= i < |s| ==> 48 <= s[i] <= 57
  }

  ghost function DecimalValue(s: Input): nat
    requires AllDigits(s)
  {
    if s == [] then 0 else 10 * DecimalValue(s[..|s| - 1]) + (s[|s| - 1] - 48)
  }

  ghost function Pow10(n: nat): nat {
    if n == 0 then 1 else 10 * Pow10(n - 1)
  }

  lemma {:induction false} DecimalBound(s: Input)
    requires AllDigits(s)
    ensures DecimalValue(s) < Pow10(|s|)
  {
    if s != [] {
      DecimalBound(s[..|s| - 1]);
    }
  }

  lemma DecimalOne(s: Input)
    requires |s| == 1 && AllDigits(s)
    ensures DecimalValue(s) == s[0] - 48
  {
    assert s[..0] == [];
  }

  lemma Decimal2(s: Input)
    requires |s| == 2 && AllDigits(s)
    ensures DecimalValue(s) == 10 * (s[0] - 48) + (s[1] - 48)
    ensures DecimalValue(s) < 100 && Digits2(DecimalValue(s)) == s
  {
    DecimalOne(s[..1]);
  }

  lemma DecimalSplits(s: Input)
    requires |s| == 4 && AllDigits(s)
    ensures DecimalValue(s) == 100 * DecimalValue(s[..2]) + DecimalValue(s[2..])
  {
    var hi, lo := s[..2], s[2..];
    Decimal2(lo);
    assert DecimalValue(s[..3]) == 10 * DecimalValue(hi) + (s[2] - 48) by {
      assert s[..3][..2] == hi;
    }
  }

  lemma Decimal4(s: Input)
    requires |s| == 4 && AllDigits(s)
    ensures DecimalValue(s) == 100 * DecimalValue(s[..2]) + DecimalValue(s[2..])
    ensures DecimalValue(s) < 10000 && Digits4(DecimalValue(s)) == s
  {
    var hi, lo := s[..2], s[2..];
    Decimal2(hi);
    Decimal2(lo);
    DecimalSplits(s);
    var h, l := DecimalValue(hi), DecimalValue(lo);
    assert (100 * h + l) / 100 == h && (100 * h + l) % 100 == l;
    assert s == hi + lo;
  }

  lemma DecimalOfDigits2(v: nat)
    requires v < 100
    ensures AllDigits(Digits2(v)) && DecimalValue(Digits2(v)) == v
  {
    Decimal2(Digits2(v));
  }

  lemma DecimalOfDigits4(v: nat)
    requires v < 10000
    ensures AllDigits(Digits4(v)) && DecimalValue(Digits4(v)) == v
  {
    DecimalOfDigits2(v / 100);
    DecimalOfDigits2(v % 100);
    Decimal4(Digits4(v));
    assert Digits4(v)[..2] == Digits2(v / 100) && Digits4(v)[2..] == Digits2(v % 100);
  }

  /**
   DecimalStringToUint into a type holding the integers below `limit`, which the caller must
   choose large enough for the digits.
   */
  method DecimalStringToUint(reader: ByteReader, digits: nat, limit: nat) returns (out: Option<nat>)
    requires Pow10(digits) <= limit
    modifies reader
    ensures out.Some? <==> |old(reader.data)| >= digits && AllDigits(old(reader.data)[..digits])
    ensures out.Some? ==>
              out.value == DecimalValue(old(reader.data)[..digits]) && reader.data == old(reader.data)[digits..]
  {
    ghost var input := reader.data;
    var value := 0;
    var i := 0;
    while i < digits
      invariant i <= digits && i <= |input| && AllDigits(input[..i])
      invariant reader.data == input[i..]
      invariant value == DecimalValue(input[..i])
    {
      var ok, digit := reader.ReadByte();
      if !ok {
        return None;
      }
      assert input[i..] == [digit] + reader.data;
      assert input[i] == digit && reader.data == input[i + 1..];
      if digit < 48 || digit > 57 {
        BadDigit(input, i, digits);
        return None;
      }
      NextDigit(input, i, digits);
      var next := value * 10 + (digit - 48);
      value := Truncate(next, limit);
      i := i + 1;
    }
    return Some(value);
  }

  /** The conversion of an integer to an unsigned type with `limit` values. */
  function Truncate(v: nat, limit: nat): (r: nat)
    requires limit > 0
    ensures v < limit ==> r == v
  {
    v % limit
  }

  lemma BadDigit(s: Input, i: nat, digits: nat)
    requires i < |s| && i < digits && !(48 <= s[i] <= 57)
    ensures digits <= |s| ==> !AllDigits(s[..digits])
  {
    assert digits <= |s| ==> s[..digits][i] == s[i];
  }

  lemma NextDigit(s: Input, i: nat, digits: nat)
    requires i < |s| && i < digits && AllDigits(s[..i]) && 48 <= s[i] <= 57
    ensures AllDigits(s[..i + 1])
    ensures DecimalValue(s[..i + 1]) == 10 * DecimalValue(s[..i]) + (s[i] - 48)
    ensures DecimalValue(s[..i + 1]) < Pow10(digits)
  {
    assert s[..i + 1] == s[..i] + [s[i]];
    assert s[..i + 1][..i] == s[..i];
    DecimalBound(s[..i + 1]);
    Pow10Grows(i + 1, digits);
  }

  lemma {:induction false} Pow10Grows(m: nat, n: nat)
    requires m <= n
    ensures Pow10(m) <= Pow10(n)
  {
    if m < n {
      Pow10Grows(m, n - 1);
    }
  }

  // ---- Encodings ----

  ghost function DateAndTime(t: Time): Input
    requires FieldsFit(t)
  {
    Digits2(t.month) + (Digits2(t.day) + (Digits2(t.hours) + (Digits2(t.minutes) + (Digits2(t.seconds) + [ZULU]))))
  }

  /** The fields after the year fit two digits. */
  ghost predicate FieldsFit(t: Time) {
    t.month < 100 && t.day < 100 && t.hours < 100 && t.minutes < 100 && t.seconds < 100
  }

  /** YYYYMMDDHHMMSSZ. */
  ghost function GeneralizedBytes(t: Time): Input
    requires t.year < 10000 && FieldsFit(t)
  {
    Digits4(t.year) + DateAndTime(t)
  }

  /** YYMMDDHHMMSSZ. */
  ghost function UtcBytes(t: Time): Input
    requires InUtcTimeRange(t) && FieldsFit(t)
  {
    Digits2(t.year % 100) + DateAndTime(t)
  }

  lemma DateAndTimeIs(t: Time)
    requires FieldsFit(t)
    ensures DateAndTime(t) ==
            [48 + t.month / 10, 48 + t.month % 10, 48 + t.day / 10, 48 + t.day % 10,
             48 + t.hours / 10, 48 + t.hours % 10, 48 + t.minutes / 10, 48 + t.minutes % 10,
             48 + t.seconds / 10, 48 + t.seconds % 10, ZULU]
  {
  }

  /** WriteTwoDigit, at an offset of the caller's buffer. */
  method WriteTwoDigit(value: byte, out: array<byte>, at: nat) returns (ok: bool)
    requires at + 2 <= out.Length
    modifies out
    ensures ok <==> value < 100
    ensures ok ==> out[at] == 48 + value / 10 && out[at + 1] == 48 + value % 10
    ensures forall i :: 0 <= i < out.Length && i != at && i != at + 1 ==> out[i] == old(out[i])
  {
    if value >= 100 {
      return false;
    }
    out[at] := 48 + value / 10;
    out[at + 1] := 48 + value % 10;
    return true;
  }

  /** The digits that repeated division by ten gives. */
  lemma DigitsByDivision(v: nat)
    requires v < 10000
    ensures Digits4(v) == [48 + v / 10 / 10 / 10, 48 + v / 10 / 10 % 10, 48 + v / 10 % 10, 48 + v % 10]
  {
    var a, b := v / 100, v % 100;
    assert v / 10 == 10 * a + b / 10 && v % 10 == b % 10;
    assert v / 10 / 10 == a && v / 10 % 10 == b / 10;
  }

  /** WriteFourDigit, at the start of the caller's buffer, dividing the value down. */
  method WriteFourDigit(value: uint16, out: array<byte>) returns (ok: bool)
    requires 4 <= out.Length
    modifies out
    ensures ok <==> value < 10000
    ensures ok ==> out[..4] == Digits4(value)
  {
    if value >= 10000 {
      return false;
    }
    var v: nat := value;
    DigitsByDivision(v);
    out[3] := 48 + v % 10;
    v := v / 10;
    out[2] := 48 + v % 10;
    v := v / 10;
    out[1] := 48 + v % 10;
    v := v / 10;
    out[0] := 48 + v;
    return true;
  }

  /** The part the two encoders share: the five fields after the year, and the 'Z'. */
  method WriteDateAndTime(t: Time, out: array<byte>, at: nat) returns (ok: bool)
    requires out.Length == at + 11
    modifies out
    ensures ok <==> FieldsFit(t)
    ensures out[..at] == old(out[..at]) && (ok ==> out[at..] == DateAndTime(t))
  {
    ok := WriteTwoDigit(t.month, out, at);
    if !ok {
      return;
    }
    ok := WriteTwoDigit(t.day, out, at + 2);
    if !ok {
      return;
    }
    ok := WriteTwoDigit(t.hours, out, at + 4);
    if !ok {
      return;
    }
    ok := WriteTwoDigit(t.minutes, out, at + 6);
    if !ok {
      return;
    }
    ok := WriteTwoDigit(t.seconds, out, at + 8);
    if !ok {
      return;
    }
    out[at + 10] := ZULU;
    DateAndTimeIs(t);
  }

  /** EncodeGeneralizedTime fills the buffer exactly for the times that fit. */
  method EncodeGeneralizedTime(t: Time, out: array<byte>) returns (ok: bool)
    requires out.Length == GENERALIZED_TIME_LENGTH
    modifies out
    ensures ok <==> t.year < 10000 && FieldsFit(t)
    ensures ok ==> out[..] == GeneralizedBytes(t)
  {
    ok := WriteFourDigit(t.year, out);
    if !ok {
      return;
    }
    ok := WriteDateAndTime(t, out, 4);
    assert out[..] == out[..4] + out[4..];
  }

  lemma CenturyIsDropped(year: nat, short: nat)
    requires 1950 <= year < 2050 && short == if year >= 2000 then year - 2000 else year - 1900
    ensures short == year % 100
  {
  }

  /** EncodeUTCTime, which drops the century of a year from 1950 to 2049. */
  method EncodeUtcTime(t: Time, out: array<byte>) returns (ok: bool)
    requires out.Length == UTC_TIME_LENGTH
    modifies out
    ensures ok <==> InUtcTimeRange(t) && FieldsFit(t)
    ensures ok ==> out[..] == UtcBytes(t)
  {
    if !InUtcTimeRange(t) {
      return false;
    }
    var year := t.year - 1900;
    if year >= 100 {
      year := year - 100;
    }
    ok := WriteTwoDigit(year, out, 0);
    if !ok {
      return;
    }
    CenturyIsDropped(t.year, year);
    assert out[..2] == Digits2(t.year % 100);
    ok := WriteDateAndTime(t, out, 2);
    assert out[..] == out[..2] + out[2..];
  }

  // ---- Parsing ----

  /** A year of y digits, ten more digits, and 'Z'. */
  ghost predicate HasShape(s: Input, y: nat) {
    |s| == y + 11 && AllDigits(s[..y + 10]) && s[y + 10] == ZULU
  }

  ghost predicate FieldIs(s: Input, at: nat, v: nat) {
    at + 2 <= |s| && v < 100 && s[at..at + 2] == Digits2(v)
  }

  /** The fields after the year are those of t. */
  ghost predicate FieldsAre(s: Input, y: nat, t: Time) {
    && FieldIs(s, y, t.month) && FieldIs(s, y + 2, t.day) && FieldIs(s, y + 4, t.hours)
    && FieldIs(s, y + 6, t.minutes) && FieldIs(s, y + 8, t.seconds)
  }

  lemma FieldBytes(s: Input, at: nat, v: nat)
    requires FieldIs(s, at, v)
    ensures s[at] == 48 + v / 10 && s[at + 1] == 48 + v % 10
  {
    assert s[at..at + 2][0] == s[at] && s[at..at + 2][1] == s[at + 1];
  }

  lemma FieldsGiveBytes(s: Input, y: nat, t: Time)
    requires HasShape(s, y) && FieldsAre(s, y, t)
    ensures FieldsFit(t) && s[y..] == DateAndTime(t)
  {
    DateAndTimeIs(t);
    FieldBytes(s, y, t.month);
    FieldBytes(s, y + 2, t.day);
    FieldBytes(s, y + 4, t.hours);
    FieldBytes(s, y + 6, t.minutes);
    FieldBytes(s, y + 8, t.seconds);
  }

  lemma FieldsAreUnique(s: Input, y: nat, t: Time, u: Time)
    requires FieldsAre(s, y, t) && FieldsAre(s, y, u) && t.year == u.year
    ensures t == u
  {
    DecimalOfDigits2(t.month);
    DecimalOfDigits2(u.month);
    DecimalOfDigits2(t.day);
    DecimalOfDigits2(u.day);
    DecimalOfDigits2(t.hours);
    DecimalOfDigits2(u.hours);
    DecimalOfDigits2(t.minutes);
    DecimalOfDigits2(u.minutes);
    DecimalOfDigits2(t.seconds);
    DecimalOfDigits2(u.seconds);
  }

  /** A prefix of digits followed by an encoded date and time has the shape, and the fields of t. */
  lemma EncodedShape(year: Input, t: Time)
    requires AllDigits(year) && FieldsFit(t)
    ensures HasShape(year + DateAndTime(t), |year|) && FieldsAre(year + DateAndTime(t), |year|, t)
  {
    var s := year + DateAndTime(t);
    DateAndTimeIs(t);
    assert s[..|year|] == year;
  }

  /** The reading part the two parsers share: the year as written, the other fields, 'Z', no more. */
  method ParseFields(input: Input, y: nat) returns (out: Option<Time>)
    requires y == 2 || y == 4
    ensures out.Some? <==> HasShape(input, y)
    ensures out.Some? ==> FieldsAre(input, y, out.value) && out.value.year == DecimalValue(input[..y])
  {
    Pow10Values();
    var reader := new ByteReader(input);
    var year := DecimalStringToUint(reader, y, 65536);
    if year.None? {
      ShapeHasDigits(input, 0, y, y);
      return None;
    }
    DecimalBound(input[..y]);
    var month := ReadField(reader, input, y, y);
    if month.None? {
      return None;
    }
    var day := ReadField(reader, input, y + 2, y);
    if day.None? {
      return None;
    }
    var hours := ReadField(reader, input, y + 4, y);
    if hours.None? {
      return None;
    }
    var minutes := ReadField(reader, input, y + 6, y);
    if minutes.None? {
      return None;
    }
    var seconds := ReadField(reader, input, y + 8, y);
    if seconds.None? {
      return None;
    }
    var ok, zulu := reader.ReadByte();
    if !ok || zulu != ZULU || reader.HasMore() {
      return None;
    }
    assert |input| == y + 11 && input[y + 10] == ZULU;
    DigitsOfFields(input, y, month.value, day.value, hours.value, minutes.value, seconds.value);
    var t := Time(year.value, month.value, day.value, hours.value, minutes.value, seconds.value);
    return Some(t);
  }

  lemma Pow10Values()
    ensures Pow10(2) == 100 && Pow10(4) == 10000
  {
    assert Pow10(2) == 100;
  }

  lemma ShapeHasDigits(s: Input, at: nat, n: nat, y: nat)
    requires at + n <= y + 10
    ensures HasShape(s, y) ==> at + n <= |s| && AllDigits(s[at..at + n])
  {
    if HasShape(s, y) {
      assert s[at..at + n] == s[..y + 10][at..at + n];
    }
  }

  /** Reads one two-digit field into a uint8_t. */
  method ReadField(reader: ByteReader, ghost input: Input, ghost at: nat, ghost y: nat) returns (out: Option<byte>)
    requires at <= |input| && at + 2 <= y + 10 && reader.data == input[at..]
    modifies reader
    ensures out.Some? ==> FieldIs(input, at, out.value) && reader.data == input[at + 2..]
    ensures out.Some? ==> AllDigits(input[at..at + 2])
    ensures out.None? ==> !HasShape(input, y)
  {
    Pow10Values();
    var v := DecimalStringToUint(reader, 2, 256);
    assert at + 2 <= |input| ==> input[at..][..2] == input[at..at + 2];
    if v.None? {
      ShapeHasDigits(input, at, 2, y);
      return None;
    }
    Decimal2(input[at..at + 2]);
    return Some(v.value);
  }

  lemma DigitsOfFields(s: Input, y: nat, month: nat, day: nat, hours: nat, minutes: nat, seconds: nat)
    requires |s| == y + 11 && AllDigits(s[..y])
    requires FieldIs(s, y, month) && FieldIs(s, y + 2, day) && FieldIs(s, y + 4, hours)
    requires FieldIs(s, y + 6, minutes) && FieldIs(s, y + 8, seconds)
    ensures AllDigits(s[..y + 10])
  {
    FieldBytes(s, y, month);
    FieldBytes(s, y + 2, day);
    FieldBytes(s, y + 4, hours);
    FieldBytes(s, y + 6, minutes);
    FieldBytes(s, y + 8, seconds);
    assert forall i :: 0 <= i < y ==> s[i] == s[..y][i];
  }

  /** ParseGeneralizedTime accepts exactly the encodings of valid times, and returns that time. */
  method ParseGeneralizedTime(input: Input) returns (out: Option<Time>)
    ensures out.Some? ==> IsValid(out.value) && out.value.year < 10000 && input == GeneralizedBytes(out.value)
    ensures out.None? ==> forall t: Time | IsValid(t) && t.year < 10000 :: input != GeneralizedBytes(t)
  {
    out := ParseFields(input, 4);
    if out.Some? {
      Decimal4(input[..4]);
      FieldsGiveBytes(input, 4, out.value);
      assert input == input[..4] + input[4..];
    }
    forall t: Time | IsValid(t) && t.year < 10000 && input == GeneralizedBytes(t)
      ensures out == Some(t)
    {
      DecimalOfDigits4(t.year);
      EncodedShape(Digits4(t.year), t);
      assert input[..4] == Digits4(t.year);
      FieldsAreUnique(input, 4, t, out.value);
    }
    if out.Some? && !ValidateGeneralizedTime(out.value) {
      return None;
    }
  }

  /** The full year of a two-digit one. */
  function WithCentury(t: Time): Time
    requires t.year < 100
  {
    t.(year := if t.year < 50 then t.year + 2000 else t.year + 1900)
  }

  lemma UtcAssembles(s: Input, raw: Time)
    requires HasShape(s, 2) && FieldsAre(s, 2, raw) && raw.year == DecimalValue(s[..2])
    ensures raw.year < 100 && InUtcTimeRange(WithCentury(raw)) && FieldsFit(raw)
    ensures s == UtcBytes(WithCentury(raw))
  {
    Decimal2(s[..2]);
    FieldsGiveBytes(s, 2, raw);
    assert s == s[..2] + s[2..];
    assert WithCentury(raw).year % 100 == raw.year;
  }

  lemma UtcShape(t: Time)
    requires InUtcTimeRange(t) && FieldsFit(t)
    ensures HasShape(UtcBytes(t), 2) && FieldsAre(UtcBytes(t), 2, t)
    ensures DecimalValue(UtcBytes(t)[..2]) == t.year % 100
  {
    DecimalOfDigits2(t.year % 100);
    EncodedShape(Digits2(t.year % 100), t);
    assert UtcBytes(t)[..2] == Digits2(t.year % 100);
  }

  lemma UtcIsUnique(s: Input, raw: Time, t: Time)
    requires InUtcTimeRange(t) && FieldsFit(t) && s == UtcBytes(t)
    requires HasShape(s, 2) && FieldsAre(s, 2, raw) && raw.year == DecimalValue(s[..2])
    ensures raw.year < 100 && t == WithCentury(raw)
  {
    UtcShape(t);
    FieldsAreUnique(s, 2, t, raw.(year := t.year));
  }

  /** ParseUTCTime accepts exactly the encodings of valid times from 1950 to 2049. */
  method ParseUtcTime(input: Input) returns (out: Option<Time>)
    ensures out.Some? ==> IsValid(out.value) && InUtcTimeRange(out.value) && input == UtcBytes(out.value)
    ensures out.None? ==> forall t: Time | IsValid(t) && InUtcTimeRange(t) :: input != UtcBytes(t)
  {
    var raw := ParseFields(input, 2);
    forall t: Time | IsValid(t) && InUtcTimeRange(t) && input == UtcBytes(t)
      ensures raw.Some? && raw.value.year < 100 && t == WithCentury(raw.value)
    {
      UtcShape(t);
      UtcIsUnique(input, raw.value, t);
    }
    if raw.None? {
      return None;
    }
    UtcAssembles(input, raw.value);
    var t := raw.value;
    if t.year < 50 {
      t := t.(year := t.year + 2000);
    } else {
      t := t.(year := t.year + 1900);
    }
    if !ValidateGeneralizedTime(t) {
      return None;
    }
    return Some(t);
  }

  // ---- An encoding determines its time ----

  /** With the parser's contract: parsing what was encoded gives the same time back. */
  lemma GeneralizedIsInjective(t: Time, u: Time)
    requires t.year < 10000 && u.year < 10000 && FieldsFit(t) && FieldsFit(u)
    requires GeneralizedBytes(t) == GeneralizedBytes(u)
    ensures t == u
  {
    DecimalOfDigits4(t.year);
    DecimalOfDigits4(u.year);
    EncodedShape(Digits4(t.year), t);
    EncodedShape(Digits4(u.year), u);
    assert GeneralizedBytes(t)[..4] == Digits4(t.year) && GeneralizedBytes(u)[..4] == Digits4(u.year);
    FieldsAreUnique(GeneralizedBytes(t), 4, t, u);
  }

  lemma UtcIsInjective(t: Time, u: Time)
    requires InUtcTimeRange(t) && InUtcTimeRange(u) && FieldsFit(t) && FieldsFit(u) && UtcBytes(t) == UtcBytes(u)
    ensures t == u
  {
    var s := UtcBytes(t);
    UtcShape(t);
    UtcShape(u);
    assert t.year % 100 == u.year % 100;
    SameCentury(t.year, u.year);
    FieldsAreUnique(s, 2, t, u);
  }

  lemma SameCentury(a: nat, b: nat)
    requires 1950 <= a < 2050 && 1950 <= b < 2050 && a % 100 == b % 100
    ensures a == b
  {
  }

  // ---- Byte order is time order ----

  lemma Digits2Order(v: nat, w: nat)
    requires v < 100 && w < 100
    ensures Less(Digits2(v), Digits2(w)) <==> v < w
    ensures Digits2(v) == Digits2(w) <==> v == w
  {
    DecimalOfDigits2(v);
    DecimalOfDigits2(w);
    var a, b := Digits2(v), Digits2(w);
    assert Less(a[1..], b[1..]) <==> a[1] < b[1];
  }

  lemma Digits4Order(v: nat, w: nat)
    requires v < 10000 && w < 10000
    ensures Less(Digits4(v), Digits4(w)) <==> v < w
    ensures Digits4(v) == Digits4(w) <==> v == w
  {
    LessOfBlocks(Digits2(v / 100), Digits2(v % 100), Digits2(w / 100), Digits2(w % 100));
    Digits2Order(v / 100, w / 100);
    Digits2Order(v % 100, w % 100);
    DecimalOfDigits4(v);
    DecimalOfDigits4(w);
  }

  /** A two-digit field followed by the rest, compared. */
  lemma FieldOrder(v: nat, rest: Input, w: nat, rest': Input)
    requires v < 100 && w < 100
    ensures Less(Digits2(v) + rest, Digits2(w) + rest') <==> v < w || (v == w && Less(rest, rest'))
  {
    LessOfBlocks(Digits2(v), rest, Digits2(w), rest');
    Digits2Order(v, w);
  }

  /** Sorting encoded times as bytes sorts the times. */
  lemma ByteOrderIsTimeOrder(a: Time, b: Time)
    requires a.year < 10000 && b.year < 10000 && FieldsFit(a) && FieldsFit(b)
    ensures Less(GeneralizedBytes(a), GeneralizedBytes(b)) <==> Before(a, b)
  {
    var aSec, bSec := Digits2(a.seconds) + [ZULU], Digits2(b.seconds) + [ZULU];
    var am, bm := Digits2(a.minutes) + aSec, Digits2(b.minutes) + bSec;
    var ah, bh := Digits2(a.hours) + am, Digits2(b.hours) + bm;
    var ad, bd := Digits2(a.day) + ah, Digits2(b.day) + bh;
    LessOfBlocks(Digits4(a.year), Digits2(a.month) + ad, Digits4(b.year), Digits2(b.month) + bd);
    Digits4Order(a.year, b.year);
    FieldOrder(a.month, ad, b.month, bd);
    FieldOrder(a.day, ah, b.day, bh);
    FieldOrder(a.hours, am, b.hours, bm);
    FieldOrder(a.minutes, aSec, b.minutes, bSec);
    FieldOrder(a.seconds, [ZULU], b.seconds, [ZULU]);
    LessIsTotal([ZULU], [ZULU]);
  }

  // ---- The encodings and the calendar, spelled out ----

  /** YYYYMMDDHHMMSSZ, character by character. */
  lemma GeneralizedBytesAre(t: Time)
    requires t.year < 10000 && FieldsFit(t)
    ensures GeneralizedBytes(t) ==
            [48 + t.year / 1000, 48 + t.year / 100 % 10, 48 + t.year / 10 % 10, 48 + t.year % 10,
             48 + t.month / 10, 48 + t.month % 10, 48 + t.day / 10, 48 + t.day % 10,
             48 + t.hours / 10, 48 + t.hours % 10, 48 + t.minutes / 10, 48 + t.minutes % 10,
             48 + t.seconds / 10, 48 + t.seconds % 10, 'Z' as int]
  {
    DateAndTimeIs(t);
    YearDigits(t.year);
  }

  lemma YearDigits(y: nat)
    requires y < 10000
    ensures Digits4(y) == [48 + y / 1000, 48 + y / 100 % 10, 48 + y / 10 % 10, 48 + y % 10]
  {
    DigitsByDivision(y);
    assert y / 10 / 10 == y / 100 && y / 10 / 10 / 10 == y / 1000;
  }

  /** YYMMDDHHMMSSZ: the last two digits of the year, then as above. */
  lemma UtcBytesAre(t: Time)
    requires 1950 <= t.year <= 2049 && FieldsFit(t)
    ensures UtcBytes(t) ==
            [48 + t.year / 10 % 10, 48 + t.year % 10,
             48 + t.month / 10, 48 + t.month % 10, 48 + t.day / 10, 48 + t.day % 10,
             48 + t.hours / 10, 48 + t.hours % 10, 48 + t.minutes / 10, 48 + t.minutes % 10,
             48 + t.seconds / 10, 48 + t.seconds % 10, 'Z' as int]
  {
    DateAndTimeIs(t);
    LastTwoDigits(t.year);
  }

  lemma LastTwoDigits(y: nat)
    ensures y % 100 / 10 == y / 10 % 10 && y % 100 % 10 == y % 10
  {
    var a, b := y / 100, y % 100;
    assert y / 10 == 10 * a + b / 10 && y % 10 == b % 10;
  }

  /** What makes a time valid: thirty days, thirty-one, and February. */
  lemma ValidInFields(t: Time)
    ensures IsValid(t) <==>
            && t.hours <= 23 && t.minutes <= 59 && t.seconds <= 60 && t.day >= 1
            && (|| (t.month in {1, 3, 5, 7, 8, 10, 12} && t.day <= 31)
                || (t.month in {4, 6, 9, 11} && t.day <= 30)
                || (t.month == 2 && t.day <= 28)
                || (t.month == 2 && t.day == 29 && (t.year % 400 == 0 || (t.year % 4 == 0 && t.year % 100 != 0))))
  {
  }

  /** Times are ordered by year, month, day, hour, minute and second, in this order. */
  lemma BeforeInFields(a: Time, b: Time)
    ensures Before(a, b) <==>
            Rank(a.year, a.month, a.day, a.hours, a.minutes, a.seconds)
            < Rank(b.year, b.month, b.day, b.hours, b.minutes, b.seconds)
  {
  }

  /** One number for a time, each field in its own digit to the base 256. */
  ghost function Rank(year: nat, month: nat, day: nat, hours: nat, minutes: nat, seconds: nat): nat {
    ((((year * 256 + month) * 256 + day) * 256 + hours) * 256 + minutes) * 256 + seconds
  }
}
