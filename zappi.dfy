/** src/zappi.rs: turning one raw per-minute sample into a reading, assembling
    a day of readings from the vendor's response, and shaping the write batch. */
module Zappi {
  import opened Outcomes
  import opened Calendar
  import opened Json
  import opened Util

  /** Why a run stops.  Each constructor stands for one `unwrap` that panics
      or one `?` that returns early in the collector. */
  datatype Failure =
    | MissingField(name: string)          // `data.get(name).unwrap()` on an absent member
    | InvalidTimestamp                    // `DateTime::parse_from_str(..).unwrap()`
    | NotAnInteger(name: string)          // `.as_i64().unwrap()` on a present value
    | Arithmetic(cause: ArithmeticPanic)  // a panic inside `joules_to_watts`
    | RequestFailed(reason: string)       // the HTTP request or body decoding (`?`)
    | MissingKey(key: string)             // `data.get("U" + serial).unwrap()`

  /** One normalised minute (`PerMinuteZappiData`). */
  datatype Reading = Reading(
    time: DateTime,
    importedWatts: I64,
    exportedWatts: I64,
    generatedWatts: I64,
    zappiWatts: I64,
    rate: Rate)

  // ---------------------------------------------------------------------
  // Calendar fields: serialise the JSON value, strip its quotes, and let
  // chrono read the text as a number of bounded width.
  // ---------------------------------------------------------------------

  predicate IsDigit(c: char) {
    '0' <= c <= '9'
  }

  predicate AllDigits(s: string) {
    forall i :: 0 <= i < |s| ==> IsDigit(s[i])
  }

  function Pow10(n: nat): (p: nat)
    ensures p >= 1
  {
    if n == 0 then 1 else 10 * Pow10(n - 1)
  }

  function DigitChar(d: nat): (c: char)
    requires d < 10
    ensures IsDigit(c)
  {
    (d + '0' as int) as char
  }

  /** The decimal numeral of a natural, as serde_json writes a number. */
  function Decimal(n: nat): (s: string)
    ensures 1 <= |s| && AllDigits(s)
  {
    if n < 10 then [DigitChar(n)] else Decimal(n / 10) + [DigitChar(n % 10)]
  }

  /** The value of a string of decimal digits. */
  function DigitsValue(s: string): nat
    requires AllDigits(s)
  {
    if s == [] then 0
    else 10 * DigitsValue(s[..|s| - 1]) + (s[|s| - 1] as int - '0' as int)
  }

  /** Reading a numeral back gives the number written. */
  lemma {:induction false} DecimalRoundTrip(n: nat)
    ensures DigitsValue(Decimal(n)) == n
  {
    if n >= 10 {
      DecimalRoundTrip(n / 10);
      var s := Decimal(n);
      assert s[..|s| - 1] == Decimal(n / 10);
    }
  }

  /** A numeral fits in `width` digits exactly when the number is below 10^width. */
  lemma {:induction false} DecimalWidth(n: nat, width: nat)
    requires width >= 1
    ensures |Decimal(n)| <= width <==> n < Pow10(width)
  {
    if n >= 10 && width >= 2 {
      DecimalWidth(n / 10, width - 1);
      assert n / 10 < Pow10(width - 1) <==> n < 10 * Pow10(width - 1);
    } else if n >= 10 {
      assert |Decimal(n)| == |Decimal(n / 10)| + 1;
    }
  }

  /** chrono's numeric item: one to `width` decimal digits. */
  function ParseNumeral(text: string, width: nat): (r: Option<nat>)
    ensures r.Some? <==> 1 <= |text| <= width && AllDigits(text)
    ensures r.Some? ==> r.value < Pow10(width)
  {
    if 1 <= |text| <= width && AllDigits(text) then
      DigitsValueBound(text);
      Pow10Monotone(|text|, width);
      Some(DigitsValue(text))
    else None
  }

  /** The number a calendar field stands for once serialised with its quotes
      stripped (`to_string().replace("\"", "")`) and read by chrono with at
      most `width` digits.  A JSON number serialises as its numeral, a JSON
      string as itself between quotes (an inner quote is escaped with a
      backslash, so the stripped text is all digits exactly when the string
      is); any other value serialises to text that is not a numeral. */
  function CalendarComponent(v: JsonValue, width: nat): (r: Option<nat>)
    ensures r.Some? ==> r.value < Pow10(width)
    ensures r.Some? ==> v.JInt? || v.JStr?
  {
    match v
    case JInt(n) => if n >= 0 then ParseNumeral(Decimal(n), width) else None
    case JStr(s) => ParseNumeral(s, width)
    case _ => None
  }

  /** A JSON number is read as itself when it has at most `width` digits. */
  lemma CalendarComponentOfNumber(n: nat, width: nat)
    requires width >= 1
    ensures CalendarComponent(JInt(n), width) == if n < Pow10(width) then Some(n) else None
  {
    DecimalWidth(n, width);
    DecimalRoundTrip(n);
  }

  lemma {:induction false} DigitsValueBound(s: string)
    requires AllDigits(s)
    ensures DigitsValue(s) < Pow10(|s|)
  {
    if s != [] {
      DigitsValueBound(s[..|s| - 1]);
    }
  }

  lemma {:induction false} Pow10Monotone(m: nat, n: nat)
    requires m <= n
    ensures Pow10(m) <= Pow10(n)
    decreases n
  {
    if m < n {
      Pow10Monotone(m, n - 1);
    }
  }

  /** The two spellings of a calendar field agree: a string of at most `width`
      digits, leading zeros included, reads as the JSON number it spells. */
  lemma CalendarStringAsNumber(s: string, width: nat)
    requires 1 <= |s| <= width && AllDigits(s)
    ensures CalendarComponent(JStr(s), width) == CalendarComponent(JInt(DigitsValue(s)), width)
    ensures CalendarComponent(JStr(s), width) == Some(DigitsValue(s))
  {
    DigitsValueBound(s);
    Pow10Monotone(|s|, width);
    CalendarComponentOfNumber(DigitsValue(s), width);
  }

  /** `DateTime::parse_from_str("{yr}-{mon}-{dom} {hr}:{min}:00 +0000",
      "%Y-%m-%d %H:%M:%S %z")` converted to UTC: a year of at most four
      digits, the other fields of at most two, naming a real date and time. */
  function ParseTimestamp(year: JsonValue, month: JsonValue, day: JsonValue,
                          hour: JsonValue, minute: JsonValue): (r: Result<DateTime, Failure>)
    ensures r.Success? ==> r.value.Valid() && r.value.second == 0
    ensures r.Success? <==> ReadInstant(year, month, day, hour, minute).Some?
                            && ReadInstant(year, month, day, hour, minute).value.Valid()
    ensures r.Failure? ==> r.error == InvalidTimestamp
  {
    match ReadInstant(year, month, day, hour, minute)
    case Some(t) => if t.Valid() then Success(t) else Failure(InvalidTimestamp)
    case None => Failure(InvalidTimestamp)
  }

  /** The formatted text `"{yr}-{mon}-{dom} {hr}:{min}:00 +0000"` read field
      by field (a year of at most four digits, the others of at most two),
      before any check that the fields form a real date and time. */
  function ReadInstant(year: JsonValue, month: JsonValue, day: JsonValue,
                       hour: JsonValue, minute: JsonValue): (r: Option<DateTime>)
    ensures r.Some? ==> r.value.second == 0 && r.value.year < 10000
                        && r.value.month < 100 && r.value.day < 100
                        && r.value.hour < 100 && r.value.minute < 100
  {
    match (CalendarComponent(year, 4), CalendarComponent(month, 2), CalendarComponent(day, 2),
           CalendarComponent(hour, 2), CalendarComponent(minute, 2))
    case (Some(y), Some(m), Some(d), Some(h), Some(mi)) => Some(DateTime(y, m, d, h, mi, 0))
    case _ => None
  }

  // ---------------------------------------------------------------------
  // PerMinuteZappiData::new (src/zappi.rs:24-45)
  // ---------------------------------------------------------------------

  /** `data.get(key).unwrap()`. */
  function Required(data: JsonValue, key: string): (r: Result<JsonValue, Failure>)
    ensures r.Success? <==> Get(data, key).Some?
    ensures r.Success? ==> r.value == Get(data, key).value
    ensures r.Failure? ==> r.error == MissingField(key)
  {
    match Get(data, key)
    case Some(v) => Success(v)
    case None => Failure(MissingField(key))
  }

  /** `data.get(key).unwrap_or(&0).as_i64().unwrap()`: an absent member counts
      as zero joules; a present one must be an integer that fits an i64. */
  function EnergyField(data: JsonValue, key: string): (r: Result<I64, Failure>)
    ensures r.Success? <==> FitsI64(Get(data, key))
    ensures r.Success? ==> r.value == JoulesOf(Get(data, key))
    ensures r.Failure? ==> r.error == NotAnInteger(key)
  {
    var v := GetOr(data, key, JInt(0));
    if v.JInt? && MinI64 <= v.n <= MaxI64 then Success(v.n) else Failure(NotAnInteger(key))
  }

  /** `joules_to_watts(joules, 60)`. */
  function PerMinuteWatts(joules: I64): (r: Result<I64, Failure>)
    ensures r.Success? <==> joules != MinI64
    ensures r.Success? ==> r.value == TruncDiv(joules, 60)
    ensures r.Failure? ==> r.error == Arithmetic(AbsOverflow)
  {
    match JoulesToWatts(joules, 60)
    case Success(w) =>
      JoulesToWattsIsTruncDiv(joules, 60);
      Success(w)
    case Failure(p) => Failure(Arithmetic(p))
  }

  /** The sample's timestamp (src/zappi.rs:25-31): `yr`, `mon` and `dom` are
      required, `hr` and `min` default to the string "0". */
  function SampleTime(data: JsonValue): (r: Result<DateTime, Failure>)
    ensures r.Success? ==> r.value.Valid() && r.value.second == 0
    ensures r.Failure? ==> r.error == InvalidTimestamp
                           || r.error in [MissingField("yr"), MissingField("mon"), MissingField("dom")]
  {
    var year :- Required(data, "yr");
    var month :- Required(data, "mon");
    var dom :- Required(data, "dom");
    var hour := GetOr(data, "hr", JStr("0"));
    var minute := GetOr(data, "min", JStr("0"));
    ParseTimestamp(year, month, dom, hour, minute)
  }

  /** The four energy members in joules (src/zappi.rs:32-35), imported,
      exported, generated and the charger's own. */
  function SampleJoules(data: JsonValue): (r: Result<(I64, I64, I64, I64), Failure>)
    ensures r.Failure? ==>
      r.error in [NotAnInteger("imp"), NotAnInteger("exp"), NotAnInteger("gep"), NotAnInteger("h1b")]
  {
    var imported :- EnergyField(data, "imp");
    var exported :- EnergyField(data, "exp");
    var generated :- EnergyField(data, "gep");
    var zappi :- EnergyField(data, "h1b");
    Success((imported, exported, generated, zappi))
  }

  /** The four powers (src/zappi.rs:39-42), converted in the same order. */
  function SampleWatts(joules: (I64, I64, I64, I64)): (r: Result<(I64, I64, I64, I64), Failure>)
    ensures r.Failure? ==> r.error == Arithmetic(AbsOverflow)
  {
    var imported :- PerMinuteWatts(joules.0);
    var exported :- PerMinuteWatts(joules.1);
    var generated :- PerMinuteWatts(joules.2);
    var zappi :- PerMinuteWatts(joules.3);
    Success((imported, exported, generated, zappi))
  }

  /** Normalise one raw sample.  Panics of the collector are failures, reported
      in the order the collector meets them. */
  function NewReading(data: JsonValue): (r: Result<Reading, Failure>)
    ensures r.Success? ==> r.value.time.Valid() && r.value.time.second == 0
    ensures r.Success? ==> r.value.rate == ElectricityRate(r.value.time.Time())
    ensures r.Failure? ==> r.error.MissingField? || r.error == InvalidTimestamp
                           || r.error.NotAnInteger? || r.error == Arithmetic(AbsOverflow)
  {
    var time :- SampleTime(data);
    var joules :- SampleJoules(data);
    var watts :- SampleWatts(joules);
    Success(Reading(time, watts.0, watts.1, watts.2, watts.3, ElectricityRate(time.Time())))
  }

  /** The instant the calendar members spell, read field by field, before
      any check that it is a real date and time; `hr` and `min` default to "0". */
  function RawInstant(data: JsonValue): (r: Option<DateTime>)
    ensures r.Some? ==> Get(data, "yr").Some? && Get(data, "mon").Some? && Get(data, "dom").Some?
    ensures r.Some? ==> r.value.second == 0
  {
    if Get(data, "yr").None? || Get(data, "mon").None? || Get(data, "dom").None? then None
    else ReadInstant(Get(data, "yr").value, Get(data, "mon").value, Get(data, "dom").value,
                     GetOr(data, "hr", JStr("0")), GetOr(data, "min", JStr("0")))
  }

  /** The calendar members are present and name a valid instant. */
  predicate CalendarFieldsValid(data: JsonValue): (b: bool)
    ensures b ==> Get(data, "yr").Some? && Get(data, "mon").Some? && Get(data, "dom").Some?
  {
    RawInstant(data).Some? && RawInstant(data).value.Valid()
  }

  /** The joules an energy member stands for: an absent member is zero. */
  function JoulesOf(field: Option<JsonValue>): int {
    match field
    case Some(JInt(n)) => n
    case _ => 0
  }

  /** An energy member `as_i64` accepts: absent, or an integer that fits an i64. */
  predicate FitsI64(field: Option<JsonValue>) {
    match field
    case None => true
    case Some(JInt(n)) => MinI64 <= n <= MaxI64
    case Some(_) => false
  }

  /** An energy member the collector accepts: absent, or an integer that fits
      an i64 other than i64::MIN (whose absolute value overflows). */
  predicate EnergyAcceptable(field: Option<JsonValue>) {
    FitsI64(field) && JoulesOf(field) != MinI64
  }

  /** `watts` is the per-minute power of the energy member `field`. */
  predicate PowerFrom(field: Option<JsonValue>, watts: int) {
    FitsI64(field) && watts == TruncDiv(JoulesOf(field), 60)
  }

  /** The timestamp step fails on the first missing calendar member, then on
      an instant that is not a real date and time, and otherwise yields the
      instant the members spell. */
  lemma SampleTimeSpec(data: JsonValue)
    ensures SampleTime(data) ==
      if Get(data, "yr").None? then Failure(MissingField("yr"))
      else if Get(data, "mon").None? then Failure(MissingField("mon"))
      else if Get(data, "dom").None? then Failure(MissingField("dom"))
      else if CalendarFieldsValid(data) then Success(RawInstant(data).value)
      else Failure(InvalidTimestamp)
  {
  }

  /** The joules step succeeds exactly when every energy member fits an i64,
      and then yields each member's joules, zero for an absent one. */
  lemma SampleJoulesSpec(data: JsonValue)
    ensures SampleJoules(data).Success? <==>
      FitsI64(Get(data, "imp")) && FitsI64(Get(data, "exp"))
      && FitsI64(Get(data, "gep")) && FitsI64(Get(data, "h1b"))
    ensures SampleJoules(data).Success? ==>
      SampleJoules(data).value == (JoulesOf(Get(data, "imp")), JoulesOf(Get(data, "exp")),
                                   JoulesOf(Get(data, "gep")), JoulesOf(Get(data, "h1b")))
  {
  }

  /** The power step fails only on i64::MIN and otherwise divides each energy
      by sixty seconds, rounding toward zero. */
  lemma SampleWattsSpec(joules: (I64, I64, I64, I64))
    ensures SampleWatts(joules).Success? <==>
      joules.0 != MinI64 && joules.1 != MinI64 && joules.2 != MinI64 && joules.3 != MinI64
    ensures SampleWatts(joules).Success? ==>
      SampleWatts(joules).value == (TruncDiv(joules.0, 60), TruncDiv(joules.1, 60),
                                    TruncDiv(joules.2, 60), TruncDiv(joules.3, 60))
  {
    if SampleWatts(joules).Success? {
      JoulesToWattsIsTruncDiv(joules.0, 60);
      JoulesToWattsIsTruncDiv(joules.1, 60);
      JoulesToWattsIsTruncDiv(joules.2, 60);
      JoulesToWattsIsTruncDiv(joules.3, 60);
    }
  }

  /** A sample without `yr`, `mon` or `dom` fails on the first one missing. */
  lemma NewReadingMissingCalendarField(data: JsonValue)
    ensures Get(data, "yr").None? ==> NewReading(data) == Failure(MissingField("yr"))
    ensures Get(data, "yr").Some? && Get(data, "mon").None?
      ==> NewReading(data) == Failure(MissingField("mon"))
    ensures Get(data, "yr").Some? && Get(data, "mon").Some? && Get(data, "dom").None?
      ==> NewReading(data) == Failure(MissingField("dom"))
  {
  }

  /** A sample normalises exactly when its calendar fields name a valid
      instant and all four energy members are acceptable. */
  lemma NewReadingSucceeds(data: JsonValue)
    ensures NewReading(data).Success? <==>
      CalendarFieldsValid(data)
      && EnergyAcceptable(Get(data, "imp")) && EnergyAcceptable(Get(data, "exp"))
      && EnergyAcceptable(Get(data, "gep")) && EnergyAcceptable(Get(data, "h1b"))
  {
    SampleTimeSpec(data);
    SampleJoulesSpec(data);
    if SampleJoules(data).Success? {
      SampleWattsSpec(SampleJoules(data).value);
    }
  }

  /** With the calendar members present, an unreadable or impossible date or
      time is reported as an invalid timestamp, and only then. */
  lemma NewReadingInvalidTimestamp(data: JsonValue)
    requires Get(data, "yr").Some? && Get(data, "mon").Some? && Get(data, "dom").Some?
    ensures NewReading(data) == Failure(InvalidTimestamp) <==> !CalendarFieldsValid(data)
  {
    SampleTimeSpec(data);
    if CalendarFieldsValid(data) {
      SampleJoulesSpec(data);
      if SampleJoules(data).Success? {
        var joules := SampleJoules(data).value;
        assert SampleWatts(joules).Failure? ==> SampleWatts(joules).error.Arithmetic?;
      }
    }
  }

  /** A normalised timestamp is a valid UTC instant holding exactly the raw
      year, month, day, hour and minute, with the seconds at zero. */
  lemma NewReadingTimestamp(data: JsonValue)
    requires NewReading(data).Success?
    ensures var t := NewReading(data).value.time;
      t.Valid() && t.second == 0
      && CalendarComponent(Get(data, "yr").value, 4) == Some(t.year)
      && CalendarComponent(Get(data, "mon").value, 2) == Some(t.month)
      && CalendarComponent(Get(data, "dom").value, 2) == Some(t.day)
      && CalendarComponent(GetOr(data, "hr", JStr("0")), 2) == Some(t.hour)
      && CalendarComponent(GetOr(data, "min", JStr("0")), 2) == Some(t.minute)
  {
    SampleTimeSpec(data);
  }

  /** A sample's reading depends on it only through its timestamp and joules steps. */
  lemma NewReadingOfSameSteps(d1: JsonValue, d2: JsonValue)
    requires SampleTime(d1) == SampleTime(d2) && SampleJoules(d1) == SampleJoules(d2)
    ensures NewReading(d1) == NewReading(d2)
  {
  }

  /** Adding a member other than the four energy members leaves the joules step alone. */
  lemma SampleJoulesIgnores(fields: map<string, JsonValue>, key: string, v: JsonValue)
    requires key != "imp" && key != "exp" && key != "gep" && key != "h1b"
    ensures SampleJoules(JObj(fields[key := v])) == SampleJoules(JObj(fields))
  {
    var before, after := JObj(fields), JObj(fields[key := v]);
    assert Get(after, "imp") == Get(before, "imp");
    assert Get(after, "exp") == Get(before, "exp");
    assert Get(after, "gep") == Get(before, "gep");
    assert Get(after, "h1b") == Get(before, "h1b");
  }

  /** The timestamp step sees an absent member `key` (`hr` or `min`) as `zero`,
      which may be the number 0 or the string "0". */
  lemma SampleTimeDefault(fields: map<string, JsonValue>, key: string, zero: JsonValue)
    requires key == "hr" || key == "min"
    requires key !in fields
    requires zero == JStr("0") || zero == JInt(0)
    ensures SampleTime(JObj(fields[key := zero])) == SampleTime(JObj(fields))
  {
    var before, after := JObj(fields), JObj(fields[key := zero]);
    assert CalendarComponent(zero, 2) == CalendarComponent(JStr("0"), 2) by {
      assert Decimal(0) == "0";
    }
    assert Get(after, "yr") == Get(before, "yr");
    assert Get(after, "mon") == Get(before, "mon");
    assert Get(after, "dom") == Get(before, "dom");
    if key == "hr" {
      assert GetOr(after, "min", JStr("0")) == GetOr(before, "min", JStr("0"));
      assert CalendarComponent(GetOr(after, "hr", JStr("0")), 2) == CalendarComponent(GetOr(before, "hr", JStr("0")), 2);
    } else {
      assert GetOr(after, "hr", JStr("0")) == GetOr(before, "hr", JStr("0"));
      assert CalendarComponent(GetOr(after, "min", JStr("0")), 2) == CalendarComponent(GetOr(before, "min", JStr("0")), 2);
    }
  }

  /** An absent `hr` or `min` reads as zero, whether written as the number 0
      or the string "0". */
  lemma NewReadingHourMinuteDefault(fields: map<string, JsonValue>, key: string)
    requires key == "hr" || key == "min"
    requires key !in fields
    ensures NewReading(JObj(fields)) == NewReading(JObj(fields[key := JStr("0")]))
    ensures NewReading(JObj(fields)) == NewReading(JObj(fields[key := JInt(0)]))
  {
    SampleTimeDefault(fields, key, JStr("0"));
    SampleTimeDefault(fields, key, JInt(0));
    SampleJoulesIgnores(fields, key, JStr("0"));
    SampleJoulesIgnores(fields, key, JInt(0));
    NewReadingOfSameSteps(JObj(fields), JObj(fields[key := JStr("0")]));
    NewReadingOfSameSteps(JObj(fields), JObj(fields[key := JInt(0)]));
  }

  /** Each power is the member's joules over sixty seconds rounded toward
      zero; an absent member gives 0 W, a non-integer one never succeeds. */
  lemma NewReadingPower(data: JsonValue)
    requires NewReading(data).Success?
    ensures var r := NewReading(data).value;
      PowerFrom(Get(data, "imp"), r.importedWatts)
      && PowerFrom(Get(data, "exp"), r.exportedWatts)
      && PowerFrom(Get(data, "gep"), r.generatedWatts)
      && PowerFrom(Get(data, "h1b"), r.zappiWatts)
  {
    SampleJoulesSpec(data);
    SampleWattsSpec(SampleJoules(data).value);
  }

  /** A present energy member that is not an i64 integer makes the sample
      fail; no default is applied to it. */
  lemma NewReadingRejectsNonInteger(data: JsonValue, key: string)
    requires key in ["imp", "exp", "gep", "h1b"]
    requires Get(data, key).Some?
    requires !Get(data, key).value.JInt? || !(MinI64 <= Get(data, key).value.n <= MaxI64)
    ensures NewReading(data).Failure?
  {
    SampleJoulesSpec(data);
  }

  /** The tariff is that of the timestamp's clock time: off-peak from 23:30
      to 05:29, peak otherwise. */
  lemma NewReadingRate(data: JsonValue)
    requires NewReading(data).Success?
    ensures var r := NewReading(data).value;
      r.rate == ElectricityRate(r.time.Time())
      && (r.rate == OffPeak <==>
            (r.time.hour == 23 && r.time.minute >= 30) || r.time.hour < 5
            || (r.time.hour == 5 && r.time.minute < 30))
  {
  }

  /** The worked sample: 1800 J imported at 23:45 on 15 March 2024. */
  function ExampleSample(): JsonValue {
    JObj(map["yr" := JInt(2024), "mon" := JInt(3), "dom" := JInt(15),
             "hr" := JInt(23), "min" := JInt(45), "imp" := JInt(1800),
             "exp" := JInt(0), "gep" := JInt(0), "h1b" := JInt(0)])
  }

  lemma ExampleSampleTime()
    ensures SampleTime(ExampleSample()) == Success(DateTime(2024, 3, 15, 23, 45, 0))
  {
    var data := ExampleSample();
    assert Required(data, "yr") == Success(JInt(2024));
    assert Required(data, "mon") == Success(JInt(3));
    assert Required(data, "dom") == Success(JInt(15));
    assert GetOr(data, "hr", JStr("0")) == JInt(23);
    assert GetOr(data, "min", JStr("0")) == JInt(45);
    assert SampleTime(data) == ParseTimestamp(JInt(2024), JInt(3), JInt(15), JInt(23), JInt(45));
    CalendarComponentOfNumber(2024, 4);
    CalendarComponentOfNumber(3, 2);
    CalendarComponentOfNumber(15, 2);
    CalendarComponentOfNumber(23, 2);
    CalendarComponentOfNumber(45, 2);
  }

  lemma ExampleSampleJoules()
    ensures SampleJoules(ExampleSample()) == Success((1800, 0, 0, 0))
  {
    var data := ExampleSample();
    assert Get(data, "imp") == Some(JInt(1800));
    assert Get(data, "exp") == Some(JInt(0));
    assert Get(data, "gep") == Some(JInt(0));
    assert Get(data, "h1b") == Some(JInt(0));
    SampleJoulesSpec(data);
  }

  /** A sample whose three steps succeed becomes the reading they build. */
  lemma NewReadingOfSteps(data: JsonValue, time: DateTime, joules: (I64, I64, I64, I64),
                          watts: (I64, I64, I64, I64))
    requires SampleTime(data) == Success(time)
    requires SampleJoules(data) == Success(joules)
    requires SampleWatts(joules) == Success(watts)
    ensures time.Valid()
    ensures NewReading(data) ==
      Success(Reading(time, watts.0, watts.1, watts.2, watts.3, ElectricityRate(time.Time())))
  {
    SampleTimeSpec(data);
  }

  /** The worked example normalises to 30 W imported at the off-peak rate. */
  lemma NewReadingExample()
    ensures NewReading(ExampleSample()) == Success(Reading(DateTime(2024, 3, 15, 23, 45, 0), 30, 0, 0, 0, OffPeak))
  {
    var data := ExampleSample();
    var time, joules, watts := DateTime(2024, 3, 15, 23, 45, 0), (1800, 0, 0, 0), (30, 0, 0, 0);
    assert SampleTime(data) == Success(time) by {
      ExampleSampleTime();
    }
    assert SampleJoules(data) == Success(joules) by {
      ExampleSampleJoules();
    }
    assert SampleWatts(joules) == Success(watts) by {
      SampleWattsSpec(joules);
    }
    assert ElectricityRate(time.Time()) == OffPeak;
    NewReadingOfSteps(data, time, joules, watts);
  }

  // ---------------------------------------------------------------------
  // get_day_of_zappi_data (src/zappi.rs:48-66)
  // ---------------------------------------------------------------------

  /** The day's request URL: `https://{asn}/cgi-jday-Z{serial}-{date}`. */
  function DayUrl(asn: string, serialNo: string, date: string): string {
    "https://" + asn + "/cgi-jday-Z" + serialNo + "-" + date
  }

  /** The text before and after the first `sep`, if there is one. */
  function SplitAt(s: string, sep: char): Option<(string, string)> {
    if s == [] then None
    else if s[0] == sep then Some(([], s[1..]))
    else match SplitAt(s[1..], sep)
      case None => None
      case Some(parts) => Some(([s[0]] + parts.0, parts.1))
  }

  lemma {:induction false} SplitAtJoin(a: string, sep: char, b: string)
    requires sep !in a
    ensures SplitAt(a + [sep] + b, sep) == Some((a, b))
  {
    if a == [] {
      assert a + [sep] + b == [sep] + b;
    } else {
      SplitAtJoin(a[1..], sep, b);
      assert (a + [sep] + b)[0] == a[0] && a[0] != sep;
      assert (a + [sep] + b)[1..] == a[1..] + [sep] + b;
      assert [a[0]] + a[1..] == a;
    }
  }

  /** Reads a day URL back into host, serial number and date. */
  function ParseDayUrl(url: string): Option<(string, string, string)> {
    if |url| < 8 || url[..8] != "https://" then None
    else match SplitAt(url[8..], '/')
      case None => None
      case Some((host, path)) =>
        if |path| < 10 || path[..10] != "cgi-jday-Z" then None
        else match SplitAt(path[10..], '-')
          case None => None
          case Some((serialNo, date)) => Some((host, serialNo, date))
  }

  /** The URL names its host, serial number and date unambiguously when the
      host has no '/' and the serial number no '-'. */
  lemma DayUrlRoundTrip(asn: string, serialNo: string, date: string)
    requires '/' !in asn && '-' !in serialNo
    ensures ParseDayUrl(DayUrl(asn, serialNo, date)) == Some((asn, serialNo, date))
  {
    var url := DayUrl(asn, serialNo, date);
    var path := "cgi-jday-Z" + serialNo + "-" + date;
    assert url[..8] == "https://";
    assert url[8..] == asn + ['/'] + path;
    SplitAtJoin(asn, '/', path);
    assert path[..10] == "cgi-jday-Z";
    assert path[10..] == serialNo + ['-'] + date;
    SplitAtJoin(serialNo, '-', date);
  }

  /** The response key holding the day's samples. */
  function SamplesKey(serialNo: string): string {
    "U" + serialNo
  }

  /** The day's samples normalised one by one, in order; a failing sample
      stops the day, as the collector's panic does. */
  lemma DaySamplesInOrder(samples: seq<JsonValue>)
    ensures MapAll(NewReading, samples).Success? <==>
      forall i :: 0 <= i < |samples| ==> NewReading(samples[i]).Success?
    ensures MapAll(NewReading, samples).Success? ==>
      |MapAll(NewReading, samples).value| == |samples|
      && forall i :: 0 <= i < |samples| ==>
           NewReading(samples[i]) == Success(MapAll(NewReading, samples).value[i])
    ensures MapAll(NewReading, samples).Failure? ==>
      exists k :: 0 <= k < |samples| && NewReading(samples[k]) == Failure(MapAll(NewReading, samples).error)
                  && (forall j :: 0 <= j < k ==> NewReading(samples[j]).Success?)
  {
    MapAllElementwise(NewReading, samples);
    if MapAll(NewReading, samples).Failure? {
      MapAllFirstFailure(NewReading, samples);
    }
  }

  /** The day's readings from a decoded response body. */
  function DayReadings(body: map<string, seq<JsonValue>>, serialNo: string): (r: Result<seq<Reading>, Failure>)
    ensures SamplesKey(serialNo) !in body ==> r == Failure(MissingKey(SamplesKey(serialNo)))
    ensures r.Success? ==> |r.value| == |body[SamplesKey(serialNo)]|
  {
    var key := SamplesKey(serialNo);
    if key in body then MapAll(NewReading, body[key]) else Failure(MissingKey(key))
  }

  /** What fetching and normalising a day yields, given the HTTP layer as
      `fetch`: the decoded body of a GET of a URL, or why it failed. */
  function FetchDay(asn: string, serialNo: string, date: string,
                    fetch: string -> Result<map<string, seq<JsonValue>>, string>): (r: Result<seq<Reading>, Failure>)
    ensures fetch(DayUrl(asn, serialNo, date)).Failure? ==>
      r == Failure(RequestFailed(fetch(DayUrl(asn, serialNo, date)).error))
    ensures r.Success? ==>
      (fetch(DayUrl(asn, serialNo, date)).Success?
       && SamplesKey(serialNo) in fetch(DayUrl(asn, serialNo, date)).value
       && |r.value| == |fetch(DayUrl(asn, serialNo, date)).value[SamplesKey(serialNo)]|)
  {
    match fetch(DayUrl(asn, serialNo, date))
    case Failure(reason) => Failure(RequestFailed(reason))
    case Success(body) => DayReadings(body, serialNo)
  }

  /** A response without the `U<serial>` member fails the day, whatever else
      it holds; with it, the day is the member's samples normalised. */
  lemma FetchDayMissingKey(asn: string, serialNo: string, date: string,
                           fetch: string -> Result<map<string, seq<JsonValue>>, string>)
    requires fetch(DayUrl(asn, serialNo, date)).Success?
    ensures var body := fetch(DayUrl(asn, serialNo, date)).value;
      (SamplesKey(serialNo) !in body ==>
         FetchDay(asn, serialNo, date, fetch) == Failure(MissingKey(SamplesKey(serialNo))))
      && (SamplesKey(serialNo) in body ==>
         FetchDay(asn, serialNo, date, fetch) == MapAll(NewReading, body[SamplesKey(serialNo)]))
  {
  }

  /** `get_day_of_zappi_data`: request the day, pick the `U<serial>` samples
      and normalise them one by one into a growing list. */
  method GetDayOfZappiData(asn: string, serialNo: string, date: string,
                           fetch: string -> Result<map<string, seq<JsonValue>>, string>)
    returns (r: Result<seq<Reading>, Failure>)
    ensures r == FetchDay(asn, serialNo, date, fetch)
  {
    var url := DayUrl(asn, serialNo, date);
    var response := fetch(url);
    if response.Failure? {
      return Failure(RequestFailed(response.error));
    }
    var data := response.value;
    var key := SamplesKey(serialNo);
    if key !in data {
      return Failure(MissingKey(key));
    }
    var collection := data[key];
    assert FetchDay(asn, serialNo, date, fetch) == MapAll(NewReading, collection);
    var dayData: seq<Reading> := [];
    for i := 0 to |collection|
      invariant MapAll(NewReading, collection[..i]) == Success(dayData)
    {
      var reading := NewReading(collection[i]);
      if reading.Failure? {
        MapAllStopsAt(NewReading, collection, i);
        return Failure(reading.error);
      }
      MapAllExtend(NewReading, collection, i);
      dayData := dayData + [reading.value];
    }
    assert collection[..|collection|] == collection;
    return Success(dayData);
  }

  // ---------------------------------------------------------------------
  // write_daily_zappi_data (src/zappi.rs:68-77)
  // ---------------------------------------------------------------------

  /** A field value of a write point: an integer or a price in thousandths. */
  datatype FieldValue = IntegerField(i: int) | PriceField(thousandths: nat)

  /** One time-series point: measurement, timestamp and named fields. */
  datatype WritePoint = WritePoint(measurement: string, time: DateTime, fields: seq<(string, FieldValue)>)

  const Measurement: string := "zappi_data"

  /** `reading.into_query(measurement)`: the `time` member is the timestamp and
      every other member is a field, in declaration order. */
  function IntoQuery(reading: Reading, measurement: string): (p: WritePoint)
    ensures p.measurement == measurement && p.time == reading.time
    ensures |p.fields| == 5
  {
    WritePoint(measurement, reading.time,
      [("imported_watts", IntegerField(reading.importedWatts)),
       ("exported_watts", IntegerField(reading.exportedWatts)),
       ("generated_watts", IntegerField(reading.generatedWatts)),
       ("zappi_watts", IntegerField(reading.zappiWatts)),
       ("electricity_rate", PriceField(PriceThousandths(reading.rate)))])
  }

  function WattsOf(v: FieldValue): Option<I64> {
    if v.IntegerField? && MinI64 <= v.i <= MaxI64 then Some(v.i) else None
  }

  function RateOf(v: FieldValue): Option<Rate> {
    if v == PriceField(7500) then Some(OffPeak)
    else if v == PriceField(29560) then Some(Peak)
    else None
  }

  /** Reads a point back into the reading it was made from. */
  function ReadingOfPoint(p: WritePoint): Option<Reading> {
    var f := p.fields;
    if |f| != 5 || f[0].0 != "imported_watts" || f[1].0 != "exported_watts"
       || f[2].0 != "generated_watts" || f[3].0 != "zappi_watts" || f[4].0 != "electricity_rate"
    then None
    else match (WattsOf(f[0].1), WattsOf(f[1].1), WattsOf(f[2].1), WattsOf(f[3].1), RateOf(f[4].1))
      case (Some(imp), Some(exp), Some(gen), Some(zappi), Some(rate)) =>
        Some(Reading(p.time, imp, exp, gen, zappi, rate))
      case _ => None
  }

  /** A point loses nothing of its reading and carries the measurement asked for. */
  lemma IntoQueryRoundTrip(reading: Reading, measurement: string)
    ensures IntoQuery(reading, measurement).measurement == measurement
    ensures ReadingOfPoint(IntoQuery(reading, measurement)) == Some(reading)
  {
  }

  /** `write_daily_zappi_data` up to the database call: one `zappi_data`
      point per reading, in the readings' order. */
  method WriteDailyZappiData(data: seq<Reading>) returns (zappiReadings: seq<WritePoint>)
    ensures |zappiReadings| == |data|
    ensures forall i :: 0 <= i < |data| ==> zappiReadings[i] == IntoQuery(data[i], Measurement)
    ensures forall i :: 0 <= i < |data| ==>
      zappiReadings[i].measurement == Measurement && ReadingOfPoint(zappiReadings[i]) == Some(data[i])
  {
    zappiReadings := [];
    for i := 0 to |data|
      invariant |zappiReadings| == i
      invariant forall j :: 0 <= j < i ==> zappiReadings[j] == IntoQuery(data[j], Measurement)
    {
      zappiReadings := zappiReadings + [IntoQuery(data[i], Measurement)];
    }
    forall i | 0 <= i < |data|
      ensures ReadingOfPoint(zappiReadings[i]) == Some(data[i])
    {
      IntoQueryRoundTrip(data[i], Measurement);
    }
  }
}
