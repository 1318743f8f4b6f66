# zappi-collector: a Dafny model of the per-sample transform

The collector is a daily batch job. It downloads one day of per-minute samples
for a myenergi Zappi EV charger. It turns each sample into a reading: a UTC
timestamp, four average powers in watts and a time-of-use electricity rate.
It then hands the readings to InfluxDB as one batch of `zappi_data` points.

This project models the transform at the heart of that job:

- `util.dfy` (`src/util.rs`):
  - the two-tier tariff lookup `electricity_rate`;
  - the guarded, truncating energy-to-power conversion `joules_to_watts`.
- `zappi.dfy` (`src/zappi.rs`):
  - `PerMinuteZappiData::new`, which normalises one raw JSON sample;
  - the pure parts of `get_day_of_zappi_data`: the request URL, the `U<serial>` lookup and the order-preserving loop;
  - the pure part of `write_daily_zappi_data`: one `zappi_data` point per reading.
- `calendar.dfy`: the part of the chrono crate the source relies on.
  - clock times and their order;
  - UTC date-times at second granularity;
  - proleptic Gregorian month lengths.
- `json.dfy`: the part of a serde_json `Value` the source reads.
  - integer numbers, strings, objects, and "anything else".
- `outcomes.dfy`: `Option`, `Result`, and `MapAll`.
  - `MapAll` is an in-order traversal that stops at the first failure.

Modelling choices:

- **Panics are failures.** Every `unwrap` that can panic in the source becomes a `Failure` constructor, reported in the order the source meets them:
  - `MissingField`: an absent `yr`, `mon` or `dom`;
  - `InvalidTimestamp`: the formatted timestamp does not parse;
  - `NotAnInteger`: a present energy member fails `as_i64()`;
  - `Arithmetic`: a panic inside `joules_to_watts`;
  - `MissingKey`: the response has no `U<serial>` member.

  The `?` on the HTTP request and on JSON decoding becomes `RequestFailed`.
- **Rate.** The rate is a two-valued `Rate` (`OffPeak`, `Peak`), not an `f32`. `PriceThousandths` gives its price as 7500 or 29560 thousandths.
- **Integer widths.** Integers are explicit `I64`/`U64` subset types.
  - `period_seconds as i64` is modelled as a two's-complement reinterpretation (`AsI64`).
  - So for a period above i64::MAX, "a magnitude below the period gives 0" does not hold. The cast makes the divisor negative, the short-circuit never fires, and a non-zero value divides by the negative divisor (`JoulesToWattsWrappedPeriodIsTruncDiv`).
  - Rust's truncating `/` is `TruncDiv`, because Dafny's `/` is Euclidean.
  - `i64::MIN.abs()` overflows, and an overflow-checked build panics there. The model reports this as `Arithmetic(AbsOverflow)`.
  - Division by a zero period panics. The model reports `Arithmetic(DivideByZero)`.
- **Calendar fields.** The source stringifies each calendar field, strips its quotes, formats `"{yr}-{mon}-{dom} {hr}:{min}:00 +0000"` and parses it with `"%Y-%m-%d %H:%M:%S %z"`.
  - A field therefore reads as a number when its text is one to four digits (year) or one to two digits (the others).
  - A JSON number is read through its decimal numeral (`Decimal`).
  - A JSON string is read through its own characters. An inner quote is escaped with a backslash, so the stripped text is all digits exactly when the string is.
  - The five numbers must form a real date (month 1-12, day within the month, leap years) and a real time (hour below 24, minute below 60).
- **Network.** The HTTP layer is the parameter `fetch` of `GetDayOfZappiData`. It maps a URL to the decoded body (`map<string, seq<JsonValue>>`) or to the reason the request or decoding failed.
- **The two loops.** Both `for` loops are methods that build a sequence element by element.
  - `GetDayOfZappiData` keeps the invariant that the readings built so far are `MapAll(NewReading, …)` of the samples consumed so far.
  - `WriteDailyZappiData` keeps the invariant that the points built so far are `IntoQuery(…, "zappi_data")` of the readings consumed so far.

Two behaviours of the code are easy to misread:

- A present energy member that is not an i64 integer panics (`as_i64().unwrap()`, src/zappi.rs:32-35). Only an absent member defaults to 0. The model fails with `NotAnInteger` in that case.
- A missing `U<serial>` key is an `unwrap` panic (src/zappi.rs:58), not a returned error. The model reports it as `MissingKey`.

## Model

| member | source | states |
|---|---|---|
| Util.ElectricityRate | src/util.rs:3-9 | The rate is off-peak exactly when the time lies in [23:30:00, 24:00) or [00:00, 05:30:00), measured in seconds since midnight. It is peak exactly when 05:30:00 <= t < 23:30:00. |
| Util.ElectricityRateBoundaries | src/util.rs:4 | 23:29:59 is peak and 23:30:00 off-peak. 05:29:59 (with any fraction) is off-peak and 05:30:00 peak. 00:00:00 and 23:59:59 are off-peak. |
| Util.ElectricityRateIgnoresFraction | src/util.rs:4 | Two clock times with the same whole seconds get the same rate. |
| Util.PriceThousandths | src/util.rs:3-9 | A tier's price is 7.50 or 29.560, and it is 7.50 exactly for the off-peak tier. |
| Util.AsI64 | src/util.rs:12 | The cast keeps the value modulo 2^64. It is the identity exactly up to i64::MAX and negative above it. |
| Util.TruncDiv | src/util.rs:18 | Rust's quotient agrees with Euclidean division when both operands are non-negative. Its full meaning is proved in TruncDivRemainder and TruncDivSignAndMagnitude. |
| Util.TruncDivRemainder | src/util.rs:18 | Rust's quotient leaves a remainder smaller than the divisor in magnitude, and that remainder is zero or has the dividend's sign. |
| Util.TruncDivSignAndMagnitude | src/util.rs:18 | The quotient is zero or has the sign of a*b. Also \|q\|*\|b\| <= \|a\| < (\|q\|+1)*\|b\|, \|q\| <= \|a\|, and q = 0 exactly when \|a\| < \|b\|. |
| Util.TruncDivDiffersFromEuclidean | src/util.rs:18 | Rust gives -179/60 = -2 where Euclidean division gives -3. Also 179/60 = 2 and -120/60 = -2. |
| Util.JoulesToWatts | src/util.rs:11-19 | It fails exactly when the value is non-zero and is i64::MIN (AbsOverflow) or the period is 0 (DivideByZero). A zero value always gives 0. |
| Util.JoulesToWattsShortCircuit | src/util.rs:14-15 | For a period up to i64::MAX, a zero value, or one whose magnitude is below the period, gives 0 W. |
| Util.JoulesToWattsIsTruncDiv | src/util.rs:14-18 | For every period in 1..i64::MAX and every value other than i64::MIN, the result is the truncating quotient value/period. The short-circuit never changes the answer. |
| Util.JoulesToWattsSignAndMagnitude | src/util.rs:11-19 | The power is 0 or has the energy's sign. \|w\| <= \|value\|, and \|w\| is the largest whole number with \|w\|*period <= \|value\|. |
| Util.JoulesToWattsWrappedPeriod | src/util.rs:12 | A period of 2^64-60 wraps to -60, so 120 J gives -2 W. |
| Util.JoulesToWattsWrappedPeriodIsTruncDiv | src/util.rs:12-18 | For every period above i64::MAX the cast gives a negative divisor. Every value other than 0 and i64::MIN then divides by that negative divisor, truncating. The short-circuit never fires. |
| Util.JoulesToWattsExamples | src/util.rs:11-19 | 0, 30 and -30 J give 0 W. 120 J gives 2 W, -120 J gives -2 W, 179 J gives 2 W, -179 J gives -2 W and 1800 J gives 30 W. A zero period fails. |
| Zappi.Decimal | src/zappi.rs:25-29 | serde_json's numeral for a non-negative integer is non-empty and all digits. DecimalRoundTrip and DecimalWidth state its value and length. |
| Zappi.DigitsValue | src/zappi.rs:31 | The value chrono's numeric item reads from a digit string. It has no contract of its own; DecimalRoundTrip states it inverts Decimal, and DigitsValueBound that it is below 10^length. |
| Zappi.DecimalRoundTrip | src/zappi.rs:25-29 | Reading back the numeral serde_json writes for a number gives the number. |
| Zappi.DecimalWidth | src/zappi.rs:25-31 | A number's numeral fits in w >= 1 digits exactly when the number is below 10^w. |
| Zappi.ParseNumeral | src/zappi.rs:30-31 | A chrono numeric item accepts exactly one to `width` digits, and its value is below 10^width. |
| Zappi.CalendarComponent | src/zappi.rs:25-31 | A calendar field reads as a number only when it is a JSON number or string, and the number is below 10^width. |
| Zappi.ReadInstant | src/zappi.rs:30-31 | Reading the formatted text field by field gives seconds 0, a year below 10000 and the other fields below 100. |
| Zappi.CalendarComponentOfNumber | src/zappi.rs:25-31 | A JSON number calendar field reads as itself exactly when it has at most the field's width in digits. Otherwise it is rejected. |
| Zappi.CalendarStringAsNumber | src/zappi.rs:25-31 | A digit-string calendar field within the width, leading zeros included, reads as the JSON number it spells. |
| Zappi.ParseTimestamp | src/zappi.rs:30-31 | Parsing succeeds exactly when the fields read as numbers of the allowed widths and form a valid date and time. A parsed timestamp is valid with zero seconds. Every failure is InvalidTimestamp. |
| Zappi.Required | src/zappi.rs:25-27 | A required member succeeds exactly when present, yields its value, and otherwise fails with MissingField naming it. |
| Zappi.EnergyField | src/zappi.rs:32-35 | The `unwrap_or(0).as_i64().unwrap()` chain succeeds exactly when FitsI64 holds (absent, or an i64 integer). It then yields JoulesOf, with 0 for an absent member. Otherwise it fails with NotAnInteger naming the member. |
| Zappi.PerMinuteWatts | src/zappi.rs:39-42 | `joules_to_watts(j, 60)` fails exactly on i64::MIN, with AbsOverflow. Otherwise it yields j/60 truncated toward zero. |
| Zappi.SampleTime | src/zappi.rs:25-31 | A timestamp is valid with zero seconds. A failure is InvalidTimestamp or MissingField of yr, mon or dom. |
| Zappi.SampleJoules | src/zappi.rs:32-35 | A failure is NotAnInteger of imp, exp, gep or h1b. |
| Zappi.SampleWatts | src/zappi.rs:39-42 | A failure is always Arithmetic(AbsOverflow): a period of 60 never divides by zero. |
| Zappi.NewReading | src/zappi.rs:24-45 | A reading has a valid time with zero seconds and the tariff of its own clock time. A sample can only fail by a missing calendar member, an invalid timestamp, a non-integer energy member or the i64::MIN overflow. |
| Zappi.RawInstant | src/zappi.rs:25-31 | The instant the members spell exists only when yr, mon and dom are present, and has zero seconds. |
| Zappi.CalendarFieldsValid | src/zappi.rs:25-31 | Fields that name a valid instant include yr, mon and dom. |
| Zappi.SampleTimeSpec | src/zappi.rs:25-31 | The timestamp step fails on the first absent member among yr, mon, dom. Next it fails with InvalidTimestamp unless the fields name a valid instant. Otherwise it yields exactly the instant the fields spell, with hr and min defaulting to "0". |
| Zappi.SampleJoulesSpec | src/zappi.rs:32-35 | The joules step succeeds exactly when each of imp, exp, gep, h1b is absent or an i64 integer. It then yields each member's value, with 0 for an absent member. |
| Zappi.SampleWattsSpec | src/zappi.rs:39-42 | The power step fails exactly when some energy is i64::MIN. Otherwise each power is the energy divided by 60, truncated. |
| Zappi.SampleJoulesIgnores | src/zappi.rs:32-35 | Members other than the four energy members do not affect the joules step. |
| Zappi.SampleTimeDefault | src/zappi.rs:28-29 | Adding `hr` or `min` as the string "0" or the number 0 to a sample that lacks it leaves the timestamp step unchanged. |
| Zappi.NewReadingMissingCalendarField | src/zappi.rs:25-27 | A sample without yr fails with MissingField("yr"). With yr but no mon it fails with MissingField("mon"). With both but no dom it fails with MissingField("dom"). |
| Zappi.NewReadingSucceeds | src/zappi.rs:24-45 | A sample normalises exactly when its calendar fields name a valid instant and every energy member is absent or an i64 integer other than i64::MIN. |
| Zappi.NewReadingInvalidTimestamp | src/zappi.rs:30-31 | With yr, mon and dom present, the sample fails with InvalidTimestamp exactly when the fields do not name a valid date and time. |
| Zappi.NewReadingTimestamp | src/zappi.rs:28-31 | A reading's time is valid, its seconds are 0, and its year, month, day, hour and minute are exactly the raw fields (hour and minute default to 0). |
| Zappi.NewReadingHourMinuteDefault | src/zappi.rs:28-29 | A sample lacking hr (or min) normalises exactly as if it carried the string "0" or the number 0 there. |
| Zappi.NewReadingPower | src/zappi.rs:32-42 | Each of the four powers is the member's joules divided by 60, truncated toward zero. An absent member gives 0 W. A non-integer member never yields a reading. |
| Zappi.NewReadingRejectsNonInteger | src/zappi.rs:32-35 | A present energy member that is not an i64 integer makes the sample fail. No default is applied. |
| Zappi.NewReadingRate | src/zappi.rs:43 | A reading's rate is the tariff of its own clock time. It is off-peak exactly from 23:30 to 05:29. |
| Zappi.NewReadingExample | src/zappi.rs:24-45 | {yr 2024, mon 3, dom 15, hr 23, min 45, imp 1800, exp/gep/h1b 0} normalises to 2024-03-15T23:45:00Z, 30/0/0/0 W, off-peak. |
| Zappi.DayUrl | src/zappi.rs:49 | The request URL `https://{asn}/cgi-jday-Z{serial}-{date}`. It has no contract of its own; DayUrlRoundTrip proves it unambiguous. |
| Zappi.SamplesKey | src/zappi.rs:58 | The response member `U{serial}` holding the samples. It has no contract of its own; FetchDayMissingKey states its use. |
| Zappi.DayReadings | src/zappi.rs:58-63 | A body without `U<serial>` fails with MissingKey. A successful day has one reading per sample. |
| Zappi.FetchDay | src/zappi.rs:48-66 | A failed request fails the day with RequestFailed and its reason. A successful day means the request succeeded, the key is present, and there is one reading per sample. |
| Zappi.DayUrlRoundTrip | src/zappi.rs:49 | The URL `https://{asn}/cgi-jday-Z{serial}-{date}` can be read back into its host, serial and date when the host has no '/' and the serial no '-'. |
| Zappi.FetchDayMissingKey | src/zappi.rs:58 | A decoded body without `U<serial>` fails the day with MissingKey. With the key present, the day is that member's samples normalised. |
| Zappi.DaySamplesInOrder | src/zappi.rs:59-63 | The day succeeds exactly when every sample normalises. It then has one reading per sample, where element i is the normalisation of sample i, in order. A failed day reports the first failing sample's failure. |
| Zappi.GetDayOfZappiData | src/zappi.rs:48-66 | The loop's result equals FetchDay for the same URL. A transport or decoding failure, a missing key or the first failing sample propagates. Otherwise the result is every sample normalised, in order. |
| Zappi.IntoQuery | src/zappi.rs:73 | A point carries the measurement asked for and the reading's time, with five fields. |
| Zappi.IntoQueryRoundTrip | src/zappi.rs:73 | A point carries the measurement asked for, and reading it back gives the reading it was made from. |
| Zappi.WriteDailyZappiData | src/zappi.rs:68-77 | The batch has exactly one point per reading, in order. Each point is a "zappi_data" point from which its reading can be read back. |
| Outcomes.MapAll | src/zappi.rs:59-63 | A successful traversal has exactly one result per element. |
| Outcomes.MapAllConcat | src/zappi.rs:59-63 | Traversing a concatenation traverses the first part, then the second. |
| Outcomes.MapAllElementwise | src/zappi.rs:59-63 | The traversal succeeds exactly when every element does. It then holds one result per element, in order. |
| Outcomes.MapAllFirstFailure | src/zappi.rs:59-63 | A failed traversal reports the failure of its first failing element. |
| Outcomes.MapAllExtend | src/zappi.rs:61-62 | Pushing the next element's result extends the traversal of the prefix by one. |
| Outcomes.MapAllStopsAt | src/zappi.rs:61-62 | The first failing element after a successful prefix decides the whole traversal. |
| Json.Get | src/zappi.rs:25-35 | `Value::get` finds a member exactly when the value is an object holding that key, and yields that member. |
| Json.GetOr | src/zappi.rs:28-35 | `get(key).unwrap_or(default)` yields the member when present, otherwise the default. |
| Calendar.Before | src/util.rs:4 | chrono's order on clock times: by whole seconds since midnight, then by fraction. It has no contract of its own; the ElectricityRate contract states the window it induces, and ElectricityRateIgnoresFraction states how the fraction enters. |
| Calendar.DateTime.Time | src/zappi.rs:43 | chrono's `time()`: the clock time of a valid instant is valid and has the instant's seconds since midnight. |
| Calendar.DaysInMonth | src/zappi.rs:30-31 | A month has 28 to 31 days, and 29 exactly for February of a leap year. |
| Calendar.DateTimeValidity | src/zappi.rs:30-31 | The date check accepts 29 February in 2024 and 2000 and rejects it in 2023 and 1900. It rejects 31 April, month 13 and hour 24, and accepts 23:59:59 on 31 December. |

## Left out

- src/main.rs as a whole is not part of this model. That covers:
  - reading SERIAL_NO, API_KEY and INFLUXDB_URL from the environment;
  - the discovery request to director.myenergi.net and its `x_myenergi-asn` header;
  - computing "yesterday" from the wall clock and formatting it;
  - the final `unwrap`s.

  These are I/O, clock and process plumbing. The host (`asn`) and the date string are parameters of `GetDayOfZappiData`.
- The HTTP GET with digest-authentication retry and the `data_resp.json()` decoding (src/zappi.rs:51-55) are network code and a foreign library. They are the `fetch` parameter. The model does not restrict what `fetch` returns.
- The `influx_client.query` call (src/zappi.rs:76) is not modelled, nor is its result. The same goes for the wire format the `InfluxDbWriteable` derive produces. `WriteDailyZappiData` returns the batch it would submit. A point is modelled as its measurement, its timestamp and its five named fields.
- The two `println!` calls (src/zappi.rs:50, 56) are output only.
- A timestamp is kept as its calendar fields, not as an instant counted from the epoch. Conversion to InfluxDB's time precision is not modelled.
- The chrono format parser is modelled only as described above. The model rejects:
  - signed years, which chrono's `%Y` accepts;
  - leading whitespace before a number, which some chrono versions skip;
  - field texts that contain separators and would shift the other fields.
- Leap-second clock times (a fraction of one second or more) are not modelled.
- `f32` arithmetic is not modelled. The rate's two values are exact thousandths, although the `f32` nearest 29.560 is not exactly 29.560.
- JSON floating-point numbers, booleans, null and arrays are one case, `JOther`. The source never reads them as numbers. A JSON integer beyond the i64 range is an integer that `as_i64` rejects.
- Util.JoulesToWatts: models an overflow-checked build, where `i64::MIN.abs()` panics. In a build without overflow checks the absolute value wraps to i64::MIN, and the function then returns 0 for a positive period.
- In the source, a panic aborts the process, while a `?` error is returned to the caller. The model represents both as a `Failure` result.
