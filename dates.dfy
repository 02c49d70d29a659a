/**
 * Date resolution of the mirror importer (`stringToDate` and
 * `stringToDateInner`, identical in loader.ts and loader.js).
 *
 * Dates are civil fields in the mirror's fixed time zone; the zone itself,
 * daylight saving and the conversion to an instant are not modelled. The
 * two absolute formats are parsed by hand, token by token, the way Luxon's
 * `fromFormat` reads them: English month and weekday names compared without
 * regard to case, `d` and `h` one or two digits, `yyyy` four digits, `mm`
 * two digits, `a` either AM or PM, and the whole string must be consumed.
 */
module Dates {
  import opened Wrappers
  import opened Text

  datatype DateTime = DateTime(year: int, month: int, day: int, hour: int, minute: int)

  datatype DateError =
    | CannotParse(input: string)     // "Cannot parse date"
    | NoReference(input: string)     // a relative date without a reference date
    | InvalidTime(input: string)     // the time after " @ " is missing or unreadable

  predicate IsLeapYear(y: int) {
    (y % 4 == 0 && y % 100 != 0) || y % 400 == 0
  }

  function DaysInMonth(y: int, m: int): int
    requires 1 <= m <= 12
  {
    if m == 2 then (if IsLeapYear(y) then 29 else 28)
    else if m == 4 || m == 6 || m == 9 || m == 11 then 30
    else 31
  }

  predicate ValidTime(hour: int, minute: int) {
    0 <= hour <= 23 && 0 <= minute <= 59
  }

  predicate ValidDate(d: DateTime) {
    1 <= d.month <= 12 && 1 <= d.day <= DaysInMonth(d.year, d.month) && ValidTime(d.hour, d.minute)
  }

  /** The previous calendar day at the same wall-clock time (`minus({ days: 1 })`). */
  function PrevDay(d: DateTime): (r: DateTime)
    requires ValidDate(d)
    ensures ValidDate(r) && r.hour == d.hour && r.minute == d.minute
  {
    if d.day > 1 then d.(day := d.day - 1)
    else if d.month > 1 then d.(month := d.month - 1, day := DaysInMonth(d.year, d.month - 1))
    else d.(year := d.year - 1, month := 12, day := 31)
  }

  /** The next calendar day at the same wall-clock time; the inverse of `PrevDay`. */
  function NextDay(d: DateTime): (r: DateTime)
    requires ValidDate(d)
    ensures ValidDate(r) && r.hour == d.hour && r.minute == d.minute
  {
    if d.day < DaysInMonth(d.year, d.month) then d.(day := d.day + 1)
    else if d.month < 12 then d.(month := d.month + 1, day := 1)
    else d.(year := d.year + 1, month := 1, day := 1)
  }

  lemma NextDayOfPrevDay(d: DateTime)
    requires ValidDate(d)
    ensures NextDay(PrevDay(d)) == d
  {
  }

  lemma PrevDayOfNextDay(d: DateTime)
    requires ValidDate(d)
    ensures PrevDay(NextDay(d)) == d
  {
  }

  // ---------------------------------------------------------------------------
  // Token readers. Each returns the value read and the rest of the input.
  // ---------------------------------------------------------------------------

  datatype Scan<T> = Scan(value: T, rest: string)

  const MonthsShort: seq<string> :=
    ["Jan", "Feb", "Mar", "Apr", "May", "Jun", "Jul", "Aug", "Sep", "Oct", "Nov", "Dec"]
  const MonthsLong: seq<string> :=
    ["January", "February", "March", "April", "May", "June", "July",
     "August", "September", "October", "November", "December"]
  const WeekdaysShort: seq<string> := ["Mon", "Tue", "Wed", "Thu", "Fri", "Sat", "Sun"]

  /** The first of `names`, from index `k` on, that starts `s` (ignoring case). */
  function NameFrom(s: string, names: seq<string>, k: nat): (r: Option<Scan<nat>>)
    ensures r.Some? ==> k <= r.value.value < |names| && StartsWithIgnoreCase(s, names[r.value.value])
                        && r.value.rest == s[|names[r.value.value]|..]
    decreases |names| - k
  {
    if k >= |names| then None
    else if StartsWithIgnoreCase(s, names[k]) then Some(Scan(k, s[|names[k]|..]))
    else NameFrom(s, names, k + 1)
  }

  /** A literal that must come next. */
  function Literal(s: string, lit: string): (r: Option<string>)
    ensures r.Some? ==> StartsWith(s, lit) && r.value == s[|lit|..]
  {
    if StartsWith(s, lit) then Some(s[|lit|..]) else None
  }

  /** Between `min` and `max` decimal digits, as many as are there. */
  function Number(s: string, min: nat, max: nat): (r: Option<Scan<nat>>)
    ensures r.Some? ==> |r.value.rest| < |s|
  {
    var run := DigitRun(s);
    var n := if run < max then run else max;
    if n < min || n == 0 then None
    else Some(Scan(DigitsValue(s[..n]), s[n..]))
  }

  /** 24-hour clock from a 12-hour reading and the meridiem, as Luxon converts it. */
  function To24(h: int, pm: bool): int {
    if h < 12 && pm then h + 12
    else if h == 12 && !pm then 0
    else h
  }

  /** `h:mm a` up to the end of the input, as a valid 24-hour (hour, minute). */
  function Clock(s: string): (r: Option<(int, int)>)
    ensures r.Some? ==> ValidTime(r.value.0, r.value.1)
  {
    var h :- Number(s, 1, 2);
    var r1 :- Literal(h.rest, ":");
    var m :- Number(r1, 2, 2);
    var r2 :- Literal(m.rest, " ");
    var meridiem :- NameFrom(r2, ["AM", "PM"], 0);
    if meridiem.rest != [] then None
    else
      var hour := To24(h.value, meridiem.value == 1);
      if ValidTime(hour, m.value) then Some((hour, m.value)) else None
  }

  /** `d, yyyy h:mm a` to the end of the input, in the given month. */
  function DayYearClock(s: string, month: int): (r: Option<DateTime>)
    ensures r.Some? ==> ValidDate(r.value) && r.value.month == month
  {
    var d :- Number(s, 1, 2);
    var r1 :- Literal(d.rest, ", ");
    var y :- Number(r1, 4, 4);
    var r2 :- Literal(y.rest, " ");
    var clock :- Clock(r2);
    var dt := DateTime(y.value, month, d.value, clock.0, clock.1);
    if ValidDate(dt) then Some(dt) else None
  }

  /** A month name from `names`, a space, then `d, yyyy h:mm a`. */
  function MonthDayYearClock(s: string, names: seq<string>): (r: Option<DateTime>)
    ensures r.Some? ==> ValidDate(r.value)
  {
    var m :- NameFrom(s, names, 0);
    var r1 :- Literal(m.rest, " ");
    DayYearClock(r1, m.value + 1)
  }

  /** Format `'MMM d, yyyy h:mm a'`, e.g. "Sep 30, 2006 09:29 PM". */
  function ParseShortFormat(s: string): (r: Option<DateTime>)
    ensures r.Some? ==> ValidDate(r.value)
  {
    MonthDayYearClock(s, MonthsShort)
  }

  /** Format `'EEE MMMM d, yyyy h:mm a'`, e.g. "Wed January 18, 2023 11:50 PM". */
  function ParseLongFormat(s: string): (r: Option<DateTime>)
    ensures r.Some? ==> ValidDate(r.value)
  {
    var w :- NameFrom(s, WeekdaysShort, 0);
    var r1 :- Literal(w.rest, " ");
    MonthDayYearClock(r1, MonthsLong)
  }

  /**
   * `stringToDateInner`: the formats are tried in order and the first that
   * parses wins; if neither parses the result is the "Cannot parse date" error.
   */
  function StringToDateInner(s: string): (r: Result<DateTime, DateError>)
    ensures r.Ok? <==> ParseShortFormat(s).Some? || ParseLongFormat(s).Some?
    ensures ParseShortFormat(s).Some? ==> r == Ok(ParseShortFormat(s).value)
    ensures ParseShortFormat(s).None? && ParseLongFormat(s).Some? ==> r == Ok(ParseLongFormat(s).value)
    ensures r.Err? ==> r.error == CannotParse(s)
    ensures r.Ok? ==> ValidDate(r.value)
  {
    match ParseShortFormat(s)
    case Some(dt) => Ok(dt)
    case None =>
      match ParseLongFormat(s)
      case Some(dt) => Ok(dt)
      case None => Err(CannotParse(s))
  }

  predicate IsRelative(s: string) {
    StartsWith(s, "Today") || StartsWith(s, "Yesterday")
  }

  /**
   * The relative form resolved against an already parsed reference: the
   * reference's calendar day, one day earlier when the part before " @ " is
   * exactly "Yesterday", at the time read after " @ ".
   */
  function ResolveRelative(s: string, base: DateTime): (r: Result<DateTime, DateError>)
    requires ValidDate(base)
    ensures r.Ok? ==> ValidDate(r.value)
  {
    var parts := Split(s, " @ ");
    var day := if parts[0] == "Yesterday" then PrevDay(base) else base;
    if |parts| < 2 then Err(InvalidTime(s))
    else
      match Clock(parts[1])
      case None => Err(InvalidTime(s))
      case Some(clock) => Ok(day.(hour := clock.0, minute := clock.1))
  }

  /**
   * `stringToDate(date_str, reference_date)`. A string starting with "Today"
   * or "Yesterday" is resolved against the reference, which must be present
   * and non-empty; any other string is an absolute date.
   */
  function StringToDate(s: string, reference: Option<string>): (r: Result<DateTime, DateError>)
    ensures !IsRelative(s) ==> r == StringToDateInner(s)
    ensures IsRelative(s) && (reference.None? || reference == Some("")) ==> r == Err(NoReference(s))
    ensures r.Ok? ==> ValidDate(r.value)
  {
    if !IsRelative(s) then StringToDateInner(s)
    else if reference.None? || reference.value == "" then Err(NoReference(s))
    else
      match StringToDateInner(reference.value)
      case Err(e) => Err(e)
      case Ok(base) => ResolveRelative(s, base)
  }

  // ---------------------------------------------------------------------------
  // Properties
  // ---------------------------------------------------------------------------

  /** `prefix` is "Today @ " or "Yesterday @ ": splitting at " @ " gives the word and `t`. */
  /** The first " @ " of `word + " @ " + t` is the one after `word`. */
  lemma SeparatorAfterWord(word: string, t: string)
    requires forall j :: 0 <= j < |word| ==> word[j] != '@'
    ensures IndexOf(word + " @ " + t, " @ ") == Some(|word|)
  {
    var s := word + " @ " + t;
    assert s[|word|..][..3] == " @ ";
    forall j | 0 <= j < |word|
      ensures !StartsWith(s[j..], " @ ")
    {
      if j + 1 < |word| {
        assert s[j..][1] == word[j + 1];
      } else {
        assert s[j..][1] == ' ';
      }
    }
  }

  lemma SplitRelative(word: string, t: string)
    requires forall j :: 0 <= j < |word| ==> word[j] != '@'
    requires !Contains(t, " @ ")
    ensures Split(word + " @ " + t, " @ ") == [word, t]
  {
    var s := word + " @ " + t;
    SeparatorAfterWord(word, t);
    assert s[..|word|] == word;
    assert s[|word| + 3..] == t;
    SplitNoSeparator(t, " @ ");
  }

  lemma StillRelative(word: string, t: string)
    requires IsRelative(word)
    ensures IsRelative(word + " @ " + t)
  {
    var s := word + " @ " + t;
    if StartsWith(word, "Today") {
      assert s[..5] == word[..5];
    } else {
      assert s[..9] == word[..9];
    }
  }

  lemma ResolveWordAtTime(word: string, t: string, base: DateTime)
    requires ValidDate(base) && forall j :: 0 <= j < |word| ==> word[j] != '@'
    requires !Contains(t, " @ ") && Clock(t).Some?
    ensures var day := if word == "Yesterday" then PrevDay(base) else base;
            var clock := Clock(t).value;
            ResolveRelative(word + " @ " + t, base)
              == Ok(DateTime(day.year, day.month, day.day, clock.0, clock.1))
  {
    SplitRelative(word, t);
  }

  lemma RelativeUsesReference(s: string, reference: string)
    requires IsRelative(s) && reference != "" && StringToDateInner(reference).Ok?
    ensures StringToDate(s, Some(reference)) == ResolveRelative(s, StringToDateInner(reference).value)
  {
  }

  /** A relative word, " @ " and a time resolve against the parsed reference. */
  lemma RelativeResolves(word: string, t: string, reference: string)
    requires IsRelative(word) && forall j :: 0 <= j < |word| ==> word[j] != '@'
    requires !Contains(t, " @ ") && reference != ""
    requires StringToDateInner(reference).Ok? && Clock(t).Some?
    ensures var base := StringToDateInner(reference).value;
            var day := if word == "Yesterday" then PrevDay(base) else base;
            var clock := Clock(t).value;
            StringToDate(word + " @ " + t, Some(reference))
              == Ok(DateTime(day.year, day.month, day.day, clock.0, clock.1))
  {
    StillRelative(word, t);
    ResolveWordAtTime(word, t, StringToDateInner(reference).value);
    RelativeUsesReference(word + " @ " + t, reference);
  }

  lemma RelativeWords()
    ensures IsRelative("Today") && forall j :: 0 <= j < |"Today"| ==> "Today"[j] != '@'
    ensures IsRelative("Yesterday") && forall j :: 0 <= j < |"Yesterday"| ==> "Yesterday"[j] != '@'
  {
  }

  /** "Today @ T" is the reference's calendar day at the time T. */
  lemma TodayResolves(t: string, reference: string)
    requires !Contains(t, " @ ") && reference != ""
    requires StringToDateInner(reference).Ok? && Clock(t).Some?
    ensures var base := StringToDateInner(reference).value;
            var clock := Clock(t).value;
            StringToDate("Today" + " @ " + t, Some(reference))
              == Ok(DateTime(base.year, base.month, base.day, clock.0, clock.1))
  {
    RelativeWords();
    RelativeResolves("Today", t, reference);
  }

  /** "Yesterday @ T" is the calendar day before the reference's, at the time T. */
  lemma YesterdayResolves(t: string, reference: string)
    requires !Contains(t, " @ ") && reference != ""
    requires StringToDateInner(reference).Ok? && Clock(t).Some?
    ensures var prev := PrevDay(StringToDateInner(reference).value);
            var clock := Clock(t).value;
            StringToDate("Yesterday" + " @ " + t, Some(reference))
              == Ok(DateTime(prev.year, prev.month, prev.day, clock.0, clock.1))
  {
    RelativeWords();
    RelativeResolves("Yesterday", t, reference);
  }

  /** A relative date with no (or an empty) reference is an error. */
  lemma MissingReference(t: string)
    ensures StringToDate("Today @ " + t, None) == Err(NoReference("Today @ " + t))
    ensures StringToDate("Yesterday @ " + t, Some("")) == Err(NoReference("Yesterday @ " + t))
  {
    assert ("Today @ " + t)[..5] == "Today";
    assert ("Yesterday @ " + t)[..9] == "Yesterday";
  }

  // ---------------------------------------------------------------------------
  // Token lemmas
  // ---------------------------------------------------------------------------

  lemma DigitRunOf(digits: string, rest: string)
    requires AllDigits(digits)
    requires rest == [] || !IsDigit(rest[0])
    ensures DigitRun(digits + rest) == |digits|
    decreases |digits|
  {
    if digits != [] {
      assert (digits + rest)[1..] == digits[1..] + rest;
      DigitRunOf(digits[1..], rest);
    }
  }

  lemma NumberReads(digits: string, rest: string, min: nat, max: nat)
    requires AllDigits(digits) && 1 <= |digits| && min <= |digits| <= max
    requires rest == [] || !IsDigit(rest[0])
    ensures Number(digits + rest, min, max) == Some(Scan(DigitsValue(digits), rest))
  {
    var s := digits + rest;
    DigitRunOf(digits, rest);
    NumberOfRun(s, min, max);
    assert s[..|digits|] == digits;
    assert s[|digits|..] == rest;
  }

  /** A run of digits no longer than `max` and no shorter than `min` is read whole. */
  lemma NumberOfRun(s: string, min: nat, max: nat)
    requires 1 <= DigitRun(s) && min <= DigitRun(s) <= max
    ensures Number(s, min, max) == Some(Scan(DigitsValue(s[..DigitRun(s)]), s[DigitRun(s)..]))
  {
  }

  lemma LiteralReads(lit: string, rest: string)
    ensures Literal(lit + rest, lit) == Some(rest)
  {
    assert (lit + rest)[..|lit|] == lit;
    assert (lit + rest)[|lit|..] == rest;
  }

  // ---------------------------------------------------------------------------
  // Formatting, the inverse of the parsers
  // ---------------------------------------------------------------------------

  function DigitChar(d: int): char
    requires 0 <= d <= 9
  {
    ('0' as int + d) as char
  }

  /** The decimal digits of `n`, without leading zeros. */
  function NatDigits(n: nat): (r: string)
    ensures AllDigits(r) && 1 <= |r|
    ensures DigitsValue(r) == n
    ensures n < 10 ==> |r| == 1
    ensures 10 <= n < 100 ==> |r| == 2
    ensures 1000 <= n < 10000 ==> |r| == 4
  {
    if n < 10 then [DigitChar(n)]
    else
      var r := NatDigits(n / 10) + [DigitChar(n % 10)];
      assert r[..|r| - 1] == NatDigits(n / 10);
      r
  }

  /** Two digits, zero-padded (`mm`). */
  function Pad2(n: nat): (r: string)
    requires n < 100
    ensures AllDigits(r) && |r| == 2 && DigitsValue(r) == n
  {
    if n < 10 then
      var r := ['0', DigitChar(n)];
      assert r[..1] == "0" && "0"[..0] == [];
      assert DigitsValue(r[..1]) == 0;
      r
    else NatDigits(n)
  }

  /** The 12-hour reading of a 24-hour hour (`h`). */
  function Hour12(hour: int): (h: nat)
    requires 0 <= hour <= 23
    ensures 1 <= h <= 12
    ensures To24(h, hour >= 12) == hour
  {
    if hour % 12 == 0 then 12 else hour % 12
  }

  /** `h:mm a`, e.g. "9:05 PM". */
  function FormatClock(hour: int, minute: int): string
    requires ValidTime(hour, minute)
  {
    NatDigits(Hour12(hour)) + ":" + Pad2(minute) + " " + (if hour < 12 then "AM" else "PM")
  }

  /** `d, yyyy h:mm a`. */
  function FormatDayYearClock(d: DateTime): string
    requires ValidDate(d) && 1000 <= d.year <= 9999
  {
    NatDigits(d.day) + ", " + NatDigits(d.year) + " " + FormatClock(d.hour, d.minute)
  }

  /** `'MMM d, yyyy h:mm a'` written out, as the forum prints its long-ago dates. */
  function FormatShort(d: DateTime): string
    requires ValidDate(d) && 1000 <= d.year <= 9999
  {
    MonthsShort[d.month - 1] + " " + FormatDayYearClock(d)
  }

  /** `'EEE MMMM d, yyyy h:mm a'` written out with the weekday name `WeekdaysShort[w]`. */
  function FormatLong(w: nat, d: DateTime): string
    requires w < 7 && ValidDate(d) && 1000 <= d.year <= 9999
  {
    WeekdaysShort[w] + " " + MonthsLong[d.month - 1] + " " + FormatDayYearClock(d)
  }

  lemma MeridiemReads(pm: bool)
    ensures NameFrom(if pm then "PM" else "AM", ["AM", "PM"], 0)
            == Some(Scan(if pm then 1 else 0, ""))
  {
    assert Lower("AM") == "am" && Lower("PM") == "pm";
  }

  lemma ClockRoundTrip(hour: int, minute: int)
    requires ValidTime(hour, minute)
    ensures Clock(FormatClock(hour, minute)) == Some((hour, minute))
  {
    var h := NatDigits(Hour12(hour));
    var m := Pad2(minute);
    var a := if hour < 12 then "AM" else "PM";
    var r2 := " " + a;
    var r1 := m + r2;
    var r0 := ":" + r1;
    var s := FormatClock(hour, minute);
    assert s == h + r0;
    NumberReads(h, r0, 1, 2);
    LiteralReads(":", r1);
    NumberReads(m, r2, 2, 2);
    LiteralReads(" ", a);
    MeridiemReads(hour >= 12);
  }

  lemma DayYearClockRoundTrip(d: DateTime)
    requires ValidDate(d) && 1000 <= d.year <= 9999
    ensures DayYearClock(FormatDayYearClock(d), d.month) == Some(d)
  {
    var dd := NatDigits(d.day);
    var yy := NatDigits(d.year);
    var c := FormatClock(d.hour, d.minute);
    assert FormatDayYearClock(d) == dd + (", " + (yy + (" " + c)));
    NumberReads(dd, ", " + (yy + (" " + c)), 1, 2);
    LiteralReads(", ", yy + (" " + c));
    NumberReads(yy, " " + c, 4, 4);
    LiteralReads(" ", c);
    ClockRoundTrip(d.hour, d.minute);
  }

  /** Matching `name` without regard to case fixes the lower-cased first `n` characters. */
  lemma IgnoreCaseChars(s: string, name: string, n: nat)
    requires StartsWithIgnoreCase(s, name) && n <= |name|
    ensures forall i :: 0 <= i < n ==> LowerChar(s[i]) == LowerChar(name[i])
  {
    forall i | 0 <= i < n
      ensures LowerChar(s[i]) == LowerChar(name[i])
    {
      assert Lower(s[..|name|])[i] == Lower(name)[i];
    }
  }

  /** The three-letter month names in lower case. */
  const MonthKeys: seq<string> :=
    ["jan", "feb", "mar", "apr", "may", "jun", "jul", "aug", "sep", "oct", "nov", "dec"]

  /** The month a lower-case three-letter name stands for (12 for none). */
  function MonthOfKey(key: string): nat {
    if key == "jan" then 0 else if key == "feb" then 1 else if key == "mar" then 2
    else if key == "apr" then 3 else if key == "may" then 4 else if key == "jun" then 5
    else if key == "jul" then 6 else if key == "aug" then 7 else if key == "sep" then 8
    else if key == "oct" then 9 else if key == "nov" then 10 else if key == "dec" then 11
    else 12
  }

  /** The keys are three letters long and tell their months apart. */
  lemma MonthKeyOf(i: nat)
    requires i < 12
    ensures |MonthKeys[i]| == 3 && MonthOfKey(MonthKeys[i]) == i
  {
  }

  /** A three-letter month name is its key, up to case. */
  lemma ShortKeyOf(i: nat)
    requires i < 12
    ensures |MonthsShort[i]| == 3
    ensures forall c :: 0 <= c < 3 ==> LowerChar(MonthsShort[i][c]) == MonthKeys[i][c]
  {
  }

  /** A string that starts with month `k`'s three-letter name does not start with an earlier month's. */
  lemma ShortNotEarlier(s: string, j: nat, k: nat)
    requires j < k < 12
    requires StartsWith(s, MonthsShort[k])
    ensures !StartsWithIgnoreCase(s, MonthsShort[j])
  {
    MonthKeyOf(j);
    MonthKeyOf(k);
    ShortKeyOf(j);
    ShortKeyOf(k);
    assert MonthKeys[j] != MonthKeys[k];
    var c :| 0 <= c < 3 && MonthKeys[j][c] != MonthKeys[k][c];
    assert s[c] == MonthsShort[k][c];
    IgnoreCaseAt(s, MonthsShort[j], c);
  }

  lemma MonthShortNamed(k: nat, rest: string)
    requires k < 12
    ensures NameFrom(MonthsShort[k] + rest, MonthsShort, 0) == Some(Scan(k, rest))
  {
    var s := MonthsShort[k] + rest;
    assert s[..3] == MonthsShort[k];
    forall j | 0 <= j < k
      ensures !StartsWithIgnoreCase(s, MonthsShort[j])
    {
      ShortNotEarlier(s, j, k);
    }
    assert EqualsIgnoreCase(s[..3], MonthsShort[k]);
    assert s[3..] == rest;
    NameFromSkips(s, MonthsShort, 0, k);
  }

  lemma MonthLongNamed(k: nat, rest: string)
    requires k < 12
    ensures NameFrom(MonthsLong[k] + rest, MonthsLong, 0) == Some(Scan(k, rest))
  {
    var s := MonthsLong[k] + rest;
    var n := |MonthsLong[k]|;
    assert s[..n] == MonthsLong[k];
    forall j | 0 <= j < k
      ensures !StartsWithIgnoreCase(s, MonthsLong[j])
    {
      LongNotEarlier(s, j, k);
    }
    assert EqualsIgnoreCase(s[..n], MonthsLong[k]);
    assert s[n..] == rest;
    NameFromSkips(s, MonthsLong, 0, k);
  }

  /** A string that starts with month `k`'s long name does not start with an earlier month's. */
  lemma LongNotEarlier(s: string, j: nat, k: nat)
    requires j < k < 12
    requires StartsWith(s, MonthsLong[k])
    ensures !StartsWithIgnoreCase(s, MonthsLong[j])
  {
    MonthKeyOf(j);
    MonthKeyOf(k);
    LongKeyOf(j);
    LongKeyOf(k);
    assert MonthKeys[j] != MonthKeys[k];
    var c :| 0 <= c < 3 && MonthKeys[j][c] != MonthKeys[k][c];
    assert s[c] == MonthsLong[k][c];
    IgnoreCaseAt(s, MonthsLong[j], c);
  }

  /** A long month name starts with its three-letter key, up to case. */
  lemma LongKeyOf(i: nat)
    requires i < 12
    ensures |MonthsLong[i]| >= 3
    ensures forall c :: 0 <= c < 3 ==> LowerChar(MonthsLong[i][c]) == MonthKeys[i][c]
  {
  }

  /** Starting with `name` ignoring case fixes each position of `s` up to case. */
  lemma IgnoreCaseAt(s: string, name: string, c: nat)
    requires c < |name|
    ensures StartsWithIgnoreCase(s, name) ==> LowerChar(s[c]) == LowerChar(name[c])
  {
    if StartsWithIgnoreCase(s, name) {
      assert Lower(s[..|name|])[c] == Lower(name)[c];
    }
  }

  lemma WeekdayNamed(k: nat, rest: string)
    requires k < 7
    ensures NameFrom(WeekdaysShort[k] + rest, WeekdaysShort, 0).Some?
    ensures NameFrom(WeekdaysShort[k] + rest, WeekdaysShort, 0).value.rest == rest
  {
    var s := WeekdaysShort[k] + rest;
    WeekdaysAreThreeLetters();
    assert s[..3] == WeekdaysShort[k];
    assert EqualsIgnoreCase(s[..3], WeekdaysShort[k]);
    NameFromFinds(s, WeekdaysShort, 0, k);
    ThreeLetterName(s, WeekdaysShort);
    assert s[3..] == rest;
  }

  /** Some name is read as soon as one of them starts the input. */
  lemma {:induction false} NameFromFinds(s: string, names: seq<string>, i: nat, k: nat)
    requires i <= k < |names| && StartsWithIgnoreCase(s, names[k])
    ensures NameFrom(s, names, i).Some?
    decreases k - i
  {
    if i < k && !StartsWithIgnoreCase(s, names[i]) {
      NameFromFinds(s, names, i + 1, k);
    }
  }

  /** `NameFrom` passes over names that do not start the input. */
  lemma NameFromSkips(s: string, names: seq<string>, i: nat, k: nat)
    requires i <= k < |names|
    requires forall j :: i <= j < k ==> !StartsWithIgnoreCase(s, names[j])
    requires StartsWithIgnoreCase(s, names[k])
    ensures NameFrom(s, names, i) == Some(Scan(k, s[|names[k]|..]))
    decreases k - i
  {
    if i < k {
      NameFromSkips(s, names, i + 1, k);
    }
  }

  /** After month `k`'s name and a space come day, year and time. */
  lemma MonthReads(names: seq<string>, k: nat, tail: string)
    requires k < |names|
    requires NameFrom(names[k] + " " + tail, names, 0) == Some(Scan(k, " " + tail))
    ensures MonthDayYearClock(names[k] + " " + tail, names) == DayYearClock(tail, k + 1)
  {
    var m := NameFrom(names[k] + " " + tail, names, 0).value;
    assert m.value == k && m.rest == " " + tail;
    LiteralReads(" ", tail);
    assert Literal(m.rest, " ") == Some(tail);
  }

  lemma ShortReads(k: nat, tail: string)
    requires k < 12
    ensures ParseShortFormat(MonthsShort[k] + " " + tail) == DayYearClock(tail, k + 1)
  {
    assert MonthsShort[k] + " " + tail == MonthsShort[k] + (" " + tail);
    MonthShortNamed(k, " " + tail);
    MonthReads(MonthsShort, k, tail);
  }

  /** Luxon's parse of a date it formatted as `'MMM d, yyyy h:mm a'` gives the date back. */
  lemma ShortRoundTrip(d: DateTime)
    requires ValidDate(d) && 1000 <= d.year <= 9999
    ensures ParseShortFormat(FormatShort(d)) == Some(d)
  {
    ShortReads(d.month - 1, FormatDayYearClock(d));
    DayYearClockRoundTrip(d);
  }

  /** ... and so does the importer's `stringToDateInner`, which tries that format first. */
  lemma ShortInnerRoundTrip(d: DateTime)
    requires ValidDate(d) && 1000 <= d.year <= 9999
    ensures StringToDateInner(FormatShort(d)) == Ok(d)
  {
    ShortRoundTrip(d);
  }

  /** The steps of a successful short-format parse, up to the day. */
  lemma ShortSteps(s: string)
    requires ParseShortFormat(s).Some?
    ensures NameFrom(s, MonthsShort, 0).Some?
    ensures Literal(NameFrom(s, MonthsShort, 0).value.rest, " ").Some?
    ensures Number(Literal(NameFrom(s, MonthsShort, 0).value.rest, " ").value, 1, 2).Some?
  {
  }

  /** A day that is read starts with a digit. */
  lemma NumberShape(r: string, min: nat, max: nat)
    requires Number(r, min, max).Some?
    ensures |r| > 0 && IsDigit(r[0])
  {
  }

  /** A successful short-format parse has a digit at index 4 (the day follows "MMM "). */
  lemma ShortShape(s: string)
    requires ParseShortFormat(s).Some?
    ensures |s| > 4 && IsDigit(s[4])
  {
    ShortSteps(s);
    MonthsAreThreeLetters();
    ThreeLetterName(s, MonthsShort);
    var r := NameFrom(s, MonthsShort, 0).value.rest;
    assert r[1..] == s[4..];
    NumberShape(r[1..], 1, 2);
  }

  /** Every long month name starts with a letter. */
  lemma MonthsLongStartWithLetters(k: nat)
    requires k < 12
    ensures |MonthsLong[k]| > 0 && 'a' <= LowerChar(MonthsLong[k][0]) <= 'z'
  {
  }

  lemma MonthsAreThreeLetters()
    ensures forall i :: 0 <= i < |MonthsShort| ==> |MonthsShort[i]| == 3
  {
  }

  lemma WeekdaysAreThreeLetters()
    ensures forall i :: 0 <= i < |WeekdaysShort| ==> |WeekdaysShort[i]| == 3
  {
  }

  /** A name read from a list of three-letter names leaves the input from index 3 on. */
  lemma ThreeLetterName(s: string, names: seq<string>)
    requires forall i :: 0 <= i < |names| ==> |names[i]| == 3
    requires NameFrom(s, names, 0).Some?
    ensures |s| >= 3 && NameFrom(s, names, 0).value.rest == s[3..]
  {
  }

  /** The steps of a successful long-format parse, up to the month. */
  lemma LongSteps(s: string)
    requires ParseLongFormat(s).Some?
    ensures NameFrom(s, WeekdaysShort, 0).Some?
    ensures Literal(NameFrom(s, WeekdaysShort, 0).value.rest, " ").Some?
    ensures MonthDayYearClock(Literal(NameFrom(s, WeekdaysShort, 0).value.rest, " ").value, MonthsLong).Some?
  {
  }

  /** A successful long-format parse reads its month from index 4 on. */
  lemma LongMonthAt4(s: string)
    requires ParseLongFormat(s).Some?
    ensures |s| > 4 && MonthDayYearClock(s[4..], MonthsLong).Some?
  {
    LongSteps(s);
    WeekdaysAreThreeLetters();
    ThreeLetterName(s, WeekdaysShort);
    var r := NameFrom(s, WeekdaysShort, 0).value.rest;
    assert r[1..] == s[4..];
  }

  /** A long month name that is read starts with a letter. */
  lemma LongMonthShape(r: string)
    requires MonthDayYearClock(r, MonthsLong).Some?
    ensures |r| > 0 && 'a' <= LowerChar(r[0]) <= 'z'
  {
    var m := NameFrom(r, MonthsLong, 0).value;
    MonthsLongStartWithLetters(m.value);
    IgnoreCaseChars(r, MonthsLong[m.value], 1);
  }

  /** A successful long-format parse has a letter at index 4 (the month follows "EEE "). */
  lemma LongShape(s: string)
    requires ParseLongFormat(s).Some?
    ensures |s| > 4 && 'a' <= LowerChar(s[4]) <= 'z'
  {
    LongMonthAt4(s);
    LongMonthShape(s[4..]);
  }

  /** No string is in both absolute formats, so their order never decides a result. */
  lemma FormatsDisjoint(s: string)
    ensures ParseShortFormat(s).Some? ==> ParseLongFormat(s).None?
  {
    if ParseShortFormat(s).Some? && ParseLongFormat(s).Some? {
      ShortShape(s);
      LongShape(s);
    }
  }

  /** After a weekday name and a space the long format reads a month, day, year and time. */
  lemma WeekdayThenMonth(w: nat, month: string)
    requires w < 7
    ensures ParseLongFormat(WeekdaysShort[w] + (" " + month)) == MonthDayYearClock(month, MonthsLong)
  {
    WeekdayNamed(w, " " + month);
    LiteralReads(" ", month);
  }

  lemma LongMonthReads(k: nat, tail: string)
    requires k < 12
    ensures MonthDayYearClock(MonthsLong[k] + (" " + tail), MonthsLong) == DayYearClock(tail, k + 1)
  {
    MonthLongNamed(k, " " + tail);
    assert MonthsLong[k] + (" " + tail) == MonthsLong[k] + " " + tail;
    MonthReads(MonthsLong, k, tail);
  }

  /** After a weekday, a space, a month name and a space the long format reads day, year and time. */
  lemma LongReads(w: nat, k: nat, tail: string)
    requires w < 7 && k < 12
    ensures ParseLongFormat(WeekdaysShort[w] + " " + MonthsLong[k] + " " + tail) == DayYearClock(tail, k + 1)
  {
    var month := MonthsLong[k] + (" " + tail);
    assert WeekdaysShort[w] + " " + MonthsLong[k] + " " + tail == WeekdaysShort[w] + (" " + month);
    WeekdayThenMonth(w, month);
    LongMonthReads(k, tail);
  }

  /** Luxon's parse of a date it formatted as `'EEE MMMM d, yyyy h:mm a'` gives the date back. */
  lemma LongRoundTrip(w: nat, d: DateTime)
    requires w < 7 && ValidDate(d) && 1000 <= d.year <= 9999
    ensures ParseLongFormat(FormatLong(w, d)) == Some(d)
  {
    LongReads(w, d.month - 1, FormatDayYearClock(d));
    DayYearClockRoundTrip(d);
  }

  /** ... and so does `stringToDateInner`, since the short format cannot read it. */
  lemma LongInnerRoundTrip(w: nat, d: DateTime)
    requires w < 7 && ValidDate(d) && 1000 <= d.year <= 9999
    ensures StringToDateInner(FormatLong(w, d)) == Ok(d)
  {
    LongRoundTrip(w, d);
    FormatsDisjoint(FormatLong(w, d));
  }
}
