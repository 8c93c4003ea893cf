/**
 The form's helper `convertTo24HourFormat`, which turns a 12-hour wall-clock reading such as
 "1:30 PM" into the 24-hour reading "13:30". It splits the text at a space into the time and
 the period, splits the time at ':' into hour and minute, moves the hour according to the
 period, and prints hour and minute zero-padded to two digits.
 */
module TimeFormat {
  import opened Wrappers
  import opened JsStrings

  /** A reading after splitting: hour, minute, and the period marker (the text after the
      first space) when the input had a space. */
  datatype Time12 = Time12(hour: nat, minute: nat, period: Option<string>)

  /** The hour adjustment: exactly "PM" moves hours other than 12 up by twelve, exactly "AM"
      turns 12 into 0, and every other period (none, "pm", "") leaves the hour alone. */
  function AdjustHour(hour: nat, period: Option<string>): (r: nat)
    ensures r % 12 == hour % 12
    ensures r == hour || r == hour + 12 || (r == 0 && hour == 12)
  {
    if period == Some("PM") && hour != 12 then hour + 12
    else if period == Some("AM") && hour == 12 then 0
    else hour
  }

  /** The 24-hour hour and minute of a reading. */
  function To24(t: Time12): (hm: (nat, nat))
    ensures hm.1 == t.minute && hm.0 % 12 == t.hour % 12
  {
    (AdjustHour(t.hour, t.period), t.minute)
  }

  /** Padding a numeral to two places keeps it a numeral of the same value. */
  lemma PaddedNumeral(n: nat)
    ensures var s := PadStart(NatToString(n), 2, '0');
      IsDigits(s) && |s| >= 2 && DigitsValue(s) == n && (n < 100 ==> |s| == 2)
  {
    var num := NatToString(n);
    DigitsValueOfNatToString(n);
    NumeralLength(n);
    if |num| == 1 {
      PadSingle(num);
      DigitsValueLeadingZero(num);
    } else {
      assert PadStart(num, 2, '0') == num;
    }
  }

  /** The numerals of 0..9 have one digit and those of 10..99 two. */
  lemma NumeralLength(n: nat)
    ensures n < 10 ==> |NatToString(n)| == 1
    ensures 10 <= n < 100 ==> |NatToString(n)| == 2
  {
  }

  /** A number padded to two places has at least two characters, exactly two below 100. */
  lemma PaddedLength(n: nat)
    ensures |PadStart(NatToString(n), 2, '0')| >= 2
    ensures n < 100 ==> |PadStart(NatToString(n), 2, '0')| == 2
  {
    NumeralLength(n);
  }

  /** Padding a single digit to two places puts one zero in front. */
  lemma PadSingle(c: string)
    requires |c| == 1
    ensures PadStart(c, 2, '0') == "0" + c
  {
  }

  /** The printed result: hour and minute, each at least two digits, joined by ':'. */
  function Format24(hour: nat, minute: nat): (r: string)
    ensures |r| >= 5
    ensures hour < 100 && minute < 100 ==> |r| == 5
  {
    PaddedLength(hour);
    PaddedLength(minute);
    PadStart(NatToString(hour), 2, '0') + ":" + PadStart(NatToString(minute), 2, '0')
  }

  /** The time part of the input: the text before its first space. */
  function TimePart(time12: string): (time: string)
    ensures ' ' !in time
  {
    Split(time12, ' ')[0]
  }

  /** The time part has no ':', so the destructuring leaves `minute` undefined and
      `minute.toString()` throws a TypeError. */
  predicate MinuteMissing(time12: string) {
    ':' !in TimePart(time12)
  }

  /** Splits the input text into a reading. None when there is no minute field, and when the
      hour or the minute field is not a string of digits (JavaScript's coercion of such a
      field by `Number` is not modelled). */
  function Parse(time12: string): (r: Option<Time12>)
    ensures MinuteMissing(time12) ==> r == None
    ensures r.Some? ==> (r.value.period == None <==> ' ' !in time12)
  {
    var pieces := Split(time12, ' ');
    var period := if |pieces| > 1 then Some(pieces[1]) else None;
    var fields := Split(pieces[0], ':');
    SplitSingle(time12, ' ');
    SplitSingle(pieces[0], ':');
    if |fields| >= 2 && IsDigits(fields[0]) && IsDigits(fields[1]) then
      Some(Time12(DigitsValue(fields[0]), DigitsValue(fields[1]), period))
    else
      None
  }

  /** `convertTo24HourFormat(time12)`: its output holds no period and reads back as the
      24-hour time of the input's reading. */
  function ConvertTo24HourFormat(time12: string): (r: Option<string>)
    ensures r.Some? <==> Parse(time12).Some?
    ensures MinuteMissing(time12) ==> r == None
    ensures r.Some? ==>
      |r.value| >= 5
      && Parse(r.value) == Some(Time12(To24(Parse(time12).value).0, To24(Parse(time12).value).1, None))
  {
    match Parse(time12)
    case None => None
    case Some(t) =>
      ParseFormat24(To24(t).0, To24(t).1);
      Some(Format24(To24(t).0, To24(t).1))
  }

  /** A reading made of the fields it was printed from. */
  predicate WellFormed12(t: Time12) {
    1 <= t.hour <= 12 && t.minute < 60 && (t.period == Some("AM") || t.period == Some("PM"))
  }

  /** An independent description of the 12-hour clock: the reading of a 24-hour time. */
  function To12(hour: nat, minute: nat): (t: Time12)
    requires hour < 24 && minute < 60
    ensures WellFormed12(t) && To24(t) == (hour, minute)
  {
    Time12(if hour == 0 then 12 else if hour > 12 then hour - 12 else hour,
           minute,
           Some(if hour < 12 then "AM" else "PM"))
  }

  // ---- The hour adjustment, case by case ----

  lemma PmMovesHourUp(t: Time12)
    requires t.period == Some("PM") && t.hour != 12
    ensures To24(t) == (t.hour + 12, t.minute)
  {
  }

  lemma MidnightIsZero(t: Time12)
    requires t.period == Some("AM") && t.hour == 12
    ensures To24(t) == (0, t.minute)
  {
  }

  lemma NoonAndMorningKeepHour(t: Time12)
    requires (t.period == Some("PM") && t.hour == 12) || (t.period == Some("AM") && t.hour != 12)
    ensures To24(t) == (t.hour, t.minute)
  {
  }

  lemma OtherPeriodKeepsHour(t: Time12)
    requires t.period != Some("AM") && t.period != Some("PM")
    ensures To24(t) == (t.hour, t.minute)
  {
  }

  /** Well-formed 12-hour readings land on the 24-hour clock. */
  lemma WellFormedInRange(t: Time12)
    requires WellFormed12(t)
    ensures To24(t).0 < 24 && To24(t).1 < 60
  {
  }

  /** No two well-formed readings give the same 24-hour time. */
  lemma To24Injective(t1: Time12, t2: Time12)
    requires WellFormed12(t1) && WellFormed12(t2)
    requires To24(t1) == To24(t2)
    ensures t1 == t2
  {
  }

  /** To12 and To24 are inverse bijections between well-formed readings and 24-hour times. */
  lemma To12OfTo24(t: Time12)
    requires WellFormed12(t)
    ensures To24(t).0 < 24 && To12(To24(t).0, To24(t).1) == t
  {
  }

  // ---- The printed form ----

  /** For a time on the 24-hour clock the output is exactly "HH:MM", five characters whose
      two digit fields read back as hour and minute. */
  lemma Format24Shape(hour: nat, minute: nat)
    requires hour < 100 && minute < 100
    ensures var s := Format24(hour, minute);
      |s| == 5 && s[2] == ':' && IsDigits(s[..2]) && IsDigits(s[3..])
      && DigitsValue(s[..2]) == hour && DigitsValue(s[3..]) == minute
  {
    var h, m := PadStart(NatToString(hour), 2, '0'), PadStart(NatToString(minute), 2, '0');
    PaddedNumeral(hour);
    PaddedNumeral(minute);
    assert |h| == 2 && |m| == 2;
    var s := h + ":" + m;
    assert s == Format24(hour, minute);
    assert s[..2] == h && s[3..] == m;
  }

  /** A digit string holds neither of the converter's separators. */
  lemma DigitsHaveNoSeparator(s: string)
    requires IsDigits(s)
    ensures ' ' !in s && ':' !in s
  {
  }

  /** "H:M" with digit fields and no space; the colon is the only separator in it. */
  lemma TimeFieldsJoined(hs: string, ms: string)
    requires IsDigits(hs) && IsDigits(ms)
    ensures hs + ":" + ms == Join([hs, ms], ':')
    ensures ' ' !in hs + ":" + ms
  {
  }

  /** "H:M" with digit fields and no period is read as hour H and minute M. */
  lemma {:induction false} ParseTwentyFourHourText(hs: string, ms: string)
    requires IsDigits(hs) && IsDigits(ms)
    ensures Parse(hs + ":" + ms) == Some(Time12(DigitsValue(hs), DigitsValue(ms), None))
  {
    var time := hs + ":" + ms;
    TimeFieldsJoined(hs, ms);
    DigitsHaveNoSeparator(hs);
    DigitsHaveNoSeparator(ms);
    SplitJoin([time], ' ');
    assert Join([time], ' ') == time;
    SplitJoin([hs, ms], ':');
  }

  /** Reading the output back gives the same hour and minute, with no period. */
  lemma ParseFormat24(hour: nat, minute: nat)
    ensures Parse(Format24(hour, minute)) == Some(Time12(hour, minute, None))
  {
    var h, m := PadStart(NatToString(hour), 2, '0'), PadStart(NatToString(minute), 2, '0');
    PaddedNumeral(hour);
    PaddedNumeral(minute);
    ParseTwentyFourHourText(h, m);
    assert h + ":" + m == Format24(hour, minute);
  }

  /** The converter is idempotent: a converted time converts to itself. */
  lemma ConvertIdempotent(time12: string)
    requires ConvertTo24HourFormat(time12).Some?
    ensures var out := ConvertTo24HourFormat(time12).value;
      ConvertTo24HourFormat(out) == Some(out)
  {
    var t := Parse(time12).value;
    var h, m := To24(t).0, To24(t).1;
    var out := Format24(h, m);
    assert ConvertTo24HourFormat(time12) == Some(out);
    ParseFormat24(h, m);
    assert To24(Time12(h, m, None)) == (h, m);
    ConvertParsed(out, Time12(h, m, None));
  }

  /** The converter prints the 24-hour time of what it read. */
  lemma ConvertParsed(s: string, t: Time12)
    requires Parse(s) == Some(t)
    ensures ConvertTo24HourFormat(s) == Some(Format24(To24(t).0, To24(t).1))
  {
  }

  /** The value of an `<input type="time">`: "HH:MM" with two digits on each side. */
  predicate IsTimeInputValue(s: string) {
    |s| == 5 && s[2] == ':' && IsDigits(s[..2]) && IsDigits(s[3..])
  }

  /** Two digits print back as themselves after padding. */
  lemma PaddedDigits(s: string)
    requires IsDigits(s) && |s| == 2
    ensures PadStart(NatToString(DigitsValue(s)), 2, '0') == s
  {
    DigitsValueTwo(s);
    if s[0] == '0' {
      var d := s[1] as int - '0' as int;
      assert DigitsValue(s) == d;
      assert NatToString(d) == [DigitChar(d)] == [s[1]];
      PadSingle([s[1]]);
      assert s == "0" + [s[1]];
    } else {
      NatToStringOfDigitsValue(s);
    }
  }

  /** The value of a two-digit numeral. */
  lemma DigitsValueTwo(s: string)
    requires IsDigits(s) && |s| == 2
    ensures DigitsValue(s) == (s[0] as int - '0' as int) * 10 + (s[1] as int - '0' as int)
  {
    var p := s[..1];
    assert s[..|s| - 1] == p;
    assert p[..|p| - 1] == [];
    assert DigitsValue(p) == p[0] as int - '0' as int;
  }

  /** The form's time fields hold "HH:MM" with no period, so the converter only re-pads them and
      gives them back unchanged. */
  lemma TimeInputUnchanged(s: string)
    requires IsTimeInputValue(s)
    ensures ConvertTo24HourFormat(s) == Some(s)
  {
    var hs, ms := s[..2], s[3..];
    var h, m := DigitsValue(hs), DigitsValue(ms);
    PaddedDigits(hs);
    PaddedDigits(ms);
    assert s == hs + ":" + ms;
    ParseTwentyFourHourText(hs, ms);
    assert To24(Time12(h, m, None)) == (h, m);
    ConvertParsed(s, Time12(h, m, None));
    assert Format24(h, m) == hs + ":" + ms;
  }

  /** A text "H:M P" with digit fields and a period without spaces is read field by field. */
  lemma {:induction false} ParseTwelveHourText(hs: string, ms: string, p: string)
    requires IsDigits(hs) && IsDigits(ms) && ' ' !in p
    ensures Parse(hs + ":" + ms + " " + p) == Some(Time12(DigitsValue(hs), DigitsValue(ms), Some(p)))
  {
    var time := hs + ":" + ms;
    TimeFieldsJoined(hs, ms);
    DigitsHaveNoSeparator(hs);
    DigitsHaveNoSeparator(ms);
    assert hs + ":" + ms + " " + p == Join([time, p], ' ');
    SplitJoin([time, p], ' ');
    SplitJoin([hs, ms], ':');
  }

  /** A well-formed 12-hour text converts to the "HH:MM" of its 24-hour time. */
  lemma ConvertTwelveHourText(hs: string, ms: string, p: string)
    requires IsDigits(hs) && IsDigits(ms) && ' ' !in p
    requires WellFormed12(Time12(DigitsValue(hs), DigitsValue(ms), Some(p)))
    ensures var hm := To24(Time12(DigitsValue(hs), DigitsValue(ms), Some(p)));
      hm.0 < 24 && ConvertTo24HourFormat(hs + ":" + ms + " " + p) == Some(Format24(hm.0, hm.1))
      && |Format24(hm.0, hm.1)| == 5
  {
    var t := Time12(DigitsValue(hs), DigitsValue(ms), Some(p));
    ParseTwelveHourText(hs, ms, p);
    Format24Shape(To24(t).0, To24(t).1);
  }

  /** "01:30 PM" becomes "13:30". */
  lemma ExampleAfternoon()
    ensures ConvertTo24HourFormat("01:30 PM") == Some("13:30")
  {
    ExampleAt("01:30 PM", "01", "30", "PM", "13", "30", "13:30");
  }

  /** "12:05 AM" becomes "00:05". */
  lemma ExampleMidnight()
    ensures ConvertTo24HourFormat("12:05 AM") == Some("00:05")
  {
    ExampleAt("12:05 AM", "12", "05", "AM", "00", "05", "00:05");
  }

  /** A text "HH:MM P" whose 24-hour reading has the digits hh and mm converts to "hh:mm". */
  lemma ExampleAt(s: string, hs: string, ms: string, p: string, hh: string, mm: string, out: string)
    requires IsDigits(hs) && IsDigits(ms) && |hs| == 2 && |ms| == 2 && ' ' !in p
    requires IsDigits(hh) && IsDigits(mm) && |hh| == 2 && |mm| == 2
    requires s == hs + ":" + ms + " " + p && out == hh + ":" + mm
    requires To24(Time12(DigitsValue(hs), DigitsValue(ms), Some(p))) == (DigitsValue(hh), DigitsValue(mm))
    ensures ConvertTo24HourFormat(s) == Some(out)
  {
    ParseTwelveHourText(hs, ms, p);
    ConvertParsed(s, Time12(DigitsValue(hs), DigitsValue(ms), Some(p)));
    PaddedDigits(hh);
    PaddedDigits(mm);
  }
}
