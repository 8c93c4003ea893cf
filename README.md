# Lab-booking form: time conversion, validation and course dropdown

This project models the logic of the staff portal's lab-booking form (`LabBook.tsx`). It covers
three pure pieces of the form:

- **`convertTo24HourFormat`** turns a 12-hour reading `"H:MM AM|PM"` into the 24-hour
  `"HH:MM"`. It splits the text at a space into time and period, then splits the time at `:`
  into hour and minute. Exactly `"PM"` adds twelve to hours other than 12. Exactly `"AM"`
  turns 12 into 0. Both parts are then zero-padded to at least two digits.
- **The validation guard of `handleSubmit`**: the booking is sent only when title, course,
  date, start time and end time are all non-empty. The request then carries the times as
  converted.
- **The course dropdown**: each fetched course `{id, code}` becomes an option
  `{value: id, label: code}`.

Modules:

- `Wrappers` (wrappers.dfy): the `Option` datatype.
- `JsStrings` (js_strings.dfy): the JavaScript built-ins the converter uses, on the inputs it
  gives them: `split` with a one-character separator, `padStart` with a one-character filler,
  `Number` of a digit string and `toString` of a non-negative integer. `split` is paired
  with `join` and `toString` with `Number`, with round-trip lemmas both ways; `padStart` is
  pinned down by its contract.
- `TimeFormat` (time_format.dfy): the converter. A reading is a triple
  `Time12(hour, minute, period)`. `Parse` gives the triple, `To24` gives the 24-hour hour
  and minute, `Format24` prints them, and `ConvertTo24HourFormat` runs all three.
  `To12` is an independent inverse used to show that the 12-hour to 24-hour mapping is a
  bijection on well-formed readings.
- `LabBook` (lab_book.dfy): the course dropdown and the submit handler.

The comment above the call site of the converter says "24-hour to 12-hour", and the result
variables are named `startTime12Hour` and `endTime12Hour`. The code, however, calls the
12-to-24-hour converter, and the model follows the code. The form's time fields are
`<input type="time">` controls, whose values are `"HH:MM"` with no period. On those values
the converter only re-pads, and they reach the request unchanged (`TimeInputUnchanged`,
`SubmitFromTimeInputs`). The model covers both the period path and the no-period path.

## Model

| member | source | states |
|---|---|---|
| JsStrings.Split | staff-portal/src/pages/Form/LabBook.tsx:8-9 | `split` with a one-character separator yields at least one piece, and no piece holds the separator |
| JsStrings.JoinSplit | staff-portal/src/pages/Form/LabBook.tsx:8-9 | joining the pieces of a split with the separator gives back the original text |
| JsStrings.SplitSingle | staff-portal/src/pages/Form/LabBook.tsx:8-9 | a text splits into one piece exactly when it holds no separator, so there is a period exactly when the input has a space |
| JsStrings.SplitJoin | staff-portal/src/pages/Form/LabBook.tsx:8-9 | splitting a join of separator-free pieces gives back exactly those pieces |
| JsStrings.PadStart | staff-portal/src/pages/Form/LabBook.tsx:17 | `padStart` gives length max(width, length of s), ends with s, and everything before s is the filler |
| JsStrings.NatToString | staff-portal/src/pages/Form/LabBook.tsx:17 | `toString` of a non-negative integer is a non-empty digit string with no leading zero |
| JsStrings.DigitsValue | staff-portal/src/pages/Form/LabBook.tsx:9 | `Number` of a digit string is a natural below ten to the number of digits |
| JsStrings.DigitsValueOfNatToString | staff-portal/src/pages/Form/LabBook.tsx:9-17 | `Number` reads back the value that `toString` printed |
| JsStrings.NatToStringOfDigitsValue | staff-portal/src/pages/Form/LabBook.tsx:9-17 | `toString` reprints a digit string without leading zeros as itself after `Number` |
| JsStrings.DigitsValueLeadingZero | staff-portal/src/pages/Form/LabBook.tsx:9-17 | a leading `0` added by padding does not change the value `Number` reads |
| TimeFormat.AdjustHour | staff-portal/src/pages/Form/LabBook.tsx:11-15 | the adjusted hour shows the same position on a 12-hour dial (equal modulo 12) and is the hour itself, the hour + 12, or 0 for hour 12 |
| TimeFormat.To24 | staff-portal/src/pages/Form/LabBook.tsx:9-15 | the 24-hour reading keeps the minute and the hour modulo 12 |
| TimeFormat.Format24 | staff-portal/src/pages/Form/LabBook.tsx:17 | the printed time has at least five characters, exactly five when hour and minute are below 100 |
| TimeFormat.TimePart | staff-portal/src/pages/Form/LabBook.tsx:8 | the time part, the text before the first space, holds no space |
| TimeFormat.Parse | staff-portal/src/pages/Form/LabBook.tsx:8-9 | a time part without `:` gives no reading; a reading has a period exactly when the input has a space |
| TimeFormat.ConvertTo24HourFormat | staff-portal/src/pages/Form/LabBook.tsx:7-18 | the converter gives a result exactly when the input is read; a time part without `:` gives none; the output has at least five characters and reads back, with no period, as the 24-hour time of the input |
| TimeFormat.PmMovesHourUp | staff-portal/src/pages/Form/LabBook.tsx:11-12 | with period exactly `"PM"` and hour not 12, the 24-hour hour is hour + 12 and the minute is unchanged |
| TimeFormat.MidnightIsZero | staff-portal/src/pages/Form/LabBook.tsx:13-14 | with period exactly `"AM"` and hour 12, the 24-hour hour is 0 |
| TimeFormat.NoonAndMorningKeepHour | staff-portal/src/pages/Form/LabBook.tsx:11-15 | `"12 PM"` keeps hour 12, and `"AM"` with an hour other than 12 keeps its hour |
| TimeFormat.OtherPeriodKeepsHour | staff-portal/src/pages/Form/LabBook.tsx:8-15 | with no period, or any period other than exactly `"AM"`/`"PM"` (such as `"pm"`), hour and minute are unchanged |
| TimeFormat.WellFormedInRange | staff-portal/src/pages/Form/LabBook.tsx:11-15 | a well-formed 12-hour reading (hour 1..12, minute 0..59, AM/PM) lands in hour 0..23, minute 0..59 |
| TimeFormat.To24Injective | staff-portal/src/pages/Form/LabBook.tsx:11-15 | distinct well-formed readings give distinct 24-hour times |
| TimeFormat.To12 | staff-portal/src/pages/Form/LabBook.tsx:11-15 | every 24-hour time is the conversion of some well-formed 12-hour reading |
| TimeFormat.To12OfTo24 | staff-portal/src/pages/Form/LabBook.tsx:11-15 | `To12` inverts the conversion on well-formed readings, so the mapping is a bijection |
| TimeFormat.PaddedNumeral | staff-portal/src/pages/Form/LabBook.tsx:17 | a printed number padded to two places is a digit string of at least two characters with the same value, exactly two below 100 |
| TimeFormat.Format24Shape | staff-portal/src/pages/Form/LabBook.tsx:17 | for hour and minute under 100 the output is five characters, `HH:MM`, whose digit fields read back as hour and minute |
| TimeFormat.ParseTwentyFourHourText | staff-portal/src/pages/Form/LabBook.tsx:8-9 | `"H:M"` with digit fields is read as hour H, minute M and no period |
| TimeFormat.ParseFormat24 | staff-portal/src/pages/Form/LabBook.tsx:8-17 | reading the converter's output gives back the same hour and minute with no period |
| TimeFormat.ConvertIdempotent | staff-portal/src/pages/Form/LabBook.tsx:7-18 | converting an output of the converter gives that output back |
| TimeFormat.PaddedDigits | staff-portal/src/pages/Form/LabBook.tsx:17 | a two-digit string reprints as itself after `Number`, `toString` and `padStart` |
| TimeFormat.TimeInputUnchanged | staff-portal/src/pages/Form/LabBook.tsx:188-206 | a time-input value `"HH:MM"` converts to itself |
| TimeFormat.ParseTwelveHourText | staff-portal/src/pages/Form/LabBook.tsx:8-9 | `"H:M P"` with digit fields and a period without spaces is read as hour H, minute M and period P |
| TimeFormat.ConvertTwelveHourText | staff-portal/src/pages/Form/LabBook.tsx:7-18 | a well-formed 12-hour text converts to the five-character `"HH:MM"` of its 24-hour time |
| TimeFormat.ExampleAfternoon | staff-portal/src/pages/Form/LabBook.tsx:7-18 | `"01:30 PM"` converts to `"13:30"` |
| TimeFormat.ExampleMidnight | staff-portal/src/pages/Form/LabBook.tsx:7-18 | `"12:05 AM"` converts to `"00:05"` |
| LabBook.CourseOptions | staff-portal/src/pages/Form/LabBook.tsx:40-43 | the dropdown has one option per course, in order, with value = the course id and label (the field `caption`; `label` is a Dafny keyword) = the course code |
| LabBook.CourseOptionsAppend | staff-portal/src/pages/Form/LabBook.tsx:40-43 | the dropdown of a concatenated course list is the concatenation of the dropdowns |
| LabBook.CourseOptionsInjective | staff-portal/src/pages/Form/LabBook.tsx:40-43 | two course lists with the same dropdown are equal, so the mapping loses nothing |
| LabBook.RequiredFieldsPresent | staff-portal/src/pages/Form/LabBook.tsx:59 | the guard holds exactly when none of title, course id, date, start time and end time is the empty (falsy) string |
| LabBook.HandleSubmit | staff-portal/src/pages/Form/LabBook.tsx:55-78 | the form is refused exactly when a required field is empty; with the required fields present, the handler throws (nothing sent) exactly when a time has no minute field; a request is sent exactly when both times convert; the request copies the text fields and carries the converted times |
| LabBook.OptionalFieldsDoNotBlock | staff-portal/src/pages/Form/LabBook.tsx:59-72 | description and requirement description never decide whether a request is sent, and reach it as typed |
| LabBook.InitialFormRefused | staff-portal/src/pages/Form/LabBook.tsx:24-62 | the form as first shown (empty title, times `"00:00"`) is refused |
| LabBook.SubmitFromTimeInputs | staff-portal/src/pages/Form/LabBook.tsx:59-76 | with the required fields present and `"HH:MM"` time inputs, the request carries the times exactly as entered |
| LabBook.SubmitConverted | staff-portal/src/pages/Form/LabBook.tsx:59-76 | with the required fields present and both times converted, the request carries the text fields and the converted times |
| LabBook.SubmitTwelveHourTimes | staff-portal/src/pages/Form/LabBook.tsx:59-76 | with well-formed 12-hour times, a request is sent and carries their five-character 24-hour readings |

## Left out

- The GET of the course list and the POST of the booking (lines 37-53 and 69-85). They are network I/O against fixed local URLs. `CourseOptions` takes the fetched list as a parameter, and `HandleSubmit` ends at the request it would send; the success and failure alerts after the POST are not modelled.
- React state hooks, `useEffect`, the loading and error flags, `preventDefault` and all rendering (lines 24-33, 56, 88-219). They are UI plumbing; the fields of the form are the `BookingForm` value.
- `alert` and `console` calls. They are side effects with no logic to state; the refused outcome stands for the "fill in all required fields" alert.
- The fixed `createdByStaffId` of the request (line 77). It is a constant with no logic; `BookingRequest` leaves it out.
- HandleSubmit: JavaScript's coercion of a time field by `Number` is not modelled. Only hour and minute fields made of digits are read; the empty field reads as 0, as `Number("")` does. For any other field (`"-1"`, `"1.5"`, `"+7"`, `"30\t"`, `"0x1A"`, text that gives `NaN`) the source posts whatever `toString` prints. The model gives `TimeOutsideModel` instead and says nothing about that request. A time with no `:` before its first space is a different case, and it is modelled. There `minute` is undefined, so `minute.toString()` throws. That happens before the request is made and outside its `try`, so nothing is sent and no alert is shown (`ConverterThrows`).
- NatToString: hours and minutes are unbounded naturals. The model does not capture JavaScript's loss of precision above 2^53, nor the exponent notation `toString` uses from 10^21 on.
- The pieces of `split` beyond the first two, and the fields of the time beyond hour and minute, are ignored, as in the source's destructuring.
