/**
 The lab-booking form: the course dropdown built from the fetched course list, and the submit
 handler, which refuses a form with a required field left empty and otherwise posts a booking
 whose start and end times have been through the time converter.
 */
module LabBook {
  import opened Wrappers
  import opened TimeFormat

  // ---- Course dropdown ----

  /** A course as the course-listing service returns it (only the fields the form reads). */
  datatype Course = Course(id: string, code: string)

  /** One entry of the course dropdown: the submitted value and the caption shown (the `label` of the source; `label` is a Dafny keyword). */
  datatype CourseOption = CourseOption(value: string, caption: string)

  /** The dropdown entries: one per course, in the same order, valued by the course's id and
      labelled with its code. */
  function CourseOptions(courses: seq<Course>): (options: seq<CourseOption>)
    ensures |options| == |courses|
    ensures forall i :: 0 <= i < |courses| ==>
      options[i].value == courses[i].id && options[i].caption == courses[i].code
    decreases |courses|
  {
    if courses == [] then []
    else [CourseOption(courses[0].id, courses[0].code)] + CourseOptions(courses[1..])
  }

  /** The dropdown of a concatenated list is the concatenation of the dropdowns. */
  lemma CourseOptionsAppend(a: seq<Course>, b: seq<Course>)
    ensures CourseOptions(a + b) == CourseOptions(a) + CourseOptions(b)
  {
  }

  /** The dropdown loses nothing: two course lists with the same dropdown are equal. */
  lemma CourseOptionsInjective(a: seq<Course>, b: seq<Course>)
    requires CourseOptions(a) == CourseOptions(b)
    ensures a == b
  {
  }

  // ---- Submitting a booking ----

  /** The form's controlled fields, as the text their inputs hold. */
  datatype BookingForm = BookingForm(
    title: string,
    description: string,
    requirementDescription: string,
    courseId: string,
    date: string,
    startTime: string,
    endTime: string)

  /** The body of the booking request. */
  datatype BookingRequest = BookingRequest(
    title: string,
    description: string,
    requirementDescription: string,
    courseId: string,
    date: string,
    startTime: string,
    endTime: string)

  /** What pressing "Book Lab" leads to. */
  datatype SubmitOutcome =
    | MissingRequiredFields          // the "fill in all required fields" alert; nothing is sent
    | ConverterThrows                // a time without ':' makes the converter throw; nothing is sent
    | TimeOutsideModel               // a time field whose coercion by `Number` is not modelled
    | Post(request: BookingRequest)  // the booking request that is sent

  /** The validation guard: a string is falsy in JavaScript exactly when it is empty, and
      title, course, date, start and end time must all be truthy. */
  function RequiredFieldsPresent(f: BookingForm): (ok: bool)
    ensures ok <==> "" !in [f.title, f.courseId, f.date, f.startTime, f.endTime]
  {
    f.title != [] && f.courseId != [] && f.date != [] && f.startTime != [] && f.endTime != []
  }

  /** `handleSubmit` up to the network call. Both times are converted before the request is
      made, so a converter that throws on either of them stops the handler. */
  function HandleSubmit(f: BookingForm): (r: SubmitOutcome)
    ensures r == MissingRequiredFields <==> !RequiredFieldsPresent(f)
    ensures r == ConverterThrows <==>
      RequiredFieldsPresent(f) && (MinuteMissing(f.startTime) || MinuteMissing(f.endTime))
    ensures r.Post? <==>
      RequiredFieldsPresent(f)
      && ConvertTo24HourFormat(f.startTime).Some? && ConvertTo24HourFormat(f.endTime).Some?
    ensures r.Post? ==>
      r.request.title == f.title && r.request.description == f.description
      && r.request.requirementDescription == f.requirementDescription
      && r.request.courseId == f.courseId && r.request.date == f.date
      && Some(r.request.startTime) == ConvertTo24HourFormat(f.startTime)
      && Some(r.request.endTime) == ConvertTo24HourFormat(f.endTime)
  {
    if !RequiredFieldsPresent(f) then MissingRequiredFields
    else if MinuteMissing(f.startTime) || MinuteMissing(f.endTime) then ConverterThrows
    else
      match (ConvertTo24HourFormat(f.startTime), ConvertTo24HourFormat(f.endTime))
      case (Some(start), Some(end)) =>
        Post(BookingRequest(f.title, f.description, f.requirementDescription,
                            f.courseId, f.date, start, end))
      case _ => TimeOutsideModel
  }

  /** Description and requirements are optional: what they hold never decides whether the
      booking is sent, and they reach the request as typed. */
  lemma OptionalFieldsDoNotBlock(f: BookingForm, description: string, requirementDescription: string)
    ensures var g := f.(description := description, requirementDescription := requirementDescription);
      HandleSubmit(g).Post? == HandleSubmit(f).Post?
      && (HandleSubmit(g).Post? ==>
            HandleSubmit(g).request == HandleSubmit(f).request.(
              description := description, requirementDescription := requirementDescription))
  {
  }

  /** The form as it is first shown has an empty title, so submitting it is refused. */
  lemma InitialFormRefused()
    ensures HandleSubmit(BookingForm("", "", "", "", "", "00:00", "00:00")) == MissingRequiredFields
  {
  }

  /** The time fields come from time inputs, which hold "HH:MM"; for such a form with the
      required fields filled in, the booking is sent with the times exactly as entered. */
  lemma SubmitFromTimeInputs(f: BookingForm)
    requires RequiredFieldsPresent(f)
    requires IsTimeInputValue(f.startTime) && IsTimeInputValue(f.endTime)
    ensures HandleSubmit(f) == Post(BookingRequest(f.title, f.description, f.requirementDescription,
                                                   f.courseId, f.date, f.startTime, f.endTime))
  {
    TimeInputUnchanged(f.startTime);
    TimeInputUnchanged(f.endTime);
    SubmitConverted(f, f.startTime, f.endTime);
  }

  /** With the required fields present and both times converted, the request is sent with the
      converted times. */
  lemma SubmitConverted(f: BookingForm, start: string, end: string)
    requires RequiredFieldsPresent(f)
    requires ConvertTo24HourFormat(f.startTime) == Some(start)
    requires ConvertTo24HourFormat(f.endTime) == Some(end)
    ensures HandleSubmit(f) == Post(BookingRequest(f.title, f.description, f.requirementDescription,
                                                   f.courseId, f.date, start, end))
  {
  }

  /** For times typed in the 12-hour form "H:MM AM|PM", the request carries their 24-hour
      "HH:MM" readings. */
  lemma SubmitTwelveHourTimes(f: BookingForm, sh: string, sm: string, sp: string,
                              eh: string, em: string, ep: string)
    requires f.title != [] && f.courseId != [] && f.date != []
    requires JsStrings.IsDigits(sh) && JsStrings.IsDigits(sm) && ' ' !in sp
    requires JsStrings.IsDigits(eh) && JsStrings.IsDigits(em) && ' ' !in ep
    requires f.startTime == sh + ":" + sm + " " + sp && f.endTime == eh + ":" + em + " " + ep
    requires WellFormed12(Time12(JsStrings.DigitsValue(sh), JsStrings.DigitsValue(sm), Some(sp)))
    requires WellFormed12(Time12(JsStrings.DigitsValue(eh), JsStrings.DigitsValue(em), Some(ep)))
    ensures HandleSubmit(f).Post?
    ensures var s := To24(Time12(JsStrings.DigitsValue(sh), JsStrings.DigitsValue(sm), Some(sp)));
      HandleSubmit(f).request.startTime == Format24(s.0, s.1) && |Format24(s.0, s.1)| == 5
    ensures var e := To24(Time12(JsStrings.DigitsValue(eh), JsStrings.DigitsValue(em), Some(ep)));
      HandleSubmit(f).request.endTime == Format24(e.0, e.1) && |Format24(e.0, e.1)| == 5
  {
    var s := To24(Time12(JsStrings.DigitsValue(sh), JsStrings.DigitsValue(sm), Some(sp)));
    var e := To24(Time12(JsStrings.DigitsValue(eh), JsStrings.DigitsValue(em), Some(ep)));
    ConvertTwelveHourText(sh, sm, sp);
    ConvertTwelveHourText(eh, em, ep);
    assert f.startTime != [] && f.endTime != [];
    SubmitConverted(f, Format24(s.0, s.1), Format24(e.0, e.1));
  }
}
