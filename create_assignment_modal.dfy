/** The logic of `src/components/CreateAssignmentModal.jsx`: the form's
    validation, the record `handleSubmit` builds and dispatches, and the
    field update with error clearing of `handleChange`. Whether a date lies
    before today and whether a string parses as a URL are left to the
    caller, as the predicates `isPast` and `isValidUrl`. */
module CreateAssignmentModal {
  import opened Seqs
  import Store
  import Text
  import NumberInput

  datatype Field = Title | Description | DueDate | DriveLink | MaxScore

  /** The value of the `type="number"` max-score input: empty, or the text
      of a number. */
  datatype ScoreInput = Blank | Entered(text: NumberInput.NumberText)

  datatype FormData = FormData(
    title: string,
    description: string,
    dueDate: string,
    driveLink: string,
    maxScore: ScoreInput)

  /** The form as the modal opens. Its score is the number 100, which both
      `Number` and `parseInt` read as the text `100` does. */
  const InitialForm: FormData := FormData("", "", "", "", Entered(NumberInput.RawNumber(false, "100", "", None)))

  /** The messages `validateForm` records, and the empty message
      `handleChange` leaves when the user starts correcting a field. */
  datatype Message =
    | TitleRequired
    | DescriptionRequired
    | DueDateRequired
    | DueDatePast
    | DriveLinkRequired
    | InvalidUrl
    | MaxScoreTooLow
    | Cleared

  /** The text shown under the field. */
  function MessageText(m: Message): string {
    match m
    case TitleRequired => "Assignment title is required"
    case DescriptionRequired => "Description is required"
    case DueDateRequired => "Due date is required"
    case DueDatePast => "Due date cannot be in the past"
    case DriveLinkRequired => "Drive link is required"
    case InvalidUrl => "Please enter a valid URL"
    case MaxScoreTooLow => "Max score must be at least 1"
    case Cleared => ""
  }

  /** Only the cleared message is empty, so a displayed error is exactly a
      recorded message other than `Cleared`. */
  lemma OnlyClearedIsEmpty(m: Message)
    ensures MessageText(m) == "" <==> m == Cleared
  {
    if m != Cleared {
      assert |MessageText(m)| >= 20;
    }
  }

  /** `validationErrors`: a message per field. */
  type Errors = map<Field, Message>

  /** Every character of `s` is white space (so `s.trim()` is empty). */
  predicate AllSpace(s: string) {
    forall k :: 0 <= k < |s| ==> Text.IsSpace(s[k])
  }

  /** `!formData.maxScore || formData.maxScore < 1`: the empty text is
      falsy, and the comparison reads the text as `Number(text)`. */
  function ScoreTooLow(m: ScoreInput): (r: bool)
    ensures m.Blank? ==> r
    ensures m.Entered? && m.text.negative ==> r
    ensures m.Entered? && m.text.exponent.None? ==>
              (r <==> m.text.negative || Text.DigitsValue(m.text.whole) == 0)
  {
    m.Blank? || NumberInput.Value(m.text) < 1.0
  }

  /** The message a field deserves, if any: a text that is all white space
      is missing; the due date and the drive link get at most one message
      each, "required" taking precedence over the second check. */
  function FieldError(form: FormData, f: Field, isPast: string -> bool, isValidUrl: string -> bool): Option<Message>
  {
    match f
    case Title => if AllSpace(form.title) then Some(TitleRequired) else None
    case Description => if AllSpace(form.description) then Some(DescriptionRequired) else None
    case DueDate =>
      if form.dueDate == [] then Some(DueDateRequired)
      else if isPast(form.dueDate) then Some(DueDatePast)
      else None
    case DriveLink =>
      if AllSpace(form.driveLink) then Some(DriveLinkRequired)
      else if !isValidUrl(form.driveLink) then Some(InvalidUrl)
      else None
    case MaxScore => if ScoreTooLow(form.maxScore) then Some(MaxScoreTooLow) else None
  }

  /** The form passes every check. */
  predicate IsValid(form: FormData, isPast: string -> bool, isValidUrl: string -> bool) {
    forall f :: FieldError(form, f, isPast, isValidUrl).None?
  }

  /** `!s.trim()`: the text is empty once trimmed. */
  method IsBlank(s: string) returns (blank: bool)
    ensures blank <==> AllSpace(s)
  {
    blank := Text.Trim(s) == [];
  }

  /** `validateForm`: builds the error object field by field and reports
      whether it stayed empty. */
  method ValidateForm(form: FormData, isPast: string -> bool, isValidUrl: string -> bool)
    returns (ok: bool, errors: Errors)
    ensures forall f :: f in errors <==> FieldError(form, f, isPast, isValidUrl).Some?
    ensures forall f :: f in errors ==> errors[f] == FieldError(form, f, isPast, isValidUrl).value
    ensures ok <==> errors == map[]
    ensures ok <==> IsValid(form, isPast, isValidUrl)
  {
    errors := map[];
    var blank := IsBlank(form.title);
    if blank {
      errors := errors[Title := TitleRequired];
    }
    blank := IsBlank(form.description);
    if blank {
      errors := errors[Description := DescriptionRequired];
    }
    if form.dueDate == [] {
      errors := errors[DueDate := DueDateRequired];
    } else if isPast(form.dueDate) {
      errors := errors[DueDate := DueDatePast];
    }
    blank := IsBlank(form.driveLink);
    if blank {
      errors := errors[DriveLink := DriveLinkRequired];
    } else if !isValidUrl(form.driveLink) {
      errors := errors[DriveLink := InvalidUrl];
    }
    if ScoreTooLow(form.maxScore) {
      errors := errors[MaxScore := MaxScoreTooLow];
    }
    forall f
      ensures f in errors <==> FieldError(form, f, isPast, isValidUrl).Some?
      ensures f in errors ==> errors[f] == FieldError(form, f, isPast, isValidUrl).value
    {
      match f
      case Title =>
      case Description =>
      case DueDate =>
      case DriveLink =>
      case MaxScore =>
    }
    // `Object.keys(newErrors).length === 0`: no field was given a message.
    ok := errors == map[];
    if !ok {
      var f :| f in errors;
      assert FieldError(form, f, isPast, isValidUrl).Some?;
    }
  }

  /** The record `handleSubmit` dispatches: trimmed texts, the integer part
      of the entered score, the author, and the id and creation date from the
      clock. The source applies `parseInt` to the score's text instead, which
      differs on texts with an exponent (`ScoreParsedAsZero`). */
  function NewAssignment(form: FormData, currentUser: Store.User, clock: Store.Clock): (a: Store.Assignment)
    requires !ScoreTooLow(form.maxScore)
    ensures a.maxScore >= 1
    ensures a.maxScore as real <= NumberInput.Value(form.maxScore.text) < a.maxScore as real + 1.0
    ensures a.createdBy == currentUser.id
  {
    Store.Assignment(
      "assign_" + Text.Decimal(clock.millis),
      Text.Trim(form.title),
      Text.Trim(form.description),
      form.dueDate,
      Text.Trim(form.driveLink),
      NumberInput.IntegerPart(form.maxScore.text),
      currentUser.id,
      Text.DatePart(clock.iso))
  }

  /** `handleSubmit`: an invalid form dispatches nothing; a valid one
      dispatches exactly one `ADD_ASSIGNMENT` carrying the new record. */
  method HandleSubmit(form: FormData, currentUser: Store.User, isPast: string -> bool,
                      isValidUrl: string -> bool, clock: Store.Clock)
    returns (dispatched: seq<Store.Action>, errors: Errors)
    ensures errors == map[] <==> IsValid(form, isPast, isValidUrl)
    ensures forall f :: f in errors <==> FieldError(form, f, isPast, isValidUrl).Some?
    ensures !IsValid(form, isPast, isValidUrl) ==> dispatched == []
    ensures IsValid(form, isPast, isValidUrl) ==>
              && !ScoreTooLow(form.maxScore)
              && dispatched == [Store.AddAssignment(NewAssignment(form, currentUser, clock))]
  {
    var ok;
    ok, errors := ValidateForm(form, isPast, isValidUrl);
    if !ok {
      dispatched := [];
      return;
    }
    assert FieldError(form, MaxScore, isPast, isValidUrl).None?;
    dispatched := [Store.AddAssignment(NewAssignment(form, currentUser, clock))];
  }

  /** A text as `handleSubmit` stores it: non-empty, neither starting nor
      ending with white space. */
  predicate Tidy(t: string) {
    t != [] && !Text.IsSpace(t[0]) && !Text.IsSpace(t[|t| - 1])
  }

  /** Trimming a text that is not all white space leaves a tidy text, and
      trimming a tidy text changes nothing. */
  lemma TrimmedIsTidy(s: string)
    ensures !AllSpace(s) ==> Tidy(Text.Trim(s))
    ensures Tidy(s) ==> Text.Trim(s) == s
  {
    if Tidy(s) {
      assert Text.LeadingSpaces(s) == 0;
      assert Text.TextEnd(s) == |s|;
    }
  }

  /** What a valid form's fields are like. */
  lemma ValidFormFields(form: FormData, isPast: string -> bool, isValidUrl: string -> bool)
    requires IsValid(form, isPast, isValidUrl)
    ensures !AllSpace(form.title) && !AllSpace(form.description) && !AllSpace(form.driveLink)
    ensures form.dueDate != [] && !isPast(form.dueDate)
    ensures isValidUrl(form.driveLink)
    ensures !ScoreTooLow(form.maxScore)
  {
    assert FieldError(form, Title, isPast, isValidUrl).None?;
    assert FieldError(form, Description, isPast, isValidUrl).None?;
    assert FieldError(form, DueDate, isPast, isValidUrl).None?;
    assert FieldError(form, DriveLink, isPast, isValidUrl).None?;
    assert FieldError(form, MaxScore, isPast, isValidUrl).None?;
  }

  /** A valid form yields a record whose texts are the trimmed inputs and
      tidy, whose drive link passed the URL check, whose due date is the
      non-empty input and whose creation date is the date part of the
      timestamp. */
  lemma NewAssignmentWellFormed(form: FormData, currentUser: Store.User, clock: Store.Clock,
                                isPast: string -> bool, isValidUrl: string -> bool)
    requires IsValid(form, isPast, isValidUrl)
    ensures !ScoreTooLow(form.maxScore)
    ensures var a := NewAssignment(form, currentUser, clock);
            && a.title == Text.Trim(form.title) && Tidy(a.title)
            && a.description == Text.Trim(form.description) && Tidy(a.description)
            && a.driveLink == Text.Trim(form.driveLink) && Tidy(a.driveLink) && isValidUrl(form.driveLink)
            && a.dueDate == form.dueDate && a.dueDate != []
            && a.createdAt <= clock.iso && 'T' !in a.createdAt
  {
    ValidFormFields(form, isPast, isValidUrl);
    TrimmedIsTidy(form.title);
    TrimmedIsTidy(form.description);
    TrimmedIsTidy(form.driveLink);
  }

  /** Records created at different milliseconds have different ids. */
  lemma NewAssignmentIdsDiffer(f1: FormData, u1: Store.User, c1: Store.Clock,
                               f2: FormData, u2: Store.User, c2: Store.Clock)
    requires !ScoreTooLow(f1.maxScore) && !ScoreTooLow(f2.maxScore)
    requires c1.millis != c2.millis
    ensures NewAssignment(f1, u1, c1).id != NewAssignment(f2, u2, c2).id
  {
    var id1 := NewAssignment(f1, u1, c1).id;
    var id2 := NewAssignment(f2, u2, c2).id;
    Text.DecimalInjective(c1.millis, c2.millis);
    assert id1[|"assign_"|..] == Text.Decimal(c1.millis);
    assert id2[|"assign_"|..] == Text.Decimal(c2.millis);
  }

  /** The author's dashboard shows the new record, last, once it is reduced. */
  lemma AuthorSeesNewAssignment(s: Store.State, form: FormData, clock: Store.Clock)
    requires s.currentUser.role == Store.Admin
    requires !ScoreTooLow(form.maxScore)
    ensures var a := NewAssignment(form, s.currentUser, clock);
            Store.AssignmentsForCurrentUser(Store.Reduce(s, Store.AddAssignment(a), clock))
            == Store.AssignmentsForCurrentUser(s) + [a]
  {
    Store.AdminViewAfterAdd(s, NewAssignment(form, s.currentUser, clock), clock);
  }

  /** The form as it opens fails exactly the four "required" checks; its
      score of 100 passes. */
  lemma InitialFormErrors(isPast: string -> bool, isValidUrl: string -> bool)
    ensures FieldError(InitialForm, Title, isPast, isValidUrl) == Some(TitleRequired)
    ensures FieldError(InitialForm, Description, isPast, isValidUrl) == Some(DescriptionRequired)
    ensures FieldError(InitialForm, DueDate, isPast, isValidUrl) == Some(DueDateRequired)
    ensures FieldError(InitialForm, DriveLink, isPast, isValidUrl) == Some(DriveLinkRequired)
    ensures FieldError(InitialForm, MaxScore, isPast, isValidUrl) == None
    ensures !IsValid(InitialForm, isPast, isValidUrl)
  {
    assert Text.DigitsValue("100") == 100 by {
      assert "100"[..2] == "10" && "10"[..1] == "1" && "1"[..0] == [];
    }
    assert FieldError(InitialForm, Title, isPast, isValidUrl).Some?;
  }

  /** As written, `handleSubmit` stores `parseInt` of the score's text. A
      form that passes every check, with the score typed as `0.5e1`, is
      stored with a score of 0 although the check demands at least 1; the
      integer part of the entered number is 5. */
  lemma ScoreParsedAsZero(isPast: string -> bool, isValidUrl: string -> bool)
    requires !isPast("2099-12-31") && isValidUrl("https://drive.google.com/x")
    ensures var form := FormData("Essay", "Write it", "2099-12-31", "https://drive.google.com/x",
                                 Entered(NumberInput.HalfTimesTen));
            && IsValid(form, isPast, isValidUrl)
            && NumberInput.ParseInt(form.maxScore.text) == Some(0)
            && NewAssignment(form, Store.User("prof_001", "", "", Store.Admin, ""), Store.Clock(0, "")).maxScore == 5
  {
    var form := FormData("Essay", "Write it", "2099-12-31", "https://drive.google.com/x",
                         Entered(NumberInput.HalfTimesTen));
    NumberInput.ParseIntIgnoresExponent();
    assert !Text.IsSpace(form.title[0]) && !Text.IsSpace(form.description[0]) && !Text.IsSpace(form.driveLink[0]);
    forall f ensures FieldError(form, f, isPast, isValidUrl).None? {
      match f
      case Title =>
      case Description =>
      case DueDate =>
      case DriveLink =>
      case MaxScore =>
    }
  }

  // ---------------------------------------------------------------------
  // handleChange

  /** An input event: the input's `name` and its new `value`. */
  datatype Edit =
    | SetTitle(text: string)
    | SetDescription(text: string)
    | SetDueDate(text: string)
    | SetDriveLink(text: string)
    | SetMaxScore(score: ScoreInput)

  datatype Value = TextValue(text: string) | ScoreValue(score: ScoreInput)

  function FieldOf(e: Edit): Field {
    match e
    case SetTitle(_) => Title
    case SetDescription(_) => Description
    case SetDueDate(_) => DueDate
    case SetDriveLink(_) => DriveLink
    case SetMaxScore(_) => MaxScore
  }

  function ValueOf(e: Edit): Value {
    match e
    case SetMaxScore(m) => ScoreValue(m)
    case _ => TextValue(e.text)
  }

  /** `formData[name]`. */
  function Read(form: FormData, f: Field): Value {
    match f
    case Title => TextValue(form.title)
    case Description => TextValue(form.description)
    case DueDate => TextValue(form.dueDate)
    case DriveLink => TextValue(form.driveLink)
    case MaxScore => ScoreValue(form.maxScore)
  }

  /** The error under the field is displayed: a non-empty message. */
  predicate Shown(errors: Errors, f: Field) {
    f in errors && errors[f] != Cleared
  }

  /** `handleChange`: the named field takes the new value and nothing else
      in the form changes; a displayed error of that field is blanked, and
      every other message, and the set of keys, stay as they were. */
  function HandleChange(form: FormData, errors: Errors, e: Edit): (r: (FormData, Errors))
    ensures Read(r.0, FieldOf(e)) == ValueOf(e)
    ensures forall f :: f != FieldOf(e) ==> Read(r.0, f) == Read(form, f)
    ensures r.1.Keys == errors.Keys
    ensures !Shown(r.1, FieldOf(e))
    ensures forall f :: f in errors && f != FieldOf(e) ==> r.1[f] == errors[f]
    ensures !Shown(errors, FieldOf(e)) ==> r.1 == errors
  {
    var form' := match e
      case SetTitle(t) => form.(title := t)
      case SetDescription(t) => form.(description := t)
      case SetDueDate(t) => form.(dueDate := t)
      case SetDriveLink(t) => form.(driveLink := t)
      case SetMaxScore(m) => form.(maxScore := m);
    var f := FieldOf(e);
    (form', if Shown(errors, f) then errors[f := Cleared] else errors)
  }

  /** Editing one field never changes what validation says about the others. */
  lemma ChangeKeepsOtherChecks(form: FormData, errors: Errors, e: Edit,
                               isPast: string -> bool, isValidUrl: string -> bool)
    ensures forall f :: f != FieldOf(e) ==>
              FieldError(HandleChange(form, errors, e).0, f, isPast, isValidUrl)
              == FieldError(form, f, isPast, isValidUrl)
  {
    var form' := HandleChange(form, errors, e).0;
    forall f | f != FieldOf(e)
      ensures FieldError(form', f, isPast, isValidUrl) == FieldError(form, f, isPast, isValidUrl)
    {
      assert Read(form', f) == Read(form, f);
    }
  }

  /** Repeating an edit changes nothing more. */
  lemma HandleChangeIdempotent(form: FormData, errors: Errors, e: Edit)
    ensures var once := HandleChange(form, errors, e);
            HandleChange(once.0, once.1, e) == once
  {
  }
}
