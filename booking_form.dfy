/**
 * The step-by-step booking form: one booking field per step, a validator for
 * the current step's value, and Next / Previous buttons moving between steps.
 *
 * Translated messages are modelled by their message keys; `t(...)` is the
 * identity here.
 */
module BookEventForm {
  import opened Wrappers

  // ---------------------------------------------------------------------------
  // Booking fields
  // ---------------------------------------------------------------------------

  /** A booking field of the event type. A missing property is None. */
  datatype Field = Field(name: Option<string>, fieldType: Option<string>, labelText: Option<string>, required: bool)

  /** JavaScript truthiness of an optional string: present and not "". */
  predicate Truthy(s: Option<string>)
  {
    s.Some? && s.value != ""
  }

  /** A field that cannot be shown as a step: no name, no type, or a text field without a label. */
  predicate IsFieldEmpty(field: Field): (empty: bool)
    ensures !empty <==>
              && field.name.Some? && |field.name.value| > 0
              && field.fieldType.Some? && |field.fieldType.value| > 0
              && (field.fieldType.value == "text" ==> field.labelText.Some? && |field.labelText.value| > 0)
  {
    !Truthy(field.name) || !Truthy(field.fieldType) || (field.fieldType == Some("text") && !Truthy(field.labelText))
  }

  /** Fields the form handles elsewhere, never as a step of their own. */
  predicate IsReservedName(name: Option<string>)
  {
    name == Some("location") || name == Some("guests") || name == Some("rescheduleReason") || name == Some("notes")
  }

  /** The filter's test: a field becomes a step when its name is not reserved and it is not empty. */
  predicate IsStepField(field: Field)
  {
    !IsReservedName(field.name) && !IsFieldEmpty(field)
  }

  /** The step fields of a list, in their original order. */
  function StepFields(fields: seq<Field>): (r: seq<Field>)
    ensures |r| <= |fields|
    ensures forall f :: f in r <==> f in fields && IsStepField(f)
  {
    if fields == [] then []
    else if IsStepField(fields[0]) then [fields[0]] + StepFields(fields[1..])
    else StepFields(fields[1..])
  }

  /** Filtering a concatenation filters each part: with the one-field case this makes StepFields an order-keeping filter. */
  lemma {:induction false} StepFieldsAppend(a: seq<Field>, b: seq<Field>)
    ensures StepFields(a + b) == StepFields(a) + StepFields(b)
  {
    if a == [] {
      assert a + b == b;
    } else {
      assert (a + b)[1..] == a[1..] + b;
      StepFieldsAppend(a[1..], b);
    }
  }

  /** `bookingFields`: the step fields of the event type, or none when it has no field list. */
  function BookingFields(eventFields: Option<seq<Field>>): (r: seq<Field>)
    ensures eventFields.None? ==> r == []
    ensures forall i :: 0 <= i < |r| ==> IsStepField(r[i]) && r[i].name.Some? && r[i].name.value != ""
    ensures forall f :: f in r <==> eventFields.Some? && f in eventFields.value && IsStepField(f)
  {
    if eventFields.None? then [] else StepFields(eventFields.value)
  }

  // ---------------------------------------------------------------------------
  // Email check
  // ---------------------------------------------------------------------------

  /**
   * JavaScript's `\s`, which is also the set `String.prototype.trim` removes:
   * the WhiteSpace and LineTerminator code points.
   */
  predicate IsJsSpace(c: char)
  {
    c == '\t' || c == '\n' || c == '\U{000B}' || c == '\U{000C}' || c == '\r' || c == ' '
    || c == '\U{00A0}' || c == '\U{1680}' || ('\U{2000}' <= c <= '\U{200A}')
    || c == '\U{2028}' || c == '\U{2029}' || c == '\U{202F}' || c == '\U{205F}'
    || c == '\U{3000}' || c == '\U{FEFF}'
  }

  /** A character of the class `[^\s@]`. */
  predicate IsAtomChar(c: char)
  {
    !IsJsSpace(c) && c != '@'
  }

  predicate AllAtoms(s: string)
  {
    forall k :: 0 <= k < |s| ==> IsAtomChar(s[k])
  }

  /**
   * The regular expression `^[^\s@]+@[^\s@]+\.[^\s@]+$` read as a split of
   * the string: an `@` at `at`, a `.` at `dot`, each of the three runs around
   * them non-empty, and every other character in `[^\s@]`.
   */
  ghost predicate EmailPatternMatches(email: string)
  {
    exists at, dot :: 1 <= at && at + 2 <= dot && dot + 2 <= |email| && email[at] == '@' && email[dot] == '.'
      && (forall k :: 0 <= k < |email| && k != at ==> IsAtomChar(email[k]))
  }

  /** Index of the first `c` in `s`. */
  function IndexOf(s: string, c: char): (r: Option<nat>)
    ensures r.Some? ==> r.value < |s| && s[r.value] == c && forall k :: 0 <= k < r.value ==> s[k] != c
    ensures r.None? ==> forall k :: 0 <= k < |s| ==> s[k] != c
  {
    if s == [] then None
    else if s[0] == c then Some(0)
    else match IndexOf(s[1..], c)
      case None => None
      case Some(i) => Some(i + 1)
  }

  /** A domain after the `@`: at least one `[^\s@]` on each side of some `.`. */
  predicate IsDomain(domain: string)
  {
    |domain| >= 3 && AllAtoms(domain) && '.' in domain[1..|domain| - 1]
  }

  /** What the scan accepts, given the first `@` it found: a non-empty run of `[^\s@]` before it and a domain after it. */
  predicate ScanAccepts(email: string, found: Option<nat>)
    requires found.Some? ==> found.value < |email|
  {
    found.Some? && found.value > 0 && AllAtoms(email[..found.value]) && IsDomain(email[found.value + 1..])
  }

  /** The scan accepts only strings the regular expression matches. */
  lemma ScanAcceptsOnlyPattern(email: string, found: Option<nat>)
    requires found == IndexOf(email, '@') && ScanAccepts(email, found)
    ensures EmailPatternMatches(email)
  {
    var at := found.value;
    var domain := email[at + 1..];
    var j :| 1 <= j < |domain| - 1 && domain[j] == '.';
    var dot := at + 1 + j;
    assert email[dot] == domain[j];
    forall k | 0 <= k < |email| && k != at ensures IsAtomChar(email[k]) {
      if k < at {
        assert email[k] == email[..at][k];
      } else {
        assert email[k] == domain[k - at - 1];
      }
    }
  }

  /** Every string the regular expression matches is accepted by the scan. */
  lemma PatternScanAccepts(email: string, found: Option<nat>)
    requires found == IndexOf(email, '@') && EmailPatternMatches(email)
    ensures ScanAccepts(email, found)
  {
    var at, dot :| 1 <= at && at + 2 <= dot && dot + 2 <= |email| && email[at] == '@' && email[dot] == '.'
      && (forall k :: 0 <= k < |email| && k != at ==> IsAtomChar(email[k]));
    assert found.Some? && found.value == at;
    var domain := email[at + 1..];
    assert domain[dot - at - 1] == '.';
    assert domain[1..|domain| - 1][dot - at - 2] == '.';
  }

  /** `isValidEmail`: true exactly when `^[^\s@]+@[^\s@]+\.[^\s@]+$` matches the whole string. */
  function IsValidEmail(email: string): (ok: bool)
    ensures ok <==> EmailPatternMatches(email)
  {
    var found := IndexOf(email, '@');
    assert ScanAccepts(email, found) <==> EmailPatternMatches(email) by {
      if ScanAccepts(email, found) { ScanAcceptsOnlyPattern(email, found); }
      if EmailPatternMatches(email) { PatternScanAccepts(email, found); }
    }
    ScanAccepts(email, found)
  }

  /** An accepted email has no whitespace and exactly one `@`, preceded by a non-empty local part. */
  lemma ValidEmailShape(email: string)
    requires IsValidEmail(email)
    ensures forall k :: 0 <= k < |email| ==> !IsJsSpace(email[k])
    ensures exists at :: 0 < at < |email| && email[at] == '@' && forall k :: 0 <= k < |email| && email[k] == '@' ==> k == at
  {
    var at, dot :| 1 <= at && at + 2 <= dot && dot + 2 <= |email| && email[at] == '@' && email[dot] == '.'
      && (forall k :: 0 <= k < |email| && k != at ==> IsAtomChar(email[k]));
    assert 0 < at < |email|;
  }

  // ---------------------------------------------------------------------------
  // Validation and error messages
  // ---------------------------------------------------------------------------

  const REQUIRED_FIELD := "required_field"
  const INVALID_EMAIL := "invalid_email"
  const SOMETHING_WENT_WRONG := "something_went_wrong"

  /** `String.prototype.trim`: leading and trailing `\s` removed. */
  function Trim(s: string): (r: string)
    decreases |s|
  {
    if s == [] then []
    else if IsJsSpace(s[0]) then Trim(s[1..])
    else if IsJsSpace(s[|s| - 1]) then Trim(s[..|s| - 1])
    else s
  }

  /** A value trims to "" exactly when every character is whitespace. */
  lemma {:induction false} TrimEmptyIff(s: string)
    ensures Trim(s) == [] <==> forall k :: 0 <= k < |s| ==> IsJsSpace(s[k])
    decreases |s|
  {
    if s != [] {
      if IsJsSpace(s[0]) {
        TrimEmptyIff(s[1..]);
        if forall k :: 0 <= k < |s[1..]| ==> IsJsSpace(s[1..][k]) {
          forall k | 0 <= k < |s| ensures IsJsSpace(s[k]) {
            if k > 0 { assert s[k] == s[1..][k - 1]; }
          }
        }
      } else if IsJsSpace(s[|s| - 1]) {
        TrimEmptyIff(s[..|s| - 1]);
        assert s[..|s| - 1][0] == s[0];
      }
    }
  }

  /** `!value || value.trim() === ''` for a string value. */
  predicate IsBlank(value: string)
  {
    value == "" || Trim(value) == ""
  }

  /**
   * `validateField`: a required field with a blank value fails with
   * `required_field`, which wins over the email check; an email field with a
   * non-empty value that is not an email fails with `invalid_email`; anything
   * else passes (None is `null`).
   */
  function ValidateField(field: Field, value: string): (r: Option<string>)
    ensures r == Some(REQUIRED_FIELD) <==> field.required && forall k :: 0 <= k < |value| ==> IsJsSpace(value[k])
    ensures r == Some(INVALID_EMAIL) <==>
              !(field.required && IsBlank(value)) && field.fieldType == Some("email") && value != "" && !EmailPatternMatches(value)
    ensures r.None? <==>
              (!field.required || exists k :: 0 <= k < |value| && !IsJsSpace(value[k]))
              && (field.fieldType != Some("email") || value == "" || EmailPatternMatches(value))
  {
    TrimEmptyIff(value);
    if field.required && IsBlank(value) then Some(REQUIRED_FIELD)
    else if field.fieldType == Some("email") && value != "" && !IsValidEmail(value) then Some(INVALID_EMAIL)
    else None
  }

  /** What an error property of the booking mutation may hold: a list of messages, one message, or anything else. */
  datatype ErrorValue = Messages(items: seq<string>) | Message(text: string) | Absent

  predicate IsNonEmptyList(e: ErrorValue)
  {
    e.Messages? && |e.items| > 0
  }

  /**
   * `getError`: the first message of a non-empty form error list, else of a
   * non-empty data error list, else a form error string, else a data error
   * string, else `something_went_wrong`.
   */
  function GetError(formErrors: ErrorValue, dataErrors: ErrorValue): (key: string)
    ensures IsNonEmptyList(formErrors) ==> key == formErrors.items[0]
    ensures !IsNonEmptyList(formErrors) && IsNonEmptyList(dataErrors) ==> key == dataErrors.items[0]
    ensures !IsNonEmptyList(formErrors) && !IsNonEmptyList(dataErrors) && formErrors.Message? ==> key == formErrors.text
    ensures !IsNonEmptyList(formErrors) && !IsNonEmptyList(dataErrors) && !formErrors.Message? && dataErrors.Message?
            ==> key == dataErrors.text
    ensures key == SOMETHING_WENT_WRONG || key in Reported(formErrors) || key in Reported(dataErrors)
    ensures Reported(formErrors) == {} && Reported(dataErrors) == {} ==> key == SOMETHING_WENT_WRONG
  {
    if IsNonEmptyList(formErrors) then formErrors.items[0]
    else if IsNonEmptyList(dataErrors) then dataErrors.items[0]
    else if formErrors.Message? then formErrors.text
    else if dataErrors.Message? then dataErrors.text
    else SOMETHING_WENT_WRONG
  }

  /** Messages an error value could report: the head of a list, or the single message. */
  function Reported(e: ErrorValue): set<string>
  {
    match e
    case Messages(items) => if |items| > 0 then {items[0]} else {}
    case Message(text) => {text}
    case Absent => {}
  }

  // ---------------------------------------------------------------------------
  // Button labels
  // ---------------------------------------------------------------------------

  /** A parent callback the form invokes. */
  datatype Callback = Submit | VerifyEmail | Cancel

  /** What Next does on the last step once the value is valid. */
  function FinalCallback(confirmCond: bool): (c: Callback)
    ensures c != Cancel
    ensures c == Submit <==> confirmCond
  {
    if confirmCond then Submit else VerifyEmail
  }

  /**
   * The primary button: `next` before the last step; on the last step
   * `confirm` for an instant meeting or when the confirm condition holds,
   * else `verify_email_email_button`.
   */
  function PrimaryButtonLabel(currentStep: int, totalSteps: int, isInstantMeeting: bool, confirmCond: bool): (text: string)
    ensures text == "next" <==> currentStep != totalSteps - 1
    ensures currentStep == totalSteps - 1 ==> (text == "confirm" <==> isInstantMeeting || FinalCallback(confirmCond) == Submit)
    ensures currentStep == totalSteps - 1 ==> (text == "verify_email_email_button" <==> FinalCallback(confirmCond) == VerifyEmail && !isInstantMeeting)
  {
    if currentStep == totalSteps - 1 then
      if isInstantMeeting then "confirm"
      else if confirmCond then "confirm"
      else "verify_email_email_button"
    else "next"
  }

  /** The secondary button: `cancel` on the first step, where Previous cancels, else `previous`. */
  function SecondaryButtonLabel(currentStep: int): (text: string)
    ensures text == "cancel" <==> currentStep == 0
    ensures text == "cancel" || text == "previous"
  {
    if currentStep == 0 then "cancel" else "previous"
  }

  // ---------------------------------------------------------------------------
  // The form's state
  // ---------------------------------------------------------------------------

  /** `formValues[name] || ""`: a missing value reads as "". */
  function ValueOf(formValues: map<string, string>, name: string): string
  {
    if name in formValues then formValues[name] else ""
  }

  /**
   * The state of MultiStepBookEventForm. `storedFormValues` is what the booker
   * store last received and `calls` lists the parent callbacks invoked, in order.
   */
  class MultiStepForm {
    const bookingFields: seq<Field>
    var currentStep: int
    var formValues: map<string, string>
    var fieldError: string
    var storedFormValues: Option<map<string, string>>
    var calls: seq<Callback>

    /** The current step is one of the fields, and every field has a name to key its value by. */
    ghost predicate Valid()
      reads this
    {
      && 0 <= currentStep < |bookingFields|
      && forall i :: 0 <= i < |bookingFields| ==> bookingFields[i].name.Some?
    }

    function TotalSteps(): int
      reads this
    {
      |bookingFields|
    }

    /** A fresh form on the first step, with no values and no error. */
    constructor (eventFields: Option<seq<Field>>)
      requires |BookingFields(eventFields)| > 0
      ensures Valid()
      ensures bookingFields == BookingFields(eventFields)
      ensures currentStep == 0 && formValues == map[] && fieldError == ""
      ensures storedFormValues == None && calls == []
    {
      bookingFields := BookingFields(eventFields);
      currentStep := 0;
      formValues := map[];
      fieldError := "";
      storedFormValues := None;
      calls := [];
    }

    /** `handleInputChange`: records one value, leaves every other key alone and clears the error. */
    method HandleInputChange(name: string, value: string)
      requires Valid()
      modifies this
      ensures Valid()
      ensures formValues == old(formValues)[name := value]
      ensures forall k :: k != name ==> (k in formValues <==> k in old(formValues))
      ensures forall k :: k != name && k in formValues ==> formValues[k] == old(formValues)[k]
      ensures fieldError == ""
      ensures currentStep == old(currentStep) && storedFormValues == old(storedFormValues) && calls == old(calls)
    {
      formValues := formValues[name := value];
      fieldError := "";
    }

    /**
     * `handleNext`: validates the current step's value. A failure only sets
     * the error; a success moves one step on, or on the last step stores the
     * values and submits or asks for email verification.
     */
    method HandleNext(confirmCond: bool)
      requires Valid()
      modifies this
      ensures Valid()
      ensures formValues == old(formValues)
      ensures var field := bookingFields[old(currentStep)];
              var verdict := ValidateField(field, ValueOf(old(formValues), field.name.value));
              && (verdict.Some? ==>
                    currentStep == old(currentStep) && fieldError == verdict.value
                    && storedFormValues == old(storedFormValues) && calls == old(calls))
              && (verdict.None? && old(currentStep) < TotalSteps() - 1 ==>
                    currentStep == old(currentStep) + 1 && fieldError == old(fieldError)
                    && storedFormValues == old(storedFormValues) && calls == old(calls))
              && (verdict.None? && old(currentStep) == TotalSteps() - 1 ==>
                    currentStep == old(currentStep) && fieldError == old(fieldError)
                    && storedFormValues == Some(formValues) && calls == old(calls) + [FinalCallback(confirmCond)])
    {
      var currentField := bookingFields[currentStep];
      var fieldValue := ValueOf(formValues, currentField.name.value);
      var validationResult := ValidateField(currentField, fieldValue);
      if validationResult.None? {
        if currentStep < |bookingFields| - 1 {
          currentStep := currentStep + 1;
        } else {
          storedFormValues := Some(formValues);
          if confirmCond {
            calls := calls + [Submit];
          } else {
            calls := calls + [VerifyEmail];
          }
        }
      } else {
        fieldError := validationResult.value;
      }
    }

    /** `handlePrevious`: one step back and the error cleared, or cancel on the first step. */
    method HandlePrevious()
      requires Valid()
      modifies this
      ensures Valid()
      ensures formValues == old(formValues) && storedFormValues == old(storedFormValues)
      ensures old(currentStep) > 0 ==> currentStep == old(currentStep) - 1 && fieldError == "" && calls == old(calls)
      ensures old(currentStep) == 0 ==> currentStep == 0 && fieldError == old(fieldError) && calls == old(calls) + [Cancel]
    {
      if currentStep > 0 {
        currentStep := currentStep - 1;
        fieldError := "";
      } else {
        calls := calls + [Cancel];
      }
    }
  }
}
