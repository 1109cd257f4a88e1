/**
 * The expense form: its four fields with their validity flags, the initial
 * state, the edit handler, the per-field checks and the submit gate. The
 * clock and `Date.parse` are parameters: `parse` answers `None` where
 * `Date.parse` gives `NaN`, and `now` is the current time in the same unit.
 */
module ManageForm {
  import opened Wrappers
  import opened JsString
  import opened Types
  import JsNumber
  import FileService

  /** One field: the text shown and whether it last passed its check. */
  datatype Input = Input(value: string, isValid: bool)

  datatype Inputs = Inputs(amount: Input, date: Input, description: Input, category: Input)

  /** What the date check needs from outside: `Date.parse` and the time now. */
  datatype Clock = Clock(parse: string -> Option<int>, now: int)

  const DefaultCategory := "Others"

  /** The form's state when it opens, empty or filled from the expense
      being edited; every field starts out valid. */
  function InitialInputs(value: Option<Expense>): (r: Inputs)
    ensures r.amount.isValid && r.date.isValid && r.description.isValid && r.category.isValid
    ensures value.None? ==> r.category.value == DefaultCategory
                            && r.amount.value == r.date.value == r.description.value == ""
    ensures value.Some? ==> r.amount.value == value.value.amount && r.date.value == value.value.date
                            && r.description.value == value.value.description
                            && r.category.value == value.value.category
  {
    match value
    case None => Inputs(Input("", true), Input("", true), Input("", true), Input(DefaultCategory, true))
    case Some(e) => Inputs(Input(e.amount, true), Input(e.date, true), Input(e.description, true), Input(e.category, true))
  }

  /** Submitting a form as it opens gives back the record it was opened
      with, without its id; an empty form gives the empty record in category
      `Others`. */
  lemma InitialInputsRoundTrip(value: Option<Expense>)
    ensures ExpenseData(InitialInputs(value))
            == if value.Some? then value.value.(id := None) else Expense(None, "", DefaultCategory, "", "")
  {
  }

  /** The value of the field named `name`, if the form has one. */
  function FieldValue(inputs: Inputs, name: string): Option<string> {
    if name == "amount" then Some(inputs.amount.value)
    else if name == "date" then Some(inputs.date.value)
    else if name == "description" then Some(inputs.description.value)
    else if name == "category" then Some(inputs.category.value)
    else None
  }

  /** `inputHandler`: the named field takes the entered text and is marked
      valid. Any other name adds a key the form never reads, so the four
      fields stay as they were. */
  function InputHandler(inputs: Inputs, name: string, entered: string): (r: Inputs)
    ensures FieldValue(inputs, name).Some? ==> FieldValue(r, name) == Some(entered)
  {
    var field := Input(entered, true);
    if name == "amount" then inputs.(amount := field)
    else if name == "date" then inputs.(date := field)
    else if name == "description" then inputs.(description := field)
    else if name == "category" then inputs.(category := field)
    else inputs
  }

  /** The named field becomes valid with the entered text, and every other
      field keeps its text and its flag. */
  lemma InputHandlerChangesOnlyNamed(inputs: Inputs, name: string, entered: string)
    ensures var r := InputHandler(inputs, name, entered);
            && (name == "amount" ==> r.amount == Input(entered, true))
            && (name != "amount" ==> r.amount == inputs.amount)
            && (name == "date" ==> r.date == Input(entered, true))
            && (name != "date" ==> r.date == inputs.date)
            && (name == "description" ==> r.description == Input(entered, true))
            && (name != "description" ==> r.description == inputs.description)
            && (name == "category" ==> r.category == Input(entered, true))
            && (name != "category" ==> r.category == inputs.category)
  {
  }

  /** `+amount > 0`, which also rejects `NaN`. A passing amount is not
      blank, does not start with `-` and has no decimal comma. */
  function AmountValid(amount: string): (ok: bool)
    ensures ok ==> |Trim(amount)| > 0 && Trim(amount)[0] != '-' && ',' !in Trim(amount)
  {
    JsNumber.PositiveShape(amount);
    JsNumber.CoercedSign(amount) == JsNumber.Positive
  }

  /** `/^\d{4}-\d{2}-\d{2}$/`, then a parse that is not `NaN`, then not later
      than now. A passing date has one of the shapes the importer reads, and
      never a day-first one. */
  function DateValid(date: string, clock: Clock): (ok: bool)
    ensures ok ==> FileService.MatchesSomeFormat(date)
    ensures ok ==> !FileService.MatchesDayFirst(date, '-') && !FileService.MatchesDayFirst(date, '/')
  {
    if FileService.MatchesYearFirst(date) then
      assert IsDigit(date[..4][2]);
      clock.parse(date).Some? && clock.parse(date).value <= clock.now
    else
      false
  }

  /** `text?.trim().length > 0`. */
  predicate TextValid(text: string) {
    |Trim(text)| > 0
  }

  /** `validate(name, expenseData)`: the check for the named field, and
      `false` for any other name. */
  function Validate(name: string, data: Expense, clock: Clock): (ok: bool)
    ensures ok ==> name == "amount" || name == "date" || name == "category" || name == "description"
  {
    if name == "amount" then AmountValid(data.amount)
    else if name == "date" then DateValid(data.date, clock)
    else if name == "category" then TextValid(data.category)
    else if name == "description" then TextValid(data.description)
    else false
  }

  /** A text field passes exactly when it holds a character that is not
      white space. */
  lemma TextValidIff(text: string)
    ensures TextValid(text) <==> exists i :: 0 <= i < |text| && !IsWhitespace(text[i])
  {
    TrimEmptyIff(text);
  }

  /** The empty amount, and any blank one, fails: it coerces to zero. */
  lemma BlankAmountInvalid(amount: string)
    requires AllWhitespace(amount)
    ensures !AmountValid(amount)
  {
    JsNumber.BlankIsZero(amount);
  }

  /** A whole number of digits passes exactly when it is not all zeros. */
  lemma DigitAmountValid(amount: string)
    requires |amount| > 0 && AllDigits(amount)
    ensures AmountValid(amount) <==> JsNumber.HasNonZeroDigit(amount)
  {
    JsNumber.DigitsSign(amount);
  }

  /** A date with the right shape that parses to a time after now fails; so
      does one the parser rejects. */
  lemma FutureOrUnparsedDateInvalid(date: string, clock: Clock)
    requires clock.parse(date).None? || clock.parse(date).value > clock.now
    ensures !DateValid(date, clock)
  {
  }

  /** The record the form submits, with no id yet. */
  function ExpenseData(inputs: Inputs): Expense {
    Expense(None, inputs.amount.value, inputs.category.value, inputs.description.value, inputs.date.value)
  }

  /** What pressing the submit button does: hand the record on, or show the
      fields again with their check results. */
  datatype SubmitOutcome = Submit(data: Expense) | Reject(shown: Inputs)

  /** `submitHandler`. */
  function SubmitHandler(inputs: Inputs, clock: Clock): (r: SubmitOutcome)
    ensures r.Submit? ==> r.data == ExpenseData(inputs)
  {
    var data := ExpenseData(inputs);
    var amountOk := Validate("amount", data, clock);
    var dateOk := Validate("date", data, clock);
    var descriptionOk := Validate("description", data, clock);
    var categoryOk := Validate("category", data, clock);
    if amountOk && dateOk && descriptionOk then Submit(data)
    else
      Reject(Inputs(
        Input(inputs.amount.value, amountOk),
        Input(inputs.date.value, dateOk),
        Input(inputs.description.value, descriptionOk),
        Input(inputs.category.value, categoryOk)))
  }

  /** The form submits exactly when amount, date and description pass; the
      category is not part of the gate. */
  lemma SubmitIff(inputs: Inputs, clock: Clock)
    ensures SubmitHandler(inputs, clock).Submit?
            <==> AmountValid(inputs.amount.value) && DateValid(inputs.date.value, clock)
                 && TextValid(inputs.description.value)
  {
  }

  /** A blank category does not stop an otherwise valid form. */
  lemma BlankCategorySubmits(inputs: Inputs, clock: Clock)
    requires AmountValid(inputs.amount.value) && DateValid(inputs.date.value, clock)
    requires TextValid(inputs.description.value)
    requires inputs.category.value == ""
    ensures SubmitHandler(inputs, clock) == Submit(ExpenseData(inputs))
  {
  }

  /** On rejection every field keeps its text and shows its own check. */
  lemma RejectShowsChecks(inputs: Inputs, clock: Clock)
    requires SubmitHandler(inputs, clock).Reject?
    ensures var shown := SubmitHandler(inputs, clock).shown;
            && shown.amount == Input(inputs.amount.value, AmountValid(inputs.amount.value))
            && shown.date == Input(inputs.date.value, DateValid(inputs.date.value, clock))
            && shown.description == Input(inputs.description.value, TextValid(inputs.description.value))
            && shown.category == Input(inputs.category.value, TextValid(inputs.category.value))
  {
  }

  /** A rejected form shows at least one of amount, date and description as
      invalid. */
  lemma RejectFlagsAField(inputs: Inputs, clock: Clock)
    requires SubmitHandler(inputs, clock).Reject?
    ensures var shown := SubmitHandler(inputs, clock).shown;
            !shown.amount.isValid || !shown.date.isValid || !shown.description.isValid
  {
  }

  /** A fresh, empty form cannot be submitted: its amount is empty. */
  lemma EmptyFormRejected(clock: Clock)
    ensures SubmitHandler(InitialInputs(None), clock).Reject?
  {
    BlankAmountInvalid("");
  }
}
