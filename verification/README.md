# Spent: a Dafny model of the expense tracker's core logic

Spent is a mobile expense tracker. Users sign in, record and categorise expenses, import expenses from CSV bank exports, and view monthly totals per day and per category. This project models the logic inside that app that does not depend on the platform, and proves properties of it:

- **CSV import normaliser** (`FileService`):
  - dialect detection: English headers, or the Portuguese bank export with a `Débito` column;
  - reshaping of the bank export;
  - key normalisation and row parsing;
  - the amount canonicaliser: `1.234,56` becomes `1234.56`;
  - the date canonicaliser: three spellings become `YYYY-MM-DD`, including the `Date` constructor's roll-over of out-of-range months and days (`Calendar`).
- **Aggregates** (`TransformData`): filter by a `YYYY-MM` prefix, group by date or by category, and sum the amounts. The model includes the key order of a JavaScript object and the sort by period.
- **Stores**:
  - `ExpensesSlice`: the duplicate checks of the add operations, the refetch decision, the error text, and the expenses reducer;
  - `AuthSlice`: the authentication reducer.
- **Screens**:
  - `ManageForm`: the expense form's field checks and submit gate;
  - `Dashboard`: the dashboard's month key, month stepping and slice colours;
  - `LoginScreen`: the sign-in screen's e-mail and password checks.
- **Colour lightening** (`Tools`): `lightenHexColor`, with ECMA-262 `parseInt` and `ToInt32` semantics.

Helper modules:
- `JsString`: the JavaScript string built-ins the code uses.
- `JsNumber`: the sign of `+s` under the StringNumericLiteral grammar of section 7.1.4.1 of ECMA-262.
- `Wrappers`: `Option` and `Result`.
- `Types`: `ExpenseItem` and the request status.

Amounts stay text, as in the app. Where the app sums them with `parseFloat`, the model takes an integer-valued `amountOf` function as a parameter.

The date canonicaliser guards against impossible dates: at service/fileService.ts:155 it returns the input unchanged when `isNaN(date.getTime())`, under the comment "Check for invalid dates". That guard never fires. The captures are digit runs, and `new Date(y, m - 1, d)` rolls out-of-range months and days over instead of producing an invalid date. So `32-13-2024` is not kept: it becomes `2025-02-01`. The model follows the code (`FileService.RolloverExample`).

## Model

| member | source | states |
|---|---|---|
| FileService.TransformAmountFormat | service/fileService.ts:122-127 | no `,` survives; there are as many `.` in the result as `,` in the input; the result is shorter by exactly the number of `.` removed |
| FileService.TransformAmountFormatAppend | service/fileService.ts:122-127 | the amount canonicaliser works character by character, so it distributes over concatenation |
| FileService.AmountOfChar | service/fileService.ts:123-124 | on one character: `.` vanishes, `,` becomes `.`, anything else stays |
| FileService.AmountWithoutSeparators | service/fileService.ts:123-124 | an amount with neither `.` nor `,` comes back unchanged |
| FileService.EuropeanAmount | service/fileService.ts:122-127 | a European amount `W.TTT,CC` becomes the canonical `WTTT.CC` |
| FileService.TransformDateCanonical | service/fileService.ts:129-164 | text of none of the three exact shapes comes back unchanged; text of some shape whose date has a four-digit year becomes a `YYYY-MM-DD` spelling that denotes the same date |
| FileService.SpellingsAgree | service/fileService.ts:130-160 | for a real date with a four-digit year, the `YYYY-MM-DD`, `DD-MM-YYYY` and `DD/MM/YYYY` spellings all map to the same `YYYY-MM-DD`, which maps to itself |
| FileService.RenderedDateIsFixed | service/fileService.ts:157-159 | whatever the canonicaliser renders is a fixed point of it, including years not written with four digits |
| FileService.TransformDateIdempotent | service/fileService.ts:129-164 | canonicalising twice is canonicalising once, for every string |
| FileService.YearFirstDenotes | service/fileService.ts:132-133 | a `YYYY-MM-DD` input denotes the calendar date built from the numbers its captures spell |
| FileService.DayFirstDenotes | service/fileService.ts:136-141 | a `DD-MM-YYYY` or `DD/MM/YYYY` input denotes the calendar date built from the numbers its captures spell |
| FileService.RolloverExample | service/fileService.ts:150-159 | day 32 of month 13 is not rejected but rolls over to 1 February of the next year |
| FileService.TwoDigitYearExample | service/fileService.ts:150-154 | a year written `00YY` is read as `19YY` |
| Calendar.LocalDate | service/fileService.ts:154 | the `Date` constructor always yields a real date, whose day number is the first of the rolled-over month plus the day offset |
| Calendar.LocalDateOfValid | service/fileService.ts:154 | the constructor keeps a real date whose year is outside 0..99 |
| Calendar.LocalDateTwoDigitYear | service/fileService.ts:154 | the constructor reads years 0..99 as 1900..1999 |
| Calendar.NormaliseDay | service/fileService.ts:154 | day roll-over lands on a real date with the same day number |
| Calendar.DayNumberInjective | service/fileService.ts:154 | two real dates with the same day number are the same date, so the day number identifies a date |
| FileService.CheckIfSpecialCsv | service/fileService.ts:92 | the bank dialect is detected exactly when `Débito`, case-sensitive, occurs somewhere in the text |
| FileService.PrepareDataForParsing | service/fileService.ts:106-120 | the regular dialect passes unchanged; the bank export fails exactly when no line is left after dropping blank lines and the footer; otherwise its lines are the normalised header followed by the remaining lines in order |
| FileService.PrepareNeedsTwoLines | service/fileService.ts:109-114 | reshaping the bank export fails exactly when it has fewer than two non-blank lines |
| FileService.NonBlankMembers | service/fileService.ts:111 | the blank-line filter keeps exactly the lines that are not all white space |
| FileService.NonBlankAppend | service/fileService.ts:111 | the blank-line filter keeps the kept lines in their original order |
| FileService.NormaliseHeader | service/fileService.ts:114-119 | the reshaped header splits back into the original header's cells, each trimmed and lower-cased, one for one, and gains no line break |
| FileService.NormaliseKey | service/fileService.ts:64 | a normalised key is empty exactly when the key is blank, is no longer than the key, and has no white space at either end and no upper-case ASCII letter |
| FileService.NormaliseKeyIdempotent | service/fileService.ts:64 | normalising a key twice is normalising it once |
| JsString.SplitLinesIsSplitOnLf | service/fileService.ts:110 | splitting on `\r\n` or `\n` is splitting on LF and dropping one trailing CR from every piece but the last |
| FileService.Lookup | service/fileService.ts:63-64 | reading a key from a row built from entries gives the cell of the last entry with that key, and nothing when no entry has it |
| FileService.FormatRowKeys | service/fileService.ts:62-66 | the row keeps its length, its order and its cells; each key becomes its normalised form |
| FileService.FormatRowKeysIdempotent | service/fileService.ts:62-66 | formatting a row's keys twice is formatting them once |
| FileService.FormatRowKeysLookup | service/fileService.ts:62-66 | after formatting, a column is found under its normalised name, unless a later column normalises to the same name |
| FileService.ParseRow | service/fileService.ts:68-90 | a row is skipped exactly when its dialect's amount cell is missing or blank; a kept row without a date column throws; otherwise the record has the canonical amount and date and the category and description cells as they were |
| FileService.ProcessCsvResults | service/fileService.ts:48-60 | the import throws exactly when some row throws, never yields more records than rows, and every record it yields has an amount without a comma and a date the date canonicaliser leaves as it is |
| FileService.ProcessCsvResultsFails | service/fileService.ts:52-59 | the import throws exactly when some single row, parsed on its own, throws |
| FileService.ProcessCsvResultsAppend | service/fileService.ts:52-59 | importing two runs of rows together is importing them one after the other: records keep row order and the first error wins |
| FileService.ProcessSingleRow | service/fileService.ts:52-90 | a row contributes a record exactly when its amount cell is present and not blank, and that record carries the row's own category and description |
| FileService.ImportCsv | service/fileService.ts:16-19 | the import fails when the bank export has no header line, and otherwise throws exactly when some parsed row throws; every record it yields has an amount without a decimal comma and a date already in canonical form |
| TransformData.InPeriodMembers | service/transformDataService.ts:7-9 | an expense takes part exactly when its date starts with the target period |
| TransformData.AccumulateSums | service/transformDataService.ts:11-20 | the reduction has one entry per distinct key of its input, and each entry holds that key's sum, so the overall total is kept |
| TransformData.AccumulateOrder | service/transformDataService.ts:39-42 | the reduction lists its keys in the order of their first appearance in the input |
| TransformData.TotalsSpec | service/transformDataService.ts:7-20 | the totals' keys are exactly the keys that occur in the period, each with its total, and together they sum to the period's total |
| TransformData.SortBy | service/transformDataService.ts:21-23 | the sort yields its input's entries, a permutation with every key's total kept, in strictly increasing key order |
| TransformData.AggregateExpensesByPeriod | service/transformDataService.ts:21-23 | the periods come out in strictly increasing order |
| TransformData.AggregateByPeriodSpec | service/transformDataService.ts:3-29 | there is one entry per distinct date in the period, each holding that date's total; the totals add up to the period's total; the output is empty exactly when no date is in the period |
| TransformData.AggregateByPeriodKeysInPeriod | service/transformDataService.ts:7-9 | every period listed starts with the target period |
| TransformData.AggregateExpensesByCategory | service/transformDataService.ts:44-47 | no category is listed twice |
| TransformData.AggregateByCategorySpec | service/transformDataService.ts:31-48 | there is one entry per distinct category in the period, each holding that category's total; the totals add up to the period's total; the output is empty exactly when no date is in the period |
| TransformData.AggregateByCategoryOrder | service/transformDataService.ts:39-47 | categories that read as array indices come first, in numeric order; the other categories follow in the order they first appear in the period |
| TransformData.ObjectEntries | service/transformDataService.ts:44 | `Object.entries` is a permutation with distinct keys that keeps every total: index keys first in index order, then the other keys in insertion order |
| TransformData.IndexOrderIsNumeric | service/transformDataService.ts:44 | between two array-index keys, the order `Object.entries` uses is numeric order |
| ExpensesSlice.FindDuplicate | store/expensesSlice.ts:52-56 | nothing is found exactly when no saved record has the same description and date; otherwise the first such record is found |
| ExpensesSlice.AddExpense | store/expensesSlice.ts:45-67 | a failed read rejects with its error; a record with the description and date of a saved one gives `'DUPLICATE'` and is not written; otherwise a failed write rejects with the write's error, and a successful one fulfils with the record itself |
| ExpensesSlice.AddAgreesWithSingleBatch | store/expensesSlice.ts:45-112 | when the write succeeds, adding one record and adding a batch of that one record agree: both reject, both report the duplicate, or both add it |
| ExpensesSlice.NewExpensesMembers | store/expensesSlice.ts:90-98 | a record is new exactly when it is in the batch and repeats no saved record |
| ExpensesSlice.NewExpensesAppend | store/expensesSlice.ts:90-98 | the batch filter works record by record, so new records keep their batch order |
| ExpensesSlice.NewExpensesSingle | store/expensesSlice.ts:90-98 | a one-record batch keeps its record exactly when the single add would add it |
| ExpensesSlice.NewExpensesKeepsRepeats | store/expensesSlice.ts:90-98 | repeats within the batch are not removed |
| ExpensesSlice.AddMultipleExpenses | store/expensesSlice.ts:84-112 | a failed read rejects with its error; otherwise the result is `'DUPLICATE'` exactly when no record of the batch is new, the empty batch included, and any other result is the non-empty list of new records |
| ExpensesSlice.RefetchIff | store/expensesSlice.ts:18-26 | the list is refetched exactly when reading the saved records failed or some record of the batch was new |
| ExpensesSlice.ClearPendingSetsUnknownError | store/expensesSlice.ts:217-220 | starting a clear records the unknown-error text and sets status `loading` |
| ExpensesSlice.Reduce | store/expensesSlice.ts:172-236 | an action the slice does not handle changes nothing; only a fulfilled fetch, update, delete or clear touches the list; every rejection sets status `failed` and the error text of its thrown value, which is an `Error`'s message or else the fixed unknown-error text; every handled action leaves a status other than `idle` |
| ExpensesSlice.StatusDependsOnActionOnly | store/expensesSlice.ts:177-236 | the status after a handled action depends on the action alone and is never `idle` |
| ExpensesSlice.FetchAndClearSpec | store/expensesSlice.ts:182-185 | a fulfilled fetch replaces the list wholesale and a fulfilled clear empties it; both set `succeeded` and leave the error alone |
| ExpensesSlice.FindIndex | store/expensesSlice.ts:199-201 | the position found is the first with the id, and -1 means no item has it |
| ExpensesSlice.DeleteSpec | store/expensesSlice.ts:210-216 | a fulfilled delete keeps exactly the items with a different id, sets `succeeded` and clears the error |
| ExpensesSlice.DeleteKeepsOrder | store/expensesSlice.ts:211-213 | deletion works item by item, so the kept items stay in order |
| ExpensesSlice.DeleteIdempotent | store/expensesSlice.ts:210-216 | deleting the same id twice is deleting it once |
| ExpensesSlice.UpdateSpec | store/expensesSlice.ts:198-205 | when the id is present, a fulfilled update replaces one item with that id by the payload; the length and every other item stay as they were; status is `succeeded` with no error |
| ExpensesSlice.UpdateAbsentId | store/expensesSlice.ts:199-202 | an update whose id is absent leaves the visible list as it was |
| AuthSlice.Reduce | store/authSlice.ts:131-198 | an action the slice does not handle changes nothing; a pending operation only sets `loading`; a new error appears only together with status `failed`; a state that reports success or has not started, with no error, keeps having none |
| AuthSlice.ClearErrorsSpec | store/authSlice.ts:135-137 | `clearErrors` clears the error, changes nothing else, and is idempotent |
| AuthSlice.PendingSpec | store/authSlice.ts:141-193 | each pending operation sets `loading` and keeps user and error |
| AuthSlice.SignedInSpec | store/authSlice.ts:144-160 | a completed sign-up or sign-in records the user, sets `succeeded` and clears the error, whatever the state before |
| AuthSlice.SignedOutSpec | store/authSlice.ts:170-182 | a completed sign-out forgets the user and clears the error; a failed session check forgets the user and records the error |
| AuthSlice.RejectedKeepsUser | store/authSlice.ts:149-197 | every rejection other than the session check's sets `failed`, records the error and keeps the user |
| AuthSlice.ChangePasswordWithoutUser | store/authSlice.ts:194-197 | a password change rejected with a bare string records the unknown-error text |
| AuthSlice.ReducePreservesConsistent | store/authSlice.ts:139-198 | no action leaves an error in a state that reports success or has not started |
| AuthSlice.InitialRunsConsistent | store/authSlice.ts:125-199 | from the initial state, every run of actions keeps that consistency |
| ManageForm.InitialInputsRoundTrip | components/ManageForm.tsx:14-28 | submitting a form as it opens gives back the edited expense without its id, or, for a new expense, the empty record in category `Others` |
| ManageForm.InputHandlerChangesOnlyNamed | components/ManageForm.tsx:30-41 | the named field takes the entered text and becomes valid; every other field keeps its text and flag |
| ManageForm.InputHandler | components/ManageForm.tsx:30-41 | a field the form has reads back as the entered text |
| ManageForm.Validate | components/ManageForm.tsx:73-96 | only the four known field names can pass |
| ManageForm.AmountValid | components/ManageForm.tsx:75-76 | a passing amount is not blank, does not start with `-`, and has no comma |
| ManageForm.DateValid | components/ManageForm.tsx:77-88 | a passing date has one of the shapes the importer reads, and never a day-first one |
| ManageForm.TextValidIff | components/ManageForm.tsx:89-92 | a description or category passes exactly when it holds a character that is not white space |
| ManageForm.BlankAmountInvalid | components/ManageForm.tsx:75-76 | an empty or blank amount fails, because it coerces to zero |
| ManageForm.DigitAmountValid | components/ManageForm.tsx:75-76 | a whole number of digits passes exactly when it is not all zeros |
| ManageForm.FutureOrUnparsedDateInvalid | components/ManageForm.tsx:77-88 | a date the parser rejects, or one later than now, fails |
| ManageForm.SubmitHandler | components/ManageForm.tsx:43-71 | what is submitted is the record the fields spell |
| ManageForm.SubmitIff | components/ManageForm.tsx:51-56 | the form submits exactly when amount, date and description pass; the category is not checked |
| ManageForm.BlankCategorySubmits | components/ManageForm.tsx:54-56 | an empty category does not stop an otherwise valid form |
| ManageForm.RejectShowsChecks | components/ManageForm.tsx:57-69 | on rejection every field keeps its text and shows its own check's result |
| ManageForm.RejectFlagsAField | components/ManageForm.tsx:55-70 | a rejected form marks at least one of amount, date and description invalid |
| ManageForm.EmptyFormRejected | components/ManageForm.tsx:14-76 | a fresh, empty form cannot be submitted |
| JsNumber.CoercedSign | components/ManageForm.tsx:76 | blank text coerces to zero |
| JsNumber.TinyLiteral | components/ManageForm.tsx:76 | `1e-d` coerces to zero exactly when `2^1075 <= 10^d`, where the value rounds to zero as a double, and to a positive number otherwise |
| JsNumber.NegativeExponentSign | components/ManageForm.tsx:76 | `1e-d` coerces to zero from `d = 359` on, so an amount such as `1e-400` fails, and to a positive number for `d <= 321` |
| JsNumber.BlankIsZero | components/ManageForm.tsx:76 | every blank amount, the empty one included, coerces to zero |
| JsNumber.DigitsSign | components/ManageForm.tsx:76 | a run of decimal digits coerces to a positive number exactly when some digit is not `0`, and to zero otherwise |
| JsNumber.MinusNeverPositive | components/ManageForm.tsx:76 | text starting with `-` never coerces to a positive number |
| JsNumber.CommaIsNotANumber | components/ManageForm.tsx:76 | a comma, as in a European `12,50`, makes the amount not a number |
| Dashboard.MonthFromName | screens/Dashboard.tsx:36-52 | a month name maps to its position in the month table, and an unknown name to no month |
| Dashboard.YearMonth | screens/Dashboard.tsx:56-61 | the key ends with a dash and two digits that spell the shown month's number, 1 to 12 |
| Dashboard.YearMonthShape | screens/Dashboard.tsx:56-61 | for a four-digit year the key is `YYYY-MM`; an unknown month name selects January |
| Dashboard.YearMonthPrefixesDates | screens/Dashboard.tsx:56-61 | the key of a month is a prefix of the canonical spelling of every date in it |
| Dashboard.HandleMonthChange | screens/Dashboard.tsx:91-108 | the month index stays within 0..11, and a step never turns a known month into an unknown one or back |
| Dashboard.StepIsOneMonth | screens/Dashboard.tsx:93-101 | back is one month earlier and forward one month later in the continuous month count, across year ends too |
| Dashboard.WrapAtYearEnds | screens/Dashboard.tsx:96-101 | back from January is December of the year before; forward from December is January of the year after |
| Dashboard.StepWithinYear | screens/Dashboard.tsx:93-95 | inside the year the index moves by one and the year stays |
| Dashboard.StepsCancel | screens/Dashboard.tsx:91-105 | forward then back, or back then forward, returns to the same month and year |
| Dashboard.SliceColour | screens/Dashboard.tsx:77 | every slice gets a colour from the palette |
| Dashboard.SliceColoursCycle | screens/Dashboard.tsx:77 | the palette repeats every ten slices, and neighbouring slices never share a colour |
| LoginScreen.EmailValidation | screens/LoginScreen.tsx:38-42 | an address passes exactly when some `@` is followed later by a `.` with no line terminator between them |
| LoginScreen.HandleAuth | screens/LoginScreen.tsx:20-36 | the e-mail is checked first and the password length second; a request is sent exactly when both pass, the validation text is then cleared, and `isLogin` chooses sign-in or sign-up |
| LoginScreen.SignUpDisabled | screens/LoginScreen.tsx:83 | Sign Up is disabled exactly when the e-mail is empty or the password is shorter than six code units |
| LoginScreen.SixCharacterPasswordRefused | screens/LoginScreen.tsx:25-28 | a six-character password enables Sign Up, yet the press is refused with a message saying six characters are enough |
| LoginScreen.HandleAuthIntended | screens/LoginScreen.tsx:20-36 | with the announced threshold of six, a request is sent exactly when the e-mail passes and the password has at least six code units |
| LoginScreen.EnabledSignUpSends | screens/LoginScreen.tsx:83 | with the announced threshold, an enabled Sign Up button and a valid e-mail always send the sign-up request |
| LoginScreen.EmailMessageMarksEmail | screens/LoginScreen.tsx:54 | the e-mail message marks the e-mail field and not the password field |
| LoginScreen.PasswordMessageMarksPassword | screens/LoginScreen.tsx:62 | the password message marks the password field and not the e-mail field |
| Tools.LightenHexColor | service/tools.ts:1-19 | the result starts with `#`; for any input whose lightened channels are not negative, it is a lower-case six-digit colour spelling the three capped channels in their original order |
| Tools.ParseInt16 | service/tools.ts:2 | `parseInt(_, 16)` is `NaN` exactly when no hexadecimal digit follows the optional sign and `0x`, and is never negative without a `-` |
| Tools.ToInt32 | service/tools.ts:4-6 | the bitwise operators see a value in the signed 32-bit range, equal to the parsed number whenever that number is already in range |
| Tools.ParseSixDigitColour | service/tools.ts:2 | a `#RRGGBB` colour parses to its three bytes packed high to low |
| Tools.ChannelsOfColour | service/tools.ts:2-14 | each channel of a six-digit colour is its own byte plus the amount, capped at 255, in its original position |
| Tools.LightenMonotone | service/tools.ts:11-14 | a larger amount never darkens a channel, and a channel at 255 stays at 255 |
| Tools.LightenSixDigitColour | service/tools.ts:8-18 | for a non-negative amount, the result is `#` and six lower-case digits, two per channel, each spelling its capped channel |
| Tools.LightenByZero | service/tools.ts:3-18 | lightening by zero gives the same colour in lower case |
| Tools.LightenedColourReadsBack | service/tools.ts:1-19 | a lightened colour reads back as the capped channels, and lightening it again by zero leaves it as it is |

## Left out

- Picking the file, reading it and base64-decoding it (service/fileService.ts:94-104), and the `Alert` error path, are platform I/O. The model starts from the decoded text.
- `Papa.parse` (service/fileService.ts:26-46) is a foreign library. Its output is a parameter of `FileService.ImportCsv`, given as rows of (column, cell) entries.
- The database and authentication services are backend calls. These are `fetchExistingExpenses`, `addExpenseToDB`, `update`, `remove`, `getUserId`, and the sign-in, sign-up, session and password calls. Their answers are inputs: the saved records as a `Result`, what a single add's write throws, and the actions' payloads.
- The bulk add's writes (store/expensesSlice.ts:102-106) are database calls and are not modelled. They are started but never awaited: the `map` callback at lines 103-105 has a block body with no `return`, so `Promise.all` gets `undefined` values and resolves at once. A failed write therefore cannot reject `addMultipleExpenses`, and `ExpensesSlice.AddMultipleExpenses` needs no write-failure input.
- The `useEffect` fetch on the dashboard (screens/Dashboard.tsx:85-89) is a UI effect and is not modelled.
- `parseFloat` and the floating-point sums in the aggregates are not modelled. An integer-valued `amountOf` parameter stands for `parseFloat`.
- `Math.round(2.55 * percent)` is not modelled; `Tools.LightenHexColor` takes the rounded integer `amt` directly.
- `localeCompare` in the period sort is locale-dependent. The model sorts by code point, which is how it orders the ASCII `YYYY-MM-DD` keys.
- `Date.parse` and the current time in the form's date check are parameters (`ManageForm.Clock`), as they depend on the clock and the time zone.
- Time zones and the `Date` range limit are left out. The date canonicaliser's `Date` constructor is modelled in local calendar arithmetic without them. That range limit is ±8.64e15 ms; only years far beyond any four-digit capture reach it.
- `toLowerCase` is modelled for Basic Latin and the Latin-1 Supplement only. Header and column names outside that range are not case-mapped.
- JavaScript `null` and `undefined` are both modelled as `None`. A missing category or description cell is `None` in the imported record.
- `Tools.LightenHexColor` takes a string, so the `hex?.` path for an `undefined` colour is not modelled.
- Keys inherited from `Object.prototype` (such as `constructor`) are not modelled. A row lookup or an aggregate bucket with such a name reads only the row's own entries.
- ExpensesSlice.UpdateAbsentId: an update whose id is absent writes `items[-1]`. That creates a property that is not a list element; the model states only that the visible list is unchanged.
- Tools.LightenHexColor: when a lightened channel is negative (a negative amount, or a parse that wraps to a negative 32-bit number), the contract states only that the result starts with `#`. The printed text then contains `-`; the body computes it, but no lemma describes it.
- Tools.LightenSixDigitColour: requires `amt >= 0`. A negative amount can make a channel negative, and the printed result then contains `-` and is not a colour.
- Tools.LightenedColourReadsBack: requires `amt >= 0`, for the same reason.
- Tools.ParseInt16: the result is exact. `parseInt` rounds values above 2^53 to the nearest double before `ToInt32` wraps them, which only matters for hexadecimal runs longer than thirteen digits.
- FileService.SpellingsAgree: stated for four-digit years, the only ones the three patterns can spell with that year. Years 0..99 are covered separately by `FileService.TwoDigitYearExample`.
- The screens' rendering, navigation, history filtering, chart percentages, the expenses list sort and the style constants carry no modelled behaviour.

## Findings

| source | as written | input that shows it | evidently intended | confidence | as-written member | corrected member |
|---|---|---|---|---|---|---|
| screens/LoginScreen.tsx:25-28 | `handleAuth` refuses passwords shorter than 7 code units, with the message "Password should be at least 6 characters." | e-mail `a@b.c`, password `abcdef`: Sign Up is enabled (line 83 checks `< 6`), but pressing it shows the error and sends nothing | the threshold the message and the Sign Up button use: at least 6 | high, not executed | LoginScreen.SixCharacterPasswordRefused | LoginScreen.HandleAuthIntended |
