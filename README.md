# Work-order manager: business-day calendar, order store and task list

This project models the sequential core of a small browser app. The app manages
work orders (OS) and the tasks logged against them. The model has two parts.

1. **The business-day calendar** (`assets/js/app.js` lines 9-46 and
   `assets/js/holidays-br.js`):
   - `YYYY-MM-DD` date-input strings are turned into local dates (`toDate`) and back
     (`toISODateString`).
   - `addDays` moves a date by whole days, and `isWeekend` flags Saturdays and Sundays.
   - `countBusinessDays` counts the days of an inclusive range that are neither
     weekends nor holidays. It walks from the earlier date to the later one.
   - The holiday test comes from `holidays-br.js`: a set of eight fixed Brazilian
     national holidays per year, kept as `YYYY-MM-DD` strings.
2. **The order store and the task list** (`assets/js/app.js` lines 48-70 and the
   table handlers):
   - Orders are saved, loaded and deleted in `localStorage` under the key
     `os_manager_` + the trimmed id.
   - The open order's task list is appended to, filtered by id, cleared and totalled.
   - Cell values are HTML-escaped.

The model is organised in these modules:

- `Wrappers`: `Option`, standing for the JavaScript `null`.
- `JsString`: the JavaScript string and number conversions the code relies on
  (`String(n)`, `Number(s)`, `padStart`, `split`, `trim`).
- `JsDate`: the local calendar of a JavaScript `Date`. A date value is its day
  number counted from 1970-01-01. The getters, `setDate` and `new Date(y, m, d)` are
  computed over the proleptic Gregorian calendar. The `DateObject` class is a
  mutable `Date`, used where the code copies a date and changes the copy in place.
- `Holidays`: `holidays-br.js`.
- `BusinessDays`: the date utilities and `countBusinessDays`.
  - `addDays` is a method: it copies its argument into a fresh `DateObject` and
    moves the copy with `setDate`.
  - The count is a method whose loop steps one `DateObject` through the range.
  - It is proved equal to the size of the set of business days in the range.
  - Symmetry, bounds, additivity, the one-day case, the seven-day case and the
    holiday/weekend interplay are proved about that set.
- `OrderStore`: a `Store` class. It holds the `localStorage` map and an abstract
  serialiser/parser pair standing for `JSON.stringify`/`JSON.parse`.
- `TaskList`: the `Task` record, the filter, find and total functions, and the
  `AppState` class whose handlers change the task list.
- `Html`: `escapeHtml`.

The holiday predicate reaches `countBusinessDays` through `window.isBrazilHoliday`,
which may be missing. In the model it is an `Option<Date -> bool>` parameter, and
`Holidays.IsBrazilHoliday` is the function the app installs there.

## Model

| member | source | states |
|---|---|---|
| `JsString.IntToString` | assets/js/app.js:20 | a non-negative number prints as a non-empty run of ASCII digits |
| `JsString.NatToString` | assets/js/app.js:18-20 | the numeral has no leading zero; it is one character exactly below 10 and at most two exactly below 100 |
| `JsString.Number` | assets/js/app.js:12 | `Number` of a digit field is 0 exactly when every digit is `0` |
| `JsString.NumberOfNatToString` | assets/js/app.js:12 | `Number(String(n)) == n` for every natural n |
| `JsString.NatToStringOfNumber` | assets/js/app.js:12 | a digit string without a leading zero prints back as itself after `Number` |
| `JsString.PadStart` | assets/js/app.js:18-19 | the result has length max(len, \|s\|), ends with s and is filled with the pad character in front |
| `JsString.PadStartTwoDigits` | assets/js/holidays-br.js:7 | `String(n).padStart(2, '0')` is the two-digit numeral of n for 0 <= n < 100 |
| `JsString.TwoDigitsOfNumber` | assets/js/app.js:12 | a two-digit field reads as a number below 100 whose two-digit numeral is the field itself |
| `JsString.Split` | assets/js/app.js:12 | `split` yields at least one part and no part contains the separator |
| `JsString.SplitAtFirst` | assets/js/app.js:12 | splitting `a + sep + b` with sep not in a yields a followed by the parts of b |
| `JsString.Trim` | assets/js/app.js:52 | the result is the slice left after removing whitespace at both ends; it is empty exactly when the input is all whitespace |
| `JsDate.Date.GetFullYear` | assets/js/app.js:17 | `getFullYear()` is the one year whose days contain the date |
| `JsDate.Date.GetMonth` | assets/js/app.js:18 | `getMonth()` lies in 0..11 |
| `JsDate.Date.GetDate` | assets/js/app.js:19 | `getDate()` lies within the month, and year, month and day name exactly this day number |
| `JsDate.Date.GetDay` | assets/js/app.js:30 | `getDay()` lies in 0..6 |
| `JsDate.Date.SetDate` | assets/js/app.js:25 | `setDate(k)` moves the date by k minus its current day of the month, carrying overflow into other months |
| `JsDate.DateObject.constructor` | assets/js/app.js:24 | `new Date(date)` is a fresh object holding the same day |
| `JsDate.DateObject.SetDate` | assets/js/app.js:25 | `setDate` changes the object in place to the day `Date.SetDate` describes |
| `JsDate.CivilRoundTrip` | assets/js/app.js:13 | the getters read back the year, month and day a valid calendar date was built from |
| `JsDate.NewDate` | assets/js/app.js:13 | `new Date(y, m, d)` of a valid calendar date has exactly those getters (years 0..99 meaning 1900..1999) |
| `JsDate.FullYear` | assets/js/app.js:13 | years from 100 on are kept, years 0..99 become 1900..1999 |
| `Holidays.Pad2` | assets/js/holidays-br.js:7 | `pad2(n)` has at least two characters and is the two-digit numeral for 0 <= n < 100 |
| `Holidays.ToIsoDateString` | assets/js/holidays-br.js:9-14 | the string is the year, '-', the two-digit 1-based month, '-', the two-digit day |
| `Holidays.BuildFixedHolidaySet` | assets/js/holidays-br.js:16-33 | the loop builds the set of keys of the eight fixed (month, day) pairs of the year |
| `Holidays.GetBrazilHolidays` | assets/js/holidays-br.js:35-37 | `getBrazilHolidays(y)` is the fixed holiday set of y |
| `Holidays.KeyShape` | assets/js/holidays-br.js:30 | for month and day below 100, a key is the year's numeral, '-', the two-digit month, '-', the two-digit day |
| `Holidays.KeyInjective` | assets/js/holidays-br.js:30 | two keys of one year are equal only for the same month and day |
| `Holidays.FixedHolidaySetSize` | assets/js/holidays-br.js:18-31 | every year's set has exactly eight members |
| `Holidays.FixedHolidayEntry` | assets/js/holidays-br.js:18-31 | every member is the year, '-', two digits, '-', two digits, and those digits name one of the eight fixed pairs |
| `Holidays.KeyInHolidaySet` | assets/js/holidays-br.js:39-44 | a key is in the set exactly when its (month, day) pair is one of the fixed pairs |
| `Holidays.IsBrazilHoliday` | assets/js/holidays-br.js:39-44 | a date is a holiday exactly when its (1-based month, day) is one of Jan 1, Apr 21, May 1, Sep 7, Oct 12, Nov 2, Nov 15, Dec 25 |
| `Holidays.HolidayDependsOnMonthAndDay` | assets/js/holidays-br.js:39-44 | two dates with the same month and day are both holidays or both not, whatever their year or weekday |
| `BusinessDays.ToDate` | assets/js/app.js:10-14 | `toDate` returns null exactly for the empty input |
| `BusinessDays.ToDateOfFields` | assets/js/app.js:10-14 | `toDate("y-m-d")` of digit fields is `new Date(Number(y), Number(m) - 1, Number(d))` |
| `BusinessDays.ToIsoDateString` | assets/js/app.js:16-21 | the string is the year, '-', the two-digit 1-based month, '-', the two-digit day |
| `BusinessDays.IsoFormatsAgree` | assets/js/app.js:16-21 | the two `toISODateString` functions of the app produce the same string |
| `BusinessDays.ParseFormat` | assets/js/app.js:10-21 | a valid `YYYY-MM-DD` string whose year has no leading zero and at least three digits formats back to itself after `toDate` |
| `BusinessDays.FormatParse` | assets/js/app.js:10-21 | `toDate(toISODateString(d))` is d for every date whose year is at least 100 |
| `BusinessDays.ParseOfFormat` | assets/js/app.js:10-21 | the formatted string of a date with a non-negative year is a date input that `toDate` reads as `new Date` of the date's own year, month and day |
| `BusinessDays.RebuildFromFields` | assets/js/app.js:13 | `new Date(y, m, d)` of a date's own fields is that date when the year is at least 100 |
| `BusinessDays.DaysAfter` | assets/js/app.js:23-27 | the day `setDate(getDate() + n)` lands on is exactly n days after the date, for negative n too |
| `BusinessDays.AddDays` | assets/js/app.js:23-27 | `addDays(d, n)` returns a fresh object n days after d and leaves d unchanged |
| `BusinessDays.DaysAfterWithinMonth` | assets/js/app.js:23-27 | a move inside the month keeps year and month and shifts the day of the month by n |
| `BusinessDays.DaysAfterCompose` | assets/js/app.js:23-27 | adding a then b days is adding a + b days |
| `BusinessDays.DaysAfterWeekday` | assets/js/app.js:23-27 | adding n days advances the weekday by n modulo 7 |
| `BusinessDays.IsWeekend` | assets/js/app.js:29-32 | a date is a weekend day exactly when its day number is 2 or 3 modulo 7 (1970-01-03 was a Saturday) |
| `BusinessDays.WeekendRecursWeekly` | assets/js/app.js:29-32 | moving a whole number of weeks never changes whether a date is a weekend day |
| `BusinessDays.CountBusinessDays` | assets/js/app.js:34-46 | the loop returns 0 without both dates and otherwise the number of business days between them, both ends included |
| `BusinessDays.CountDay` | assets/js/app.js:40-44 | one turn of the loop adds one to the count exactly when the day is a business day |
| `BusinessDays.SetStep` | assets/js/app.js:40-45 | one more iteration adds the new day exactly when it is neither a weekend nor a holiday |
| `BusinessDays.CountSymmetric` | assets/js/app.js:37-40 | the count is the same with the endpoints swapped |
| `BusinessDays.CountBounds` | assets/js/app.js:35-45 | the count is 0 when a date is missing and never exceeds the number of days in the range |
| `BusinessDays.CountSingleDay` | assets/js/app.js:40-45 | a one-day range counts 1 exactly when the day is neither a weekend nor a holiday |
| `BusinessDays.CountSplit` | assets/js/app.js:40-45 | the count over a range is the sum of the counts over two adjacent parts |
| `BusinessDays.FullWeek` | assets/js/app.js:41 | without holidays, any seven consecutive days hold exactly five business days |
| `BusinessDays.HolidaysRemoveOnlyWeekdays` | assets/js/app.js:41-42 | the holiday predicate removes exactly the holidays falling on weekdays, so a holiday on a weekend is not subtracted twice |
| `OrderStore.BuildStorageKey` | assets/js/app.js:51-53 | the key is the prefix `os_manager_` followed by a slice of the id that has only whitespace around it in the id and no whitespace at either of its own ends |
| `OrderStore.StorageKeyEqualIff` | assets/js/app.js:51-53 | two ids share a key exactly when their trimmed forms are equal |
| `OrderStore.BlankIdUsesBarePrefix` | assets/js/app.js:51-57 | a whitespace-only id, which `saveOrder` accepts, is stored under the bare prefix |
| `OrderStore.Store.LoadOrder` | assets/js/app.js:60-65 | `loadOrder` gives null for an empty id or a missing record; a result it gives is the parse of the stored string |
| `OrderStore.Store.SaveOrder` | assets/js/app.js:55-58 | an empty id throws without writing; a write the storage quota refuses throws `QuotaExceededError` and leaves the storage as it was; otherwise the record is stored under its key and `loadOrder` returns it; every record under another key is unchanged in all cases |
| `OrderStore.Store.DeleteOrder` | assets/js/app.js:67-70 | an empty id changes nothing; otherwise the key is removed, `loadOrder` then returns null, and every record under another key is unchanged |
| `TaskList.WithoutId` | assets/js/app.js:197 | the filter keeps exactly the tasks whose id differs |
| `TaskList.WithoutIdAppend` | assets/js/app.js:197 | filtering works piecewise over concatenation, so the kept tasks stay in their original order |
| `TaskList.WithoutAbsentId` | assets/js/app.js:214 | filtering by an id no task carries leaves the list unchanged |
| `TaskList.WithoutIdIdempotent` | assets/js/app.js:214 | filtering twice by one id is filtering once |
| `TaskList.FindById` | assets/js/app.js:202 | `find` returns the first task with the id, or null exactly when no task has it |
| `TaskList.TotalBusinessDays` | assets/js/app.js:148 | no task's days exceed the total, and the total is 0 exactly when every task has 0 days |
| `TaskList.TotalAppend` | assets/js/app.js:148 | the business-day total of two lists put together is the sum of their totals |
| `TaskList.TotalWithoutId` | assets/js/app.js:148 | deleting by id lowers the total by exactly the days of the deleted tasks |
| `TaskList.IsComplete` | assets/js/app.js:226-233 | the form passes validation exactly when responsible and activity hold a non-whitespace character and both dates are filled in |
| `TaskList.NewTask` | assets/js/app.js:238-249 | each of the four text fields is trimmed and is a slice of the form's field with only whitespace around it; the id, dates, business-day count, hours and status are copied unchanged; a complete form gives a non-empty responsible and activity |
| `TaskList.AppState.SubmitTask` | assets/js/app.js:222-256 | an incomplete form changes nothing; a complete one appends the trimmed task with the business-day count of its dates |
| `TaskList.AppState.DeleteTask` | assets/js/app.js:195-199 | an empty id changes nothing; otherwise every task with the id is removed |
| `TaskList.AppState.EditTask` | assets/js/app.js:201-216 | the first task with the id is returned for the form and all tasks with the id are removed; nothing changes when none has it |
| `TaskList.AppState.ClearTasks` | assets/js/app.js:301-309 | the list is emptied only when it is not empty and the user confirms |
| `TaskList.AppState.StartNewOrder` | assets/js/app.js:261-270 | the list is emptied unless an order id is set, tasks exist and the user declines |
| `Html.ReplaceAll` | assets/js/app.js:180-185 | a global one-character replacement removes the character when the replacement lacks it, and keeps the presence of every character that is neither the replaced one nor in the replacement |
| `Html.EscapeHtml` | assets/js/app.js:179-186 | the output contains no `<`, `>`, `"` or `'` |
| `Html.EscapeHtmlIsEscapeEach` | assets/js/app.js:179-186 | the five passes in a row escape each character exactly once; an `&` added by the first pass is never escaped again |
| `Html.EscapeHtmlAmpersands` | assets/js/app.js:179-186 | every `&` of the output begins one of `&amp;` `&lt;` `&gt;` `&quot;` `&#039;` |
| `Html.UnescapeEscapeHtml` | assets/js/app.js:179-186 | decoding the five entities gives the input back, so escaping loses nothing |

## Left out

- The DOM wiring is not modelled: `queryRefs`, the `bind*` handlers' event plumbing, `renderTable`'s markup, `alert`/`confirm` and the logo upload. They are UI side effects. A `confirm` answer is a parameter of the handlers modelled here.
- `tryLoadByOrderId` (assets/js/app.js:375-384) is not modelled. It replaces the task list with the tasks of a loaded order, and that depends on the shape of the parsed JSON object, which the abstract `parse` does not describe.
- `OrderStore.Store.SaveOrder` does not model the storage quota itself. Whether `setItem` accepts a write depends on the size of everything the browser stores for the page, including the logo's data URL in the saved record. It is the parameter `accepted`.
- `persistIfPossible` and the save button's payload object are not modelled. They read live form fields and the clock, and their only effect on the store is `Store.SaveOrder`. `persistIfPossible` ignores a `Thrown` outcome, and the save button lets it escape.
- The XLSX and PDF exports and the WhatsApp and e-mail links are not modelled. They call foreign libraries or `window.open`.
- `Date.now()` task ids and `new Date().toISOString()` timestamps are clock reads. The id is a parameter of `SubmitTask`.
- The hours total and `Number(ui.hours.value || 0)` are floating-point. `hours` is a `real` taken as given.
- `JSON.stringify` and `JSON.parse` are an abstract pair, `serialize` and `parse`. Parsing undoes serialising, and no record serialises to the empty string.
- Time zones and daylight-saving time are not modelled. A date is a whole local day, and `<=` on dates compares day numbers.
- `BusinessDays.ToDate` requires an empty input or one whose first three dash-separated fields are ASCII digits, which is what a date input produces. An `Invalid Date` (NaN) from other input is not modelled.
- `BusinessDays.ParseFormat` and `JsDate.NewDate` do not model the ECMAScript time-value limit. A date more than 100,000,000 days from 1970-01-01 (after 275760-09-13 or before -271821-04-20) is an `Invalid Date` in JavaScript. For example, `toDate("300000-01-01")` is invalid there and `toISODateString` of it gives `NaN-NaN-NaN`, while the model builds a real date. A date input never produces such a year.
- `BusinessDays.CountBusinessDays` counts over dates past that limit, where JavaScript returns 0 because every comparison with NaN is false.
- `JsString.Number` covers digit strings only. `Number` of other text gives NaN or a float.
- Dates handed between functions are values. The code never mutates a date it was given: `addDays` and `countBusinessDays` copy before changing. So sharing of `Date` objects between callers is not modelled; only the copies that are mutated are `DateObject`s.
- Order ids and task ids are strings. `String(orderId || '')` of a non-string id is not modelled.
- `BusinessDays.FormatParse` holds for years from 100 on. `toDate` remaps years 0..99 to 1900..1999.
- `BusinessDays.ParseFormat` needs a year of three or more digits with no leading zero. `toISODateString` does not zero-pad the year, so `0999-01-01` comes back as `999-01-01`.
- Concrete dated examples are not stated, for instance 2024-01-01..05 counting 4. The general lemmas cover them: `CountSingleDay`, `FullWeek` and `HolidaysRemoveOnlyWeekdays`.
