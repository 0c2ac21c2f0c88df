# ProofGuard warranty lifecycle, modelled in Dafny

ProofGuard is a browser warranty tracker. Its engine lives in `app.js`.
It keeps three stored lists:

- the active warranty items;
- the trash;
- an append-only edit log.

It also keeps two persisted counters:

- the `PG` serial counter, which cycles through 625001..699999;
- the log-id counter, which starts at 10000000 and is written as 8+ capital hex digits.

This project models that engine and proves what it promises:

- **Identifiers** (`identifiers.dfy`): the two counters and the text each value is issued as.
- **Status** (`status.dfy`): `calculateStatus`, `getDaysUntilExpiry`, `isItemNew`, `isItemImported` and the edit dialog's guard. The current instant is a parameter.
- **End dates** (`period.dfy`, `calendar.dfy`): the save handler's and the CSV import's end-date arithmetic. The `Date` setters `setFullYear`, `setMonth`, `setDate` and `setHours` are modelled on proleptic-Gregorian civil dates, with the setters' overflow carries and the `TimeClip` range.
- **Edit diff** (`changes.dfy`): the field-by-field comparison that produces an edit's change list.
- **Save form** (`form.dfy`): the save button's checks, in the order the handler makes them, and what the save does: refuse, add, update, no change, or nothing when the edited item has gone.
- **Storage** (`store.dfy`): class `Store` holds the lists and counters that `localStorage` keeps. Its methods are:
  - `nextPgSerial`, `nextLogId`, `saveLog`;
  - the save handler;
  - `moveToTrash`, `restoreItem`, `permanentDeleteItem`;
  - `processCsvContent`, as a loop over the data lines.
- **CSV text** (`csv.dfy`, `import.dfy`, `export.dfy`):
  - the import's character-level line splitter and its field clean-up;
  - the column-name lookups and the buying-date fallbacks;
  - the per-row outcome, the batch fold and the summary;
  - the export's field quoting.

String helpers mirroring the JavaScript string operations are in `text.dfy`. They cover `trim`, ASCII `toLowerCase`, `includes`, `split`, `join`, `padStart`, `toString(radix)`, `parseInt` and `Number`. Option and Result types are in `wrappers.dfy`.

Instants are integer milliseconds since the epoch, and local time is UTC. A stored timestamp is `Absent`, `Invalid` (unparseable) or `At(ms)`. Several things the engine takes from the browser are parameters:

- the current instant;
- `new Date(text)` on an import cell;
- `crypto.randomUUID()`;
- the `formatDatePretty` rendering.

## Model

| member | source | states |
|---|---|---|
| Identifiers.NextPg | app.js:61-62 | the serial counter goes up by one and wraps to 625001 once it passes 699999; a value in 625001..699999 stays in that range |
| Identifiers.PgSerialFormat | app.js:64 | a serial is `PG` followed by exactly six decimal digits that read back as the counter value |
| Identifiers.PgSerialInjective | app.js:64 | distinct counter values in range give distinct serials |
| Identifiers.PgSerialInjectiveInRange | app.js:64 | the same, stated as a difference of texts |
| Identifiers.IssuedCycle | app.js:58-64 | after k issues from n, the counter stands k places on in the 74999-value cycle |
| Identifiers.IssuedRepeatsOnlyAfterCycle | app.js:58-64 | counter values fewer than 74999 issues apart differ; exactly 74999 issues apart they coincide |
| Identifiers.SerialsRepeatOnlyAfterCycle | app.js:58-64 | serials fewer than 74999 issues apart differ; after exactly 74999 issues the same serial comes again |
| Identifiers.LogIdFormat | app.js:77 | a log id has at least eight characters, all capital hex digits, that read back as the counter value |
| Identifiers.LogIdInjective | app.js:77 | distinct log counter values give distinct log ids |
| Storage.Store.constructor | app.js:60-74 | empty lists; the serial counter at 625001 and the log counter at 10000000, their stored defaults |
| Storage.Store.NextPgSerial | app.js:58-69 | the counter becomes NextPg of its old value and the serial returned is its text; nothing else changes |
| Storage.Store.NextLogId | app.js:72-81 | the log counter goes up by one and the id returned is its text; nothing else changes |
| Storage.EditIndex | app.js:88-89 | the edit number is at least 1, and is the stored item's edit count plus one when the item is found |
| Storage.Store.SaveLog | app.js:83-102 | an empty change list appends nothing; otherwise exactly one entry with the next log id, the item's edit number and the instant |
| Storage.LogIdsDistinct | app.js:71-102 | no two log entries share an id (the store keeps one issued id per entry, in order) |
| Storage.Store.Save | app.js:775-945 | the save does what SaveForm.SaveResult decides: an add appends the new item and moves the serial counter; an accepted edit replaces the item at its index and appends its one log entry; any other outcome changes nothing; the trash is untouched |
| Storage.Store.SaveEdit | app.js:865-911 | the edit path: the item replaced in place with exactly one log entry (id, name, serial, change list, edit count + 1, instant), or nothing changed |
| Storage.Store.SaveAdd | app.js:913-934 | the add path: refused as a duplicate with nothing changed, or the new item appended with the next serial |
| Storage.Store.MoveToTrash | app.js:948-968 | an unknown id changes nothing; otherwise the first item with the id leaves the list and joins the end of the trash stamped with the instant and its id; the multiset of items in the list and the trash is conserved |
| Storage.Restored | app.js:981-985 | the restored item differs from the trashed one only in `createdAt`; a missing `createdAt` is kept; an unreadable one throws |
| Storage.RestoredNotNewAgain | app.js:980-985 | a restored item created before the restore is not NEW at the restore or any time later |
| Storage.Store.RestoreItem | app.js:970-996 | an unknown id (or a throwing date shift) changes nothing; otherwise the item leaves the trash and joins the end of the list with `createdAt` 37 hours earlier; the number of items plus trashed items is conserved |
| Storage.Store.PermanentDeleteItem | app.js:428-450 | an unknown id changes nothing; otherwise the first trashed item with the id is dropped; the items and the edit log are untouched |
| Storage.Store.ImportLine | app.js:1053-1188 | one data line read as Import.ReadRow says, drawing one serial exactly when the row passes the duplicate check |
| Storage.Store.ImportData | app.js:1052-1189 | the loop over the data lines computes Import.ImportRows: each line read with the items and serial counter the earlier lines left |
| Storage.Store.ProcessCsvContent | app.js:1033-1195 | fewer than two non-blank lines: no summary and nothing changed; otherwise the items, the counter and the summary are those of Import.ImportCsv |
| Status.DaysLeft | app.js:222-223 | the days left is the ceiling of (end − now) / 86400000 |
| Status.DaysLeftPositive | app.js:222-224 | at least one day is left exactly when the end is after now |
| Status.DaysLeftAntitone | app.js:222-223 | a later instant never leaves more days |
| Status.ReminderWindow | app.js:225 | the stored reminder window, or 30 when it is missing, `NaN` or zero |
| Status.ExpiredIff | app.js:212-230 | expired exactly when the end date is valid and not after now |
| Status.ExpiringSoonIff | app.js:212-230 | expiring soon exactly when the end date is valid and 0 < days left ≤ the reminder window |
| Status.NoEndDateActive | app.js:214-220 | a missing or unparseable end date is active |
| Status.ExpiredStaysExpired | app.js:212-230 | once expired, an item is expired at every later instant |
| Status.ExpiredLabelIff | app.js:233-250 | the label is "Expired" exactly when the status is expired |
| Status.DaysLabelFormat | app.js:233-250 | the label is empty exactly when the end date is missing or unparseable; otherwise, unless expired, it is the days left followed by " D", written in exactly two digits when below 10 and otherwise without a leading zero |
| Status.RestoredNotNew | app.js:193-204 | an item whose creation time is moved 37 hours back is not NEW (36-hour window) at or after the restore |
| Period.ImportStep | app.js:1147-1159 | the import always picks a step: "year", "month", "day" by substring of the lower-cased unit, else years |
| Period.ImportStepAgrees | app.js:1147-1159 | for the three form units the import picks the same step as the form |
| Period.ComputeAdvance | app.js:836-845 | the setter sequence computes the end date before clamping, as Period.Advance defines it |
| Period.Clamp | app.js:847-850 | a valid end date earlier than the buying date becomes the buying date; a later one is kept; an invalid one stays invalid |
| Period.FormEndNotEarlier | app.js:836-850 | the form's end date is never before the buying date |
| Period.AdvanceNotEarlier | app.js:836-845 | with a period of at least one, no unit ends before the buying date |
| Period.FormClampInactive | app.js:836-850 | for the periods the form accepts, the clamp never changes the end date |
| Period.FormEndDays | app.js:843-844 | a period in days ends periodValue − 1 days after the buying date |
| Period.OneYearExample | app.js:838-839 | one year from 1 January 2024 ends on 31 December 2024 |
| Period.MonthOverflowExample | app.js:840-842 | one month from 31 January 2024 ends on 1 March 2024 (setMonth overflows to 2 March) |
| Period.ImportZeroPeriod | app.js:1143-1159 | the import does not clamp: a zero period ends the day before the buying date |
| Calendar.CivilFromDays | app.js:836-845 | the computed civil date is valid and denotes the given day number |
| Calendar.CivilOfDay | app.js:836-845 | the getters' date of an instant's day, computed |
| Calendar.DateUnique | app.js:836-845 | a day number has exactly one civil date |
| Calendar.MonthLength | app.js:841 | each month has the days of its civil month (February 29 in leap years) |
| Calendar.SetFullYear | app.js:838 | `setFullYear(getFullYear() + k)` computed as Calendar.AddYears |
| Calendar.SetMonth | app.js:841 | `setMonth(getMonth() + k)` computed as Calendar.AddMonths |
| Calendar.SetDate | app.js:844 | `setDate(getDate() + k)` computed as Calendar.AddDays |
| Calendar.AddDaysShifts | app.js:844 | `setDate(getDate() + k)` moves an instant by exactly k days, across month and year ends |
| Calendar.AddNothing | app.js:836-845 | adding zero years or months leaves a valid instant unchanged |
| Calendar.AddMonthsLater | app.js:841 | adding at least one month lands at least 28 days later |
| Calendar.AddYearsLater | app.js:838 | adding at least one year lands at least 28 days later |
| Calendar.Clip | app.js:828-829 | an instant outside ±8.64e15 ms is an invalid date |
| Records.TimeOf | app.js:880-881 | `new Date(stamp).getTime()` is a number exactly for a valid timestamp |
| Records.ValueOf | app.js:874-875 | exactly the date fields yield timestamps |
| Records.FindIndex | app.js:952 | the first position holding the id, or none when no item has it |
| Records.FindTrashed | app.js:432 | the first trash position holding the id, or none |
| Records.Without | app.js:955 | `splice(i, 1)`: the list without position i, the rest in order |
| Changes.DiffOverSound | app.js:873-892 | every listed change names a compared field that differs, with its old and new values |
| Changes.DiffOverComplete | app.js:873-892 | every compared field that differs is listed |
| Changes.DiffOverOrdered | app.js:872-892 | changes come in the order of the compared fields, each at most once |
| Changes.DiffCorrect | app.js:869-893 | the change list is exactly the differing fields, once each, in the order name, shop, kind, serial, buyDate, periodValue, periodUnit, endDate, remindDays, notes |
| Changes.NoChangesIff | app.js:895 | the change list is empty exactly when no field differs |
| Changes.DateFieldUnchanged | app.js:878-882 | a date field is unchanged exactly when both instants are equal or both are unparseable |
| Text.TrimIsTrimmed | app.js:788-796 | `trim` leaves no white space at either end and is idempotent |
| Text.Lower | app.js:918-920 | `toLowerCase` maps each character and keeps the length |
| Text.ContainsAt | app.js:207 | `includes` holds exactly when the substring occurs at some position |
| Text.SplitJoin | app.js:1302 | splitting a join on a character no piece holds gives the pieces back |
| Text.JoinSplit | app.js:1034 | joining the pieces of a split gives the string back |
| Text.PadStart | app.js:64 | `padStart` fills to the width with the pad character on the left |
| Text.Numeral | app.js:77 | `toString(radix)` gives at least one digit of the radix, capitals for hex |
| Text.NumeralRoundTrip | app.js:77 | a rendered number reads back as the number |
| Text.SixDigits | app.js:64 | every counter value in range renders in exactly six digits |
| Text.NumeralNoLeadingZero | app.js:246 | a positive number is written without a leading zero, so `padStart(2, '0')` adds zeros only below 10 |
| Text.ParseDigits | app.js:1128-1130 | `parseInt` reads a run of decimal digits as its value |
| Text.NumberOfDecimal | app.js:1143 | `Number(String(i)) == i` |
| Text.DecimalPlain | app.js:1294-1297 | a rendered integer is trimmed and holds only a sign and digits, so export never quotes it |
| Text.ReplaceAbsent | app.js:1289 | replacing a character that does not occur changes nothing |
| Csv.SplitLine | app.js:1055-1068 | the splitter loop computes Csv.SplitFields: fields cut at commas outside quotes, trimmed, quotes dropped |
| Csv.FieldsDropQuotes | app.js:1055-1068 | no field the splitter produces holds a double quote |
| Csv.SplitFieldsPlain | app.js:1055-1068 | on a line without quotes, the splitter is `split(',')` with each piece trimmed |
| Csv.CleanIsIdentity | app.js:1071-1076 | the quote clean-up never changes a field the splitter produced |
| Csv.NotesOneLine | app.js:1288-1293 | an exported note never holds a line break |
| Csv.ReadQuoted | app.js:1294-1296 | the splitter reads a quoted field back up to the next separator |
| Csv.ExportRoundTrip | app.js:1055-1068 | the import splits an exported row back into the values it was written from, when none holds a quote or surrounding white space |
| Csv.QuoteLostExample | app.js:1058-1059 | a lone `"` is exported as `""""` and read back as an empty field |
| CsvExport.NumberCell | app.js:1294-1297 | numbers are exported as they are and need no quoting |
| CsvExport.NotesCell | app.js:1288-1293 | notes without quotes or line breaks are quoted like any other string |
| CsvExport.CellQuoted | app.js:1282-1297 | each exported cell of a plain item is its raw cell, quoted as a string |
| CsvExport.CellsQuoted | app.js:1280-1298 | all exported cells of a plain item are the raw cells, quoted as strings |
| CsvExport.ExportLineReadBack | app.js:1280-1299 | the import cuts an exported item line back into exactly the item's raw cells |
| Import.NonBlank | app.js:1034 | no line left after filtering is blank |
| Import.LookupLast | app.js:1086-1089 | a column name is found exactly when a header has it, and then its value is that of the last such column |
| Import.PickFirst | app.js:1092-1095 | a chain of alternative column names yields the value of the first one that is non-empty, or the default when none is |
| Import.PickTrimmed | app.js:1092-1095 | a value picked from trimmed cells, or a trimmed default, is trimmed |
| Import.TitleCaseSameStep | app.js:1171 | the stored title-cased unit selects the same step as the unit read |
| Import.BuyDateOf | app.js:1114-1141 | the buying date is a valid instant (when now is), and is now for an empty cell |
| Import.BuyDatePrecedence | app.js:1119-1141 | the native parse wins; the day-first split is used only when it fails; otherwise now |
| Import.DayFirst | app.js:1126-1133 | "D/M/Y" in digits is read day first as a local date |
| Import.DraftOf | app.js:1086-1144 | the row's buying date is a valid instant |
| Import.CellsTrimmed | app.js:1055-1076 | after clean-up, every cell of a data row is trimmed and unchanged by the clean-up |
| Import.ImportNoteRecognised | app.js:1178 | every imported item's note makes `isItemImported` true |
| Import.AcceptedRow | app.js:1097-1183 | an added row has a non-blank name, no earlier item with its name and serial (ignoring case), the given id, the next serial, valid dates, edit count 0, the import note and the import flag |
| Import.ReaderSound | app.js:1097-1183 | the import's reading of a line adds only such new imported items |
| Import.ImportRows | app.js:1052-1189 | folding the data lines keeps the serial counter in range |
| Import.ImportBalance | app.js:1044-1189 | every data line is counted once, as added, duplicate or error; one summary name per duplicate |
| Import.ImportAppends | app.js:1182-1183 | the import only appends: the earlier items stay in front, one new imported item per added row |
| Import.ImportNoDuplicates | app.js:1103-1112 | no added item repeats the name and serial of an item before it, old or added earlier in the batch |
| Import.RowClassified | app.js:1080-1183 | every data line is exactly one of: wrong cell count (iff the counts differ), no name (iff the trimmed name is empty), a duplicate (iff an item so far has its name and serial, ignoring case, with the summary name "name (serial)"), an invalid end date, or a new item (iff it passes every check and its end date is valid) |
| Import.TraceSteps | app.js:1052-1189 | the import reads each data line with the items and serial counter the lines before it left, starting from the items there were |
| Import.TraceCounts | app.js:1044-1189 | added, duplicates and errors are the numbers of new-item, duplicate and other rows among the data lines |
| Import.ImportRowsClassified | app.js:1052-1189 | a data line counts as a duplicate exactly when an item before it (earlier lines included) has its name and serial, and is added exactly when it passes every check; the summary counts are the numbers of such lines |
| Import.ImportCsv | app.js:1033-1191 | a completed import leaves the serial counter in range |
| Import.ImportCsvSummary | app.js:1033-1191 | no data exactly when fewer than two non-blank lines; otherwise total = data lines = added + duplicates + errors, old items kept in front, every added item new, imported and not a duplicate |
| SaveForm.ValidateIff | app.js:787-831 | the form passes exactly when the name is non-blank, the buying date is given and valid, the period is in 1..100 and the reminder in 1..365; a blank name is the first error reported |
| SaveForm.SaveResult | app.js:775-945 | an update names a position of the list |
| SaveForm.EditOutcome | app.js:865-911 | a checked edit whose item is found is unchanged when the diff is empty, otherwise updated at that position with that diff |
| SaveForm.AddOutcome | app.js:913-934 | a checked add is refused as a duplicate or adds the new item with the next serial |
| SaveForm.ImportedNotEditable | app.js:780-786 | editing an imported item is refused before the form is read |
| SaveForm.AddedItem | app.js:913-934 | an added item passed the checks, is not a duplicate, takes the next serial, ends on or after its buying date, is new, unedited and not imported; every checked, non-duplicate form is added |
| SaveForm.EditKeepsIdentity | app.js:895-908 | an accepted edit keeps id, serial, creation time and import note, counts one more edit, sets the edit time, and has a non-empty change list |
| SaveForm.EditChangesListed | app.js:869-893 | the change list of an accepted edit is exactly the changed fields, in order, with old and new values |
| SaveForm.UnchangedIff | app.js:895-911 | a checked edit is reported unchanged exactly when no compared field differs |
| SaveForm.EditLimitOnlyInDialog | app.js:745-749 | the save handler updates an item already edited twice, to a third edit; only the dialog enforces the limit |
| SaveForm.EditDialogIff | app.js:705-749 | the dialog allows saving exactly when the item is found, not imported and edited fewer than two times |

## Left out

- Persistence: `localStorage` and JSON are replaced by the fields of `Storage.Store`. The try/catch fallbacks of `nextPgSerial` (a random serial) and `nextLogId` (the clock) are nondeterministic and not modelled. Neither are the write failures of the setters.
- `crypto.randomUUID`, the current instant, `new Date(text)` on an import cell and `formatDatePretty` are parameters. Ids are taken as given; that they are fresh is not modelled.
- Time zones and daylight saving: local time is UTC. `formatTime12`, the export file name and the locale rendering of dates are left out.
- Text.NumberValue: numbers are integers. `Number` is modelled on an optionally signed run of decimal digits, a `0x` literal and the empty string. Every other numeral reads as `NaN` (`None`): "1.0", "1.5", "1e2", "0b101", "Infinity". This changes outcomes:
  - An import row whose period cell is such a numeral counts as an error, after drawing a serial. `app.js` imports it: "1.0" and "1e2" are the periods 1 and 100, and "1.5" stores periodValue 1.5 with an end date from 1 (the setters truncate).
  - An import row whose reminder cell is such a numeral stores no reminder, so it gets the 30-day window and an empty export cell. `app.js` keeps 1.5 (or 1, or 100) as the window.
  - The form's period and reminder are integers or `NaN`, so a fractional value typed into the form is not represented.
- `toLowerCase` and `toUpperCase` map ASCII letters only. `trim` uses the usual white-space set.
- Rendering, dialogs, the snackbar, `escapeHtml`, `openTrash` and `showImportSummary` are presentation. The summary the import returns is what that dialog shows.
- A header named `__proto__` and other prototype keys of `itemData` are not modelled; the lookup is a plain map.
- The edit path is taken whenever an editing id is present. An empty id, which JavaScript treats as "adding", never occurs because ids come from `randomUUID`.

## Where the code departs from the documented behaviour

The model follows the code in each case:

- The CSV import does not clamp the end date; a zero or negative period can end before the buying date (Period.ImportZeroPeriod).
- The import defaults `kind` to "Warranty" and stores the unit title-cased as read, not one of the three form units.
- The import's splitter drops every quote character, so a doubled `""` inside a quoted field does not survive. Export and re-import round-trip only values without quotes (Csv.QuoteLostExample, Csv.ExportRoundTrip).
- The add path's duplicate check skips items with an empty serial; the import's check does not.
- The edit limit of two is enforced only by the edit dialog; the save handler does not check it (SaveForm.EditLimitOnlyInDialog).
- An accepted edit drops the `isImported` flag, since the new record does not carry it.
- An edit whose item has gone from the list does nothing and reports nothing; it does not fail with "not found".
- An import row whose end date is invalid counts as an error after it has already drawn a serial, so the serial counter moves on for it.
