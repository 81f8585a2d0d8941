# Only puppy tracker — a Dafny model

This project models the logic of a single-page tracker. The tracker
records a puppy's weight day by day. Every record has an id, a date, a
weight in grams, notes and an optional photo. Records can be added and
deleted only after the editor passphrase has been entered. The list is kept
in date order and stored in the browser's `localStorage` as several copies:
a primary copy, a backup, a photo-free fallback written when the quota is
exceeded, and an older emergency copy. Loading takes the first copy that is
present, and it throws away records that are not well-formed. A status line
shows the puppy's age in Russian (days, then weeks and days, then months and
days) and the latest weight.

The model has six modules:

- `Wrappers`: `Option` and `Result`.
- `Text`: `String.prototype.trim` with ECMAScript's white-space set, how a
  template literal renders a whole number, and splitting at spaces. These
  are used to state properties of the passphrase check and the age text.
- `Entries`: the record, the date order, `Array.prototype.sort` with the
  date comparator (a stable sort, modelled as insertion), filtering by id,
  dropping photos, counting photos and the current weight.
- `Persistence`: the storage keys and size limits. `localStorage` is the
  class `Store`. `saveData` is the function `Save`, written against the
  storage items, and `loadData` is the function `Load`.
- `Age`: `calculateAge`, from the millisecond difference to the text, plus
  a reader that turns the text back into the day count.
- `Tracker`: the session state (`isEditorMode`, `entries`, the store) as a
  class. Its methods change that state the way the page's handlers do. Each
  method is proved against the pure functions above.

Calls the model cannot see are parameters:

- JSON and the Blob size: a `Codec` value with `serialize`, `size` and
  `parse`. Lemmas that need a faithful round trip require `RoundTrips`.
- Which `setItem` calls throw: a map from key to `QuotaExceeded` or
  `OtherFailure`.
- The clock: `now`, `id`, `createdAt` and `diffMs`.
- The answer to `confirm()`: `confirmed`.
- What `compressImage` resolved to: `compressed`.

## Model

| member | source | states |
|---|---|---|
| Text.Trim | script.js:86 | the trimmed passphrase is no longer than the input and has no ECMAScript white space at either end |
| Text.TrimDecomposes | script.js:86 | the input is leading white space, then the trimmed text, then trailing white space; the result is empty iff the input is all white space |
| Text.TrimPadded | script.js:86 | padding a text that has no white space at its ends with white space does not change what trim returns |
| Text.ParseNatToString | script.js:330-345 | the decimal rendering of a whole number in the age text reads back as that number |
| Text.NatToStringInjective | script.js:330-345 | distinct numbers render differently |
| Entries.DateLe | script.js:221 | two dates whose first characters differ are ordered by those characters, and a date sorts no later than itself or any text it is a prefix of |
| Entries.DateLeFirstDifference | script.js:221 | two dates that agree up to some position and differ there are ordered by their characters at that position |
| Entries.DateLeTotal | script.js:221 | any two record dates are comparable under the sort's date order |
| Entries.DateLeTransitive | script.js:221 | the date order is transitive |
| Entries.DateLeAntisymmetric | script.js:221 | two dates ordered both ways are equal |
| Entries.Insert | script.js:220-221 | inserting a record keeps every record and adds exactly the new one (multiset) |
| Entries.InsertSorted | script.js:220-221 | inserting into a date-ordered list keeps it in date order |
| Entries.SortByDate | script.js:221 | the sorted list is in date order and is a permutation of the input |
| Entries.SortByDateStable | script.js:221 | records with the same date keep their relative order |
| Entries.SortByDateOfSorted | script.js:221 | sorting a list that is already in date order changes nothing |
| Entries.SortAfterPush | script.js:220-221 | push then sort is the same as inserting into the sorted list |
| Entries.InsertUnique | script.js:161-165 | with the duplicate-date check passed, the dates stay distinct after the insert |
| Entries.RemoveId | script.js:234 | the filter keeps exactly the records whose id differs, and never adds any |
| Entries.RemoveIdSorted | script.js:255 | filtering by id keeps the date order |
| Entries.RemoveIdUnique | script.js:255 | filtering by id keeps the dates distinct |
| Entries.RemoveIdInsert | script.js:220-234 | filtering out the inserted record's id after the insert gives the same list as filtering it out before: every other record once, in place |
| Entries.RemoveIdAfterInsert | script.js:220-234 | in a sorted list with a fresh id, the rollback filter gives back the list as it was before the push |
| Entries.StripPhotos | script.js:423-426 | the photo-free copy has the same records in the same order, each with its photo removed |
| Entries.StripPhotosHasNone | script.js:423-426 | no record of the photo-free copy has a photo |
| Entries.PhotosCount | script.js:835-836 | the photo count is at most the record count, is zero iff no record has a photo, and equals the record count iff all have one |
| Entries.PhotosCountAppend | script.js:835-836 | the photo count of two lists joined is the sum of their counts |
| Entries.PhotosCountOne | script.js:835-836 | one record counts 1 exactly when it has a photo, so the count is the number of records with a photo |
| Entries.CurrentWeight | script.js:304-305 | 0 with no records; in a date-ordered list, the weight of a record that no other record's date follows |
| Entries.CurrentWeightIsLatest | script.js:304-305 | in a date-ordered list with distinct dates, the current weight is the weight of the latest-dated record |
| Persistence.ValidEntries | script.js:481-488 | the loaded records are exactly the well-formed records with a numeric weight, and none are added |
| Persistence.ValidEntriesOfRecords | script.js:481-488 | a stored list of well-formed records passes the filter unchanged |
| Persistence.Discarded | script.js:490-493 | the number of discarded records is at most the number stored, and zero iff every record passes |
| Persistence.DiscardedAppend | script.js:490-491 | the dropped count of two arrays joined is the sum of their dropped counts |
| Persistence.DiscardedOne | script.js:490-491 | one item counts as dropped exactly when it fails the filter, so the count is the number of items that fail |
| Persistence.ShownDiscardedAsWritten | script.js:493 | the count of removed records the notice shows is 0 for every stored array |
| Persistence.ShownDiscardedIsAlwaysZero | script.js:490-493 | a stored array with one record whose weight is not a number discards one record, yet the notice shows 0 |
| Persistence.DropsRecordWithoutWeight | script.js:481-488 | a stored record whose weight is not a number is dropped and the rest are kept in their stored order |
| Persistence.FirstFilled | script.js:443-467 | the copy read is the first non-empty one in the fixed order, and none is read only when all are empty or missing |
| Persistence.Load | script.js:440-510 | no data iff no copy is present; otherwise the first present copy is read, and it is unreadable iff it does not parse to an array; the loaded records are the records of that array that pass the filter (same multiset), in date order with equal dates in their stored order, and the discarded count is the number the filter dropped |
| Persistence.LoadFallsBackToBackup | script.js:445-451 | with the primary copy missing and the backup present, the backup is loaded |
| Persistence.Save | script.js:371-438 | too large: nothing is written; success iff no write of the normal path throws; the primary copy is written unless its write throws; under 2 MB the backup is written once the primary and backup writes do not throw, even when the timestamp write then throws; on success the timestamp is written; at 2 MB or more the backup is left alone; a throwing primary write leaves everything but the photo-free copy as it was; a throwing backup write leaves the backup and the timestamp as they were; the timestamp moves only on success; the photo-free copy is written only after a quota failure and keeps its value when its own write throws; other keys are untouched |
| Persistence.SaveThenLoad | script.js:371-413 | after a successful save of a well-formed, date-ordered list, loading gives back the same list with nothing discarded |
| Persistence.FailedSaveStillLoads | script.js:402-410 | a save that fails after writing the primary copy reports failure, but the next load reads the new list |
| Persistence.Store.GetItem | script.js:443 | `getItem` returns the stored value, or nothing for a missing key |
| Persistence.Store.SetItem | script.js:402 | `setItem` stores the value unless that key's write throws, and reports the fault |
| Persistence.Store.RemoveItem | script.js:805-809 | `removeItem` removes the key and nothing else |
| Age.DiffDays | script.js:320-321 | the day count is the floor of the millisecond difference over one day |
| Age.AgeTextAsWritten | script.js:323-347 | the tiers as written: "not born yet" exactly for negative day counts and "born today" exactly for zero |
| Age.CalculateAge | script.js:311-348 | the text as written for the whole days elapsed: "not born yet" exactly for a negative difference, "born today" exactly within the first day |
| Age.AsWrittenDayWords | script.js:329-330 | from 2 to 6 days the text is the numeral followed by the word "дня" |
| Age.AsWrittenReadsBack | script.js:323-347 | reading the text as written back gives the day count for every non-negative count |
| Age.AsWrittenInjective | script.js:323-347 | different non-negative day counts give different texts as written |
| Age.CalculateAgeReadsBack | script.js:311-348 | the age shown for a non-negative elapsed time reads back as the whole days elapsed |
| Age.SpanWords | script.js:331-346 | a weeks or months text is the count and its unit, followed by the remaining days and their unit exactly when there are any |
| Age.AsWrittenTiers | script.js:323-347 | the first word counts the largest unit that fits (day below 7, week below 30, month from 30), the second names it, and the remainder below one unit follows exactly when it is not zero |
| Age.AgeText | script.js:327-346 | the corrected text, with the 1 / 2-4 / 5+ rule also from 2 to 6 days: "not born yet" exactly for negative day counts and "born today" exactly for zero |
| Age.AgeTextReadsBack | script.js:327-346 | reading the corrected text back gives the day count for every non-negative count |
| Age.AgeTextInjective | script.js:327-346 | different non-negative day counts give different corrected texts |
| Age.SpanReadsBack | script.js:331-346 | a weeks-and-days or months-and-days text reads back as its day count and its forms agree |
| Age.AgeTextFormsAgree | script.js:327-346 | every number in the corrected text takes the form the 1 / 2-4 / 5+ rule picks |
| Age.AsWrittenDiffersAtFiveAndSix | script.js:329-330 | the age text as written differs from the rule-following text exactly at 5 and 6 days |
| Age.AsWrittenFiveDaysDisagrees | script.js:330 | the text as written for 5 days breaks the form rule |
| Age.WeeksBandNeverMany | script.js:331-335 | between 7 and 29 days the week count is 1 to 4, so the form "недель" never appears |
| Age.OneDayExample | script.js:327-328 | one day after birth the text is "1 день" |
| Age.TenDaysExample | script.js:331-337 | ten days after birth the text is "1 неделя 3 дня" |
| Age.FortyDaysExample | script.js:339-345 | forty days after birth the text is "1 месяц 10 дней" |
| Tracker.NewEntry | script.js:168-174 | the new record has the given id and creation time, the form's date and weight, no photo, and as notes the `trim` of the submitted notes (empty when absent or blank, otherwise without white space at either end) |
| Tracker.ValidateSubmission | script.js:128-210 | the checks in their order (editor, required fields, duplicate date, photo size, type, compression); an attached photo gets the too-large rejection first, then not-an-image, then failed compression; a record is created iff all pass; it is the record `NewEntry` builds from the form, the id and the creation time, carrying the compressed photo exactly when a photo is attached, and its date is not yet taken |
| Tracker.Add | script.js:212-237 | invalid records change nothing; otherwise the outcome is saved iff `Save` of the pushed and sorted list succeeds, and the storage is what that save leaves; a saved record is inserted in date order; a rollback keeps exactly the earlier records whose id differs from the new one, and on a date-ordered list it is the id filter of the list as it was (each of those records once, in place), so a list with a fresh id is back as it was; the list is date-ordered after every valid add |
| Tracker.PushThenDrop | script.js:220-234 | push and sort inserts in place; the rollback keeps exactly the earlier records whose id differs from the pushed one, is the id filter of a date-ordered list as it was, and for a fresh id restores the list |
| Tracker.RolledBackEntryReloads | script.js:224-236 | when the timestamp write throws after the primary write, the record leaves memory but the next load brings it back |
| Tracker.FailedDeleteReloads | script.js:254-256 | when the primary write throws, a delete leaves what the next load reads unchanged, so the deleted record comes back |
| Tracker.ClearedLoadsNothing | script.js:802-811 | after the storage is cleared, loading finds no data |
| Tracker.Tracker.constructor | script.js:7-8 | the session starts outside editor mode with no records |
| Tracker.Tracker.CheckEditorCode | script.js:85-98 | editor mode is switched on exactly when the trimmed input equals the passphrase, and is never switched off |
| Tracker.Tracker.ExitEditorMode | script.js:100-104 | editor mode is off afterwards |
| Tracker.Tracker.SaveData | script.js:371-438 | the sequence of writes gives exactly the result and storage that `Save` describes |
| Tracker.Tracker.AddEntry | script.js:212-237 | the outcome, record list and storage are those of `Add`, and the list stays date-ordered and well-formed |
| Tracker.Tracker.SubmitEntry | script.js:128-210 | a refused submission changes nothing; an accepted one adds the record as `Add` does; distinct dates stay distinct |
| Tracker.Tracker.DeleteEntry | script.js:239-261 | deletes iff in editor mode, the id exists and the user confirms; then filters the id out and saves, and ignores the save's result |
| Tracker.Tracker.ClearStorage | script.js:802-820 | after confirmation the five keys are removed and the list is emptied; otherwise nothing changes |
| Tracker.Tracker.ReadFirstCopy | script.js:443-467 | the copy read is the first non-empty one of primary, backup, photo-free and emergency, with its tier, and none is read iff all are empty or missing |
| Tracker.Tracker.LoadData | script.js:440-510 | the outcome is `Load` of the stored items and the list is its records |
| Tracker.Tracker.UpdateStats | script.js:298-309 | the age text as the tiers are written (`CalculateAge`), the current weight and the number of records |
| Tracker.Tracker.ExportSummary | script.js:643-652 | the record count and the current weight written into the export |
| Tracker.Tracker.CheckStorageStatus | script.js:823-845 | the record count, the serialised size, the photo count, and "has photos" iff some record has one |

## Left out

- The DOM, rendering, notifications, the editor modal and the copy-protection handlers. They only show state.
- `compressImage` (canvas, FileReader, promises) is not modelled. Its outcome is a parameter of the submission. The model treats the checks and `addEntry` as one step. It does not capture a second submission for the same date that runs while the compression is pending and gets past the duplicate check.
- `formatDate`, `setDefaultDate` and the Moscow-time conversion through `toLocaleString` are not modelled. The age takes the millisecond difference as input.
- Dates are compared as text. For canonical `YYYY-MM-DD` values this agrees with the chronological comparator. A date that `new Date` cannot parse (`NaN` in the comparator) is not modelled.
- Weights and ids are whole numbers. JavaScript numbers, `parseInt`'s parsing rules and `NaN` are collapsed into an optional integer.
- `JSON.stringify`, `JSON.parse` and the Blob size are not modelled. They are the `Codec` parameter, and a parse error thrown inside `loadData` is the `Unparsable` result.
- The free-space probe of `saveData` (`test_storage_space`) is not modelled. It only shows a warning and leaves the storage as it was.
- `removeItem` throwing inside `clearStorage` is not modelled.
- The percentages and `toFixed` strings of `checkStorageStatus` are not modelled (floating point). A throw from `JSON.stringify` that makes it return `null` is not modelled either.
- `exportData`: the download link, the file name and the JSON layout are left out. Only the count and current weight it computes are modelled.
- Console logging and the wiring of the handlers at page start-up are left out.
- Age.AgeText: Russian plural forms in full would also give "дней" for 11-14 and "день" for 21. The model follows the source's simpler 1 / 2-4 / 5+ rule, which decides the forms for every count in the ranges the text uses.

## Findings

| source | as written | input that shows it | evidently intended | confidence | as-written member | corrected member |
|---|---|---|---|---|---|---|
| script.js:490-493 | `entries` is set to the filtered list before the notification computes `entries.length - validEntries.length`, so the shown count of removed records is always 0 | a stored array with one record whose weight is the string "500" | the number of records removed, `parsedData.length - validEntries.length` | not executed | Persistence.ShownDiscardedIsAlwaysZero | Persistence.Discarded |
| script.js:329-330 | every age from 2 to 6 days is written with the form "дня" | 5 days after birth gives "5 дня" | "5 дней" and "6 дней", the 1 / 2-4 / 5+ rule the week and month tiers apply at lines 335-345 | not executed | Age.AsWrittenFiveDaysDisagrees | Age.AgeTextFormsAgree |
