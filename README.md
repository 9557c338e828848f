# ApplicantHub applicant records, in Dafny

ApplicantHub is a small recruitment front end. It keeps applicant records
(standard text fields, custom fields defined at run time, and attached
documents) in a mock persistence service. A React context holds the client's
copy of the lists. Three pages work on them: the new-applicant form, the
searchable and sortable applicant table, and the detail page with its edit
session.

This project models those parts and proves their properties:

- **The mock store** (`service.dfy`): the two module-level arrays and the seven API calls, as a class whose methods replace the stored sequences.
- **The client state container** (`context.dfy`): takes what the transport answered as a parameter. It includes wiring methods that drive the store and the container together and prove the two stay in step.
- **The earlier, store-less container** (`legacy_context.dfy`).
- **The table's query pipeline** (`query.dfy`), over a generic stable key sort (`sorting.dfy`): search, field filter and sort.
- **The table page** (`list_page.dfy`), **the form** (`form.dfy`) and **the detail page** (`detail.dfy`).

Shared pieces:

- `records.dfy`: records, responses, and the `findIndex` / `filter` / `map` updaters.
- `text.dfy`: the JavaScript string operations used, namely `toLowerCase`, `trim`, `includes`, `<`, `replace(/\s+/g, "_")` and `String(n)`.
- `dates.dfy`: the whole-year age and ISO dates.
- `option.dfy`.

## Model

| member | source | states |
|---|---|---|
| Records.MergeSpec | applicants-hub/client/src/services/applicant-list/applicant-list-service.js:319-322 | The shallow merge keeps every old key and overwrites exactly the supplied ones, adding no others. It takes `id` and `documents` from the patch exactly when the patch supplies them. |
| Records.NewApplicant | applicants-hub/client/src/services/applicant-list/applicant-list-service.js:295-298 | The new record has id `Date.now()` and no documents. Its fields are exactly the input's fields other than `id`, with their values. |
| Records.Merge | applicants-hub/client/src/services/applicant-list/applicant-list-service.js:319-322 | The shallow merge `{...old, ...data}`. `Records.MergeSpec` and `Records.MergeIdempotent` state what it does. |
| Records.MergeIdempotent | applicants-hub/client/src/services/applicant-list/applicant-list-service.js:319-322 | Merging the same patch twice gives the same record as merging it once. |
| Records.IndexOfId | applicants-hub/client/src/services/applicant-list/applicant-list-service.js:313 | `findIndex` is -1 exactly when no record has the id. Otherwise it is the first position holding it. |
| Records.WithoutId | applicants-hub/client/src/state/ApplicantContext.jsx:62 | The filter keeps exactly the records with another id, and is never longer than its input. |
| Records.ReplaceId | applicants-hub/client/src/state/ApplicantContext.jsx:76-78 | The map has the same length and replaces exactly the records carrying the id. |
| Records.WithoutIdAppend | applicants-hub/client/src/state/ApplicantContext.jsx:62 | The filter distributes over concatenation, so kept records keep their order. |
| Records.WithoutAbsentId | applicants-hub/src/state/ApplicantContext.jsx:13-15 | Filtering out an id no record has changes nothing. |
| Records.IndexOfFieldId | applicants-hub/client/src/services/applicant-list/applicant-list-service.js:383 | `findIndex` over field definitions is -1 exactly when the id is absent. Otherwise it is the first position. |
| Records.WithoutFieldId | applicants-hub/client/src/state/ApplicantContext.jsx:106 | The filter keeps exactly the definitions with another id. |
| Records.WithoutFieldIdAppend | applicants-hub/client/src/state/ApplicantContext.jsx:106 | The field-definition filter distributes over concatenation. |
| Records.WithoutAbsentFieldId | applicants-hub/src/state/ApplicantContext.jsx:21-23 | Removing an unused field id changes nothing. |
| Service.ApplicantService.constructor | applicants-hub/client/src/services/applicant-list/applicant-list-service.js:268 | The store starts with the seed applicants and no custom fields. |
| Service.ApplicantService.GetApplicants | applicants-hub/client/src/services/applicant-list/applicant-list-service.js:276-289 | Answers success with the applicant list, in order. |
| Service.ApplicantService.CreateApplicant | applicants-hub/client/src/services/applicant-list/applicant-list-service.js:292-307 | Appends the input under id `Date.now()`, which overrides any input id, and answers with the new record. |
| Service.ApplicantService.UpdateApplicant | applicants-hub/client/src/services/applicant-list/applicant-list-service.js:310-329 | Throws "Applicant not found" for an unknown id and changes nothing. Otherwise it overwrites the first match with the merge and answers with it. |
| Service.ApplicantService.DeleteApplicant | applicants-hub/client/src/services/applicant-list/applicant-list-service.js:332-348 | Throws "Applicant not found" for an unknown id. Otherwise it splices out the first match and answers with it. |
| Service.ApplicantService.GetCustomFields | applicants-hub/client/src/services/applicant-list/applicant-list-service.js:351-359 | Answers success with the definitions, in order. |
| Service.ApplicantService.CreateCustomField | applicants-hub/client/src/services/applicant-list/applicant-list-service.js:362-377 | Appends the definition. Its id is the given one, or else derived from the label. |
| Service.ApplicantService.DeleteCustomField | applicants-hub/client/src/services/applicant-list/applicant-list-service.js:380-396 | Throws "Custom field not found" for an unknown id. Otherwise it splices out the first match. |
| Service.UpdateTwiceIsUpdateOnce | applicants-hub/client/src/services/applicant-list/applicant-list-service.js:313-322 | Repeating an update whose patch keeps the id finds the same record and changes nothing. |
| Service.DeleteTwiceFails | applicants-hub/client/src/services/applicant-list/applicant-list-service.js:335-341 | With unique ids, a second delete of the same id finds nothing. |
| Service.DeleteKeepsIdsUnique | applicants-hub/client/src/services/applicant-list/applicant-list-service.js:341 | Splicing out a record keeps ids unique. |
| Service.CreateKeepsIdsUnique | applicants-hub/client/src/services/applicant-list/applicant-list-service.js:295-300 | A `Date.now()` id that no record has keeps ids unique. |
| Service.UpdateKeepsIdsUnique | applicants-hub/client/src/services/applicant-list/applicant-list-service.js:319-322 | An update whose patch keeps the id keeps ids unique. |
| Text.Lower | applicants-hub/client/src/components/applicantList/applicant-list-page.jsx:45 | The model's lowering, which changes ASCII letters only, keeps the length. JavaScript's full `toLowerCase` can lengthen text, as with "İ". |
| Text.LowerIsLowerCase | applicants-hub/client/src/components/applicantList/applicant-list-page.jsx:45 | `toLowerCase` gives lower-case text. |
| Text.LowerOfLowerCase | applicants-hub/client/src/components/applicantList/applicant-list-page.jsx:45 | `toLowerCase` leaves lower-case text unchanged, so it is idempotent. |
| Text.TrimEmptyIffBlank | applicants-hub/client/src/components/applicantList/applicant-list-page.jsx:53 | `trim()` is empty exactly when the text is white space only. |
| Text.Trim | applicants-hub/client/src/components/applicantList/applicant-list-page.jsx:53 | `trim()` gives a substring of the text that neither starts nor ends with white space. |
| Text.TrimRemovesOnlyBlankEnds | applicants-hub/client/src/components/applicantList/applicant-list-page.jsx:53 | `trim()` removes exactly the leading and the trailing white space: the result is the text from the first non-white-space character, with only white space before and after it. |
| Text.ContainsEmptyAndSelf | applicants-hub/client/src/components/applicantList/applicant-list-page.jsx:45 | `includes` finds the empty string and the text itself. |
| Text.Contains | applicants-hub/client/src/components/applicantList/applicant-list-page.jsx:45 | `includes` finds only a needle no longer than the text. |
| Text.LessTotal | applicants-hub/client/src/components/applicantList/applicant-list-page.jsx:66-67 | Any two different strings are ordered one way by `<`. |
| Text.LessTransitive | applicants-hub/client/src/components/applicantList/applicant-list-page.jsx:66-67 | String `<` is transitive. |
| Text.LessIrreflexive | applicants-hub/client/src/components/applicantList/applicant-list-page.jsx:66-67 | No string is `<` itself. |
| Text.Less | applicants-hub/client/src/components/applicantList/applicant-list-page.jsx:66-67 | String `<`: at the first differing character, the one whose UTF-16 code units come first; a proper prefix is smaller. `Text.LessIsCodeUnitOrder` gives its meaning. |
| Text.LessIsCodeUnitOrder | applicants-hub/client/src/components/applicantList/applicant-list-page.jsx:66-67 | `Less` holds exactly when the UTF-16 code-unit sequence of the first string is lexicographically below that of the second, as JavaScript compares strings. |
| Text.SupplementaryBeforeHighBmp | applicants-hub/client/src/components/applicantList/applicant-list-page.jsx:66-67 | U+1F600, a surrogate pair starting with 0xD83D, is below U+FF46, although its code point is larger. |
| Text.DeriveFieldIdProperties | applicants-hub/client/src/services/applicant-list/applicant-list-service.js:367 | A derived field id has no white space and is lower case. It is empty exactly when the label is empty. Deriving again changes nothing. |
| Text.DeriveFieldId | applicants-hub/client/src/services/applicant-list/applicant-list-service.js:367 | `label.toLowerCase().replace(/\s+/g, "_")`. `Text.DeriveFieldIdProperties` and `Text.TwoWordLabel` state what it gives. |
| Text.TwoWordLabel | applicants-hub/client/src/components/applicantForm/applicant-form.jsx:136 | Two words separated by any run of white space give `first_second`, lower-cased. |
| Text.DistinctLabelsCollide | applicants-hub/client/src/components/applicantForm/applicant-form.jsx:136 | Labels that differ in case or in spacing derive the same id. |
| Text.NatToDecimalRoundTrip | applicants-hub/client/src/components/applicantList/applicant-list-page.jsx:44-45 | `String(id)` reads back as the id and has no leading zero. |
| Text.NatToDecimalInjective | applicants-hub/client/src/components/applicantList/applicant-list-page.jsx:44-45 | Different ids have different decimal text. |
| Text.NatToDecimal | applicants-hub/client/src/components/applicantList/applicant-list-page.jsx:44-45 | `String(id)` is a non-empty string of decimal digits. |
| Text.OrElse | applicants-hub/client/src/state/ApplicantContext.jsx:37 | `message \|\| fallback` keeps a non-empty message and gives exactly the fallback for an empty one, so it is non-empty when the fallback is. |
| Dates.AgeCountsAnniversaries | applicants-hub/client/src/components/applicantForm/applicant-form.jsx:89-102 | The computed age is the number of birthdays reached: that anniversary is not after today, and the next one is. |
| Dates.AgeIsUnique | applicants-hub/client/src/components/applicantForm/applicant-form.jsx:89-102 | Only one number of years satisfies that characterisation. |
| Dates.AgeOfPastBirth | applicants-hub/client/src/components/applicantForm/applicant-form.jsx:93-100 | For a birth date not after today the age is non-negative. It is the year difference, minus one before this year's birthday. |
| Dates.AgeYears | applicants-hub/client/src/components/applicantForm/applicant-form.jsx:93-100 | The year difference, less one before this year's birthday. `Dates.AgeCountsAnniversaries` and `Dates.AgeIsUnique` state its meaning. |
| Dates.ParseIsoDate | applicants-hub/client/src/components/applicantForm/applicant-form.jsx:92 | A date is read only from ten-character text, and has a month in 1..12 and a day in 1..31. |
| Dates.FormatIsoDate | applicants-hub/client/src/components/applicantDetail/applicant-detail-page.jsx:279 | The date part of `toISOString` is ten characters long. |
| Dates.IsoDateRoundTrip | applicants-hub/client/src/components/applicantDetail/applicant-detail-page.jsx:279 | A date written as `yyyy-mm-dd` parses back to itself. |
| KeySort.SortPermutes | applicants-hub/client/src/components/applicantList/applicant-list-page.jsx:58-69 | Sorting is a permutation. |
| KeySort.Sort | applicants-hub/client/src/components/applicantList/applicant-list-page.jsx:58-69 | Sorting keeps the length. The lemmas around it give the permutation, order and stability. |
| KeySort.SortSorted | applicants-hub/client/src/components/applicantList/applicant-list-page.jsx:58-69 | The result is ordered: no element is followed by one the comparator puts before it. |
| KeySort.SortStable | applicants-hub/client/src/components/applicantList/applicant-list-page.jsx:58-69 | Elements with equal keys keep their input order. |
| KeySort.SortCharacterised | applicants-hub/client/src/components/applicantList/applicant-list-page.jsx:58-69 | Any ordered list with the same equal-key runs as the input is the sort result, so the stable sort is unique. |
| KeySort.DescendingReversesAscending | applicants-hub/client/src/components/applicantList/applicant-list-page.jsx:66-67 | With distinct keys, the descending order is the ascending order reversed. |
| KeySort.KeyBeforeTotal | applicants-hub/client/src/components/applicantList/applicant-list-page.jsx:66-67 | The comparator returns 0 only for equal keys. |
| KeySort.KeyNotBeforeTransitive | applicants-hub/client/src/components/applicantList/applicant-list-page.jsx:66-67 | "Not before" is transitive for the comparator. |
| KeySort.InsertSorted | applicants-hub/client/src/components/applicantList/applicant-list-page.jsx:58-69 | Inserting into an ordered list keeps it ordered. |
| KeySort.InsertPermutes | applicants-hub/client/src/components/applicantList/applicant-list-page.jsx:58-69 | Inserting adds exactly one copy of the element. |
| KeySort.KeyRunInsert | applicants-hub/client/src/components/applicantList/applicant-list-page.jsx:58-69 | An inserted element goes in front of the elements with its own key. |
| ListQuery.KeepMatching | applicants-hub/client/src/components/applicantList/applicant-list-page.jsx:42-48 | The search keeps every copy of each matching record and nothing else: a record occurs in the result as often as in the input if it matches, and not at all otherwise. |
| ListQuery.KeepWithValue | applicants-hub/client/src/components/applicantList/applicant-list-page.jsx:51-56 | The field filter keeps every copy of each record with a non-blank value and nothing else, counted as in the input. |
| ListQuery.KeepMatchingAppend | applicants-hub/client/src/components/applicantList/applicant-list-page.jsx:42-48 | The search distributes over concatenation, so it keeps input order. |
| ListQuery.KeepWithValueAppend | applicants-hub/client/src/components/applicantList/applicant-list-page.jsx:51-56 | The field filter distributes over concatenation, so it keeps input order. |
| ListQuery.RecordMatches | applicants-hub/client/src/components/applicantList/applicant-list-page.jsx:43-47 | A record matches when its id's decimal text, one of its field values, or the text of its documents object contains the term, ignoring ASCII case. `ListQuery.SearchSeesTheId` and `ListQuery.SearchIgnoresCase` state consequences. |
| ListQuery.HasValue | applicants-hub/client/src/components/applicantList/applicant-list-page.jsx:53 | The value test `app[field] && app[field].trim() !== ""`. `ListQuery.HasValueIffNotBlank` states its meaning. |
| ListQuery.SortKey | applicants-hub/client/src/components/applicantList/applicant-list-page.jsx:59-64 | The sort key is lower case, and empty for a missing or empty value. |
| ListQuery.HasValueIffNotBlank | applicants-hub/client/src/components/applicantList/applicant-list-page.jsx:53 | The filter condition holds exactly when the field is present and not all white space. |
| ListQuery.MissingValueSortsFirst | applicants-hub/client/src/components/applicantList/applicant-list-page.jsx:59-64 | A missing or empty value sorts before everything ascending and after everything descending. |
| ListQuery.DisplayedSpec | applicants-hub/client/src/components/applicantList/applicant-list-page.jsx:38-72 | The displayed list is a sub-multiset of the applicants and holds exactly those that pass the search and the filter. It is sorted, and records with equal keys keep their post-filter order. |
| ListQuery.Displayed | applicants-hub/client/src/components/applicantList/applicant-list-page.jsx:38-72 | `filteredAndSortedApplicants`: search, field filter, then sort. `ListQuery.DisplayedSpec` states its meaning. |
| ListQuery.DefaultControlsKeepEverything | applicants-hub/client/src/components/applicantList/applicant-list-page.jsx:42-56 | With an empty search and "all", every applicant is displayed. |
| ListQuery.ToggleReverses | applicants-hub/client/src/components/applicantList/applicant-list-page.jsx:66-67 | With distinct sort values, flipping the direction reverses the table. |
| ListQuery.SearchIgnoresCase | applicants-hub/client/src/components/applicantList/applicant-list-page.jsx:44-45 | "makati" finds a record whose city is "Makati City". |
| ListQuery.ValueMatchesIgnoresCase | applicants-hub/client/src/components/applicantList/applicant-list-page.jsx:45 | The case of the value or of the term never changes the match. |
| ListQuery.SearchSeesTheId | applicants-hub/client/src/components/applicantList/applicant-list-page.jsx:44-45 | Every record matches a search for its own id's digits. |
| ListPage.NextSort | applicants-hub/client/src/components/applicantList/applicant-list-page.jsx:20-27 | A header click selects that field. It flips the direction on the same field and starts ascending on another. |
| ListPage.Clicks | applicants-hub/client/src/components/applicantList/applicant-list-page.jsx:20-27 | After one or more clicks on a header, the table is sorted by that header's field. |
| ListPage.ClicksAlternate | applicants-hub/client/src/components/applicantList/applicant-list-page.jsx:20-27 | After n clicks on a new header the table is sorted by it, ascending exactly when n is odd. |
| ListPage.ClickTwiceRestores | applicants-hub/client/src/components/applicantList/applicant-list-page.jsx:20-27 | Clicking the current header twice restores the sort. |
| ListPage.ApplicantListPage.constructor | applicants-hub/client/src/components/applicantList/applicant-list-page.jsx:13-17 | The table starts with no search, sorted by name ascending, no filter and no deletion. |
| ListPage.ApplicantListPage.Counts | applicants-hub/client/src/components/applicantList/applicant-list-page.jsx:96-98 | The row count never exceeds the applicant count. With the default controls the two are equal. |
| ListPage.ApplicantListPage.HandleSort | applicants-hub/client/src/components/applicantList/applicant-list-page.jsx:20-27 | Moves the sort state by one header click and leaves the other controls alone. |
| ListPage.ApplicantListPage.SetSearchTerm | applicants-hub/client/src/components/applicantList/applicant-list-page.jsx:107 | Sets the search text only. |
| ListPage.ApplicantListPage.SetFilterField | applicants-hub/client/src/components/applicantList/applicant-list-page.jsx:115 | Sets the filter field only. |
| ListPage.ApplicantListPage.HandleDelete | applicants-hub/client/src/components/applicantList/applicant-list-page.jsx:74-84 | A dismissed dialog changes nothing. Otherwise the deletion mark is cleared whatever happens. Success removes the record, a thrown error alerts "Failed to delete applicant: " plus the message, and a missing result stops the handler. |
| Context.FetchError | applicants-hub/client/src/state/ApplicantContext.jsx:17-41 | An error is recorded exactly when a request throws, and it is never empty. The custom-field error wins when both throw. |
| Context.ApplicantProvider.constructor | applicants-hub/client/src/state/ApplicantContext.jsx:7-10 | Empty lists, loading, no error. |
| Context.ApplicantProvider.FetchInitialData | applicants-hub/client/src/state/ApplicantContext.jsx:17-41 | Loading ends. The error is the one above. Each list is replaced only when nothing threw and its answer succeeded. |
| Context.ApplicantProvider.AddApplicant | applicants-hub/client/src/state/ApplicantContext.jsx:43-55 | Success appends the stored record and reports success. A thrown error reports its message. A declined answer returns nothing. In both failure cases nothing changes. |
| Context.ApplicantProvider.DeleteApplicant | applicants-hub/client/src/state/ApplicantContext.jsx:57-69 | Success filters out the id. Failures change nothing and answer as above. |
| Context.ApplicantProvider.UpdateApplicant | applicants-hub/client/src/state/ApplicantContext.jsx:71-85 | Success replaces every record with the id by the stored one. Failures change nothing. |
| Context.ApplicantProvider.AddCustomField | applicants-hub/client/src/state/ApplicantContext.jsx:87-99 | Success appends the stored definition. Failures change nothing. |
| Context.ApplicantProvider.RemoveCustomField | applicants-hub/client/src/state/ApplicantContext.jsx:101-113 | Success filters out the field id. Failures change nothing. |
| Context.ApplicantProvider.RefreshApplicants | applicants-hub/client/src/state/ApplicantContext.jsx:115-129 | Loading ends. Success replaces the list. A thrown error sets the bare message, and otherwise the error is left as it was. |
| Context.WithoutIdIsSplice | applicants-hub/client/src/state/ApplicantContext.jsx:62 | With unique ids, the client's filter removes exactly what the store's splice removes. |
| Context.WithoutIdSplit | applicants-hub/client/src/state/ApplicantContext.jsx:62 | Filtering out the one record with the id leaves the records around it. |
| Context.WithoutFieldIdIsSplice | applicants-hub/client/src/state/ApplicantContext.jsx:106 | With unique field ids, the client's filter removes exactly what the store's splice removes. |
| Context.WithoutFieldIdSplit | applicants-hub/client/src/state/ApplicantContext.jsx:106 | Filtering out the one definition with the id leaves the definitions around it. |
| Context.ReplaceIdIsUpdate | applicants-hub/client/src/state/ApplicantContext.jsx:76-78 | With unique ids, the client's map changes exactly the position the store overwrites. |
| Context.DuplicateFieldRemovalDiverges | applicants-hub/client/src/state/ApplicantContext.jsx:106 | With a repeated field id, the store removes one definition and the client removes both. |
| Context.LoadFromStore | applicants-hub/client/src/state/ApplicantContext.jsx:23-34 | Loading from the store brings the container in step with it, with no error. |
| Context.AddThroughStore | applicants-hub/client/src/state/ApplicantContext.jsx:45-49 | Adding through the store keeps the two in step and ids unique. |
| Context.DeleteThroughStore | applicants-hub/client/src/state/ApplicantContext.jsx:59-63 | Deleting through the store keeps the two in step and ids unique. An unknown id fails with the store's message. Afterwards the id is gone. |
| Context.UpdateThroughStore | applicants-hub/client/src/state/ApplicantContext.jsx:73-79 | Updating with an id-preserving patch keeps the two in step and ids unique. |
| Context.AddFieldThroughStore | applicants-hub/client/src/state/ApplicantContext.jsx:89-93 | Adding a definition through the store keeps the two in step. |
| Context.RemoveFieldThroughStore | applicants-hub/client/src/state/ApplicantContext.jsx:103-107 | With unique field ids, removing through the store keeps the two in step. |
| LegacyContext.LegacyProvider.constructor | applicants-hub/src/state/ApplicantContext.jsx:6-7 | Both lists start empty. |
| LegacyContext.LegacyProvider.AddApplicant | applicants-hub/src/state/ApplicantContext.jsx:9-11 | Appends the input under id `Date.now()`. |
| LegacyContext.LegacyProvider.DeleteApplicant | applicants-hub/src/state/ApplicantContext.jsx:13-15 | Filters out the id. An unknown id changes nothing. |
| LegacyContext.LegacyProvider.AddCustomField | applicants-hub/src/state/ApplicantContext.jsx:17-19 | Appends the definition as given. |
| LegacyContext.LegacyProvider.RemoveCustomField | applicants-hub/src/state/ApplicantContext.jsx:21-23 | Filters out the field id. An unknown id changes nothing. |
| LegacyContext.DeleteUndoesAdd | applicants-hub/src/state/ApplicantContext.jsx:9-15 | Deleting the record just added under a fresh id restores the list. |
| LegacyContext.RemoveUndoesAdd | applicants-hub/src/state/ApplicantContext.jsx:17-23 | Removing the definition just added under an unused id restores the list. |
| LegacyContext.DeleteIsIdempotent | applicants-hub/src/state/ApplicantContext.jsx:13-15 | Deleting an id twice is deleting it once. |
| LegacyContext.RemoveIsIdempotent | applicants-hub/src/state/ApplicantContext.jsx:21-23 | Removing a field id twice is removing it once. |
| Form.BlankFormSpec | applicants-hub/client/src/components/applicantForm/applicant-form.jsx:175-214 | The reset form has exactly the standard keys and the custom-field ids, all empty. |
| Form.BlankForm | applicants-hub/client/src/components/applicantForm/applicant-form.jsx:175-214 | The values the form is reset to. `Form.BlankFormSpec` states them. |
| Form.ResetClearsEveryField | applicants-hub/client/src/components/applicantForm/applicant-form.jsx:175-214 | After a reset every standard field and every custom field is empty. |
| Form.CalculateAgeOfPickedDate | applicants-hub/client/src/components/applicantForm/applicant-form.jsx:89-102 | For a date the picker produces, the age is the decimal text of the whole years reached, and it is not empty. |
| Form.CalculateAge | applicants-hub/client/src/components/applicantForm/applicant-form.jsx:89-102 | The age text is empty exactly when no date is given. A date that cannot be read gives "NaN". |
| Form.CalculateAgeAroundBirthday | applicants-hub/client/src/components/applicantForm/applicant-form.jsx:89-102 | Born 1990-05-15: 33 on 2024-05-14, and 34 from 2024-05-15. |
| Form.TrimmedEmpty | applicants-hub/client/src/components/applicantForm/applicant-form.jsx:135 | `label.trim()` is falsy exactly when the label is white space only. |
| Form.DraftFor | applicants-hub/client/src/components/applicantForm/applicant-form.jsx:136-141 | The requested definition keeps the label and type. Its id is the label's derived id, so it is lower case without white space, and empty only for an empty label. |
| Form.ApplicantForm.constructor | applicants-hub/client/src/components/applicantForm/applicant-form.jsx:12-77 | Standard fields empty, no files, no pending custom field, no messages. |
| Form.ApplicantForm.HandleChange | applicants-hub/client/src/components/applicantForm/applicant-form.jsx:80-86 | Sets one field and keeps everything else. |
| Form.ApplicantForm.HandleDateOfBirthChange | applicants-hub/client/src/components/applicantForm/applicant-form.jsx:105-112 | Sets the date of birth and its computed age. |
| Form.ApplicantForm.HandleFileChange | applicants-hub/client/src/components/applicantForm/applicant-form.jsx:115-123 | Stores the chosen file in its slot. An empty choice changes nothing. |
| Form.ApplicantForm.HandleCustomFieldChange | applicants-hub/client/src/components/applicantForm/applicant-form.jsx:126-131 | Sets one custom value and keeps everything else. |
| Form.ApplicantForm.SetNewField | applicants-hub/client/src/components/applicantForm/applicant-form.jsx:951-958 | Sets the pending label and type. |
| Form.ApplicantForm.HandleAddCustomField | applicants-hub/client/src/components/applicantForm/applicant-form.jsx:134-152 | A blank label requests nothing. Otherwise it requests the derived definition. Success adds an empty value under the id and resets the inputs, and a missing result stops the handler. |
| Form.ApplicantForm.HandleRemoveCustomField | applicants-hub/client/src/components/applicantForm/applicant-form.jsx:155-162 | Removes the definition on success, and drops the form value whatever the answer. |
| Form.ApplicantForm.HandleSubmit | applicants-hub/client/src/components/applicantForm/applicant-form.jsx:165-237 | Sends the current values. Success resets fields, custom fields included, and documents, and shows the note. Failure keeps the input and shows the message or "Failed to save applicant"; a missing result shows "An unexpected error occurred". Submitting always ends. |
| Detail.FindApplicant | applicants-hub/client/src/components/applicantDetail/applicant-detail-page.jsx:25 | Finds a record exactly when one has the id, and gives the first such record. |
| Detail.SectionShownIffRowShown | applicants-hub/client/src/components/applicantDetail/applicant-detail-page.jsx:348-362 | Outside edit mode a section is shown exactly when one of its rows is. |
| Detail.FieldShown | applicants-hub/client/src/components/applicantDetail/applicant-detail-page.jsx:360 | A row is shown when editing or when its value is truthy. |
| Detail.DocumentsCardShown | applicants-hub/client/src/components/applicantDetail/applicant-detail-page.jsx:427 | The documents card is shown exactly when the record has a documents object. |
| Detail.NewRecordHasNoDocumentsCard | applicants-hub/client/src/components/applicantDetail/applicant-detail-page.jsx:427 | A record created through the store never shows the documents card. |
| Detail.CurrentDocument | applicants-hub/client/src/components/applicantDetail/applicant-detail-page.jsx:107-110 | A slot has a document to show exactly when the working copy or the saved record has one there, and the working copy's document takes precedence. |
| Detail.DocumentSlotShownIff | applicants-hub/client/src/components/applicantDetail/applicant-detail-page.jsx:107-110 | A document slot is rendered exactly when editing, or when the working copy or the saved record holds a document for it. |
| Detail.DeletedDocumentStillDisplayed | applicants-hub/client/src/components/applicantDetail/applicant-detail-page.jsx:107 | A document cleared from the working copy is still displayed until the edit is saved. |
| Detail.Kilobytes | applicants-hub/client/src/components/applicantDetail/applicant-detail-page.jsx:277 | The KB count is the size divided by 1024, rounded to the nearest integer with halves rounded up. |
| Detail.SizeLabel | applicants-hub/client/src/components/applicantDetail/applicant-detail-page.jsx:277 | The size label is the KB count's digits followed by " KB". |
| Detail.UploadedDocument | applicants-hub/client/src/components/applicantDetail/applicant-detail-page.jsx:270-284 | The document stored for an upload. `Detail.UploadedDocumentReadsBack` states its fields. |
| Detail.UploadedDocumentReadsBack | applicants-hub/client/src/components/applicantDetail/applicant-detail-page.jsx:270-284 | An upload keeps name, type and file. Its size label reads back as the KB count plus " KB", and its date reads back as the upload day. |
| Detail.SavedRecordIsWorkingCopy | applicants-hub/client/src/components/applicantDetail/applicant-detail-page.jsx:216-221 | Saving stores exactly the edited fields and documents under the same id. |
| Detail.DetailPage.constructor | applicants-hub/client/src/components/applicantDetail/applicant-detail-page.jsx:12-22 | Not editing, empty working copies, no error, not deleting. |
| Detail.DetailPage.HandleEdit | applicants-hub/client/src/components/applicantDetail/applicant-detail-page.jsx:190-195 | Starts editing from the record's fields and documents, or none, and clears the error. |
| Detail.DetailPage.HandleCancelEdit | applicants-hub/client/src/components/applicantDetail/applicant-detail-page.jsx:197-202 | Leaves edit mode and drops the working copies. |
| Detail.DetailPage.HandleEditChange | applicants-hub/client/src/components/applicantDetail/applicant-detail-page.jsx:204-209 | Sets one field of the working copy. |
| Detail.DetailPage.HandleDocumentUpload | applicants-hub/client/src/components/applicantDetail/applicant-detail-page.jsx:270-284 | Puts the uploaded document in its slot. An empty choice changes nothing. |
| Detail.DetailPage.HandleDeleteDocument | applicants-hub/client/src/components/applicantDetail/applicant-detail-page.jsx:286-293 | After confirmation, clears the slot. |
| Detail.DetailPage.HandleSaveEdit | applicants-hub/client/src/components/applicantDetail/applicant-detail-page.jsx:211-235 | Sends the working copy with the documents as one patch. Success leaves edit mode. Failure shows the message or "Failed to update applicant"; a missing result shows "An unexpected error occurred". Updating always ends. |
| Detail.DetailPage.HandleDelete | applicants-hub/client/src/components/applicantDetail/applicant-detail-page.jsx:237-254 | A dismissed dialog changes nothing. Success navigates to the list. A thrown error alerts and clears the mark. A missing result stops with the mark still set. |

## Left out

- Asynchrony: delays, `await`, timers and React's batched state updates are left out. Each handler runs to completion in order, and each transport answer is a parameter.
- Promise.all ordering: `Context.FetchError` fixes which rejection wins from the mock delays (500 ms and 800 ms). A real transport could settle in either order.
- Context.ApplicantProvider.AddApplicant and the other container operations do not see the request they forward. The page methods return what they sent, and the wiring methods connect the two for the mock store.
- Form.CalculateAge: the timezone of `new Date` is left out. The date is read as the calendar day written, and `today` is a parameter. Only `yyyy-mm-dd` text is parsed; other text `Date` accepts gives "NaN" here. Day numbers past a month's end are not rolled over.
- Form.CalculateAge: the age is kept as its decimal text. The form stores a JavaScript number; the seed records store text.
- Text.Lower: only ASCII letters are lower-cased.
- ListQuery.SortKey: a numeric value (the `typeof` check) is not modelled. Records hold `id` outside their text fields, so sorting by a field named "id" compares empty keys here and keeps the order.
- Detail.DetailPage.HandleDocumentUpload requires a clock between years 0 and 9999, the range `toISOString` writes with four digits. `toFixed` exponent notation for huge sizes is not modelled.
- Custom-field ids equal to "id" or "documents": these would clash with a record's own properties and are not modelled.
- The route's `parseInt` is not modelled: the detail page takes the id as a number.
- The document viewer, print and download, the confirm dialog texts, and the success and error banners' timing are not modelled.
- The seed applicants are a constructor parameter; their contents are not modelled.
- The Express server and the login routes are not part of this model.
- The legacy container's `useApplicants` outside a provider (a thrown error) is not modelled.
