# GoldenEthics publication catalog — a Dafny model

The catalog is a single-page app. It lists faculty publication records, filters them with a
free-text search, and adds, edits and deletes records through two dialogs. The collection
persists in the browser's local storage. This project models the app's state and handlers from
`App.tsx`, and the add/edit form of `components/AddEditModal.tsx` with its validation and
submit. It proves what each of them does to the collection and to the form.

Modules:

- `Nullable`, `Types` (`types.dfy`): the record `FacultyPublication` is `Publication`. The same
  record without its id is `Draft`, which the form hands to `onSave`. JavaScript truthiness is
  modelled for nullable text and numbers.
- `JsText` (`jstext.dfy`) models the string operations the core relies on:
  - `trim`, over the ECMAScript white-space and line-terminator set;
  - `toLowerCase`;
  - `includes`;
  - `Number.prototype.toString` for integers;
  - `Number(string)` for integer text.
- `Sequences` (`sequences.dfy`): `Array.prototype.filter` and the order-keeping relation it
  satisfies.
- `Store` (`store.dfy`): the pure list computations of `App.tsx`. These are the initial load
  and seed, the search filter, save (update or create) and delete. Each is a function from
  the old collection to the new one.
- `Catalog` (`catalog.dfy`): the class `App` holds the six state variables of `App.tsx`. Each
  handler is a method that states the whole new state. Every handler also preserves `Valid()`:
  the confirmation dialog is never open without a pending id. No other contract relies on this
  invariant; it is proved for its own sake.
- `Form` (`form.dfy`): `FormData` is the form's working copy. The pure functions are the
  initial copy, a field change, the error map and the save request. The class `AddEditForm`
  holds the form's two state variables, and its methods mirror `handleChange`, `validate` and
  `handleSubmit`.
- `Flows` (`flows.dfy`): properties across modules and worked examples:
  - editing a record with a non-null email and submitting it unchanged leaves the collection as
    it was;
  - a field change leaves the other fields' checks alone;
  - a one-record seed answers searches by name, by year and by an unrelated word.

Clock readings and local storage become parameters:

- `Date.now()` is `now`.
- `new Date().getFullYear()` is `currentYear`.
- The stored slot is `saved: Option<string>`.
- `JSON.parse` is a function parameter `parse`, where `None` stands for a parse that throws.

Some behaviour follows from the code and may surprise a reader:

- **Unreadable stored data.** A stored text that does not parse gives an empty collection, not
  the seed (`App.tsx:15-16`). See `Store.MalformedStoreIsEmpty`.
- **Cancelling a delete.** Closing the confirmation dialog without confirming keeps the pending
  id (`App.tsx:119`). See `Catalog.App.CancelConfirm`.
- **Closing the form.** `handleCloseModal` keeps the record being edited (`App.tsx:67`).
- **After a submit.** `handleSubmit` itself leaves the working copy as it is
  (`components/AddEditModal.tsx:71-81`). The form is reset by its effect, which runs whenever
  the dialog's open flag or its record changes, closing included
  (`components/AddEditModal.tsx:27-51`). A valid save closes the dialog and clears the edited
  record (`App.tsx:78-79`), so the effect then resets the copy to the blank form.
- **An untouched edit of a record with a null email.** The form shows `''` for the null email
  (`components/AddEditModal.tsx:33`), and the update's spread stores that text in the record
  (`App.tsx:72`). So saving such a record unchanged replaces its null email with `''`. See
  `Flows.NullEmailBecomesEmpty`.
- **Editing a record with an empty id.** This creates a new record instead of updating the old
  one, because the form attaches only a truthy id (`components/AddEditModal.tsx:75`). See
  `Flows.EditOfIdlessRecordCreates`.

## Model

| member | source | states |
|---|---|---|
| Types.WithId | types.ts:2-12 | giving a draft an id yields the record with that id and exactly that draft's data |
| JsText.TrimEmptyIffBlank | components/AddEditModal.tsx:60-62 | `trim()` gives the empty text exactly when every character is JavaScript white space |
| JsText.TrimStart | components/AddEditModal.tsx:60-62 | removes the leading white space; `JsText.TrimStartSuffix` proves what is left |
| JsText.TrimEnd | components/AddEditModal.tsx:60-62 | removes the trailing white space; `JsText.TrimEndPrefix` proves what is left |
| JsText.Trim | components/AddEditModal.tsx:60-62 | `trim()`, defined as both removals; `JsText.TrimSlice` and `JsText.TrimEmptyIffBlank` prove its meaning |
| JsText.TrimStartSuffix | components/AddEditModal.tsx:60-62 | removing leading white space leaves a suffix that does not start with white space, and everything removed is white space |
| JsText.TrimEndPrefix | components/AddEditModal.tsx:60-62 | removing trailing white space leaves a prefix that does not end with white space, and everything removed is white space |
| JsText.TrimSlice | components/AddEditModal.tsx:60-62 | `trim()` is a slice of the text with only white space around it, and it neither starts nor ends with white space |
| JsText.Lower | App.tsx:37-38 | `toLowerCase` keeps the length and lower-cases each ASCII capital |
| JsText.Includes | App.tsx:37-39 | `includes`, defined by trying each start position; `JsText.IncludesIffOccurs` proves its meaning |
| JsText.IncludesAt | App.tsx:36-40 | an occurrence of the query at some position makes `includes` true |
| JsText.IncludesHasOccurrence | App.tsx:36-40 | `includes` is true only when the query occurs at some position |
| JsText.IncludesIffOccurs | App.tsx:36-40 | `s.includes(t)` holds exactly when `t` occurs in `s` at some position |
| JsText.IncludesEmpty | App.tsx:36-40 | every text includes the empty text |
| JsText.NatToString | App.tsx:21 | the decimal text of a number is non-empty and made of digits only |
| JsText.IntToString | App.tsx:39 | `toString` of an integer is digits only, after a minus sign exactly when it is negative; `JsText.NumberOfToString` proves that `Number` reads it back |
| JsText.DigitsRoundTrip | App.tsx:21 | reading back the decimal text of a natural number gives that number |
| JsText.NatToStringInjective | App.tsx:21 | different numbers have different decimal texts |
| JsText.NumberOfToString | App.tsx:74 | `Number` of an integer's `toString` is that integer |
| JsText.BlankIsZero | components/AddEditModal.tsx:64 | `Number` of a blank text is 0 |
| JsText.StringToNumber | components/AddEditModal.tsx:64 | `Number(text)` for integer text: surrounding white space ignored, blank is 0, an optional sign and digits, anything else NaN; `JsText.NumberOfToString` and `JsText.BlankIsZero` prove its meaning |
| Sequences.Filter | App.tsx:36-40 | `filter` keeps exactly the elements that pass the test, and its result is no longer than its input |
| Sequences.FilterCounts | App.tsx:36-40 | `filter` keeps each passing element as many times as it occurs and drops every failing one |
| Sequences.FilterIsSubsequence | App.tsx:36-40 | `filter` keeps the survivors in their original relative order |
| Sequences.FilterConcat | App.tsx:36-40 | filtering a concatenation is concatenating the filtered parts |
| Sequences.FilterAllKept | App.tsx:36-40 | when every element passes, `filter` returns its input |
| Sequences.FilterIdempotent | App.tsx:36-40 | filtering twice by the same test is filtering once |
| Store.Numbered | App.tsx:21 | the k-th kept entry gets its own data and the id `netID-k` |
| Store.IsComplete | App.tsx:20 | the seed test `p.title && p.year`: a truthy title and a truthy year; `Store.Seed` proves every kept entry passes it |
| Store.SeedId | App.tsx:21 | the template id `netID-index`; `Store.SeedIdParts` proves its shape |
| Store.SeedIdParts | App.tsx:21 | a seed id starts with the netID and a dash, and its index is the text after the last dash |
| Store.Seed | App.tsx:19-21 | the seed keeps, in order, exactly the entries with a truthy title and year; the k-th kept entry gets the id `netID-k` |
| Store.AfterLastDashOfSuffix | App.tsx:21 | the part of an id after its last dash is the index text |
| Store.SeedIdInjective | App.tsx:21 | two seed ids that are equal have the same index |
| Store.SeedIdsUnique | App.tsx:19-21 | the seeded collection has pairwise distinct ids |
| Store.Load | App.tsx:10-22 | a parsable stored text gives its parse; an unparsable one gives the empty collection; no stored text (null or empty) gives the seed |
| Store.ReloadRoundTrip | App.tsx:10-26 | a collection written by the persistence effect is read back unchanged when the app mounts again |
| Store.MalformedStoreIsEmpty | App.tsx:13-17 | a stored text that does not parse yields the empty collection, not the seed |
| Store.FilteredPublications | App.tsx:34-41 | an empty query shows every record; otherwise a record is shown exactly when its title, its "first last" name (case-insensitively) or its year text contains the query, with each shown record kept as often as it occurs |
| Store.Matches | App.tsx:37-39 | the three search criteria; `Store.MatchesIffOccurs` proves its meaning |
| Store.MatchesIffOccurs | App.tsx:37-39 | a record matches exactly when the lower-cased query occurs in its lower-cased title or "first last" name, or the raw query occurs in the decimal text of its year |
| Store.SubsequenceReflexive | App.tsx:35 | the unfiltered list keeps the order of the collection |
| Store.FilteredKeepsOrder | App.tsx:34-41 | the shown records keep the collection's order |
| Store.EmptyQueryKeepsAll | App.tsx:35-40 | even without the empty-query shortcut, filtering by the empty query would keep every record |
| Store.FilteredIdempotent | App.tsx:34-41 | searching the search result for the same query changes nothing |
| Store.Merge | App.tsx:72 | `{...p, ...pub}` keeps p's id and takes every data field from the request |
| Store.Updated | App.tsx:72 | the update keeps the length; records with the id are merged and the others are unchanged |
| Store.Saved | App.tsx:68-77 | with a truthy id, records with that id take the request's data and keep their id while the others stay; without one, a record with id `new-<now>` and the request's data goes in front of the unchanged collection |
| Store.NewId | App.tsx:74 | the id `new-<now>` starts with `new-`, and `Number` of the rest is the clock reading |
| Store.UpdateUnknownIdIsNoOp | App.tsx:72 | updating an id no record has changes nothing |
| Store.SavePreservesUniqueIds | App.tsx:70-77 | saving keeps ids pairwise distinct, provided a created record's clock id is new |
| Store.SavedIds | App.tsx:70-77 | an update keeps the set of ids; a create adds exactly `new-<now>` |
| Store.Without | App.tsx:61 | deleting keeps exactly the records with another id, each as often as it occurred; no record with that id remains |
| Store.WithoutKeepsOrder | App.tsx:61 | deleting keeps the others in order |
| Store.DeleteUnknownIdIsNoOp | App.tsx:61 | deleting an id no record has changes nothing |
| Store.FilterPreservesUniqueIds | App.tsx:61 | filtering a collection with unique ids keeps the ids unique |
| Store.WithoutPreservesUniqueIds | App.tsx:61 | deleting keeps ids pairwise distinct |
| Store.OthersHaveOtherIds | App.tsx:61 | with unique ids, the records before and after position k all have ids other than k's |
| Store.DeleteUniqueRemovesOne | App.tsx:61 | with unique ids, deleting the k-th record's id removes exactly that record |
| Catalog.App.constructor | App.tsx:10-32 | mounting loads the collection as `Load` says; the search is empty and both dialogs are closed with nothing pending |
| Catalog.App.Visible | App.tsx:34-41 | the shown list is the whole collection for an empty query, and holds only records of the collection |
| Catalog.App.SetSearchQuery | App.tsx:86 | the header's search change sets the query and nothing else |
| Catalog.App.AddNew | App.tsx:44-47 | opens the form with no record being edited; nothing else changes |
| Catalog.App.Edit | App.tsx:49-52 | opens the form on the given record; nothing else changes |
| Catalog.App.Delete | App.tsx:54-57 | remembers the id and opens the confirmation; nothing else changes |
| Catalog.App.ConfirmDelete | App.tsx:59-65 | with a truthy pending id: removes its records, closes the confirmation and clears the id; otherwise nothing changes |
| Catalog.App.CancelConfirm | App.tsx:119 | closes the confirmation and keeps the pending id and the collection |
| Catalog.App.CloseModal | App.tsx:67 | closes the form and keeps the record it was editing |
| Catalog.App.Save | App.tsx:68-82 | the collection becomes `Saved` of the old one; the form closes and forgets its record |
| Catalog.DeleteScenario | App.tsx:54-65 | on a collection holding the record, deleting and then cancelling keeps the record and the pending id; deleting again and confirming removes every record with that id and closes the dialog |
| Form.InitialForm | components/AddEditModal.tsx:27-51 | opening on a record copies its fields, using '' for a null email or title and the current year for a falsy year; with no record, the blank defaults |
| Form.BlankForm | components/AddEditModal.tsx:14-23 | the defaults: empty texts, the default department and college, the current year; `Flows.NewFormNeedsNamesAndTitle` proves which checks it fails |
| Form.WithField | components/AddEditModal.tsx:53-56 | a change writes the input's text into the named field and leaves every other field as it was |
| Form.TrimmedFalsyIffBlank | components/AddEditModal.tsx:60-62 | `!s?.trim()` holds exactly when s is null or blank |
| Form.FalsyValue | components/AddEditModal.tsx:63 | `!formData.year`: null, the number 0 and the empty text are falsy; `Flows.YearMessages` shows that the text "0" is not |
| Form.FieldError | components/AddEditModal.tsx:60-66 | the message one check records; `Form.TextErrors` and `Form.YearError` prove each one |
| Form.Errors | components/AddEditModal.tsx:58-66 | the error map has one entry per checked field whose check fails, holding that check's message |
| Form.ErrorsDeterminedByChecks | components/AddEditModal.tsx:58-66 | a map over the checked fields that agrees with every check is the error map |
| Form.ErrorKeys | components/AddEditModal.tsx:58-66 | only first name, last name, title and year can carry an error |
| Form.TextErrors | components/AddEditModal.tsx:60-62 | each name or title error is present exactly when that field is null or blank, with its fixed message |
| Form.YearError | components/AddEditModal.tsx:63-66 | a falsy year gets "Year is required."; otherwise an error "Please enter a valid year." is present exactly when the year is NaN or outside [1900, current year + 5] |
| Form.NoErrorsIffValid | components/AddEditModal.tsx:67-68 | `validate` returns true exactly when every check passes |
| Form.SubmitRequest | components/AddEditModal.tsx:71-81 | a save request is made exactly when the form is valid; it carries the form's data with the year as a number in [1900, current year + 5], and the edited record's id exactly when that id is truthy |
| Form.ToNumber | components/AddEditModal.tsx:74 | `Number(formData.year)`: null is 0, a number stays, text goes through `JsText.StringToNumber` |
| Form.Coerced | components/AddEditModal.tsx:74 | `{...formData, year: Number(formData.year)}`; `Form.SubmitRequest` proves that a valid form gives an in-range year |
| Form.AddEditForm.constructor | components/AddEditModal.tsx:14-25 | the form starts with the default working copy and no errors |
| Form.AddEditForm.Open | components/AddEditModal.tsx:27-51 | the working copy becomes the initial copy for the record; errors stay |
| Form.AddEditForm.Change | components/AddEditModal.tsx:53-56 | only the named field changes, to the input's text |
| Form.AddEditForm.Validate | components/AddEditModal.tsx:58-69 | the shown errors become the error map, and the result is true exactly when the form is valid |
| Form.AddEditForm.Submit | components/AddEditModal.tsx:71-81 | the shown errors become the error map, the working copy is kept, and the emitted request is `SubmitRequest` |
| Flows.ChangeAffectsOnlyItsCheck | components/AddEditModal.tsx:53-66 | changing one field never changes another field's check |
| Flows.NewFormNeedsNamesAndTitle | components/AddEditModal.tsx:39-66 | a fresh form fails exactly the first-name, last-name and title checks |
| Flows.OnlyFirstNameMissing | components/AddEditModal.tsx:58-69 | a blank first name with every other field valid gives exactly the first-name error |
| Flows.YearMessages | components/AddEditModal.tsx:63-66 | 1899 and current+10 are invalid years; the text "0" is invalid, not missing; '', null and 0 are missing |
| Flows.SaveUnchangedIsNoOp | App.tsx:71-72 | with unique ids, saving a record with its own data leaves the collection unchanged |
| Flows.EditUnchangedRoundTrip | components/AddEditModal.tsx:27-81 | opening a valid record with a non-null email and submitting it untouched requests exactly its id and data, and saving that request changes nothing |
| Flows.NullEmailBecomesEmpty | components/AddEditModal.tsx:33 | submitting an untouched form on a valid record whose email is null requests the empty text as its email, so the save changes the collection |
| Flows.EditOfIdlessRecordCreates | components/AddEditModal.tsx:75-78 | submitting an edit of a record with an empty id makes a create request, which puts a new record in front |
| Flows.JaneSeed | App.tsx:19-21 | a one-entry seed by netID jd1 gives one record with id `jd1-0` |
| Flows.FilterSingle | App.tsx:36-40 | a one-record list is kept exactly when the record matches |
| Flows.JaneByName | App.tsx:38 | the query "jane" finds the record through its author's name |
| Flows.YearText | App.tsx:39 | the year 2023 prints as "2023" |
| Flows.JaneByYear | App.tsx:39 | the query "2023" finds the record through its year |
| Flows.JaneNotFound | App.tsx:36-40 | the query "nothing" matches none of the three criteria |
| Flows.NotIncludedWhenShorter | App.tsx:36-40 | a text never includes a longer one |
| Flows.StartsWithHead | App.tsx:36-40 | texts with different first characters do not start with one another |
| Flows.FirstCharAbsent | App.tsx:36-40 | a text lacking the query's first character does not include the query |

## Left out

- Local storage itself is left out. The persistence effect `App.tsx:24-26` is a write and has
  no model. The read is the parameter `saved`.
- `JSON.parse` and `JSON.stringify` are parameters. The model assumes the parse returns an
  array of records. A stored JSON value of another shape is not modelled.
- Clocks are parameters: `Date.now()` is `now` and `getFullYear()` is `currentYear`. Whether two
  creates get distinct clock ids is a precondition of `Store.SavePreservesUniqueIds`.
- JsText.StringToNumber: reads only integer text. That is an optional sign and decimal digits,
  with surrounding white space, and blank text reads as 0. Fractions, exponents, hexadecimal
  and `Infinity` read as NaN. Source years are whole numbers in practice.
- JsText.Lower: folds only ASCII letters. Unicode case mapping is not modelled.
- Types.Publication: `year` is an integer. Fractional years and a record year of NaN are not
  modelled.
- Store.Merge: the request always carries every data field, so the spread takes them all. A
  partial object spread is not modelled.
- Catalog.App.ConfirmDelete: the method does not require the confirmation dialog to be open.
  The source renders the confirm button only while the dialog is open.
- The coupling between `App` and the form is not modelled. In the app, the form's reset effect
  runs whenever `isModalOpen` or `editingPublication` changes, so closing or saving resets the
  working copy. `Catalog.App` and `Form.AddEditForm` are separate, and `Form.AddEditForm.Open`
  is the effect, called on its own.
- React scheduling, effects' timing, memoisation and re-rendering are not modelled. Each handler
  is one atomic state update.
- Out of scope: the markup and presentation in `Header`, `FacultyCard`, `ConfirmationModal`,
  `Modal` and the JSX. The `facultyData` seed contents are not part of this model; the seed
  is a parameter `data`.
- `e.preventDefault()` in `handleSubmit` has no model; it is browser behaviour.
