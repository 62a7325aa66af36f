# MCE Reference Generator — verified model

A Dafny model of the logic inside `mce_ref_generator.py`, a Streamlit page that issues
tender/project reference numbers. The page keeps a store `{last_number, records}` in a JSON
file. On a complete form submission it raises the counter by one and issues the reference
`<CATEGORY>-<counter>`. It appends an 8-field record and shows the records, optionally filtered
by project name and by user.

Files:

- `wrappers.dfy`: `Option`.
- `decimal.dfy` (module `Decimal`): the decimal form of a counter value, as an f-string
  renders an `int`, and the parse that recovers the number.
- `reference.dfy` (module `Reference`): the four categories, the reference format, the split at
  the first hyphen, and the round trip between them.
- `store.dfy` (module `ReferenceStore`): records, the load fallback, the submission step as a
  function (`SubmitForm`), the `Store` class whose `Submit` method updates the counter and the
  record list in place, and the numbering invariant of every store grown from the default one.
- `record_filter.dfy` (module `RecordFilter`): the record viewer's two filters, modelled as
  pandas boolean indexing (`Select` by a mask), and their exact characterisation.

The user identity comes from the session's login state in the source; here it is the `user`
field of `Form`. Loading is modelled on its outcome: `FileState` says whether the file was
absent, unparseable, or parsed into a store.

Only empty fields are rejected: the condition at `mce_ref_generator.py:75` is a truthiness
test, so a whitespace-only field passes.

## Model

| member | source | states |
|---|---|---|
| `Decimal.NatToString` | mce_ref_generator.py:79 | the counter's text is non-empty, all decimal digits, and has no leading zero unless the number is 0 |
| `Decimal.ParseNat` | mce_ref_generator.py:79 | a string parses as a number exactly when it is non-empty and all digits |
| `Decimal.ParseNatToString` | mce_ref_generator.py:79 | parsing the decimal form of `n` gives `n` back |
| `Decimal.NatToStringInjective` | mce_ref_generator.py:79 | two counter values have the same decimal form only when they are equal |
| `Reference.CategoryName` | mce_ref_generator.py:65 | each of the four category names is non-empty and contains no hyphen |
| `Reference.CategoryFromName` | mce_ref_generator.py:65 | a name is recognised as a category exactly when it is that category's name |
| `Reference.SplitAtFirst` | mce_ref_generator.py:79 | the split fails exactly when there is no separator; otherwise the parts rebuild the string and the first part has no separator |
| `Reference.SplitAtFirstJoin` | mce_ref_generator.py:79 | a hyphen-free prefix, a hyphen and any rest split back into that prefix and that rest |
| `Reference.FormatReference` | mce_ref_generator.py:79 | definition of `<category>-<n>`; its properties are stated by `Reference.ParseFormatReference` and `Reference.FormatReferenceInjective` |
| `Reference.ParseFormatReference` | mce_ref_generator.py:79 | splitting `<category>-<n>` at the first hyphen recovers both the category and `n` |
| `Reference.FormatReferenceInjective` | mce_ref_generator.py:79 | two references are equal exactly when their categories and numbers are equal |
| `ReferenceStore.Load` | mce_ref_generator.py:11-19 | a parsed file gives its store; a missing or unparseable file gives `last_number` 3458 and no records |
| `ReferenceStore.DefaultStore` | mce_ref_generator.py:17-19 | the fallback store has counter 3458 and no records, and is well numbered |
| `ReferenceStore.LoadFallbackWellNumbered` | mce_ref_generator.py:11-19 | the fallback store is the default store and satisfies the numbering invariant |
| `ReferenceStore.IsComplete` | mce_ref_generator.py:75 | definition of the submission check (all four fields non-empty); its effect is stated by `ReferenceStore.SubmitIncompleteUnchanged` and `ReferenceStore.SubmitComplete` |
| `ReferenceStore.MakeRecord` | mce_ref_generator.py:81-90 | definition of the 8-field record; its fields and reference are stated by `ReferenceStore.SubmitComplete` |
| `ReferenceStore.SubmitForm` | mce_ref_generator.py:74-92 | a submission generates a record exactly when the form is complete; the rest of its behaviour is stated by the two lemmas below |
| `ReferenceStore.SubmitIncompleteUnchanged` | mce_ref_generator.py:74-76 | an empty project name, description, user or RFQ number leaves counter and records unchanged and yields no record |
| `ReferenceStore.SubmitComplete` | mce_ref_generator.py:77-92 | a complete form raises the counter by exactly one and appends exactly one record at the end, with earlier records unchanged; the record's fields are the inputs and its reference splits back into the category and the new counter |
| `ReferenceStore.SubmitPreservesWellNumbered` | mce_ref_generator.py:74-92 | every submission, complete or not, keeps the invariant that the i-th record carries `3459 + i` and the counter is 3458 plus the number of records |
| `ReferenceStore.WellNumberedSuffixes` | mce_ref_generator.py:78-92 | in a store grown from the default, the suffixes are above 3458 and at most `last_number`, strictly increase in insertion order, and no two references are equal |
| `ReferenceStore.SubmitAll` | mce_ref_generator.py:74-92 | definition of a run of submissions, one after the other; its properties are stated by `ReferenceStore.SubmitAllGrows` and `ReferenceStore.SubmitAllComplete` |
| `ReferenceStore.SubmitAllGrows` | mce_ref_generator.py:74-92 | any run of submissions, complete or not, keeps the earlier records, appends at most one record per form, and raises the counter by exactly the number appended |
| `ReferenceStore.SubmitAllComplete` | mce_ref_generator.py:74-92 | N complete submissions from counter L end at counter L + N, with the old records followed, in order, by the N records those forms issue |
| `ReferenceStore.IssuedAt` | mce_ref_generator.py:78-90 | the k-th of those issued records is built from the k-th form and carries the number L + 1 + k, so the references are `<category_k>-<L + 1 + k>` |
| `ReferenceStore.Store.constructor` | mce_ref_generator.py:30 | the page's store starts as the loaded data, well numbered when loading fell back to the default |
| `ReferenceStore.Store.Submit` | mce_ref_generator.py:74-92 | updates the store in place: unchanged and no record on an incomplete form, otherwise counter + 1 and the new record appended and returned; agrees with `SubmitForm` and keeps the numbering invariant |
| `RecordFilter.Lower` | mce_ref_generator.py:120 | lowering keeps the length and lowers every character (ASCII only) |
| `RecordFilter.Contains` | mce_ref_generator.py:120 | the search answers true exactly when the pattern occurs at some position of the text |
| `RecordFilter.IgnoresCase` | mce_ref_generator.py:120-122 | lowering the field or the filter text does not change whether a row matches |
| `RecordFilter.Select` | mce_ref_generator.py:120 | boolean indexing returns no more rows than it was given, each of them from the input |
| `RecordFilter.Positions` | mce_ref_generator.py:120 | the true positions of a mask, strictly increasing, each in range and true, and including every true position |
| `RecordFilter.SelectAtPositions` | mce_ref_generator.py:120 | boolean indexing returns exactly the rows at the mask's true positions, in order |
| `RecordFilter.Mask` | mce_ref_generator.py:120 | definition of the boolean column `str.contains(text, case=False)` over one column |
| `RecordFilter.Where` | mce_ref_generator.py:120 | definition of one filter step, `df[mask]`; its effect on a table grown by one row is stated by `RecordFilter.WhereSnoc` |
| `RecordFilter.Keeps` | mce_ref_generator.py:119-122 | definition of "passes every non-empty filter"; the filtered table is characterised by it in `RecordFilter.FilterExact` and `RecordFilter.FilterMembership` |
| `RecordFilter.ApplyFilters` | mce_ref_generator.py:119-122 | with both filter texts empty the table is the full record list; otherwise it is a sub-multiset of it |
| `RecordFilter.ApplyFiltersIsSelect` | mce_ref_generator.py:119-122 | applying the two filters one after the other equals one selection by "passes every non-empty filter" |
| `RecordFilter.FilterExact` | mce_ref_generator.py:119-122 | the filtered table is the records at strictly increasing positions, and a position is kept exactly when its record passes every non-empty filter |
| `RecordFilter.FilterMembership` | mce_ref_generator.py:119-122 | a record is in the filtered table exactly when it is a stored record passing every non-empty filter |
| `RecordFilter.FilterIntersection` | mce_ref_generator.py:119-122 | both filters together keep exactly the records that each filter alone keeps |

## Left out

- The Streamlit page itself: layout, the login and logout flow, session state and reruns (lines 26-56, 96-105, 124-134). The user identity is an input.
- File I/O and JSON handling (lines 11-23). Loading is modelled by its outcome only. `save_data` is not modelled: it writes the whole store, so a later load of that file gives the same store.
- A persisted file that parses but does not have the expected shape (wrong keys, a non-integer or negative `last_number`) is not modelled; the model's stored counter is a natural number.
- Errors other than a JSON parse error while loading, such as a permission error, are not modelled; the source lets them propagate.
- CSV and per-record JSON export (lines 100-105, 126-132): thin calls into pandas and `json`.
- Dates are opaque strings. The source does not compare the deadline with the issue date.
- Concurrent users racing on the shared file are out of scope. The model is one store changed by one caller at a time.
- RecordFilter.Contains: a literal substring test. `str.contains` reads the filter text as a regular expression by default, so texts holding regex metacharacters can match differently. Filter text that is not a valid regular expression, such as `(` or `[`, makes `str.contains` raise an error and the page fail, while the model still returns rows.
- RecordFilter.Lower: ASCII case folding only. pandas with `case=False` folds case across all of Unicode.
- RecordFilter.Mask: missing cells (`na=False`) cannot occur, because every modelled record has every field.
