# Cancer biomarker explorer — a verified model

This project models, in Dafny, the filtering core of the Cancer Biomarker
Explorer, which has two front ends over one table of cancer biomarkers.

The **console explorer** (`biomarker_explorer.py`, module `Explorer`):
- `filter_biomarkers` keeps the records whose `Cancer Type`, `Biomarker
  Category` and `Testing Method` contain the given criteria, compared
  without regard to case.
- The criteria are optional. Python truthiness decides whether one is set:
  `None` and `""` both mean "no constraint".
- A record that lacks a column an active criterion reads raises `KeyError`.
  The three guards short-circuit in source order.
- `summarize_categories` builds an insertion-ordered dict that counts the
  records per category, and prints it.
- `export_results` writes nothing for an empty result. Otherwise it writes a
  `csv.DictWriter` header taken from the first record's keys, then one line
  per record. A record with a key outside the header raises `ValueError`
  after the earlier lines are written. An absent key is written as `""`.

The **Streamlit dashboard** (`streamlit_app.py`, module `Dashboard`):
- It stops when a required column is missing.
- It fills NaN in the three required columns with `"Unknown"`.
- It normalises `Cancer Type`: `|` becomes `,`, the text is title-cased,
  stripped and split on `,`, each row is exploded once per part, and each
  part is stripped.
- It offers the sorted distinct values of each required column as options.
- It narrows the table once per non-empty multi-select, by exact membership,
  and shows the number of matching rows.
- The data frame is the class `Dashboard.Frame`. Its rows are overwritten
  one step at a time, as the script reassigns `df`.
- `Dashboard.Render` runs the whole script on what the CSV reader produced.

Supporting modules:
- `Wrappers`: `Option` and `Result`.
- `Seqs`: order-preserving selection and subsequences.
- `Ascii`: the Python string methods used, on ASCII text.
- `Collation`: Python's string order and `sorted(set(...))`.
- `Schema`: the three required column names.
- `Scenarios`: worked cases proved on concrete records.

## Model

| member | source | states |
|---|---|---|
| Explorer.Lookup | biomarker_explorer.py:10-14 | `row[name]`: no value exactly when no column has that name, and a value that is found belongs to the record |
| Explorer.LookupDistinct | biomarker_explorer.py:10-14 | in a dict, where each key occurs once, looking up a record's own key gives that key's value |
| Explorer.Test | biomarker_explorer.py:10-14 | one guard: it raises KeyError(column) exactly when its criterion is set and the column is absent; an unset criterion passes; a set one passes exactly when the lower-cased criterion occurs in the lower-cased value |
| Explorer.Keep | biomarker_explorer.py:10-15 | the three guards in order: KeyError('Cancer Type') exactly when the cancer criterion is active and the column is absent; KeyError('Biomarker Category') exactly when the record meets the cancer criterion, the category criterion is active and its column is absent; KeyError('Testing Method') exactly when the record meets both earlier criteria, the method criterion is active and its column is absent; with no criterion set the record is kept |
| Explorer.Filter | biomarker_explorer.py:7-17 | the list is never longer than the input; what it holds and when it raises are stated by the lemmas below |
| Explorer.FilterBiomarkers | biomarker_explorer.py:7-17 | the loop that appends each record passing all guards returns exactly the list, or the KeyError, defined by `Filter` |
| Explorer.KeepMeansSatisfies | biomarker_explorer.py:10-15 | the guard chain keeps a record exactly when every active criterion occurs, ignoring case, in its column; a guard that raises means the record does not satisfy the criteria |
| Explorer.FailurePersists | biomarker_explorer.py:9-15 | once a KeyError is raised on some record, the whole call ends with that error |
| Explorer.FilterSucceeds | biomarker_explorer.py:9-16 | the call returns normally exactly when no record makes a guard raise |
| Explorer.FilterFailure | biomarker_explorer.py:10-15 | a raised KeyError names the column of an active criterion, and some record lacks that column |
| Explorer.FilterOnCompleteRecords | biomarker_explorer.py:10-15 | records that carry the three filter columns never raise, whatever the criteria |
| Explorer.FilterIsWhere | biomarker_explorer.py:8-17 | the result is the matching records in input order |
| Explorer.FilterIsSubsequence | biomarker_explorer.py:8-17 | the result is a subsequence of the input, with unchanged records in the same relative order |
| Explorer.FilterSound | biomarker_explorer.py:10-16 | every returned record comes from the input, and each active criterion occurs in its column, ignoring case |
| Explorer.FilterComplete | biomarker_explorer.py:10-16 | every input record that meets all active criteria is returned |
| Explorer.FilterNoCriteria | biomarker_explorer.py:7-17 | with no criterion set (None or ""), the input comes back unchanged, whatever columns its records have |
| Explorer.FilterIdempotent | biomarker_explorer.py:7-17 | filtering the result again with the same criteria changes nothing |
| Explorer.TallyCorrect | biomarker_explorer.py:35-38 | the dict has one key per distinct category; keys are in first-seen order; each count is that category's number of occurrences; the counts sum to the number of records |
| Explorer.Add | biomarker_explorer.py:38 | a known key gains one and the key order stays; a new key is appended with count one; no other key changes |
| Explorer.Tally | biomarker_explorer.py:35-38 | the dict holds exactly the categories seen, with no more keys than records |
| Explorer.AddStep | biomarker_explorer.py:38 | `summary[key] = summary.get(key, 0) + 1` keeps the tally exact and the total equal to the number of records seen |
| Explorer.TallyStep | biomarker_explorer.py:38 | a known key gains one and keeps its place; a new key is appended with count one |
| Explorer.SeenOrderKept | biomarker_explorer.py:38 | a category already seen leaves the first-seen order of the keys intact |
| Explorer.SeenOrderAppended | biomarker_explorer.py:38 | a category seen for the first time goes after every key, keeping first-seen order |
| Explorer.TotalAdd | biomarker_explorer.py:38 | each update raises the sum of the counts by exactly one |
| Explorer.SummarizeCategories | biomarker_explorer.py:34-38 | raises KeyError('Biomarker Category') exactly when some record lacks that column; otherwise builds the tally of the records' categories; an empty result gives the empty dict |
| Explorer.SummaryCorrect | biomarker_explorer.py:34-38 | on records that all have a category, the summary counts each category exactly, in first-seen order, and its counts sum to the number of records |
| Explorer.Body | biomarker_explorer.py:31 | `writerows` writes, in order, the line of each record up to the first one with a key outside the header; it completes exactly when every record was written, and otherwise names the record that does not fit |
| Explorer.Line | biomarker_explorer.py:31 | one value per header field: each value is the record's value under that field name, and "" where the record has no such field; when the record's field names are distinct, the value under a header field is exactly that field's value |
| Explorer.ExportLayout | biomarker_explorer.py:24-31 | nothing is exported exactly when the result is empty; otherwise the header is the first record's keys in order, line i+1 is record i's values under that header, and the export completes exactly when every record fits the header, which is exactly when it has one line per record after the header; every record whose line was written fits the header, and an incomplete export stops at the record after the last written line, which does not fit |
| Explorer.ExportRoundTrip | biomarker_explorer.py:28-31 | when all records have the first record's keys in the same order, every record is written, and reading a line back against the header gives the record again |
| Ascii.LowerStr | biomarker_explorer.py:10 | `str.lower()` keeps the length and lower-cases each character on its own |
| Ascii.Contains | biomarker_explorer.py:10 | Python's `needle in hay` is true exactly when the needle occurs as a contiguous block of the text |
| Ascii.SubstringOfTail | biomarker_explorer.py:10 | when the needle is not a prefix, it occurs in the text exactly when it occurs in the text's tail |
| Dashboard.HasRequiredColumns | streamlit_app.py:24-25 | true exactly when all three required columns are present |
| Dashboard.FillRecord | streamlit_app.py:30 | NaN in a required column becomes "Unknown"; every other cell, and every other column, keeps its value |
| Dashboard.Filled | streamlit_app.py:30 | after the fill a required column holds "Unknown" exactly where it held NaN and its old value elsewhere, so no row holds NaN there; every other column is unchanged |
| Ascii.ReplaceChar | streamlit_app.py:33 | each pipe becomes a comma and every other character stays, so no pipe remains |
| Ascii.ReplaceCount | streamlit_app.py:33 | after the replacement there are as many commas as pipes and commas before |
| Ascii.Title | streamlit_app.py:34 | `str.title()`: a letter that starts a word becomes upper case, every other letter lower case, and other characters stay |
| Ascii.TitleKeepsCount | streamlit_app.py:34 | title-casing keeps the number of each non-letter, such as the commas |
| Ascii.Leading | streamlit_app.py:34 | the number of whitespace characters a text starts with: all of them are whitespace and the next one is not |
| Ascii.StripStart | streamlit_app.py:34 | dropping the leading whitespace leaves the text from its first non-whitespace character on |
| Ascii.StripEnd | streamlit_app.py:34 | dropping the trailing whitespace leaves a prefix, after which there is only whitespace, and which does not end with whitespace |
| Ascii.Strip | streamlit_app.py:34 | `str.strip()` is the contiguous slice of the text that starts after its leading whitespace, is followed only by whitespace, and neither starts nor ends with whitespace |
| Ascii.StripKeepsOthers | streamlit_app.py:34 | stripping removes only whitespace: every other character keeps its count |
| Ascii.Split | streamlit_app.py:34 | `str.split(",")` gives one part more than there are commas; no part holds a comma; every character of a part comes from the text |
| Ascii.SplitJoin | streamlit_app.py:34 | joining the parts with the separator gives back the original text |
| Ascii.SplitPair | streamlit_app.py:34 | a text with one separator splits into the text before it and the text after it |
| Dashboard.CancerTypes | streamlit_app.py:33-36 | a cancer-type text gives one part per pipe or comma, plus one; each part is clean (no separator, no surrounding whitespace) |
| Dashboard.CancerTypesAreParts | streamlit_app.py:33-36 | the cancer types are the stripped comma-free parts that, joined with commas, give back the replaced, title-cased and stripped text |
| Dashboard.NormaliseRecordSpec | streamlit_app.py:33-36 | a row whose cancer type is text becomes (number of commas after the replace) + 1 rows, in order; each copy has one clean cancer type, the same columns and all other cells unchanged |
| Dashboard.NormaliseText | streamlit_app.py:33-36 | the four steps on a row with a text cancer type give one copy of the row per cancer type |
| Dashboard.NormaliseOther | streamlit_app.py:33-36 | a non-text cancer type becomes NaN under `.str` and the row stays a single row |
| Dashboard.ExplodeRecord | streamlit_app.py:35 | a row with a list of n > 0 cancer types becomes n rows and an empty list one row; a row without a list stays as it is; no list remains, and every other column is copied |
| Dashboard.Explode | streamlit_app.py:35 | `df.explode` gives at least one row per input row, and each output row comes from some input row |
| Dashboard.NormaliseRecord | streamlit_app.py:33-36 | one row becomes at least one row, with no list left in `Cancer Type` and every other column unchanged |
| Dashboard.Normalised | streamlit_app.py:33-36 | the four column-wide steps give at least one row per input row and leave no list in `Cancer Type` |
| Dashboard.ExplodeThenStrip | streamlit_app.py:35-36 | exploding a non-empty list and stripping gives one copy of the row per stripped element, in order |
| Dashboard.NormalisedRowByRow | streamlit_app.py:33-36 | the four column-wide steps equal normalising each row on its own and concatenating the results in row order |
| Dashboard.NormaliseEachOrigin | streamlit_app.py:35 | every exploded row comes from some input row |
| Dashboard.NormalisedIsClean | streamlit_app.py:33-36 | normalising rows whose required columns hold text keeps them text and makes every cancer type clean |
| Dashboard.PreparedIsClean | streamlit_app.py:30-36 | after the fill and the normalisation, every row holds text in the three required columns and a clean cancer type |
| Dashboard.Prepared | streamlit_app.py:13-36 | the table after reading, the fill and the normalisation has at least one row per record read and no list in `Cancer Type` |
| Dashboard.FilledIsText | streamlit_app.py:30 | a row as read (no list cells) holds text in all three required columns after the fill |
| Collation.Insert | streamlit_app.py:43 | inserting into a strictly ascending list keeps it strictly ascending and adds exactly the new value |
| Collation.SortedDistinct | streamlit_app.py:43 | `sorted(values.unique())` is strictly ascending and holds exactly the values present |
| Collation.SortedUnique | streamlit_app.py:43 | two strictly ascending lists with the same values are equal, so the option list is determined by the values present |
| Collation.SortedHasNoDuplicates | streamlit_app.py:43 | a strictly ascending list repeats no value |
| Collation.LessTotal | streamlit_app.py:43 | Python's string order puts any two different texts one before the other |
| Collation.LessTransitive | streamlit_app.py:43 | Python's string order is transitive |
| Dashboard.ColumnValues | streamlit_app.py:43 | a value is listed exactly when some row holds it as text in that column |
| Dashboard.Options | streamlit_app.py:43-53 | each option list is strictly ascending, without duplicates, and holds exactly the text values of its column |
| Dashboard.NarrowStep | streamlit_app.py:59-60 | a step that narrows only for a non-empty choice equals selecting by "empty choice or value chosen" |
| Dashboard.IsIn | streamlit_app.py:60 | `isin(chosen)` holds exactly when the cell is text equal to one of the chosen values |
| Dashboard.ThreeNarrowings | streamlit_app.py:57-66 | the three narrowings one after another keep exactly the rows that pass all three filters |
| Dashboard.SelectionSpec | streamlit_app.py:57-66 | the filtered rows are a subsequence of the table; a row is kept exactly when it passes every non-empty choice; no choice at all keeps the whole table |
| Dashboard.SelectedValues | streamlit_app.py:57-66 | a kept row holds, in each column with a non-empty choice, one of the chosen values |
| Seqs.WhereWhere | streamlit_app.py:57-66 | two selections in a row are one selection by both tests |
| Seqs.WhereIsSubsequence | streamlit_app.py:60 | boolean indexing keeps rows in order without altering them |
| Seqs.WhereMembership | streamlit_app.py:60 | a row is kept exactly when it is in the table and passes the test |
| Seqs.WhereIdempotent | biomarker_explorer.py:9-16 | selecting again with the same test changes nothing |
| Seqs.WhereAll | biomarker_explorer.py:9-16 | when every element passes, selection is the identity |
| Dashboard.Frame.constructor | streamlit_app.py:13-18 | the frame holds the columns and the rows the CSV reader produced; an empty field is NaN |
| Dashboard.Frame.FillMissing | streamlit_app.py:30 | the new rows are the old rows with NaN in the required columns filled with "Unknown"; the columns are unchanged |
| Dashboard.Frame.NormaliseCancerType | streamlit_app.py:33-36 | the four reassignments leave the rows normalised and exploded; the columns are unchanged |
| Dashboard.Frame.ApplyFilters | streamlit_app.py:57-66 | the filtered copy is the rows passing every non-empty choice, in order; membership is exact; no choice keeps every row |
| Dashboard.Render | streamlit_app.py:23-69 | stops exactly when a required column is missing; otherwise gives the three option lists and the filtered rows of the prepared table, and a match count equal to the number of filtered rows |
| Scenarios.HerTwoMatchesBreast | biomarker_explorer.py:7-17 | "breast" matches a record whose cancer type is "Breast\|Gastric" |
| Scenarios.LungExcludesHerTwo | biomarker_explorer.py:7-17 | "lung" matches nothing in that record, so the result is empty |
| Scenarios.EmptyCriterionIgnored | biomarker_explorer.py:7-17 | empty-string criteria return the data unchanged |
| Scenarios.ShortRecordRaises | biomarker_explorer.py:9-14 | a record without `Testing Method` raises KeyError('Testing Method') when a method criterion is set |
| Scenarios.TallyInFirstSeenOrder | biomarker_explorer.py:35-38 | categories Predictive, Diagnostic, Predictive give {Predictive: 2, Diagnostic: 1}, in that key order |
| Scenarios.ExportFillsBlanks | biomarker_explorer.py:28-31 | a second record without the first record's `Biomarker` key is written with "" in that column |
| Scenarios.ExportStopsAtExtraKey | biomarker_explorer.py:29-31 | a record with a key outside the header stops the export after the header and the earlier lines |
| Scenarios.PipeSplit | streamlit_app.py:33-36 | "lung\| breast" normalises to the two cancer types "Lung" and "Breast" |

## Left out

- Explorer.SummarizeCategories: `summarize_categories` returns None and prints the dict it builds (biomarker_explorer.py:39-41); the model returns that dict, and the printing is left out.
- Reading the CSV files: `load_biomarkers`, `pd.read_csv`, the upload widget and the read error (streamlit_app.py:9-21). Both front ends start from the records the reader produced. For the dashboard, an empty CSV field is taken to arrive as NaN (`None` in `RawRecord`).
- Where `csv.DictReader` fills the missing fields of a short line with `None`: such records do not occur here. The model's console records hold text only, and a missing column is an absent key.
- `display_biomarkers`, the printed summary lines, the export's file write and messages, and the `__main__` prompts: these are console I/O. The y/n decision of `__main__` is not modelled.
- The Streamlit page setup (streamlit_app.py:6-7), the display of the sidebar widgets (streamlit_app.py:39-54), and the summary text, `st.dataframe`, the download button and the plotly chart (streamlit_app.py:72-105): these are UI output and are not part of this model.
- `st.stop()` is modelled as the early `Failure(MissingColumns)` result of `Dashboard.Render`.
- Character handling is ASCII only. `lower`, `title`, `strip` and `isspace` ignore Unicode case mappings and Unicode whitespace.
- Pandas dtypes: every column is treated as text or NaN. A numeric column would be compared differently by `isin` and would sort differently.
- The pandas index that `explode` repeats is not modelled; only the row order is.
- CSV quoting and escaping by `csv.DictWriter` and by `to_csv` are not modelled. The export is modelled as its header and lines of field values.
- The writer's `extrasaction` and `restval` settings are the defaults: a ValueError for an extra key and "" for a missing one. No other settings are modelled.
- Explorer.Filter: its own contract only bounds the length of the result. Which records it returns is stated by `Explorer.FilterIsWhere`, `Explorer.FilterSound` and `Explorer.FilterComplete`. When it raises is stated by `Explorer.FilterSucceeds` and `Explorer.FilterFailure`. These are kept off the function because they made the proof of the loop in `Explorer.FilterBiomarkers` too costly.
- Dashboard.Options: non-text cells are left out of the option lists. `Dashboard.PreparedIsClean` shows that no such cell remains in the three required columns after preparation, In a column where NaN did sit beside text, `unique()` would list it, and `sorted()` (streamlit_app.py:43) would then raise TypeError when comparing it with a string; that case cannot arise here.

Where the code and its usual description differ, the model follows the code:
- The console variant has no column check. A missing column surfaces as a KeyError for the column of the first active criterion that reads it, in the order cancer type, category, method (`Explorer.Keep`).
- The export does not require all records to share one schema. A record with an extra key stops the export with ValueError after the earlier lines; a record missing a key gets "" in that column (`Explorer.Body`, `Scenarios.ExportStopsAtExtraKey`, `Scenarios.ExportFillsBlanks`).
- The dashboard title-cases and strips the whole cancer-type text before splitting it, and strips each part after the explode. It does not title-case each part separately. For ASCII text both give the same parts, because `title` starts a new word after every comma.
