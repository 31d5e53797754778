# ETL core: people table, acquisition aggregate, id-like columns

A Dafny model of the data transformation at the heart of a small batch ETL pipeline. The
pipeline reads three tables: constituents (`cons`), their emails (`cons_email`) and their
chapter subscriptions (`cons_email_chapter_subscription`). It turns them into a *people*
table and a daily *acquisition* count. The model covers three functions:

- `transform_cons_data` (`main.py`) keeps the chapter-1 subscriptions and the primary
  emails. It merges constituents with their primary email on `cons_id` and the result with
  the subscriptions on `cons_email_id`, both times with `validate="one_to_one"`. It then
  renames the columns, fills a missing `is_unsub` with `False`, casts it to bool, and
  selects `email, code, is_unsub, created_dt, updated_dt`.
- `aggregate_cons_data` (`main.py`) converts `created_dt` to a calendar date. It groups the
  people by that date and counts each group.
- `get_id_like_columns` (`exploratory.py`) collects the column names in which
  `re.search("id$|_id", name)` finds a match.

Data frames are positional tables (`Frames.Table`): a sequence of distinct labels and rows
whose cells line up with them. Cells are `Values.Value`: missing (`NaN`/`None`), an integer,
a string or a boolean. The pandas operations the pipeline uses become functions over these
tables, each returning a `Result`. A missing column is `MissingColumn` (pandas' `KeyError`).
A failed one-to-one validation is `NotOneToOne(side, key)` (pandas' `MergeError`). The error
stops the run, as the exception does. Whole-table steps that pandas performs "in place" on
freshly built local frames (`rename(..., inplace=True)`, column reassignment) are modelled
as new values.

Both merges keep the left table's label unsuffixed, so `updated_dt` is the constituent's `modified_dt` whenever
`cons` has that column, and the subscription's copy only when neither earlier table has one
(`Provenance.PersonCell`, `Provenance.RowOrigin`).

Module layout:

| module | file | contents |
|---|---|---|
| `Wrappers` | wrappers.dfy | `Option`, `Result` |
| `Seqs` | seqs.dfy | distinctness, `IndexOf`, the order-preserving `Filter` and its laws |
| `Values` | values.dfy | cells, `== 1`, truthiness |
| `Frames` | frames.dfy | tables, boolean-mask selection, one-to-one merge, rename, column update, projection |
| `Transform` | transform.dfy | `transform_cons_data` as a chain of those steps |
| `Provenance` | provenance.dfy | what the people table is in terms of the three inputs; which inputs make the run fail |
| `Aggregate` | aggregate.dfy | `aggregate_cons_data` |
| `Exploratory` | exploratory.dfy | `get_id_like_columns` and the regular-expression scan |

## Model

| member | source | states |
|---|---|---|
| `Frames.Where` | main.py:69-70 | `t[t[c] == 1]`: fails with `MissingColumn(c)` exactly when `c` is absent; keeps the labels; a row is kept iff it is a row of `t` whose cell in `c` equals one; the kept rows are `t`'s rows filtered in order |
| `Frames.WhereOrigin` | main.py:69-70 | every selected row is the row of `t` at an increasing position `Picked[x]`, and its cell in `c` equals one |
| `Frames.WhereReach` | main.py:69-70 | every row of `t` whose cell in `c` equals one is selected, at the position that reads it back |
| `Frames.WhereIgnoresFailing` | main.py:69-70 | appending a row whose cell in `c` is not one leaves the selection unchanged (and a missing `c` still fails the same way) |
| `Frames.Matches` | main.py:71-72 | the row pairs an inner join keeps: each pair agrees on the key, and left positions strictly increase (no left row twice, output in left order) |
| `Frames.MatchesComplete` | main.py:71-72 | when the right keys are unique, every left row and right row that agree on the key are paired |
| `Frames.Merge` | main.py:71-72 | `merge(on=key, validate="one_to_one", suffixes=("", suffix))`: `MissingColumn(key)` iff either side lacks the key; `NotOneToOne(Both)` iff both have it and the keys repeat on both sides; `NotOneToOne(Left)` iff only the left keys repeat; `NotOneToOne(Right)` iff only the right keys repeat; success iff both are unique and the merged labels are distinct; the result carries the merged labels and unique keys |
| `Frames.MergedLabels` | main.py:71-72 | the merged labels number the left's plus the right's less the key (where each right label lands: `Frames.MergedLabelAt`) |
| `Frames.Joined` | main.py:71-72 | one merged row per matched pair of `Frames.Matches` |
| `Frames.JoinedShape` | main.py:71-72 | the joined rows fit the merged labels, and the unique left keys stay unique in them |
| `Frames.JoinedWidth` | main.py:71-72 | every joined row is as wide as the left row plus the right row without its key cell |
| `Frames.JoinedUnique` | main.py:71-72 | joined rows keep their left rows' keys, so unique left keys stay unique |
| `Frames.MergeValue` | main.py:71-72 | (proof helper) a successful merge is the merged labels over the joined rows |
| `Frames.MergeLeftCell` | main.py:71-72 | every cell under a left label is the matched left row's cell, unchanged |
| `Frames.MergeRightCell` | main.py:71-72 | every right cell other than the key is the matched right row's cell, under its own label, or under label + suffix when the left side has that label |
| `Frames.MergePairs` | main.py:71-72 | a left row and a right row are paired iff they agree on the key |
| `Frames.MergedLabelFromRight` | main.py:71-72 | a merged label that the left lacks and that has no suffix is a right label other than the key |
| `Frames.SelectedMergeRow` | main.py:69-72 | each row of `l.merge(r[r[flag] == 1], on=key)` comes from a left row and a passing row of `r` that agree on the key; left labels read the left row; right-only labels read the right row |
| `Frames.SelectedMergeReach` | main.py:69-72 | conversely, each such agreeing pair makes a row of that merge |
| `Frames.SelectedRepeat` | main.py:69-72 | two passing rows with the same key make the selection non-unique on that key, whether or not anything matches them |
| `Frames.SelectedAvoid` | main.py:69-72 | a value no passing row holds under the key is held by no selected row |
| `Frames.MergeIgnoresUnmatchedLeft` | main.py:71-72 | appending a left row whose key is new and absent on the right leaves the merge's outcome unchanged, success or failure |
| `Frames.UniqueAtExtended` | main.py:71-72 | appending a row with a new key keeps the uniqueness verdict |
| `Frames.MatchesIgnoresUnmatched` | main.py:71-72 | a left row whose key no right row has is paired with nothing, and the earlier pairs stay as they were |
| `Frames.SharedCell` | main.py:71-72 | two different rows with the same key cell make the table non-unique on that key |
| `Frames.Rename` | main.py:73-78 | `rename(columns=mapping)`: fails with `DuplicateColumns` iff the new labels repeat; on success the labels are exactly the old ones looked up in `mapping`, the rows do not change, and each column keeps its position under its new label |
| `Frames.RenameCell` | main.py:73-78 | after a rename, each cell is found under its column's new label |
| `Frames.Apply` | main.py:79-80 | `t[c] = f(t[c])`: fails with `MissingColumn(c)` iff `c` is absent; every cell of `c` becomes `f` of itself; every other cell is unchanged |
| `Frames.Project` | main.py:81 | `t[names]`: succeeds iff the names are distinct and all present; it fails with `MissingColumn` iff some name is absent, naming one, and otherwise with `DuplicateColumns`; the result has exactly `names`, in order, with each row's cells under them |
| `Frames.FirstMissing` | main.py:81 | no label is reported iff every name is present; a reported label is a name the table lacks |
| `Frames.JoinedRightAt` | main.py:71-72 | in a merged row, a right cell other than the key sits after the left row, one place earlier when it came after the key |
| `Frames.RightLabelIndex` | main.py:71-72 | a right column's merged label sits right after the left columns, at its right position less the dropped key |
| `Frames.MergedLabelAt` | main.py:71-72 | the merged labels hold a right column's (possibly suffixed) label at that position |
| `Frames.FindKey` | main.py:71-72 | the lookup of a key on the right returns a row holding it, or none exists |
| `Seqs.Filter` | exploratory.py:5-10 | the kept elements are exactly the input elements that pass; the output is no longer than the input, so an empty input gives an empty output |
| `Seqs.FilterReadsPositions` | exploratory.py:6-10 | the output is the input read at strictly increasing positions: a subsequence, in the input's order |
| `Seqs.PositionsExact` | exploratory.py:7-9 | a position is read iff its element passes |
| `Seqs.FilterMultiplicity` | exploratory.py:7-9 | each occurrence is tested on its own: a passing element keeps all its copies, a failing one none |
| `Seqs.FilterAllPass` | exploratory.py:5-10 | filtering a sequence whose elements all pass returns it unchanged |
| `Seqs.FilterIdempotent` | exploratory.py:5-10 | filtering twice is filtering once |
| `Seqs.IncreasingBelow` | main.py:71-72 | strictly increasing positions below `n` number at most `n` (used to bound the people table) |
| `Values.IsOne` | main.py:69-70 | a missing or string cell never equals one; a cell equal to one is truthy |
| `Values.Truthy` | main.py:80 | Python truthiness: a missing cell (`NaN`) is true; `0`, `False` and `""` are false; a bool is itself |
| `Transform.FillFalse` | main.py:79 | `fillna(False)`: the result is never missing; a missing cell becomes `False`, any other is kept |
| `Transform.AsBool` | main.py:80 | `astype(bool)`: the result is a bool equal to the cell's truthiness; a bool is kept |
| `Transform.ChapterOne` | main.py:69 | fails with `MissingColumn("chapter_id")` iff that column is absent; otherwise keeps the labels, and a row is kept iff it is a subscription row whose `chapter_id` equals one |
| `Transform.PrimaryEmails` | main.py:70 | fails with `MissingColumn("is_primary")` iff that column is absent; otherwise keeps the labels, and a row is kept iff it is an email row whose `is_primary` equals one |
| `Transform.FirstJoin` | main.py:70-71 | a missing `is_primary` fails first; a later failure is a missing `cons_id`, `NotOneToOne` on `cons_id`, or `DuplicateColumns`; it succeeds iff both sides have `cons_id` and are unique on it and the merged labels are distinct; on success the table is well formed and unique on `cons_id` |
| `Transform.SameFirstJoin` | main.py:69-81 | two constituent tables with the same first-merge outcome give the same run outcome |
| `Transform.SameJoinedSameResult` | main.py:71-81 | the steps after the first merge see the constituents only through that merge's result |
| `Transform.FillThenCast` | main.py:79-80 | filling then casting gives `Bool(Unsubscribed(v))`: a missing flag becomes `False` and any other flag its truthiness; casting alone would turn a missing flag into `True` |
| `Transform.RenameStage` | main.py:73-78 | the two renames succeed iff the labels after each rename are distinct, and otherwise fail with `DuplicateColumns`; on success the labels are the doubly renamed ones; the rows are unchanged; every column sits at its old position under its doubly renamed label |
| `Transform.FlagStage` | main.py:79-80 | fails iff `is_unsub` is missing (with `MissingColumn("is_unsub")`); keeps labels and row count; each `is_unsub` cell becomes `Bool(Unsubscribed(...))` of itself and every other cell is unchanged |
| `Transform.Finish` | main.py:73-81 | succeeds iff both renames keep the labels distinct and the renamed labels include the five people labels; on success the labels are exactly `email, code, is_unsub, created_dt, updated_dt`, with one output row per merged row |
| `Transform.FinishCell` | main.py:73-81 | output column `q` of merged row `n` is the cell whose label the renames turn into that column's label, read as `Unsubscribed` for `is_unsub` |
| `Transform.FinishRow` | main.py:73-81 | each output row is the merged row's `email`, `source`, unsubscribe flag (as a bool, missing as `False`), `create_dt` and `modified_dt` |
| `Transform.RenamesReach` | main.py:73-78 | (proof helper) `email`, `source`, `isunsub`, `create_dt`, `modified_dt` become the five people labels, in order |
| `Transform.TransformConsData` | main.py:54-82 | a missing `chapter_id` fails first, then a missing `is_primary`; on success the result is a well-formed table with exactly the people columns, in order |
| `Transform.MergeAndFinish` | main.py:71-81 | the two merges and the finishing steps yield the people columns on success |
| `Transform.Stages` | main.py:69-82 | (proof helper) a successful run passes through a selection of each input, the first merge and the second merge, and its result is `Finish` of the latter |
| `Provenance.IsunsubNotSuffixed` | main.py:71-75 | `isunsub` is never a label the first merge created, so the flag can only come from the subscriptions when the other inputs lack it |
| `Provenance.RowOrigin` | main.py:69-81 | every people row is `Person` of a constituent row, a primary email row and a chapter-1 subscription row that agree on both keys, at the positions the merges paired |
| `Provenance.PersonCells` | main.py:71-78 | the five labels the people table reads hold the cells `PersonCell` names: the constituent's, else the email's, else the subscription's |
| `Provenance.TransformSound` | main.py:69-72 | soundness: every people row is traced to rows that pass both filters and agree on both keys, so rows failing a filter never contribute; people rows come in constituent order |
| `Provenance.TransformComplete` | main.py:69-72 | completeness: every such agreeing triple of passing rows makes a people row |
| `Provenance.ConsIdOnce` | main.py:71-72 | no `cons_id` appears twice: distinct people rows come from constituents with distinct ids |
| `Provenance.ConsIdsApart` | main.py:71 | in a table unique on `cons_id`, distinct rows hold distinct ids |
| `Provenance.PeopleAtMostCons` | main.py:71-72 | the people table has no more rows than `cons` |
| `Provenance.KeyCellOfJoined` | main.py:71-72 | the first merge's row holds the `cons_email_id` that the second merge joins on |
| `Provenance.NonPrimaryEmailIgnored` | main.py:70 | appending an email row that is not primary leaves the run's outcome unchanged |
| `Provenance.OtherChapterIgnored` | main.py:69 | appending a subscription row for another chapter leaves the outcome unchanged |
| `Provenance.UnmatchedConstituentIgnored` | main.py:71 | appending a constituent whose `cons_id` is new and carried by no primary email leaves the outcome unchanged: it is dropped, not an error |
| `Provenance.FirstJoinIgnoresUnmatched` | main.py:70-71 | such a constituent leaves the first merge unchanged |
| `Provenance.RepeatedConsId` | main.py:71 | two constituents with the same `cons_id` fail the run, whether or not they have emails: `NotOneToOne(Left, "cons_id")`, or `NotOneToOne(Both, "cons_id")` when the primary emails also repeat a `cons_id` |
| `Provenance.RepeatedPrimary` | main.py:70-71 | with unique constituent ids, two primary emails with the same `cons_id` fail the run with `NotOneToOne(Right, "cons_id")`, matched or not |
| `Provenance.SharedEmailId` | main.py:71-72 | two first-merge rows from different constituents with the same `cons_email_id` fail the run: `NotOneToOne(Left, "cons_email_id")`, or `NotOneToOne(Both, "cons_email_id")` when the chapter-1 subscriptions also repeat a `cons_email_id` |
| `Provenance.RepeatedSubscription` | main.py:69-72 | when the first merge is unique on `cons_email_id`, two chapter-1 subscriptions sharing one fail the run with `NotOneToOne(Right, "cons_email_id")` |
| `Provenance.SuccessConditions` | main.py:69-81 | with the columns the pipeline reads, the run succeeds iff both sides of both merges are unique on their keys, the second key survives the first merge, neither merge creates a repeated label, and the renames keep the labels distinct and produce all five people labels |
| `Provenance.SuccessIsOneToOne` | main.py:69-72 | conversely, a successful run had no repeated key on either side of either merge |
| `Provenance.Compose` | main.py:71-72 | (proof helper) the input positions behind the rows of two chained merges, with increasing constituent positions |
| `Aggregate.DayOf` | main.py:96 | an empty `created_dt` converts to no date (`NaT`) |
| `Aggregate.Days` | main.py:96 | (proof helper) one converted stamp per cell, in order |
| `Aggregate.FirstUnparseable` | main.py:96 | none iff no cell is rejected; otherwise the position of the first rejected cell |
| `Aggregate.AggregateConsData` | main.py:95-100 | `MissingColumn("created_dt")` when the column is absent; otherwise fails iff some cell is rejected, reporting the first one; on success it groups the converted dates |
| `Aggregate.SimplifiedColumn` | main.py:95 | (proof helper) selecting `[["created_dt"]]` keeps the column's cells |
| `Aggregate.Bump` | main.py:96 | one more member of group `d`: at most one group is added, and `d` then has a positive count |
| `Aggregate.Tally` | main.py:96 | `groupby(...).count()`: there are no more groups than cells with a date |
| `Aggregate.BumpAbove` | main.py:96 | adding a member past a lower bound keeps every group's date above it |
| `Aggregate.BumpAscending` | main.py:96 | adding a member keeps the group dates strictly ascending |
| `Aggregate.LookupBelow` | main.py:96 | a date before every group has count zero |
| `Aggregate.BumpLookup` | main.py:96 | adding a member on `d` raises the count of `d` by one and no other |
| `Aggregate.BumpTotal` | main.py:96 | adding a member raises the total by one, keeps counts positive and adds at most one group |
| `Aggregate.TallyShape` | main.py:96-99 | the groups are strictly ascending by date, none empty, their counts sum to the dated cells, and there are no more groups than dated cells |
| `Aggregate.TallyCounts` | main.py:96-99 | each date's count is the number of cells that fall on it |
| `Aggregate.LookupAt` | main.py:96-99 | in ascending groups, each row's count is the count for its date |
| `Aggregate.LookupFound` | main.py:96-99 | a date with a positive count has a row |
| `Aggregate.AggregateSound` | main.py:95-100 | the aggregate has one row per date some `created_dt` falls on, strictly ascending; each count is the number of people created that day, so none is zero; counts sum to the people with a date, at most the people, and bound the number of rows |
| `Aggregate.PeopleAggregate` | main.py:81-96 | the people table always has `created_dt`, so aggregating it can fail only on a rejected date |
| `Exploratory.MatchAt` | exploratory.py:8 | a match at a position is either `id` ending the name or `_id` |
| `Exploratory.SearchFrom` | exploratory.py:8 | the scan returns the leftmost start where the pattern matches, with that match's end |
| `Exploratory.Search` | exploratory.py:8 | a match covers exactly `id` or `_id`, an `id` match ends the name, and no earlier position matches |
| `Exploratory.SearchFromComplete` | exploratory.py:8 | a match anywhere from the start position on is found |
| `Exploratory.SearchIdLike` | exploratory.py:8 | the search finds a match iff the name ends in `id` or contains `_id` |
| `Exploratory.GetIdLikeColumns` | exploratory.py:5-10 | the loop returns exactly the input's id-like names, filtered in order with each occurrence tested on its own |

## Left out

- `data_downloader` and `extract_cons_data` (main.py:14-51) are not modelled: they are network reads through pandas and `requests`. The three input tables are parameters.
- `load_cons_data` (main.py:103-119) is not modelled: it writes CSV files through pandas, and the quoting is inside the library.
- The `__main__` wiring (main.py:122-126) calls the stages in sequence. `Aggregate.PeopleAggregate` states the one fact it relies on: the people table has the column the aggregate reads.
- `explore_unique_keys` (exploratory.py:13-36) only prints statistics, so it has nothing to state.
- The date conversion `pd.to_datetime(...).dt.date` is a parameter (`parse`) of the model. Only "an empty cell is `NaT`" is fixed. Which strings parse, and to what, is left to that parameter. pandas 2 infers one format from the first non-missing cell and applies it to the whole column, so whether a cell parses can depend on the other cells; a per-cell parameter does not express that dependence.
- pandas dtype coercion is not modelled: integer columns promoted to float by `NaN`, and `== 1` on strings. A cell equals one when it is the integer 1 or `True`, which is how Python compares them.
- Frames.Merge: frames with repeated column labels are not represented, so a merge whose right-hand label, suffixed because the left has it, equals another left label stops with `DuplicateColumns`. pandas keeps both columns and goes on; it raises `MergeError` only when the suffixes make labels repeat within one side. In the pipeline this happens when constituents carry `x` and `x_email` and the emails carry `x` (or likewise `_sub` against the subscriptions). Two further pandas merge behaviours are not modelled: when the left frame has no rows, pandas keeps the right side's key column at the right side's position, where the model always puts the left's first (only the label order differs; the people projection is unaffected); and pandas raises `ValueError` when the key is numeric on one side and a string on the other, where the model merges and finds no match.
- Frames.Rename: for the same reason a rename onto a label already present stops with `DuplicateColumns`, where pandas keeps both columns. In the pipeline this happens when constituents carry both `source` and `code`, or an input already has `created_dt_orig`, `created_dt`, `is_unsub` or `updated_dt` beside the label renamed onto it. Where pandas goes on, its people table can have more than five columns; the model's run fails instead.
- Frames.Project: a projection naming a label twice also stops with `DuplicateColumns`; the pipeline's projections name distinct labels.
- Missing cells compare equal to each other, in merges and uniqueness checks. This matches pandas' treatment of `NaN` keys in `merge` and `is_unique`.
- The regular-expression `$` also matches just before a final newline. The model treats `id$` as "the name ends in `id`".
- The aggregate is a sequence of `Acquisition(date, count)` records. The renames and `reset_index` (main.py:97-99), which only give these two fields their column labels, are not modelled as table operations.
- The `Provenance` lemmas assume the inputs carry the columns the pipeline reads (`Provenance.Schema`). A missing column is covered by the `MissingColumn` cases of `Frames.Where`, `Frames.Merge`, `Frames.Apply` and `Frames.Project`.
- A primary email with no chapter-1 subscription has no "appending it changes nothing" lemma, unlike the other unmatched rows. Its first-merge row would land in the middle of that table. That it is no error follows from `Frames.Merge`, whose failures are exactly the missing keys, repeated keys and label clashes. That it adds no people row follows from `Provenance.TransformSound`.
