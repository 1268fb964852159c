# clean_data, modelled in Dafny

The data-cleaning script reads a CSV file into a pandas DataFrame. It cleans
the frame with `clean_data`, writes it back out and writes a summary report.
This project models `clean_data` (data_cleaner.py:21-35). That function has
three steps:

1. `df.drop_duplicates()` removes every row that equals an earlier row. The
   first occurrence is kept and the order is preserved.
2. In every numeric column, missing cells are filled with the mean of that
   column. The mean is taken from the deduplicated frame, at the moment the
   column is filled.
3. In every text (`object`) column, missing cells are filled with `"Unknown"`.

The model has three modules:

- `Frames` (frames.dfy) is the slice of pandas that the script uses:
  - cells: `Missing | Num(real) | Str(string)`;
  - columns with a dtype family `Numeric | Text | Other`;
  - rectangular frames;
  - `df[col]` and `df[col] = s`;
  - `Series.fillna`;
  - `Series.mean()` with `skipna=True`, together with its arithmetic facts.
- `Deduplication` (deduplication.dfy) models `drop_duplicates()` with
  `keep="first"` as a pure first-occurrence filter on sequences. Lemmas
  characterise it completely: it keeps the same elements, leaves no
  duplicates, keeps first-occurrence order, and is the only sequence with
  those three properties.
- `DataCleaner` (data_cleaner.dfy) models the function itself:
  - `CleanData` is the script's procedure: deduplicate, then the numeric loop,
    then the text loop. `FillPass` is one such loop; each step writes a filled
    column back into the frame.
  - `Clean` states cell by cell what the resulting frame is. `CleanData` is
    proved to return exactly `Clean(f)`.
  - The lemmas state what that result guarantees.

Two modelling decisions:

- When a numeric column holds no number at all, `Series.mean()` returns NaN.
  NaN is itself a missing value, so `fillna(NaN)` leaves the column as it was.
  In the model, `Mean` returns `None` and the fill value is `Missing`. This
  case is stated explicitly by `CleanNumericColumn`.
- A reader of the script might expect three things that its code does not
  do. In each case the model follows the code:
  - One might expect the mean to be taken over the frame as loaded. It is
    taken over the deduplicated frame.
  - One might expect no missing cell to survive cleaning. Missing cells
    survive in two cases: columns that are neither numeric nor text, and
    numeric columns with no number (see `Settled`).
  - The comment "Remove duplicates" (data_cleaner.py:24) suggests the result
    has no duplicate rows. Rows that become equal through filling are not
    removed (see Findings).
- pandas' `drop_duplicates()` returns a frame with no columns unchanged, so
  such a frame keeps all of its empty rows. `Deduped` models this case
  explicitly.

## Model

| member | source | states |
|---|---|---|
| `DataCleaner.CleanData` | data_cleaner.py:21-35 | deduplicating, then running the numeric pass and the text pass, yields exactly the frame `Clean` describes |
| `DataCleaner.FillPass` | data_cleaner.py:28-33 | a loop over the columns of one dtype that replaces each column by its filled copy ends with every column of that dtype filled. The fill value is computed from the column when it is reached, and it equals the value computed from the deduplicated frame up front |
| `DataCleaner.PassFills` | data_cleaner.py:28-29 | writing the filled copy of the current column of the pass's dtype finishes that column: the fill value computed from the column as it stands is the one computed from the deduplicated frame |
| `DataCleaner.PassSkips` | data_cleaner.py:28 | a column of another dtype is skipped and nothing changes |
| `DataCleaner.CleanShape` | data_cleaner.py:25-35 | the column list (names, dtypes, order) is unchanged; the row count never grows; it stays equal exactly when the frame has no columns or the input has no duplicate rows; a frame without columns comes back unchanged |
| `DataCleaner.CleanRows` | data_cleaner.py:25 | every input row appears in the output once its missing cells are filled; output row k is the filled first occurrence of the k-th kept row; when the frame has columns, the kept rows come in first-occurrence order |
| `DataCleaner.CleanNumericColumn` | data_cleaner.py:28-29 | in a numeric column that holds a number, each missing cell becomes the mean of the deduplicated column, other cells stay, and no missing cell is left. In one without numbers, the column is unchanged; it is all missing when the frame is well typed |
| `DataCleaner.CleanTextColumn` | data_cleaner.py:32-33 | in a text column, each missing cell becomes exactly "Unknown", other cells stay, and no missing cell is left |
| `DataCleaner.CleanOtherColumn` | data_cleaner.py:28-33 | a column that is neither numeric nor text comes out exactly as deduplication left it |
| `DataCleaner.CleanOnlyFillsMissing` | data_cleaner.py:28-33 | a cell that differs between the deduplicated and the cleaned frame was missing |
| `DataCleaner.CleanSettled` | data_cleaner.py:28-33 | after cleaning, a missing cell is left only in a column that is neither numeric nor text, or in a numeric column holding no number |
| `DataCleaner.ImputeSettled` | data_cleaner.py:28-33 | filling a frame that has nothing left to fill changes nothing |
| `DataCleaner.CleanIdempotence` | data_cleaner.py:25-35 | cleaning the cleaned frame again returns it unchanged exactly when it has no duplicate rows (or no columns) |
| `DataCleaner.CleanNoColumns` | data_cleaner.py:25 | a frame with two rows and no columns keeps both rows |
| `DataCleaner.MeanExample` | data_cleaner.py:29 | the mean of a column holding 2, 4, a missing cell and 6 is 4 |
| `DataCleaner.MeanFillExample` | data_cleaner.py:29 | filling that column with its mean turns the missing cell into 4 and leaves the rest |
| `DataCleaner.SurveyDeduped` | data_cleaner.py:25 | rows (1,"x"), (1,"x"), (missing,"y"), (3,missing) deduplicate to the first, third and fourth row |
| `DataCleaner.SurveyFills` | data_cleaner.py:28-33 | in that frame, numeric column A is filled with 2 (the mean of 1 and 3) and text column B with "Unknown" |
| `DataCleaner.CleanSurvey` | data_cleaner.py:21-35 | that frame cleans to (1,"x"), (2,"y"), (3,"Unknown") |
| `DataCleaner.CleanTwoCities` | data_cleaner.py:25-33 | a text column with a missing cell and an "Unknown" cell has no duplicates, yet cleans to two equal rows |
| `DataCleaner.CleanCanLeaveDuplicates` | data_cleaner.py:25-33 | as written, cleaning can output duplicate rows, and cleaning that output again changes it |
| `DataCleaner.CleanDistinct` | data_cleaner.py:25-35 | cleaning followed by a second deduplication keeps the columns, never adds rows, and leaves no duplicate rows when the frame has columns. Every filled input row is still present, and nothing fillable is left missing |
| `DataCleaner.CleanDataDistinct` | data_cleaner.py:21-35 | the procedure followed by a second `drop_duplicates()` returns `CleanDistinct` |
| `DataCleaner.CleanDistinctIdempotent` | data_cleaner.py:25-35 | the corrected cleaning is idempotent |
| `DataCleaner.CleanDistinctAgrees` | data_cleaner.py:25-35 | the correction leaves the script's result unchanged exactly when that result has no duplicate rows (or no columns) |
| `Deduplication.DropDuplicates` | data_cleaner.py:25 | the result is no longer than the input, holds exactly the input's elements, and has no duplicates |
| `Deduplication.FirstIndex` | data_cleaner.py:25 | gives the position of the first occurrence: it holds the element, and no earlier position does |
| `Deduplication.DropDuplicatesInOrder` | data_cleaner.py:25 | the kept elements appear in the order of their first occurrences |
| `Deduplication.DropDuplicatesLength` | data_cleaner.py:25 | the result is as long as the input exactly when the input has no duplicates |
| `Deduplication.DropDuplicatesUnique` | data_cleaner.py:25 | any duplicate-free sequence with the input's elements in first-occurrence order is the result |
| `Deduplication.DropDuplicatesOfDistinct` | data_cleaner.py:25 | a sequence without duplicates is returned unchanged |
| `Deduplication.DropDuplicatesIdempotent` | data_cleaner.py:25 | deduplicating twice equals deduplicating once |
| `Deduplication.DropDuplicatesSnoc` | data_cleaner.py:25 | an appended element is kept exactly when it has not occurred before |
| `Deduplication.DropDuplicatesSkipsRepeat` | data_cleaner.py:25 | a later copy of an element that has already occurred does not affect the result |
| `Frames.ColumnOf` | data_cleaner.py:29 | `df[col]` has one cell per row, the row's cell in that column |
| `Frames.SetColumn` | data_cleaner.py:29 | `df[col] = s` puts `s` into that column; every other cell and the shape stay |
| `Frames.Fillna` | data_cleaner.py:29 | `fillna(v)` keeps the length, turns each missing cell into `v` and keeps every other cell |
| `Frames.Mean` | data_cleaner.py:29 | the mean is undefined exactly when the column holds no number; otherwise it added once per number gives their sum |
| `Frames.MeanWithin` | data_cleaner.py:29 | the mean lies between any lower and upper bound of the column's numbers |
| `Frames.MeanFromSum` | data_cleaner.py:29 | a value that, added once per number, gives the sum is the mean |
| `Frames.FillnaCount` | data_cleaner.py:29 | filling with a number adds one number per missing cell |
| `Frames.FillnaSum` | data_cleaner.py:29 | filling with `x` adds `x` to the sum once per missing cell |
| `Frames.MeanOfFilled` | data_cleaner.py:28-29 | filling a column with its own mean leaves its mean unchanged. So it does not matter that the mean is computed before the fill |

## Left out

- `load_csv` (data_cleaner.py:13-19) is left out. It is a file-existence check plus `pd.read_csv`, which is file I/O. The dtype that pandas infers for each column is an input of the model (`Column.kind`).
- `save_cleaned_data` (data_cleaner.py:37-39) is left out: it is a CSV write.
- `generate_report` (data_cleaner.py:41-52) is left out. It writes a file and computes `describe()` statistics in floating point. Note that its missing-value counts are taken after cleaning.
- `main` (data_cleaner.py:54-63) is left out: its timestamped file name reads the clock, and the function only chains the other steps.
- Logging (data_cleaner.py:7-11, 15, 18, 22 and the other `logging` calls) is left out: it is an append-only side channel that does not affect the frame.
- The DataFrame index is left out. `drop_duplicates()` keeps the original index labels, and the script never reads them back (the CSV is written with `index=False`).
- Values are exact reals. IEEE double rounding, infinities and NaN as a number are not modelled; NaN is modelled as `Missing`.
- `Frames.Mean`: the mean is exact, not the rounded double that pandas returns. It averages the `Num` cells of a column; a text cell in a numeric column, which pandas' dtypes rule out, is skipped rather than rejected (`Frame.WellTyped` states the dtype rule).
- `Frames.ColumnOf`: columns are addressed by position, not by label. pandas' `df[col]` selects every column with that name, so a frame with two columns of the same name is not modelled; `Column.name` is carried but never read.
- `DataCleaner.CleanData`: frames are immutable values here. The in-place update of `df[col]` and any aliasing between the caller's frame and the result are not modelled.

## Findings

| source | as written | input that shows it | evidently intended | confidence | as-written member | corrected member |
|---|---|---|---|---|---|---|
| data_cleaner.py:25-33 | duplicates are dropped before the missing cells are filled, so filling can make two distinct rows equal, and they stay in the output | a text column `city` with rows (missing) and ("Unknown"): cleaning gives ("Unknown"), ("Unknown"); cleaning again gives one row | the comment "Remove duplicates" (line 24): the cleaned frame has no duplicate rows, so cleaning is idempotent | medium; not executed | `DataCleaner.CleanCanLeaveDuplicates` | `DataCleaner.CleanDistinctIdempotent` |
