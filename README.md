# Data-processing nodes of the credit-card default pipeline, in Dafny

This project models the table-cleaning nodes of
`src/credit_card_payment_default_prediction/pipelines/data_processing/nodes.py`:

- the dtype normaliser, which relabels the integer codes of `SEX`, `EDUCATION` and
  `MARRIAGE` and restricts each column to a closed category list;
- the field parsers `_is_true`, `_parse_percentage` and `_parse_money`;
- the companies and shuttles preprocessors, which overwrite columns of the caller's
  frame in place;
- `create_model_input_table`, which is an inner join of shuttles with reviews, then with
  companies, and then drops the incomplete rows.

A table is a list of column names plus a list of rows, each row a map from column name
to cell. A cell is `Missing` (a null / NaN), an integer, a float (an exact `real`), a
text or a boolean. The frame that the preprocessors mutate is the class
`Tables.DataFrame`. Its `Get` is `frame[name]`, where an absent column becomes a
`MissingColumn` error. Its `Set` is `frame[name] = series`. The parsers and the join are
pure functions over values.

The model fixes the table library's semantics that the nodes rely on:

- `Series.replace(dict)` substitutes a cell equal to a key. Python equality is used, so
  `1` and `1.0` both match the key `1`. Any other cell is left alone.
- `pd.Categorical(..., categories=...)` turns every value outside the category list into
  a missing cell.
- `.str.replace(ch, "")` removes every occurrence of the literal character. A cell that
  is not a text becomes missing.
- `.astype(float)` reads a text as a decimal numeral, and a text that is not one raises
  a format error. A missing cell stays missing.
- `merge(left_on, right_on)` is an inner join that lists, for each left row in order,
  its matching right rows in order. `dropna()` drops every row with a missing cell.

Two consequences of the code are worth stating:

- A `SEX` code other than 1 or 2 becomes a missing cell, because `Categorical` keeps
  only `['Male', 'Female']` (nodes.py:39).
- `_parse_percentage` removes every `%` in the text, not only a trailing one
  (nodes.py:52).

## Model

| member | source | states |
|---|---|---|
| Dtypes.PreprocessDtypes | src/credit_card_payment_default_prediction/pipelines/data_processing/nodes.py:39-44 | On success the frame is overwritten in place with `Dtypes` of its old value and the same frame is returned. It fails with `MissingColumn` exactly when one of the three columns is absent. In that case the columns relabelled before the failing lookup stay overwritten. |
| Dtypes.Dtypes | src/credit_card_payment_default_prediction/pipelines/data_processing/nodes.py:39-43 | The columns and the row count are kept. Every column other than `SEX`, `EDUCATION` and `MARRIAGE` is unchanged. Each of those three columns is relabelled cell by cell with its own code table and category list. |
| Dtypes.Lookup | src/credit_card_payment_default_prediction/pipelines/data_processing/nodes.py:39-43 | Looking a cell up in a code table finds a label exactly when the table has a key equal to the cell, and the label found belongs to such a key. |
| Dtypes.ReplaceCell | src/credit_card_payment_default_prediction/pipelines/data_processing/nodes.py:39-43 | `Series.replace(dict)` on one cell. A cell equal to some code becomes the label of such a code. A cell equal to no code is left as it is. |
| Dtypes.CategoricalCell | src/credit_card_payment_default_prediction/pipelines/data_processing/nodes.py:39-43 | `Categorical(..., categories)` on one cell. The result is always a category or missing. |
| Dtypes.RelabelCell | src/credit_card_payment_default_prediction/pipelines/data_processing/nodes.py:39-43 | Replacement followed by the categorical restriction. The result is a category or missing, and a non-missing result is the cell itself or the label of a code the cell equals. |
| Dtypes.RelabelColumn | src/credit_card_payment_default_prediction/pipelines/data_processing/nodes.py:39-43 | `data[col] = Categorical(data[col].replace(m), categories)` on a table value. The columns, the row count and every other cell are kept, and each cell of the column is relabelled. |
| Dtypes.Relabel | src/credit_card_payment_default_prediction/pipelines/data_processing/nodes.py:39-43 | Relabelling a series keeps its length. It relabels every cell independently, and every resulting cell is a category or missing. |
| Dtypes.RelabelCellMeaning | src/credit_card_payment_default_prediction/pipelines/data_processing/nodes.py:39-43 | A code listed in the table becomes its own label. A text that is already a category stays as it is. Every other cell becomes missing. |
| Dtypes.RelabelCellIdempotent | src/credit_card_payment_default_prediction/pipelines/data_processing/nodes.py:39-43 | Relabelling an already relabelled cell leaves it unchanged, because labels are texts and so never equal a code. |
| Dtypes.RelabelColumnFixed | src/credit_card_payment_default_prediction/pipelines/data_processing/nodes.py:39-43 | A column that holds only categories or missing cells is left exactly as it is by relabelling. |
| Dtypes.SexTableWellFormed | src/credit_card_payment_default_prediction/pipelines/data_processing/nodes.py:39 | The SEX dictionary has distinct codes and distinct labels, and its labels are the category list. |
| Dtypes.EducationTableWellFormed | src/credit_card_payment_default_prediction/pipelines/data_processing/nodes.py:40-41 | The EDUCATION dictionary has distinct codes and distinct labels, so Unknown-5 and Unknown-6 stay apart. |
| Dtypes.MarriageTableWellFormed | src/credit_card_payment_default_prediction/pipelines/data_processing/nodes.py:42-43 | The MARRIAGE dictionary has distinct codes and distinct labels. |
| Dtypes.EveryCodeRelabelled | src/credit_card_payment_default_prediction/pipelines/data_processing/nodes.py:39-43 | For a dictionary with distinct codes whose labels are categories, every listed code becomes its own label. |
| Dtypes.SexCodes | src/credit_card_payment_default_prediction/pipelines/data_processing/nodes.py:39 | 1 becomes "Male" and 2 becomes "Female". A cell equal to neither, and not already a label, becomes missing. |
| Dtypes.EducationCodes | src/credit_card_payment_default_prediction/pipelines/data_processing/nodes.py:40-41 | Codes 1..6 and 0 become GraduateSchool, University, HighSchool, Others, Unknown-5, Unknown-6 and MISSING. |
| Dtypes.MarriageCodes | src/credit_card_payment_default_prediction/pipelines/data_processing/nodes.py:42-43 | Codes 1, 2, 3 and 0 become Married, Single, Divorced and MISSING. |
| Dtypes.DtypesClosed | src/credit_card_payment_default_prediction/pipelines/data_processing/nodes.py:39-43 | After normalising, every cell of the three columns is one of that column's labels or missing. |
| Dtypes.DtypesIdempotent | src/credit_card_payment_default_prediction/pipelines/data_processing/nodes.py:39-43 | Normalising a normalised table gives the same table. |
| Tables.ColumnOf | src/credit_card_payment_default_prediction/pipelines/data_processing/nodes.py:39-43 | `frame[name]` on a table value: one cell per row, in row order, each the row's cell in that column. |
| Tables.DataFrame.Get | src/credit_card_payment_default_prediction/pipelines/data_processing/nodes.py:72 | `frame[name]` gives the column, one cell per row in row order. It fails with `MissingColumn(name)` exactly when the column is absent. |
| Tables.DataFrame.Set | src/credit_card_payment_default_prediction/pipelines/data_processing/nodes.py:72 | `frame[name] = series` leaves the frame well formed. The column is overwritten where it stands, or appended when absent, and every other cell is unchanged. |
| Tables.WithColumn | src/credit_card_payment_default_prediction/pipelines/data_processing/nodes.py:72-73 | The value-level column assignment: it gives the new cells of the column, keeps the rows and every other cell, and keeps the table well formed. |
| Parsers.IsTrue | src/credit_card_payment_default_prediction/pipelines/data_processing/nodes.py:47-48 | Gives one boolean per cell. The boolean is true exactly when the cell is the text "t". |
| Parsers.IsTrueOnlyForT | src/credit_card_payment_default_prediction/pipelines/data_processing/nodes.py:47-48 | Any other text, including "f", "" and "T", and any non-text cell gives false. |
| Parsers.StripChars | src/credit_card_payment_default_prediction/pipelines/data_processing/nodes.py:52-58 | `.str.replace(ch, "")` on a text. No character of the result is among the removed ones. |
| Parsers.StrReplaceCell | src/credit_card_payment_default_prediction/pipelines/data_processing/nodes.py:52-58 | A text cell becomes the stripped text, and any other cell becomes missing. |
| Parsers.StripCharsRemovesOnly | src/credit_card_payment_default_prediction/pipelines/data_processing/nodes.py:52 | Stripping removes only the named characters. Every other character keeps its count and order, and the length drops by exactly the number of characters removed. |
| Parsers.StripCharsIdempotent | src/credit_card_payment_default_prediction/pipelines/data_processing/nodes.py:52 | Stripping the same characters twice gives the same text as stripping once. |
| Parsers.StripCharsCompose | src/credit_card_payment_default_prediction/pipelines/data_processing/nodes.py:58 | Removing `$` and then `,` is the same as removing both characters at once. |
| Parsers.AsFloat | src/credit_card_payment_default_prediction/pipelines/data_processing/nodes.py:53 | A text casts to a number exactly when it is a numeral, and the result is that numeral's value. Otherwise the cast fails with a format error carrying the text. |
| Parsers.AsFloatCell | src/credit_card_payment_default_prediction/pipelines/data_processing/nodes.py:53-59 | `.astype(float)` on one cell. It fails exactly on a text that is not a numeral, with that text in the error. Missing stays missing and nothing else becomes missing. A number keeps its value, and a text becomes its numeral's value. |
| Parsers.FormatParse | src/credit_card_payment_default_prediction/pipelines/data_processing/nodes.py:53 | Whatever reads as a numeral is that numeral's own text. |
| Parsers.ParseFormat | src/credit_card_payment_default_prediction/pipelines/data_processing/nodes.py:53 | Every numeral reads back as itself, so printing and then parsing is the identity. |
| Parsers.ParseDecimalExactly | src/credit_card_payment_default_prediction/pipelines/data_processing/nodes.py:53 | A text is accepted exactly when it is the text of a valid numeral. |
| Parsers.PercentageCell | src/credit_card_payment_default_prediction/pipelines/data_processing/nodes.py:51-54 | A text cell loses its `%` signs and becomes its value divided by 100, or fails with a format error on the stripped text. A non-text cell becomes missing. |
| Parsers.MoneyCell | src/credit_card_payment_default_prediction/pipelines/data_processing/nodes.py:57-60 | A text cell loses its `$` signs and then its commas and becomes its value, or fails with a format error on the stripped text. A non-text cell becomes missing. |
| Parsers.Vectorise | src/credit_card_payment_default_prediction/pipelines/data_processing/nodes.py:53 | A per-cell operation applied down a series succeeds exactly when it succeeds on every cell, giving the per-cell results in order. Otherwise it fails with the error of the first failing cell. |
| Parsers.ParsePercentage | src/credit_card_payment_default_prediction/pipelines/data_processing/nodes.py:51-54 | The whole series succeeds exactly when every stripped text is a numeral. Each cell is then its value divided by 100, or missing for a non-text cell. On failure, the error carries the stripped text of the first text cell that is not a numeral. |
| Parsers.ParseMoney | src/credit_card_payment_default_prediction/pipelines/data_processing/nodes.py:57-60 | The same as `ParsePercentage`, with `$` and `,` removed and no division. |
| Parsers.PercentageOfNumeral | src/credit_card_payment_default_prediction/pipelines/data_processing/nodes.py:51-54 | Any numeral followed by `%` reads as its value divided by 100. |
| Parsers.PercentageExample85 | src/credit_card_payment_default_prediction/pipelines/data_processing/nodes.py:51-54 | "85%" reads as 0.85. |
| Parsers.PercentageExample100 | src/credit_card_payment_default_prediction/pipelines/data_processing/nodes.py:51-54 | "100%" reads as 1.0. |
| Parsers.MoneyExample | src/credit_card_payment_default_prediction/pipelines/data_processing/nodes.py:57-60 | "$1,200.50" reads as 1200.50. |
| Preprocess.FlagColumn | src/credit_card_payment_default_prediction/pipelines/data_processing/nodes.py:72 | The named column becomes true exactly where it held "t". Every other cell is unchanged and the shape is kept. |
| Preprocess.PreprocessCompanies | src/credit_card_payment_default_prediction/pipelines/data_processing/nodes.py:72-74 | Overwrites only `iata_approved` (flag) and `company_rating` (percentage) in place and keeps the columns and the row count. Returns the same frame with `Metadata(columns in order, "companies")`. A missing column or an unreadable rating fails, with the partial state left behind. |
| Preprocess.PreprocessShuttles | src/credit_card_payment_default_prediction/pipelines/data_processing/nodes.py:86-89 | Overwrites only `d_check_complete` and `moon_clearance_complete` (flags) and `price` (money) in place. Returns the same frame and no metadata. Failures behave as above. |
| ModelInput.MatchesOf | src/credit_card_payment_default_prediction/pipelines/data_processing/nodes.py:105-109 | The matches of one left row. There are never more of them than there are right rows; MatchesOfAppend and MatchesOfSingle fix them as one joined row per matching right row, in right order. |
| ModelInput.MatchesOfAppend | src/credit_card_payment_default_prediction/pipelines/data_processing/nodes.py:105-109 | Matching one left row against two runs of right rows gives the matches of the first run followed by those of the second. |
| ModelInput.MatchesOfSingle | src/credit_card_payment_default_prediction/pipelines/data_processing/nodes.py:105-109 | One right row gives exactly one joined row when its key equals the left key, and none otherwise. |
| ModelInput.Merge | src/credit_card_payment_default_prediction/pipelines/data_processing/nodes.py:105-109 | `merge` on rows: for each left row in order, its matches in order. There are never more rows than the product of the inputs' row counts; MergeAppend and MergeSingle fix the rows one matching pair at a time. |
| ModelInput.MergeAppend | src/credit_card_payment_default_prediction/pipelines/data_processing/nodes.py:105-109 | Merging two runs of left rows gives the join of the first run followed by the join of the second, so the left order is kept and no pair is merged or dropped. |
| ModelInput.MergeSingle | src/credit_card_payment_default_prediction/pipelines/data_processing/nodes.py:105-109 | A single left row contributes exactly its own matches. |
| ModelInput.MergeKeepsDuplicates | src/credit_card_payment_default_prediction/pipelines/data_processing/nodes.py:105 | A left row meeting two equal right rows with its key yields two equal joined rows: the join does not collapse duplicate pairs. |
| ModelInput.MergeMembership | src/credit_card_payment_default_prediction/pipelines/data_processing/nodes.py:105 | A row is in the inner join exactly when it is some left row joined to some right row with an equal key. |
| ModelInput.MatchesOfMembership | src/credit_card_payment_default_prediction/pipelines/data_processing/nodes.py:105 | The matches of one left row are exactly that row joined to each right row with an equal key. |
| ModelInput.MergeTables | src/credit_card_payment_default_prediction/pipelines/data_processing/nodes.py:105 | Fails with `MissingColumn` exactly when a key column is absent. Otherwise the result is well formed, has the columns of both sides and holds the joined rows. |
| ModelInput.MergeKeys | src/credit_card_payment_default_prediction/pipelines/data_processing/nodes.py:105 | Every joined row has exactly the columns of both sides. |
| ModelInput.DropColumn | src/credit_card_payment_default_prediction/pipelines/data_processing/nodes.py:106 | Fails exactly when the column is absent. Otherwise each row loses that column and nothing else, and the column order is kept. |
| ModelInput.Without | src/credit_card_payment_default_prediction/pipelines/data_processing/nodes.py:106 | The column list minus one name keeps every other name and stays free of duplicates; WithoutAppend and WithoutSingle fix the order of the remaining names. |
| ModelInput.WithoutSingle | src/credit_card_payment_default_prediction/pipelines/data_processing/nodes.py:106 | A single name is dropped exactly when it is the given name. |
| ModelInput.DropNA | src/credit_card_payment_default_prediction/pipelines/data_processing/nodes.py:110 | Keeps exactly the rows with no missing cell. Each complete row is kept as many times as it occurs, and every incomplete row is gone. |
| ModelInput.DropNAAppend | src/credit_card_payment_default_prediction/pipelines/data_processing/nodes.py:110 | `dropna` works piece by piece, so the kept rows stay in their original order. |
| ModelInput.DropNASingle | src/credit_card_payment_default_prediction/pipelines/data_processing/nodes.py:110 | A single row is kept exactly when it has no missing cell. |
| ModelInput.JoinTables | src/credit_card_payment_default_prediction/pipelines/data_processing/nodes.py:105-109 | The raw two-step join succeeds exactly when every key column is present. Its columns are the shuttle columns without `id`, then the review columns, then the company columns. |
| ModelInput.CreateModelInputTable | src/credit_card_payment_default_prediction/pipelines/data_processing/nodes.py:105-110 | Succeeds exactly when every key column is present, with the columns above. Its rows are the raw join's rows after `dropna`. Every complete row of the raw join appears as often as it does there, and no row has a missing cell. There are never more rows than in the raw join. |
| ModelInput.JoinRowsSound | src/credit_card_payment_default_prediction/pipelines/data_processing/nodes.py:105-109 | Every row of the second join is a shuttle with a review whose `shuttle_id` equals its `id`, and with a company whose `id` equals its `company_id`. |
| ModelInput.JoinRowsComplete | src/credit_card_payment_default_prediction/pipelines/data_processing/nodes.py:105-109 | Every such matching shuttle, review and company gives a row of the second join. |
| ModelInput.JoinTablesRows | src/credit_card_payment_default_prediction/pipelines/data_processing/nodes.py:105-109 | The raw join holds exactly the key-matching shuttle, review and company combinations. |
| ModelInput.ModelInputRows | src/credit_card_payment_default_prediction/pipelines/data_processing/nodes.py:105-110 | The model input holds exactly the complete key-matching combinations, so a shuttle without a matching review or company is absent. |
| ModelInput.ModelInputKeysPresent | src/credit_card_payment_default_prediction/pipelines/data_processing/nodes.py:105-110 | In every output row, the shuttle `id`, the review `shuttle_id` and the company `id` it came from are present. |
| ModelInput.CompleteRowKeys | src/credit_card_payment_default_prediction/pipelines/data_processing/nodes.py:107-110 | In a complete row built from a shuttle, a review and a company, the review's `shuttle_id` and the company's `id` are not missing. The shuttle's `id` matched the review's key, so it is not missing either. |
| ModelInput.ModelInputExample | src/credit_card_payment_default_prediction/pipelines/data_processing/nodes.py:105-110 | The example has shuttles 1 and 2 of company 10 and one review, of shuttle 1. The output is exactly one row with the columns of all three tables, and shuttle 2 is absent. |
| ModelInput.WithoutAppend | src/credit_card_payment_default_prediction/pipelines/data_processing/nodes.py:106 | Dropping a name from two joined lists of names drops it from each list and keeps them in order; with WithoutNothing, dropping `id` after the first join touches the shuttle columns only, because the reviews have no `id`. |

## Left out

- `pipeline.py`, the Kedro node wiring that feeds these functions, is not part of this model. It has no logic of its own.
- The data-dictionary docstring of `preprocess_dtypes` (nodes.py:7-38) is documentation only. The code tables in the model come from lines 39-43.
- Parsers.AsFloat: models `float()` as an exact decimal numeral. The accepted form is an optional sign, digits, an optional point and digits, with at least one digit. Exponents, `inf`/`nan`, surrounding whitespace, underscores and binary floating-point rounding are not modelled. The division by 100 is exact real division.
- Parsers.StrReplaceCell: the `.str` accessor raises when a column holds no text at all. Here the model turns every non-text cell into missing. Patterns are literal characters, not regular expressions.
- Dtypes.ReplaceCell: a boolean cell is never equal to an integer code. In Python, `True == 1`, so `replace` would also relabel a boolean.
- Dtypes.Dtypes: the order of the category list and the categorical dtype metadata are not modelled. A relabelled cell is a plain text.
- ModelInput.CreateModelInputTable: requires the joined tables to share no column name other than the dropped `id`. The `_x`/`_y` suffixing of clashing column names in `merge` is not modelled.
- ModelInput.MergeTables: the rows are in left-major order. For each left row, its matches follow in right order, which is what pandas 2.2 and later give. Before 2.2, an inner `merge` without sorting grouped the rows by key, so the model's order differs there when keys are interleaved. A missing join key matches another missing key, as NaN keys do in `merge`. pandas raises a ValueError when an integer key column is merged with a text key column. The model has no such error and simply finds no match.
- Tables.WellFormed: requires distinct column names. A pandas frame may carry duplicate column names, and the model does not cover such frames.
- Exceptions are modelled as a `Failure` result carrying a `MissingColumn` or `FormatError`. The Python exception types and messages are not modelled.
