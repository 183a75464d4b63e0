# Weather-observation preprocessing, modelled in Dafny

This project models the feature-preparation pipeline of the rain
predictor, `preprocesar` in `docker/inferencia.py`. The pipeline turns an
observation table into the column layout the scaler and the classifier
were fitted on. It runs in four steps:

1. The sixteen compass labels of the three wind-direction columns are
   folded into the buckets N, S, E and W. Values the map does not know are
   kept.
2. Missing cells are filled. Numeric columns that the imputer knows take
   the stored median. Text columns take the stored mode.
3. The wind-direction and rain-today columns that are present are one-hot
   encoded. The first category of each is dropped.
4. Schema columns that are missing are added as zeros. The frame is then
   cut down to the schema, in schema order.

The model also covers the rule that decides whether a manually typed
answer is stored as a number or as text.

A table is a sequence of named, typed columns (`Tables`). The steps are
pure functions on tables: `Directions`, `Fallback`, `Dummies` (with the
string order of `TextOrder`) and `Schema`. Their meaning is proved as
lemmas. The function itself updates its frame in place. That part is the
class `Pipeline.Frame`. Its methods change the frame's columns as the source
does: with a loop over the wind-direction labels (step 1), with two
whole-column assignments (step 2), and with a loop over the set of missing
schema labels (step 4). Each method is proved against the functions above. `ManualEntry` models the coercion
of typed answers.

## Model

| member | source | states |
|---|---|---|
| Directions.Invert | docker/inferencia.py:20 | the model of the comprehension; its meaning is proved in `Directions.InvertExact` and `Directions.InvertedIsReference` |
| Directions.AddLabels | docker/inferencia.py:20 | the inner loop of the comprehension binds every label of a bucket to that bucket, keeps every other binding, and adds no other key |
| Directions.InvertExact | docker/inferencia.py:20 | when no label is listed under two buckets, the inverted map sends each listed label to the bucket that lists it and knows no other label |
| Directions.BucketsDisjoint | docker/inferencia.py:14-19 | no compass label is listed under two buckets |
| Directions.InvertedIsReference | docker/inferencia.py:14-20 | the comprehension yields exactly the hand-written sixteen-entry table |
| Directions.InvertedKeys | docker/inferencia.py:14-20 | the inverted map covers exactly sixteen labels, the compass points |
| Directions.InvertedValues | docker/inferencia.py:14-20 | every label maps into {N, S, E, W}, namely to the bucket that lists it |
| Directions.InvertedFixesBuckets | docker/inferencia.py:14-20 | each bucket label maps to itself |
| Directions.NormalizeCell | docker/inferencia.py:34 | the model of `map(diccionario_invertido).fillna(col)` on one cell; its meaning is proved in `Directions.NormalizeCellMeaning` and `Directions.NormalizeCellIdempotent` |
| Directions.NormalizeColumn | docker/inferencia.py:34 | line 34 on one column: keeps its label, dtype and length, and rewrites each cell as `Directions.NormalizeCell` does; its meaning is proved in `Directions.NormalizedMeaning` |
| Directions.Normalized | docker/inferencia.py:32-34 | the model of step 1 on the whole frame; its meaning is proved in `Directions.NormalizedMeaning` |
| Directions.NormalizeCellMeaning | docker/inferencia.py:34 | a compass label becomes its bucket; any other value is unchanged, including missing cells, numbers and unknown text (`fillna` with the column itself) |
| Directions.NormalizeCellIdempotent | docker/inferencia.py:34 | normalising a cell twice is normalising it once |
| Directions.NormalizedMeaning | docker/inferencia.py:32-34 | step 1 keeps labels, dtypes and row count, rewrites only the three wind-direction columns, and is idempotent |
| Directions.NormalizeOnlyStep | docker/inferencia.py:32-34 | rewriting one more present column changes just that column |
| Pipeline.Frame.NormalizeDirections | docker/inferencia.py:32-34 | the loop leaves the frame equal to `Normalized` of the old frame, with the same rows |
| Fallback.FillColumn | docker/inferencia.py:43 | filling keeps a column's label, dtype and length |
| Fallback.FillOnly | docker/inferencia.py:43-45 | the model of the assignments at lines 43 and 45, `data[cols] = data[cols].fillna(stats)`: the listed columns are filled and the others kept; its meaning is proved in `Fallback.FilledCell` and `Fallback.FilledUntouched` |
| Fallback.NumericTargets | docker/inferencia.py:38-42 | holds exactly the number-dtype columns that the imputer knows, each once |
| Fallback.ObjectColumns | docker/inferencia.py:39 | holds exactly the object-dtype columns, each once |
| Fallback.Filled | docker/inferencia.py:38-45 | the model of step 2 without the imputer's transform; its meaning is proved in `Fallback.FilledCell`, `Fallback.FilledUntouched`, `Fallback.FilledComplete` and `Fallback.FilledIdempotent` |
| Fallback.FilledShape | docker/inferencia.py:38-45 | step 2 keeps labels, dtypes and row count |
| Fallback.TargetsAt | docker/inferencia.py:38-42 | a column is filled with medians iff it is numeric and known to the imputer, and with modes iff it is text |
| Fallback.FilledCell | docker/inferencia.py:43-45 | a present cell is never changed; a missing cell takes the median or the mode as its column's kind says, or stays missing when there is no statistic |
| Fallback.FilledUntouched | docker/inferencia.py:42-45 | numeric columns the imputer does not know, boolean columns and columns without a statistic come out whole |
| Fallback.FilledComplete | docker/inferencia.py:38-45 | a table with no missing cell is unchanged |
| Fallback.FilledIdempotent | docker/inferencia.py:38-45 | filling twice is filling once, for any medians and modes, missing ones included |
| Pipeline.Frame.FillMissing | docker/inferencia.py:38-45 | the frame becomes `Filled` of the old frame, with the same rows |
| TextOrder.BelowIrreflexive | docker/inferencia.py:51 | no string sorts before itself |
| TextOrder.BelowAsymmetric | docker/inferencia.py:51 | two strings never sort before each other |
| TextOrder.BelowTransitive | docker/inferencia.py:51 | the category order is transitive |
| TextOrder.BelowTotal | docker/inferencia.py:51 | any two different strings are ordered |
| TextOrder.SortedDistinct | docker/inferencia.py:51 | a strictly sorted category list has no repeats |
| TextOrder.Insert | docker/inferencia.py:51 | inserting into a sorted list keeps it sorted and adds exactly the new value |
| TextOrder.Categories | docker/inferencia.py:51 | the category list is sorted and holds exactly the values given |
| Dummies.Present | docker/inferencia.py:48-49 | holds exactly the candidate columns the frame has, each once |
| Dummies.CandidatesShape | docker/inferencia.py:48 | the candidate labels are distinct and contain no `_` |
| Dummies.TextValues | docker/inferencia.py:51 | collects exactly the text values of a column |
| Dummies.Indicator | docker/inferencia.py:51 | the model of one dummy column `<column>_<category>`; its meaning is proved in `Dummies.IndicatorsFlags` and `Dummies.IndicatorsNamed` |
| Dummies.ColumnCategories | docker/inferencia.py:51 | a column's categories are sorted and are exactly its text values |
| Dummies.Kept | docker/inferencia.py:51 | the columns kept are exactly those not encoded, with unique labels |
| Dummies.Indicators | docker/inferencia.py:51 | the model of the indicator columns `get_dummies` makes for one column; its meaning is proved in `Dummies.IndicatorsShape`, `Dummies.IndicatorsNamed`, `Dummies.IndicatorsFlags` and `Dummies.IndicatorsOffOnReference` |
| Dummies.DummyBlock | docker/inferencia.py:51 | the model of the indicator columns of all encoded columns, in candidate order; its meaning is proved in `Dummies.DummyBlockShape` |
| Dummies.GetDummies | docker/inferencia.py:51 | the model of `pd.get_dummies(data, columns=..., drop_first=True)`: kept columns first, then the indicator block; its meaning is proved in `Dummies.EncodedMeaning` |
| Dummies.Encoded | docker/inferencia.py:48-51 | the model of step 3; its meaning is proved in `Dummies.EncodedMeaning` and `Dummies.EncodedUnchanged` |
| Dummies.IndicatorsShape | docker/inferencia.py:51 | indicators are boolean, as long as the column, carry the prefix `<column>_`, and are distinct; the category part of the label is proved in `Dummies.IndicatorCategory` and `Dummies.IndicatorsNamed` |
| Dummies.IndicatorCategory | docker/inferencia.py:51 | each indicator stands for an observed category that is above some other observed category |
| Dummies.CategoryIndicator | docker/inferencia.py:51 | each observed category above another one has an indicator |
| Dummies.IndicatorsNamed | docker/inferencia.py:51 | an indicator `<column>_v` exists iff `v` is observed and is not the smallest category (`drop_first`) |
| Dummies.IndicatorsFlags | docker/inferencia.py:51 | indicator `<column>_v` is set exactly in rows holding `v`, and no row sets two indicators |
| Dummies.IndicatorsOffOnReference | docker/inferencia.py:51 | a row holding the smallest category, or a missing cell, sets no indicator |
| Dummies.DummyBlockShape | docker/inferencia.py:51 | the indicator block has distinct labels and the frame's row count; it holds every indicator of every encoded column, and each of its columns is an indicator of one encoded column |
| Dummies.BlockNameFresh | docker/inferencia.py:51 | an indicator label clashes with no label of the frame and with no candidate |
| Dummies.EncodedMeaning | docker/inferencia.py:48-51 | encoding keeps the frame well formed; every encoded column is gone; every indicator of every encoded column is in the result; every non-candidate column is kept; every result column is kept or an indicator of an encoded column |
| Dummies.EncodedUnchanged | docker/inferencia.py:49-51 | the frame is unchanged iff no candidate column is present |
| Schema.Project | docker/inferencia.py:58 | the model of `data[columnas_entrenamiento]`; its meaning is proved in `Schema.ProjectNames` and `Schema.PaddedProjection` |
| Schema.ZeroColumn | docker/inferencia.py:57 | the model of `data[col] = 0`; its meaning (a number column of zeros, one per row) is proved in `Schema.AlignedMeaning` |
| Schema.MissingNames | docker/inferencia.py:55-60 | the model of `set(columnas_entrenamiento) - set(data.columns)` at lines 55 and 60; that it is empty after step 4 is proved in `Schema.ProjectNames` and `Schema.AlignedMeaning` |
| Schema.Aligned | docker/inferencia.py:54-58 | the model of step 4 as a whole; its meaning is proved in `Schema.AlignedMeaning` and `Schema.AlignedIdempotent` |
| Schema.ProjectNames | docker/inferencia.py:58-60 | the projection has exactly the schema's labels, so the recomputed missing set is empty |
| Schema.AlignedMeaning | docker/inferencia.py:54-58 | the labels equal the schema in order and the row count is kept; present schema columns are kept whole; added columns are zero; non-schema columns are dropped; nothing is missing |
| Schema.AlignedIdempotent | docker/inferencia.py:54-58 | aligning twice is aligning once |
| Schema.PaddedProjection | docker/inferencia.py:55-58 | adding the zero columns in any order and then projecting gives the aligned frame |
| Pipeline.Frame.AddMissingColumns | docker/inferencia.py:55-57 | the old columns stay at the front, and one zero column is appended for each missing schema label, in set order |
| Pipeline.Preprocessed | docker/inferencia.py:30-60 | the model of steps 1-4 as one function; its meaning is proved in `Pipeline.PreprocessedMeaning`, and `Pipeline.Preprocess` is proved equal to it |
| Pipeline.Prepared | docker/inferencia.py:32-45 | the frame steps 1 and 2 leave with the caller; its meaning is proved in `Pipeline.PreparedShape` and `Pipeline.InPlaceRewritesInput` |
| Pipeline.PreparedShape | docker/inferencia.py:32-45 | steps 1 and 2 keep labels and row count |
| Pipeline.PreprocessedMeaning | docker/inferencia.py:30-60 | the result has exactly the schema's columns in order and one cell per input row, and nothing is missing |
| Pipeline.Preprocess | docker/inferencia.py:30-60 | the returned frame is `Preprocessed` of the input and the recomputed missing set is empty; the caller's frame is left normalised and filled, and also padded when nothing was encoded |
| Pipeline.PreprocessOnCopy | docker/inferencia.py:30-60 | the same result, computed without touching the caller's frame |
| Pipeline.InPlaceRewritesInput | docker/inferencia.py:32-45 | whatever the artifacts, steps 1 and 2 leave a frame with gust direction `NNE` holding `N`, and that is the frame the caller of `Pipeline.Preprocess` gets back |
| ManualEntry.FirstDot | docker/inferencia.py:104 | finds the first dot, or the length when there is none |
| ManualEntry.IsDigitString | docker/inferencia.py:104 | the model of `isdigit()` on ASCII text: non-empty and all digits; its meaning is proved in `ManualEntry.CoerceNumeric` |
| ManualEntry.RemoveFirstDot | docker/inferencia.py:104 | `replace('.', '', 1)` removes the first dot and keeps everything else |
| ManualEntry.DotsAfter | docker/inferencia.py:104 | a text with no dot has zero dots; otherwise its dots are the first plus those after it |
| ManualEntry.NoDotsAllDigits | docker/inferencia.py:104 | a text is all digits iff it has no dot and holds only digits and dots |
| ManualEntry.AllDigitsConcat | docker/inferencia.py:104 | a joined text is all digits iff both parts are |
| ManualEntry.SplitAtDot | docker/inferencia.py:104 | splitting at the first dot keeps the digit-and-dot shape of both parts |
| ManualEntry.AllDigitsAfterRemoval | docker/inferencia.py:104 | removing the first dot leaves only digits iff there is at most one dot and every other character is a digit |
| ManualEntry.RemovalNonEmpty | docker/inferencia.py:104 | if the removal leaves only digits, it leaves some iff the text holds a digit |
| ManualEntry.Coerce | docker/inferencia.py:104 | the model of line 104; its meaning is proved in `ManualEntry.CoerceNumeric` and `ManualEntry.CoerceRender` |
| ManualEntry.CoerceNumeric | docker/inferencia.py:104 | an answer is stored as a number iff it is digits with at most one dot and at least one digit; otherwise it is stored as the text itself |
| ManualEntry.DecimalValue | docker/inferencia.py:104 | the model of the value of `float(val)`; its meaning is proved in `ManualEntry.CoerceNumberExamples` and `ManualEntry.CoerceRender` |
| ManualEntry.CoerceTextExamples | docker/inferencia.py:104 | `""`, `"-3"`, `"1.2.3"` and `"."` stay text |
| ManualEntry.CoerceNumberExamples | docker/inferencia.py:104 | `"3"`, `"2.5"`, `"12."` and `".5"` become 3, 2.5, 12 and 0.5 |
| ManualEntry.Render | docker/inferencia.py:104 | the decimal rendering of a whole number is a digit string without a dot |
| ManualEntry.RenderValue | docker/inferencia.py:104 | the rendering denotes the number |
| ManualEntry.CoerceRender | docker/inferencia.py:104 | typing a whole number stores that number |
| ManualEntry.ManualFrame | docker/inferencia.py:101-108 | the model of `pd.DataFrame([user_data])`; its meaning is proved in `ManualEntry.ManualFrameShape` |
| ManualEntry.ManualFrameShape | docker/inferencia.py:101-108 | the typed frame has one row and the schema's labels; a column is numeric iff its answer is a well-shaped decimal; any other answer is stored as typed |

## Left out

- Loading the classifier, scaler, imputer and statistics from disk (lines 6-10). These are parameters (`Pipeline.Artifacts`) instead.
- The k-nearest-neighbours transform (line 44). The model treats it as leaving the median-filled columns as they are. It does not model the imputer's own check of its feature list.
- The scaler's transform (step 5, lines 71-72), the classifier's prediction and `predecir` (lines 78-80).
- The column log written to `columns_log.txt` and the console messages (lines 62-68 and the entry point's prints). These are output only.
- Reading and writing CSV files and the option prompt of the entry point (lines 83-97 and 110-113). `ManualFrame` takes the typed answers as a parameter.
- The context file `inferencia.py`, a separate earlier script.
- Cells are rational numbers, text, booleans or missing. Floating point and `float()` rounding are not modelled. A numeric answer's value is the exact decimal it denotes.
- ManualEntry.Coerce: only ASCII digits are treated as digits. Python's `isdigit` also accepts other Unicode digits. For some of those, such as `²`, `float()` raises `ValueError` and line 106 stores `None`. That branch is not modelled.
- Dummies.Encoded: the model requires the encoded columns to hold only text or missing cells (`Dummies.Encodable`). pandas would label numeric categories by their printed form, which is not modelled. The model also requires that no column of the frame is already named `<candidate>_...`. This is stronger than what pandas needs: pandas only produces two columns with one label when the part after `_` is an observed category other than the first, so a frame holding `WindGustDir_speed` next to `WindGustDir` is accepted by pandas but not covered by the model.
- Pipeline.Preprocess: the model assumes the fitted scaler's `feature_names_in_` has distinct labels. Nothing in the source checks this, and line 58 would also accept repeated labels; a schema with repeats is not covered.
- `Dtype` distinguishes only number, object and boolean. An integer zero column (`data[col] = 0`) is a number column of zeros.

Where the descriptions and the code disagree, the model follows the code:

- A manually typed answer that is not a number is stored as the typed text, not as null. `""` stays the empty string.
- Option 1 writes the caller's frame, which `preprocesar` has changed, rather than the input as read (see Findings).

## Findings

| source | as written | input that shows it | evidently intended | confidence | as-written member | corrected member |
|---|---|---|---|---|---|---|
| docker/inferencia.py:32-45, 93-96 | `preprocesar` rewrites the caller's frame in place (steps 1-2, and the zero columns of step 4 when nothing is encoded). Option 1 then writes that frame to `output.csv`. | a CSV row with `WindGustDir = NNE` is written back with `N`, and missing cells come back filled | `output.csv` is the input as read plus a `Prediction` column | medium, not executed | Pipeline.Preprocess, Pipeline.InPlaceRewritesInput | Pipeline.PreprocessOnCopy |
