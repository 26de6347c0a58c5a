# Student dropout detector — a verified model of its prediction and risk report

The student dropout detector is a Streamlit dashboard. It scores a table of
student records with a random-forest classifier and warns about the students
whose predicted dropout probability is 70 % or more. This project models, in
Dafny, the part of it that is logic rather than user interface:

- `predict_dropout` (`app/predictor.py`). It turns the Course column into text
  and one-hot expands the table with `pd.get_dummies`. It then adds every
  feature the classifier expects but the expansion did not produce as a column
  of zeros, and selects exactly the expected features in order. The classifier
  scores the resulting matrix. The result is a copy of the input with a
  `Prediction` column and one `"<class> (%)"` column per class.
- How the classifier's expected feature names come about at training time
  (`model/train_model.py`, lines 8-23). It uses the same text-then-expand
  encoding, so inference and training draw their indicator names from one
  vocabulary.
- The risk report of the dashboard (`app/streamlit_app.py`, lines 64-85). It
  sorts by `Dropout (%)`, highest first, and keeps the rows at 70 % or more.
  It reports their number, then one line per student labelled with its
  original index plus one. A mentor hint follows a line when either semester
  has fewer than 3 approved units.
- The one-row record built by the manual-entry form (lines 47-62).

Files, one module each:

| file | module | what it holds |
|---|---|---|
| `frames.dfy` | `Frames` | tables as pandas holds them: cells, rows as maps, dtypes (`Wf`), `df[name] = cells`, `str` of an integer |
| `encoder.dfy` | `Encoder` | Course as text, `pd.get_dummies`, the zero-fill loop and the selection (`Encode`), and the row-wise meaning of the result (`Encoding`) |
| `predictor.dfy` | `Predictor` | `predict_dropout` (`PredictDropout`, specified by `Predict`) and what its result holds |
| `training.dfy` | `Training` | the feature names a classifier trained by `model/train_model.py` expects |
| `risk_report.dfy` | `RiskReport` | sorting, the 70 % filter, the messages of the report (`ShowReport`, `ShowLines`, `Run`) |
| `manual_entry.dfy` | `ManualEntry` | the manual-entry record and what the page says about it |

Imperative parts follow the code:

- `Encoder.Encode` keeps the zero-fill loop, with an invariant over the
  features processed so far.
- `Predictor.PredictDropout` keeps the loop that writes one percentage column
  per class.
- `RiskReport.ShowLines` keeps the loop over the high-risk rows that emits
  messages.

Each of these methods is proved equal to a function that states the result
directly. The properties are proved about those functions.

Outside services are parameters rather than code:

- the classifier is a record of its fitted feature names, its classes and
  per-row `predict`/`predict_proba` functions;
- Python's `str` of a float and numpy's `round(1)` form the `Numerics` value.

## Model

| member | source | states |
|---|---|---|
| Frames.IntTextRoundTrip | app/predictor.py:8 | reading back `str` of an integer course code gives the code, so distinct codes become distinct category texts |
| Encoder.Normalize | app/predictor.py:7-8 | succeeds exactly when the table has a Course column (KeyError otherwise); same columns and rows; each Course cell becomes its text; every other cell is unchanged |
| Encoder.Categories | app/predictor.py:9 | the categories of a column are distinct and are exactly the texts seen in that column in the batch |
| Encoder.DummyNameInjective | app/predictor.py:9 | two categories of one column never share an indicator label |
| Encoder.Encode | app/predictor.py:9-14 | expanding, then adding each missing expected label as zeros in a loop, then selecting the expected labels gives exactly the row-wise `Encoding`, including its failure when a label is carried twice |
| Encoder.SelectFilled | app/predictor.py:11-14 | after the fill, selecting the expected labels gives each label's row-wise column when no two input columns yield it, and a feature-name mismatch otherwise |
| Encoder.DummiesLookupFilled | app/predictor.py:9-13 | after expansion and fill, an expected label names a zero column when no input column yields it, the yielded column when exactly one does, and is ambiguous otherwise |
| Encoder.BatchIndependence | app/predictor.py:9-14 | encoding one row alone gives that row's vector in the batch's matrix |
| Encoder.EncodedShape | app/predictor.py:14 | one vector per row, one entry per expected feature in the classifier's order, the k-th entry being that row's value for the k-th feature |
| Encoder.MissingFeatureIsZero | app/predictor.py:11-13 | an expected feature that no input column yields is 0 in every row, and no error is raised |
| Encoder.NumericPassThrough | app/predictor.py:9-14 | a numeric input column named by the classifier passes its numbers through unchanged |
| Encoder.IndicatorIff | app/predictor.py:8-9 | the entry of indicator `Course_v` is 1 exactly when the row's Course text is `v`, and 0 exactly when it is not |
| Encoder.IndicatedIsOne | app/predictor.py:9 | a row whose text cell has the expected label as its indicator encodes 1 there |
| Encoder.OneTextColumn | app/predictor.py:9 | with Course as the only text column and no indicator label clashing with a column, no expected feature is ambiguous |
| Encoder.TwoStudents | app/predictor.py:8-14 | against Course_Design, Course_Management and Age, a Design student aged 19 encodes as [1, 0, 19] and a Journalism student aged 20 as [0, 0, 20] |
| Encoder.DroppedColumnIgnored | app/predictor.py:14 | an input column that yields none of the expected labels is dropped: removing it changes nothing in the encoding |
| Predictor.PredictDropout | app/predictor.py:6-24 | the steps of `predict_dropout`, including the loop over the classes, return exactly `Predict` |
| Predictor.PredictFailures | app/predictor.py:8-16 | fails with a KeyError exactly when Course is missing; otherwise with a feature-name mismatch exactly when an expected label is carried by two columns; otherwise with scikit-learn's refusal of an empty matrix exactly when the input has no rows; there are no other failures |
| Predictor.PredictShape | app/predictor.py:19-22 | the result is a well-formed table with the input's rows in order and the input's columns first; its columns are the input's plus Prediction and one percentage column per class, appended in class order when none of them was an input column |
| Predictor.PredictKeepsInput | app/predictor.py:19 | every input cell whose label is not one of the written labels survives in the result unchanged, except that Course holds its text |
| Predictor.PredictCells | app/predictor.py:16-22 | each row's Prediction is the classifier's label for its encoded vector, and its `"<class> (%)"` cell is that class's probability × 100 rounded to tenths |
| Predictor.PredictBatchIndependence | app/predictor.py:6-24 | predicting one row alone gives that row of the batch's result |
| Predictor.PredictWf | app/predictor.py:19-22 | the result is a well-formed table whatever the classes are called |
| Predictor.ResultRowCells | app/predictor.py:20-22 | a result row holds the prediction, each class's percentage, and its input cells wherever no written label overwrote them |
| Predictor.AssembleColumns | app/predictor.py:20-22 | writing Prediction and the percentage columns one by one appends each label not yet present, in order |
| Predictor.OutputLabelsDistinct | app/predictor.py:21-22 | distinct classes give distinct output labels, none of them `Prediction` |
| Training.Project | model/train_model.py:17 | selecting named columns succeeds exactly when all are present, and gives those columns, in that order, with their cells |
| Training.FeatureNames | model/train_model.py:17-23 | the classifier's feature names can be derived exactly when the training table has the 14 selected features and the target |
| Training.SharedVocabulary | model/train_model.py:20-23 | a Course value seen in training has its indicator among the feature names, and an input row with the same Course text encodes 1 there |
| RiskReport.SortDescDescending | app/streamlit_app.py:69 | the sort leaves the dropout percentages non-increasing |
| RiskReport.Rank | app/streamlit_app.py:69-76 | fails with a KeyError when Dropout (%) or a displayed column is missing, and with a type error when Dropout (%) holds text; otherwise gives the rows highest first, as a permutation of the table's rows |
| RiskReport.RankKeepsLabels | app/streamlit_app.py:69 | each ranked row keeps its original index label and its dropout percentage |
| RiskReport.HighRiskMembers | app/streamlit_app.py:76 | a row is kept exactly when its dropout percentage is at least 70 |
| RiskReport.HighRiskCount | app/streamlit_app.py:76 | the filter keeps every copy of each row at 70 % or more and no other row |
| RiskReport.HighRiskPermutation | app/streamlit_app.py:69-76 | sorting before filtering changes neither the kept rows nor their number |
| RiskReport.HighRiskPrefix | app/streamlit_app.py:69-76 | on sorted rows the kept rows are a prefix, and every row after it is below 70 % |
| RiskReport.ReportedStudents | app/streamlit_app.py:69-76 | the high-risk rows of the ranked table are its prefix at 70 % or more, each the input row its label names |
| RiskReport.ThreeStudents | app/streamlit_app.py:69-76 | dropout percentages [72.3, 40.0, 95.1] give the high-risk rows 95.1 (label 2) then 72.3 (label 0) |
| RiskReport.MentorAdvice | app/streamlit_app.py:82-83 | the hint is advised exactly when the 1st-semester approved units, or else the 2nd-semester ones, are below 3; the check fails exactly when a consulted count is missing or not a number |
| RiskReport.ShowLines | app/streamlit_app.py:80-83 | the loop over the high-risk rows emits exactly the messages of `Lines` and stops at the first failure |
| RiskReport.LinesComplete | app/streamlit_app.py:80-83 | when no row fails, the lines name every high-risk student in sorted order by index + 1, each followed by the hint exactly when advised |
| RiskReport.LinesStop | app/streamlit_app.py:80-83 | when the k-th row is the first whose counts cannot be read, the lines name the students up to it and the report ends with that row's error |
| RiskReport.ShowReport | app/streamlit_app.py:69-85 | the report on a result table is exactly `Report` |
| RiskReport.ReportHeadline | app/streamlit_app.py:78-85 | the report opens with the all-clear exactly when no row reaches 70 %, and otherwise with the number of rows that do |
| RiskReport.OneRowReport | app/streamlit_app.py:76-85 | a one-row table reports either the all-clear or one at-risk student labelled 1 with its advice, and does not fail |
| RiskReport.Run | app/streamlit_app.py:65-85 | an empty table shows nothing; otherwise the page shows the prediction's failure or the report on its result |
| RiskReport.PredictionRanks | app/streamlit_app.py:66-72 | a classifier with the classes Dropout, Graduate and Enrolled always produces a rankable result |
| RiskReport.DisplayColumnsWritten | app/streamlit_app.py:72 | the four displayed columns are all in the result of `predict_dropout` |
| RiskReport.DropoutWrittenAsNumber | app/predictor.py:22 | the Dropout (%) column of the result holds numbers |
| ManualEntry.ManualFrame | app/streamlit_app.py:47-62 | manual entry gives a well-formed one-row table whose columns are the 14 training features, with Course the only text cell |
| ManualEntry.NoFeatureIsAnIndicator | model/train_model.py:8-13 | no selected feature name has the form of a Course indicator |
| ManualEntry.ManualPrediction | app/streamlit_app.py:47-66 | a manually entered record is always scored, whatever the expected feature names |
| ManualEntry.ApprovedKept | app/predictor.py:19 | the approved-units values entered on the form reach the result row unchanged |
| ManualEntry.ManualAdvice | app/streamlit_app.py:82-83 | for a manual record, the mentor hint is advised exactly when either semester's approved units are below 3 |
| ManualEntry.ManualReport | app/streamlit_app.py:47-85 | a manual record never makes the page fail; it shows the all-clear, or one at-risk student labelled 1 whose hint appears exactly when either approved count is below 3 |

## Left out

- Loading the pickled classifier and training it. `joblib`, the train/test split, fitting the forest and the classification report are left out. The classifier is an opaque value, and nothing is claimed about its probabilities: not that they sum to 100, not their range.
- Floating point. `str` of a float and numpy's `round(1)` are left abstract, as the `floatText` and `tenths` fields of `Numerics`, and probabilities are reals.
- NaN and mixed-type columns. Cells are integers, floats or text, and a well-formed column holds only text or only numbers.
- Frames.Wf: a numeric column may mix integer and float cells. pandas would store such a column as float64. Its Course text would then read "171.0" where `ToText` gives "171" for an integer cell. The model takes each cell's kind as given and does not model the upcast.
- Column order of `pd.get_dummies`. The model keeps each numeric column and puts the indicators of a text column in its place. pandas puts numeric columns first. The order does not matter here, because the expected features are selected by name.
- Sort order among equal dropout percentages. The code uses pandas' default sort, which is not stable, so it does not fix the order of students with equal dropout percentages. `SortDesc` keeps such students in their input order. That is one order pandas may produce, not the only one. So the order of tied students in `Report`, `ShowReport`, `Run`, `ReportedStudents` and `LinesComplete` is the model's choice. `Rank` itself promises only a descending permutation.
- The widgets, CSV upload and parsing, the result table on the page, the bar chart and the sqlite record store. These are user interface and I/O. The page's output is modelled as a list of messages, and the table and chart are not among them.
- Predictor.PredictFailures: scikit-learn's other input checks in `predict` are not modelled. One is its refusal of a value that is not finite as a float32. Encoded values are unbounded reals, so the model has no such failure.
- ManualEntry.ManualFrame: the value ranges of the form's widgets (age 16-40, units 0-10, grades 0-20) are not modelled. The form's fields are unconstrained integers, so the proved properties hold for every value, not only those the widgets allow.
- The copy at `app/predictor.py:7` and `:19`. Tables are values in the model, so the caller's table cannot be changed and aliasing does not arise.
- RiskReport.Rank: a Dropout (%) column holding text fails as soon as the report starts. pandas would first sort the strings and then fail at the comparison with 70, after the table is shown. Both end in the same error, and the table is not modelled.
- A missing numeric feature raises no error. The code adds it as a column of zeros, and so does the model (`MissingFeatureIsZero`).
