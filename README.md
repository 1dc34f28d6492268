# Next-session stock forecast: a Dafny model of the predictive pipeline

This project models the numeric and string core of a small stock-forecast
application for ten IDX tickers (`ADRO.JK` … `TOWR.JK`). The application has
three scripts and a web handler:

- `download_data.py` fetches two years of daily bars. It drops incomplete bars, adds an EMA-10 (`ewm(span=10, adjust=False)`) and a simple-return column, drops the row whose return is undefined, and writes `data/<ticker>.xlsx`.
- `train_models.py` pairs every sheet row's `Close, EMA_10, Return` with the next row's close. It fits a seeded random forest and saves `models/<name>_model.pkl`.
- `app.py` (`/predict`) loads `models/<ticker>_model.pkl` and downloads a year of closes. It recomputes the features and predicts from the last complete row. It then compares the prediction with a reference close, scores the model by MAPE over the last ten clean rows, and dates the forecast for today or tomorrow, depending on whether the session (16:30 WIB) has closed.
- `test_predict.py` does the same prediction from the command line, from the last row of the frame.

Closes are positive reals (`Features.Price`). A column entry pandas holds as NaN is `Wrappers.Option.None`. The files on disk are the two maps of `Storage.Disk`: sheets by path and models by path. The fitted forest is `Storage.Model`: the examples given to the seeded split identify it, because both the split and the forest use `random_state=42`; the forest itself is fitted on the split's training part of `TrainCount(n)` of those n examples. What it predicts is an opaque parameter `predict: (Model, FeatureVec) -> real`. The current time is a parameter `now` (`App.Instant`), and downloads are parameters.

Modules: `Features` holds the shared EMA, Return and `dropna`. `Calendar` holds the date plus one day. `Strings` covers `split`, `replace` and `os.path.join`. `Storage` holds the sheets and models. There is one module per script: `DownloadData`, `TrainModels`, `App` and `TestPredict`. `test_predict.py`'s `is_market_open` (test_predict.py:10-16) is the same comparison as app.py's, so `App.IsMarketOpen` models both.

Behaviour of the code a reader might not expect, which the model follows:
- app.py loads the model before it downloads data, so a missing model is reported first.
- The reference close while open is `iloc[-2]` of the downloaded closes.
- `calculate_accuracy` divides by a zero actual through NumPy, which gives inf or nan and raises no `ZeroDivisionError`. The model reports that case as `NonFinite`, so its division-by-zero message is unreachable.
- Arrays of unequal length are broadcast when one of them has length one.
- test_predict.py predicts from the last row even when its Return is undefined. It never branches on the session except to choose the printed message.

## Model

| member | source | states |
|---|---|---|
| `App.MarketOpenIff` | app.py:45-48 | `is_market_open` holds iff the time of day is strictly before 16:30:00.000000, in microseconds and as hour/minute |
| `App.CloseInstantBoundary` | app.py:45-48 | 16:30:00.000000 is closed; 16:29:59.999999 is open |
| `App.PredictionDateIsTodayOrTomorrow` | app.py:156-159 | open: today's date; closed: the date one ordinal later; no date only when closed on 9999-12-31 |
| `Calendar.NextDayIsOneLater` | app.py:159 | `+ timedelta(days=1)` moves the date ordinal by exactly one; only 9999-12-31 overflows |
| `Calendar.YearLength` | app.py:159 | a year spans 366 ordinals when leap (Gregorian rule), else 365 |
| `Calendar.MonthsFillYear` | app.py:159 | the month lengths of a year add up to its length |
| `App.AccuracyErrors` | app.py:73-81 | empty input gives the empty-data message; non-broadcastable shapes give the generic error; a zero actual gives a non-finite value |
| `App.AccuracyIsMape` | app.py:76-77 | equal-length input with non-zero actuals scores `round(mean(abs(a-p)/abs(a))*100, 2)`, which is never negative |
| `App.PerfectForecastScoresZero` | app.py:76-77 | predictions equal to the actuals score 0 |
| `App.AccuracyExample` | app.py:76-77 | `calculate_accuracy([100], [110])` is 10.0 |
| `App.Round2Error` | app.py:77 | `round(x, 2)` moves x by at most 0.005 |
| `App.Round2Exact` | app.py:77 | values with two decimals are unchanged by `round(x, 2)` |
| `App.Round2Idempotent` | app.py:148 | rounding an already rounded value changes nothing |
| `App.Round2Monotone` | app.py:148 | `round(x, 2)` is monotone |
| `App.Round2Sign` | app.py:148 | rounding keeps the sign up to zero, and 0 rounds to 0 |
| `App.PercentageChangeMeaning` | app.py:147 | the change is 0, positive or negative exactly as the prediction equals, exceeds or falls short of the reference; the prediction equals `ref * (1 + change/100)` |
| `App.RoundedChangeDirection` | app.py:147-148 | the rounded change is 0 for an exact forecast and keeps the direction of the prediction |
| `App.WindowAligned` | app.py:151-153 | actuals and predictions come from the same last `min(10, n)` clean rows, so they have equal length |
| `App.WindowOfCloses` | app.py:151-153 | the window's actuals are the last `min(10, n-1)` downloaded closes and its predictions are made from the feature rows at those closes |
| `App.PredictFailures` | app.py:110-166 | the handler fails with each error exactly when its condition holds and the earlier checks passed: no model file, then an empty download, then one close only, then a date past 9999, then a symbol missing from `stocks`; it renders exactly when the model exists, there are two or more closes, the date exists and the symbol is in `stocks` |
| `App.PredictForecast` | app.py:134-159 | a rendered forecast predicts from the last close's feature row. Its reference is `closes[n-2]` while open and `closes[n-1]` when closed, and its change is the rounded percentage change. Its accuracy is `calculate_accuracy` of the last `min(10, n-1)` closes against the predictions from the feature rows at those closes, a non-negative MAPE, and it is dated today or tomorrow |
| `Features.EmaColumn` | app.py:126 | the EMA column has one entry per close, starts at the first close, and satisfies `ema[t] = 2/11*c[t] + 9/11*ema[t-1]` |
| `Features.EmaClosedForm` | app.py:126 | the recursion equals the explicit weights: `beta^t` for the first close and `alpha*beta^(t-i)` for close i |
| `Features.EmaBounded` | app.py:126 | the EMA lies between the smallest and the largest close seen so far |
| `Features.EmaOfConstant` | app.py:126 | the EMA of a constant series is that constant |
| `Features.EmaPrefix` | download_data.py:17 | the EMA at row t depends only on closes 0..t |
| `Features.MinUpTo` | app.py:126 | reference helper for `EmaBounded`, not itself in the source: returns a close among c[0..t] that is at most every one of them |
| `Features.MaxUpTo` | app.py:126 | reference helper for `EmaBounded`, not itself in the source: returns a close among c[0..t] that is at least every one of them |
| `Features.ReturnColumn` | app.py:127 | Return is undefined exactly at row 0, is `(c[t]-c[t-1])/c[t-1]` elsewhere and rebuilds `c[t]` from `c[t-1]` |
| `Features.FeatureTable` | app.py:126-127 | the frame keeps one row per close |
| `Features.CleanRowsAreTail` | app.py:130-132 | after `dropna` the clean table is rows 1..n-1 in order, and it is empty iff n <= 1 |
| `Features.DropNaKeepsDefined` | download_data.py:14 | `dropna` keeps exactly the defined entries, at strictly increasing positions |
| `Features.DropNaAllDefined` | train_models.py:10 | `dropna` of fully defined entries keeps them all |
| `Features.DropNaFirstUndefined` | download_data.py:21 | `dropna` when only the first entry is undefined keeps entries 1..n-1 |
| `Features.DropNaAppend` | download_data.py:14 | `dropna` distributes over concatenation |
| `DownloadData.ProcessStockData` | download_data.py:14-21 | the two cleaning passes and the column pass compute exactly the `Processed` sheet |
| `DownloadData.ProcessedShape` | download_data.py:14-21 | the sheet is the clean bars minus the first. Each row's EMA is the recursion from clean bar 0 through its own close, and its Return uses the preceding clean close |
| `DownloadData.ProcessedRowsComeFromInput` | download_data.py:14-21 | each kept row is a complete input bar, taken at strictly increasing input positions |
| `DownloadData.ProcessedDatesIncrease` | download_data.py:14-21 | date-ordered input gives a date-ordered sheet |
| `DownloadData.OutputFileShape` | download_data.py:24 | the output path is `folder/ticker.xlsx`, distinct for distinct tickers |
| `DownloadData.DownloadAndProcess` | download_data.py:5-26 | an empty download writes nothing; any other writes the processed sheet to its output path and touches nothing else |
| `DownloadData.DownloadAll` | download_data.py:39-40 | the tickers are processed in list order |
| `DownloadData.EachTickerWritesItsSheet` | download_data.py:39-40 | with distinct output files, each ticker with data ends with its own processed sheet |
| `DownloadData.OtherFilesUntouched` | download_data.py:39-40 | a file no ticker writes keeps its previous state |
| `Storage.Disk.WriteSheet` | download_data.py:25 | writing a sheet replaces that path only |
| `Storage.Disk.SaveModel` | train_models.py:23 | saving a model replaces that path only |
| `TrainModels.ExamplesPairing` | train_models.py:9-11 | X is rows 0..n-2 and `y[i] = Close[i+1]`, so both have n-1 entries |
| `TrainModels.FeatureColumns` | train_models.py:9 | one feature row per sheet row |
| `TrainModels.EmptyTrainSetIffOneExample` | train_models.py:17 | with `test_size=0.2`, the training set of a non-empty example set is empty exactly when there is one example |
| `TrainModels.TrainModelGuard` | train_models.py:13-20 | no model for sheets of fewer than two rows; a two-row sheet makes the split reject its single example; otherwise the forest determined by the n-1 examples given to the seeded split (fitted on its training part of `TrainCount(n-1)` of them) |
| `TrainModels.ModelNameIsPlain` | train_models.py:22 | the model name holds no `/` |
| `TrainModels.ArtifactOfSheet` | train_models.py:22-23 | `folder/T.xlsx` is saved as `models/T_model.pkl`, app.py's path for T (app.py:112) |
| `TrainModels.TrainModelFile` | train_models.py:6-24 | a missing file and an empty training set each stop the run; otherwise it saves the fitted model under the artifact path when an example exists |
| `TrainModels.TrainAll` | train_models.py:40-41 | the files are trained in list order, and the run stops at the first missing file or rejected split |
| `TrainModels.AbortIsFinal` | train_models.py:40-41 | after the abort, later files change nothing |
| `TrainModels.RunOverwrites` | train_models.py:40-41 | a run overwrites older model files with what it writes; its writes and status depend only on the sheets |
| `TrainModels.RetrainingIsIdempotent` | train_models.py:17-23 | retraining on the same sheets reproduces the same model files (fixed seed 42) |
| `TrainModels.TrainingRowsMatchServing` | train_models.py:9-11 | the training rows are app.py's clean feature rows, in the same column order, and each label is the next clean close |
| `TrainModels.DownloadedTickerIsServed` | train_models.py:22-23 | after download and training of a ticker with at least four complete bars, app.py's model path holds the forest determined by its sheet's examples; with exactly three the split stops the run and no model is written |
| `TrainModels.FileListsAgree` | train_models.py:27-38 | the file list has one entry per downloaded ticker, and entry i is the path the download script writes for ticker i |
| `TrainModels.TickersAreStocks` | download_data.py:29-30 | every downloaded ticker is a key of app.py's `stocks`, and every key is downloaded |
| `Strings.LastComponentIsFinal` | train_models.py:22 | `split('/')[-1]` is a suffix of the path without `/` |
| `Strings.LastComponentOfJoin` | train_models.py:22 | `split('/')[-1]` of `dir/name` is `name` |
| `Strings.ReplaceAllKeepsNoSlash` | train_models.py:22 | `replace` with a `/`-free text adds no `/` |
| `Strings.ReplaceAllAtEnd` | train_models.py:22 | replacing a pattern that occurs only at the end swaps that ending |
| `Strings.XlsxOnlyAtEnd` | train_models.py:22 | in `T.xlsx` for a safe name T, `.xlsx` occurs only at the end |
| `Strings.ReplaceExtension` | train_models.py:22 | `(T + '.xlsx').replace('.xlsx', r)` is `T + r` for a safe name T |
| `Strings.JoinRelative` | download_data.py:24 | `os.path.join` of a plain folder and a relative name inserts one `/` |
| `Strings.JoinInjective` | download_data.py:24 | such joins are injective |
| `TestPredict.PathsAgree` | test_predict.py:19-22 | `models/s.JK_model.pkl` is app.py's path for `s.JK` and the artifact train_models.py writes for `data/s.JK.xlsx` |
| `TestPredict.SampleCallIsServed` | test_predict.py:47 | the sample symbol's ticker is one of app.py's stocks |
| `TestPredict.PredictOutcomes` | test_predict.py:18-35 | missing model, empty download and one-row download (undefined Return) each give their outcome; otherwise it predicts from the last row |
| `TestPredict.ValueIgnoresSession` | test_predict.py:37-44 | the returned value does not depend on the market-open branch |
| `TestPredict.AgreesWithServing` | test_predict.py:30-35 | when app.py renders a forecast for `s.JK`, this predictor returns the same value |

## Left out

- Network access: yfinance downloads are parameters (`closes`, `fetch`). `get_close_price` (app.py:50-63) is a network call that returns the last downloaded close, or a message string, and it is not modelled. Neither are `download_and_check_data`'s column flattening and debug prints (app.py:90-106).
- File I/O: Excel and joblib files are the two maps of `Storage.Disk`. A sheet reads back exactly as it was written. `os.makedirs` and the printed messages are not modelled.
- Web and presentation: Flask routing, `request.form`, `render_template`, the Plotly chart (app.py:162-169) and the locale-based `format_price` filter (app.py:12,18-25) are left out. `App.Forecast` holds the values passed to the template.
- `strftime('%d/%m/%Y')`: the prediction date is returned as a calendar date, not as text.
- The random forest and `train_test_split`: what a fitted forest predicts is an opaque parameter, and which examples the seeded split puts in the training set is not modelled; only the split's sizes are. `TestCount` is `ceil(n/5)` over exact numbers, which equals scikit-learn's floating-point `ceil(0.2 * n)` for every n up to 2^50: the double nearest 0.2 exceeds 0.2 by too little to carry a multiple of 5 past its integer.
- TestPredict.PredictOutcomes: for a one-row download the forest would receive a NaN Return; the model stops with `UndefinedReturn` instead of modelling what the forest does with NaN.
- Floating point: arithmetic is over exact reals, so `alpha` is exactly 2/11 and `round` is exact half-to-even on `x*100`. Zero or negative closes are excluded by `Features.Price`; pandas would divide by zero there.
- Missing closes in app.py's and test_predict.py's downloads are not modelled. In app.py, `dropna` then only removes row 0; test_predict.py takes the last row unfiltered (test_predict.py:30).
- Time: `now` is one parameter. app.py reads the clock directly at line 140 and, through `is_market_open` (line 46), at lines 141 and 156; those reads could disagree across 16:30. Time-zone conversion is not modelled.
- Other exceptions that the generic handler at app.py:183-185 would turn into an error page, such as failures inside `model.predict`, are not modelled.
- Concurrency and atomic replacement of artifacts: the code has neither.
