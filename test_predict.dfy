/**
 * test_predict.py: the command-line predictor. It downloads `symbol.JK`,
 * adds the EMA_10 and Return columns, loads `models/symbol.JK_model.pkl`
 * and predicts from the very last row, without dropping undefined rows.
 * Its `is_market_open` is the same comparison as app.py's, modelled by
 * `App.IsMarketOpen`; it only chooses the printed message.
 */
module TestPredict {
  import opened Wrappers
  import opened Features
  import opened Strings
  import opened Storage
  import App
  import DownloadData
  import TrainModels

  /** `stock_symbol + '.JK'`. */
  function Ticker(symbol: string): string
  {
    symbol + ".JK"
  }

  /** `f"models/{stock_symbol}.JK_model.pkl"`. */
  function ModelPath(symbol: string): string
  {
    "models/" + symbol + ".JK_model.pkl"
  }

  /** What `predict` ends with: the model file is missing, the download
      is empty (the forest is asked to predict zero rows), the last row's
      Return is NaN (a one-row download), or a value with the message
      choice "for today" or "for the next day". */
  datatype Outcome = ModelMissing(path: string) | NoRows | UndefinedReturn
                   | Predicted(value: real, forToday: bool)

  /** The feature row `iloc[-1:]` of the frame, if there is one. */
  function LastRow(closes: seq<Price>): Option<Row>
  {
    if |closes| == 0 then None else Some(FeatureTable(closes)[|closes| - 1])
  }

  /** `predict(stock_symbol)`; the model is loaded after the download and
      the feature columns are computed. */
  function Predict(symbol: string, models: map<string, Model>, closes: seq<Price>, now: App.Instant,
                   predict: (Model, FeatureVec) -> real): Outcome
  {
    var path := ModelPath(symbol);
    if path !in models then ModelMissing(path)
    else match LastRow(closes)
      case None => NoRows
      case Some(row) =>
        match Complete(row)
        case None => UndefinedReturn
        case Some(v) => Predicted(predict(models[path], v), App.IsMarketOpen(now))
  }

  /** The model path is app.py's path for the ticker `symbol.JK`, and the
      one train_models.py writes for the sheet download_data.py writes for
      that ticker. */
  lemma PathsAgree(symbol: string)
    ensures ModelPath(symbol) == App.ModelPath(Ticker(symbol))
    ensures NameSafe(Ticker(symbol)) ==>
      ModelPath(symbol) == TrainModels.ArtifactPath(DownloadData.OutputFile(DownloadData.OutputFolder, Ticker(symbol)))
  {
    if NameSafe(Ticker(symbol)) {
      var t := Ticker(symbol);
      assert t[0] in t;
      DownloadData.OutputFileShape(DownloadData.OutputFolder, t, t);
      TrainModels.ArtifactOfSheet(DownloadData.OutputFolder, t);
    }
  }

  /** The sample call `predict('PTBA')` uses one of app.py's stocks. */
  lemma SampleCallIsServed()
    ensures Ticker("PTBA") in App.Stocks
    ensures ModelPath("PTBA") == "models/PTBA.JK_model.pkl"
  {
    assert Ticker("PTBA") == "PTBA.JK";
  }

  /** The predicted value does not depend on the session state: the
      market-open test only picks the message. */
  lemma ValueIgnoresSession(symbol: string, models: map<string, Model>, closes: seq<Price>,
                            now1: App.Instant, now2: App.Instant, predict: (Model, FeatureVec) -> real)
    ensures var r1, r2 := Predict(symbol, models, closes, now1, predict), Predict(symbol, models, closes, now2, predict);
      r1.Predicted? == r2.Predicted? && (r1.Predicted? ==> r1.value == r2.value)
  {
  }

  /** A prediction is made exactly when the model exists and there are at
      least two closes; a one-row download reaches the model with an
      undefined Return, where app.py reports insufficient data. */
  lemma PredictOutcomes(symbol: string, models: map<string, Model>, closes: seq<Price>, now: App.Instant,
                        predict: (Model, FeatureVec) -> real)
    ensures var r := Predict(symbol, models, closes, now, predict);
      && (r.ModelMissing? <==> ModelPath(symbol) !in models)
      && (r == NoRows <==> ModelPath(symbol) in models && |closes| == 0)
      && (r == UndefinedReturn <==> ModelPath(symbol) in models && |closes| == 1)
      && (r.Predicted? <==> ModelPath(symbol) in models && |closes| >= 2)
      && (r.Predicted? ==> r.value == predict(models[ModelPath(symbol)], VecAt(closes, |closes| - 1))
                           && r.forToday == App.IsMarketOpen(now))
  {
  }

  /** Given the same download, model files and time, this predictor and
      app.py's handler predict the same value for `symbol.JK`. */
  lemma AgreesWithServing(symbol: string, models: map<string, Model>, closes: seq<Price>, now: App.Instant,
                          predict: (Model, FeatureVec) -> real)
    requires App.Predict(Ticker(symbol), models, closes, now, predict).Rendered?
    ensures Predict(symbol, models, closes, now, predict) ==
      Predicted(App.Predict(Ticker(symbol), models, closes, now, predict).forecast.prediction, App.IsMarketOpen(now))
  {
    PathsAgree(symbol);
    App.PredictFailures(Ticker(symbol), models, closes, now, predict);
    App.PredictForecast(Ticker(symbol), models, closes, now, predict);
    PredictOutcomes(symbol, models, closes, now, predict);
  }
}
