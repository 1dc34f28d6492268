/**
 * What the scripts leave on disk: processed Excel sheets under `data/`
 * (written by download_data.py, read by train_models.py) and pickled
 * models under `models/` (written by train_models.py, loaded by app.py and
 * test_predict.py). Files are keyed by path.
 */
module Storage {
  import opened Features

  /** A downloaded daily bar with every column defined. */
  datatype CleanBar = CleanBar(date: int, open: real, high: real, low: real, close: Price, volume: real)

  /** A row of a processed sheet: the bar plus its EMA_10 and Return. */
  datatype ProcessedRow = ProcessedRow(bar: CleanBar, ema10: real, ret: real)

  type Sheet = seq<ProcessedRow>

  /** A trained forest. `RandomForestRegressor(n_estimators=100,
      random_state=42)` fitted after `train_test_split(test_size=0.2,
      random_state=42)` is a deterministic function of the examples, so the
      examples identify the model; what it predicts is left abstract. */
  datatype Model = Forest(inputs: seq<FeatureVec>, labels: seq<real>)

  class Disk {
    var sheets: map<string, Sheet>
    var models: map<string, Model>

    constructor ()
      ensures sheets == map[] && models == map[]
    {
      sheets := map[];
      models := map[];
    }

    /** `to_excel(path)`: creates or overwrites one sheet file. */
    method WriteSheet(path: string, sheet: Sheet)
      modifies this
      ensures sheets == old(sheets)[path := sheet]
      ensures models == old(models)
    {
      sheets := sheets[path := sheet];
    }

    /** `joblib.dump(model, path)`: creates or overwrites one model file. */
    method SaveModel(path: string, model: Model)
      modifies this
      ensures models == old(models)[path := model]
      ensures sheets == old(sheets)
    {
      models := models[path := model];
    }
  }
}
