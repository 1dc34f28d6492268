/**
 * train_models.py: for each processed sheet, pair every row's features
 * with the next row's close, fit a seeded random forest unless no example
 * is left, and save it as `models/<sheet name with .xlsx replaced by
 * _model.pkl>`.
 */
module TrainModels {
  import opened Wrappers
  import opened Features
  import opened Strings
  import opened Storage
  import DownloadData
  import App

  const Files: seq<string> := [
    "data/ADRO.JK.xlsx", "data/ASII.JK.xlsx", "data/BBCA.JK.xlsx", "data/BBNI.JK.xlsx", "data/BBRI.JK.xlsx",
    "data/BMRI.JK.xlsx", "data/ICBP.JK.xlsx", "data/PTBA.JK.xlsx", "data/TLKM.JK.xlsx", "data/TOWR.JK.xlsx"
  ]

  /** `data[['Close', 'EMA_10', 'Return']]`: one feature vector per row. */
  function FeatureColumns(sheet: Sheet): (x: seq<FeatureVec>)
    ensures |x| == |sheet|
  {
    seq(|sheet|, i requires 0 <= i < |sheet| => FeatureVec(sheet[i].bar.close, sheet[i].ema10, sheet[i].ret))
  }

  /** `X.iloc[:-1]`. */
  function Inputs(sheet: Sheet): seq<FeatureVec>
  {
    if |sheet| == 0 then [] else FeatureColumns(sheet)[..|sheet| - 1]
  }

  /** `data['Close'].shift(-1)`: each row gets the next row's close, the
      last row NaN. */
  function ShiftUp(sheet: Sheet): (s: seq<Option<real>>)
    ensures |s| == |sheet|
  {
    seq(|sheet|, i requires 0 <= i < |sheet| => if i + 1 < |sheet| then Some(sheet[i + 1].bar.close as real) else None)
  }

  /** `data['Close'].shift(-1).dropna()`. */
  function Labels(sheet: Sheet): seq<real>
  {
    DropNa(ShiftUp(sheet))
  }

  /** For a sheet of n rows, X is rows 0..n-2 and `y[i]` is the close of
      row i+1: both have n-1 entries. */
  lemma ExamplesPairing(sheet: Sheet)
    ensures |Inputs(sheet)| == |Labels(sheet)| == if |sheet| == 0 then 0 else |sheet| - 1
    ensures forall i :: 0 <= i < |Inputs(sheet)| ==>
      Inputs(sheet)[i] == FeatureVec(sheet[i].bar.close, sheet[i].ema10, sheet[i].ret)
      && Labels(sheet)[i] == sheet[i + 1].bar.close as real
  {
    var s := ShiftUp(sheet);
    if |sheet| > 0 {
      var init := s[..|s| - 1];
      assert forall i :: 0 <= i < |init| ==> init[i].Some?;
      DropNaAllDefined(init);
      assert Labels(sheet) == DropNa(init);
    }
  }

  /** `train_test_split(..., test_size=0.2)` puts `ceil(0.2 * n)` of n
      examples in the test set and the rest in the training set. */
  function TestCount(n: nat): nat
  {
    (n + 4) / 5
  }

  function TrainCount(n: nat): int
  {
    n - TestCount(n)
  }

  /** Of all non-empty example sets, only a single example leaves the
      training set empty, which makes the split raise `ValueError`. */
  lemma EmptyTrainSetIffOneExample(n: nat)
    requires n >= 1
    ensures TestCount(n) <= n
    ensures TrainCount(n) == 0 <==> n == 1
  {
    if n >= 2 {
      assert 5 * TestCount(n) <= n + 4;
    }
  }

  /** The result of `train_model`: nothing when no example is left, a
      rejected split when the training set would be empty, otherwise the
      forest determined by the examples given to the seeded split. */
  datatype Training = NoTrainingData | SplitRejected | Trained(model: Model)

  function TrainModel(sheet: Sheet): Training
  {
    var x := Inputs(sheet);
    if |x| < 1 then NoTrainingData
    else if TrainCount(|x|) == 0 then SplitRejected
    else Trained(Forest(x, Labels(sheet)))
  }

  /** No model is trained from a sheet with fewer than two rows, the split
      rejects a sheet of exactly two rows, and any other sheet yields the
      forest determined by its n-1 examples (fitted on the split's training
      part of `TrainCount(n - 1)` of them), the same one every time. */
  lemma TrainModelGuard(sheet: Sheet)
    ensures TrainModel(sheet) == NoTrainingData <==> |sheet| <= 1
    ensures TrainModel(sheet) == SplitRejected <==> |sheet| == 2
    ensures TrainModel(sheet).Trained? <==> |sheet| >= 3
    ensures TrainModel(sheet).Trained? ==>
      |TrainModel(sheet).model.inputs| == |TrainModel(sheet).model.labels| == |sheet| - 1
  {
    ExamplesPairing(sheet);
    if |sheet| >= 2 {
      EmptyTrainSetIffOneExample(|sheet| - 1);
    }
  }

  /** `file_path.split('/')[-1].replace('.xlsx', '_model.pkl')`. */
  function ModelName(path: string): string
  {
    ReplaceAll(LastComponent(path), ".xlsx", "_model.pkl")
  }

  /** `f'models/{model_name}'`. */
  function ArtifactPath(path: string): string
  {
    "models/" + ModelName(path)
  }

  /** The model name is a plain file name, so every artifact lies
      directly in `models/`. */
  lemma ModelNameIsPlain(path: string)
    ensures '/' !in ModelName(path)
  {
    LastComponentIsFinal(path);
    ReplaceAllKeepsNoSlash(LastComponent(path), ".xlsx", "_model.pkl");
  }

  /** For `folder/T.xlsx` the artifact is `models/T_model.pkl`, the path
      app.py loads for symbol T. */
  lemma ArtifactOfSheet(folder: string, t: string)
    requires NameSafe(t)
    ensures ModelName(folder + "/" + t + ".xlsx") == t + "_model.pkl"
    ensures ArtifactPath(folder + "/" + t + ".xlsx") == App.ModelPath(t)
  {
    assert '/' !in t + ".xlsx" by {
      assert forall i :: 0 <= i < |t| ==> (t + ".xlsx")[i] == t[i];
    }
    assert folder + "/" + t + ".xlsx" == folder + "/" + (t + ".xlsx");
    LastComponentOfJoin(folder, t + ".xlsx");
    ReplaceExtension(t, "_model.pkl");
  }

  /** What ends the script early: `read_excel` of a missing file raises
      `FileNotFoundError`, and a split with an empty training set raises
      `ValueError`. */
  datatype Failure = FileMissing | EmptyTrainSet

  /** Whether a run went through the whole list, or which file stopped it. */
  datatype RunStatus = Completed | Aborted(path: string, reason: Failure)

  /** The model files and status after training the files in list order. */
  function Run(models: map<string, Model>, sheets: map<string, Sheet>, files: seq<string>): (map<string, Model>, RunStatus)
  {
    if |files| == 0 then (models, Completed)
    else
      var (m, st) := Run(models, sheets, files[..|files| - 1]);
      var path := files[|files| - 1];
      if st.Aborted? then (m, st)
      else if path !in sheets then (m, Aborted(path, FileMissing))
      else match TrainModel(sheets[path])
        case NoTrainingData => (m, Completed)
        case SplitRejected => (m, Aborted(path, EmptyTrainSet))
        case Trained(model) => (m[ArtifactPath(path) := model], Completed)
  }

  /** `train_model(file_path)`: reports the exception that ends the
      script, if any. */
  method TrainModelFile(disk: Disk, path: string) returns (status: RunStatus)
    modifies disk
    ensures status ==
      if path !in old(disk.sheets) then Aborted(path, FileMissing)
      else if TrainModel(old(disk.sheets)[path]) == SplitRejected then Aborted(path, EmptyTrainSet)
      else Completed
    ensures disk.sheets == old(disk.sheets)
    ensures disk.models ==
      if path in old(disk.sheets) && TrainModel(old(disk.sheets)[path]).Trained?
      then old(disk.models)[ArtifactPath(path) := TrainModel(old(disk.sheets)[path]).model]
      else old(disk.models)
  {
    if path !in disk.sheets {
      return Aborted(path, FileMissing);
    }
    status := Completed;
    var data := disk.sheets[path];
    var x := Inputs(data);
    var y := Labels(data);
    if |x| < 1 {
      return;
    }
    var nTest := TestCount(|x|);
    if |x| - nTest == 0 {
      return Aborted(path, EmptyTrainSet);
    }
    disk.SaveModel(ArtifactPath(path), Forest(x, y));
  }

  /** The script's top-level loop. */
  method TrainAll(disk: Disk, files: seq<string>) returns (status: RunStatus)
    modifies disk
    ensures (disk.models, status) == Run(old(disk.models), old(disk.sheets), files)
    ensures disk.sheets == old(disk.sheets)
  {
    var i := 0;
    status := Completed;
    while i < |files|
      invariant 0 <= i <= |files|
      invariant disk.sheets == old(disk.sheets)
      invariant (disk.models, status) == Run(old(disk.models), old(disk.sheets), files[..i])
      invariant status == Completed
    {
      assert files[..i + 1][..i] == files[..i];
      var st := TrainModelFile(disk, files[i]);
      if st.Aborted? {
        status := st;
        AbortIsFinal(old(disk.models), old(disk.sheets), files, i + 1);
        return;
      }
      i := i + 1;
    }
    assert files[..|files|] == files;
  }

  /** Once a run has aborted, later files change nothing. */
  lemma {:induction false} AbortIsFinal(models: map<string, Model>, sheets: map<string, Sheet>, files: seq<string>, k: nat)
    requires k <= |files|
    requires Run(models, sheets, files[..k]).1.Aborted?
    ensures Run(models, sheets, files) == Run(models, sheets, files[..k])
    decreases |files| - k
  {
    if k < |files| {
      var n := |files|;
      var init := files[..n - 1];
      assert init[..k] == files[..k];
      AbortIsFinal(models, sheets, init, k);
    } else {
      assert files[..k] == files;
    }
  }

  /** The artifacts a run writes, which depend only on the sheets. */
  function Writes(sheets: map<string, Sheet>, files: seq<string>): map<string, Model>
  {
    Run(map[], sheets, files).0
  }

  /** A run overwrites the previous model files with what it writes, and
      its status does not depend on them. */
  lemma {:induction false} RunOverwrites(models: map<string, Model>, sheets: map<string, Sheet>, files: seq<string>)
    ensures Run(models, sheets, files).0 == models + Writes(sheets, files)
    ensures Run(models, sheets, files).1 == Run(map[], sheets, files).1
  {
    if |files| > 0 {
      var init := files[..|files| - 1];
      RunOverwrites(models, sheets, init);
      RunOverwrites(map[], sheets, init);
      assert map[] + Writes(sheets, init) == Writes(sheets, init);
    }
  }

  /** Retraining on the same sheets reproduces the same model files. */
  lemma RetrainingIsIdempotent(models: map<string, Model>, sheets: map<string, Sheet>, files: seq<string>)
    ensures Run(Run(models, sheets, files).0, sheets, files) == Run(models, sheets, files)
  {
    RunOverwrites(models, sheets, files);
    RunOverwrites(Run(models, sheets, files).0, sheets, files);
    var w := Writes(sheets, files);
    assert (models + w) + w == models + w;
  }

  /** The example rows fed to training are the feature rows app.py feeds
      to the same kind of model, in the same column order, and each label
      is the next clean close. */
  lemma TrainingRowsMatchServing(bars: seq<DownloadData.Bar>)
    ensures var c := DownloadData.Closes(DownloadData.CleanBars(bars));
      var sheet := DownloadData.Processed(bars);
      && |Inputs(sheet)| == |Labels(sheet)| == (if |c| <= 1 then 0 else |c| - 2)
      && |CleanRows(c)| == (if |c| == 0 then 0 else |c| - 1)
      && (forall i :: 0 <= i < |Inputs(sheet)| ==>
            Inputs(sheet)[i] == CleanRows(c)[i] && Labels(sheet)[i] == c[i + 2] as real)
  {
    var c := DownloadData.Closes(DownloadData.CleanBars(bars));
    var sheet := DownloadData.Processed(bars);
    DownloadData.ProcessedShape(bars);
    ExamplesPairing(sheet);
    CleanRowsAreTail(c);
    var cb := DownloadData.CleanBars(bars);
    forall i | 0 <= i < |Inputs(sheet)|
      ensures Inputs(sheet)[i] == CleanRows(c)[i] && Labels(sheet)[i] == c[i + 2] as real
    {
      assert sheet[i] == DownloadData.RowAt(cb, i + 1);
      assert sheet[i + 1] == DownloadData.RowAt(cb, i + 2);
      assert cb[i + 1].close == c[i + 1] && cb[i + 2].close == c[i + 2];
    }
  }

  /** End to end: once download_data.py has written a ticker with at
      least four complete bars and train_models.py has trained its sheet,
      the model file app.py opens for that ticker holds the forest determined
      by that sheet's examples; with exactly three the split stops the script and no
      model is written. */
  lemma DownloadedTickerIsServed(disk: map<string, Sheet>, models: map<string, Model>, t: string,
                                 bars: seq<DownloadData.Bar>)
    requires NameSafe(t)
    requires |DownloadData.CleanBars(bars)| >= 3
    ensures var sheets := DownloadData.AfterTicker(disk, DownloadData.OutputFolder, t, bars);
      var path := DownloadData.OutputFile(DownloadData.OutputFolder, t);
      var (m, st) := Run(models, sheets, [path]);
      && (|DownloadData.CleanBars(bars)| == 3 ==> st == Aborted(path, EmptyTrainSet) && m == models)
      && (|DownloadData.CleanBars(bars)| >= 4 ==>
            st == Completed && App.ModelPath(t) in m
            && m[App.ModelPath(t)] == Forest(Inputs(DownloadData.Processed(bars)), Labels(DownloadData.Processed(bars))))
  {
    var folder := DownloadData.OutputFolder;
    var path := DownloadData.OutputFile(folder, t);
    DownloadData.ProcessedShape(bars);
    TrainModelGuard(DownloadData.Processed(bars));
    assert t == [] || t[0] != '/' by {
      if t != [] { assert t[0] in t; }
    }
    DownloadData.OutputFileShape(folder, t, t);
    ArtifactOfSheet(folder, t);
    assert [path][..0] == [];
  }

  /** The script's file list is the download script's output for its
      ticker list. */
  lemma FileListsAgree()
    ensures |Files| == |DownloadData.Tickers|
    ensures forall i :: 0 <= i < |Files| ==>
      Files[i] == DownloadData.OutputFile(DownloadData.OutputFolder, DownloadData.Tickers[i])
  {
    var ts := DownloadData.Tickers;
    forall i | 0 <= i < |Files|
      ensures Files[i] == DownloadData.OutputFile(DownloadData.OutputFolder, ts[i])
    {
      assert ts[i][0] != '/';
      Strings.JoinRelative(DownloadData.OutputFolder, ts[i] + ".xlsx");
      FileEntry(i);
    }
  }

  /** Each entry of the file list names one ticker's workbook. */
  lemma FileEntry(i: nat)
    requires i < |Files| == |DownloadData.Tickers|
    ensures Files[i] == DownloadData.OutputFolder + "/" + (DownloadData.Tickers[i] + ".xlsx")
  {
    if i < 5 { FileEntryFirstHalf(i); } else { FileEntrySecondHalf(i); }
  }

  /** Entries 0 to 4. */
  lemma FileEntryFirstHalf(i: nat)
    requires i < 5
    ensures Files[i] == DownloadData.OutputFolder + "/" + (DownloadData.Tickers[i] + ".xlsx")
  {
  }

  /** Entries 5 to 9. */
  lemma FileEntrySecondHalf(i: nat)
    requires 5 <= i < 10
    ensures Files[i] == DownloadData.OutputFolder + "/" + (DownloadData.Tickers[i] + ".xlsx")
  {
  }

  /** The download script's tickers are exactly app.py's stocks. */
  lemma TickersAreStocks()
    ensures forall i :: 0 <= i < |DownloadData.Tickers| ==> DownloadData.Tickers[i] in App.Stocks
    ensures forall s :: s in App.Stocks ==> s in DownloadData.Tickers
  {
  }
}
