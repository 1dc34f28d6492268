/**
 * The feature engine shared by the serving path (app.py), the data
 * preparation script (download_data.py) and the command-line predictor
 * (test_predict.py): the EMA-10 column `ewm(span=10, adjust=False).mean()`,
 * the `pct_change()` Return column, and `dropna` over optional entries.
 */
module Features {
  import opened Wrappers

  /** A closing price. Quoted closes are positive; zero or negative closes,
      for which pandas would divide by zero, are outside the model. */
  type Price = r: real | r > 0.0 witness 1.0

  /** The three model inputs, in the column order `Close, EMA_10, Return`. */
  datatype FeatureVec = FeatureVec(close: real, ema10: real, ret: real)

  /** A row of the frame after the EMA_10 and Return columns are added;
      `ret` is `None` where pandas holds NaN. */
  datatype Row = Row(close: Price, ema10: real, ret: Option<real>)

  /** The smoothing factor `2 / (span + 1)` of span 10. */
  const Alpha: real := 2.0 / 11.0

  /** One step of the unadjusted exponential moving average. */
  function EmaStep(prev: real, x: real): real
  {
    Alpha * x + (1.0 - Alpha) * prev
  }

  /** `ewm(span=10, adjust=False).mean()` at position t: seeded with the
      first close, then one `EmaStep` per later close. */
  function EmaAt(c: seq<Price>, t: nat): real
    requires t < |c|
    decreases t
  {
    if t == 0 then c[0] else EmaStep(EmaAt(c, t - 1), c[t])
  }

  /** `pct_change()` at position t: undefined at the first row. */
  function ReturnAt(c: seq<Price>, t: nat): Option<real>
    requires t < |c|
  {
    if t == 0 then None else Some((c[t] as real - c[t - 1]) / c[t - 1])
  }

  /** The frame's three feature columns after lines like
      `data['EMA_10'] = ...` and `data['Return'] = ...`. */
  function FeatureTable(c: seq<Price>): (rows: seq<Row>)
    ensures |rows| == |c|
  {
    seq(|c|, t requires 0 <= t < |c| => Row(c[t], EmaAt(c, t), ReturnAt(c, t)))
  }

  /** A row with every field defined, or `None` when `dropna` removes it. */
  function Complete(r: Row): Option<FeatureVec>
  {
    match r.ret
    case None => None
    case Some(x) => Some(FeatureVec(r.close, r.ema10, x))
  }

  /** `dropna` over a sequence of optional entries: keeps the defined ones,
      in order. */
  function DropNa<T>(s: seq<Option<T>>): seq<T>
  {
    if |s| == 0 then []
    else DropNa(s[..|s| - 1]) + (if s[|s| - 1].Some? then [s[|s| - 1].value] else [])
  }

  /** The positions of `s` that `DropNa` keeps. */
  function DropNaIndices<T>(s: seq<Option<T>>): seq<nat>
  {
    if |s| == 0 then []
    else DropNaIndices(s[..|s| - 1]) + (if s[|s| - 1].Some? then [|s| - 1] else [])
  }

  /** The feature rows that survive `dropna(subset=['Close','EMA_10','Return'])`. */
  function CleanRows(c: seq<Price>): seq<FeatureVec>
  {
    DropNa(seq(|c|, t requires 0 <= t < |c| => Complete(FeatureTable(c)[t])))
  }

  /** The complete feature vector at position t >= 1. */
  function VecAt(c: seq<Price>, t: nat): (v: FeatureVec)
    requires 1 <= t < |c|
  {
    FeatureVec(c[t], EmaAt(c, t), (c[t] as real - c[t - 1]) / c[t - 1])
  }

  // ---------------------------------------------------------------- EMA

  /** Kept row t's EMA depends only on closes 0..t: the recursion is run
      from the first close through close t, whatever follows. */
  lemma {:induction false} EmaPrefix(c: seq<Price>, k: nat, t: nat)
    requires t < k <= |c|
    ensures EmaAt(c[..k], t) == EmaAt(c, t)
    decreases t
  {
    if t > 0 {
      EmaPrefix(c, k, t - 1);
    }
  }

  /** The smallest close among c[0..t]. */
  function MinUpTo(c: seq<Price>, t: nat): (m: real)
    requires t < |c|
    ensures forall j :: 0 <= j <= t ==> m <= c[j]
    ensures exists j :: 0 <= j <= t && m == c[j]
    decreases t
  {
    if t == 0 then c[0]
    else var m := MinUpTo(c, t - 1); if c[t] < m then c[t] else m
  }

  /** The largest close among c[0..t]. */
  function MaxUpTo(c: seq<Price>, t: nat): (m: real)
    requires t < |c|
    ensures forall j :: 0 <= j <= t ==> c[j] <= m
    ensures exists j :: 0 <= j <= t && m == c[j]
    decreases t
  {
    if t == 0 then c[0]
    else var m := MaxUpTo(c, t - 1); if c[t] > m then c[t] else m
  }

  /** The EMA always lies between the smallest and largest close seen so
      far: each step is a convex combination. */
  lemma {:induction false} EmaBounded(c: seq<Price>, t: nat)
    requires t < |c|
    ensures MinUpTo(c, t) <= EmaAt(c, t) <= MaxUpTo(c, t)
    decreases t
  {
    if t > 0 {
      EmaBounded(c, t - 1);
      BoundsWiden(c, t);
      var lo, hi, e := MinUpTo(c, t), MaxUpTo(c, t), EmaAt(c, t - 1);
      ConvexStep(lo, hi, e, c[t]);
      assert EmaAt(c, t) == EmaStep(e, c[t]);
    }
  }

  /** Taking one more close in can only widen the range. */
  lemma BoundsWiden(c: seq<Price>, t: nat)
    requires 0 < t < |c|
    ensures MinUpTo(c, t) <= MinUpTo(c, t - 1) && MinUpTo(c, t) <= c[t]
    ensures MaxUpTo(c, t - 1) <= MaxUpTo(c, t) && c[t] <= MaxUpTo(c, t)
  {
  }

  /** One EMA step stays inside any interval holding both of its inputs. */
  lemma ConvexStep(lo: real, hi: real, e: real, x: real)
    requires lo <= e <= hi && lo <= x <= hi
    ensures lo <= EmaStep(e, x) <= hi
  {
  }

  /** The EMA of a constant series is that constant. */
  lemma {:induction false} EmaOfConstant(c: seq<Price>, x: Price, t: nat)
    requires t < |c|
    requires forall j :: 0 <= j < |c| ==> c[j] == x
    ensures EmaAt(c, t) == x
  {
    EmaBounded(c, t);
    assert MinUpTo(c, t) == x && MaxUpTo(c, t) == x by {
      var i :| 0 <= i <= t && MinUpTo(c, t) == c[i];
      var j :| 0 <= j <= t && MaxUpTo(c, t) == c[j];
    }
  }

  /** The weight `1 - alpha` that carries the previous average. */
  const Beta: real := 1.0 - Alpha

  function Pow(b: real, k: nat): real
  {
    if k == 0 then 1.0 else b * Pow(b, k - 1)
  }

  /** The sum over i = 1..j of `alpha * beta^(t-i) * c[i]`. */
  function WeightedTail(c: seq<Price>, t: nat, j: nat): real
    requires j <= t < |c|
    decreases j
  {
    if j == 0 then 0.0 else WeightedTail(c, t, j - 1) + Alpha * Pow(Beta, t - j) * c[j]
  }

  /** The explicit form of the unadjusted EMA: the first close weighted by
      `beta^t`, each later close i by `alpha * beta^(t-i)`. */
  function EmaWeighted(c: seq<Price>, t: nat): real
    requires t < |c|
  {
    Pow(Beta, t) * c[0] + WeightedTail(c, t, t)
  }

  /** Moving the end one step further multiplies every earlier weight by beta. */
  lemma {:induction false} WeightedTailShift(c: seq<Price>, t: nat, j: nat)
    requires j <= t && t + 1 < |c|
    ensures WeightedTail(c, t + 1, j) == Beta * WeightedTail(c, t, j)
    decreases j
  {
    if j > 0 {
      WeightedTailShift(c, t, j - 1);
      var p := Pow(Beta, t - j);
      assert Pow(Beta, t + 1 - j) == Beta * p;
      assert Alpha * (Beta * p) * c[j] == Beta * (Alpha * p * c[j]);
    }
  }

  /** The recursion computes the explicit weighted sum. */
  lemma {:induction false} EmaClosedForm(c: seq<Price>, t: nat)
    requires t < |c|
    ensures EmaAt(c, t) == EmaWeighted(c, t)
    decreases t
  {
    if t > 0 {
      EmaClosedForm(c, t - 1);
      WeightedTailShift(c, t - 1, t - 1);
      var p := Pow(Beta, t - 1);
      assert Pow(Beta, t) == Beta * p;
      assert WeightedTail(c, t, t) == Beta * WeightedTail(c, t - 1, t - 1) + Alpha * c[t];
      assert Beta * (p * c[0]) == (Beta * p) * c[0];
    }
  }

  /** The EMA column has one entry per close, is seeded with the first
      close, and follows the alpha = 2/11 recursion at every later row. */
  lemma EmaColumn(c: seq<Price>)
    ensures |FeatureTable(c)| == |c|
    ensures |c| > 0 ==> FeatureTable(c)[0].ema10 == c[0]
    ensures forall t :: 1 <= t < |c| ==>
      FeatureTable(c)[t].ema10 == (2.0 / 11.0) * c[t] + (9.0 / 11.0) * FeatureTable(c)[t - 1].ema10
  {
  }

  /** Return is undefined exactly at index 0, and elsewhere is the simple
      return over the preceding close; it lets one rebuild the close. */
  lemma ReturnColumn(c: seq<Price>, t: nat)
    requires t < |c|
    ensures ReturnAt(c, t).None? <==> t == 0
    ensures t >= 1 ==> ReturnAt(c, t) == Some((c[t] as real - c[t - 1]) / c[t - 1])
    ensures t >= 1 ==> c[t] == c[t - 1] * (1.0 + ReturnAt(c, t).value)
  {
  }

  // ------------------------------------------------------------- dropna

  /** `DropNa` keeps exactly the defined entries, at increasing positions,
      and loses none. */
  lemma {:induction false} DropNaKeepsDefined<T>(s: seq<Option<T>>)
    ensures |DropNaIndices(s)| == |DropNa(s)|
    ensures forall k :: 0 <= k < |DropNa(s)| ==>
      DropNaIndices(s)[k] < |s| && s[DropNaIndices(s)[k]] == Some(DropNa(s)[k])
    ensures forall k, l :: 0 <= k < l < |DropNaIndices(s)| ==> DropNaIndices(s)[k] < DropNaIndices(s)[l]
    ensures forall i :: 0 <= i < |s| && s[i].Some? ==> i in DropNaIndices(s)
  {
    if |s| > 0 {
      var p := s[..|s| - 1];
      DropNaKeepsDefined(p);
      assert forall i :: 0 <= i < |p| ==> s[i] == p[i];
    }
  }

  /** When every entry is defined, `DropNa` is the identity on the values. */
  lemma {:induction false} DropNaAllDefined<T>(s: seq<Option<T>>)
    requires forall i :: 0 <= i < |s| ==> s[i].Some?
    ensures |DropNa(s)| == |s|
    ensures forall i :: 0 <= i < |s| ==> DropNa(s)[i] == s[i].value
  {
    if |s| > 0 {
      DropNaAllDefined(s[..|s| - 1]);
    }
  }

  /** When only the first entry is undefined, `DropNa` keeps entries
      1..n-1 in order. */
  lemma DropNaFirstUndefined<T>(s: seq<Option<T>>)
    requires |s| > 0 && s[0].None?
    requires forall i :: 1 <= i < |s| ==> s[i].Some?
    ensures |DropNa(s)| == |s| - 1
    ensures forall k :: 0 <= k < |s| - 1 ==> DropNa(s)[k] == s[k + 1].value
  {
    var head, tail := s[..1], s[1..];
    assert head + tail == s;
    DropNaAppend(head, tail);
    assert head[..0] == [];
    assert DropNa(head) == [];
    DropNaAllDefined(tail);
  }

  /** `DropNa` over a sequence extended by one entry. */
  lemma DropNaSnoc<T>(s: seq<Option<T>>, o: Option<T>)
    ensures DropNa(s + [o]) == DropNa(s) + (if o.Some? then [o.value] else [])
  {
    assert (s + [o])[..|s|] == s;
  }

  /** `DropNa` distributes over concatenation. */
  lemma {:induction false} DropNaAppend<T>(a: seq<Option<T>>, b: seq<Option<T>>)
    ensures DropNa(a + b) == DropNa(a) + DropNa(b)
    decreases |b|
  {
    if |b| > 0 {
      var b' := b[..|b| - 1];
      assert (a + b)[..|a + b| - 1] == a + b';
      DropNaAppend(a, b');
    } else {
      assert a + b == a;
    }
  }

  /** After `dropna`, the clean table is the original rows 1..n-1 in order;
      it is empty exactly when there are at most one close. */
  lemma CleanRowsAreTail(c: seq<Price>)
    ensures |CleanRows(c)| == if |c| == 0 then 0 else |c| - 1
    ensures forall k :: 0 <= k < |CleanRows(c)| ==> CleanRows(c)[k] == VecAt(c, k + 1)
    ensures CleanRows(c) == [] <==> |c| <= 1
  {
    var s := seq(|c|, t requires 0 <= t < |c| => Complete(FeatureTable(c)[t]));
    if |c| > 0 {
      DropNaFirstUndefined(s);
    }
  }
}
