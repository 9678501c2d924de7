/** The unshuffled train/test partition behind the trend projection. The
    last rows of the window are held out in order; the fitted line is
    evaluated on the held-out rows' dates and drawn from the first held-out
    date onwards. A fifth of the rows, rounded up, is held out. The
    least-squares fit and its floating-point predictions are parameters
    here. */
module TrainTest {
  import opened Table
  import opened Deltas

  datatype Partition<T> = Partition(train: seq<T>, test: seq<T>)

  /** The number of held-out rows for a test fraction of 0.2: the fraction of
      the row count rounded up, that is the least k with 5 * k >= n. */
  function HeldOut(n: nat): (k: nat)
    ensures n <= 5 * k < n + 5
  {
    (n + 4) / 5
  }

  /** The split is refused when it would leave no training row. */
  predicate SplitAccepted(n: nat) {
    n - HeldOut(n) > 0
  }

  /** A split leaves a training row exactly when there are at least two rows,
      and it never holds out more rows than there are. */
  lemma {:induction false} SplitAcceptedIffTwoRows(n: nat)
    ensures HeldOut(n) <= n
    ensures SplitAccepted(n) <==> n >= 2
  {
    var k := HeldOut(n);
    if n >= 2 {
      assert 5 * k < n + 5;
    } else {
      assert k == n;
    }
  }

  /** An unshuffled split: the last testSize rows form the test part. */
  function OrderedSplit<T>(s: seq<T>, testSize: nat): (p: Partition<T>)
    requires testSize <= |s|
    ensures p.train + p.test == s
    ensures |p.test| == testSize
  {
    Partition(s[..|s| - testSize], s[|s| - testSize..])
  }

  /** The dates of window rows. */
  function Dates(rows: seq<DailyRow>): (ds: seq<Day>)
    ensures |ds| == |rows|
    ensures forall i {:trigger ds[i]} :: 0 <= i < |rows| ==> ds[i] == rows[i].day.date
  {
    seq(|rows|, i requires 0 <= i < |rows| => rows[i].day.date)
  }

  /** The model's prediction for each row, from the row's date alone. */
  function Predictions(rows: seq<DailyRow>, predict: Day -> real): (ys: seq<real>)
    ensures |ys| == |rows|
    ensures forall i {:trigger ys[i]} :: 0 <= i < |rows| ==> ys[i] == predict(rows[i].day.date)
  {
    seq(|rows|, i requires 0 <= i < |rows| => predict(rows[i].day.date))
  }

  /** Pairs up two series of equal length position by position. */
  function Zip<A, B>(xs: seq<A>, ys: seq<B>): (ps: seq<(A, B)>)
    requires |xs| == |ys|
    ensures |ps| == |xs|
    ensures forall i {:trigger ps[i]} :: 0 <= i < |xs| ==> ps[i] == (xs[i], ys[i])
  {
    seq(|xs|, i requires 0 <= i < |xs| => (xs[i], ys[i]))
  }

  /** The points the regression is fitted on: date and daily confirmed count
      of each training row. */
  function TrainingPoints(window: seq<DailyRow>, testSize: nat): (pts: seq<(Day, int)>)
    requires testSize <= |window|
    ensures |pts| == |window| - testSize
    ensures forall i {:trigger pts[i]} :: 0 <= i < |pts| ==> pts[i] == (window[i].day.date, window[i].daily.confirmed)
  {
    var train := OrderedSplit(window, testSize).train;
    Zip(Dates(train), seq(|train|, i requires 0 <= i < |train| => train[i].daily.confirmed))
  }

  /** The prediction trace: the window's dates from the first row after the
      training rows, paired with the predictions for the test rows. Each
      plotted prediction sits at the date of the row it was computed for. */
  function ForecastTrace(window: seq<DailyRow>, testSize: nat, predict: Day -> real): (trace: seq<(Day, real)>)
    requires testSize <= |window|
    ensures |trace| == testSize
    ensures forall i {:trigger trace[i]} :: 0 <= i < |trace| ==>
              trace[i].0 == window[|window| - testSize + i].day.date
              && trace[i].1 == predict(trace[i].0)
  {
    var p := OrderedSplit(window, testSize);
    var xs := Dates(window[|p.train|..]);
    var ys := Predictions(p.test, predict);
    Zip(xs, ys)
  }

  /** The trace of any rows carrying a given series of days is drawn at the
      dates of that series' last testSize days. */
  lemma {:induction false} ForecastAtLastDays(window: seq<DailyRow>, days: seq<CountryDay>, testSize: nat, predict: Day -> real)
    requires |window| == |days| && testSize <= |days|
    requires forall j :: 0 <= j < |days| ==> window[j].day == days[j]
    ensures forall i :: 0 <= i < testSize ==>
              ForecastTrace(window, testSize, predict)[i] == (days[|days| - testSize + i].date,
                                                               predict(days[|days| - testSize + i].date))
  {
    var f := ForecastTrace(window, testSize, predict);
    forall i | 0 <= i < testSize
      ensures f[i] == (days[|days| - testSize + i].date, predict(days[|days| - testSize + i].date))
    {
      assert f[i].0 == window[|days| - testSize + i].day.date;
    }
  }

  /** Rows in strictly ascending date order. */
  predicate Chronological(rows: seq<DailyRow>) {
    forall i, j :: 0 <= i < j < |rows| ==> rows[i].day.date < rows[j].day.date
  }

  /** The regression is fitted on the earlier rows and drawn on the later
      ones: together they cover the window once, and in a chronological
      window every fitted date precedes every plotted prediction date. */
  lemma {:induction false} PointsBeforeTrace(window: seq<DailyRow>, testSize: nat, predict: Day -> real)
    requires testSize <= |window| && Chronological(window)
    ensures |TrainingPoints(window, testSize)| + |ForecastTrace(window, testSize, predict)| == |window|
    ensures forall a, b :: 0 <= a < |window| - testSize && 0 <= b < testSize ==>
              TrainingPoints(window, testSize)[a].0 < ForecastTrace(window, testSize, predict)[b].0
  {
    var pts := TrainingPoints(window, testSize);
    var trace := ForecastTrace(window, testSize, predict);
    forall a, b | 0 <= a < |window| - testSize && 0 <= b < testSize ensures pts[a].0 < trace[b].0 {
      assert pts[a].0 == window[a].day.date;
      assert trace[b].0 == window[|window| - testSize + b].day.date;
    }
  }

  /** Without shuffling, every training date precedes every test date of a
      chronological window. */
  lemma {:induction false} TrainBeforeTest(window: seq<DailyRow>, testSize: nat)
    requires testSize <= |window| && Chronological(window)
    ensures forall x, y ::
              x in OrderedSplit(window, testSize).train && y in OrderedSplit(window, testSize).test ==>
                x.day.date < y.day.date
  {
    var p := OrderedSplit(window, testSize);
    forall x, y | x in p.train && y in p.test ensures x.day.date < y.day.date {
      var i :| 0 <= i < |p.train| && p.train[i] == x;
      var j :| 0 <= j < |p.test| && p.test[j] == y;
      assert window[i] == x && window[|p.train| + j] == y;
    }
  }
}
