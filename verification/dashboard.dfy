/** The whole data path of the dashboard: the three wide tables are melted,
    merged and grouped once into the per-country table; each change of the
    country or of the date range then recomputes the window, its daily
    columns and the prediction trace from that table. */
module Dashboard {
  import opened Table
  import opened Reshape
  import opened Join
  import opened Aggregate
  import opened Selection
  import opened Deltas
  import opened TrainTest

  /** The per-country table built from the confirmed, deaths and recovered
      wide tables. */
  function BuildTable(confirmed: WideTable, deaths: WideTable, recovered: WideTable): (t: seq<CountryDay>)
    requires confirmed.Rectangular() && deaths.Rectangular() && recovered.Rectangular()
    ensures UniqueKeys(t)
  {
    PerCountry(JoinAll(Melt(confirmed), Melt(deaths), Melt(recovered)))
  }

  /** A (country, date) is present in the per-country table exactly when
      some province has all three counts for it. */
  predicate Reported(cs: seq<LongRow>, ds: seq<LongRow>, vs: seq<LongRow>, k: GroupKey) {
    exists c, d, v :: c in cs && d in ds && v in vs && KeyOf(d) == KeyOf(c) && KeyOf(v) == KeyOf(c)
                      && k == GroupKey(c.loc.country, c.date)
  }

  /** The per-country table has a row for a (country, date) exactly when some
      province of that country has a confirmed, a deaths and a recovered
      count for that date. */
  lemma {:induction false} BuildTableKeys(confirmed: WideTable, deaths: WideTable, recovered: WideTable, k: GroupKey)
    requires confirmed.Rectangular() && deaths.Rectangular() && recovered.Rectangular()
    ensures k in KeySet(BuildTable(confirmed, deaths, recovered))
            <==> Reported(Melt(confirmed), Melt(deaths), Melt(recovered), k)
  {
    var cs, ds, vs := Melt(confirmed), Melt(deaths), Melt(recovered);
    var t := BuildTable(confirmed, deaths, recovered);
    assert t == PerCountry(JoinAll(cs, ds, vs));
    if k in KeySet(t) {
      PresentKeyReported(cs, ds, vs, k);
    }
    if Reported(cs, ds, vs, k) {
      ReportedKeyPresent(cs, ds, vs, k);
    }
  }

  lemma PresentKeyReported(cs: seq<LongRow>, ds: seq<LongRow>, vs: seq<LongRow>, k: GroupKey)
    requires k in KeySet(PerCountry(JoinAll(cs, ds, vs)))
    ensures Reported(cs, ds, vs, k)
  {
    var joined := JoinAll(cs, ds, vs);
    var x :| x in joined && GroupOf(Project(x)) == k;
    JoinMembership(cs, ds, vs, x);
    var c, d, v :| c in cs && d in ds && v in vs && KeyOf(d) == KeyOf(c) && KeyOf(v) == KeyOf(c)
                   && x == Combine(c, d, v);
    assert k == GroupKey(c.loc.country, c.date);
  }

  lemma ReportedKeyPresent(cs: seq<LongRow>, ds: seq<LongRow>, vs: seq<LongRow>, k: GroupKey)
    requires Reported(cs, ds, vs, k)
    ensures k in KeySet(PerCountry(JoinAll(cs, ds, vs)))
  {
    var c, d, v :| c in cs && d in ds && v in vs && KeyOf(d) == KeyOf(c) && KeyOf(v) == KeyOf(c)
                   && k == GroupKey(c.loc.country, c.date);
    JoinMembership(cs, ds, vs, Combine(c, d, v));
    assert GroupOf(Project(Combine(c, d, v))) == k;
  }

  /** What one callback produces: the window with its daily columns and the
      prediction trace. */
  datatype View = View(rows: seq<DailyRow>, forecast: seq<(Day, real)>)

  /** A recomputation either renders its view or fails, when the window is
      too short to leave a training row after the held-out rows. */
  datatype Outcome = Rendered(view: View) | EmptyTrainingSet

  /** One recomputation for a country and an inclusive index range: the
      window, its daily columns, the held-out split and the prediction trace.
      fit stands for the least-squares fit: it maps the training points to
      the fitted line. */
  function Update(t: seq<CountryDay>, country: string, first: int, last: int,
                  fit: seq<(Day, int)> -> (Day -> real)): (o: Outcome)
    ensures o.Rendered? <==> |Window(t, country, first, last)| >= 2
    ensures o.Rendered? ==> |o.view.rows| == |Window(t, country, first, last)|
    ensures o.Rendered? ==> |o.view.forecast| == HeldOut(|o.view.rows|) < |o.view.rows|
    ensures o.Rendered? ==> o.view.rows == Derive(Window(t, country, first, last))
  {
    var rows := Derive(Window(t, country, first, last));
    var k := HeldOut(|rows|);
    SplitAcceptedIffTwoRows(|rows|);
    if !SplitAccepted(|rows|) then EmptyTrainingSet
    else
      var predict := fit(TrainingPoints(rows, k));
      Rendered(View(rows, ForecastTrace(rows, k, predict)))
  }

  /** Every row shown belongs to the chosen country and carries the counts
      of a row of the per-country table. */
  lemma {:induction false} UpdateRowsOfCountry(t: seq<CountryDay>, country: string, first: int, last: int,
                            fit: seq<(Day, int)> -> (Day -> real))
    requires |Window(t, country, first, last)| >= 2
    ensures forall r :: r in Update(t, country, first, last, fit).view.rows ==>
              r.day in t && r.day.country == country
  {
    var w := Window(t, country, first, last);
    DerivedRowsOfCountry(t, country, w);
  }

  lemma {:induction false} DerivedRowsOfCountry(t: seq<CountryDay>, country: string, w: seq<CountryDay>)
    requires forall x :: x in w ==> x in t && x.country == country
    ensures forall r :: r in Derive(w) ==> r.day in t && r.day.country == country
  {
    var rows := Derive(w);
    forall r | r in rows ensures r.day in t && r.day.country == country {
      var i :| 0 <= i < |rows| && rows[i] == r;
      assert r.day == w[i] && w[i] in w;
    }
  }

  /** With unique (country, date) keys the rows shown are in strictly
      ascending date order. */
  lemma {:induction false} UpdateChronological(t: seq<CountryDay>, country: string, first: int, last: int,
                            fit: seq<(Day, int)> -> (Day -> real))
    requires UniqueKeys(t)
    requires |Window(t, country, first, last)| >= 2
    ensures Chronological(Update(t, country, first, last, fit).view.rows)
  {
    WindowStrict(t, country, first, last);
  }

  /** Every metric's daily column sums, up to any row shown, to that row's
      cumulative count. */
  lemma {:induction false} UpdateReconstructs(t: seq<CountryDay>, country: string, first: int, last: int,
                           fit: seq<(Day, int)> -> (Day -> real))
    requires |Window(t, country, first, last)| >= 2
    ensures var rows := Update(t, country, first, last, fit).view.rows;
            forall m, i :: 0 <= i < |rows| ==> Sum(DailyColumn(rows, m)[..i + 1]) == Get(rows[i].day.counts, m)
  {
    DeriveReconstructsAll(Window(t, country, first, last));
  }

  /** The prediction trace is drawn at the dates of the last rows shown, one
      point per held-out row, each at the value the line fitted on the
      earlier rows gives for its date. */
  lemma {:induction false} UpdateForecastDates(t: seq<CountryDay>, country: string, first: int, last: int,
                            fit: seq<(Day, int)> -> (Day -> real))
    requires |Window(t, country, first, last)| >= 2
    ensures var v := Update(t, country, first, last, fit).view;
            var k := |v.forecast|;
            var line := fit(TrainingPoints(v.rows, k));
            forall i :: 0 <= i < k ==>
              v.forecast[i] == (v.rows[|v.rows| - k + i].day.date, line(v.rows[|v.rows| - k + i].day.date))
  {
    var w := Window(t, country, first, last);
    var v := Update(t, country, first, last, fit).view;
    var k := HeldOut(|w|);
    var line := fit(TrainingPoints(v.rows, k));
    ForecastAtLastDays(v.rows, w, k, line);
    forall i | 0 <= i < k
      ensures v.forecast[i] == (v.rows[|w| - k + i].day.date, line(v.rows[|w| - k + i].day.date))
    {
      assert v.rows[|w| - k + i].day == w[|w| - k + i];
    }
  }
}
