/** The tables of the COVID-19 dashboard: the wide per-date-column input
    tables, the long rows they are melted into, the joined per-province rows
    and the per-country daily totals the dashboard filters. Dates are
    ordinal day numbers (parsing the column headers is not modelled) and
    counts are unbounded integers. */
module Table {

  /** A calendar date as an ordinal day number. */
  type Day = int

  datatype Option<+T> = None | Some(value: T)

  /** The identity columns of one input row: province or state (missing for
      rows that cover a whole country), country or region, latitude and
      longitude. */
  datatype Location = Location(province: Option<string>, country: string, lat: real, long: real)

  /** One row of a wide input table: identity columns and one cumulative
      count per date column. */
  datatype WideRow = WideRow(loc: Location, cells: seq<int>)

  /** A wide input table: the date column headers and the rows. */
  datatype WideTable = WideTable(dates: seq<Day>, rows: seq<WideRow>) {
    /** Every row has exactly one cell per date column, as in a data frame. */
    predicate Rectangular() {
      forall i :: 0 <= i < |rows| ==> |rows[i].cells| == |dates|
    }
  }

  /** One row of a long table: identity columns, one date and that date's count. */
  datatype LongRow = LongRow(loc: Location, date: Day, value: int)

  /** The merge key: country, province and date. */
  datatype JoinKey = JoinKey(country: string, province: Option<string>, date: Day)

  function KeyOf(r: LongRow): JoinKey {
    JoinKey(r.loc.country, r.loc.province, r.date)
  }

  /** The three count columns carried from the merge onwards. */
  datatype Counts = Counts(confirmed: int, deaths: int, recovered: int)

  datatype Metric = Confirmed | Deaths | Recovered

  /** The count of one metric. */
  function Get(c: Counts, m: Metric): int {
    match m
    case Confirmed => c.confirmed
    case Deaths => c.deaths
    case Recovered => c.recovered
  }

  /** A row of the merged table: one province on one date with all three counts. */
  datatype JoinedRow = JoinedRow(loc: Location, date: Day, counts: Counts)

  /** A row of the per-country table: one country on one date. */
  datatype CountryDay = CountryDay(country: string, date: Day, counts: Counts)

  /** The group-by key: country and date. */
  datatype GroupKey = GroupKey(country: string, date: Day)

  function GroupOf(r: CountryDay): GroupKey {
    GroupKey(r.country, r.date)
  }

  /** No two rows share a (country, date) key. */
  predicate UniqueKeys(rows: seq<CountryDay>) {
    forall i, j :: 0 <= i < j < |rows| ==> GroupOf(rows[i]) != GroupOf(rows[j])
  }

  /** The (country, date) keys present in a table. */
  function KeySet(rows: seq<CountryDay>): set<GroupKey> {
    set r | r in rows :: GroupOf(r)
  }

  function Max(a: int, b: int): int {
    if a < b then b else a
  }

  function Min(a: int, b: int): int {
    if a < b then a else b
  }
}
