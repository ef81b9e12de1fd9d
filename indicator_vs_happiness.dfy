/** The data part of the "Indicator vs Happiness" view: the happiness index
    built from the survey's CSV rows, and the alignment of one country's
    happiness scores with an indicator series on a common year axis. */
module IndicatorVsHappiness {
  import opened JsSemantics

  /** Country name to year text to ladder score. */
  type HappinessIndex = map<string, map<string, real>>

  /** What one accepted CSV row contributes to the index. */
  datatype Entry = Entry(country: string, year: string, score: real)

  /** The reading of one row at the top of the builder loop: `None` when the
      row is skipped. The country must be present and non-empty, `String(Year)`
      non-empty (an absent Year is the text "undefined" and passes), and the
      ladder score must parse. */
  function ReadRow(row: Row, parseFloat: FloatParser): (e: Option<Entry>)
    ensures e.Some? <==>
              && "Country name" in row && row["Country name"] != ""
              && ("Year" in row ==> row["Year"] != "")
              && "Ladder score" in row && parseFloat(row["Ladder score"]).Some?
    ensures e.Some? ==>
              && e.value.country == row["Country name"]
              && e.value.year == (if "Year" in row then row["Year"] else "undefined")
              && parseFloat(row["Ladder score"]) == Some(e.value.score)
  {
    var cname := Field(row, "Country name");
    var year := ToJsString(Field(row, "Year"));
    var score := ParseField(parseFloat, Field(row, "Ladder score"));
    if Falsy(cname) || year == "" || score.None? then None
    else Some(Entry(cname.value, year, score.value))
  }

  /** Storing one entry: the country's inner map is created when absent, the
      year is overwritten, and nothing else changes. */
  function Put(index: HappinessIndex, e: Entry): (r: HappinessIndex)
    ensures e.country in r && e.year in r[e.country] && r[e.country][e.year] == e.score
    ensures forall c :: c != e.country ==> (c in r <==> c in index) && (c in index ==> r[c] == index[c])
    ensures e.country in index ==>
              forall y :: y != e.year ==>
                && (y in r[e.country] <==> y in index[e.country])
                && (y in index[e.country] ==> r[e.country][y] == index[e.country][y])
    ensures e.country !in index ==> r[e.country].Keys == {e.year}
  {
    var inner := if e.country in index then index[e.country] else map[];
    index[e.country := inner[e.year := e.score]]
  }

  /** The index the builder loop has made after the rows `rows`, in order. */
  function IndexOf(rows: seq<Row>, parseFloat: FloatParser): HappinessIndex
    decreases |rows|
  {
    if rows == [] then map[]
    else
      var index := IndexOf(rows[..|rows| - 1], parseFloat);
      match ReadRow(rows[|rows| - 1], parseFloat)
      case None => index
      case Some(e) => Put(index, e)
  }

  /** The builder loop of `loadHappiness`. */
  method BuildHappinessIndex(rows: seq<Row>, parseFloat: FloatParser) returns (index: HappinessIndex)
    ensures index == IndexOf(rows, parseFloat)
  {
    index := map[];
    for i := 0 to |rows|
      invariant index == IndexOf(rows[..i], parseFloat)
    {
      assert rows[..i + 1][..i] == rows[..i];
      var row := rows[i];
      var cname := Field(row, "Country name");
      var year := ToJsString(Field(row, "Year"));
      var score := ParseField(parseFloat, Field(row, "Ladder score"));
      if !(Falsy(cname) || year == "" || score.None?) {
        if cname.value !in index {
          index := index[cname.value := map[]];
        }
        index := index[cname.value := index[cname.value][year := score.value]];
      }
    }
    assert rows[..|rows|] == rows;
  }

  /** Row `row` is accepted and stores under country `c` and year `y`. */
  predicate Keyed(row: Row, parseFloat: FloatParser, c: string, y: string)
  {
    WritesKey(KeyWrite(row, parseFloat), (c, y))
  }

  /** What row `row` assigns in the index: its (country, year) key and its
      score when it is accepted, nothing otherwise. */
  function KeyWrite(row: Row, parseFloat: FloatParser): Option<((string, string), real)>
  {
    match ReadRow(row, parseFloat)
    case None => None
    case Some(e) => Some(((e.country, e.year), e.score))
  }

  /** The assignments of all rows, one per row, in order. */
  function KeyWrites(rows: seq<Row>, parseFloat: FloatParser): (writes: seq<Option<((string, string), real)>>)
    ensures |writes| == |rows|
    ensures forall i :: 0 <= i < |rows| ==> writes[i] == KeyWrite(rows[i], parseFloat)
  {
    seq(|rows|, i requires 0 <= i < |rows| => KeyWrite(rows[i], parseFloat))
  }

  /** `happinessMap[country]?.[year] ?? null`. */
  function HappinessAt(index: HappinessIndex, country: string, year: string): (r: Option<real>)
    ensures r.Some? <==> country in index && year in index[country]
    ensures r.Some? ==> r.value == index[country][year]
  {
    if country in index then OrNullish(index[country], year) else None
  }

  /** The score stored under (`c`, `y`) after one more row: that row's score
      when it stores under that key, the earlier score otherwise. */
  lemma IndexStep(rows: seq<Row>, parseFloat: FloatParser, c: string, y: string)
    requires rows != []
    ensures var last := rows[|rows| - 1];
            HappinessAt(IndexOf(rows, parseFloat), c, y) ==
              if Keyed(last, parseFloat, c, y) then Some(ReadRow(last, parseFloat).value.score)
              else HappinessAt(IndexOf(rows[..|rows| - 1], parseFloat), c, y)
  {
    var before := IndexOf(rows[..|rows| - 1], parseFloat);
    match ReadRow(rows[|rows| - 1], parseFloat)
    case None =>
    case Some(e) =>
      assert IndexOf(rows, parseFloat) == Put(before, e);
      PutLookup(before, e, c, y);
  }

  /** Looking up (`c`, `y`) after storing `e` finds `e`'s score under
      `e`'s own key and what was there before under every other key. */
  lemma PutLookup(index: HappinessIndex, e: Entry, c: string, y: string)
    ensures HappinessAt(Put(index, e), c, y) ==
              if e.country == c && e.year == y then Some(e.score) else HappinessAt(index, c, y)
  {
    var after := Put(index, e);
    if e.country != c {
      assert (c in after <==> c in index) && (c in index ==> after[c] == index[c]);
    } else if e.year != y && c in index {
      assert (y in after[c] <==> y in index[c]) && (y in index[c] ==> after[c][y] == index[c][y]);
    }
  }

  /** The assignments of a prefix of the rows are a prefix of the assignments. */
  lemma KeyWritesPrefix(rows: seq<Row>, parseFloat: FloatParser)
    requires rows != []
    ensures KeyWrites(rows, parseFloat)[..|rows| - 1] == KeyWrites(rows[..|rows| - 1], parseFloat)
  {
  }

  /** Looking up (`c`, `y`) in the nested index gives what the same
      assignments make of a flat object keyed by (country, year). */
  lemma {:induction false} IndexFlattens(rows: seq<Row>, parseFloat: FloatParser, c: string, y: string)
    ensures var flat := AssignAll(KeyWrites(rows, parseFloat));
            HappinessAt(IndexOf(rows, parseFloat), c, y) == if (c, y) in flat then Some(flat[(c, y)]) else None
    decreases |rows|
  {
    if rows != [] {
      var n := |rows|;
      var p := rows[..n - 1];
      IndexStep(rows, parseFloat, c, y);
      IndexFlattens(p, parseFloat, c, y);
      KeyWritesPrefix(rows, parseFloat);
    }
  }

  /** A (country, year) entry is in the index exactly when some accepted row
      has that key. */
  lemma IndexHasEntry(rows: seq<Row>, parseFloat: FloatParser, c: string, y: string)
    ensures HappinessAt(IndexOf(rows, parseFloat), c, y).Some? <==>
              exists i :: 0 <= i < |rows| && Keyed(rows[i], parseFloat, c, y)
  {
    IndexFlattens(rows, parseFloat, c, y);
    AssignAllHasKey(KeyWrites(rows, parseFloat), (c, y));
  }

  /** Row `i` is the last of `rows` that stores under (`c`, `y`). */
  predicate LastKeyed(rows: seq<Row>, parseFloat: FloatParser, c: string, y: string, i: int)
  {
    LastWrite(KeyWrites(rows, parseFloat), (c, y), i)
  }

  /** The score stored under (`c`, `y`) is that of the last accepted row
      with that key: later duplicates overwrite earlier ones. */
  lemma IndexLastWins(rows: seq<Row>, parseFloat: FloatParser, c: string, y: string)
    requires HappinessAt(IndexOf(rows, parseFloat), c, y).Some?
    ensures exists i :: && LastKeyed(rows, parseFloat, c, y, i)
                        && HappinessAt(IndexOf(rows, parseFloat), c, y) == Some(ReadRow(rows[i], parseFloat).value.score)
  {
    IndexFlattens(rows, parseFloat, c, y);
    AssignAllLastWins(KeyWrites(rows, parseFloat), (c, y));
  }

  /** The index is empty exactly when no row is accepted. */
  lemma {:induction false} IndexEmpty(rows: seq<Row>, parseFloat: FloatParser)
    ensures IndexOf(rows, parseFloat) == map[] <==> forall i :: 0 <= i < |rows| ==> ReadRow(rows[i], parseFloat).None?
    decreases |rows|
  {
    if rows != [] {
      var n := |rows|;
      var p := rows[..n - 1];
      IndexEmpty(p, parseFloat);
      assert forall i :: 0 <= i < n - 1 ==> p[i] == rows[i];
      match ReadRow(rows[n - 1], parseFloat)
      case None =>
      case Some(e) =>
        assert e.country in IndexOf(rows, parseFloat);
    }
  }

  /** One row of the indicator API's answer: `{date, value}`. */
  datatype ApiRow = ApiRow(date: string, value: Option<real>)

  /** The chart's three parallel series: year labels, indicator values and
      happiness values. */
  datatype ChartData = ChartData(years: seq<string>, indicatorValues: seq<Option<real>>, happinessValues: seq<Option<real>>)

  /** `resp.data[1] || []`: a missing page of rows is no rows. */
  function RowsOrEmpty(page: Option<seq<ApiRow>>): (rows: seq<ApiRow>)
    ensures page.Some? ==> rows == page.value
    ensures page.None? ==> rows == []
  {
    match page
    case Some(rows) => rows
    case None => []
  }

  /** The chart data built from the indicator rows (newest first, as the API
      sends them): the year axis is the rows' dates oldest first, the
      indicator series the rows' values in the same order, and the happiness
      series a lookup per year that is null wherever the index has no score,
      a score of 0 included. */
  function Align(index: HappinessIndex, country: string, page: Option<seq<ApiRow>>): (d: ChartData)
    ensures var rows := RowsOrEmpty(page);
            && |d.years| == |rows| && |d.indicatorValues| == |rows| && |d.happinessValues| == |rows|
            && forall i :: 0 <= i < |rows| ==>
                 && d.years[i] == rows[|rows| - 1 - i].date
                 && d.indicatorValues[i] == rows[|rows| - 1 - i].value
    ensures forall i :: 0 <= i < |d.happinessValues| ==>
              && (d.happinessValues[i].Some? <==> country in index && d.years[i] in index[country])
              && (d.happinessValues[i].Some? ==> d.happinessValues[i].value == index[country][d.years[i]])
              && d.happinessValues[i] == HappinessAt(index, country, d.years[i])
  {
    var rows := RowsOrEmpty(page);
    var years := Reversed(seq(|rows|, i requires 0 <= i < |rows| => rows[i].date));
    var indicatorValues := Reversed(seq(|rows|, i requires 0 <= i < |rows| => rows[i].value));
    var happinessValues := seq(|years|, i requires 0 <= i < |years| => HappinessAt(index, country, years[i]));
    ChartData(years, indicatorValues, happinessValues)
  }

  /** `fetchBoth`: nothing is produced while the index has no country; the
      indicator page is the answer of the request made afterwards. */
  function FetchBoth(index: HappinessIndex, country: string, page: Option<seq<ApiRow>>): (r: Option<ChartData>)
    ensures r.None? <==> index == map[]
    ensures r.Some? ==> r.value == Align(index, country, page)
  {
    if |index.Keys| == 0 then None else Some(Align(index, country, page))
  }

  /** End to end: the happiness value charted at position `i` is present
      exactly when some accepted CSV row has the selected country and that
      year, and then it is the score of the last such row. */
  lemma AlignedValueFromRows(rows: seq<Row>, parseFloat: FloatParser, country: string, page: Option<seq<ApiRow>>, i: nat)
    requires i < |RowsOrEmpty(page)|
    ensures var d := Align(IndexOf(rows, parseFloat), country, page);
            && (d.happinessValues[i].Some? <==> exists j :: 0 <= j < |rows| && Keyed(rows[j], parseFloat, country, d.years[i]))
            && (d.happinessValues[i].Some? ==>
                  exists j :: && LastKeyed(rows, parseFloat, country, d.years[i], j)
                              && d.happinessValues[i] == Some(ReadRow(rows[j], parseFloat).value.score))
  {
    var d := Align(IndexOf(rows, parseFloat), country, page);
    IndexHasEntry(rows, parseFloat, country, d.years[i]);
    if d.happinessValues[i].Some? {
      IndexLastWins(rows, parseFloat, country, d.years[i]);
    }
  }

  /** End to end: chart data appears only once some CSV row was accepted. */
  lemma ChartDataNeedsAcceptedRow(rows: seq<Row>, parseFloat: FloatParser, country: string, page: Option<seq<ApiRow>>)
    ensures FetchBoth(IndexOf(rows, parseFloat), country, page).Some? <==>
              exists i :: 0 <= i < |rows| && ReadRow(rows[i], parseFloat).Some?
  {
    IndexEmpty(rows, parseFloat);
  }
}
