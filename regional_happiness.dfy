/** The data part of the "Regional Happiness" choropleth: the latest survey
    year, the per-country scores of that year, the country-name aliases and
    the projection of the scores onto the map's features. */
module RegionalHappiness {
  import opened JsSemantics

  /** `{Year, Country, Score}` taken from one CSV row; each may be `undefined`. */
  datatype WhrRow = WhrRow(year: Option<string>, country: Option<string>, score: Option<string>)

  /** The projection `raw.map(row => ({Year, Country, Score}))`: one row per
      CSV row, in order, each reading the columns "Year", "Country name" and
      "Ladder score". */
  function ProjectRows(raw: seq<Row>): (whr: seq<WhrRow>)
    ensures |whr| == |raw|
    ensures forall i :: 0 <= i < |raw| ==>
              && (whr[i].year.Some? <==> "Year" in raw[i])
              && (whr[i].country.Some? <==> "Country name" in raw[i])
              && (whr[i].score.Some? <==> "Ladder score" in raw[i])
              && (whr[i].year.Some? ==> whr[i].year.value == raw[i]["Year"])
              && (whr[i].country.Some? ==> whr[i].country.value == raw[i]["Country name"])
              && (whr[i].score.Some? ==> whr[i].score.value == raw[i]["Ladder score"])
  {
    seq(|raw|, i requires 0 <= i < |raw| =>
      WhrRow(Field(raw[i], "Year"), Field(raw[i], "Country name"), Field(raw[i], "Ladder score")))
  }

  /** The value of `Math.max` over parsed years: `-Infinity` for no
      arguments, NaN as soon as one argument is NaN, a year otherwise. */
  datatype MaxYear = NegativeInfinity | NotANumber | Latest(year: int)

  /** `parseInt(d.Year)`. */
  function ParsedYear(row: WhrRow, parseInt: IntParser): Option<int>
  {
    ParseField(parseInt, row.year)
  }

  /** `Math.max(...years)`, with `None` for NaN. */
  function MaxOf(years: seq<Option<int>>): (m: MaxYear)
    ensures m.NegativeInfinity? <==> years == []
    ensures m.NotANumber? <==> exists i :: 0 <= i < |years| && years[i].None?
    ensures m.Latest? ==> exists i :: 0 <= i < |years| && years[i] == Some(m.year)
    ensures m.Latest? ==> forall i :: 0 <= i < |years| ==> years[i].Some? && years[i].value <= m.year
    decreases |years|
  {
    if years == [] then NegativeInfinity
    else
      var m := MaxOf(years[..|years| - 1]);
      var y := years[|years| - 1];
      assert forall i :: 0 <= i < |years| - 1 ==> years[..|years| - 1][i] == years[i];
      if m.NotANumber? || y.None? then NotANumber
      else if m.NegativeInfinity? || m.year < y.value then Latest(y.value)
      else m
  }

  /** `latestYear`: the largest parsed year of all rows, NaN when any row's
      year does not parse, `-Infinity` when there are no rows. */
  function LatestYear(whr: seq<WhrRow>, parseInt: IntParser): (m: MaxYear)
    ensures m.NegativeInfinity? <==> whr == []
    ensures m.NotANumber? <==> exists i :: 0 <= i < |whr| && ParsedYear(whr[i], parseInt).None?
    ensures m.Latest? ==> exists i :: 0 <= i < |whr| && ParsedYear(whr[i], parseInt) == Some(m.year)
    ensures m.Latest? ==> forall i :: 0 <= i < |whr| ==>
              ParsedYear(whr[i], parseInt).Some? && ParsedYear(whr[i], parseInt).value <= m.year
  {
    var years := seq(|whr|, i requires 0 <= i < |whr| => ParsedYear(whr[i], parseInt));
    var m := MaxOf(years);
    assert forall i :: 0 <= i < |whr| ==> years[i] == ParsedYear(whr[i], parseInt);
    m
  }

  /** `parseInt(d.Year) === latestYear`: no parsed year equals NaN or `-Infinity`. */
  predicate InLatestYear(row: WhrRow, parseInt: IntParser, latest: MaxYear)
  {
    latest.Latest? && ParsedYear(row, parseInt) == Some(latest.year)
  }

  /** `filtered`: the rows of the latest year, in input order. */
  function FilterLatest(whr: seq<WhrRow>, parseInt: IntParser, latest: MaxYear): (filtered: seq<WhrRow>)
    ensures |filtered| <= |whr|
    ensures forall i :: 0 <= i < |filtered| ==> InLatestYear(filtered[i], parseInt, latest)
    decreases |whr|
  {
    if whr == [] then []
    else
      var p := whr[..|whr| - 1];
      var last := whr[|whr| - 1];
      FilterLatest(p, parseInt, latest) + (if InLatestYear(last, parseInt, latest) then [last] else [])
  }

  /** A row is in `filtered` exactly when it is an input row of the latest year. */
  lemma {:induction false} FilterLatestMembers(whr: seq<WhrRow>, parseInt: IntParser, latest: MaxYear, r: WhrRow)
    ensures r in FilterLatest(whr, parseInt, latest) <==> r in whr && InLatestYear(r, parseInt, latest)
    decreases |whr|
  {
    if whr != [] {
      var p := whr[..|whr| - 1];
      var last := whr[|whr| - 1];
      FilterLatestMembers(p, parseInt, latest, r);
      assert whr == p + [last];
    }
  }

  /** Filtering a concatenation filters each part, keeping their order: with
      the one-row case this fixes `filtered` as the in-order subsequence of
      latest-year rows. */
  lemma {:induction false} FilterLatestAppend(a: seq<WhrRow>, b: seq<WhrRow>, parseInt: IntParser, latest: MaxYear)
    ensures FilterLatest(a + b, parseInt, latest) == FilterLatest(a, parseInt, latest) + FilterLatest(b, parseInt, latest)
    decreases |b|
  {
    if b != [] {
      var q := b[..|b| - 1];
      var last := b[|b| - 1];
      assert (a + b)[..|a + b| - 1] == a + q;
      FilterLatestAppend(a, q, parseInt, latest);
    } else {
      assert a + b == a;
    }
  }

  /** `row.Country?.trim()` used as a property name: `undefined` is the key "undefined". */
  function CountryKey(row: WhrRow): (k: string)
    ensures row.country.None? ==> k == "undefined"
    ensures row.country.Some? ==>
              && |k| <= |row.country.value|
              && (k != [] ==> !IsJsSpace(k[0]) && !IsJsSpace(k[|k| - 1]))
  {
    match row.country
    case Some(c) => Trim(c)
    case None => "undefined"
  }

  /** `parseFloat(row.Score)`. */
  function ScoreOf(row: WhrRow, parseFloat: FloatParser): Option<real>
  {
    ParseField(parseFloat, row.score)
  }

  /** The score map the `forEach` loop has made after the rows `filtered`. */
  function ScoreMapOf(filtered: seq<WhrRow>, parseFloat: FloatParser): map<string, real>
    decreases |filtered|
  {
    if filtered == [] then map[]
    else
      var scores := ScoreMapOf(filtered[..|filtered| - 1], parseFloat);
      var last := filtered[|filtered| - 1];
      match ScoreOf(last, parseFloat)
      case None => scores
      case Some(s) => scores[CountryKey(last) := s]
  }

  /** The `forEach` loop that fills `scoreMap`, skipping NaN scores. */
  method BuildScoreMap(filtered: seq<WhrRow>, parseFloat: FloatParser) returns (scoreMap: map<string, real>)
    ensures scoreMap == ScoreMapOf(filtered, parseFloat)
  {
    scoreMap := map[];
    for i := 0 to |filtered|
      invariant scoreMap == ScoreMapOf(filtered[..i], parseFloat)
    {
      assert filtered[..i + 1][..i] == filtered[..i];
      var row := filtered[i];
      var country := CountryKey(row);
      var score := ScoreOf(row, parseFloat);
      if score.Some? {
        scoreMap := scoreMap[country := score.value];
      }
    }
    assert filtered[..|filtered|] == filtered;
  }

  /** What row `row` stores in the score map, if anything: its trimmed
      name and its score, when it is of the latest year and its score parses. */
  function Stored(row: WhrRow, parseInt: IntParser, parseFloat: FloatParser, latest: MaxYear): Option<(string, real)>
  {
    if InLatestYear(row, parseInt, latest) && ScoreOf(row, parseFloat).Some?
    then Some((CountryKey(row), ScoreOf(row, parseFloat).value))
    else None
  }

  /** The writes into the score map of all rows, one per row, in order. */
  function StoredAll(whr: seq<WhrRow>, parseInt: IntParser, parseFloat: FloatParser, latest: MaxYear): (writes: seq<Option<(string, real)>>)
    ensures |writes| == |whr|
    ensures forall i :: 0 <= i < |whr| ==> writes[i] == Stored(whr[i], parseInt, parseFloat, latest)
  {
    seq(|whr|, i requires 0 <= i < |whr| => Stored(whr[i], parseInt, parseFloat, latest))
  }

  /** The writes of a prefix of the rows are a prefix of the writes. */
  lemma StoredAllPrefix(whr: seq<WhrRow>, parseInt: IntParser, parseFloat: FloatParser, latest: MaxYear)
    requires whr != []
    ensures StoredAll(whr, parseInt, parseFloat, latest)[..|whr| - 1] == StoredAll(whr[..|whr| - 1], parseInt, parseFloat, latest)
  {
  }

  /** Filtering to the latest year and then running the `forEach` loop makes
      the same object as storing each row's write in input order. */
  lemma {:induction false} FilterThenScore(whr: seq<WhrRow>, parseInt: IntParser, parseFloat: FloatParser, latest: MaxYear)
    ensures ScoreMapOf(FilterLatest(whr, parseInt, latest), parseFloat) == AssignAll(StoredAll(whr, parseInt, parseFloat, latest))
    decreases |whr|
  {
    if whr != [] {
      var p := whr[..|whr| - 1];
      FilterThenScoreStep(whr, parseInt, parseFloat, latest);
      FilterThenScore(p, parseInt, parseFloat, latest);
      StoredAllPrefix(whr, parseInt, parseFloat, latest);
    }
  }

  /** One more row changes the score map as its own write would. */
  lemma FilterThenScoreStep(whr: seq<WhrRow>, parseInt: IntParser, parseFloat: FloatParser, latest: MaxYear)
    requires whr != []
    ensures var p := whr[..|whr| - 1];
            ScoreMapOf(FilterLatest(whr, parseInt, latest), parseFloat) ==
            Assign(ScoreMapOf(FilterLatest(p, parseInt, latest), parseFloat), Stored(whr[|whr| - 1], parseInt, parseFloat, latest))
  {
    var p := whr[..|whr| - 1];
    var last := whr[|whr| - 1];
    var fp := FilterLatest(p, parseInt, latest);
    var f := FilterLatest(whr, parseInt, latest);
    var w := Stored(last, parseInt, parseFloat, latest);
    if InLatestYear(last, parseInt, latest) {
      assert f == fp + [last];
      assert f[..|f| - 1] == fp && f[|f| - 1] == last;
      if ScoreOf(last, parseFloat).Some? {
        assert w == Some((CountryKey(last), ScoreOf(last, parseFloat).value));
      } else {
        assert w == None;
      }
    } else {
      assert f == fp;
      assert w == None;
    }
  }

  /** `scoreMap` has a key `k` exactly when some latest-year row with a
      score that parses has the trimmed name `k`. */
  lemma ScoreMapHasKey(whr: seq<WhrRow>, parseInt: IntParser, parseFloat: FloatParser, latest: MaxYear, k: string)
    ensures k in ScoreMapOf(FilterLatest(whr, parseInt, latest), parseFloat) <==>
              exists i :: 0 <= i < |whr| && WritesKey(Stored(whr[i], parseInt, parseFloat, latest), k)
  {
    FilterThenScore(whr, parseInt, parseFloat, latest);
    AssignAllHasKey(StoredAll(whr, parseInt, parseFloat, latest), k);
  }

  /** `scoreMap[k]` is the score of the last latest-year row named `k` whose
      score parses. */
  lemma ScoreMapLastWins(whr: seq<WhrRow>, parseInt: IntParser, parseFloat: FloatParser, latest: MaxYear, k: string)
    requires k in ScoreMapOf(FilterLatest(whr, parseInt, latest), parseFloat)
    ensures exists i :: && LastWrite(StoredAll(whr, parseInt, parseFloat, latest), k, i)
                        && ScoreMapOf(FilterLatest(whr, parseInt, latest), parseFloat)[k] == ScoreOf(whr[i], parseFloat).value
  {
    FilterThenScore(whr, parseInt, parseFloat, latest);
    AssignAllLastWins(StoredAll(whr, parseInt, parseFloat, latest), k);
  }

  /** The `nameMapping` table, in the order `Object.keys` lists it: a survey
      country name and the name its score is copied to. */
  const NameMapping: seq<(string, string)> := [
    ("United States", "United States of America"),
    ("Russia", "Russian Federation"),
    ("South Korea", "Korea, Rep."),
    ("North Korea", "Korea, Dem. People\U{2019}s Rep."),
    ("Venezuela", "Venezuela, RB"),
    ("Iran", "Iran, Islamic Rep."),
    ("Egypt", "Egypt, Arab Rep."),
    ("Syria", "Syrian Arab Republic"),
    ("Czechia", "Czech Republic"),
    ("Slovakia", "Slovak Republic"),
    ("Gambia", "Gambia, The"),
    ("Bahamas", "Bahamas, The"),
    ("Yemen", "Yemen, Rep."),
    ("Hong Kong S.A.R.", "Hong Kong SAR, China"),
    ("Macau S.A.R.", "Macao SAR, China"),
    ("Ivory Coast", "Cote d'Ivoire"),
    ("Tanzania", "Tanzania, United Rep."),
    ("Bolivia", "Bolivia, Plurinational State of"),
    ("Moldova", "Moldova, Rep.")
  ]

  /** An alias table whose sources are distinct, whose targets are distinct
      and none of whose targets is also a source. */
  predicate WellFormedAliases(table: seq<(string, string)>)
  {
    && (forall i, j :: 0 <= i < j < |table| ==> table[i].0 != table[j].0)
    && (forall i, j :: 0 <= i < j < |table| ==> table[i].1 != table[j].1)
    && (forall i, j :: 0 <= i < |table| && 0 <= j < |table| ==> table[i].1 != table[j].0)
  }

  /** `k` is the target of some alias of `table`. */
  predicate IsTarget(table: seq<(string, string)>, k: string)
  {
    exists i :: 0 <= i < |table| && table[i].1 == k
  }

  /** Maps `a` and `b` agree at key `k`: both lack it or both hold the same score. */
  predicate SameAt(a: map<string, real>, b: map<string, real>, k: string)
  {
    (k in a <==> k in b) && (k in a ==> a[k] == b[k])
  }

  /** One turn of the alias loop: `if (scoreMap[whrName]) scoreMap[target] = scoreMap[whrName]`. */
  function AliasStep(scores: map<string, real>, alias: (string, string)): (r: map<string, real>)
    ensures forall k :: k != alias.1 ==> SameAt(r, scores, k)
    ensures OrNull(scores, alias.0).Some? ==> alias.1 in r && r[alias.1] == scores[alias.0]
    ensures OrNull(scores, alias.0).None? ==> r == scores
  {
    if OrNull(scores, alias.0).Some? then scores[alias.1 := scores[alias.0]] else scores
  }

  /** The score map after the alias loop has run over `table`. */
  function AliasPass(scores: map<string, real>, table: seq<(string, string)>): (r: map<string, real>)
    ensures scores.Keys <= r.Keys
    ensures forall k :: k in r ==> k in scores || IsTarget(table, k)
    decreases |table|
  {
    if table == [] then scores
    else
      var p := table[..|table| - 1];
      assert forall i :: 0 <= i < |p| ==> p[i] == table[i];
      AliasStep(AliasPass(scores, p), table[|table| - 1])
  }

  /** A key that no alias targets keeps its entry through the alias pass. */
  lemma {:induction false} AliasPassKeepsNonTarget(scores: map<string, real>, table: seq<(string, string)>, k: string)
    requires !IsTarget(table, k)
    ensures SameAt(AliasPass(scores, table), scores, k)
    decreases |table|
  {
    if table != [] {
      var p := table[..|table| - 1];
      assert !IsTarget(p, k);
      AliasPassKeepsNonTarget(scores, p, k);
      assert table[|table| - 1].1 != k;
    }
  }

  /** What the alias pass leaves under the target of `alias`: the source's
      score when that is present and not 0, the original entry otherwise. */
  predicate AliasApplied(scores: map<string, real>, result: map<string, real>, alias: (string, string))
  {
    if OrNull(scores, alias.0).Some? then alias.1 in result && result[alias.1] == scores[alias.0]
    else SameAt(result, scores, alias.1)
  }

  /** Alias `a` takes effect on its target: its source is no target, and no
      other alias shares its target. */
  lemma {:induction false} AliasPassAppliesAlias(scores: map<string, real>, table: seq<(string, string)>, a: nat)
    requires a < |table|
    requires !IsTarget(table, table[a].0)
    requires forall j :: 0 <= j < |table| && j != a ==> table[j].1 != table[a].1
    ensures AliasApplied(scores, AliasPass(scores, table), table[a])
    decreases |table|
  {
    var n := |table|;
    var p := table[..n - 1];
    var (s, t) := table[a];
    var before := AliasPass(scores, p);
    assert forall i :: 0 <= i < n - 1 ==> p[i] == table[i];
    assert !IsTarget(p, s);
    if a == n - 1 {
      assert !IsTarget(p, t);
      AliasPassKeepsNonTarget(scores, p, s);
      AliasPassKeepsNonTarget(scores, p, t);
    } else {
      AliasPassAppliesAlias(scores, p, a);
      assert table[n - 1].1 != t;
    }
  }

  /** The effect of the alias pass: every alias whose source score is present
      and truthy copies it to its target, other targets keep their entry, and
      every key that is no target (every source among them) is unchanged. */
  lemma AliasPassEffect(scores: map<string, real>, table: seq<(string, string)>)
    requires WellFormedAliases(table)
    ensures forall k :: !IsTarget(table, k) ==> SameAt(AliasPass(scores, table), scores, k)
    ensures forall i :: 0 <= i < |table| ==> AliasApplied(scores, AliasPass(scores, table), table[i])
  {
    forall k | !IsTarget(table, k)
      ensures SameAt(AliasPass(scores, table), scores, k)
    {
      AliasPassKeepsNonTarget(scores, table, k);
    }
    forall i | 0 <= i < |table|
      ensures AliasApplied(scores, AliasPass(scores, table), table[i])
    {
      AliasPassAppliesAlias(scores, table, i);
    }
  }

  /** Running the alias pass a second time changes nothing. */
  lemma AliasPassIdempotent(scores: map<string, real>, table: seq<(string, string)>)
    requires WellFormedAliases(table)
    ensures AliasPass(AliasPass(scores, table), table) == AliasPass(scores, table)
  {
    var once := AliasPass(scores, table);
    var twice := AliasPass(once, table);
    AliasPassEffect(scores, table);
    AliasPassEffect(once, table);
    forall k
      ensures (k in twice <==> k in once) && (k in once ==> twice[k] == once[k])
    {
      if IsTarget(table, k) {
        var i :| 0 <= i < |table| && table[i].1 == k;
        assert !IsTarget(table, table[i].0);
        assert SameAt(once, scores, table[i].0);
        assert AliasApplied(scores, once, table[i]);
        assert AliasApplied(once, twice, table[i]);
      } else {
        assert SameAt(twice, once, k);
      }
    }
  }

  /** The names of `nameMapping` are distinct. */
  lemma NameMappingSourcesDistinct()
    ensures forall i, j :: 0 <= i < j < |NameMapping| ==> NameMapping[i].0 != NameMapping[j].0
  {
  }

  /** The names `nameMapping` maps to are distinct. */
  lemma NameMappingTargetsDistinct()
    ensures forall i, j :: 0 <= i < j < |NameMapping| ==> NameMapping[i].1 != NameMapping[j].1
  {
  }

  /** No name `nameMapping` maps to is one of its own names. */
  lemma NameMappingTargetsNotSources()
    ensures forall i, j :: 0 <= i < |NameMapping| && 0 <= j < |NameMapping| ==> NameMapping[i].1 != NameMapping[j].0
  {
  }

  /** The alias loop over `Object.keys(nameMapping)`. */
  method ReconcileNames(scoreMap: map<string, real>) returns (reconciled: map<string, real>)
    ensures reconciled == AliasPass(scoreMap, NameMapping)
    ensures forall i :: 0 <= i < |NameMapping| ==> AliasApplied(scoreMap, reconciled, NameMapping[i])
    ensures forall k :: !IsTarget(NameMapping, k) ==> SameAt(reconciled, scoreMap, k)
  {
    reconciled := ApplyAliases(scoreMap, NameMapping);
    NameMappingEffect(scoreMap);
  }

  /** The alias loop over `table`, in table order: copy each truthy source
      score onto its target, in place. */
  method ApplyAliases(scoreMap: map<string, real>, table: seq<(string, string)>) returns (reconciled: map<string, real>)
    ensures reconciled == AliasPass(scoreMap, table)
  {
    reconciled := scoreMap;
    for i := 0 to |table|
      invariant reconciled == AliasPass(scoreMap, table[..i])
    {
      assert table[..i + 1][..i] == table[..i];
      var (whrName, target) := table[i];
      if whrName in reconciled && reconciled[whrName] != 0.0 {
        reconciled := reconciled[target := reconciled[whrName]];
      }
    }
    assert table[..|table|] == table;
  }

  /** With `nameMapping`, every alias takes effect and every key that is no
      target keeps its entry. */
  lemma NameMappingEffect(scoreMap: map<string, real>)
    ensures forall i :: 0 <= i < |NameMapping| ==> AliasApplied(scoreMap, AliasPass(scoreMap, NameMapping), NameMapping[i])
    ensures forall k :: !IsTarget(NameMapping, k) ==> SameAt(AliasPass(scoreMap, NameMapping), scoreMap, k)
  {
    NameMappingSourcesDistinct();
    NameMappingTargetsDistinct();
    NameMappingTargetsNotSources();
    AliasPassEffect(scoreMap, NameMapping);
  }

  /** The source's `nameMapping` is well formed, so reconciling names twice
      gives the same scores as once. */
  lemma ReconcileNamesIdempotent(scores: map<string, real>)
    ensures AliasPass(AliasPass(scores, NameMapping), NameMapping) == AliasPass(scores, NameMapping)
  {
    NameMappingSourcesDistinct();
    NameMappingTargetsDistinct();
    NameMappingTargetsNotSources();
    AliasPassIdempotent(scores, NameMapping);
  }

  /** The choropleth's data row for one geographic feature. */
  datatype GeoRow<F> = GeoRow(feature: F, value: Option<real>)

  /** The map's data rows: one per feature, with the value
      `scoreMap[name] || null` for the feature's exact name. */
  function ProjectFeatures<F>(features: seq<F>, nameOf: F -> string, scoreMap: map<string, real>): (data: seq<GeoRow<F>>)
    ensures |data| == |features|
    ensures forall i :: 0 <= i < |features| ==>
              && data[i].feature == features[i]
              && (data[i].value.Some? <==> nameOf(features[i]) in scoreMap && scoreMap[nameOf(features[i])] != 0.0)
              && (data[i].value.Some? ==> data[i].value.value == scoreMap[nameOf(features[i])])
  {
    seq(|features|, i requires 0 <= i < |features| => GeoRow(features[i], OrNull(scoreMap, nameOf(features[i]))))
  }

  /** The map's title year and data rows. */
  datatype Choropleth<F> = Choropleth(latestYear: MaxYear, data: seq<GeoRow<F>>)

  /** The scores the map shows: latest-year scores after the alias pass. */
  function ShownScores(whr: seq<WhrRow>, parseInt: IntParser, parseFloat: FloatParser): map<string, real>
  {
    var latest := LatestYear(whr, parseInt);
    AliasPass(ScoreMapOf(FilterLatest(whr, parseInt, latest), parseFloat), NameMapping)
  }

  /** The data part of `loadData`, on the parsed CSV rows and the map's features. */
  method LoadData<F>(raw: seq<Row>, features: seq<F>, nameOf: F -> string, parseInt: IntParser, parseFloat: FloatParser)
    returns (chart: Choropleth<F>)
    ensures chart.latestYear == LatestYear(ProjectRows(raw), parseInt)
    ensures chart.data == ProjectFeatures(features, nameOf, ShownScores(ProjectRows(raw), parseInt, parseFloat))
  {
    var whr := ProjectRows(raw);
    var latestYear := LatestYear(whr, parseInt);
    var filtered := FilterLatest(whr, parseInt, latestYear);
    var scoreMap := BuildScoreMap(filtered, parseFloat);
    scoreMap := ReconcileNames(scoreMap);
    var data := ProjectFeatures(features, nameOf, scoreMap);
    chart := Choropleth(latestYear, data);
  }

  /** With no rows, or with a row whose year does not parse, no row is of the
      latest year, so every feature's value is null. */
  lemma NoLatestYearAllNull<F>(raw: seq<Row>, features: seq<F>, nameOf: F -> string, parseInt: IntParser, parseFloat: FloatParser)
    requires raw == [] || exists i :: 0 <= i < |raw| && ParseField(parseInt, Field(raw[i], "Year")).None?
    ensures var whr := ProjectRows(raw);
            var data := ProjectFeatures(features, nameOf, ShownScores(whr, parseInt, parseFloat));
            forall i :: 0 <= i < |data| ==> data[i].value.None?
  {
    var whr := ProjectRows(raw);
    var latest := LatestYear(whr, parseInt);
    if raw != [] {
      var i :| 0 <= i < |raw| && ParseField(parseInt, Field(raw[i], "Year")).None?;
      assert ParsedYear(whr[i], parseInt).None?;
    }
    assert !latest.Latest?;
    var filtered := FilterLatest(whr, parseInt, latest);
    NothingIsLatest(whr, parseInt, latest);
    AliasPassEmpty(NameMapping);
  }

  /** When the latest year is NaN or `-Infinity`, no row is kept. */
  lemma {:induction false} NothingIsLatest(whr: seq<WhrRow>, parseInt: IntParser, latest: MaxYear)
    requires !latest.Latest?
    ensures FilterLatest(whr, parseInt, latest) == []
    decreases |whr|
  {
    if whr != [] {
      NothingIsLatest(whr[..|whr| - 1], parseInt, latest);
    }
  }

  /** The alias pass adds nothing to an empty score map. */
  lemma {:induction false} AliasPassEmpty(table: seq<(string, string)>)
    ensures AliasPass(map[], table) == map[]
    decreases |table|
  {
    if table != [] {
      AliasPassEmpty(table[..|table| - 1]);
    }
  }

  /** End to end: a feature whose name is no alias target shows the score of
      the last latest-year row with that trimmed name, null when that score
      is 0 or there is no such row; a feature named by an alias target shows
      the source's score when that is present and not 0. */
  lemma ProjectedValue<F>(raw: seq<Row>, features: seq<F>, nameOf: F -> string, parseInt: IntParser, parseFloat: FloatParser, i: nat)
    requires i < |features|
    ensures var whr := ProjectRows(raw);
            var latest := LatestYear(whr, parseInt);
            var scores := ScoreMapOf(FilterLatest(whr, parseInt, latest), parseFloat);
            var data := ProjectFeatures(features, nameOf, ShownScores(whr, parseInt, parseFloat));
            var name := nameOf(features[i]);
            && (!IsTarget(NameMapping, name) ==> data[i].value == OrNull(scores, name))
            && (forall a :: 0 <= a < |NameMapping| && NameMapping[a].1 == name && OrNull(scores, NameMapping[a].0).Some? ==>
                  data[i].value == OrNull(scores, NameMapping[a].0))
  {
    var whr := ProjectRows(raw);
    var latest := LatestYear(whr, parseInt);
    var scores := ScoreMapOf(FilterLatest(whr, parseInt, latest), parseFloat);
    NameMappingSourcesDistinct();
    NameMappingTargetsDistinct();
    NameMappingTargetsNotSources();
    AliasPassEffect(scores, NameMapping);
  }
}
