/**
 * Loading the spreadsheet (`download_and_load_data`): renaming the source columns,
 * deriving the debut year, relabelling the German Bundesliga and building the
 * competition/country filter key and selector label.
 */
module Loading {
  import opened Wrappers
  import opened Text
  import opened Records

  /** The one-off domain correction: the German "Bundesliga" becomes "1. Bundesliga". */
  function Canonical(comp: Option<string>, country: Option<string>): Option<string> {
    if comp == Some("Bundesliga") && country == Some("Germany") then Some("1. Bundesliga") else comp
  }

  /** The filter key `Competition + "||" + Country`, a missing country read as "";
      a missing competition makes the whole key missing (NaN + str is NaN). */
  function CompKey(comp: Option<string>, country: Option<string>): Option<string> {
    if comp.Some? then Some(comp.value + "||" + country.GetOr("")) else None
  }

  /** The selector label `Competition + " (" + Country + ")"`, with the same conventions. */
  function CompLabel(comp: Option<string>, country: Option<string>): Option<string> {
    if comp.Some? then Some(comp.value + " (" + country.GetOr("") + ")") else None
  }

  /** How the filter turns a chosen label back into a key:
      `label.replace(" (", "||").replace(")", "")`. */
  function LabelToKey(choice: string): string {
    ReplaceAll(ReplaceAll(choice, " (", "||"), ")", "")
  }

  /** `Debut Date.dt.year`: missing for a missing (unparseable) date. */
  function YearOf(d: Option<Date>): Option<nat> {
    if d.Some? then Some(d.value.year) else None
  }

  /** One row after loading: every derived column recomputed from the source fields. */
  function Derived(r: Row): Row {
    var comp := Canonical(r.competition, r.country);
    r.(debutYear := YearOf(r.debutDate),
       competition := comp,
       compCountryId := CompKey(comp, r.country),
       compCountryLabel := CompLabel(comp, r.country))
  }

  /** The columns the loader reads unconditionally; a missing one raises a KeyError,
      which the loader catches and reports as a failed load. */
  predicate Loadable(cols: seq<string>) {
    DebutDateCol in cols && CompetitionCol in cols && CountryCol in cols
  }

  /** The columns the loader adds, in the order it adds them. */
  function LoadedColumns(cols: seq<string>): seq<string> {
    WithColumn(WithColumn(WithColumn(cols, DebutYearCol), CompCountryIdCol), CompCountryLabelCol)
  }

  /** Loads a sheet whose header row is `headers` and whose (already parsed) rows are `raw`. */
  method Load(headers: seq<string>, raw: seq<Row>) returns (result: Option<Table>)
    ensures result.None? <==> !Loadable(RenameColumns(headers))
    ensures result.Some? ==> result.value.columns == LoadedColumns(RenameColumns(headers))
    ensures result.Some? ==> |result.value.rows| == |raw|
    ensures result.Some? ==> forall i :: 0 <= i < |raw| ==> result.value.rows[i] == Derived(raw[i])
  {
    var cols := RenameColumns(headers);
    var rows := raw;
    if DebutDateCol !in cols {
      return None;
    }
    cols := WithColumn(cols, DebutYearCol);
    rows := seq(|rows|, i requires 0 <= i < |rows| => rows[i].(debutYear := YearOf(rows[i].debutDate)));
    if CompetitionCol !in cols || CountryCol !in cols {
      return None;
    }
    rows := seq(|rows|, i requires 0 <= i < |rows| =>
                  rows[i].(competition := Canonical(rows[i].competition, rows[i].country)));
    cols := WithColumn(cols, CompCountryIdCol);
    rows := seq(|rows|, i requires 0 <= i < |rows| =>
                  rows[i].(compCountryId := CompKey(rows[i].competition, rows[i].country)));
    cols := WithColumn(cols, CompCountryLabelCol);
    rows := seq(|rows|, i requires 0 <= i < |rows| =>
                  rows[i].(compCountryLabel := CompLabel(rows[i].competition, rows[i].country)));
    return Some(Table(cols, rows));
  }

  /** After loading no row is a German "Bundesliga": such rows read "1. Bundesliga" in the
      competition, the key and the label; every other row keeps its competition. */
  lemma BundesligaRelabelled(r: Row)
    ensures !(Derived(r).competition == Some("Bundesliga") && Derived(r).country == Some("Germany"))
    ensures r.competition == Some("Bundesliga") && r.country == Some("Germany") ==>
              && Derived(r).competition == Some("1. Bundesliga")
              && Derived(r).compCountryId == Some("1. Bundesliga||Germany")
              && Derived(r).compCountryLabel == Some("1. Bundesliga (Germany)")
    ensures !(r.competition == Some("Bundesliga") && r.country == Some("Germany")) ==>
              Derived(r).competition == r.competition
    ensures Derived(r).country == r.country
  {
    assert "1. Bundesliga" + "||" + "Germany" == "1. Bundesliga||Germany";
    assert "1. Bundesliga" + " (" + "Germany" + ")" == "1. Bundesliga (Germany)";
  }

  /** Deriving twice is deriving once: reloading a loaded row changes nothing. */
  lemma DerivedIsIdempotent(r: Row)
    ensures Derived(Derived(r)) == Derived(r)
  {
  }

  /** Key and label share the missing-country convention, and both are missing exactly
      when the competition is. */
  lemma KeyAndLabelAgree(comp: Option<string>, country: Option<string>)
    ensures CompKey(comp, country).None? <==> comp.None?
    ensures CompLabel(comp, country).None? <==> comp.None?
    ensures comp.Some? ==> CompKey(comp, country).value == comp.value + "||" + country.GetOr("")
    ensures comp.Some? ==> CompLabel(comp, country).value == comp.value + " (" + country.GetOr("") + ")"
  {
  }

  /** The first replacement turns the label's " (" into "||" and touches nothing else. */
  lemma ReplaceOpeningParenthesis(comp: string, country: string)
    requires !Contains(comp, " (") && !Contains(country, " (")
    requires ')' !in country
    ensures ReplaceAll(comp + " (" + country + ")", " (", "||") == comp + "||" + country + ")"
  {
    var s := comp + " (" + country + ")";
    forall i | 0 <= i < |comp|
      ensures !MatchAt(s, " (", i)
    {
      if i + 2 <= |comp| {
        assert s[i..i + 2] == comp[i..i + 2];
        assert !MatchAt(comp, " (", i);
      } else {
        assert s[i..i + 2][1] == s[i + 1] == ' ';
      }
    }
    ReplaceSkipsClearPrefix(s, " (", "||", |comp|);
    assert s[..|comp|] == comp;
    var u := country + ")";
    assert s[|comp|..] == " (" + u;
    ReplaceLeadingMatch(" (", u, "||");
    forall i | 0 <= i < |u|
      ensures !MatchAt(u, " (", i)
    {
      if i + 2 <= |country| {
        assert u[i..i + 2] == country[i..i + 2];
        assert !MatchAt(country, " (", i);
      } else if i + 2 <= |u| {
        assert u[i..i + 2][1] == u[i + 1] == ')';
      }
    }
    ReplaceWithoutMatch(u, " (", "||");
  }

  /** The second replacement drops the one closing parenthesis at the end. */
  lemma DropClosingParenthesis(x: string)
    requires ')' !in x
    ensures ReplaceAll(x + ")", ")", "") == x
  {
    var w := x + ")";
    forall i | 0 <= i < |x|
      ensures !MatchAt(w, ")", i)
    {
      assert w[i..i + 1] == [x[i]];
    }
    ReplaceSkipsClearPrefix(w, ")", "", |x|);
    assert w[..|x|] == x;
    assert w[|x|..] == ")";
    ReplaceLeadingMatch(")", "", "");
  }

  /** Turning a label back into a key gives that competition's key, provided neither field
      contains " (" or ")". */
  lemma LabelToKeyInvertsLabel(comp: string, country: string)
    requires !Contains(comp, " (") && !Contains(country, " (")
    requires ')' !in comp && ')' !in country
    ensures LabelToKey(comp + " (" + country + ")") == comp + "||" + country
  {
    ReplaceOpeningParenthesis(comp, country);
    var x := comp + "||" + country;
    assert comp + "||" + country + ")" == x + ")";
    forall i | 0 <= i < |x|
      ensures x[i] != ')'
    {
      if i < |comp| {
        assert x[i] == comp[i];
      } else if i >= |comp| + 2 {
        assert x[i] == country[i - |comp| - 2];
      }
    }
    DropClosingParenthesis(x);
  }

  /** For a loaded row whose competition and country are free of " (" and ")", the label
      the selector offers converts back to exactly that row's filter key. */
  lemma LoadedLabelSelectsOwnKey(r: Row)
    requires r.competition.Some?
    requires !Contains(Derived(r).competition.value, " (") && ')' !in Derived(r).competition.value
    requires !Contains(r.country.GetOr(""), " (") && ')' !in r.country.GetOr("")
    ensures Derived(r).compCountryLabel.Some? && Derived(r).compCountryId.Some?
    ensures LabelToKey(Derived(r).compCountryLabel.value) == Derived(r).compCountryId.value
  {
    LabelToKeyInvertsLabel(Derived(r).competition.value, r.country.GetOr(""));
  }

  lemma BarAfterCompetition(comp: string, country: string)
    ensures |comp + "||" + country| > |comp| && (comp + "||" + country)[|comp|] == '|'
  {
  }

  /** Two filter keys are equal only for equal competitions and countries, when the
      competitions contain no '|'. */
  lemma KeyIsInjective(comp1: string, country1: string, comp2: string, country2: string)
    requires '|' !in comp1 && '|' !in comp2
    requires comp1 + "||" + country1 == comp2 + "||" + country2
    ensures comp1 == comp2 && country1 == country2
  {
    var k1 := comp1 + "||" + country1;
    var k2 := comp2 + "||" + country2;
    if |comp1| < |comp2| {
      BarAfterCompetition(comp1, country1);
      assert false;
    } else if |comp2| < |comp1| {
      BarAfterCompetition(comp2, country2);
      assert false;
    }
    assert comp1 == k1[..|comp1|] == k2[..|comp2|] == comp2;
    assert country1 == k1[|comp1| + 2..] == k2[|comp2| + 2..] == country2;
  }
}
