/**
 * The choices the competition and year multi-selects offer (the distinct, present values
 * of the loaded table, after "All"), and what picking them does in the filter.
 */
module Selectors {
  import opened Wrappers
  import opened Text
  import opened Records
  import opened Loading
  import opened Filtering

  /** Competition choices: "All" and every present "Competition (Country)" label. */
  function CompetitionOptions(rows: seq<Row>): set<string> {
    {"All"} + set r | r in rows && r.compCountryLabel.Some? :: r.compCountryLabel.value
  }

  /** The row's key and label are those of its own competition and country, as loaded. */
  predicate KeyedByOwnFields(r: Row) {
    r.compCountryId == CompKey(r.competition, r.country)
    && r.compCountryLabel == CompLabel(r.competition, r.country)
  }

  /** Names the label-to-key conversion cannot confuse: no " (" or ")" in either field and
      no '|' in the competition. */
  predicate CleanFields(r: Row) {
    r.competition.Some? ==>
      && !Contains(r.competition.value, " (") && ')' !in r.competition.value
      && '|' !in r.competition.value
      && !Contains(r.country.GetOr(""), " (") && ')' !in r.country.GetOr("")
  }

  /** Picking offered competition labels (without "All") keeps exactly the rows whose label
      was picked, when every row has clean fields. */
  lemma OfferedLabelsSelectTheirRows(t: Table, sel: Selection, r: Row)
    requires forall q :: q in t.rows ==> KeyedByOwnFields(q) && CleanFields(q)
    requires Active(sel.competitions)
    requires forall l :: l in sel.competitions ==> l in CompetitionOptions(t.rows)
    requires r in t.rows
    ensures (r.compCountryId.Some? && r.compCountryId.value in SelectedKeys(sel.competitions)) <==>
            (r.compCountryLabel.Some? && r.compCountryLabel.value in sel.competitions)
  {
    assert KeyedByOwnFields(r) && CleanFields(r);
    if r.compCountryLabel.Some? && r.compCountryLabel.value in sel.competitions {
      LabelToKeyInvertsLabel(r.competition.value, r.country.GetOr(""));
    }
    if r.compCountryId.Some? && r.compCountryId.value in SelectedKeys(sel.competitions) {
      var l :| l in sel.competitions && LabelToKey(l) == r.compCountryId.value;
      assert l != "All";
      var q :| q in t.rows && q.compCountryLabel.Some? && l == q.compCountryLabel.value;
      assert KeyedByOwnFields(q) && CleanFields(q);
      LabelToKeyInvertsLabel(q.competition.value, q.country.GetOr(""));
      KeyIsInjective(r.competition.value, r.country.GetOr(""), q.competition.value, q.country.GetOr(""));
    }
  }

  /** Picking the label of a loaded row whose competition and country are free of " (" and
      ")" keeps that row through the competition step. */
  lemma PickedLabelKeepsRow(r: Row, sel: Selection)
    requires r.competition.Some?
    requires !Contains(Derived(r).competition.value, " (") && ')' !in Derived(r).competition.value
    requires !Contains(r.country.GetOr(""), " (") && ')' !in r.country.GetOr("")
    requires CompLabel(Derived(r).competition, r.country).value in sel.competitions
    ensures Derived(r).compCountryId.Some?
    ensures Derived(r).compCountryId.value in SelectedKeys(sel.competitions)
  {
    LoadedLabelSelectsOwnKey(r);
    assert Derived(r).compCountryLabel.value in sel.competitions;
  }

  /** The year column holds floats (dtype float64) as soon as one loaded row lacks a year.
      The dtype is fixed at load time and kept when rows are dropped later. */
  predicate YearColumnIsFloat(loaded: seq<Row>) {
    exists r :: r in loaded && r.debutYear.None?
  }

  /** `str(yr)` of a year read from the year column: "2020.0" for a float column. */
  function YearLabelAsWritten(year: nat, isFloat: bool): string {
    if isFloat then ShowNat(year) + ".0" else ShowNat(year)
  }

  /** Year choices as the dashboard builds them: the distinct years of the working rows,
      rendered with the dtype the column got when the rows were loaded. */
  function YearOptionsAsWritten(loaded: seq<Row>, working: seq<Row>): set<string> {
    {"All"} + set r | r in working && r.debutYear.Some? ::
                YearLabelAsWritten(r.debutYear.value, YearColumnIsFloat(loaded))
  }

  /** Year choices rendered as whole numbers whatever the column's dtype. */
  function YearOptions(rows: seq<Row>): set<string> {
    {"All"} + set r | r in rows && r.debutYear.Some? :: ShowNat(r.debutYear.value)
  }

  /** When every loaded row has a year, the choices as built are the whole-number ones. */
  lemma WholeYearsWhenNoneMissing(loaded: seq<Row>, working: seq<Row>, l: string)
    requires !YearColumnIsFloat(loaded)
    ensures l in YearOptionsAsWritten(loaded, working) <==> l in YearOptions(working)
  {
  }

  lemma FloatLabelIsNotDigits(year: nat)
    ensures !IsDigits(ShowNat(year) + ".0")
  {
    var s := ShowNat(year) + ".0";
    assert s[|ShowNat(year)|] == '.';
  }

  /** As built, once one debut date is missing, picking any years (without "All") from the
      offered choices shows no row at all, whatever the filtered table holds. */
  lemma AsWrittenYearPicksShowNothing(loaded: seq<Row>, t: Table, sel: Selection)
    requires YearColumnIsFloat(loaded)
    requires Active(sel.years)
    requires forall l :: l in sel.years ==> l in YearOptionsAsWritten(loaded, t.rows)
    ensures Filtered(t, sel) == []
  {
    forall l | l in sel.years
      ensures !IsDigits(l)
    {
      var r :| r in t.rows && r.debutYear.Some? && l == YearLabelAsWritten(r.debutYear.value, true);
      FloatLabelIsNotDigits(r.debutYear.value);
    }
    NonNumericYearsShowNothing(t, sel);
  }

  /** A concrete case: one row dated 2020 and one undated row; the only year on offer besides
      "All" is "2020.0", and picking it empties the result. */
  lemma AsWrittenYearPickCounterexample(dated: Row, undated: Row)
    requires dated.debutYear == Some(2020) && undated.debutYear.None?
    ensures YearOptionsAsWritten([dated, undated], [dated, undated]) == {"All", "2020.0"}
    ensures Filtered(Table([DebutYearCol], [dated, undated]), Selection([], [], ["2020.0"], 0, 0)) == []
  {
    var rows := [dated, undated];
    assert YearColumnIsFloat(rows) by { assert undated in rows; }
    assert ShowNat(2020) == "2020" by {
      assert ShowNat(2) == "2";
      assert ShowNat(20) == "20";
      assert ShowNat(202) == "202";
    }
    assert YearLabelAsWritten(2020, true) == "2020.0";
    assert (set r | r in rows && r.debutYear.Some? ::
              YearLabelAsWritten(r.debutYear.value, YearColumnIsFloat(rows))) == {"2020.0"};
    var sel := Selection([], [], ["2020.0"], 0, 0);
    forall l | l in sel.years
      ensures !IsDigits(l)
    {
      assert l == "2020.0" && l[4] == '.';
    }
    NonNumericYearsShowNothing(Table([DebutYearCol], rows), sel);
  }

  /** With whole-number choices, picking years keeps exactly the rows of the picked years. */
  lemma PickedYearsKeepTheirRows(t: Table, sel: Selection, r: Row)
    requires Active(sel.years)
    requires forall l :: l in sel.years ==> l in YearOptions(t.rows)
    ensures (r.debutYear.Some? && r.debutYear.value in ValidYears(sel.years)) <==>
            (r.debutYear.Some? && ShowNat(r.debutYear.value) in sel.years)
  {
    if r.debutYear.Some? {
      var y := r.debutYear.value;
      if ShowNat(y) in sel.years {
        ShowNatRoundTrip(y);
        assert DigitsValue(ShowNat(y)) in ValidYears(sel.years);
      }
      if y in ValidYears(sel.years) {
        var l :| l in sel.years && IsDigits(l) && DigitsValue(l) == y;
        assert l != "All";
        var q :| q in t.rows && q.debutYear.Some? && l == ShowNat(q.debutYear.value);
        ShowNatRoundTrip(q.debutYear.value);
      }
    }
  }
}
