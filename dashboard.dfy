/**
 * One run of the results view: load, add the percent change, drop invalid ages, filter,
 * sort, project, style and format.
 */
module Dashboard {
  import opened Wrappers
  import opened Records
  import opened Loading
  import opened Metrics
  import opened Filtering
  import opened Presentation
  import opened Selectors
  import Text

  /** `row.get(name)`: missing when the row has no such column. */
  function DebutValueOf(cols: seq<string>, r: Row): Option<real> {
    if DebutValueCol in cols then r.valueAtDebut else None
  }

  function CurrentValueOf(cols: seq<string>, r: Row): Option<real> {
    if CurrentValueCol in cols then r.currentValue else None
  }

  function WithPercentChange(cols: seq<string>, r: Row): Row {
    r.(pctChange := PercentChange(DebutValueOf(cols, r), CurrentValueOf(cols, r)))
  }

  /** Line 162: adds the `% Change` column, row by row. */
  method AddPercentChange(t: Table) returns (out: Table)
    ensures out.columns == WithColumn(t.columns, PctChangeCol)
    ensures |out.rows| == |t.rows|
    ensures forall i :: 0 <= i < |t.rows| ==>
              && out.rows[i].pctChange.None? ==
                   (DebutValueOf(t.columns, t.rows[i]).None? || CurrentValueOf(t.columns, t.rows[i]).None?
                    || DebutValueOf(t.columns, t.rows[i]).value == 0.0)
              && out.rows[i] == WithPercentChange(t.columns, t.rows[i])
  {
    var rows := seq(|t.rows|, i requires 0 <= i < |t.rows| => WithPercentChange(t.columns, t.rows[i]));
    return Table(WithColumn(t.columns, PctChangeCol), rows);
  }

  /** A raw row once loaded and given its percent change, in a sheet with columns `cols`. */
  function Prepared(cols: seq<string>, r: Row): Row {
    WithPercentChange(cols, Derived(r))
  }

  function PreparedRows(cols: seq<string>, raw: seq<Row>): (rows: seq<Row>)
    ensures |rows| == |raw|
    ensures forall i :: 0 <= i < |raw| ==> rows[i] == Prepared(cols, raw[i])
  {
    seq(|raw|, i requires 0 <= i < |raw| => Prepared(cols, raw[i]))
  }

  /** The working set every filter choice is built from: the loaded rows with their percent
      change, without invalid ages. */
  function WorkingSet(headers: seq<string>, raw: seq<Row>): Table
    requires Loadable(RenameColumns(headers))
  {
    var cols := LoadedColumns(RenameColumns(headers));
    var cols' := WithColumn(cols, PctChangeCol);
    Table(cols', Sieve(PreparedRows(cols, raw), AgeCleanup(cols')))
  }

  lemma PreparedRowFacts(cols: seq<string>, r: Row)
    ensures !(Prepared(cols, r).competition == Some("Bundesliga") && Prepared(cols, r).country == Some("Germany"))
    ensures Prepared(cols, r).compCountryId == CompKey(Prepared(cols, r).competition, Prepared(cols, r).country)
    ensures Prepared(cols, r).compCountryLabel == CompLabel(Prepared(cols, r).competition, Prepared(cols, r).country)
  {
    BundesligaRelabelled(r);
  }

  /** Every row of the working set has a well-defined age at debut, when the sheet has an
      age column. */
  lemma WorkingSetAgesValid(headers: seq<string>, raw: seq<Row>, r: Row)
    requires Loadable(RenameColumns(headers))
    requires r in WorkingSet(headers, raw).rows
    ensures AgeCol in RenameColumns(headers) ==> r.ageAtDebut.Some? && r.ageAtDebut.value >= 0.0
  {
    var cols := LoadedColumns(RenameColumns(headers));
    var cols' := WithColumn(cols, PctChangeCol);
    var rows := PreparedRows(cols, raw);
    assert r in Sieve(rows, AgeCleanup(cols'));
    assert HoldsAll(AgeCleanup(cols'), r);
    AgeCleanupHolds(cols', r);
    if AgeCol in RenameColumns(headers) {
      assert AgeCol in cols';
    }
  }

  /** No row of the working set is a German "Bundesliga", and each carries the key and the
      label of its own competition and country. */
  lemma WorkingSetCompetitions(headers: seq<string>, raw: seq<Row>, r: Row)
    requires Loadable(RenameColumns(headers))
    requires r in WorkingSet(headers, raw).rows
    ensures !(r.competition == Some("Bundesliga") && r.country == Some("Germany"))
    ensures r.compCountryId == CompKey(r.competition, r.country)
    ensures r.compCountryLabel == CompLabel(r.competition, r.country)
  {
    var rows := PreparedRows(LoadedColumns(RenameColumns(headers)), raw);
    assert r in rows;
    var i :| 0 <= i < |raw| && r == rows[i];
    PreparedRowFacts(LoadedColumns(RenameColumns(headers)), raw[i]);
  }

  /** For a shown row with a positive value at debut, the current market value cell is green
      exactly when the percent change is positive and red exactly when it is negative. */
  lemma HighlightMatchesPercentChange(t: Table, i: nat, j: nat)
    requires i < |t.rows|
    requires DebutValueCol in t.columns && CurrentValueCol in t.columns
    requires t.rows[i].valueAtDebut.Some? && t.rows[i].valueAtDebut.value > 0.0
    requires t.rows[i].pctChange == PercentChange(t.rows[i].valueAtDebut, t.rows[i].currentValue)
    requires j < |PresentColumns(DisplayColumns, t.columns)|
    requires PresentColumns(DisplayColumns, t.columns)[j] == CurrentValueCol
    ensures Styles(Project(t))[i][j] == UpStyle <==>
              t.rows[i].pctChange.Some? && t.rows[i].pctChange.value > 0.0
    ensures Styles(Project(t))[i][j] == DownStyle <==>
              t.rows[i].pctChange.Some? && t.rows[i].pctChange.value < 0.0
  {
    var g := Project(t);
    assert DebutValueCol in g.header && CurrentValueCol in g.header;
    HighlightRule(g, i, j);
    var k := IndexOf(g.header, DebutValueCol);
    assert g.cells[i][k] == Cell(t.rows[i], DebutValueCol) == Num(t.rows[i].valueAtDebut.value);
    assert g.cells[i][j] == Cell(t.rows[i], CurrentValueCol);
    if t.rows[i].currentValue.Some? {
      PercentChangeSign(t.rows[i].valueAtDebut.value, t.rows[i].currentValue.value);
    }
  }

  /** The year choices the dashboard offers for a loadable sheet: the years of the working
      set, labelled with the dtype the year column got over all loaded rows. */
  function YearChoices(headers: seq<string>, raw: seq<Row>): set<string>
    requires Loadable(RenameColumns(headers))
  {
    YearOptionsAsWritten(PreparedRows(LoadedColumns(RenameColumns(headers)), raw), WorkingSet(headers, raw).rows)
  }

  /** What the page shows: the rows in display order, the projected grid, its styles and its
      formatted cells. */
  datatype Report = Report(rows: seq<Row>, grid: Grid, styles: seq<seq<string>>, shown: seq<seq<Shown>>)

  /** A whole run. A sheet without a debut date, competition or country column fails to load.
      The picked years are among the offered year choices. When a loaded row lacks a debut
      year those choices read "2020.0" and any year pick empties the page; otherwise every
      shown row's year is a picked label. When competition labels are picked and no name
      can be confused by the label-to-key conversion, every shown row carries a picked label. */
  method Run(headers: seq<string>, raw: seq<Row>, sel: Selection) returns (report: Option<Report>)
    requires Active(sel.months) ==> DebutMonthCol in RenameColumns(headers)
    requires Loadable(RenameColumns(headers)) ==>
               forall l :: l in sel.years ==> l in YearChoices(headers, raw)
    ensures report.None? <==> !Loadable(RenameColumns(headers))
    ensures report.Some? ==>
              && multiset(report.value.rows) == multiset(Filtered(WorkingSet(headers, raw), sel))
              && LatestFirst(report.value.rows)
              && report.value.grid == Project(Table(WorkingSet(headers, raw).columns, report.value.rows))
              && report.value.styles == Styles(report.value.grid)
              && report.value.shown == Render(report.value.grid)
    ensures report.Some? && Active(sel.competitions)
            && (forall l :: l in sel.competitions ==> l in CompetitionOptions(WorkingSet(headers, raw).rows))
            && (forall q :: q in WorkingSet(headers, raw).rows ==> CleanFields(q)) ==>
              forall r :: r in report.value.rows ==>
                r.compCountryLabel.Some? && r.compCountryLabel.value in sel.competitions
    ensures report.Some? && Active(sel.years)
            && YearColumnIsFloat(PreparedRows(LoadedColumns(RenameColumns(headers)), raw)) ==>
              report.value.rows == []
    ensures report.Some? && Active(sel.years) ==>
              forall r :: r in report.value.rows ==>
                r.debutYear.Some? && Text.ShowNat(r.debutYear.value) in sel.years
  {
    var loaded := Load(headers, raw);
    if loaded.None? {
      return None;
    }
    var t := loaded.value;
    ghost var cols := LoadedColumns(RenameColumns(headers));
    t := AddPercentChange(t);
    assert t.rows == PreparedRows(cols, raw);
    t := DropInvalidAges(t);
    assert t == WorkingSet(headers, raw);
    var f := ApplyFilters(t, sel);
    var s := SortForDisplay(f);
    if Active(sel.competitions) && (forall l :: l in sel.competitions ==> l in CompetitionOptions(t.rows))
       && (forall q :: q in t.rows ==> CleanFields(q)) {
      forall q | q in t.rows
        ensures KeyedByOwnFields(q) && CleanFields(q)
      {
        WorkingSetCompetitions(headers, raw, q);
      }
      forall r | r in s.rows
        ensures r.compCountryLabel.Some? && r.compCountryLabel.value in sel.competitions
      {
        assert r in multiset(s.rows);
        FilterMembership(t, sel, r);
        OfferedLabelsSelectTheirRows(t, sel, r);
      }
    }
    if Active(sel.years) {
      ghost var loadedRows := PreparedRows(cols, raw);
      if YearColumnIsFloat(loadedRows) {
        AsWrittenYearPicksShowNothing(loadedRows, t, sel);
        assert |s.rows| == |multiset(f.rows)| == 0;
      } else {
        forall l | l in sel.years
          ensures l in YearOptions(t.rows)
        {
          WholeYearsWhenNoneMissing(loadedRows, t.rows, l);
        }
        forall r | r in s.rows
          ensures r.debutYear.Some? && Text.ShowNat(r.debutYear.value) in sel.years
        {
          assert r in multiset(s.rows);
          FilterMembership(t, sel, r);
          PickedYearsKeepTheirRows(t, sel, r);
        }
      }
    }
    var g := Project(s);
    return Some(Report(s.rows, g, Styles(g), Render(g)));
  }
}
