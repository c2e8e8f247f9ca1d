/**
 * The debut table: one `Row` per player debut, and the table's column list.
 * Every spreadsheet column the dashboard reads is a field of `Row`; a field whose
 * column is absent from `Table.columns` is never consulted. Missing cells
 * (NaN, NaT, None) are `None`.
 */
module Records {
  import opened Wrappers

  /** A parsed debut date (the result of `pd.to_datetime(..., errors='coerce')`). */
  datatype Date = Date(year: nat, month: nat, day: nat)

  /** `a` is the same day as `b` or earlier. */
  predicate NotAfter(a: Date, b: Date) {
    a.year < b.year
    || (a.year == b.year && (a.month < b.month || (a.month == b.month && a.day <= b.day)))
  }

  datatype Row = Row(
    competition: Option<string>,
    country: Option<string>,
    playerName: Option<string>,
    position: Option<string>,
    nationality: Option<string>,
    secondNationality: Option<string>,
    debutClub: Option<string>,
    opponent: Option<string>,
    debutType: Option<string>,
    debutDate: Option<Date>,
    debutMonth: Option<string>,
    ageAtDebut: Option<real>,
    goalsFor: Option<int>,
    goalsAgainst: Option<int>,
    appearances: Option<int>,
    goals: Option<int>,
    minutesPlayed: Option<int>,
    valueAtDebut: Option<real>,
    currentValue: Option<real>,
    // derived columns, (re)computed by the loader and the main script
    debutYear: Option<nat>,
    compCountryId: Option<string>,
    compCountryLabel: Option<string>,
    pctChange: Option<real>)

  /** A data frame: its column names, in order, and its rows. */
  datatype Table = Table(columns: seq<string>, rows: seq<Row>)

  // Display column names.
  const CompetitionCol := "Competition"
  const CountryCol := "Country"
  const PlayerNameCol := "Player Name"
  const PositionCol := "Position"
  const NationalityCol := "Nationality"
  const DebutClubCol := "Debut Club"
  const OpponentCol := "Opponent"
  const DebutDateCol := "Debut Date"
  const DebutMonthCol := "Debut Month"
  const AgeCol := "Age at Debut"
  const GoalsForCol := "Goals For"
  const GoalsAgainstCol := "Goals Against"
  const AppearancesCol := "Appearances"
  const GoalsCol := "Goals"
  const MinutesCol := "Minutes Played"
  const DebutValueCol := "Value at Debut"
  const CurrentValueCol := "Current Market Value"
  const DebutYearCol := "Debut Year"
  const CompCountryIdCol := "CompCountryID"
  const CompCountryLabelCol := "Competition (Country)"
  const PctChangeCol := "% Change"

  /** The spreadsheet's source column names and the display names they are renamed to. */
  const RenameMap: map<string, string> := map[
    "comp_name" := CompetitionCol,
    "country" := CountryCol,
    "player_name" := PlayerNameCol,
    "position" := PositionCol,
    "nationality" := NationalityCol,
    "second_nationality" := "Second Nationality",
    "debut_for" := DebutClubCol,
    "debut_date" := DebutDateCol,
    "age_debut" := AgeCol,
    "debut_month" := DebutMonthCol,
    "goals_for" := GoalsForCol,
    "goals_against" := GoalsAgainstCol,
    "value_at_debut" := DebutValueCol,
    "player_market_value" := CurrentValueCol,
    "appearances" := AppearancesCol,
    "goals" := GoalsCol,
    "minutes_played" := MinutesCol,
    "debut_type" := "Debut Type",
    "opponent" := OpponentCol
  ]

  /** `DataFrame.rename(columns=...)` on one header: mapped names change, others stay. */
  function DisplayName(header: string): string {
    if header in RenameMap then RenameMap[header] else header
  }

  /** The header row after renaming, position by position. */
  function RenameColumns(headers: seq<string>): (cols: seq<string>)
    ensures |cols| == |headers|
    ensures forall i :: 0 <= i < |headers| ==>
              cols[i] == (if headers[i] in RenameMap then RenameMap[headers[i]] else headers[i])
  {
    seq(|headers|, i requires 0 <= i < |headers| => DisplayName(headers[i]))
  }

  /** Renaming never merges two source columns into one display column. */
  lemma RenameIsInjective(a: string, b: string)
    requires a in RenameMap && b in RenameMap && a != b
    ensures RenameMap[a] != RenameMap[b]
  {
  }

  /** `data[name] = ...`: assigning a column adds it at the end unless it already exists. */
  function WithColumn(cols: seq<string>, name: string): (r: seq<string>)
    ensures name in r
    ensures forall c :: c in cols ==> c in r
    ensures forall c :: c in r ==> c in cols || c == name
    ensures |r| == |cols| + (if name in cols then 0 else 1)
    ensures r[..|cols|] == cols
  {
    if name in cols then cols else cols + [name]
  }

  /** A cell value once the table is projected for display. */
  datatype Value = Null | Text(s: string) | Num(x: real) | Whole(n: int) | Day(d: Date)

  function TextValue(o: Option<string>): Value {
    if o.Some? then Text(o.value) else Null
  }

  function NumValue(o: Option<real>): Value {
    if o.Some? then Num(o.value) else Null
  }

  function WholeValue(o: Option<int>): Value {
    if o.Some? then Whole(o.value) else Null
  }

  /** `row[column]` for the display columns (-> `Null` for any other name). */
  function Cell(r: Row, column: string): Value {
    if column == CompetitionCol then TextValue(r.competition)
    else if column == PlayerNameCol then TextValue(r.playerName)
    else if column == PositionCol then TextValue(r.position)
    else if column == NationalityCol then TextValue(r.nationality)
    else if column == DebutClubCol then TextValue(r.debutClub)
    else if column == OpponentCol then TextValue(r.opponent)
    else if column == DebutDateCol then (if r.debutDate.Some? then Day(r.debutDate.value) else Null)
    else if column == AgeCol then NumValue(r.ageAtDebut)
    else if column == GoalsForCol then WholeValue(r.goalsFor)
    else if column == GoalsAgainstCol then WholeValue(r.goalsAgainst)
    else if column == AppearancesCol then WholeValue(r.appearances)
    else if column == GoalsCol then WholeValue(r.goals)
    else if column == MinutesCol then WholeValue(r.minutesPlayed)
    else if column == DebutValueCol then NumValue(r.valueAtDebut)
    else if column == CurrentValueCol then NumValue(r.currentValue)
    else if column == PctChangeCol then NumValue(r.pctChange)
    else Null
  }
}
