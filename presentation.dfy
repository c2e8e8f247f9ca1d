/**
 * The results view: sorting by debut date, projecting the display columns, the market
 * value highlight and the money and percent formatters.
 */
module Presentation {
  import opened Wrappers
  import opened Records
  import opened Filtering

  /** `a` may come before `b` when sorting by debut date, latest first, missing dates last. */
  predicate ListedBefore(a: Option<Date>, b: Option<Date>) {
    match a
    case None => b.None?
    case Some(x) => b.None? || NotAfter(b.value, x)
  }

  predicate LatestFirst(rows: seq<Row>) {
    forall i, j :: 0 <= i < j < |rows| ==> ListedBefore(rows[i].debutDate, rows[j].debutDate)
  }

  /** Inserts `r` into rows already listed latest first. */
  function Insert(r: Row, sorted: seq<Row>): (s: seq<Row>)
    ensures multiset(s) == multiset(sorted) + multiset{r}
    decreases |sorted|
  {
    if |sorted| == 0 then [r]
    else if ListedBefore(r.debutDate, sorted[0].debutDate) then [r] + sorted
    else
      assert sorted == [sorted[0]] + sorted[1..];
      [sorted[0]] + Insert(r, sorted[1..])
  }

  lemma {:induction false} InsertKeepsOrder(r: Row, sorted: seq<Row>)
    requires LatestFirst(sorted)
    ensures LatestFirst(Insert(r, sorted))
    decreases |sorted|
  {
    if |sorted| > 0 && !ListedBefore(r.debutDate, sorted[0].debutDate) {
      var rest := Insert(r, sorted[1..]);
      InsertKeepsOrder(r, sorted[1..]);
      forall x | x in rest
        ensures ListedBefore(sorted[0].debutDate, x.debutDate)
      {
        assert x in multiset(rest);
        if x != r {
          assert x in multiset(sorted[1..]);
          var k :| 0 <= k < |sorted[1..]| && sorted[1..][k] == x;
          assert sorted[k + 1] == x;
        }
      }
      var s := [sorted[0]] + rest;
      forall i, j | 0 <= i < j < |s|
        ensures ListedBefore(s[i].debutDate, s[j].debutDate)
      {
        if i == 0 {
          assert s[j] == rest[j - 1];
          assert s[j] in rest;
        } else {
          assert s[i] == rest[i - 1] && s[j] == rest[j - 1];
        }
      }
    }
  }

  /** `sort_values('Debut Date', ascending=False)`: one of the orders pandas may produce.
      Rows with equal dates may come in any order; only this much is promised. */
  function SortByDate(rows: seq<Row>): (sorted: seq<Row>)
    ensures multiset(sorted) == multiset(rows)
    ensures |sorted| == |rows|
    ensures LatestFirst(sorted)
    decreases |rows|
  {
    if |rows| == 0 then []
    else
      var rest := SortByDate(rows[1..]);
      InsertKeepsOrder(rows[0], rest);
      assert rows == [rows[0]] + rows[1..];
      Insert(rows[0], rest)
  }

  /** Line 264-265: a non-empty result with a date column is sorted, latest debut first. */
  method SortForDisplay(t: Table) returns (out: Table)
    ensures out.columns == t.columns
    ensures multiset(out.rows) == multiset(t.rows)
    ensures |t.rows| > 0 && DebutDateCol in t.columns ==> LatestFirst(out.rows)
    ensures !(|t.rows| > 0 && DebutDateCol in t.columns) ==> out.rows == t.rows
  {
    out := t;
    if |t.rows| > 0 && DebutDateCol in t.columns {
      out := Table(t.columns, SortByDate(t.rows));
    }
  }

  /** The display columns, in display order. */
  const DisplayColumns: seq<string> := [
    CompetitionCol, PlayerNameCol, PositionCol, NationalityCol, DebutClubCol, OpponentCol,
    DebutDateCol, AgeCol, GoalsForCol, GoalsAgainstCol, AppearancesCol, GoalsCol,
    MinutesCol, DebutValueCol, CurrentValueCol, PctChangeCol
  ]

  /** `[c for c in allow if c in cols]`. */
  function PresentColumns(allow: seq<string>, cols: seq<string>): (header: seq<string>)
    ensures forall c :: c in header <==> c in allow && c in cols
    ensures Subsequence(header, allow)
    decreases |allow|
  {
    if |allow| == 0 then []
    else if allow[0] in cols then [allow[0]] + PresentColumns(allow[1..], cols)
    else PresentColumns(allow[1..], cols)
  }

  predicate Distinct<T(==)>(s: seq<T>) {
    forall i, j :: 0 <= i < j < |s| ==> s[i] != s[j]
  }

  lemma {:induction false} SubsequenceMembers<T>(a: seq<T>, b: seq<T>)
    requires Subsequence(a, b)
    ensures forall x :: x in a ==> x in b
    decreases |b|
  {
    if |a| > 0 {
      if a[0] == b[0] && Subsequence(a[1..], b[1..]) {
        SubsequenceMembers(a[1..], b[1..]);
        forall x | x in a
          ensures x in b
        {
          if x != a[0] {
            assert x in a[1..];
          }
        }
      } else {
        SubsequenceMembers(a, b[1..]);
      }
    }
  }

  lemma {:induction false} SubsequenceOfDistinct<T>(a: seq<T>, b: seq<T>)
    requires Subsequence(a, b) && Distinct(b)
    ensures Distinct(a)
    decreases |b|
  {
    if |a| > 0 {
      assert Distinct(b[1..]) by {
        forall i, j | 0 <= i < j < |b[1..]|
          ensures b[1..][i] != b[1..][j]
        {
          assert b[1..][i] == b[i + 1] && b[1..][j] == b[j + 1];
        }
      }
      if a[0] == b[0] && Subsequence(a[1..], b[1..]) {
        SubsequenceOfDistinct(a[1..], b[1..]);
        SubsequenceMembers(a[1..], b[1..]);
        forall i, j | 0 <= i < j < |a|
          ensures a[i] != a[j]
        {
          if i == 0 {
            assert a[j] == a[1..][j - 1];
            assert a[j] in b[1..];
            var k :| 0 <= k < |b[1..]| && b[1..][k] == a[j];
            assert b[k + 1] == a[j];
          } else {
            assert a[i] == a[1..][i - 1] && a[j] == a[1..][j - 1];
          }
        }
      } else {
        SubsequenceOfDistinct(a, b[1..]);
      }
    }
  }

  /** The view's header holds every display column the table has, and no other, each once,
      in display order. */
  lemma ShownColumnsInDisplayOrder(cols: seq<string>)
    ensures forall c :: c in PresentColumns(DisplayColumns, cols) <==> c in DisplayColumns && c in cols
    ensures Subsequence(PresentColumns(DisplayColumns, cols), DisplayColumns)
    ensures Distinct(PresentColumns(DisplayColumns, cols))
  {
    SubsequenceOfDistinct(PresentColumns(DisplayColumns, cols), DisplayColumns);
  }

  /** A rendered table: column names and one list of cell values per row. */
  datatype Grid = Grid(header: seq<string>, cells: seq<seq<Value>>)

  predicate Rectangular(g: Grid) {
    forall i :: 0 <= i < |g.cells| ==> |g.cells[i]| == |g.header|
  }

  /** Lines 286-287: `filtered_data[display_columns].reset_index(drop=True)`. */
  function Project(t: Table): (g: Grid)
    ensures g.header == PresentColumns(DisplayColumns, t.columns)
    ensures |g.cells| == |t.rows| && Rectangular(g)
    ensures forall i, j :: 0 <= i < |g.cells| && 0 <= j < |g.header| ==>
              g.cells[i][j] == Cell(t.rows[i], g.header[j])
  {
    var header := PresentColumns(DisplayColumns, t.columns);
    Grid(header, seq(|t.rows|, i requires 0 <= i < |t.rows| =>
                       seq(|header|, j requires 0 <= j < |header| => Cell(t.rows[i], header[j]))))
  }

  const UpStyle := "background-color: #c6f6d5"
  const DownStyle := "background-color: #feb2b2"

  /** Comparisons with a missing value are false: no style. */
  function MarketValueStyle(debut: Value, current: Value): string {
    if debut.Num? && current.Num? && current.x > debut.x then UpStyle
    else if debut.Num? && current.Num? && current.x < debut.x then DownStyle
    else ""
  }

  function IndexOf(s: seq<string>, x: string): (k: nat)
    requires x in s
    ensures k < |s| && s[k] == x
    decreases |s|
  {
    if s[0] == x then 0 else 1 + IndexOf(s[1..], x)
  }

  /** `highlight_mv`: a style per cell, all empty except the current market value cells, and
      those only when both value columns are shown. */
  function Styles(g: Grid): (styles: seq<seq<string>>)
    requires Rectangular(g)
  {
    var both := DebutValueCol in g.header && CurrentValueCol in g.header;
    seq(|g.cells|, i requires 0 <= i < |g.cells| =>
      seq(|g.header|, j requires 0 <= j < |g.header| =>
        if both && g.header[j] == CurrentValueCol
        then MarketValueStyle(g.cells[i][IndexOf(g.header, DebutValueCol)], g.cells[i][j])
        else ""))
  }

  /** Only a current market value cell is ever styled; it is green exactly when both values
      are present and the current one is higher, red exactly when it is lower. */
  lemma HighlightRule(g: Grid, i: nat, j: nat)
    requires Rectangular(g) && i < |g.cells| && j < |g.header|
    requires DebutValueCol in g.header && CurrentValueCol in g.header
    ensures |Styles(g)| == |g.cells| && |Styles(g)[i]| == |g.header|
    ensures g.header[j] != CurrentValueCol ==> Styles(g)[i][j] == ""
    ensures g.header[j] == CurrentValueCol ==>
              var d, c := g.cells[i][IndexOf(g.header, DebutValueCol)], g.cells[i][j];
              && (Styles(g)[i][j] == UpStyle <==> d.Num? && c.Num? && c.x > d.x)
              && (Styles(g)[i][j] == DownStyle <==> d.Num? && c.Num? && c.x < d.x)
              && (Styles(g)[i][j] == "" <==> !(d.Num? && c.Num?) || c.x == d.x)
  {
  }

  /** Without both value columns nothing is styled. */
  lemma NoHighlightWithoutBothColumns(g: Grid, i: nat, j: nat)
    requires Rectangular(g) && i < |g.cells| && j < |g.header|
    requires !(DebutValueCol in g.header && CurrentValueCol in g.header)
    ensures Styles(g)[i][j] == ""
  {
  }

  /** A formatted cell. The digits of a present amount are not modelled (`Euro`, `Signed`). */
  datatype Shown = Raw(v: Value) | Plain(text: string) | Euro(amount: real) | Signed(percent: real)

  /** `money_format`: a missing amount reads "€0". */
  function MoneyFormat(v: Value): Shown {
    if v.Num? then Euro(v.x) else Plain("€0")
  }

  /** `pct_format`: an undefined change reads as the empty string. */
  function PctFormat(v: Value): Shown {
    if v.Num? then Signed(v.x) else Plain("")
  }

  /** The formatter of a column: money for the shown value columns, percent for the change. */
  function FormatCell(column: string, v: Value): Shown {
    if column == DebutValueCol || column == CurrentValueCol then MoneyFormat(v)
    else if column == PctChangeCol then PctFormat(v)
    else Raw(v)
  }

  function Render(g: Grid): (shown: seq<seq<Shown>>)
    requires Rectangular(g)
  {
    seq(|g.cells|, i requires 0 <= i < |g.cells| =>
      seq(|g.header|, j requires 0 <= j < |g.header| => FormatCell(g.header[j], g.cells[i][j])))
  }

  /** Missing money cells read "€0", an undefined change reads "", every other column is left
      to the default rendering; the two null conventions differ. */
  lemma RenderedNulls(g: Grid, i: nat, j: nat)
    requires Rectangular(g) && i < |g.cells| && j < |g.header|
    ensures |Render(g)| == |g.cells| && |Render(g)[i]| == |g.header|
    ensures g.cells[i][j].Null? && g.header[j] in {DebutValueCol, CurrentValueCol} ==>
              Render(g)[i][j] == Plain("€0")
    ensures g.cells[i][j].Null? && g.header[j] == PctChangeCol ==> Render(g)[i][j] == Plain("")
    ensures g.header[j] !in {DebutValueCol, CurrentValueCol, PctChangeCol} ==>
              Render(g)[i][j] == Raw(g.cells[i][j])
    ensures MoneyFormat(Null) != PctFormat(Null)
  {
  }
}
