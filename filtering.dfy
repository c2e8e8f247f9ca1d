/**
 * Row selection by boolean masks: the age clean-up after loading and the five filter
 * steps of the results view. Every step keeps the rows that satisfy one criterion, in
 * their original order (`df = df[mask]`).
 */
module Filtering {
  import opened Wrappers
  import opened Text
  import opened Records
  import opened Loading

  /** `a` is `b` with some elements left out, the rest in their original order. */
  predicate Subsequence<T(==)>(a: seq<T>, b: seq<T>)
    decreases |b|
  {
    if |a| == 0 then true
    else if |b| == 0 then false
    else (a[0] == b[0] && Subsequence(a[1..], b[1..])) || Subsequence(a, b[1..])
  }

  /** One boolean mask over the rows. A missing cell fails every comparison (NaN). */
  datatype Criterion =
    | KeyIn(keys: set<string>)
    | MonthIn(months: set<string>)
    | YearIn(years: set<nat>)
    | AgeAtLeast(minAge: int)
    | AgeAtMost(maxAge: int)
    | MinutesAtLeast(minMinutes: int)

  predicate Holds(c: Criterion, r: Row) {
    match c
    case KeyIn(keys) => r.compCountryId.Some? && r.compCountryId.value in keys
    case MonthIn(months) => r.debutMonth.Some? && r.debutMonth.value in months
    case YearIn(years) => r.debutYear.Some? && r.debutYear.value in years
    case AgeAtLeast(bound) => r.ageAtDebut.Some? && r.ageAtDebut.value >= bound as real
    case AgeAtMost(bound) => r.ageAtDebut.Some? && r.ageAtDebut.value <= bound as real
    case MinutesAtLeast(bound) => r.minutesPlayed.Some? && r.minutesPlayed.value >= bound
  }

  predicate HoldsAll(cs: seq<Criterion>, r: Row) {
    forall i :: 0 <= i < |cs| ==> Holds(cs[i], r)
  }

  /** The rows satisfying every criterion of `cs`, in their original order. */
  function Sieve(rows: seq<Row>, cs: seq<Criterion>): (kept: seq<Row>)
    ensures |kept| <= |rows|
    ensures forall r :: r in kept <==> r in rows && HoldsAll(cs, r)
    ensures Subsequence(kept, rows)
    ensures forall r :: multiset(kept)[r] == (if HoldsAll(cs, r) then multiset(rows)[r] else 0)
    decreases |rows|
  {
    if |rows| == 0 then []
    else
      assert rows == [rows[0]] + rows[1..];
      if HoldsAll(cs, rows[0]) then [rows[0]] + Sieve(rows[1..], cs)
      else Sieve(rows[1..], cs)
  }

  lemma HoldsAllConcat(a: seq<Criterion>, b: seq<Criterion>, r: Row)
    ensures HoldsAll(a + b, r) <==> HoldsAll(a, r) && HoldsAll(b, r)
  {
    if HoldsAll(a, r) && HoldsAll(b, r) {
      forall i | 0 <= i < |a + b|
        ensures Holds((a + b)[i], r)
      {
        if i >= |a| {
          assert (a + b)[i] == b[i - |a|];
        }
      }
    }
    if HoldsAll(a + b, r) {
      forall i | 0 <= i < |a|
        ensures Holds(a[i], r)
      {
        assert (a + b)[i] == a[i];
      }
      forall i | 0 <= i < |b|
        ensures Holds(b[i], r)
      {
        assert (a + b)[|a| + i] == b[i];
      }
    }
  }

  /** The criterion `c` when `b` holds, no criterion otherwise. */
  function When(b: bool, c: Criterion): seq<Criterion> {
    if b then [c] else []
  }

  lemma HoldsWhen(b: bool, c: Criterion, r: Row)
    ensures HoldsAll(When(b, c), r) <==> (b ==> Holds(c, r))
  {
    if b {
      assert When(b, c)[0] == c;
    }
  }

  /** No criterion at all keeps every row. */
  lemma {:induction false} SieveWithoutCriteria(rows: seq<Row>)
    ensures Sieve(rows, []) == rows
    decreases |rows|
  {
    if |rows| > 0 {
      SieveWithoutCriteria(rows[1..]);
    }
  }

  /** Applying one more mask to a sieved table is sieving by the longer criteria list. */
  lemma {:induction false} SieveStep(rows: seq<Row>, cs: seq<Criterion>, c: Criterion)
    ensures Sieve(Sieve(rows, cs), [c]) == Sieve(rows, cs + [c])
    decreases |rows|
  {
    if |rows| > 0 {
      var r := rows[0];
      HoldsAllConcat(cs, [c], r);
      SieveStep(rows[1..], cs, c);
      if HoldsAll(cs, r) {
        assert Sieve(rows, cs)[1..] == Sieve(rows[1..], cs);
      }
    }
  }

  /** Sieving an already sieved table by the same criteria changes nothing. */
  lemma {:induction false} SieveIdempotent(rows: seq<Row>, cs: seq<Criterion>)
    ensures Sieve(Sieve(rows, cs), cs) == Sieve(rows, cs)
    decreases |rows|
  {
    if |rows| > 0 {
      SieveIdempotent(rows[1..], cs);
      if HoldsAll(cs, rows[0]) {
        assert Sieve(rows, cs)[1..] == Sieve(rows[1..], cs);
      }
    }
  }

  /** Lines 164-165: the clean-up applied once after loading. */
  function AgeCleanup(cols: seq<string>): seq<Criterion> {
    When(AgeCol in cols, AgeAtLeast(0))
  }

  /** A row passing the clean-up of a sheet with an age column has an age of at least zero. */
  lemma AgeCleanupHolds(cols: seq<string>, r: Row)
    requires HoldsAll(AgeCleanup(cols), r)
    ensures AgeCol in cols ==> r.ageAtDebut.Some? && r.ageAtDebut.value >= 0.0
  {
    HoldsWhen(AgeCol in cols, AgeAtLeast(0), r);
  }

  /** Drops every row whose age at debut is not at least zero (a missing age too),
      when the table has an age column. */
  method DropInvalidAges(t: Table) returns (out: Table)
    ensures out.columns == t.columns
    ensures out.rows == Sieve(t.rows, AgeCleanup(t.columns))
    ensures AgeCol in t.columns ==>
              forall r :: r in out.rows <==> r in t.rows && r.ageAtDebut.Some? && r.ageAtDebut.value >= 0.0
    ensures AgeCol !in t.columns ==> out.rows == t.rows
  {
    var rows := t.rows;
    if AgeCol in t.columns {
      rows := Sieve(rows, [AgeAtLeast(0)]);
      forall r
        ensures HoldsAll([AgeAtLeast(0)], r) <==> Holds(AgeAtLeast(0), r)
      {
        HoldsWhen(true, AgeAtLeast(0), r);
      }
    } else {
      SieveWithoutCriteria(rows);
    }
    return Table(t.columns, rows);
  }

  /** What the user picked in the filter widgets. */
  datatype Selection = Selection(
    competitions: seq<string>,
    months: seq<string>,
    years: seq<string>,
    maxAge: int,
    minMinutes: int)

  /** A multi-select restricts its dimension only when something is picked and "All" is not. */
  predicate Active(choice: seq<string>) {
    |choice| > 0 && "All" !in choice
  }

  /** The filter keys of the picked competition labels (line 243). */
  function SelectedKeys(choice: seq<string>): set<string> {
    set l | l in choice :: LabelToKey(l)
  }

  /** The picked year labels that are all digits, as numbers (line 252); the rest are ignored. */
  function ValidYears(choice: seq<string>): set<nat> {
    set l | l in choice && IsDigits(l) :: DigitsValue(l)
  }

  /** The masks the results view applies, in the order it applies them. */
  function ActiveCriteria(cols: seq<string>, sel: Selection): seq<Criterion> {
    When(Active(sel.competitions), KeyIn(SelectedKeys(sel.competitions)))
    + When(Active(sel.months), MonthIn(set m | m in sel.months))
    + When(Active(sel.years), YearIn(ValidYears(sel.years)))
    + When(AgeCol in cols, AgeAtMost(sel.maxAge))
    + When(MinutesCol in cols, MinutesAtLeast(sel.minMinutes))
  }

  /** The rows of `t` the results view shows for `sel`, before sorting. */
  function Filtered(t: Table, sel: Selection): seq<Row> {
    Sieve(t.rows, ActiveCriteria(t.columns, sel))
  }

  /** One filter step, `if active: filtered_data = filtered_data[mask]`, on rows that are
      `base` sieved by the criteria `applied` so far. */
  method Narrow(ghost base: seq<Row>, rows: seq<Row>, ghost applied: seq<Criterion>,
                active: bool, step: Criterion)
    returns (narrowed: seq<Row>, ghost now: seq<Criterion>)
    requires rows == Sieve(base, applied)
    ensures now == applied + When(active, step)
    ensures narrowed == Sieve(base, now)
  {
    if active {
      SieveStep(base, applied, step);
      narrowed, now := Sieve(rows, [step]), applied + [step];
    } else {
      narrowed, now := rows, applied;
      assert applied + [] == applied;
    }
  }

  /** Narrows a copy of the table through the five filter steps. The widgets offer an empty
      selection for a dimension whose column is missing, so an active selection always
      finds its column. */
  method ApplyFilters(t: Table, sel: Selection) returns (out: Table)
    requires Active(sel.competitions) ==> CompCountryIdCol in t.columns
    requires Active(sel.months) ==> DebutMonthCol in t.columns
    requires Active(sel.years) ==> DebutYearCol in t.columns
    ensures out.columns == t.columns
    ensures out.rows == Filtered(t, sel)
  {
    var rows := t.rows;
    ghost var applied: seq<Criterion> := [];
    SieveWithoutCriteria(t.rows);
    rows, applied := Narrow(t.rows, rows, applied, Active(sel.competitions),
                            KeyIn(SelectedKeys(sel.competitions)));
    assert applied == When(Active(sel.competitions), KeyIn(SelectedKeys(sel.competitions)));
    rows, applied := Narrow(t.rows, rows, applied, Active(sel.months),
                            MonthIn(set m | m in sel.months));
    rows, applied := Narrow(t.rows, rows, applied, Active(sel.years),
                            YearIn(ValidYears(sel.years)));
    rows, applied := Narrow(t.rows, rows, applied, AgeCol in t.columns, AgeAtMost(sel.maxAge));
    rows, applied := Narrow(t.rows, rows, applied, MinutesCol in t.columns,
                            MinutesAtLeast(sel.minMinutes));
    assert applied == ActiveCriteria(t.columns, sel);
    return Table(t.columns, rows);
  }

  /** A row satisfies the active criteria iff it passes each dimension that is switched on. */
  lemma ActiveCriteriaHold(cols: seq<string>, sel: Selection, r: Row)
    ensures HoldsAll(ActiveCriteria(cols, sel), r) <==>
              && (Active(sel.competitions) ==>
                    r.compCountryId.Some? && r.compCountryId.value in SelectedKeys(sel.competitions))
              && (Active(sel.months) ==> r.debutMonth.Some? && r.debutMonth.value in sel.months)
              && (Active(sel.years) ==> r.debutYear.Some? && r.debutYear.value in ValidYears(sel.years))
              && (AgeCol in cols ==> r.ageAtDebut.Some? && r.ageAtDebut.value <= sel.maxAge as real)
              && (MinutesCol in cols ==> r.minutesPlayed.Some? && r.minutesPlayed.value >= sel.minMinutes)
  {
    var c1 := When(Active(sel.competitions), KeyIn(SelectedKeys(sel.competitions)));
    var c2 := When(Active(sel.months), MonthIn(set m | m in sel.months));
    var c3 := When(Active(sel.years), YearIn(ValidYears(sel.years)));
    var c4 := When(AgeCol in cols, AgeAtMost(sel.maxAge));
    var c5 := When(MinutesCol in cols, MinutesAtLeast(sel.minMinutes));
    assert ActiveCriteria(cols, sel) == c1 + c2 + c3 + c4 + c5;
    HoldsAllConcat(c1 + c2 + c3 + c4, c5, r);
    HoldsAllConcat(c1 + c2 + c3, c4, r);
    HoldsAllConcat(c1 + c2, c3, r);
    HoldsAllConcat(c1, c2, r);
    HoldsWhen(Active(sel.competitions), KeyIn(SelectedKeys(sel.competitions)), r);
    HoldsWhen(Active(sel.months), MonthIn(set m | m in sel.months), r);
    HoldsWhen(Active(sel.years), YearIn(ValidYears(sel.years)), r);
    HoldsWhen(AgeCol in cols, AgeAtMost(sel.maxAge), r);
    HoldsWhen(MinutesCol in cols, MinutesAtLeast(sel.minMinutes), r);
  }

  /** A row is shown iff it is in the table and satisfies every active dimension: a picked
      competition key, month and year (each bypassed when nothing or "All" is picked), an
      age at most the maximum and minutes at least the minimum (each when the column exists). */
  lemma FilterMembership(t: Table, sel: Selection, r: Row)
    ensures r in Filtered(t, sel) <==>
              && r in t.rows
              && (Active(sel.competitions) ==>
                    r.compCountryId.Some? && r.compCountryId.value in SelectedKeys(sel.competitions))
              && (Active(sel.months) ==> r.debutMonth.Some? && r.debutMonth.value in sel.months)
              && (Active(sel.years) ==> r.debutYear.Some? && r.debutYear.value in ValidYears(sel.years))
              && (AgeCol in t.columns ==> r.ageAtDebut.Some? && r.ageAtDebut.value <= sel.maxAge as real)
              && (MinutesCol in t.columns ==>
                    r.minutesPlayed.Some? && r.minutesPlayed.value >= sel.minMinutes)
  {
    assert r in Filtered(t, sel) <==> r in t.rows && HoldsAll(ActiveCriteria(t.columns, sel), r);
    ActiveCriteriaHold(t.columns, sel, r);
  }

  /** Filtering the filtered rows again with the same selection changes nothing. */
  lemma FilterIdempotent(t: Table, sel: Selection)
    ensures Filtered(Table(t.columns, Filtered(t, sel)), sel) == Filtered(t, sel)
  {
    SieveIdempotent(t.rows, ActiveCriteria(t.columns, sel));
  }

  /** A year selection of labels none of which is all digits, without "All", shows no row. */
  lemma NonNumericYearsShowNothing(t: Table, sel: Selection)
    requires Active(sel.years)
    requires forall l :: l in sel.years ==> !IsDigits(l)
    ensures Filtered(t, sel) == []
  {
    assert ValidYears(sel.years) == {};
    if Filtered(t, sel) != [] {
      var r := Filtered(t, sel)[0];
      FilterMembership(t, sel, r);
      assert false;
    }
  }
}
