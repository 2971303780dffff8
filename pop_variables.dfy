/**
 * Per-area census indicators (scripts/pop_variables.py).
 *
 * A dataset is a sequence of person rows. Each row carries the area code it is
 * grouped by and the coded census answers the indicators read; a missing answer
 * is `None` (pandas NaN). Every indicator is a ratio of two grouped counts,
 * divided with pandas' index alignment: an area present in only one of the two
 * counts gets an undefined value.
 */
module PopVariables {
  import opened Wrappers

  /** The coded columns the indicators read (P2 population, P3 sex, P5 age,
      P10 school attendance, P11 literacy, P15 overseas-worker status). */
  datatype Column = P2 | P3 | P5 | P10 | P11 | P15

  /** One person record: its area code and its coded answers. */
  datatype Row = Row(area: string,
                     p2: Option<int>, p3: Option<int>, p5: Option<int>,
                     p10: Option<int>, p11: Option<int>, p15: Option<int>)

  type Dataset = seq<Row>

  function Value(r: Row, c: Column): Option<int>
  {
    match c
    case P2 => r.p2
    case P3 => r.p3
    case P5 => r.p5
    case P10 => r.p10
    case P11 => r.p11
    case P15 => r.p15
  }

  /** The boolean masks the indicators build from the columns. */
  datatype Mask =
    | Equals(col: Column, code: int)           // df[col] == code
    | Between(col: Column, lo: int, hi: int)   // df[col].between(lo, hi, "both")
    | Below(col: Column, bound: int)           // df[col] < bound
    | Above(col: Column, bound: int)           // df[col] > bound
    | Both(left: Mask, right: Mask)            // left & right

  /** Whether a row is selected by a mask; every comparison with a missing
      value is false, as it is for NaN. */
  predicate Holds(r: Row, m: Mask)
    ensures !m.Both? && Value(r, m.col).None? ==> !Holds(r, m)
  {
    match m
    case Equals(c, code) => Value(r, c) == Some(code)
    case Between(c, lo, hi) => Value(r, c).Some? && lo <= Value(r, c).value <= hi
    case Below(c, bound) => Value(r, c).Some? && Value(r, c).value < bound
    case Above(c, bound) => Value(r, c).Some? && Value(r, c).value > bound
    case Both(left, right) => Holds(r, left) && Holds(r, right)
  }

  /** A row survives the optional `condition` filter. */
  predicate Passes(r: Row, condition: Option<Mask>)
  {
    condition.None? || Holds(r, condition.value)
  }

  /** What a row adds to its group: `size()` counts every row, `count()` only
      those whose counted column is not missing. */
  function Counted(r: Row, colToCount: Option<Column>): nat
  {
    if colToCount.None? || Value(r, colToCount.value).Some? then 1 else 0
  }

  /** `df[condition]`: the rows the mask keeps, in their original order. */
  function Filter(df: Dataset, condition: Option<Mask>): (rows: Dataset)
    ensures |rows| <= |df|
  {
    if df == [] then []
    else
      var rest := Filter(df[..|df| - 1], condition);
      var last := df[|df| - 1];
      if Passes(last, condition) then rest + [last] else rest
  }

  /** The filter keeps exactly the rows that pass. */
  lemma {:induction false} FilterKeeps(df: Dataset, condition: Option<Mask>)
    ensures forall r :: r in Filter(df, condition) <==> r in df && Passes(r, condition)
  {
    if df != [] {
      var init := df[..|df| - 1];
      FilterKeeps(init, condition);
      assert df == init + [df[|df| - 1]];
    }
  }

  /** The area codes occurring in a set of rows. */
  function AreasOf(rows: Dataset): set<string>
  {
    set r | r in rows :: r.area
  }

  /** `groupby(area).size()` / `groupby(area)[col].count()`, accumulated row by
      row: one entry per area that has at least one row, even when none of its
      rows has the counted column. */
  function GroupCount(rows: Dataset, colToCount: Option<Column>): (counts: map<string, nat>)
    ensures counts.Keys == AreasOf(rows)
  {
    if rows == [] then map[]
    else
      var init := rows[..|rows| - 1];
      var last := rows[|rows| - 1];
      var counts := GroupCount(init, colToCount);
      var before := if last.area in counts then counts[last.area] else 0;
      assert rows == init + [last];
      assert AreasOf(rows) == AreasOf(init) + {last.area};
      counts[last.area := before + Counted(last, colToCount)]
  }

  /** count_per_barangay: filter by the optional condition, then count per
      area. The result holds exactly the areas with a passing row (no
      zero-fill), each mapped to the number of its passing rows that are
      counted. */
  function CountPerBarangay(df: Dataset, colToCount: Option<Column>, condition: Option<Mask>): (counts: map<string, nat>)
    ensures IsGroupedCount(counts, df, colToCount, condition)
  {
    GroupCountOfFilter(df, colToCount, condition);
    GroupCount(Filter(df, condition), colToCount)
  }

  // ----- The reference semantics of a grouped count, stated row by row -----

  /** Area `a` has at least one row passing `condition`. */
  ghost predicate Occurs(df: Dataset, a: string, condition: Option<Mask>)
  {
    exists r :: r in df && r.area == a && Passes(r, condition)
  }

  /** How many rows of area `a` pass `condition` and are counted. */
  ghost function Tally(df: Dataset, a: string, colToCount: Option<Column>, condition: Option<Mask>): nat
  {
    if df == [] then 0
    else
      var last := df[|df| - 1];
      Tally(df[..|df| - 1], a, colToCount, condition)
        + (if last.area == a && Passes(last, condition) then Counted(last, colToCount) else 0)
  }

  /** `counts` is the grouped count of `df` in the reference sense: exactly the
      areas with a passing row, each mapped to its tally. */
  ghost predicate IsGroupedCount(counts: map<string, nat>, df: Dataset,
                                 colToCount: Option<Column>, condition: Option<Mask>)
  {
    && (forall a :: a in counts <==> Occurs(df, a, condition))
    && (forall a :: a in counts ==> counts[a] == Tally(df, a, colToCount, condition))
  }

  lemma {:induction false} TallyAbsent(df: Dataset, a: string, colToCount: Option<Column>, condition: Option<Mask>)
    requires !Occurs(df, a, condition)
    ensures Tally(df, a, colToCount, condition) == 0
  {
    if df != [] {
      var init := df[..|df| - 1];
      forall r | r in init ensures !(r.area == a && Passes(r, condition)) {
        assert r in df;
      }
      TallyAbsent(init, a, colToCount, condition);
      assert df[|df| - 1] in df;
    }
  }

  /** The row-by-row accumulation of GroupCount agrees with the tally. */
  lemma {:induction false} GroupCountTally(rows: Dataset, colToCount: Option<Column>)
    ensures forall a :: a in GroupCount(rows, colToCount) ==>
              GroupCount(rows, colToCount)[a] == Tally(rows, a, colToCount, None)
  {
    if rows != [] {
      var init := rows[..|rows| - 1];
      var last := rows[|rows| - 1];
      GroupCountTally(init, colToCount);
      if last.area !in GroupCount(init, colToCount) {
        assert !Occurs(init, last.area, None);
        TallyAbsent(init, last.area, colToCount, None);
      }
    }
  }

  /** Filtering first and counting everything equals counting what passes. */
  lemma {:induction false} FilterTally(df: Dataset, a: string, colToCount: Option<Column>, condition: Option<Mask>)
    ensures Tally(Filter(df, condition), a, colToCount, None) == Tally(df, a, colToCount, condition)
  {
    if df != [] {
      var init := df[..|df| - 1];
      var last := df[|df| - 1];
      var rest := Filter(init, condition);
      FilterTally(init, a, colToCount, condition);
      assert df == init + [last];
      TallyAppend(init, last, a, colToCount, condition);
      FilterLast(df, condition);
      if Passes(last, condition) {
        TallyAppend(rest, last, a, colToCount, None);
      }
    }
  }

  /** One step of Filter, from the end. */
  lemma FilterLast(df: Dataset, condition: Option<Mask>)
    requires df != []
    ensures Filter(df, condition)
         == if Passes(df[|df| - 1], condition) then Filter(df[..|df| - 1], condition) + [df[|df| - 1]]
            else Filter(df[..|df| - 1], condition)
  {
  }

  /** One step of Tally, from the end. */
  lemma TallyAppend(rows: Dataset, r: Row, a: string, colToCount: Option<Column>, condition: Option<Mask>)
    ensures Tally(rows + [r], a, colToCount, condition)
         == Tally(rows, a, colToCount, condition)
            + (if r.area == a && Passes(r, condition) then Counted(r, colToCount) else 0)
  {
    assert (rows + [r])[..|rows|] == rows;
  }

  /** Filtering, then grouping and counting, gives the grouped count of the
      passing rows in the reference sense. */
  lemma GroupCountOfFilter(df: Dataset, colToCount: Option<Column>, condition: Option<Mask>)
    ensures IsGroupedCount(GroupCount(Filter(df, condition), colToCount), df, colToCount, condition)
  {
    var rows := Filter(df, condition);
    var counts := GroupCount(rows, colToCount);
    FilterKeeps(df, condition);
    GroupCountTally(rows, colToCount);
    forall a ensures a in counts <==> Occurs(df, a, condition) {
      if a in counts {
        var r :| r in rows && r.area == a;
      }
      if Occurs(df, a, condition) {
        var r :| r in df && r.area == a && Passes(r, condition);
        assert r in rows;
      }
    }
    forall a | a in counts ensures counts[a] == Tally(df, a, colToCount, condition) {
      FilterTally(df, a, colToCount, condition);
    }
  }

  // ----- Index-aligned division -----

  /** The value of one cell of a quotient series. */
  datatype Quotient = Finite(value: real) | Infinite | Undefined

  /** `n / d * scale` on two integer counts: n/0 is +inf, 0/0 is NaN. */
  function Quot(n: nat, d: nat, scale: real): (q: Quotient)
    ensures q.Finite? <==> d > 0
    ensures q.Infinite? <==> d == 0 && n > 0
  {
    if d > 0 then Finite(n as real / d as real * scale)
    else if n > 0 then Infinite
    else Undefined
  }

  /** `num / den * scale` with pandas alignment: the result has the union of
      the two indices, and an area missing on either side is NaN. */
  function Divide(num: map<string, nat>, den: map<string, nat>, scale: real): (r: map<string, Quotient>)
    ensures r.Keys == num.Keys + den.Keys
  {
    map a | a in num.Keys + den.Keys ::
      if a in num && a in den then Quot(num[a], den[a], scale) else Undefined
  }

  /** `r` is the aligned ratio of the counts described by (numCol, numCond) and
      (denCol, denCond), in the reference sense. */
  ghost predicate IsRatio(r: map<string, Quotient>, df: Dataset,
                          numCol: Option<Column>, numCond: Option<Mask>,
                          denCol: Option<Column>, denCond: Option<Mask>, scale: real)
  {
    && (forall a :: a in r <==> Occurs(df, a, numCond) || Occurs(df, a, denCond))
    && (forall a :: a in r ==>
          r[a] == if Occurs(df, a, numCond) && Occurs(df, a, denCond)
                  then Quot(Tally(df, a, numCol, numCond), Tally(df, a, denCol, denCond), scale)
                  else Undefined)
  }

  /** Dividing two grouped counts gives their aligned ratio. */
  lemma DivideIsRatio(num: map<string, nat>, den: map<string, nat>, df: Dataset,
                      numCol: Option<Column>, numCond: Option<Mask>,
                      denCol: Option<Column>, denCond: Option<Mask>, scale: real)
    requires IsGroupedCount(num, df, numCol, numCond)
    requires IsGroupedCount(den, df, denCol, denCond)
    ensures IsRatio(Divide(num, den, scale), df, numCol, numCond, denCol, denCond, scale)
  {
  }

  // ----- The indicators -----

  /** population: the count of non-missing population-column values per area. */
  function Population(df: Dataset, colToCount: Column := P2): (r: map<string, nat>)
    ensures IsGroupedCount(r, df, Some(colToCount), None)
  {
    CountPerBarangay(df, Some(colToCount), None)
  }

  /** sex_ratio: males (code 1) per hundred females (code 2). */
  function SexRatio(df: Dataset, sex: Column := P3): (r: map<string, Quotient>)
    ensures IsRatio(r, df, Some(sex), Some(Equals(sex, 1)), Some(sex), Some(Equals(sex, 2)), 100.0)
  {
    var countMales := CountPerBarangay(df, Some(sex), Some(Equals(sex, 1)));
    var countFemales := CountPerBarangay(df, Some(sex), Some(Equals(sex, 2)));
    DivideIsRatio(countMales, countFemales, df, Some(sex), Some(Equals(sex, 1)), Some(sex), Some(Equals(sex, 2)), 100.0);
    Divide(countMales, countFemales, 100.0)
  }

  /** working_age_population: people aged 15 to 64, both ends included. */
  function WorkingAgePopulation(df: Dataset, age: Column := P5): (r: map<string, nat>)
    ensures IsGroupedCount(r, df, Some(age), Some(Between(age, 15, 64)))
  {
    CountPerBarangay(df, Some(age), Some(Between(age, 15, 64)))
  }

  /** youth_dependency_ratio: people under 15 per hundred of working age. */
  function YouthDependencyRatio(df: Dataset, age: Column := P5): (r: map<string, Quotient>)
    ensures IsRatio(r, df, Some(age), Some(Below(age, 15)), Some(age), Some(Between(age, 15, 64)), 100.0)
  {
    var countYouth := CountPerBarangay(df, Some(age), Some(Below(age, 15)));
    DivideIsRatio(countYouth, WorkingAgePopulation(df, age), df,
                  Some(age), Some(Below(age, 15)), Some(age), Some(Between(age, 15, 64)), 100.0);
    Divide(countYouth, WorkingAgePopulation(df, age), 100.0)
  }

  /** old_age_dependency_ratio as written: its mask is `age < 15`, the youth
      mask, so it counts the young, not the old. */
  function OldAgeDependencyRatio(df: Dataset, age: Column := P5): (r: map<string, Quotient>)
    ensures IsRatio(r, df, Some(age), Some(Below(age, 15)), Some(age), Some(Between(age, 15, 64)), 100.0)
  {
    var countOldAge := CountPerBarangay(df, Some(age), Some(Below(age, 15)));
    DivideIsRatio(countOldAge, WorkingAgePopulation(df, age), df,
                  Some(age), Some(Below(age, 15)), Some(age), Some(Between(age, 15, 64)), 100.0);
    Divide(countOldAge, WorkingAgePopulation(df, age), 100.0)
  }

  /** The old-age dependency ratio with the evidently intended mask `age > 64`. */
  function OldAgeDependencyRatioCorrected(df: Dataset, age: Column := P5): (r: map<string, Quotient>)
    ensures IsRatio(r, df, Some(age), Some(Above(age, 64)), Some(age), Some(Between(age, 15, 64)), 100.0)
  {
    var countOldAge := CountPerBarangay(df, Some(age), Some(Above(age, 64)));
    DivideIsRatio(countOldAge, WorkingAgePopulation(df, age), df,
                  Some(age), Some(Above(age, 64)), Some(age), Some(Between(age, 15, 64)), 100.0);
    Divide(countOldAge, WorkingAgePopulation(df, age), 100.0)
  }

  /** The school-age mask of school_attendance_rate. */
  function SchoolAge(age: Column): Mask { Between(age, 5, 24) }

  /** The attending-and-school-age mask of school_attendance_rate. */
  function AttendingSchoolAge(age: Column, attendance: Column): Mask
  {
    Both(Equals(attendance, 1), SchoolAge(age))
  }

  /** school_attendance_rate: attending people aged 5 to 24 per hundred people aged 5 to 24. */
  function SchoolAttendanceRate(df: Dataset, age: Column := P5, attendance: Column := P10): (r: map<string, Quotient>)
    ensures IsRatio(r, df, Some(age), Some(AttendingSchoolAge(age, attendance)), Some(age), Some(SchoolAge(age)), 100.0)
  {
    var countAttending := CountPerBarangay(df, Some(age), Some(AttendingSchoolAge(age, attendance)));
    var countSchoolAge := CountPerBarangay(df, Some(age), Some(SchoolAge(age)));
    DivideIsRatio(countAttending, countSchoolAge, df,
                  Some(age), Some(AttendingSchoolAge(age, attendance)), Some(age), Some(SchoolAge(age)), 100.0);
    Divide(countAttending, countSchoolAge, 100.0)
  }

  /** The reading-age mask of adult_literacy_rate. */
  function ReadingAge(age: Column): Mask { Above(age, 4) }

  /** The literate-and-reading-age mask of adult_literacy_rate. */
  function LiterateReadingAge(age: Column, literacy: Column): Mask
  {
    Both(Equals(literacy, 1), ReadingAge(age))
  }

  /** adult_literacy_rate: literate people over 4 per hundred people over 4. */
  function AdultLiteracyRate(df: Dataset, age: Column := P5, literacy: Column := P11): (r: map<string, Quotient>)
    ensures IsRatio(r, df, Some(age), Some(LiterateReadingAge(age, literacy)), Some(age), Some(ReadingAge(age)), 100.0)
  {
    var countLiterate := CountPerBarangay(df, Some(age), Some(LiterateReadingAge(age, literacy)));
    var countReadingAge := CountPerBarangay(df, Some(age), Some(ReadingAge(age)));
    DivideIsRatio(countLiterate, countReadingAge, df,
                  Some(age), Some(LiterateReadingAge(age, literacy)), Some(age), Some(ReadingAge(age)), 100.0);
    Divide(countLiterate, countReadingAge, 100.0)
  }

  /** The OFW numerator of ofw_per_1k_people, grouped directly in the source
      rather than through count_per_barangay. */
  function OfwCount(df: Dataset, ofw: Column := P15): (counts: map<string, nat>)
    ensures IsGroupedCount(counts, df, Some(ofw), Some(Equals(ofw, 1)))
  {
    GroupCountOfFilter(df, Some(ofw), Some(Equals(ofw, 1)));
    GroupCount(Filter(df, Some(Equals(ofw, 1))), Some(ofw))
  }

  /** ofw_per_1k_people: overseas workers (code 1) per thousand population. */
  function OfwPer1kPeople(df: Dataset, ofw: Column := P15, colToCount: Column := P2): (r: map<string, Quotient>)
    ensures IsRatio(r, df, Some(ofw), Some(Equals(ofw, 1)), Some(colToCount), None, 1000.0)
  {
    var countOfw := OfwCount(df, ofw);
    var countPop := Population(df, colToCount);
    DivideIsRatio(countOfw, countPop, df, Some(ofw), Some(Equals(ofw, 1)), Some(colToCount), None, 1000.0);
    Divide(countOfw, countPop, 1000.0)
  }
}
