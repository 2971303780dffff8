/**
 * Properties of the census indicators of module PopVariables, stated against
 * the row-by-row reference semantics (Occurs, Tally).
 */
module PopProperties {
  import opened Wrappers
  import opened PopVariables

  /** The number of rows of area `a` (`groupby(area).size()` unfiltered). */
  ghost function AreaSize(df: Dataset, a: string): nat
  {
    Tally(df, a, None, None)
  }

  /** A mask that can only select a row whose column `c` is present: every
      comparison with a missing value is false. */
  predicate Forces(m: Mask, c: Column)
  {
    match m
    case Equals(col, _) => col == c
    case Between(col, _, _) => col == c
    case Below(col, _) => col == c
    case Above(col, _) => col == c
    case Both(left, right) => Forces(left, c) || Forces(right, c)
  }

  lemma {:induction false} ForcedColumnPresent(r: Row, m: Mask, c: Column)
    requires Forces(m, c) && Holds(r, m)
    ensures Value(r, c).Some?
  {
    match m
    case Both(left, right) =>
      if Forces(left, c) {
        ForcedColumnPresent(r, left, c);
      } else {
        ForcedColumnPresent(r, right, c);
      }
    case _ =>
  }

  // ----- Facts about tallies -----

  /** Counting a column's non-missing values never exceeds counting rows. */
  lemma {:induction false} CountedAtMostRows(df: Dataset, a: string, c: Column, condition: Option<Mask>)
    ensures Tally(df, a, Some(c), condition) <= Tally(df, a, None, condition)
  {
    if df != [] {
      CountedAtMostRows(df[..|df| - 1], a, c, condition);
    }
  }

  /** With no missing value in the column, counting it is counting rows. */
  lemma {:induction false} CountedAllPresent(df: Dataset, a: string, c: Column, condition: Option<Mask>)
    requires forall r :: r in df ==> Value(r, c).Some?
    ensures Tally(df, a, Some(c), condition) == Tally(df, a, None, condition)
  {
    if df != [] {
      var init := df[..|df| - 1];
      assert forall r :: r in init ==> r in df;
      CountedAllPresent(init, a, c, condition);
      assert df[|df| - 1] in df;
    }
  }

  /** A mask that selects fewer rows counts fewer. */
  lemma {:induction false} TallyMonotone(df: Dataset, a: string, colToCount: Option<Column>, inner: Mask, outer: Mask)
    requires forall r :: Holds(r, inner) ==> Holds(r, outer)
    ensures Tally(df, a, colToCount, Some(inner)) <= Tally(df, a, colToCount, Some(outer))
  {
    if df != [] {
      TallyMonotone(df[..|df| - 1], a, colToCount, inner, outer);
    }
  }

  /** An area with a selected row counts at least one when the mask forces the
      counted column to be present. */
  lemma {:induction false} TallyPositive(df: Dataset, a: string, c: Column, m: Mask)
    requires Forces(m, c)
    requires Occurs(df, a, Some(m))
    ensures Tally(df, a, Some(c), Some(m)) >= 1
  {
    var last := df[|df| - 1];
    if last.area == a && Holds(last, m) {
      ForcedColumnPresent(last, m, c);
    } else {
      var r :| r in df && r.area == a && Passes(r, Some(m));
      assert r in df[..|df| - 1] by {
        assert df == df[..|df| - 1] + [last];
      }
      TallyPositive(df[..|df| - 1], a, c, m);
    }
  }

  /** Two masks that never select the same row count no more together than
      the unfiltered count. */
  lemma {:induction false} TallyDisjoint(df: Dataset, a: string, colToCount: Option<Column>, p: Mask, q: Mask)
    requires forall r :: !(Holds(r, p) && Holds(r, q))
    ensures Tally(df, a, colToCount, Some(p)) + Tally(df, a, colToCount, Some(q))
            <= Tally(df, a, colToCount, None)
  {
    if df != [] {
      TallyDisjoint(df[..|df| - 1], a, colToCount, p, q);
    }
  }

  /** The same for three pairwise disjoint masks. */
  lemma {:induction false} TallyDisjoint3(df: Dataset, a: string, colToCount: Option<Column>, p: Mask, q: Mask, s: Mask)
    requires forall r :: !(Holds(r, p) && Holds(r, q))
    requires forall r :: !(Holds(r, p) && Holds(r, s))
    requires forall r :: !(Holds(r, q) && Holds(r, s))
    ensures Tally(df, a, colToCount, Some(p)) + Tally(df, a, colToCount, Some(q)) + Tally(df, a, colToCount, Some(s))
            <= Tally(df, a, colToCount, None)
  {
    if df != [] {
      TallyDisjoint3(df[..|df| - 1], a, colToCount, p, q, s);
    }
  }

  // ----- The grouped counter -----

  /** count_per_barangay with a counted column has the same areas as without
      one, and each count is at most the area's number of passing rows. */
  lemma CountAtMostSize(df: Dataset, c: Column, condition: Option<Mask>)
    ensures CountPerBarangay(df, Some(c), condition).Keys == CountPerBarangay(df, None, condition).Keys
    ensures forall a :: a in CountPerBarangay(df, Some(c), condition) ==>
              CountPerBarangay(df, Some(c), condition)[a] <= CountPerBarangay(df, None, condition)[a]
  {
    var withCol := CountPerBarangay(df, Some(c), condition);
    var size := CountPerBarangay(df, None, condition);
    forall a | a in withCol ensures withCol[a] <= size[a] {
      CountedAtMostRows(df, a, c, condition);
    }
  }

  /** Counting under a narrower mask gives a subset of the areas and no larger
      counts. */
  lemma NestedCountsWithin(df: Dataset, colToCount: Option<Column>, inner: Mask, outer: Mask)
    requires forall r :: Holds(r, inner) ==> Holds(r, outer)
    ensures CountPerBarangay(df, colToCount, Some(inner)).Keys <= CountPerBarangay(df, colToCount, Some(outer)).Keys
    ensures forall a :: a in CountPerBarangay(df, colToCount, Some(inner)) ==>
              CountPerBarangay(df, colToCount, Some(inner))[a] <= CountPerBarangay(df, colToCount, Some(outer))[a]
  {
    var num := CountPerBarangay(df, colToCount, Some(inner));
    var den := CountPerBarangay(df, colToCount, Some(outer));
    forall a | a in num ensures a in den && num[a] <= den[a] {
      var r :| r in df && r.area == a && Passes(r, Some(inner));
      assert Passes(r, Some(outer));
      TallyMonotone(df, a, colToCount, inner, outer);
    }
  }

  /** A count whose mask forces the counted column has no zero entry. */
  lemma ForcedCountPositive(df: Dataset, c: Column, m: Mask)
    requires Forces(m, c)
    ensures forall a :: a in CountPerBarangay(df, Some(c), Some(m)) ==> CountPerBarangay(df, Some(c), Some(m))[a] >= 1
  {
    forall a | a in CountPerBarangay(df, Some(c), Some(m))
      ensures CountPerBarangay(df, Some(c), Some(m))[a] >= 1
    {
      TallyPositive(df, a, c, m);
    }
  }

  // ----- Ratios -----

  /** When the denominator mask forces its counted column, an aligned ratio is
      finite exactly for areas present on both sides and undefined (never
      infinite) elsewhere. */
  lemma ForcedRatioDefinedIff(r: map<string, Quotient>, df: Dataset, numCol: Option<Column>, numCond: Option<Mask>,
                              denCol: Column, denMask: Mask, scale: real)
    requires IsRatio(r, df, numCol, numCond, Some(denCol), Some(denMask), scale)
    requires Forces(denMask, denCol)
    ensures forall a :: a in r ==>
              && (r[a].Finite? <==> Occurs(df, a, numCond) && Occurs(df, a, Some(denMask)))
              && (!r[a].Finite? ==> r[a] == Undefined)
  {
    forall a | a in r && Occurs(df, a, Some(denMask))
      ensures Tally(df, a, Some(denCol), Some(denMask)) >= 1
    {
      TallyPositive(df, a, denCol, denMask);
    }
  }

  lemma RateAtMostHundred(n: nat, d: nat)
    requires 0 < d && n <= d
    ensures 0.0 <= n as real / d as real * 100.0 <= 100.0
  {
    assert n as real / d as real <= 1.0;
  }

  /** A rate whose numerator mask narrows its denominator mask: defined on
      every area with a denominator row, finite exactly where a numerator row
      exists, and then between 0 and 100. */
  lemma NestedRateBounds(r: map<string, Quotient>, df: Dataset, col: Column, inner: Mask, outer: Mask)
    requires IsRatio(r, df, Some(col), Some(inner), Some(col), Some(outer), 100.0)
    requires forall row :: Holds(row, inner) ==> Holds(row, outer)
    requires Forces(outer, col)
    ensures forall a :: a in r <==> Occurs(df, a, Some(outer))
    ensures forall a :: a in r ==>
              && (r[a].Finite? <==> Occurs(df, a, Some(inner)))
              && (!r[a].Finite? ==> r[a] == Undefined)
    ensures forall a :: a in r && r[a].Finite? ==> 0.0 <= r[a].value <= 100.0
  {
    forall a | Occurs(df, a, Some(inner)) ensures Occurs(df, a, Some(outer)) {
      var row :| row in df && row.area == a && Passes(row, Some(inner));
      assert Passes(row, Some(outer));
    }
    ForcedRatioDefinedIff(r, df, Some(col), Some(inner), col, outer, 100.0);
    forall a | a in r && r[a].Finite? ensures 0.0 <= r[a].value <= 100.0 {
      TallyMonotone(df, a, Some(col), inner, outer);
      RateAtMostHundred(Tally(df, a, Some(col), Some(inner)), Tally(df, a, Some(col), Some(outer)));
    }
  }

  // ----- The indicators -----

  /** population: one entry per area of the dataset, counting the rows whose
      population column is present; that is every row of the area when the
      column has no missing value. */
  lemma PopulationCounts(df: Dataset, c: Column)
    ensures forall a :: a in Population(df, c) <==> exists r :: r in df && r.area == a
    ensures forall a :: a in Population(df, c) ==> Population(df, c)[a] <= AreaSize(df, a)
    ensures (forall r :: r in df ==> Value(r, c).Some?) ==>
              forall a :: a in Population(df, c) ==> Population(df, c)[a] == AreaSize(df, a)
  {
    forall a | a in Population(df, c) ensures Population(df, c)[a] <= AreaSize(df, a) {
      CountedAtMostRows(df, a, c, None);
    }
    if forall r :: r in df ==> Value(r, c).Some? {
      forall a | a in Population(df, c) ensures Population(df, c)[a] == AreaSize(df, a) {
        CountedAllPresent(df, a, c, None);
      }
    }
  }

  /** sex_ratio is finite exactly for areas with both a male and a female
      row, and is then 100 times males over females; an area with only one
      sex is undefined. */
  lemma SexRatioDefinedIff(df: Dataset, sex: Column)
    ensures forall a :: a in SexRatio(df, sex) <==> Occurs(df, a, Some(Equals(sex, 1))) || Occurs(df, a, Some(Equals(sex, 2)))
    ensures forall a :: a in SexRatio(df, sex) ==>
              && (SexRatio(df, sex)[a].Finite? <==> Occurs(df, a, Some(Equals(sex, 1))) && Occurs(df, a, Some(Equals(sex, 2))))
              && (!SexRatio(df, sex)[a].Finite? ==> SexRatio(df, sex)[a] == Undefined)
    ensures forall a :: a in SexRatio(df, sex) && SexRatio(df, sex)[a].Finite? ==>
              SexRatio(df, sex)[a].value
                == Tally(df, a, Some(sex), Some(Equals(sex, 1))) as real
                   / Tally(df, a, Some(sex), Some(Equals(sex, 2))) as real * 100.0
  {
    ForcedRatioDefinedIff(SexRatio(df, sex), df, Some(sex), Some(Equals(sex, 1)), sex, Equals(sex, 2), 100.0);
  }

  /** The youth band (age < 15) and the working-age band (15..64) never
      select the same row, so per area their counts add up to at most the
      number of rows with an age. */
  lemma YouthAndWorkingAgeDisjoint(df: Dataset, age: Column)
    ensures forall a :: Tally(df, a, Some(age), Some(Below(age, 15))) + Tally(df, a, Some(age), Some(Between(age, 15, 64)))
                        <= Tally(df, a, Some(age), None)
  {
    forall a ensures Tally(df, a, Some(age), Some(Below(age, 15))) + Tally(df, a, Some(age), Some(Between(age, 15, 64)))
                     <= Tally(df, a, Some(age), None)
    {
      TallyDisjoint(df, a, Some(age), Below(age, 15), Between(age, 15, 64));
    }
  }

  /** youth_dependency_ratio is finite exactly for areas with both a youth and
      a working-age row, and otherwise undefined, never infinite. */
  lemma YouthDependencyDefinedIff(df: Dataset, age: Column)
    ensures forall a :: a in YouthDependencyRatio(df, age) ==>
              && (YouthDependencyRatio(df, age)[a].Finite? <==>
                    Occurs(df, a, Some(Below(age, 15))) && Occurs(df, a, Some(Between(age, 15, 64))))
              && (!YouthDependencyRatio(df, age)[a].Finite? ==> YouthDependencyRatio(df, age)[a] == Undefined)
  {
    ForcedRatioDefinedIff(YouthDependencyRatio(df, age), df, Some(age), Some(Below(age, 15)), age, Between(age, 15, 64), 100.0);
  }

  /** As written, old_age_dependency_ratio is youth_dependency_ratio. */
  lemma OldAgeEqualsYouth(df: Dataset, age: Column)
    ensures OldAgeDependencyRatio(df, age) == YouthDependencyRatio(df, age)
  {
  }

  /** With the corrected mask, the old-age band is disjoint from both the
      youth and the working-age bands. */
  lemma OldAgeCorrectedDisjoint(df: Dataset, age: Column)
    ensures forall a ::
              Tally(df, a, Some(age), Some(Below(age, 15)))
              + Tally(df, a, Some(age), Some(Between(age, 15, 64)))
              + Tally(df, a, Some(age), Some(Above(age, 64)))
              <= Tally(df, a, Some(age), None)
  {
    forall a ensures Tally(df, a, Some(age), Some(Below(age, 15)))
                     + Tally(df, a, Some(age), Some(Between(age, 15, 64)))
                     + Tally(df, a, Some(age), Some(Above(age, 64)))
                     <= Tally(df, a, Some(age), None)
    {
      TallyDisjoint3(df, a, Some(age), Below(age, 15), Between(age, 15, 64), Above(age, 64));
    }
  }

  /** school_attendance_rate: its numerator counts a subset of its
      denominator's rows; the rate is defined on every area with a person
      aged 5 to 24, finite exactly where one of them attends, and then lies in
      [0, 100]. An area where nobody of school age attends gets an undefined
      rate, not 0. */
  lemma SchoolAttendanceRateBounds(df: Dataset, age: Column, attendance: Column)
    ensures CountPerBarangay(df, Some(age), Some(AttendingSchoolAge(age, attendance))).Keys
            <= CountPerBarangay(df, Some(age), Some(SchoolAge(age))).Keys
    ensures forall a :: a in SchoolAttendanceRate(df, age, attendance) <==> Occurs(df, a, Some(SchoolAge(age)))
    ensures forall a :: a in SchoolAttendanceRate(df, age, attendance) ==>
              && (SchoolAttendanceRate(df, age, attendance)[a].Finite? <==> Occurs(df, a, Some(AttendingSchoolAge(age, attendance))))
              && (!SchoolAttendanceRate(df, age, attendance)[a].Finite? ==> SchoolAttendanceRate(df, age, attendance)[a] == Undefined)
    ensures forall a :: a in SchoolAttendanceRate(df, age, attendance) && SchoolAttendanceRate(df, age, attendance)[a].Finite? ==>
              0.0 <= SchoolAttendanceRate(df, age, attendance)[a].value <= 100.0
  {
    NestedCountsWithin(df, Some(age), AttendingSchoolAge(age, attendance), SchoolAge(age));
    NestedRateBounds(SchoolAttendanceRate(df, age, attendance), df, age, AttendingSchoolAge(age, attendance), SchoolAge(age));
  }

  /** adult_literacy_rate: the same shape as the attendance rate, over people
      older than 4. */
  lemma AdultLiteracyRateBounds(df: Dataset, age: Column, literacy: Column)
    ensures CountPerBarangay(df, Some(age), Some(LiterateReadingAge(age, literacy))).Keys
            <= CountPerBarangay(df, Some(age), Some(ReadingAge(age))).Keys
    ensures forall a :: a in AdultLiteracyRate(df, age, literacy) <==> Occurs(df, a, Some(ReadingAge(age)))
    ensures forall a :: a in AdultLiteracyRate(df, age, literacy) ==>
              && (AdultLiteracyRate(df, age, literacy)[a].Finite? <==> Occurs(df, a, Some(LiterateReadingAge(age, literacy))))
              && (!AdultLiteracyRate(df, age, literacy)[a].Finite? ==> AdultLiteracyRate(df, age, literacy)[a] == Undefined)
    ensures forall a :: a in AdultLiteracyRate(df, age, literacy) && AdultLiteracyRate(df, age, literacy)[a].Finite? ==>
              0.0 <= AdultLiteracyRate(df, age, literacy)[a].value <= 100.0
  {
    NestedCountsWithin(df, Some(age), LiterateReadingAge(age, literacy), ReadingAge(age));
    NestedRateBounds(AdultLiteracyRate(df, age, literacy), df, age, LiterateReadingAge(age, literacy), ReadingAge(age));
  }

  /** The OFW numerator grouped inline is count_per_barangay on the OFW column
      under the OFW mask. */
  lemma OfwNumeratorIsCount(df: Dataset, ofw: Column)
    ensures OfwCount(df, ofw) == CountPerBarangay(df, Some(ofw), Some(Equals(ofw, 1)))
  {
  }

  /** A per-thousand ratio over an unfiltered count (the population) whose
      numerator mask forces its counted column: one entry per area; infinite
      exactly where the numerator has a row but the denominator counts
      nothing, finite exactly where both count something, and then 1000
      times their quotient. */
  lemma PerPopulationRatio(r: map<string, Quotient>, df: Dataset, numCol: Column, numMask: Mask, c: Column)
    requires IsRatio(r, df, Some(numCol), Some(numMask), Some(c), None, 1000.0)
    requires Forces(numMask, numCol)
    ensures forall a :: a in r <==> exists row :: row in df && row.area == a
    ensures forall a :: a in r ==>
              && (r[a].Infinite? <==> Occurs(df, a, Some(numMask)) && Tally(df, a, Some(c), None) == 0)
              && (r[a].Finite? <==> Occurs(df, a, Some(numMask)) && Tally(df, a, Some(c), None) > 0)
    ensures forall a :: a in r && r[a].Finite? ==>
              r[a].value == Tally(df, a, Some(numCol), Some(numMask)) as real / Tally(df, a, Some(c), None) as real * 1000.0
  {
    forall a ensures a in r <==> exists row :: row in df && row.area == a {
      PerPopulationKeysAt(r, df, numCol, numMask, c, a);
    }
    forall a | a in r
      ensures && (r[a].Infinite? <==> Occurs(df, a, Some(numMask)) && Tally(df, a, Some(c), None) == 0)
              && (r[a].Finite? <==> Occurs(df, a, Some(numMask)) && Tally(df, a, Some(c), None) > 0)
    {
      PerPopulationRatioAt(r, df, numCol, numMask, c, a);
    }
  }

  /** The keys of PerPopulationRatio at one area: the unfiltered denominator
      has every area of the table. */
  lemma PerPopulationKeysAt(r: map<string, Quotient>, df: Dataset, numCol: Column, numMask: Mask, c: Column, a: string)
    requires IsRatio(r, df, Some(numCol), Some(numMask), Some(c), None, 1000.0)
    ensures a in r <==> exists row :: row in df && row.area == a
  {
    if exists row :: row in df && row.area == a {
      var row :| row in df && row.area == a;
      assert Passes(row, None);
      assert Occurs(df, a, None);
    }
  }

  /** The definedness of PerPopulationRatio at one area. */
  lemma PerPopulationRatioAt(r: map<string, Quotient>, df: Dataset, numCol: Column, numMask: Mask, c: Column, a: string)
    requires IsRatio(r, df, Some(numCol), Some(numMask), Some(c), None, 1000.0)
    requires Forces(numMask, numCol)
    requires a in r
    ensures r[a].Infinite? <==> Occurs(df, a, Some(numMask)) && Tally(df, a, Some(c), None) == 0
    ensures r[a].Finite? <==> Occurs(df, a, Some(numMask)) && Tally(df, a, Some(c), None) > 0
  {
    if Occurs(df, a, Some(numMask)) {
      TallyPositive(df, a, numCol, numMask);
    }
  }

  /** ofw_per_1k_people has an entry for every area; it is infinite exactly
      where the area has an overseas worker but no population value, finite
      exactly where it has both, and then 1000 times workers over population. */
  lemma OfwPer1kDefinedness(df: Dataset, ofw: Column, c: Column)
    ensures forall a :: a in OfwPer1kPeople(df, ofw, c) <==> exists r :: r in df && r.area == a
    ensures forall a :: a in OfwPer1kPeople(df, ofw, c) ==>
              && (OfwPer1kPeople(df, ofw, c)[a].Infinite? <==>
                    Occurs(df, a, Some(Equals(ofw, 1))) && Tally(df, a, Some(c), None) == 0)
              && (OfwPer1kPeople(df, ofw, c)[a].Finite? <==>
                    Occurs(df, a, Some(Equals(ofw, 1))) && Tally(df, a, Some(c), None) > 0)
    ensures forall a :: a in OfwPer1kPeople(df, ofw, c) && OfwPer1kPeople(df, ofw, c)[a].Finite? ==>
              OfwPer1kPeople(df, ofw, c)[a].value
                == Tally(df, a, Some(ofw), Some(Equals(ofw, 1))) as real / Tally(df, a, Some(c), None) as real * 1000.0
  {
    PerPopulationRatio(OfwPer1kPeople(df, ofw, c), df, ofw, Equals(ofw, 1), c);
  }
}

module PopExamples {
  import opened Wrappers
  import opened PopVariables

  /** A person with only an area, a sex code and an age. */
  function Person(area: string, sex: int, age: int): Row
  {
    Row(area, Some(1), Some(sex), Some(age), None, None, None)
  }

  /** Area "A" has two men and two women, area "B" three men. */
  ghost predicate IsSexExample(df: Dataset)
  {
    df == [Person("A", 1, 30), Person("A", 1, 30), Person("A", 2, 30), Person("A", 2, 30),
           Person("B", 1, 30), Person("B", 1, 30), Person("B", 1, 30)]
  }

  lemma SexExampleTallies(df: Dataset)
    requires IsSexExample(df)
    ensures Tally(df, "A", Some(P3), Some(Equals(P3, 1))) == 2
    ensures Tally(df, "A", Some(P3), Some(Equals(P3, 2))) == 2
  {
    var male, female := Some(Equals(P3, 1)), Some(Equals(P3, 2));
    var rows: Dataset := [];
    TallyAppend(rows, df[0], "A", Some(P3), male);
    TallyAppend(rows, df[0], "A", Some(P3), female);
    rows := rows + [df[0]];
    TallyAppend(rows, df[1], "A", Some(P3), male);
    TallyAppend(rows, df[1], "A", Some(P3), female);
    rows := rows + [df[1]];
    TallyAppend(rows, df[2], "A", Some(P3), male);
    TallyAppend(rows, df[2], "A", Some(P3), female);
    rows := rows + [df[2]];
    TallyAppend(rows, df[3], "A", Some(P3), male);
    TallyAppend(rows, df[3], "A", Some(P3), female);
    rows := rows + [df[3]];
    TallyAppend(rows, df[4], "A", Some(P3), male);
    TallyAppend(rows, df[4], "A", Some(P3), female);
    rows := rows + [df[4]];
    TallyAppend(rows, df[5], "A", Some(P3), male);
    TallyAppend(rows, df[5], "A", Some(P3), female);
    rows := rows + [df[5]];
    TallyAppend(rows, df[6], "A", Some(P3), male);
    TallyAppend(rows, df[6], "A", Some(P3), female);
    rows := rows + [df[6]];
    assert rows == df;
  }

  /** The sex ratio of "A" is 100 and that of "B" is undefined. */
  lemma SexRatioExample(df: Dataset)
    requires IsSexExample(df)
    ensures "A" in SexRatio(df) && SexRatio(df)["A"] == Finite(100.0)
    ensures "B" in SexRatio(df) && SexRatio(df)["B"] == Undefined
  {
    var male, female := Equals(P3, 1), Equals(P3, 2);
    SexExampleTallies(df);
    SexExampleOccurs(df);
    RatioAt(SexRatio(df), df, "A", Some(P3), Some(male), Some(P3), Some(female), 100.0, 2, 2);
    RatioUndefinedAt(SexRatio(df), df, "B", Some(P3), Some(male), Some(P3), Some(female), 100.0);
  }

  lemma SexExampleOccurs(df: Dataset)
    requires IsSexExample(df)
    ensures Occurs(df, "A", Some(Equals(P3, 1))) && Occurs(df, "A", Some(Equals(P3, 2)))
    ensures Occurs(df, "B", Some(Equals(P3, 1))) && !Occurs(df, "B", Some(Equals(P3, 2)))
  {
    assert df[0] in df && df[2] in df && df[4] in df;
    forall row | row in df ensures !(row.area == "B" && Passes(row, Some(Equals(P3, 2)))) {
      assert row.area == "B" ==> row.p3 == Some(1);
    }
  }

  /** The value of an aligned ratio at an area present on both sides. */
  lemma RatioAt(r: map<string, Quotient>, df: Dataset, a: string,
                numCol: Option<Column>, numCond: Option<Mask>, denCol: Option<Column>, denCond: Option<Mask>,
                scale: real, n: nat, d: nat)
    requires IsRatio(r, df, numCol, numCond, denCol, denCond, scale)
    requires Occurs(df, a, numCond) && Occurs(df, a, denCond)
    requires Tally(df, a, numCol, numCond) == n && Tally(df, a, denCol, denCond) == d
    ensures a in r && r[a] == Quot(n, d, scale)
  {
  }

  /** An area present only on the numerator side is undefined. */
  lemma RatioUndefinedAt(r: map<string, Quotient>, df: Dataset, a: string,
                         numCol: Option<Column>, numCond: Option<Mask>, denCol: Option<Column>, denCond: Option<Mask>,
                         scale: real)
    requires IsRatio(r, df, numCol, numCond, denCol, denCond, scale)
    requires Occurs(df, a, numCond) && !Occurs(df, a, denCond)
    ensures a in r && r[a] == Undefined
  {
  }

  /** Area "A" has two children of 10, one adult of 30 and one elder of 70. */
  ghost predicate IsAgeExample(df: Dataset)
  {
    df == [Person("A", 1, 10), Person("A", 1, 10), Person("A", 1, 30), Person("A", 1, 70)]
  }

  lemma AgeExampleTallies(df: Dataset)
    requires IsAgeExample(df)
    ensures Tally(df, "A", Some(P5), Some(Below(P5, 15))) == 2
    ensures Tally(df, "A", Some(P5), Some(Between(P5, 15, 64))) == 1
    ensures Tally(df, "A", Some(P5), Some(Above(P5, 64))) == 1
  {
    var young, working, elder := Some(Below(P5, 15)), Some(Between(P5, 15, 64)), Some(Above(P5, 64));
    var rows: Dataset := [];
    TallyAppend(rows, df[0], "A", Some(P5), young);
    TallyAppend(rows, df[0], "A", Some(P5), working);
    TallyAppend(rows, df[0], "A", Some(P5), elder);
    rows := rows + [df[0]];
    TallyAppend(rows, df[1], "A", Some(P5), young);
    TallyAppend(rows, df[1], "A", Some(P5), working);
    TallyAppend(rows, df[1], "A", Some(P5), elder);
    rows := rows + [df[1]];
    TallyAppend(rows, df[2], "A", Some(P5), young);
    TallyAppend(rows, df[2], "A", Some(P5), working);
    TallyAppend(rows, df[2], "A", Some(P5), elder);
    rows := rows + [df[2]];
    TallyAppend(rows, df[3], "A", Some(P5), young);
    TallyAppend(rows, df[3], "A", Some(P5), working);
    TallyAppend(rows, df[3], "A", Some(P5), elder);
    rows := rows + [df[3]];
    assert rows == df;
  }

  lemma AgeExampleOccurs(df: Dataset)
    requires IsAgeExample(df)
    ensures Occurs(df, "A", Some(Below(P5, 15)))
    ensures Occurs(df, "A", Some(Between(P5, 15, 64)))
    ensures Occurs(df, "A", Some(Above(P5, 64)))
  {
    assert df[0] in df && df[2] in df && df[3] in df;
  }

  /** As written, the old-age dependency ratio of this area is 200: it
      counts the two children per working-age adult. */
  lemma OldAgeAsWrittenCountsChildren(df: Dataset)
    requires IsAgeExample(df)
    ensures "A" in OldAgeDependencyRatio(df) && OldAgeDependencyRatio(df)["A"] == Finite(200.0)
  {
    AgeExampleTallies(df);
    AgeExampleOccurs(df);
    RatioAt(OldAgeDependencyRatio(df), df, "A", Some(P5), Some(Below(P5, 15)), Some(P5), Some(Between(P5, 15, 64)), 100.0, 2, 1);
  }

  /** With the corrected mask the same area has ratio 100: one elder per
      working-age adult. */
  lemma OldAgeCorrectedCountsElders(df: Dataset)
    requires IsAgeExample(df)
    ensures "A" in OldAgeDependencyRatioCorrected(df) && OldAgeDependencyRatioCorrected(df)["A"] == Finite(100.0)
  {
    AgeExampleTallies(df);
    AgeExampleOccurs(df);
    RatioAt(OldAgeDependencyRatioCorrected(df), df, "A", Some(P5), Some(Above(P5, 64)), Some(P5), Some(Between(P5, 15, 64)), 100.0, 1, 1);
  }
}
