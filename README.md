# psa_cph census indicators, modelled in Dafny

This project models the computational core of `psa_cph`, which processes
Philippine census (CPH) person records:

- `scripts/pop_variables.py` derives per-barangay indicators from a table of
  person records. The indicators are population, sex ratio, working-age
  population, youth and old-age dependency ratios, school attendance rate,
  adult literacy rate and overseas Filipino workers (OFW) per thousand people.
  Each is a grouped count (`groupby(...).size()` or `.count()`) or a quotient
  of two grouped counts.
- `scripts/psgc.py` builds the Philippine Standard Geographic Code (PSGC) of
  each row. It zero-fills the region, province, municipality and barangay
  codes to their widths and joins them after `"PH"`.

Files:

- `wrappers.dfy`: `Option`, used for a missing cell (pandas NaN).
- `pop_variables.dfy` (module `PopVariables`):
  - rows, columns and the boolean masks the indicators build;
  - `CountPerBarangay`, written as a filter followed by a fold over the rows;
  - pandas' index-aligned division, with its NaN and inf cells, as a `Quotient` per area;
  - every indicator, each tied by its `ensures` to a row-by-row reference
    semantics (`Occurs`, `Tally`, `IsGroupedCount`, `IsRatio`).
- `pop_properties.dfy`:
  - module `PopProperties`: what the indicators promise, meaning where each
    is defined, finite or infinite, its bounds, and how the age bands relate;
  - module `PopExamples`: small concrete datasets.
- `psgc.dfy` (module `Psgc`):
  - `str`, `zfill` and the code of one row;
  - a decoder, with a round trip proved for rows whose codes fit their widths;
  - `GetBrgyPsgc`, the method that fills one column of padded parts per level
    and then joins them, as the source does.

Conventions:

- The grouping key (`for_each`) is the row's `area` field.
- A missing value is `None`. Every comparison with it is false, so a mask
  never selects it, and `count()` skips it.
- `groupby` keeps an area whose filtered rows all miss the counted column,
  with count 0.
- A quotient series has the union of the two indices:
  - an area present on only one side is `Undefined` (NaN);
  - `n / 0` is `Infinite` for `n > 0`;
  - `0 / 0` is `Undefined`.

  Consequences:
  - an area with school-age people but none attending gets an undefined
    attendance rate, not 0;
  - the same holds for the literacy rate.

The code of region 1, province 4, municipality 23, barangay 5 with the default
widths is `"PH010423005"` (`Psgc.BrgyCodeExample`). It has 11 characters, as
`Psgc.DefaultCodeLength` proves for every row that fits the default widths.

## Model

| member | source | states |
|---|---|---|
| PopVariables.Holds | scripts/pop_variables.py:20-21 | a comparison mask (`==`, `between`, `<`, `>`) never selects a row whose compared column is missing, since NaN compares false |
| PopVariables.Filter | scripts/pop_variables.py:6-7 | `df[condition]` keeps no more rows than it is given |
| PopVariables.FilterKeeps | scripts/pop_variables.py:6-7 | a row is in the filtered table iff it is in the table and passes the condition (no condition keeps all) |
| PopVariables.GroupCount | scripts/pop_variables.py:9-12 | the grouped count has one key per area occurring in the rows, including areas whose count is 0 |
| PopVariables.GroupCountTally | scripts/pop_variables.py:9-12 | each area's accumulated count equals the number of its rows that are counted (all rows for `size()`, rows with the column present for `count()`) |
| PopVariables.FilterTally | scripts/pop_variables.py:5-12 | counting after filtering equals counting, in the whole table, the rows that pass the condition |
| PopVariables.GroupCountOfFilter | scripts/pop_variables.py:5-12 | grouping and counting the filtered rows gives exactly the areas with a passing row, each mapped to the number of its passing rows whose counted column is present |
| PopVariables.CountPerBarangay | scripts/pop_variables.py:5-12 | count_per_barangay returns exactly the areas with a passing row (no zero-fill), each mapped to the number of its passing rows that are counted (all of them for `size()`, those with the column present for `count()`) |
| PopVariables.Quot | scripts/pop_variables.py:25 | a quotient cell is finite iff the denominator is non-zero, and infinite iff the denominator is 0 and the numerator positive |
| PopVariables.Divide | scripts/pop_variables.py:25 | dividing two series gives the union of their indices |
| PopVariables.DivideIsRatio | scripts/pop_variables.py:25 | dividing two grouped counts gives, per area, the quotient of the two tallies where both counts have the area and NaN where only one has it |
| PopVariables.Population | scripts/pop_variables.py:15-16 | population is the grouped count of the population column with no filter |
| PopVariables.SexRatio | scripts/pop_variables.py:19-25 | sex_ratio is 100 times the count of sex code 1 over the count of sex code 2, index-aligned |
| PopVariables.WorkingAgePopulation | scripts/pop_variables.py:28-30 | working_age_population counts, per area, the rows whose age is between 15 and 64 inclusive |
| PopVariables.YouthDependencyRatio | scripts/pop_variables.py:33-38 | youth_dependency_ratio is 100 times the count of ages below 15 over the working-age count |
| PopVariables.OldAgeDependencyRatio | scripts/pop_variables.py:41-46 | old_age_dependency_ratio as written: 100 times the count of ages BELOW 15 over the working-age count |
| PopVariables.OldAgeDependencyRatioCorrected | scripts/pop_variables.py:41-46 | the old-age ratio with the intended mask: 100 times the count of ages above 64 over the working-age count |
| PopVariables.SchoolAttendanceRate | scripts/pop_variables.py:61-67 | school_attendance_rate is 100 times the count of attending (code 1) people aged 5-24 over the count of people aged 5-24 |
| PopVariables.AdultLiteracyRate | scripts/pop_variables.py:70-76 | adult_literacy_rate is 100 times the count of literate (code 1) people over 4 over the count of people over 4 |
| PopVariables.OfwCount | scripts/pop_variables.py:85-86 | the inline grouping of OFW rows gives exactly the areas with an OFW (code 1), each mapped to its number of OFW rows |
| PopVariables.OfwPer1kPeople | scripts/pop_variables.py:84-89 | ofw_per_1k_people is 1000 times the count of OFW code 1 over the population count, index-aligned |
| PopProperties.ForcedColumnPresent | scripts/pop_variables.py:20-21 | a comparison mask on a column can only select a row whose column is present (NaN compares false) |
| PopProperties.CountedAtMostRows | scripts/pop_variables.py:9-12 | `count()` of a column never exceeds `size()` for the same area and condition |
| PopProperties.CountedAllPresent | scripts/pop_variables.py:9-12 | with no missing value in the column, `count()` equals `size()` |
| PopProperties.TallyMonotone | scripts/pop_variables.py:64-65 | a narrower mask never counts more rows |
| PopProperties.TallyPositive | scripts/pop_variables.py:22-23 | when the mask forces the counted column, an area with a selected row counts at least one |
| PopProperties.TallyDisjoint | scripts/pop_variables.py:34-36 | two masks that never select the same row count together at most the unfiltered count |
| PopProperties.TallyDisjoint3 | scripts/pop_variables.py:28-46 | three pairwise disjoint masks count together at most the unfiltered count |
| PopProperties.CountAtMostSize | scripts/pop_variables.py:9-12 | count_per_barangay with a column has the same areas as without, and each value is at most the area's passing rows |
| PopProperties.NestedCountsWithin | scripts/pop_variables.py:64-65 | a narrower condition yields a subset of the areas and no larger count in each |
| PopProperties.ForcedCountPositive | scripts/pop_variables.py:22-23 | a count whose mask forces the counted column has no zero entry |
| PopProperties.ForcedRatioDefinedIff | scripts/pop_variables.py:22-25 | with a forced denominator mask, a ratio is finite exactly where both sides have a selected row, and undefined (never infinite) elsewhere |
| PopProperties.RateAtMostHundred | scripts/pop_variables.py:67 | a count over a larger non-zero count, times 100, lies between 0 and 100 |
| PopProperties.NestedRateBounds | scripts/pop_variables.py:61-76 | a rate whose numerator mask narrows its denominator mask is keyed by the denominator's areas, never infinite, and finite values lie in [0, 100] |
| PopProperties.PopulationCounts | scripts/pop_variables.py:15-16 | population has one entry per area in the table, at most the area's row count, equal to it when the column is never missing |
| PopProperties.SexRatioDefinedIff | scripts/pop_variables.py:19-25 | sex_ratio has the areas with a male or a female; it is finite iff the area has both, undefined otherwise, and then 100 times males over females |
| PopProperties.YouthAndWorkingAgeDisjoint | scripts/pop_variables.py:29-34 | the youth and working-age bands never overlap, so together they count at most the area's rows with an age |
| PopProperties.YouthDependencyDefinedIff | scripts/pop_variables.py:33-38 | youth_dependency_ratio is finite iff the area has both a youth and a working-age person, and never infinite |
| PopProperties.OldAgeEqualsYouth | scripts/pop_variables.py:34-46 | as written, old_age_dependency_ratio equals youth_dependency_ratio on every table |
| PopProperties.OldAgeCorrectedDisjoint | scripts/pop_variables.py:29-42 | with the corrected mask, youth, working-age and old-age bands together count at most the area's rows with an age |
| PopProperties.SchoolAttendanceRateBounds | scripts/pop_variables.py:61-67 | the attendance rate has the areas with a school-age person; it is never infinite, and finite values lie between 0 and 100 |
| PopProperties.AdultLiteracyRateBounds | scripts/pop_variables.py:70-76 | the literacy rate has the areas with a person over 4; it is never infinite, and finite values lie between 0 and 100 |
| PopProperties.OfwNumeratorIsCount | scripts/pop_variables.py:85-86 | the inline OFW grouping equals count_per_barangay of the OFW column under the OFW mask |
| PopProperties.PerPopulationRatio | scripts/pop_variables.py:84-89 | a ratio over the unfiltered population has an entry for every area; it is infinite iff the area has numerator rows but no population value, finite iff it has both, and then gives 1000 times the quotient |
| PopProperties.OfwPer1kDefinedness | scripts/pop_variables.py:84-89 | ofw_per_1k_people has every area of the table; it is infinite iff the area has an OFW but no population value, finite iff it has both, and then 1000 times OFWs over population |
| PopExamples.SexRatioExample | scripts/pop_variables.py:19-25 | with two men and two women in area A and three men in area B, the ratio is 100 for A and NaN for B |
| PopExamples.OldAgeAsWrittenCountsChildren | scripts/pop_variables.py:41-46 | ages 10, 10, 30 and 70 give an old-age ratio of 200, since the two children are counted |
| PopExamples.OldAgeCorrectedCountsElders | scripts/pop_variables.py:41-46 | the same ages give 100 with the corrected mask |
| Psgc.DecimalString | scripts/psgc.py:11 | `astype(str)` of a non-negative integer is non-empty and has no leading zero unless it is "0" |
| Psgc.DecimalStringValue | scripts/psgc.py:11 | `astype(str)` of a non-negative integer reads back as that integer |
| Psgc.DecimalStringFits | scripts/psgc.py:11 | a number below 10^w renders in at most w characters |
| Psgc.ZFill | scripts/psgc.py:11 | `zfill(width)` has length max(len, width) |
| Psgc.ZFillPads | scripts/psgc.py:11 | zfill keeps its input as a suffix and only puts '0's before it |
| Psgc.ZFillIdempotent | scripts/psgc.py:11 | zero-filling twice to the same width is zero-filling once |
| Psgc.ZFillValue | scripts/psgc.py:11 | zero-filling does not change the number a digit string denotes |
| Psgc.PaddedLevel | scripts/psgc.py:11 | a padded part is as long as its width, or as the rendering when that is longer: zfill never cuts |
| Psgc.BrgyCode | scripts/psgc.py:13 | a code is 2 characters longer than its four padded parts together |
| Psgc.BrgyCodeLayout | scripts/psgc.py:10-13 | a code is "PH" followed by the padded region, province, municipality and barangay parts, in that order |
| Psgc.PaddedLevelValue | scripts/psgc.py:10-11 | a padded part reads back as its level whatever the width, and has exactly the width when the level fits |
| Psgc.BrgyCodeRoundTrip | scripts/psgc.py:5-13 | when every level fits its width, decoding a row's code gives back the row |
| Psgc.BrgyCodeInjective | scripts/psgc.py:5-13 | rows whose levels fit their widths get distinct codes |
| Psgc.DefaultCodeLength | scripts/psgc.py:5 | with the default widths 2, 2, 2, 3, codes below 100, 100, 100, 1000 give an 11-character code |
| Psgc.BrgyCodeExample | scripts/psgc.py:5-13 | region 1, province 4, municipality 23, barangay 5 gives "PH010423005" |
| Psgc.OverWidthCodesCollide | scripts/psgc.py:11 | zfill never truncates, so two different rows can share a code when a level overflows its width |
| Psgc.GetBrgyPsgc | scripts/psgc.py:5-13 | the result has one code per row, and row i's code is the "PH" code of that row alone |

## Left out

- `mean_years_schooling` (`scripts/pop_variables.py:79-81`): its body is elided after the mask, so there is nothing to model.
- `school_population` and `after_school_population`: commented out in the source.
- Rounding to `places` decimals: every ratio is modelled as an exact real, and the rounding of the float result is not captured.
- Floating point in general: counts are unbounded naturals and quotients are exact reals.
- The `for_each` argument: grouping is always by the row's `area` field.
- A missing grouping key: `groupby` drops rows whose key is NaN (`dropna=True` by default), but `Row.area` is a plain string, so a row without an area cannot be expressed.
- Arbitrary boolean Series as `condition`: `Mask` covers only the masks the indicators build (equality, `between`, `<`, `>`, and `&` of two masks).
- pandas dtype and index-alignment machinery beyond the union of indices with NaN for missing keys. The row order of a grouped result (sorted by key in pandas) is also left out, because a map has no order.
- A `KeyError` for a missing column: columns are a closed datatype, so none can be missing.
- Psgc.GetBrgyPsgc: requires at least four widths. With fewer, `zip` stops early, a level column is never filled, and line 13 raises a `KeyError`. Extra widths are ignored, as `zip` ignores them.
- Psgc.DecimalStringValue: only non-negative integer codes are modelled. `astype(str)` of a float (`"1.0"`) or a negative number, and zfill's handling of a leading sign, are not captured.
- The column names `reg`, `prv`, `mun` and `bgy` are the fields of `AreaLevels` rather than string keys into a table. This loses one behaviour: when two of the four names are the same column, the second assignment to `df_psgc[level]` (scripts/psgc.py:10-11) overwrites the first, so both parts of the code are padded to the later width, while the model pads each field to its own width.

## Findings

| source | as written | input that shows it | evidently intended | confidence | as-written member | corrected member |
|---|---|---|---|---|---|---|
| scripts/pop_variables.py:42 | `is_old_age = df[age] < 15`, the youth mask, so old_age_dependency_ratio equals youth_dependency_ratio | one area with ages 10, 10, 30 and 70 gives 200 (two children per worker) instead of 100 (one person over 64 per worker) | `df[age] > 64` | not executed | PopExamples.OldAgeAsWrittenCountsChildren | PopVariables.OldAgeDependencyRatioCorrected |
