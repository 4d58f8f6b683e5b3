# Referendum results by region — a Dafny model

This project models the relational core of a small pandas script that maps the
results of a French referendum by region. The script runs three table
transformations one after another:

1. `merge_regions_and_departments` joins the region table to the department
   table on `departments.region_code == regions.code`. It renames the clashing
   columns to `code_reg`, `name_reg`, `code_dep` and `name_dep`, and drops the
   ids, slugs and `region_code`.
2. `merge_referendum_and_areas` first drops the ballots of French people living
   abroad (department code containing `Z`). It then zero-pads the remaining
   department codes to two characters with `str.zfill(2)`; Corsica's `2A` and
   `2B` are not padded. It drops the overseas regions (`01`, `02`, `03`, `04`,
   `06`, `COM`) from the geography table. Finally it inner-joins the two tables
   on `code_dep == Department code`.
3. `compute_referendum_result_by_regions` groups the joined rows by `code_reg`.
   It keeps the `name_reg` of each group's first row and sums `Registered`,
   `Abstentions`, `Null`, `Choice A` and `Choice B`.

Each table is a `seq` of a record datatype that holds only the columns some
stage reads (`Tables`). Each stage is a pure function over those sequences:

- `RegionsDepartments.MergeRegionsAndDepartments` models stage 1.
- `ReferendumAreas.MergeReferendumAndAreas` models stage 2. It is built from
  `DropAbroad`, `NormalizeCodes`, `DropOverseas` and `JoinOnDepartment`.
- `RegionResults.ComputeResultByRegions` models stage 3. Its result is a
  `map` from region code to `RegionResult`.
- `Pipeline.ReferendumResultByRegions` wires the three stages together, as the
  script's entry point does.

The properties are proved against independent specification functions:

- For stage 1, membership of a matching (region, department) pair, the
  multiset count of each row (copies of its region times copies of its
  department), and a count of departments (`DepartmentsIn`).
- For stage 2, the code normaliser's own contract, multiset statements of
  the two filters, and `KeptAs` (how many referendum rows survive the `Z`
  filter and normalise to a given ballot), which fixes how often each merged
  row occurs.
- For stage 3, `SumWhere` (the sum of a column over exactly one region's rows),
  `FirstName` (the name on a region's first row) and `Total` (a column's sum
  over the whole table).

- Normalised codes are not all two characters long. `zfill(2)` leaves a code
  of two or more characters unchanged (`971` stays `971`). It puts the padding
  after a leading sign (`-` becomes `-0`). `ZFill`'s contract states where the
  zeros go in both cases.
- A missing department code passes the `Z` filter (`na=False`, line 57), but
  the padding at line 61 then fails on it (a NaN has no `zfill`). The model
  takes codes to be non-null strings (see Left out).
- The geometry join and the `ratio` column are in `plot_referendum_map`, which
  is not modelled.

## Model

| member | source | states |
|---|---|---|
| `RegionsDepartments.JoinRegion` | pandas_questions.py:31-34 | the rows one region contributes are exactly the renamed pairs of that region with each department whose `region_code` is its code |
| `RegionsDepartments.MergeRegionsAndDepartments` | pandas_questions.py:26-41 | a row is in the merged table if and only if it is `(region.code, region.name, dept.code, dept.name)` for some region and some department with `dept.region_code == region.code`; the row type has only these four columns, so ids, slugs and `region_code` are gone |
| `RegionsDepartments.JoinRegionCount` | pandas_questions.py:31-34 | one region's rows hold `g` as many times as the department table holds the department `g` was renamed from, and only when `g` carries that region's code and name |
| `RegionsDepartments.MergeCount` | pandas_questions.py:26-41 | row multiplicities of the inner join: `g` occurs (copies of its region) × (copies of its department with `region_code == code_reg`) times |
| `RegionsDepartments.JoinRegionSize` | pandas_questions.py:31-34 | a region yields exactly as many rows as there are departments with its code |
| `RegionsDepartments.MergeSize` | pandas_questions.py:31-34 | join cardinality: when region codes are unique, the merged table has exactly as many rows as there are departments whose `region_code` matches some region's code |
| `ReferendumAreas.DropAbroad` | pandas_questions.py:57 | each ballot occurs in the result as many times as in the input if its department code has no `Z`, and not at all otherwise |
| `ReferendumAreas.ZFill` | pandas_questions.py:61 | Python `str.zfill`: a string already `width` long is unchanged; a shorter one becomes exactly `width` long; without a sign it ends with the input and starts with `'0'`s; with a leading `+` or `-` it keeps the sign first, then `'0'`s, then the rest of the input; its characters are the input's plus only `'0'`s |
| `ReferendumAreas.NormalizeCode` | pandas_questions.py:60-62 | `2A` and `2B` are unchanged; a code of length 2 or more is unchanged; a one-character unsigned code `c` becomes `"0" + c`; the result is at least 2 long; it contains `Z` if and only if the input does |
| `ReferendumAreas.NormalizeIdempotent` | pandas_questions.py:61 | normalising a normalised code changes nothing |
| `ReferendumAreas.NormalizeCodes` | pandas_questions.py:60-62 | the table keeps its length and its rows; row `i` differs from the input only in its normalised department code |
| `ReferendumAreas.DropOverseas` | pandas_questions.py:65-67 | each geography row occurs as many times as in the input unless its `code_reg` is one of `01`, `02`, `03`, `04`, `06`, `COM`, in which case it is gone |
| `ReferendumAreas.JoinDepartment` | pandas_questions.py:69-73 | the rows one geography row contributes are exactly its combinations with the ballots whose department code equals its `code_dep` |
| `ReferendumAreas.JoinOnDepartment` | pandas_questions.py:69-73 | inner join: a row is in the result if and only if it combines a geography row and a ballot with `code_dep == Department code` |
| `ReferendumAreas.JoinDepartmentCount` | pandas_questions.py:69-73 | the rows of geography row `h` hold `Combine(g, b)` once per copy of `b` in the ballots when `h == g` and the codes match, and never otherwise |
| `ReferendumAreas.JoinOnDepartmentCount` | pandas_questions.py:69-73 | inner-join multiplicities: a matching pair occurs (copies of `g`) × (copies of `b`) times, a non-matching pair never |
| `ReferendumAreas.KeptBallotsCount` | pandas_questions.py:57-62 | the filtered, normalised ballot table holds `b` as many times as there are referendum rows without `Z` that normalise to `b` (`KeptAs`) |
| `ReferendumAreas.MergeReferendumAndAreas` | pandas_questions.py:47-75 | stage 2; every row's department code equals its `code_dep`; its rows, their multiplicities and exclusions are stated by `MergeReferendumRows`, `MergeReferendumCount` and `MergeReferendumExcludes` |
| `ReferendumAreas.MergeReferendumCount` | pandas_questions.py:47-75 | row multiplicities of the merged table: a geography row and a ballot with matching codes meet (copies of the geography row, 0 if overseas) × (`KeptAs`: referendum rows without `Z` that normalise to the ballot) times; any other pair never |
| `ReferendumAreas.MergeReferendumSound` | pandas_questions.py:56-75 | every merged row combines a non-overseas geography row with a ballot whose original code has no `Z` and whose normalised code is that row's `code_dep` |
| `ReferendumAreas.MergeReferendumComplete` | pandas_questions.py:56-75 | every such pair of a kept geography row and a kept ballot appears, with the ballot's code normalised |
| `ReferendumAreas.MergeReferendumRows` | pandas_questions.py:47-75 | the two directions together: the merged table's rows are exactly those pairs |
| `ReferendumAreas.MergeReferendumExcludes` | pandas_questions.py:57-73 | no merged row has a `code_reg` among the overseas codes; no merged row has a `Z` in its department code; each row's department code equals its `code_dep` and is at least 2 long |
| `ReferendumAreas.MergedRowFromGeo` | pandas_questions.py:69-73 | the region columns of a merged row are those of some geography row |
| `RegionResults.ComputeResultByRegions` | pandas_questions.py:88-91 | the result has exactly one entry per distinct `code_reg` of the input |
| `RegionResults.ResultCount` | pandas_questions.py:93-97 | for every count column, a region's entry holds `SumWhere`: the sum of that column over exactly the input rows of that region |
| `RegionResults.ResultName` | pandas_questions.py:92 | a region's `name_reg` is the `name_reg` of its first input row in table order |
| `RegionResults.ResultByRegionsSums` | pandas_questions.py:88-98 | both facts above, for every entry and every count column |
| `RegionResults.SumResultsIsSumIn` | pandas_questions.py:88-98 | adding up the entries of a duplicate-free list of regions gives the column's sum over the rows of those regions |
| `RegionResults.GrandTotal` | pandas_questions.py:88-98 | conservation: for every count column, the sum over all regions' entries (each listed once) equals the column's total over the input rows |
| `Pipeline.ReferendumResultByRegions` | pandas_questions.py:137-146 | the three stages chained; every key of the result is a code of the region table and none is an overseas region |
| `Pipeline.ResultNamedAfterRegion` | pandas_questions.py:138-146 | when region codes are unique, a region's result is named after that region; every joined row of a region carries the region's own name, so picking the first loses nothing |
| `Pipeline.MergedRowNamed` | pandas_questions.py:138-143 | when region codes are unique, every row of region `r` in the merged referendum table carries `r`'s name |
| `Pipeline.GeoRowNamed` | pandas_questions.py:31-39 | when region codes are unique, every merged geography row of region `r` carries `r`'s name |
| `Pipeline.GeographyExample` | pandas_questions.py:31-39 | department `01` (Ain) of region `84` yields the single row `(84, Auvergne-Rhône-Alpes, 01, Ain)` |
| `Pipeline.PaddedJoinExample` | pandas_questions.py:57-73 | the ballot code `1` is padded to `01` and joins department `01` |
| `Pipeline.AggregateExample` | pandas_questions.py:88-98 | one joined row gives one region entry holding its counts |
| `Pipeline.SingleDepartmentExample` | pandas_questions.py:137-146 | end to end: region `84` gets Registered 100, Abstentions 20, Null 5, Choice A 50, Choice B 25 from the single ballot of department `1` |
| `Pipeline.CorsicaExample` | pandas_questions.py:60-73 | the code `2A` is not padded and joins department `2A` |
| `Pipeline.AbroadExample` | pandas_questions.py:57 | a ballot with code `971Z` never reaches the merged table, whatever geography rows are offered |

## Left out

- `load_data` and the module-level calls (pandas_questions.py:16-24, 43-44, 77-78, 103-104) are left out. They read CSV files and print tables. Their results become the parameters of the three functions.
- `plot_referendum_map` (pandas_questions.py:106-132) is left out. It reads geometry from a file, renders a figure, and computes `ratio` as a floating-point division; a zero denominator gives `inf` or NaN there.
- The `__main__` block (pandas_questions.py:135-150) is modelled only as the composition `Pipeline.ReferendumResultByRegions`. Its `print` and `plt.show` are left out.
- Missing (NaN) department codes are not modelled: codes are non-null strings. A missing code would pass the `Z` filter at line 57 (`na=False`) and then fail at line 61, because a NaN has no `zfill`.
- Non-string department codes are not modelled either. The record types fix every code and name as a string.
- Columns that no logic reads are not carried: the ids and slugs of the reference tables, and the referendum's department name, town code and town name. They pass through the joins untouched in pandas.
- Row order is not a promise of the model. The joins emit rows region by region (left table order), then in right table order; membership and multiplicities are stated. The grouped result is a `map`, so the sorted key order of `groupby` is not modelled.
- Counts are unbounded natural numbers. pandas sums them as 64-bit integers, which vote counts cannot overflow.
- pandas' `"first"` aggregation skips missing names. Names here are never missing, so it is the first row's name.
