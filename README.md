# Election dashboard queries, modelled in Dafny

This project models the query layer of an election dashboard: the seven
functions of `front.py` that read the election store (regions, candidates,
candidate-parties, ballot boxes, candidate results and ballot-box counters)
and return the tables the dashboard charts. Every query is a pure function
from a `Store` (six sequences, one per table of `model/models.py` that the
queries read) to a sequence of result rows. The model covers:

- the inner joins as bag joins, each joined row occurring once per combination of input rows;
- the `GROUP BY` keys;
- the `SUM`, `AVG` and `MIN` aggregates;
- the scalar sub-queries of the threshold query;
- SQLite's `ROUND(x, 2)`;
- the `ORDER BY ... DESC` of the candidate query.

What is proved about the model:

- Each query returns one row per group and no other row.
- Every row carries its group's aggregate.
- A row exists exactly when the store holds a matching ballot of the right election and round.
- The grouped sums add up to the ungrouped ones.
- The regional queries roll up to the national ones when every ballot's department code matches exactly one region.
- The thresholds are percentages and are the least share of the second-round candidates.
- The candidate query is sorted, and an unknown name gives an empty result.

Modules:

- `Models` (models.dfy): the record shapes of the tables.
- `Relational` (relational.dfy): keys, group keys, SUM/COUNT, and the roll-up of a grouped table.
- `Joins` (joins.dfy): the shared joins.
- `Departements`, `Participation`, `Tendance`, `Seuil`, `CandidatMed`: one module per query family.

## Model

| member | source | states |
|---|---|---|
| Relational.GroupKeys | front.py:29 | the groups of a `GROUP BY` are every key of the grouped rows, each exactly once, and no other value |
| Relational.GroupedSum | front.py:19-29 | a table with one row per group, whose keys cover every joined row and whose rows carry their group's SUM, sums (over any coarser grouping) to the same total as the joined rows |
| Relational.CountAtPositive | front.py:106-107 | a group has a row count above zero exactly when some row carries its key |
| Relational.SumAtBounds | front.py:89-91 | with non-negative values a group's SUM lies between 0 and the SUM of all rows |
| Joins.MetaJoin | front.py:27-28 | a joined row is exactly a ballot of the store paired with a meta row of the store that points to it, for presidential ballots of the requested round |
| Joins.ResultJoin | front.py:57 | a joined row is exactly a ballot of the store paired with a candidate result pointing to it, for presidential ballots of the requested round |
| Joins.PartiJoin | front.py:58 | a joined row is exactly a ballot result extended with a candidate-party of the store whose id the result names |
| Joins.CandidatJoin | front.py:114 | the join with `candidat` keeps exactly the rows whose candidate-party names an existing candidate |
| Joins.NamedCandidatJoin | front.py:136-137 | the join with `candidat` filtered on the name keeps exactly the rows whose candidate-party names a candidate of that exact name |
| Joins.RegionJoin | front.py:42 | a joined row is exactly a row paired with a region of the store whose department code is the ballot's `region_id` |
| Joins.MetaJoinCount | front.py:27-28 | a (ballot, meta row) pair occurs in the join as many times as the ballot occurs times the meta row occurs, when the meta row points to the ballot and the ballot is a presidential one of the round, and not at all otherwise |
| Joins.ResultJoinCount | front.py:57 | a (ballot, result) pair occurs in the join as many times as the ballot occurs times the result occurs, when the result points to the ballot and the ballot is a presidential one of the round, and not at all otherwise |
| Joins.PartiJoinCount | front.py:58 | an extended row occurs as many times as its ballot result occurs times its candidate-party occurs, when the result names that candidate-party, and not at all otherwise |
| Joins.NamedCandidatJoinCount | front.py:136-137 | a row occurs as many times as it occurs in the input times the number of candidate rows with its candidate id and the requested name |
| Joins.RegionJoinCount | front.py:42 | a (row, region) pair occurs as many times as the row occurs times the region occurs, when the region's department code is the row's code, and not at all otherwise |
| Joins.RegionJoinSum | front.py:42 | when every row's code is carried by exactly one region, the join with `region` neither drops nor repeats a row: any SUM not looking at the region is unchanged |
| Departements.Departements | front.py:11-14 | one department name per region row, in table order, duplicates kept |
| Departements.DepartementsListsEveryRegion | front.py:11-14 | the name of every region of the store is listed |
| Participation.NationalParticipation | front.py:17-30 | one row per year, distinct; a year has a row exactly when a presidential ballot of the round has a meta row; each row holds that year's four SUMs over those meta rows |
| Participation.NationalGrandTotals | front.py:17-30 | each of the four columns summed over all rows equals that counter summed over every counted meta row |
| Participation.RegionalParticipation | front.py:33-47 | one row per (year, region name), distinct; the row keys are exactly the keys of the meta rows joined with their regions; each row holds its group's four SUMs |
| Participation.RegionalRowHasSource | front.py:33-47 | every regional row is the year of a counted meta row and the name of a region carrying its ballot's department code |
| Participation.RegionalSourceHasRow | front.py:33-47 | every counted meta row whose ballot's code a region carries appears in the row of its year and that region's name |
| Participation.RegionalYearsAreNational | front.py:17-47 | every year of the regional query is a year of the national query |
| Participation.RegionalRollsUpToNational | front.py:17-47 | when every counted ballot's code matches exactly one region, a year's regional rows summed over region names equal the year's national row, column by column |
| Participation.RegionalNamesAreDepartements | front.py:11-47 | every region name of the regional query is listed by get_departements |
| Tendance.Tendance | front.py:50-61 | one row per (year, courant), distinct; a key has a row exactly when a presidential result of the round exists for a candidate-party of that courant; each row holds the SUM of `value` of its group |
| Tendance.TendanceGrandTotal | front.py:50-61 | the rows' results add up to the sum of every counted result |
| Tendance.TendanceRegion | front.py:64-77 | one row per (year, region name, courant), distinct; the row keys are exactly the keys of the joined results; each row holds its group's SUM |
| Tendance.TendanceRegionRowHasSource | front.py:64-77 | every regional row comes from a counted result whose ballot's code a region of that name carries |
| Tendance.TendanceRegionSourceHasRow | front.py:64-77 | every counted result whose ballot's code a region carries appears in the row of its year, region name and courant |
| Tendance.TendanceRegionRollsUp | front.py:50-77 | when every counted ballot's code matches exactly one region, the regional rows of a (year, courant) summed over region names equal its national row |
| Tendance.TendanceRegionKeysAreNational | front.py:50-77 | every (year, courant) of the regional query is a key of the national query |
| Seuil.Round2 | front.py:89 | `ROUND(x, 2)` is a whole number of hundredths within half a hundredth of `x`, ties going away from zero |
| Seuil.Round2Monotone | front.py:89 | `ROUND(x, 2)` never reverses an order |
| Seuil.Round2Percent | front.py:89 | `ROUND(x, 2)` maps [0, 100] into [0, 100] |
| Seuil.FirstRound | front.py:90-105 | the rows the two sub-queries read are exactly the results of presidential first-round ballots of the row's year and department code |
| Seuil.FirstRoundCount | front.py:90-105 | a (ballot, result) pair occurs among those rows as many times as the ballot occurs times the result occurs, when it qualifies, and not at all otherwise |
| Seuil.ShareOf | front.py:88-108 | the share is NULL exactly when no row carries the candidate-party or the rows' total is zero; otherwise it is the candidate-party's SUM times 100 over the total SUM, rounded to two decimals |
| Seuil.Share | front.py:88-108 | a share is NULL exactly when the candidate-party has no first-round row in that year and department code or the first-round total there is zero |
| Seuil.ShareOfIsPercent | front.py:88-107 | with non-negative values a non-NULL share lies in [0, 100] |
| Seuil.ShareIsPercent | front.py:88-107 | with non-negative values in the store every non-NULL share lies in [0, 100] |
| Seuil.Qualifiers | front.py:110-117 | a row is read by the outer query exactly when it is a presidential second-round ballot, one of its results, the result's candidate-party, an existing candidate of it, and a region carrying the ballot's department code |
| Seuil.ScoresAt | front.py:86-115 | each second-round result is scored with its (region name, year) group and the share of its candidate-party in its ballot's year and department code |
| Seuil.MinAt | front.py:86 | MIN over a group is NULL exactly when every share of the group is NULL; otherwise it is one of the group's shares and no larger than any other |
| Seuil.Seuil | front.py:80-122 | one row per (region name, year), distinct; the row keys are exactly those of the presidential second-round results; each row holds the MIN of its group's shares |
| Seuil.SeuilIsMinShare | front.py:80-122 | a threshold is NULL exactly when every second-round result of its group has a NULL share; otherwise it is the share of one of them and no larger than any other non-NULL share |
| Seuil.SeuilIsPercent | front.py:80-122 | with non-negative values every threshold lies in [0, 100] |
| Seuil.SeuilRowHasSecondRound | front.py:110-120 | every threshold row is the region name and year of some presidential second-round result |
| Seuil.SeuilSourceHasRow | front.py:110-120 | every presidential second-round result appears in the row of its region name and year |
| Seuil.SingleGroup | front.py:118-120 | when every second-round result falls in one group, the query returns exactly that group's row |
| Seuil.ExampleThreshold | front.py:80-122 | with first-round votes A 100, B 200, C 700 and A and B in the second round, the threshold is 10.00 (A's share), not C's 70.00 |
| CandidatMed.Insert | front.py:139 | inserting a row adds exactly that row to the table's rows |
| CandidatMed.InsertSorted | front.py:139 | inserting into a table in non-increasing order keeps it in non-increasing order |
| CandidatMed.SortDesc | front.py:139 | the sorted table is a permutation of its input, in non-increasing order of `resultat` |
| CandidatMed.Grouped | front.py:129-138 | one row per region name, distinct; the names are exactly those of the joined rows; each row holds the AVG of its group |
| CandidatMed.CandidatMed | front.py:125-141 | rows in non-increasing order of `resultat`, region names distinct and exactly those of the candidate's joined results, each row holding its group's AVG |
| CandidatMed.MedRowHasSource | front.py:125-141 | every row is the region name of a presidential result of the round of a candidate of exactly that name |
| CandidatMed.MedSourceHasRow | front.py:125-141 | every such result appears in the row of its region name |
| CandidatMed.UnknownName | front.py:137 | a name no candidate carries gives an empty result |
| CandidatMed.Mean | front.py:129 | for a group with rows, the AVG times the group's row count is the group's SUM |
| CandidatMed.MeanBetween | front.py:129 | a group's AVG lies between the least and the greatest value of the group |

## Left out

- Database session, engine setup and `pd.read_sql` (model/models.py:1-16, front.py:14, 30, 47, 61, 77, 122, 141) are I/O. The store is a parameter.
- The `@st.experimental_memo` caching does not change any result and is left out.
- The Streamlit page code after front.py:142 is presentation. This includes the participation percentages it computes in floating point.
- Table `parti` (model/models.py:25-30) is not read by any query, so the store has no sequence for it.
- Seuil.Seuil: the bare `department_code` column is left out. It is not grouped on (front.py:83), so SQLite returns it from an arbitrary row of the group.
- CandidatMed.CandidatMed: the bare `annee` column is left out. It is not grouped on (front.py:128), so SQLite returns it from an arbitrary row of the group.
- Seuil.Round2: models SQLite's `ROUND(x, 2)` exactly on reals (half away from zero). Binary floating point and its representation errors are not modelled.
- CandidatMed.Mean: `AVG` is modelled exactly on reals, not as a floating-point division.
- Seuil.FirstRound: `LIKE uv.annee` is modelled as equality. This holds for year strings without `%`, `_` or letter case differences.
- Row order of `GROUP BY` results is unspecified in SQL. The model returns groups in one fixed order, and no property depends on it.
- CandidatMed.SortDesc: rows with equal `resultat` appear in one of the orders SQL allows. Only non-increasing order and the permutation are stated.
- NULL column values in the store (a NULL `value`, `annee` or foreign key) are not modelled. Every column holds a value, as the defaults in model/models.py:53-70 suggest.
- Integer columns are unbounded. SQLite's 64-bit sum overflow is not modelled.
