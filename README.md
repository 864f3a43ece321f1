# Resilience mapping: a verified model of the data staging and the table scripts

The resilience-mapping pipeline looks for census tracts whose health burden is lower than their
food-access situation predicts. It has two halves.

The Go half stages the inputs and fits the model:

- `PivotPLACES` turns the long CDC PLACES file (one row per tract and measure) into a wide table
  with one row per tract and one column per requested outcome.
- `faraXLSXToCSV` picks the worksheet of the USDA Food Access Research Atlas (FARA) workbook whose
  header names a tract identifier (`GEOID` or `CensusTract`).
- `ExpectedBurden` joins the burden table with FARA by tract and builds the design rows of the
  regression (intercept, LILA flag, low income, rurality, optional no-vehicle share, state dummies).
  It then writes the model table with one residual and one resilience score per tract.

The Python half reads the model table, merges it with FARA again and derives the following:

- the resilient (top decile) and least resilient (bottom decile) LILA tracts, where LILA means
  low income and low access (`LILATracts_1And10 == 1`);
- the state and county summaries of those tracts;
- the anomaly filters and the "twin tract" search;
- the descriptive and state tables of the paper;
- the overlap and sensitivity tables of the LILA definitions and the bivariate map classes;
- the city and place labels of the resilient tracts.

The model has one Dafny module per source file:

- `PlacesPivot`, `FaraSheets` and `ExpectedModel` model the Go files.
- `InvestigateAnomalies`, `ExtractAllResilient`, `GetCitiesTiger`, `GetCitiesCensus`,
  `AnalyzeLeastResilient`, `GenerateTables`, `AnalyzeResilience` and `GetCitiesTigerFull` model
  the Python scripts.
- Five modules are shared:
  - `Wrappers` holds Option and Result.
  - `Seqs` holds boolean-mask filters, counts, `sort_values`, `nlargest`, `unique` and `groupby`.
  - `Text` holds Go's `TrimSpace`, `ToUpper` (for the runes whose upper case is ASCII) and
    `EqualFold` (against ASCII words), and Python's `in`, `replace`, `zfill` and slicing.
  - `Headers` holds the header-index maps of the Go code.
  - `Tracts` holds the merged tract record.

The modelling conventions are these:

- A missing cell (NaN, or an unmatched left merge) is `None`, and every comparison with `None` is
  false, as in pandas.
- Quantile thresholds are parameters.
- `sort_values` is not stable by default, so sorted outputs are specified as "sorted and a
  permutation of the selection".
- Loops in the source are `method`s proved against the functions that specify them.

## Model

| member | source | states |
|---|---|---|
| Headers.HeaderMapSpec | internal/data/load.go:76-80 | The keys are exactly the trimmed header cells, and a name maps to the last column carrying it. |
| Headers.HeaderIndex | internal/data/load.go:76-80 | The loop over the header cells builds exactly that map. |
| Headers.LookupSpec | internal/model/expected.go:151-155 | `index(hdr)(name)` is 0 for an unknown name; for a known name it is a column whose trimmed cell is that name. |
| Text.TrimSpaceSpec | internal/data/load.go:78 | `strings.TrimSpace` cuts out one slice, and everything before and after it is Unicode white space. |
| Text.TrimSpaceEnds | internal/data/load.go:78 | The trimmed string is empty or starts and ends with a rune that is not white space. |
| Text.TrimSpaceIdempotent | internal/data/load.go:78 | Trimming twice is trimming once. |
| Text.ToUpperFixed | internal/data/load.go:83 | Upper-casing leaves no a-z rune, and it leaves a string unchanged exactly when the string has none of the runes it maps (a-z, U+0131, U+017F). |
| Text.UpperAgreesWithFold | internal/data/load.go:83 | Comparing the upper-cased string with an upper-case ASCII word agrees with `strings.EqualFold`, both ways, for strings without U+0131 and U+212A. |
| Text.ToUpperIdempotent | internal/data/load.go:83 | Upper-casing twice is upper-casing once. |
| Text.TrimSpaceUpper | internal/data/load.go:83 | Trimming and upper-casing commute. |
| Text.EqualFoldSpec | internal/data/download.go:78 | `strings.EqualFold` holds exactly when the lengths agree and every rune folds to the word's rune. |
| Text.ContainsAnySpec | get_cities_tiger_full.py:184-197 | The keyword test holds exactly when one of the keywords occurs in the string. |
| Text.ReplaceAbsent | get_cities_tiger.py:249 | `str.replace` leaves a string without an occurrence of the pattern unchanged. |
| Text.RemoveShortens | get_cities_census.py:189 | Deleting " County" never lengthens a name. |
| Text.ZFillShape | extract_all_resilient.py:18-19 | `zfill(11)` never shortens, reaches the width and keeps the text it pads. |
| Text.ZFillIdempotent | extract_all_resilient.py:18-19 | Padding an already padded identifier changes nothing. |
| Text.SortStrings | internal/model/expected.go:38 | `sort.Strings` returns a permutation of its input in non-decreasing order. |
| Text.SortDistinctIsStrict | internal/model/expected.go:36-38 | Sorting a duplicate-free state list gives a strictly increasing one. |
| PlacesPivot.MeasureMapSpec | internal/data/load.go:82-91 | A MeasureId is recognised exactly when its trimmed, upper-cased form is OBESITY, DIABETES, BPHIGH, CHD or PHYSINACT, and then it maps to its short name and back. |
| PlacesPivot.MeasureMapNormalises | internal/data/load.go:83 | The mapping ignores case and surrounding white space. |
| PlacesPivot.ContainsStr | internal/data/load.go:93-96 | The scan returns true exactly when x is in the list. |
| PlacesPivot.StepSpec | internal/data/load.go:49-60 | One data row creates its tract's entry with the row's state, but only when the measure is recognised. It stores the value only for a requested outcome and leaves every other tract alone. |
| PlacesPivot.TabKeys | internal/data/load.go:48-61 | A tract has an entry exactly when some data row for it carries a recognised measure, requested or not. |
| PlacesPivot.TabState | internal/data/load.go:56 | A tract's StateAbbr is the one on its first recognised row; later rows never change it. |
| PlacesPivot.TabCellSet | internal/data/load.go:58-60 | A requested outcome is set for a tract exactly when some row of that tract measures it. |
| PlacesPivot.TabCellLast | internal/data/load.go:59 | The cell holds the Data_Value of the last row measuring it. |
| PlacesPivot.PivotPLACES | internal/data/load.go:41-74 | An empty input is an error. A missing required column is reported as the first such column, in the order LocationID, MeasureId, Data_Value, StateAbbr. Otherwise the result is the wide table of the tract table built from the data rows. |
| PlacesPivot.FirstMissing | internal/data/load.go:44-45 | The loop over the required columns returns the first the header lacks, and none exactly when all are present. |
| PlacesPivot.FoldRows | internal/data/load.go:48-61 | The row loop builds the tract table of all data rows. |
| PlacesPivot.AddRow | internal/data/load.go:49-60 | One loop iteration is one step of the tract table. |
| PlacesPivot.WideOf | internal/data/load.go:63-72 | The header is TractFIPS, StateAbbr and then the outcomes. There is one row per tract, holding the tract, its state and one cell per outcome in request order. |
| PlacesPivot.BuildWide | internal/data/load.go:63-72 | The loop over the tract table builds exactly that wide table. |
| PlacesPivot.EmitRow | internal/data/load.go:67-70 | The inner loop emits the tract, its StateAbbr cell and then one cell per requested outcome, in request order. |
| PlacesPivot.PivotKeys | internal/data/load.go:48-72 | The wide table has a row for a tract exactly when a recognised data row names it. |
| PlacesPivot.PivotState | internal/data/load.go:56-67 | A tract's row carries the state of its first recognised row. |
| PlacesPivot.PivotValue | internal/data/load.go:58-70 | A requested outcome is emitted with the Data_Value of the tract's last row measuring it. |
| PlacesPivot.PivotMissing | internal/data/load.go:68-70 | A requested outcome that no row of the tract measures is emitted as "". |
| FaraSheets.AcceptsSpec | internal/data/download.go:76-82 | A header is accepted exactly when one of its cells equals GEOID or CensusTract, ignoring case. |
| FaraSheets.HasKeyColumn | internal/data/download.go:76-82 | The header scan stops at the first key cell and returns whether there is one. |
| FaraSheets.ReadSheet | internal/data/download.go:70-92 | One sheet either resets the collected rows (rejected header) or adds its header and its non-empty rows. |
| FaraSheets.ScanShape | internal/data/download.go:67-94 | What the sheet loop returns is empty or starts with an accepted header, and it holds no empty data row. |
| FaraSheets.SkipUnreadable | internal/data/download.go:68-69 | A sheet whose reader fails leaves the collected rows as they were. |
| FaraSheets.RejectedHeaderResets | internal/data/download.go:83-86 | A sheet whose header names no tract-identifier column discards everything collected so far. |
| FaraSheets.StopsAtFirstFull | internal/data/download.go:93 | Scanning stops at the first sheet that leaves more than one row collected. |
| FaraSheets.FaraRows | internal/data/download.go:61-97 | As written, the function fails exactly when at most one row is collected. Otherwise it stages the rows the sheet loop collected. |
| FaraSheets.DuplicatedHeader | internal/data/download.go:84-93 | A header-only sheet followed by a full one stages two header rows. |
| FaraSheets.HeadersWithoutData | internal/data/download.go:84-97 | Two header-only sheets accumulate two rows, so the "no FARA sheet" error is not raised. |
| FaraSheets.FirstUsableSpec | internal/data/download.go:60 | The corrected selection is the first sheet with an accepted header and at least one non-empty data row; it fails when there is none. |
| FaraSheets.AgreesWithoutHeaderOnly | internal/data/download.go:67-97 | Without header-only sheets, the loop as written stages exactly the corrected selection. |
| FaraSheets.FaraRowsFixed | internal/data/download.go:61-97 | The corrected loop (collected rows reset per sheet) returns the corrected selection. |
| ExpectedModel.Btoi | internal/model/expected.go:166 | 1 exactly for true, else 0. |
| ExpectedModel.FaraMapSpec | internal/model/expected.go:44-53 | The FARA lookup's keys are the non-empty GEOID (else CensusTract) cells, and a key maps to the last row filed under it. |
| ExpectedModel.BuildFaraMap | internal/model/expected.go:44-53 | The FARA loop builds exactly that lookup. It stops exactly when a data row has no cell at the key column. |
| ExpectedModel.StateListSpec | internal/model/expected.go:33-38 | The state list is strictly sorted, lists exactly the StateAbbr cells of the burden rows, and is non-empty when there is a row. |
| ExpectedModel.CollectStates | internal/model/expected.go:33-38 | The set loop, the set-to-list loop and the sort yield exactly that state list. They stop exactly when a data row has no StateAbbr cell. |
| ExpectedModel.StateSet | internal/model/expected.go:34-35 | The set holds exactly the StateAbbr cells of the data rows. It stops exactly when a data row has no StateAbbr cell. |
| ExpectedModel.SetToList | internal/model/expected.go:36-37 | The list holds each set member exactly once. |
| ExpectedModel.SortedStates | internal/model/expected.go:38 | Whatever order the map yields, sorting gives the same state list. |
| ExpectedModel.DummiesSpec | internal/model/expected.go:40-104 | A row of state k >= 1 has a 1 at dummy k - 1 and 0 elsewhere. The first state, and a state not in the list, get all zeros. |
| ExpectedModel.StateDummies | internal/model/expected.go:102-104 | The dummy loop computes exactly those dummies. |
| ExpectedModel.JoinedTracts | internal/model/expected.go:56-59 | The join keeps exactly the burden rows whose tract has a FARA entry, in order. |
| ExpectedModel.JoinKeyIsTract | internal/model/expected.go:85-90 | A joined row's GEOID key is its own tract. |
| ExpectedModel.ExpectedBurden | internal/model/expected.go:20-106 | The state loops, the FARA loop, the join loop and the rebuild loop together compute the staged design. The result is IndexOutOfRange exactly when one of the cells Go reads lies past the end of its row. |
| ExpectedModel.ReadableInRange | internal/model/expected.go:20-91 | Tables whose rows are all as long as their non-empty header never read past a row's end. |
| ExpectedModel.JoinLoop | internal/model/expected.go:56-93 | The burden-row loop builds the joined rows. It stops exactly when a row lacks its tract cell, or a matched row lacks its burden cell or a covariate cell of its FARA entry. |
| ExpectedModel.JoinStep | internal/model/expected.go:57-91 | One iteration skips a row whose tract has no FARA entry and builds the design row of a matched one. It stops exactly when one of its reads is out of range. |
| ExpectedModel.MatchedRow | internal/model/expected.go:61-91 | A matched row gets its burden, its covariates, its dummies and its keys. It stops exactly when its burden cell or a covariate cell of its FARA entry is missing. |
| ExpectedModel.WrittenLoop | internal/model/expected.go:75-83 | The first dummy loop, as written, compares row i of the burden table (for the loop index i) with state i. |
| ExpectedModel.RebuildLoop | internal/model/expected.go:95-106 | Every row is cut back to its covariates and given its own dummy block. |
| ExpectedModel.RebuiltJoinRow | internal/model/expected.go:98-104 | The rebuild discards whatever the join loop appended after the covariates; the row keeps its own state and burden. |
| ExpectedModel.DesignStates | internal/model/expected.go:33-41 | In a staged design the state list is non-empty, strictly sorted, and exactly the states of the burden rows. |
| ExpectedModel.DesignRows | internal/model/expected.go:95-106 | Every design row has 1 + 3 + btoi(IncludeNoVehicle) covariates plus one dummy per state but the first, and it comes from a matched burden row. |
| ExpectedModel.DesignTracts | internal/model/expected.go:21-59 | The design keeps exactly the burden rows with a FARA entry, in order. No matched row means no design. |
| ExpectedModel.FixedEffectsIgnored | internal/model/expected.go:75-106 | The staged design is the same with StateFixedEffects on and off: the rebuild adds the dummies unconditionally. |
| ExpectedModel.ScoreSign | internal/model/expected.go:145 | The resilience score is negative exactly when the residual is positive, and zero exactly when it is zero. |
| ExpectedModel.BuildModelTable | internal/model/expected.go:143-147 | The output loop appends one model-table row per design row. |
| ExpectedModel.ModelTableRows | internal/model/expected.go:26-147 | The model table has the header and then one six-cell row per design row: tract, state, burden, residual, score and GEOID. The GEOID is the tract itself. |
| Tracts.LilaSpec | investigate_anomalies.py:44 | The LILA selection holds exactly the rows with `LILATracts_1And10 == 1`, and no more rows than the input. |
| Tracts.ScoreSplitSpec | investigate_anomalies.py:151-152 | A row is in the `> q` and `< q` splits exactly when its score is present and above (below) q. |
| Tracts.PadSpec | extract_all_resilient.py:18-19 | A padded identifier has at least 11 characters and padding again changes nothing. |
| Tracts.SplitSpec | get_cities_tiger.py:243 | The state, county and tract codes concatenate back to the padded identifier, and the county FIPS is state code + county code. |
| Seqs.FilterSpec | investigate_anomalies.py:44 | `df[mask]` holds exactly the elements satisfying the mask, each at most as often as the input. |
| Seqs.CountComplement | investigate_anomalies.py:335 | Two complementary masks split a table: `len(df[m]) + len(df[~m]) == len(df)`. |
| Seqs.PercentBounds | analyze_least_resilient.py:159 | `mask.mean() * 100` is missing exactly on an empty table and otherwise lies in [0, 100]. |
| Seqs.SortDesc | extract_all_resilient.py:45 | `sort_values(ascending=False)` returns a permutation in non-increasing key order. |
| Seqs.Largest | analyze_least_resilient.py:103 | `nlargest(n)` returns min(n, len) elements drawn from the input, largest first, and no element left out is larger than one kept. |
| Seqs.Distinct | get_cities_tiger.py:37 | `unique()` lists each value once, in order of first appearance. |
| Seqs.GroupBy | extract_all_resilient.py:73-81 | `groupby` gives one group per key present and none for a missing key. Each group carries its row count (at least 1) and its hit count (at most the row count). |
| InvestigateAnomalies.InvestigateSpec | investigate_anomalies.py:56-335 | The 100%- and 0%-poverty, tiny-population and group-quarters sets hold exactly the LILA rows meeting their masks. The clean set holds exactly the LILA rows within all four bounds. removed_count is the number of LILA rows failing them. |
| InvestigateAnomalies.CleanExcludesAnomalies | investigate_anomalies.py:308-314 | No clean row is a 100%/0% poverty, tiny-population or high-group-quarters row. |
| InvestigateAnomalies.PctAboveSpec | investigate_anomalies.py:272-275 | On a positive population the percentage test is a comparison of counts. |
| InvestigateAnomalies.AbandonedSpec | investigate_anomalies.py:278-282 | A tract is abandoned exactly when poverty exceeds 40, no-vehicle-far exceeds 20% and SNAP exceeds 30% of its population. |
| InvestigateAnomalies.SplitSpec | investigate_anomalies.py:151-152 | Both sets consist of LILA rows. When q10 <= q90 every resilient score is strictly above every vulnerable score, so the sets are disjoint. |
| InvestigateAnomalies.TwinsSpec | investigate_anomalies.py:230-262 | There is at most one twin per resilient tract, and exactly as many twins as resilient tracts with a candidate. Each twin pairs its tract with the first candidate. |
| InvestigateAnomalies.TwinsAppend | investigate_anomalies.py:231 | The twin list follows the order of the resilient tracts. |
| InvestigateAnomalies.TwinDiffPositive | investigate_anomalies.py:248 | With the strict split and q10 <= q90 every resilience_diff is present and positive. |
| InvestigateAnomalies.FirstMatch | investigate_anomalies.py:233-240 | `matches.iloc[0]`: the first vulnerable tract within 5 points of poverty and 500 people with the same Urban flag. |
| InvestigateAnomalies.FindTwins | investigate_anomalies.py:230-249 | The twin loop builds exactly the twin list. |
| InvestigateAnomalies.RankedStatesSpec | investigate_anomalies.py:186-187 | The ranking lists, strictly sorted, exactly the states with at least 10 scored LILA tracts. |
| InvestigateAnomalies.MaxPair | investigate_anomalies.py:199-208 | max_diff bounds every pairwise difference, and the pair is the first pair in visiting order attaining it. The pair stays None exactly when every difference is 0. |
| InvestigateAnomalies.ScanRow | investigate_anomalies.py:204-208 | One pass of the inner loop raises max_diff only on a strictly larger difference. It extends the bound to every pair of the row and keeps the pair the first one attaining max_diff. |
| InvestigateAnomalies.LargestStateDifference | investigate_anomalies.py:199-217 | The same search over the ranked states, reported as state names. |
| ExtractAllResilient.ResilientCommunitiesSpec | extract_all_resilient.py:33-45 | The output holds exactly the LILA rows scoring above threshold_90, each as often as in the input, in non-increasing score order. |
| ExtractAllResilient.StateRowsSpec | extract_all_resilient.py:73-83 | There is one row per (State, State_Abbr) present, with its own counts. |
| ExtractAllResilient.StateSummarySpec | extract_all_resilient.py:73-84 | Each state row carries its tract count, Urban_Count <= Count and Rural_Count = Count - Urban_Count. A row without State gets no group. The rows are in non-increasing Count order. |
| ExtractAllResilient.CountyGroupsSpec | extract_all_resilient.py:93-101 | Every county group carries its own row count, at least 1. |
| ExtractAllResilient.TopCountiesSpec | extract_all_resilient.py:103 | There are at most 30 county groups, largest first. No county left out has more tracts than one kept. |
| ExtractAllResilient.CityLookupSpec | extract_all_resilient.py:211-218 | The lookup lists exactly the county groups of at least 3 tracts, largest first. |
| ExtractAllResilient.FirstKey | extract_all_resilient.py:159-168 | The first table entry, in dict order, whose key occurs in the county name; no earlier key occurs. |
| ExtractAllResilient.EntriesSpec | extract_all_resilient.py:122-179 | Each row contributes at most one entry per list, with the institution of the first matching key, in row order. |
| ExtractAllResilient.EntriesAgree | extract_all_resilient.py:122-179 | Where every County is present, the lists as written are the corrected lists. |
| ExtractAllResilient.MissingCountyFails | extract_all_resilient.py:123-160 | A row with an empty County stops the loop as written; the corrected lists skip it. |
| ExtractAllResilient.SpecialCounties | extract_all_resilient.py:122-179 | The row loop builds exactly the corrected college and military lists. |
| ExtractAllResilient.FirstMatch | extract_all_resilient.py:159-168 | The inner loop with its `break` finds exactly FirstKey. |
| GetCitiesTiger.StateFipsListSpec | get_cities_tiger.py:36-37 | Each state code appears once, has two characters and prefixes some padded id; every id's prefix is listed. |
| GetCitiesTiger.CitySpec | get_cities_tiger.py:243-249 | A listed county FIPS decides the city. Otherwise the city is missing exactly when the county is, is never longer than the county name, and is the name itself when it has neither suffix. |
| GetCitiesTiger.SpecialOfSpec | get_cities_tiger.py:252-260 | The three labels partition the tracts, and the military rule takes precedence. A missing County gives "None". |
| GetCitiesTiger.ApplyRule | get_cities_tiger.py:257-260 | After one rule loop a row holds the tag exactly when its County mentions one of the names, and it keeps its old label otherwise. |
| GetCitiesTiger.SpecialPopulation | get_cities_tiger.py:256-260 | The column ends up holding the label of every county. |
| GetCitiesTiger.SpecialSharesBounded | get_cities_tiger.py:284-285 | college_pct and military_pct are non-negative and add up to at most 100. |
| GetCitiesCensus.PartsOfSpec | get_cities_census.py:32-38 | The state, county and tract codes have 2, 3 and 6 characters and are the first 11 characters of the padded id. |
| GetCitiesCensus.CityOfSpec | get_cities_census.py:186-189 | The city is missing exactly when the county is. A county in the table gets its city; any other gets its name without " County". |
| GetCitiesCensus.CityStateSpec | get_cities_census.py:192 | City_State is the city, ", " and the state abbreviation. |
| GetCitiesCensus.QuickCityMappingSpec | get_cities_census.py:128-192 | Every row is kept, in order, with its City and City_State. |
| AnalyzeLeastResilient.LeastResilientSpec | analyze_least_resilient.py:38-49 | The list holds exactly the LILA rows scoring at most q10, each as often as in the input, lowest score first. |
| AnalyzeLeastResilient.InclusiveContainsStrict | analyze_least_resilient.py:44 | The strict vulnerable split of the anomaly script is contained in this inclusive one. A LILA tract scoring exactly q10 is in this list only. |
| AnalyzeLeastResilient.MostResilientSpec | analyze_least_resilient.py:103 | Exactly as many rows as the least resilient list, all scored LILA rows, highest first. No row left out scores higher than one kept. |
| AnalyzeLeastResilient.ComparisonSpec | analyze_least_resilient.py:105-126 | There is one row per metric, in order. Difference is Most minus Least, missing when either value is. |
| AnalyzeLeastResilient.PercentUrbanDifference | analyze_least_resilient.py:113-121 | The Percent Urban difference lies in [-100, 100]. |
| AnalyzeLeastResilient.TopGroupsSpec | analyze_least_resilient.py:86-92 | There are at most n groups (15 in both calls), largest first, each a present key with its row count. No group left out is larger than one kept. |
| AnalyzeLeastResilient.SouthPctSpec | analyze_least_resilient.py:167-172 | The southern share raises ZeroDivisionError exactly on an empty list and otherwise lies in [0, 100]. |
| AnalyzeLeastResilient.RuralUrbanShares | analyze_least_resilient.py:159-160 | The rural share and the Urban == 1 share add up to at most 100. They add up to exactly 100 when every flag is 0 or 1, so `100 - rural_pct` is the urban share only then. |
| AnalyzeLeastResilient.RuralOrUrban | analyze_least_resilient.py:159 | With 0/1 Urban flags every row is rural or urban and not both. |
| GenerateTables.MeanPctSpec | generate_tables.py:59-73 | The mean in percent is missing exactly when no value is present. It lies in [0, 100] for values between 0 and 1, and for 0/1 flags it is the share of ones. |
| GenerateTables.IndicatorRowSpec | generate_tables.py:59-73 | N counts the values present and N + Missing is the number of rows. Mean is 0 when N is 0, and otherwise the percentage of ones. |
| GenerateTables.RuralRowSpec | generate_tables.py:75-86 | N counts the Urban flags present. Mean is NaN exactly when none is present, and otherwise the percentage of Urban == 0 rows. |
| GenerateTables.Table1RowsSpec | generate_tables.py:59-86 | There are five rows: the four indicators in order, then Rural. Each has N + Missing equal to the number of rows. |
| GenerateTables.StateTableSpec | generate_tables.py:130-159 | There are at most 15 rows, in non-increasing order of resilient tracts, one per state with a LILA tract. Each row carries its resilient and total LILA counts and a percentage in [0, 100]. No state left out has more resilient tracts than one kept. |
| GenerateTables.StateTableOrder | generate_tables.py:159 | The rows are sorted by resilient tracts and name distinct states. |
| GenerateTables.StateTableRows | generate_tables.py:144-156 | Each row's counts and percentage fit its state. |
| GenerateTables.StateTableComplete | generate_tables.py:159 | No left-out state with a LILA tract has more resilient tracts than a kept one. |
| AnalyzeResilience.OverlapMatrix | analyze_resilience.py:103-108 | The nested loop fills every cell with the overlap count. |
| AnalyzeResilience.OverlapSpec | analyze_resilience.py:103-108 | Counts stand exactly on and above the diagonal, and a diagonal cell is that definition's count. An off-diagonal cell is at most either definition's count. |
| AnalyzeResilience.SensitivitySpec | analyze_resilience.py:125-143 | The table fails exactly when some definition has no LILA tract. Otherwise it has one row per definition with n_resilient <= n_lila and a percentage in [0, 100]. |
| AnalyzeResilience.ResilientUnderSpec | analyze_resilience.py:129-133 | The resilient tracts of a definition are its LILA tracts scoring above its threshold. |
| AnalyzeResilience.BivariateClassSpec | analyze_resilience.py:257-273 | The class is 0 exactly when a level is missing. Otherwise it is 3·lila + resilience + 1, in 1..9, and both levels can be read back from it. |
| AnalyzeResilience.BivariateInjective | analyze_resilience.py:257-273 | Distinct level pairs get distinct classes. |
| AnalyzeResilience.CaseStudiesSpec | analyze_resilience.py:304-310 | There are at most 20 candidates (fewer only when fewer qualify), each a LILA tract above q90, highest first. No qualifying tract left out scores higher than one kept. |
| AnalyzeResilience.CaseStudiesMembers | analyze_resilience.py:304-308 | Each candidate is a LILA tract of the input scoring above q90. |
| AnalyzeResilience.CaseStudiesOrder | analyze_resilience.py:310 | The candidates come highest score first. |
| GetCitiesTigerFull.LeftJoinSpec | get_cities_tiger_full.py:95-101 | Every row survives the merge and carries its padded GEOID. Its coordinates are missing exactly when no centroid has that GEOID. |
| GetCitiesTigerFull.LeftJoinUnique | get_cities_tiger_full.py:98-101 | With one centroid per GEOID the merge keeps exactly the input rows, in order. |
| GetCitiesTigerFull.PlaceSpec | get_cities_tiger_full.py:141-166 | The mapping wins when the county FIPS is in it. Otherwise the place is "County, ST". |
| GetCitiesTigerFull.Places | get_cities_tiger_full.py:162-166 | The corrected place column has one entry per row. |
| GetCitiesTigerFull.PlacesSpec | get_cities_tiger_full.py:141-166 | A place is missing only for a row whose County is missing and whose county FIPS is unmapped. |
| GetCitiesTigerFull.StateFipsMissing | get_cities_tiger_full.py:128-138 | main's frame has no state_fips column, so the step as written fails on every input. |
| GetCitiesTigerFull.FlagsSpec | get_cities_tiger_full.py:184-197 | Each flag holds exactly when one of its keywords occurs in the place, and a missing place ("nan") raises neither. |
| GetCitiesTigerFull.SummarizeSpec | get_cities_tiger_full.py:214-263 | Each count is at most the number of tracts. Count(neither) + college + military = total + Count(both), so the printed "normal" count is exact only when no tract has both flags. |

## Left out

- Reading and writing files is left out: CSV, XLSX, JSON, LaTeX and shapefiles. Each table is a
  parameter or a result.
- Opening the workbook is left out, and so is writing the staged CSV
  (`internal/data/download.go:62-64,98-108`). A sheet whose row iterator fails is an absent sheet.
- Network access, the Census API loop and the gazetteer download are left out. The centroids are a
  parameter.
- The least-squares fit and what follows it are left out (`internal/model/expected.go:108-142`):
  the QR solve, the predictions, the residuals, R² and the residual standard deviation. They are
  floating-point linear algebra. The model table takes the residuals and the deviation as
  parameters.
- `parse` and `format` (`strconv.ParseFloat`/`FormatFloat`) are function parameters, because
  floating-point text conversion is out of scope.
- Quantiles, means, standard deviations, medians and `round` are not computed. Thresholds and means
  are parameters, and means reported only in printed or saved findings are left out. This covers
  poverty means, racial percentages, Mean_Resilience, and the Health Burden Index and Resilience
  Score rows of Table 1.
- `pd.qcut` levels are taken as inputs of the bivariate class. The qcut of a 0/1 LILA column
  probably raises on duplicate bin edges; this is not modelled.
- Plots, maps, the hard-coded regression table, the random sample and the print-only stubs produce
  no data the rest of the pipeline uses, so they are left out. The print-only stubs include the
  API placeholders in get_cities_tiger.py.
- The LILA prevalence printout and the descriptive top-30 state ranking in analyze_resilience.py
  are left out. They are printed summaries of the selections that are modelled.
- The gazetteer merge in analyze_least_resilient.py is the same left join as
  GetCitiesTigerFull.LeftJoin and is not repeated.
- PlacesPivot.PivotPLACES: the Go code iterates its tract map in random order. The wide rows are a
  map from tract to row, so the output order is not modelled.
- PlacesPivot.PivotPLACES: a data row too short for a header position makes the Go code panic
  (index out of range). The model returns the error RowTooShort for the first such row instead.
- ExpectedModel.ExpectedBurden: a cell read past the end of its row makes the Go code panic (index
  out of range). Rows may be ragged, and only the cells actually read must exist. The model returns
  IndexOutOfRange instead. With no matched row, the Go code panics at `rows[0]` (line 109). The
  model returns NoMatchedRows.
- ExpectedModel.Score: the score is computed over real numbers. A NaN residual or deviation, and
  the rounding of floating-point division, cannot arise in the model. ScoreSign holds for every
  finite residual and non-negative deviation.
- Text.ToUpper: only the runes whose upper case is ASCII are mapped: a-z, U+0131 and U+017F. Go
  also upper-cases other runes, for example "é" to "É". Every comparison in the core is against an
  ASCII measure name, and those comparisons are unaffected.
- ExpectedModel.SetToList: Go's map iteration order is not modelled. The method returns some
  duplicate-free listing of the set, and SortedStates shows that the order does not matter after
  the sort.
- Seqs.SortDesc: pandas' default sort is not stable. The model states only "sorted and a
  permutation", so it does not pin down the order of tied scores.
- Seqs.GroupBy: groups are listed in order of first appearance, whereas pandas' `groupby` sorts the
  keys. Every use sorts the groups by a count afterwards, so only groups with tied counts are
  affected: their order in the tables, and which of them makes a top-n cut.

## Findings

| source | as written | input that shows it | evidently intended | confidence | as-written member | corrected member |
|---|---|---|---|---|---|---|
| internal/data/download.go:84-93 | `rows` is reset only when a header is rejected, so an accepted sheet without data rows leaves its header in `rows` for the next sheet | sheets `[["GEOID"]]` then `[["GEOID","LILATracts_1And10"],["01001020100","1"]]` stage `GEOID`, then the real header, then the data; two header-only sheets pass the "no FARA sheet" check with no data | stage the first sheet with an accepted header and at least one data row | not executed; medium | FaraSheets.DuplicatedHeader, FaraSheets.HeadersWithoutData | FaraSheets.FaraRowsFixed, FaraSheets.FirstUsableSpec |
| extract_all_resilient.py:123-171 | `county_upper` is computed NaN-safely but never used; the loops test `county_key in row['County']`, which raises TypeError on a missing County | one resilient LILA row whose FARA County cell is empty | a missing County matches no college or military county | not executed; low (needs an empty County in FARA) | ExtractAllResilient.MissingCountyFails | ExtractAllResilient.SpecialCounties, ExtractAllResilient.EntriesSpec |
| get_cities_tiger_full.py:128-138 | the place step loops over `gdf['state_fips']`, but the frame main passes has only the extract columns plus GEOID and coordinates | any run of main | derive the place from the county FIPS of each row's GEOID | not executed; high | GetCitiesTigerFull.StateFipsMissing | GetCitiesTigerFull.Places, GetCitiesTigerFull.PlacesSpec |
