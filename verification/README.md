# forecasttools location helpers in Dafny

This project models the location logic of `forecasttools`, a package that
prepares forecasts for the CDC respiratory-disease forecast hubs. The model covers:

- the jurisdiction reference table: one record per location, holding a
  location code, a two-letter short name, a long name and an `is_state` flag
  (the columns the helpers read);
- the recoding of a dataframe's location column between two-letter
  abbreviations and hubverse (FIPS) codes, in both directions;
- the mapping from a location format (`abbr`, `hubverse`, `long_name`) to a
  table column, and the lookup of table records for a vector of identifiers;
- the hub location lists: `"US"`, then the states, DC and Puerto Rico sorted by
  code; the case-insensitive lookup of a hub's list; and the filter that keeps
  a dataframe's rows at hub locations;
- the constant tables: horizons, disease and target names, NHSN columns and
  the submission column order.

The jurisdiction table is a parameter `t: seq<Jurisdiction>`. A dataframe is a
`seq<map<string, string>>`, one map per row. A column "exists" when every row
has it, which for a polars frame, whose rows all share one column list, is
membership in `df.columns`. Every raised exception is a `Failure` carrying an
`Error` kind. The operations are pure functions returning `Result`.

Files:

- `locations.dfy` (module `Locations`): records, frames, errors.
- `strings.dfy` (module `Strings`): the lexicographic string order, insertion
  sort, and ASCII lower-casing.
- `constants.dfy` (module `Constants`): forecasttools/constants.py.
- `recode_locations.dfy` (module `RecodeLocations`): forecasttools/recode_locations.py.

A hub's locations are a Python list with `"US"` first and the other codes
sorted, and the model keeps them as a sequence in that order.

## Model

| member | source | states |
|---|---|---|
| `Strings.Sort` | forecasttools/constants.py:149 | The sorted code column is an ascending lexicographic permutation of the selected codes. |
| `Strings.SortedUnique` | forecasttools/constants.py:149 | Any two sorted permutations of the same codes are equal. So how the table library breaks ties does not change the code list. |
| `Strings.NoDuplicatesPermutation` | forecasttools/constants.py:149-151 | Sorting cannot introduce a repeated code. |
| `Strings.LexLeTotal` | forecasttools/constants.py:149 | Any two codes are comparable in the sort order. |
| `Strings.LexLeTransitive` | forecasttools/constants.py:149 | The sort order is transitive. |
| `Strings.Lower` | forecasttools/recode_locations.py:263 | Lower-casing keeps the length, turns every ASCII capital into its small letter, leaves every other character alone, and leaves no ASCII capital. |
| `Strings.LowerIdempotent` | forecasttools/recode_locations.py:263 | Lower-casing a hub name twice gives the same result as lower-casing it once. |
| `Constants.StandardHorizonsConsecutive` | forecasttools/constants.py:52 | The horizons are five values from -1 to 3, strictly increasing in steps of one. |
| `Constants.DiseaseTargetsKeys` | forecasttools/constants.py:56-85 | The target table's keys are exactly the valid diseases. |
| `Constants.DiseaseTargetTypes` | forecasttools/constants.py:59-85 | Each disease's inner map has exactly the valid target types as keys. |
| `Constants.DiseaseTargetNames` | forecasttools/constants.py:72-85 | Each target name is `wk inc <disease> hosp` or `wk inc <disease> prop ed visits`. |
| `Constants.DiseaseNhsnColumnsShape` | forecasttools/constants.py:63-67 | The NHSN column map covers exactly the valid diseases, with a distinct column for each. |
| `Constants.SubmissionColumnsShape` | forecasttools/constants.py:88-97 | The submission columns are eight distinct names, and `location` is one of them. |
| `Constants.SelectedIndices` | forecasttools/constants.py:118-121 | Lists, in strictly increasing order, exactly the indices of the records the filter keeps. |
| `Constants.SelectCodes` | forecasttools/constants.py:143-151 | Filtering records and taking their codes yields exactly the codes of the selected records, and is no longer than the table. |
| `Constants.SelectCodesStep` | forecasttools/constants.py:118-121 | Selecting from a record on decides that record, then selects from the rest. |
| `Constants.CodesAtAppend` | forecasttools/constants.py:118-121 | Codes taken at two index lists, concatenated, are the codes taken at the concatenated index list. |
| `Constants.SelectCodesInOrder` | forecasttools/constants.py:118-121 | The selection has one entry per selected record, in table order: entry j is the code of the j-th selected record, so a repeated code is kept. |
| `Constants.SelectCodesDistinct` | forecasttools/constants.py:143-151 | When table codes are unique, the selected codes have no repeats. |
| `Constants.AllLocationCodes` | forecasttools/constants.py:114 | The list of all codes is the `location_code` column in table order: entry k is record k's code. It therefore holds exactly the table's code set. |
| `Constants.StateLocationCodes` | forecasttools/constants.py:117-122 | The state code list is sorted and is a permutation of the codes of the `is_state` records, repeats included. |
| `Constants.TerritoryLocationCodes` | forecasttools/constants.py:125-130 | The territory code list is sorted and is a permutation of the codes of the non-state records other than `US`, repeats included. |
| `Constants.StateLocationCodesDistinct` | forecasttools/constants.py:117-122 | When table codes are unique, the state code list has no repeats. |
| `Constants.TerritoryLocationCodesDistinct` | forecasttools/constants.py:125-130 | When table codes are unique, the territory code list has no repeats. |
| `Constants.StatesAndTerritoriesDisjoint` | forecasttools/constants.py:116-130 | When table codes are unique, no code is in both the state list and the territory list. |
| `Constants.BuildHubLocations` | forecasttools/constants.py:140-153 | The hub list starts with `"US"`. Its tail is sorted and is a permutation of the codes of the records that are states, or whose code is `"11"` (DC) or `"72"` (PR). |
| `Constants.HubLocationsFromStatesAndTerritories` | forecasttools/constants.py:140-153 | The hub tail is the state codes together with DC and PR taken from the territory codes. |
| `Constants.BuildHubLocationsDistinct` | forecasttools/constants.py:143-153 | When table codes are unique, the tail has no repeats. If in addition the `US` record is not a state, the whole list has no repeats. |
| `Constants.HubTailIsTheSortedCodes` | forecasttools/constants.py:143-153 | Any sorted permutation of the hub records' codes, placed after `"US"`, is the built list. |
| `Constants.HubLocations` | forecasttools/constants.py:156-166 | The hub map has exactly the keys `flusight`, `covid` and `rsv`, and each of them maps to the list `_build_hub_locations` builds. |
| `RecodeLocations.FirstMatch` | forecasttools/recode_locations.py:69-74 | Finds the index of the first record holding a value, or reports that no record holds it. |
| `RecodeLocations.RecodeColumn` | forecasttools/recode_locations.py:69-74 | Keeps the row count and each row's columns. Every other column is unchanged. A location some record holds is translated through a record, and one no record holds is kept. |
| `RecodeLocations.Replace` | forecasttools/recode_locations.py:69-74 | A value some record holds becomes that record's value in the target column. A value no record holds is left unchanged. |
| `RecodeLocations.ReplaceRoundTrip` | forecasttools/recode_locations.py:134-138 | When the target column is unique, replacing a value forward and then back restores it. |
| `RecodeLocations.Recode` | forecasttools/recode_locations.py:47-74 | Fails on an empty frame, then on a missing column. Otherwise it fails exactly when some value is outside the source key set, and the error is the invalid-values error naming the column and exactly those values. On success the row count and key sets are kept, every other column is unchanged, and each location value is translated through a table record. |
| `RecodeLocations.LocAbbrToHubverseCode` | forecasttools/recode_locations.py:13-75 | Fails on an empty frame, then on a missing column, then with the invalid-values error naming the column and exactly the values that are not a `short_name`. On success each value becomes the `location_code` of a record whose `short_name` was the old value, and nothing else changes. |
| `RecodeLocations.LocHubverseCodeToAbbr` | forecasttools/recode_locations.py:78-139 | Fails on an empty frame, then on a missing column, then with the invalid-values error naming the column and exactly the values that are not a `location_code`. On success each value becomes the `short_name` of a record whose `location_code` was the old value, and nothing else changes. |
| `RecodeLocations.RecodeRowRoundTrip` | forecasttools/recode_locations.py:134-138 | Recoding one row forward and back returns the row. |
| `RecodeLocations.RecodeRoundTrip` | forecasttools/recode_locations.py:134-138 | When the target column is unique, a successful recoding followed by the reverse recoding succeeds and gives back the original frame. |
| `RecodeLocations.AbbrToCodeRoundTrip` | forecasttools/recode_locations.py:69-74 | When location codes are unique, recoding abbreviations to codes and then back returns the input frame. |
| `RecodeLocations.CodeToAbbrRoundTrip` | forecasttools/recode_locations.py:134-138 | When short names are unique, recoding codes to abbreviations and then back returns the input frame. |
| `RecodeLocations.ToLocationTableColumn` | forecasttools/recode_locations.py:142-178 | Succeeds exactly on `abbr`, `hubverse` and `long_name`, returning the column of that format, whose name is the one the format-to-column table gives (`short_name`, `location_code`, `long_name`). Any other string is an unknown-format error. |
| `RecodeLocations.ToLocationTableColumnRoundTrip` | forecasttools/recode_locations.py:167-177 | Each table column is reached from its own format and from no other. |
| `RecodeLocations.Matches` | forecasttools/recode_locations.py:236-238 | The records matching one identifier keep each matching record's multiplicity in the table and contain nothing else. |
| `RecodeLocations.MatchesNone` | forecasttools/recode_locations.py:236-238 | An identifier that no record holds matches nothing. |
| `RecodeLocations.InnerJoin` | forecasttools/recode_locations.py:232-238 | Each record appears once per occurrence of its key in the vector, times its multiplicity in the table. |
| `RecodeLocations.InnerJoinAppend` | forecasttools/recode_locations.py:235-238 | Joining a concatenated vector gives the concatenation of the two joins. |
| `RecodeLocations.InnerJoinDropsUnmatched` | forecasttools/recode_locations.py:236-238 | Removing an identifier that matches no record does not change the join. |
| `RecodeLocations.LocationLookup` | forecasttools/recode_locations.py:181-239 | Rejects a format outside the three valid ones, then an empty vector. On success it returns the join counts, so repeats are kept. |
| `RecodeLocations.LocationLookupSound` | forecasttools/recode_locations.py:232-238 | Every returned record is a table record whose key occurs in the vector. |
| `RecodeLocations.GetHubLocations` | forecasttools/recode_locations.py:242-267 | Succeeds exactly when the lower-cased name is a hub name, and returns the built hub list. Otherwise it fails with the name as given and the list of valid hubs. |
| `RecodeLocations.GetHubLocationsCaseInsensitive` | forecasttools/recode_locations.py:263-267 | A name and its lower-case form either both succeed with the same list or both fail. |
| `RecodeLocations.GetHubLocationsUpperCase` | forecasttools/recode_locations.py:242-267 | The default hub, `FluSight` and `COVID` succeed with the hub list. An unknown name fails. |
| `RecodeLocations.KeepRows` | forecasttools/recode_locations.py:313 | Every kept row is an input row whose location is in the list. Every input row whose location is in the list is kept. The output is no longer than the input. |
| `RecodeLocations.KeptIndices` | forecasttools/recode_locations.py:313 | Lists, in strictly increasing order, exactly the indices of the rows whose location is in the list. |
| `RecodeLocations.RowsAtAppend` | forecasttools/recode_locations.py:313 | Rows taken at two index lists, concatenated, are the rows taken at the concatenated index list. |
| `RecodeLocations.KeepRowsStep` | forecasttools/recode_locations.py:313 | Filtering from a row on decides that row, then filters the rest. |
| `RecodeLocations.KeepRowsAtKeptIndices` | forecasttools/recode_locations.py:313 | The kept rows are the input rows at the kept indices, in order. |
| `RecodeLocations.FilterToHubLocations` | forecasttools/recode_locations.py:270-314 | Fails on an empty frame, then a missing column, then an unknown hub, and on nothing else. On success every output row is an unaltered input row at a hub location. Every input row at a hub location is kept, and the output is never longer than the input. |
| `RecodeLocations.FilterToHubLocationsOrder` | forecasttools/recode_locations.py:306-313 | The filtered frame is exactly the subsequence of input rows whose location is in the hub list, in input order. |

## Left out

- Loading `location_table.parquet` and the other bundled data files (forecasttools/constants.py:17-20, forecasttools/__init__.py:61-94) is file I/O. The table is a parameter instead. Uniqueness of `short_name` or `location_code` is a stated hypothesis of the lemmas that need it.
- The `isinstance` type checks and their `TypeError`s are left out. Dafny's static types make them unnecessary.
- Message wording is left out. Errors are kinds with their payloads: the offending values, the format, the hub name and the valid hub names.
- Null cells are left out. Every cell is a string, so polars' treatment of nulls in `replace`, `is_in` and `join` is not modelled.
- `RecodeLocations.Replace`: polars `replace` with repeated keys is not modelled. The model uses the first matching record. The round trips assume only that the target column is unique, so for a table with a repeated value in the `from` column the model recodes through the first record, where the table library may reject the table instead. The model therefore assumes that the `short_name` and `location_code` columns are both unique. Nothing in forecasttools states this about `location_table`: the comment at forecasttools/constants.py:135-137 counts 53 hub locations, which bears on the codes only.
- `RecodeLocations.InnerJoin`: forecasttools does not promise the row order of the polars inner join (forecasttools/recode_locations.py:238). The model lists matches in vector order, then table order. The contracts of `InnerJoin` and `LocationLookup` count occurrences (multisets), so they hold for any order. `RecodeLocations.InnerJoinAppend` and `RecodeLocations.InnerJoinDropsUnmatched` are sequence equalities about the model's chosen order, and for the library's join only their multiset images are meant.
- `RecodeLocations.LocationLookup`: the joined frame's rows are modelled as table records. The identifier column the join adds equals the record's own key column, and the column order of the joined frame is not modelled.
- `Strings.Lower`: only ASCII letters are lower-cased. Python's `str.lower` maps other characters too. The hub names are ASCII.
- `HUBVERSE_QUANTILE_LEVELS` is left out because its values are floating point.
- `HUB_URLS` and `HUB_TASKS_JSON_URLS` are left out. They are URL strings with no behaviour.
- `united_states` and the other re-exports in forecasttools/__init__.py are left out. The first is the long names of the state records, and the rest are data loading.
- The modules forecasttools imports for other features are not part of this model: `trajectories_to_quantiles`, `daily_to_epiweekly`, `pull_data_cdc_gov`, `to_hubverse`, `utils` and `arviz`.
