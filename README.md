# verif input layer — a Dafny model

This project models the input layer of `verif`, a forecast verification tool, as written
in `verif/input.py`. It covers the parts of the layer that turn a file into data:

- **The text reader** (`Text.__init__`). It reads a file line by line:
  - `#variable:` and `#units:` comments set the metadata; other comments are ignored.
  - The first other line is the header. Each column name maps to its position, and
    `obs` and `fcst` are required.
  - Each data row must have the header's width. Its cells are read with `_clean`,
    which maps -999 to NaN.
  - A row's location is looked up by id. The first row of an id wins, and at most one
    conflict warning is raised per file.
  - Values go into sparse tables keyed by (date, offset, lat, lon, elev), plus the
    level for the quantile and threshold columns.
  - After the loop, the seen sets become lists, each table is copied into a NaN-filled
    dense array, and locations without an id are numbered from one past the largest id.
- **The legacy COMPS reader.** It covers:
  - the codec between thresholds or quantiles and the netCDF variable names that hold
    them (`p03` is 0.3, `pm2` is -2, `q30` is the 0.3 quantile);
  - the decoding of a file's variable names into its threshold and quantile lists;
  - the stacking of the per-threshold arrays into one four-dimensional array;
  - the units label;
  - the format test.
- **What all inputs share.** `name`, `shortname`, and the choice of reader in `get_input`.

Modules and files:

| module | file | what it models |
|---|---|---|
| `Common` | `common.dfy` | values (`None` is NaN), errors, results |
| `Strings` | `strings.dfy` | `str.replace`, `split`, `join`, `rfind` and slicing |
| `Numbers` | `numbers.dfy` | `float()` on plain decimal literals, `%d`, and the decimal form `%g` prints |
| `TextFields` | `text_fields.dfy` | `_clean`, the quantile and threshold column filters, the header index map |
| `TextScan` | `text_scan.dfy` | the row loop of `Text.__init__` as a fold over the lines |
| `TextScanFacts` | `text_scan_props.dfy` | what the row loop guarantees over a whole file |
| `TextReading` | `text_reader.dfy` | the same loop as an object whose fields change line by line, proved equal to the fold |
| `TextGrid` | `text_grid.dfy` | `list(set)` and the NaN-filled dense arrays |
| `LocationIds` | `location_ids.dfy` | the largest id and the numbering of locations without one |
| `TextInput` | `text_input.dfy` | `Text.__init__` end to end, and what survives into the loaded object |
| `CompsCodec` | `comps_codec.dfy` | the COMPS threshold and quantile name codec |
| `Comps` | `comps.dfy` | the COMPS reader's threshold and quantile lists, score stacking, units label and format test |
| `Inputs` | `inputs.dfy` | `name`, `shortname`, `Text.is_valid` and `get_input` |

NaN is `None` in an `Option<real>`. Every NaN the reader produces is the single object
`np.nan`, and Python compares dictionary keys by identity first. So NaN keys in the value
tables and the date and offset sets match each other, and the model treats `None` as an
ordinary key there. The location lookup tests for a NaN id before it looks the id up,
and the model does the same.

Locations are `Site` values: an id, a latitude, a longitude and an elevation. Two
locations created from different rows are different objects in the source, even when
their fields agree. The model keeps them apart by their position in the creation list.

Some of what the code does differs from what its own texts suggest:

- The dense arrays follow no fixed order. The code turns the Python sets of dates,
  offsets, locations and levels into lists (`verif/input.py:493-497`), and Python leaves
  that order unspecified. `ListOf` and `ListLocations` promise only that each member is
  listed once, in some order.
- `Comps.is_valid` returns `True` for every file that opens as netCDF. It spells the
  attribute `Convensions` in the `hasattr` test and `Convension` in the comparison, and
  it never returns the flag the comparison sets. Only a file that has `Convensions` but
  not `Convension` makes the test raise, and the `except` reports that as invalid.
- The `Text.description` string (`verif/input.py:347`) says that ids which are not
  provided "are assigned sequentially starting at 0". The code numbers them from one
  past the largest id read (`verif/input.py:539-553`), and from 0 only when no row has
  an id.
- The same string says "a value of 0 is used for any missing column". The code uses 0
  only for a missing `date` or `offset` column. A missing `id`, `lat`, `lon` or `elev`
  column reads as NaN, and a missing `obs` or `fcst` column fails the load. A new
  location stores a NaN coordinate as 0.
- A row whose width differs from the header's fails the load. The code compares the
  widths with `is not`, which also rejects rows of the right width in files with more
  than 256 columns (see Findings).

## Model

| member | source | states |
|---|---|---|
| Inputs.Name | verif/input.py:62-67 | the name is the end of the path after its last `/`: it has no `/`, and it is the whole path when the path has none |
| Inputs.ShortName | verif/input.py:69-74 | the short name is a prefix of the name, and shorter than it whenever the name is not empty |
| Inputs.ShortNameDropsExtension | verif/input.py:69-74 | with a `.` in the name, the name is the short name, a `.`, and an extension without `.` |
| Inputs.ShortNameWithoutDot | verif/input.py:69-74 | without a `.`, the short name still loses the last character of the name (`rfind` gives -1) |
| Inputs.GetInput | verif/input.py:14-25 | a file that does not exist is exactly the `FileNotFound` error |
| Inputs.GetInputChoice | verif/input.py:14-25 | an existing file always gets a reader, because `Text.is_valid` accepts everything; it is the CF reader exactly when the file declares the CF conventions, the COMPS reader exactly when it opens as netCDF, fails the CF test, and does not have `Convensions` without `Convension`, and the text reader otherwise |
| Comps.CfIsValid | verif/input.py:270-279 | a file is accepted only when it opens and has a `Conventions` attribute |
| Comps.CfReadsOnlyConventions | verif/input.py:270-279 | two files that agree on their `Conventions` attribute get the same answer, whatever else they hold |
| Comps.CompsIsValid | verif/input.py:99-111 | the `try` body and its `except`, followed as written, accept a file exactly when it opens and does not have `Convensions` without `Convension` |
| Comps.CompsAcceptsOpenFiles | verif/input.py:99-111 | the COMPS test depends only on which attributes a file has, never on their values; it accepts every file that opens and has `Convension` or lacks `Convensions`; a file that does not open is refused |
| Comps.CompsIgnoresConvention | verif/input.py:99-111 | the value of the compared attribute never changes the outcome |
| Comps.CfFilesPassComps | verif/input.py:14-25 | every file the CF test accepts also passes the COMPS test, unless it has `Convensions` without `Convension`, so trying the CF test first is what gives such files the CF reader |
| Comps.Collect | verif/input.py:166-182 | the list is no longer than the variable names, and each value in it is what some non-coordinate variable's name decodes to |
| Comps.CollectMembers | verif/input.py:166-182 | a value is collected exactly when some variable outside the coordinate names decodes to it |
| Comps.GetDecoded | verif/input.py:166-182 | the loop over the variables yields the decoded names in iteration order |
| Comps.ThresholdsListed | verif/input.py:166-173 | a threshold is listed exactly when some non-coordinate variable's name decodes to it |
| Comps.QuantilesListed | verif/input.py:175-182 | a quantile is listed exactly when some non-coordinate name decodes to it, and every listed quantile lies in [0, 1] (its percent in [0, 100]) |
| Comps.CopySlice | verif/input.py:134 | `values[:, :, :, t] = temp` sets slice t to the stored array and leaves every other slice unchanged |
| Comps.StackScores | verif/input.py:121-153 | no names give no array; a missing array, or one whose shape differs from the first, aborts; otherwise slice t holds the array stored under name t, and the shape is the first array's |
| Comps.ThresholdScores | verif/input.py:121-136 | slice t holds the array stored under the encoded name of threshold t |
| Comps.QuantileScores | verif/input.py:138-153 | slice q holds the array stored under the encoded name of quantile q |
| Comps.UnitsLabel | verif/input.py:184-194 | the label is never empty; it is "No units" exactly when there is no units attribute or it is empty; any other label starts with `%` or `$` |
| Comps.UnitsLabelInjective | verif/input.py:184-194 | different non-empty units give different labels |
| CompsCodec.ThresholdName | verif/input.py:226-238 | a threshold's name is `p`, then `m` when it is negative, then its digits (`0` and the fraction digits when \|t\| < 1, else the whole part) |
| CompsCodec.ThresholdNameShape | verif/input.py:226-238 | a threshold's name starts with `p`, has at least two characters, and contains no `-` and no `.` |
| CompsCodec.ThresholdNameExamples | verif/input.py:202-238 | 0.3 is stored as `p03` and -2 as `pm2` |
| CompsCodec.ThresholdOfName | verif/input.py:200-211 | a decoded threshold is in canonical form; a one-character name other than `p` decodes to nothing |
| CompsCodec.ThresholdDecodeEncode | verif/input.py:200-238 | decoding the name of t gives t for 0 <= t < 1, drops the fraction of \|t\| >= 1 (`%d` truncates), and turns -0.d into the whole number -d |
| CompsCodec.ThresholdRoundTrip | verif/input.py:200-238 | whole thresholds and fractions in [0, 1) survive encoding then decoding |
| CompsCodec.NegativeFractionLost | verif/input.py:200-238 | a negative threshold above -1 decodes to a value at most -1, so -0.5 comes back as -5 |
| CompsCodec.UnprefixedThreshold | verif/input.py:204-210 | the guard reads `or`, so a name of two or more digits without `p` still decodes, as that whole number |
| CompsCodec.QuantileName | verif/input.py:240-251 | a quantile has a name exactly when it lies in [0, 1] |
| CompsCodec.QuantileOfName | verif/input.py:213-224 | a decoded quantile is canonical and in [0, 1]; a one-character name other than `q` decodes to nothing |
| CompsCodec.QuantileDecodeEncode | verif/input.py:213-251 | decoding the name of quantile q gives q when its percent is whole or below 1; otherwise the point is lost and the digits are read as a whole percent, or as nothing above 100 |
| CompsCodec.QuantileRoundTrip | verif/input.py:213-251 | quantiles whose percent is whole or below 1 survive encoding then decoding |
| CompsCodec.QuantileExamples | verif/input.py:213-251 | quantile 0 is `q0`, 0.3 is `q30`, and `q30` decodes to 0.3 |
| CompsCodec.QuantileOutOfRange | verif/input.py:243-244 | quantiles 1.5 and -0.005 have no name |
| CompsCodec.UnprefixedQuantile | verif/input.py:217-223 | a name of two or more digits without `q` decodes as a whole percent, or to nothing above 100 |
| Numbers.ParseDecimal | verif/input.py:570-571 | `float()` of a plain literal gives a canonical decimal: no trailing zero after the point, no negative zero |
| Numbers.ParseRender | verif/input.py:570-571 | reading back a printed canonical decimal gives the same decimal |
| TextFields.Clean | verif/input.py:569-574 | a cell fails exactly when it is not a number; it reads as NaN exactly when its value is -999; otherwise it reads as its value |
| TextFields.CleanRender | verif/input.py:569-574 | a printed value reads back as itself, except -999, which reads as NaN |
| TextFields.QuantileFields | verif/input.py:576-581 | the quantile columns are exactly the header names starting with `q` |
| TextFields.ThresholdFields | verif/input.py:583-588 | the threshold columns are exactly the header names starting with `p`, other than `pit` |
| TextFields.FieldsDisjoint | verif/input.py:576-588 | no column is both a quantile and a threshold column |
| TextFields.HeaderMap | verif/input.py:400-417 | every name in the index map is at the position it maps to in the header |
| TextFields.HeaderMapLast | verif/input.py:400-417 | the index map names exactly the header's columns, and each at its last position |
| TextScan.ScanComment | verif/input.py:386-394 | a comment fails exactly when it has no word, or is `units:` with no word after it; `variable:` sets the variable name to the rest of the words joined by spaces, `units:` sets the units to the next word, and any other comment only counts as ignored |
| TextScan.ScanHeader | verif/input.py:397-424 | the header fails exactly when `obs` or `fcst` is missing, naming `obs` first; otherwise the header and its index map are recorded |
| TextScan.Column | verif/input.py:429-449 | a column the header lacks gives its default; a column it has gives that cell read by `_clean`, so a cell that is not a number aborts |
| TextScan.ReadHead | verif/input.py:429-449 | without their column, date and offset default to 0 and the id is NaN; only a bad number aborts |
| TextScan.ReadHeadReads | verif/input.py:429-449 | each of date, offset, id, lat, lon and elev is its column's cell read by `_clean`, or the column's default |
| TextScan.ReadHeadFails | verif/input.py:429-449 | reading the coordinates fails exactly when one of the coordinate cells the header has is not a number |
| TextScan.Locate | verif/input.py:450-472 | a known id keeps its first location; a new or NaN id appends a location with NaN coordinates read as 0 and becomes its entry; the conflict flag is set, and stays set, exactly when a known id's row differs by more than 0.0001 in lat or lon or 0.001 in elev |
| TextScan.Level | verif/input.py:481-486 | a level column's level is the name after its first character read as a number; it fails, naming that text, exactly when the text is not a number |
| TextScan.StoreLevels | verif/input.py:480-489 | levels and keys already stored stay; every new entry is under the row's key at a recorded level; only a bad number aborts |
| TextScan.StoreLevelsStores | verif/input.py:480-489 | after the loop every field's level and cell are numbers; the levels gain exactly the fields' levels; the table gains exactly (key, level) for those levels and holds, for each level, the cell of the last field naming it; other entries keep their values |
| TextScan.StoreLevelTables | verif/input.py:476-489 | the level columns leave obs, fcst and pit alone and add entries for the row's key only |
| TextScan.StoreValues | verif/input.py:473-489 | obs and fcst gain the row's key, pit gains it exactly when there is a pit column, and the level tables gain entries for that key only |
| TextScan.StoreValuesStores | verif/input.py:473-489 | obs and fcst hold the row's cleaned cells under its key, and pit does too when the header has it; every other key keeps its value; the quantile and threshold tables hold what `StoreLevelsStores` states |
| TextScan.ScanRow | verif/input.py:425-489 | a row of the wrong width fails with the column count; a row of the right width fails only on a bad number, and keeps the header |
| TextScan.WidthDiffersAsWritten | verif/input.py:426 | the `is not` test flags every pair of different widths, and equal widths exactly when they exceed 256 |
| TextScan.ScanRowAsWritten | verif/input.py:425-428 | with the `is not` test, a row of another width, or any row under a header of more than 256 columns, fails with the column count; with 256 columns or fewer it reads the row as `ScanRow` does |
| TextScan.WideRowRejectedAsWritten | verif/input.py:425-428 | under a header of more than 256 columns, a row of the header's width that `ScanRow` reads is rejected for its width |
| TextScan.PlaceRow | verif/input.py:429-489 | a located row keeps the header and fails only on a bad number |
| TextScan.PlaceRowStores | verif/input.py:429-489 | a row leaves the variable name and units alone, adds its date and offset to the seen sets, and stores its values, as `StoreValues` does, under its date, offset and the coordinates of the location its id already had (or of the one it creates); it fails exactly when storing fails |
| TextScan.PlaceRowKeys | verif/input.py:466-475 | the row's obs and fcst are stored under that key |
| TextScan.PlaceRowKeepsSites | verif/input.py:450-468 | a row only appends locations and keeps the location of every known id |
| TextScan.ScanLine | verif/input.py:385-428 | once read, the header and index map never change; the first line that is not a comment becomes the header; a data row whose width differs from the header's fails with the column count |
| TextScan.ScanLines | verif/input.py:385-489 | a successful load ends in a consistent state: a read header holds `obs` and `fcst` and indexes every column, the conflict warning is issued at most once, location ids are unique, and every id maps to its own location |
| TextScan.ScanLinesStopsAtError | verif/input.py:385-489 | the load fails with the first failing line's error |
| TextScan.StoreLevelsStopsAtError | verif/input.py:480-489 | a level column that fails ends the row with its error |
| TextScan.ScanLineConsistent | verif/input.py:385-489 | every line keeps the state consistent |
| TextScan.ScanRowConsistent | verif/input.py:425-489 | every data row keeps the state consistent |
| TextScan.LocateConsistent | verif/input.py:450-472 | the location lookup keeps ids unique and the location table in step with the list |
| TextScanFacts.HeaderIsFirstDataLine | verif/input.py:385-399 | the loaded header is the words of the first line that is not a comment |
| TextScanFacts.HeaderOfFirst | verif/input.py:385-399 | the header is the first line that is not a comment, and there is none exactly when every line is a comment |
| TextScanFacts.HeaderMeansData | verif/input.py:385-399 | a loaded file has a header exactly when some line is not a comment |
| TextScanFacts.RowsMatchHeader | verif/input.py:425-428 | every data line of a loaded file has the header's number of fields |
| TextScanFacts.HeaderNeedsObsAndFcst | verif/input.py:419-424 | a header without `obs` or without `fcst` fails the load |
| TextScanFacts.KeepsSites | verif/input.py:450-468 | a line only appends locations and keeps the location of every known id |
| TextScanFacts.FirstRowWins | verif/input.py:450-472 | once an id has a location, every later state keeps it, and earlier locations stay at the front of the list in order |
| TextScanFacts.NoIdColumn | verif/input.py:435-468 | without an `id` column every data row after the header creates a location of its own |
| TextScanFacts.KeysStay | verif/input.py:473-475 | an obs or fcst entry, once stored, stays stored for the rest of the load |
| TextScanFacts.RowStoredAtFirstSite | verif/input.py:450-475 | every data row's obs and fcst are stored under its date, offset and the coordinates of its id's location; when an earlier row introduced the id, those are the earlier row's coordinates, whatever the row's own cells say, and they are the id's location once the file is loaded |
| TextScanFacts.MetadataStep | verif/input.py:386-394 | only a `variable:` comment changes the variable name and only a `units:` comment with a word after it changes the units |
| TextScanFacts.MetadataRead | verif/input.py:354-394 | a loaded file's variable name and units are `VariableOf` and `UnitsOf` of its lines |
| TextScanFacts.VariableOfLast | verif/input.py:386-390 | `VariableOf` is the rest of the last `variable:` comment, or "Unknown" when there is none |
| TextScanFacts.UnitsOfLast | verif/input.py:391-394 | `UnitsOf` is the word after the last `units:` comment, or "Unknown units" when there is none |
| TextScanFacts.LastVariableWins | verif/input.py:354-394 | the loaded variable name is the rest of the last `variable:` comment, or "Unknown" when the file has none |
| TextScanFacts.LastUnitsWin | verif/input.py:354-394 | the loaded units are the word after the last `units:` comment, or "Unknown units" when the file has none |
| TextScanFacts.LoadCovered | verif/input.py:473-489 | every stored entry has a seen date and offset, coordinates of a created location and a recorded level |
| TextReading.TextReader.constructor | verif/input.py:354-380 | the reader starts in the initial state: "Unknown" variable, "Unknown units", no header, empty sets and tables |
| TextReading.TextReader.ReadLine | verif/input.py:385-396 | reading a line changes the fields exactly as the fold's line step does, or fails with its error |
| TextReading.TextReader.ReadComment | verif/input.py:386-394 | reading a comment is the fold's comment step |
| TextReading.TextReader.ReadHeader | verif/input.py:397-424 | the index loop builds the header map; then `obs` and `fcst` are checked as in the fold's header step |
| TextReading.TextReader.ReadRow | verif/input.py:425-489 | reading a data row is the fold's row step |
| TextReading.TextReader.PlaceRow | verif/input.py:429-489 | recording, locating and storing a row is the fold's placement step |
| TextReading.TextReader.RecordCoordinates | verif/input.py:429-472 | the date and offset join the seen sets, then the location is looked up as `Locate` says |
| TextReading.TextReader.ReadCoordinates | verif/input.py:429-449 | the coordinate cells are read as `ReadHead` says |
| TextReading.TextReader.LocateRow | verif/input.py:450-468 | the location lookup changes the fields exactly as `Locate` says |
| TextReading.TextReader.StoreRow | verif/input.py:473-489 | the value cells are stored as `StoreValues` says |
| TextReading.TextReader.StoreLevelsLoop | verif/input.py:480-489 | the loop over level columns computes `StoreLevels` |
| TextReading.ReadLines | verif/input.py:385-489 | the reader ends in the state `ScanLines` gives, or fails with its error |
| TextGrid.ListOf | verif/input.py:493-497 | `list(set)` lists every member exactly once |
| TextGrid.ListLocations | verif/input.py:495 | the location list is a permutation of the created locations |
| TextGrid.Grid | verif/input.py:504-527 | each cell holds the table's entry for (date, offset, lat, lon, elev), or NaN |
| TextGrid.FillLocations | verif/input.py:516-527 | the loop over locations fills the cells of one date and offset and no others |
| TextGrid.LevelGrid | verif/input.py:509-537 | each cell holds the table's entry for (date, offset, lat, lon, elev, level), or NaN |
| TextGrid.FillLevelLocations | verif/input.py:516-537 | the loop over locations fills the level cells of one date and offset and no others |
| TextGrid.FillLevels | verif/input.py:528-537 | the loop over levels fills the cells of one date, offset and location and no others |
| LocationIds.MaxId | verif/input.py:539-544 | the largest id is NaN exactly when no location has an id; otherwise it is some location's id and no id exceeds it |
| LocationIds.MaxLocationId | verif/input.py:539-544 | the loop, with its NaN comparisons, computes `MaxId` |
| LocationIds.AssignIds | verif/input.py:546-553 | a location with an id keeps it; the n-th one without an id gets one past the largest id (or 0) plus n |
| LocationIds.NumberedIdsDistinct | verif/input.py:539-553 | after numbering every location has an id, and no two share one when the ids read were unique |
| TextInput.Text.constructor | verif/input.py:504-537 | the dense arrays hold the sparse tables' entries, and the pit array exists exactly when some row had a pit |
| TextInput.Build | verif/input.py:493-559 | the lists hold each seen value once, the locations are the created ones in some order and numbered, and the arrays hold the tables |
| TextInput.Load | verif/input.py:350-560 | loading fails exactly when the row loop fails, with its error; otherwise the object's lists, arrays and locations are those of the scanned state |
| TextInput.LoadKeepsEntries | verif/input.py:473-537 | nothing read is lost: every obs, fcst, pit, quantile and threshold value is in the cell of its date, offset, location and level |
| TextInput.LoadedIdsDistinct | verif/input.py:539-553 | after loading, every location has an id and no two share one |

## Findings

| source | as written | input that shows it | evidently intended | confidence | as-written member | corrected member |
|---|---|---|---|---|---|---|
| verif/input.py:426 | `len(row) is not len(header)` compares the two lengths as objects; CPython shares one object per integer only from -5 to 256 | a header of 257 columns and a data row of 257 numbers: the row is reported as having the wrong number of columns | `len(row) != len(header)`, rejecting only rows of another width | high, not executed | TextScan.WideRowRejectedAsWritten | TextScan.ScanRow |

`TextScan.ScanRowAsWritten` and `TextScan.WidthDiffersAsWritten` model the test as
written. `TextScan.WideRowRejectedAsWritten` shows that a row `ScanRow` reads is
rejected by it. The rest of the model uses `ScanRow`, which compares widths by value. Its
contract states that a row fails with the column count exactly when its width differs.

## Left out

- File access is not modelled. This covers opening and reading the text file,
  `os.path.exists`, `os.path.expanduser` and netCDF access. The text reader takes the
  file's lines. The COMPS reader takes the variable names, in iteration order, and a
  map from name to already-cleaned array. `get_input` takes whether the file exists
  and the attributes it has when it opens as netCDF.
- `verif.util.error`, `warning`, `clean` and `is_number` are not modelled. Errors are
  `Failure` results; the conflict warning and ignored comments are counted in the state.
- The timing calls (`time.time`) and the debug `print` in the conflict branch have no
  effect on the result and are left out.
- Floating point is not modelled. Values are exact reals, so rounding, infinities and
  `float()` on exponents, `inf`, `nan`, or literals with surrounding whitespace are not
  covered. A cell of that kind reads as not a number.
- `%g` is modelled only on the values the codec prints in plain decimal form: fractions
  with at most three leading zeros and six significant digits, and percents with at most
  six digits.
- Splitting on whitespace uses space, tab, newline, carriage return, vertical tab and
  form feed. Other Unicode whitespace is not covered.
- `Location` objects are modelled as values plus their position in the creation list.
  Their hashing is not modelled. The source's `Location` class is not part of this model.
- TextGrid.Grid: the source fills obs, fcst, pit and the two level arrays in one
  loop nest. The model fills each array in its own loop nest. The cell values are the
  same.
- TextInput.Load: the object's `dates`, `offsets`, `thresholds` and `quantiles` are
  `numpy` arrays in the source and sequences here.
- `Text.is_valid` (`verif/input.py:562-564`) is the predicate `Inputs.TextIsValid`, which is always true.
  Its effect is stated by `Inputs.GetInputChoice`.
- The `variable` objects (`verif.variable.Variable`) are left out. The model keeps the
  name and units strings they are built from.
- `Input.get_variables`, the readers' `description` texts, the `NetcdfCf` reader apart
  from its format test, `Comps._get_locations`, `Comps.obs` and `Comps.deterministic`
  are left out. They only read netCDF arrays.
- The `Fake` input is left out. It only holds the arrays it is given.
- Comps.StackScores: `values[:, :, :, t] = temp` lets numpy broadcast an array whose
  axes have size 1 into the slice. The model refuses every array whose shape differs
  from the first array's, so it aborts on some stores the source accepts.
- Comps.CopySlice and Comps.StackScores: the source fills a zero-initialised array.
  The model starts from arrays of 0.0 and proves that every cell is overwritten.
- CompsCodec.ThresholdOfName: the `assert` on line 208 inspects a `numpy.where` over a
  string and never fails. It is left out.
