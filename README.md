# eoana core, modelled in Dafny

eoana is a set of tools for Sentinel-3 OLCI ocean-colour data. This project
models its core:

- **Scene discovery** (`Seacher`). It lists the `.SEN3` scene folders of a
  download directory. From each folder name it reads the satellite, the
  start date and the orbit. It groups the four product files of each scene
  into passages, keyed by date and then by `"<satellite>_<orbit>"`.
- **Quality flags** (`BitFlags`, `get_mask`, `get_flag_mask`). A pixel is
  rejected when its `wqsf` word shares a bit with the OR of the masks of a
  list of flag names.
- **The chlorophyll export of one passage.** A passage whose largest file is
  over 100 MiB is skipped. Otherwise pixels outside the coastal zone or
  flagged become NaN, and the raster is named after the passage and its
  start time.
- **`round_value`.** The decimal text of a value is quantized half-up with
  Python's `decimal` module and written back with `str`.
- **`recursive_dict_update`.** It merges one nested mapping into another, in
  place and in insertion order.
- **`get_idx`.** It finds the grid cell nearest to a position.
- **The validators.** These are the `Validator` base class and
  `MandatoryAttributes`, which reports which attributes of a list object are
  present and complete.

Modules, one per source concern:

| file | module | models |
|---|---|---|
| common.dfy | Common | Python exceptions as values, `Option`/`Result`, `sep.join`, `str.split(sep)`, `str.split()` |
| file_searcher.dfy | FileSearcher | `eoana/handlers/file_searcher.py` |
| flags.dfy | Flags | `BitFlags` and `get_mask` of `eoana/utils.py` |
| rounding.dfy | Rounding | `round_value` of `eoana/utils.py` and the parts of `decimal` it relies on |
| dict_update.dfy | DictUpdate | `recursive_dict_update` of `eoana/utils.py` |
| grid_index.dfy | GridIndex | `get_idx` of `eoana/utils.py` |
| process_passage.dfy | PassageProcessing | `eoana/tests/process_passage_data.py` |
| validators.dfy | Validators | `eoana/validators/validator.py` |
| attributes.dfy | Attributes | `eoana/validators/attributes.py` |

The model replaces the outside world with parameters:

- The directory listing and the set of folders that `os.path.exists` accepts.
- The file sizes that `os.stat` returns.
- The flag attributes and `wqsf` words of a product.
- The coastal zone raster.
- The scene start time.
- The attributes a list object has and which of them are complete.

Paths use `/` as the separator, as `os.path.join` does on POSIX.

The `Seacher` class keeps the source's state in fields: `df` (the table of
scenes) and `passages` (the nested dict). Its methods update those fields
with `modifies` clauses. Each loop is proved against a specification
function (`Frame.PassageTable`). The `where` passes of the export work in
place on an `array`.

## Model

| member | source | states |
|---|---|---|
| FileSearcher.PathJoinParts | eoana/handlers/file_searcher.py:33-37 | joining a folder and a plain file name gives a path whose folder part is that folder and whose base name is the file name |
| FileSearcher.GetFileList | eoana/handlers/file_searcher.py:30-37 | a scene folder gives exactly four paths, one per product file |
| FileSearcher.GetFileListLayout | eoana/handlers/file_searcher.py:30-37 | the i-th path names the i-th product file; the files sit in `<base>/<dir>/<dir>/` when that folder exists and in `<base>/<dir>/` otherwise |
| FileSearcher.Sen3Dirs | eoana/handlers/file_searcher.py:47-48 | every kept listing entry ends in ".SEN3" |
| FileSearcher.Sen3DirsCounts | eoana/handlers/file_searcher.py:47-48 | a name ending in ".SEN3" is kept as many times as it is listed; any other name is dropped |
| FileSearcher.Sen3DirsAppend | eoana/handlers/file_searcher.py:47-48 | the filter keeps listing order: filtering two parts of a listing gives the filtered parts one after the other |
| FileSearcher.ParseName | eoana/handlers/file_searcher.py:64-68 | a name with fewer than 13 '_'-fields raises IndexError; otherwise the satellite, the orbit and the date contain no '_', and the date contains no 'T' |
| FileSearcher.ParseConventionName | eoana/handlers/file_searcher.py:64-68 | a name built from at least 13 fields reads back as field 0, field 7 up to its 'T', and field 12 |
| FileSearcher.ComboInjective | eoana/handlers/file_searcher.py:80 | for satellites without '_', two passage keys are equal exactly when their satellites and their orbits are equal |
| FileSearcher.Unique | eoana/handlers/file_searcher.py:75 | holds exactly the values of the column, each once |
| FileSearcher.UniqueOrder | eoana/handlers/file_searcher.py:75 | the distinct values come in the order of their first appearance in the column |
| FileSearcher.Frame.RowKeys | eoana/handlers/file_searcher.py:79-80 | has one (date, passage key) pair per scene row |
| FileSearcher.NoneSelected | eoana/handlers/file_searcher.py:86-88 | when no row matches the date, satellite and orbit, the selection holds no files |
| FileSearcher.ExtendTwice | eoana/handlers/file_searcher.py:95 | two `setdefault(...).extend` calls on one key add the two file lists in order |
| FileSearcher.AppendStep | eoana/handlers/file_searcher.py:93-95 | one more matching row adds that scene's four files at the end of its passage; a row that does not match changes nothing |
| FileSearcher.DayEnteredAt | eoana/handlers/file_searcher.py:78-88 | while a date is being entered, its passages are the date's table for the passage keys seen so far |
| FileSearcher.AppendedNew | eoana/handlers/file_searcher.py:86-95 | appending a passage key not yet present gives it exactly the files of all rows of that date, satellite and orbit |
| FileSearcher.DayStep | eoana/handlers/file_searcher.py:79-88 | a new passage key adds its complete file list to the date's table |
| FileSearcher.DayDone | eoana/handlers/file_searcher.py:75-88 | after the last row of a date, the passages hold that date's full table |
| FileSearcher.GroupFilesCount | eoana/handlers/file_searcher.py:93-95 | a passage holds four files for each scene of its date, satellite and orbit |
| FileSearcher.OccurrencesKeys | eoana/handlers/file_searcher.py:79-80 | the number of scenes of a passage equals the multiplicity of its (date, key) pair among the rows |
| FileSearcher.SelectIsGroup | eoana/handlers/file_searcher.py:86-88 | selecting rows by date, orbit and satellite picks the same rows as grouping by the passage key |
| FileSearcher.PassagePartition | eoana/handlers/file_searcher.py:73-95 | (date, key) is a passage exactly when some scene has it; each passage holds four files per such scene; the passages cover every scene exactly once |
| FileSearcher.Seacher.constructor | eoana/handlers/file_searcher.py:43-49 | the scene table holds the ".SEN3" folders of the listing and no name fields yet; the passages are empty |
| FileSearcher.Seacher.SetNameAttributes | eoana/handlers/file_searcher.py:59-71 | fails with IndexError, leaving the table unchanged, exactly when some scene name has fewer than 13 fields; otherwise every row gets the satellite, date and orbit read from its name |
| FileSearcher.Seacher.AppendPassage | eoana/handlers/file_searcher.py:90-95 | the date's entry gets the files of every scene of that date, satellite and orbit, added in row order to the passage key |
| FileSearcher.Seacher.AppendRow | eoana/handlers/file_searcher.py:93-95 | a row of the date, satellite and orbit extends the passage by its four files; any other row changes nothing |
| FileSearcher.Seacher.SetDailyPassages | eoana/handlers/file_searcher.py:73-88 | starting from no passages, builds exactly the passage table of the scene table |
| FileSearcher.Seacher.DailyPassages | eoana/handlers/file_searcher.py:76-88 | enters one date: each of its passage keys gets its complete file list |
| FileSearcher.Seacher.GetPassageFiles | eoana/handlers/file_searcher.py:55-57 | an unknown date raises KeyError; for a known date the result is keyed by the reader's name and gives the passage's files, or None for an unknown passage |
| FileSearcher.Open | eoana/handlers/file_searcher.py:43-53 | a scene name that cannot be read makes construction fail with IndexError; otherwise the finder keeps the folder, reader and existing paths it was given, its table lists the `.SEN3` folders, each row's satellite, start time and orbit are the ones read from its folder name, and it holds the passage table of the listing |
| Flags.ZipMapKeys | eoana/utils.py:27 | the names of the flag table are exactly the first min(len(meanings), len(masks)) meanings |
| Flags.ZipMapLast | eoana/utils.py:27 | a repeated name keeps the mask paired with its last occurrence |
| Flags.OrFoldShares | eoana/utils.py:36 | a word shares a bit with the OR of masks exactly when it shares a bit with one of them |
| Flags.BitFlags.constructor | eoana/utils.py:23-27 | keeps the masks and meanings, and pairs them by position into the flag table |
| Flags.BitFlags.MatchItem | eoana/utils.py:29-32 | an unknown name raises KeyError; otherwise, per element, true exactly when the element shares a bit with that flag's mask |
| Flags.BitFlags.MatchAny | eoana/utils.py:34-37 | an unknown name raises KeyError and an empty list raises TypeError; otherwise, per element, true exactly when the element shares a bit with the mask of some listed flag |
| Flags.MatchItemIsMatchAnyOfOne | eoana/utils.py:29-37 | `match_item(x, d)` equals `match_any([x], d)` |
| Flags.MatchAnyMonotone | eoana/utils.py:34-37 | adding names to the list never unflags a pixel |
| Flags.GetMask | eoana/utils.py:44-52 | KeyError exactly when the product lacks one of the eleven flags; otherwise a pixel is flagged exactly when its word has a bit of one of them |
| PassageProcessing.GetFlagMask | eoana/tests/process_passage_data.py:63-71 | KeyError exactly when the product lacks one of the thirteen flags, with no fallback; otherwise a pixel is flagged exactly when its word has a bit of one of them |
| PassageProcessing.Flags002Within003 | eoana/tests/process_passage_data.py:52-60 | with one flag table, a pixel flagged by FLAGS002 is flagged by FLAGS003, and a table that knows FLAGS003 knows FLAGS002 |
| PassageProcessing.MissingCoastline | eoana/tests/process_passage_data.py:56-67 | a product with every FLAGS002 flag but no COASTLINE makes `get_flag_mask` raise KeyError |
| PassageProcessing.LargestSize | eoana/tests/process_passage_data.py:107-111 | the running size is at least every file's size in MiB, and is 0 or one of them |
| PassageProcessing.Skipped | eoana/tests/process_passage_data.py:107-113 | a passage is skipped exactly when one of its files is larger than 104857600 bytes |
| PassageProcessing.WhereTwice | eoana/tests/process_passage_data.py:123-124 | two `where` passes give the same result in either order, and that result is one pass with both conditions |
| PassageProcessing.WhereIdempotent | eoana/tests/process_passage_data.py:123-124 | a second pass with the same condition changes nothing |
| PassageProcessing.ApplyWhere | eoana/tests/process_passage_data.py:123 | the layer, in place, becomes its `where` with the condition |
| PassageProcessing.MaskLayer | eoana/tests/process_passage_data.py:123-124 | after both passes a pixel keeps its value exactly when it is in the coastal zone and not flagged |
| PassageProcessing.OutputNameRoundTrip | eoana/tests/process_passage_data.py:125-126 | the passage and the start time to the minute can be read back from the output name |
| PassageProcessing.OutputNameInjective | eoana/tests/process_passage_data.py:125-126 | different passages or start times give different output names |
| PassageProcessing.ProcessPassage | eoana/tests/process_passage_data.py:106-134 | the passage is skipped (None) exactly when a file is over 100 MiB, and then the layer is left untouched; otherwise a product lacking a flag raises KeyError, and one with all thirteen flags is exported: the layer is blanked outside the coastal zone and where flagged, and the output name is returned |
| Rounding.QuantizeRounds | eoana/utils.py:169 | a quantized coefficient is the multiple of 10^-n nearest to the value, a tie going away from zero, and has at most 28 digits |
| Rounding.QuantizeFails | eoana/utils.py:169 | quantize raises InvalidOperation exactly when 10^-n is below Etiny or the correctly rounded coefficient needs more than 28 digits |
| Rounding.Quantize | eoana/utils.py:169 | the result has exponent -n and the input's sign; a failure is InvalidOperation |
| Rounding.RoundsHalfUpUnique | eoana/utils.py:169 | at most one coefficient is the half-up rounding of a value |
| Rounding.ToSciStringRoundTrip | eoana/utils.py:169 | `Decimal(str(d))` is d, with the same sign, coefficient and exponent |
| Rounding.ToPlainStringRoundTrip | eoana/utils.py:169 | plain notation reads back as the same decimal when the exponent is not positive |
| Rounding.ToPlainStringFixed | eoana/utils.py:169 | plain notation of a decimal with exponent -n has exactly n fractional digits |
| Rounding.RoundValue | eoana/utils.py:167-169 | text that is not a number raises InvalidOperation; otherwise a negative number of decimals raises ValueError; with a non-negative one the result is text exactly when quantize succeeds, and a quantize that fails raises InvalidOperation |
| Rounding.RoundValueDenotes | eoana/utils.py:167-169 | the returned text reads back as the input rounded half-up to n decimals |
| Rounding.RoundValueFixedUpToSix | eoana/utils.py:167-169 | with at most six decimals the returned text has exactly n fractional digits |
| Rounding.RoundValueZeroSeven | eoana/utils.py:167-169 | `round_value(0, 7)` returns "0E-7", which is not seven-decimal fixed point |
| Rounding.RoundValueFixedText | eoana/utils.py:167-169 | the corrected rounding always writes exactly n fractional digits, and its text reads back as the rounded input |
| Rounding.RoundValueFixedAgrees | eoana/utils.py:167-169 | the corrected rounding fails on the same inputs as the original and gives the same text for up to six decimals |
| DictUpdate.Get | eoana/utils.py:160 | finds a value exactly when the key is in the dict |
| DictUpdate.Put | eoana/utils.py:161-163 | after `d[k] = v` the keys are the old keys plus k |
| DictUpdate.GetPut | eoana/utils.py:161-163 | after `d[k] = v`, k holds v and every other key keeps its value |
| DictUpdate.DistinctPut | eoana/utils.py:161-163 | assigning to a key keeps the keys of a dict distinct |
| DictUpdate.MergeUpToGet | eoana/utils.py:158-163 | after n entries of u, the keys are d's plus those entries'; a key of u holds its update and any other key its old value |
| DictUpdate.MergeUpToFails | eoana/utils.py:158-163 | the loop fails exactly when some entry fails, and then with the error of the first such entry |
| DictUpdate.MergeGet | eoana/utils.py:152-164 | keys of d that u does not mention keep their values; a non-mapping value of u replaces d[k]; a mapping value is merged into d.get(k, {}) |
| DictUpdate.MergeFails | eoana/utils.py:152-164 | the update fails exactly when merging some mapping value of u into what d holds there fails, with that entry's error |
| DictUpdate.MergeOnLeaf | eoana/utils.py:158-160 | merging into a non-mapping: an empty u returns it unchanged; otherwise the first entry raises AttributeError for a mapping value and TypeError for any other value |
| DictUpdate.MergeUpToDistinct | eoana/utils.py:158-163 | the update keeps the keys of a dict distinct |
| DictUpdate.MergeIdempotent | eoana/utils.py:152-164 | applying the same update twice gives what applying it once gives |
| DictUpdate.ErrorSticks | eoana/utils.py:158-163 | once an entry has raised, the rest of u is never written |
| DictUpdate.RecursiveDictUpdate | eoana/utils.py:152-164 | the loop with its recursive calls computes the specified merge, including its errors |
| GridIndex.Distances | eoana/utils.py:138-140 | every summed distance is non-negative, and it is zero exactly at a cell with the position's latitude and longitude |
| GridIndex.RowFirstMin | eoana/utils.py:145 | the position holds the row's least value, and every earlier position a larger one |
| GridIndex.GridFirstMin | eoana/utils.py:145 | the cell holds the grid's least value, and every cell before it in row-major order holds a larger one |
| GridIndex.LastRowStep | eoana/utils.py:145 | the first minimum of the rows above and that of the last row give the grid's first minimum, the earlier cell winning a tie |
| GridIndex.GetIdx | eoana/utils.py:138-149 | an empty grid raises ValueError; otherwise the result is the first cell in row-major order with the least summed latitude and longitude distance |
| GridIndex.FirstMinUnique | eoana/utils.py:145 | the first minimal cell is unique, so the distances alone decide the index |
| GridIndex.ExactHit | eoana/utils.py:138-149 | when the position is a grid cell, the returned cell has exactly its coordinates and does not come after it |
| Validators.IterateConcat | eoana/validators/attributes.py:30 | iterating a string visits single characters that, put back together, give the string |
| Validators.Validator.constructor | eoana/validators/validator.py:16-23 | the instance has the six base attributes, all None |
| Validators.Validator.Validate | eoana/validators/validator.py:25-26 | always raises NotImplementedError |
| Validators.MessageAppend | eoana/validators/validator.py:28-35 | the message of two argument lists is their two messages joined by " - " |
| Validators.MessageLength | eoana/validators/validator.py:28-35 | the message is as long as the arguments plus three characters per separator |
| Attributes.Assigned | eoana/validators/attributes.py:15-18 | the attributes are the base ones plus every keyword name |
| Attributes.AssignedGet | eoana/validators/attributes.py:17-18 | an attribute named by keyword arguments holds the last value given for it |
| Attributes.AssignedUnnamed | eoana/validators/attributes.py:16-18 | a base attribute that no keyword names keeps its default |
| Attributes.SetDefaultFirstWins | eoana/validators/attributes.py:33-37 | the first message given for an attribute is kept: a second `setdefault` on it changes nothing |
| Attributes.Record | eoana/validators/attributes.py:31-37 | one step of the loop keeps the report sound and adds exactly the attribute examined |
| Attributes.MandatoryAttributes.constructor | eoana/validators/attributes.py:15-18 | the attributes are the base defaults overridden by the keyword arguments in order |
| Attributes.MandatoryAttributes.Validate | eoana/validators/attributes.py:20-37 | a missing `attributes` raises AttributeError (a branch the constructor makes unreachable, since it always sets `attributes`), an empty one AssertionError, and one that cannot be iterated TypeError; otherwise each listed attribute is in exactly one section; it is approved ("No missing values") exactly when present with no missing values; a disapproved one says "WARNING! Missing values" or "WARNING! Missing attribute" |
| Attributes.NoAttributesRefused | eoana/validators/attributes.py:15-25 | a validator built without an `attributes` keyword fails the assertion in `validate` |

## Left out

- File system, clock and network access. `os.listdir`, `os.path.exists`, `os.stat` and the scene start time are parameters.
- Raster and satellite I/O. Reading the coastal zone raster, loading and resampling with satpy, and writing the GeoTIFF are not part of this model. The layer, the `wqsf` words and the flag attributes are parameters.
- Floating point. Coordinates, distances and chlorophyll values are exact reals, and NaN is `None`. `get_idx` is modelled over exact numbers, so float rounding cannot change which cell is nearest.
- The second copy of `BitFlags`, at `eoana/tests/process_passage_data.py:22-43`, is the same code as the one in `eoana/utils.py:20-41`. `Flags.BitFlags` models both.
- `BitFlags.__eq__` is not modelled; nothing in the core calls it.
- GridIndex.GetIdx: numpy broadcasting of arrays of different shapes is not modelled. The two arrays have one rectangular shape, as every caller passes them.
- GridIndex.GetIdx: the "Multiple position combination" message is not modelled. `unravel_index` of a two-dimensional shape always gives two indices, so that branch never runs for a grid.
- Rounding.RoundValue: the text of the input is the decimal text `str(value)` would give. `str` of a float and Decimal's special values (NaN, Infinity), surrounding whitespace, underscores and non-ASCII digits are not modelled.
- Rounding.RoundValue: the default `nr_decimals=2` is not modelled as a default; a caller relying on it passes 2.
- Rounding.RoundValue: the rounding context is the default one. A program that changed the global decimal context is not modelled.
- DictUpdate.Merge: a non-mapping value is an integer payload, standing for any Python value that is not a `Mapping`. The alias `d` that the caller sees is not modelled, and neither are the entries written before an exception interrupts the loop. The model returns the new dict or the error.
- DictUpdate.MergeIdempotent: stated for well-formed values, where every dict has distinct keys, as every Python dict does.
- Attributes.MandatoryAttributes.Validate: the source builds the report and returns None; the logging call is commented out. The model returns the report so that its contents can be stated.
- Attributes.ListObj: `list_obj.has_attribute` and `list_obj.get(attr).all()` are given as the set of present attributes and the set of complete ones.
- Validators.Message: returns the line that `message` prints; the printing itself is not modelled.
- Validators.Message: the arguments are strings. A non-string argument, on which `' - '.join` raises TypeError, is not modelled.
- FileSearcher.Open: the defaults `base_dir=None` and `satpy_reader='olci_l2'` are not modelled as defaults; callers pass both, and the listing of the folder is a parameter.
- FileSearcher.Seacher.passages: a Python dict keeps the order in which dates and passages were inserted; the model's maps do not, so the order of iteration over dates and passages is not modelled. The order of distinct start times is stated by FileSearcher.UniqueOrder.
- PassageProcessing.ProcessPassage: the raster is modelled flattened into one sequence of pixels. The `while not date_passage_passed` loop runs its body exactly once, so it is modelled as straight-line code. The loop over the dates and passages of the finder is not modelled; each passage is processed by this method on its own. The console output (`print(date, passage)` and the "Timeit" line) and the `time.time()` timing are not modelled.
- PassageProcessing.OutputName: `%Y` is written with four digits, zero padded. For years before 1000 some C libraries write fewer digits; satellite data has no such years.
- The rest of the repository is not part of this model: plotting, aggregation, coordinate conversion, polygons and table scripts.

## Findings

| source | as written | input that shows it | evidently intended | confidence | as-written member | corrected member |
|---|---|---|---|---|---|---|
| eoana/utils.py:167-169 | `str()` of the quantized Decimal switches to scientific notation when the exponent is below -6 and there are few leading digits | `round_value(0, 7)` gives "0E-7", and `round_value(0.0000001, 7)` gives "1E-7" | a fixed-point string with exactly `nr_decimals` digits after the point, as it gives for up to six decimals | not executed | Rounding.RoundValueZeroSeven | Rounding.RoundValueFixedText |
