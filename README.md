# Water-quality archive scripts, modelled in Dafny

The repository is a set of batch scripts that build a local archive of the
Environment Agency's water-quality measurements and prepare it for a GIS:

- `CSVDownloader.py` downloads one CSV slice per (year, operational area) pair
  into a dated output directory, skipping slices already present, then
  concatenates each area's slices into one combined file per area.
- `WQDataExtractor.py` opens an area's combined file, keeps the rows of the
  selected monitoring points that fall strictly between two dates, halves
  values reported below the limit of detection, and exports the result.
- `CSVtoSHP.py` turns every CSV file of a folder into a point layer, one point
  per distinct (easting, northing) pair, rebuilding each layer from scratch.

The model works over abstract values:
- a data frame is a `Table` of column names and rows;
- a directory is a listing plus a map from names to tables;
- an HTTP request is an `Archive` oracle from URL to `(status, body)`.

Each script is one module. The parts of a script that work step by step are
methods with loops:
- the methods of the class `Downloader.OutputDir`, proved against the folds `Process` and `CombineProcess`;
- the methods of the class `Shapes.ShapeWorkspace`, proved against the fold `ConvertProcess` with the `AsWritten` naming rule;
- `Extractor.CollectLocations`, a module-level loop with invariants, whose ensures give the notations directly.

The rest are functions and lemmas. The modules:
- `Tables`: the shared tables and errors.
- `Strings`:
  - Python's string order;
  - `str()` of integers;
  - `os.path.join`;
  - the suffix glob.
- `Pipeline`: connects the download script's output to the extraction script's input.

The members that model the scripts follow the code as written, also where
their comments say otherwise. Three places in the code evidently do not do what
was meant (see "## Findings"). For each of them the model also has a corrected
variant, and the table below marks the rows about a corrected variant with
"(corrected)":
- the combine loop: `Downloader.CombineProcess` as written, against
  `Downloader.IntendedCombineProcess`;
- the extraction: `Extractor.ExtractAsWritten`, which `Extractor.Run` uses,
  against `Extractor.Extract`;
- the layer names: `Shapes.ConvertProcess` with `AsWritten` naming, which
  `Shapes.ShapeWorkspace` uses, against the same fold with `Corrected` naming.

Other places where the code and its comments differ:
- **Area selection.** The per-area glob `'*' + area + '.csv'` is a plain suffix
  match. So the slice `2000_NA.csv` is also combined for area `A`
  (`Downloader.SuffixOverMatch`). The model keeps that over-match and does not
  anchor it at the underscore.
- **Calendar checks.** `strptime` checks the calendar, so `31/02/2020` is
  refused. The model includes that check (`Extractor.ValidDate`).
- **Stripping the extension.** The extension is removed with `str.rstrip`, which
  strips a set of characters, not a suffix. So `x_ABCs.csv` gives `x_ABC`: the
  upper-case `C` is not in the set `{'.', 'c', 's', 'v'}`.
- **The combined file name.** The platform is Windows: paths are joined with
  backslashes. Windows refuses file names holding U+0001 to U+001F, and line
  261's name holds U+0007. So `to_csv` at line 265 raises OSError
  (`Downloader.ControlFree`, `Downloader.AsWrittenNameRefused`).

## Model

| member | source | states |
|---|---|---|
| Downloader.CheckStatus | CSVDownloader.py:55-59 | passes iff the status is 200; any other status raises a connection error carrying that status |
| Downloader.OutputDir.CreateDirectory | CSVDownloader.py:77-83 | afterwards the directory exists; if it existed, nothing (listing, files, subdirectories) changes |
| Downloader.OutputDir.CreateSubdirectory | CSVDownloader.py:77-83 | mkdir of "areas" inside the output directory: added unless a file of that name exists (the error is swallowed); files unchanged |
| Downloader.RemoveFirst | CSVDownloader.py:115 | list.remove: fails with ValueError iff the item is absent; otherwise exactly the first occurrence is removed, order kept, multiset minus one copy |
| Downloader.RegionalExcluded | CSVDownloader.py:113-115 | the area list still contains "R" iff the catalogue lists "R" at least twice |
| Downloader.AreaLabel | CSVDownloader.py:146-148 | the label is that of the first catalogue row with the notation and a non-NaN label; none (IndexError) iff no such row |
| Downloader.SliceFileNameInjective | CSVDownloader.py:154 | distinct (year, area) pairs have distinct slice file names `str(year) + "_" + area + ".csv"` |
| Downloader.UrlInjective | CSVDownloader.py:168 | distinct pairs request distinct URLs `root + "/batch/measurement?area=" + area + "&year=" + str(year)` |
| Downloader.GridAt | CSVDownloader.py:139-144 | visiting order: the pair (year y, j-th area) is visited at position (y - 2000) * areas + j, so years ascend and areas keep list order |
| Downloader.GridLength | CSVDownloader.py:139-144 | the loops visit (years) * (areas) pairs |
| Downloader.GridYears | CSVDownloader.py:139-144 | every visited pair has a year in range(2000, current + 1) and a listed area |
| Downloader.GridSliceNamesDistinct | CSVDownloader.py:139-154 | with no area listed twice, every visited pair has its own slice file |
| Downloader.WithIndex | CSVDownloader.py:188 | a slice written with its index gains a leading "Unnamed: 0" column numbering the rows; the other cells are unchanged |
| Downloader.WriteFile | CSVDownloader.py:188 | writing keeps the listing and the files in step (every listed name has a file and vice versa, no duplicates) |
| Downloader.StepSkipsExisting | CSVDownloader.py:162-164 | skip rule: when the slice file exists, no request is made and nothing changes |
| Downloader.StepFetchesMissing | CSVDownloader.py:166-188 | when it is missing, exactly one request is made; a non-200 status or an unparsable body fails and writes nothing; otherwise exactly that file is written with the fetched table |
| Downloader.FailFast | CSVDownloader.py:139-188 | once a pair fails, every later pair leaves the state as it was (an uncaught error ends the script) |
| Downloader.ProcessKeepsExisting | CSVDownloader.py:162-164 | files present before the loop are never changed |
| Downloader.ProcessWritesOnlyFetched | CSVDownloader.py:154-188 | every new file is the slice file of a visited pair and holds what the archive returned for it |
| Downloader.ProcessCompletes | CSVDownloader.py:139-188 | on completion the files are exactly the earlier files plus the slice files of all visited pairs |
| Downloader.ProcessRequestsMissing | CSVDownloader.py:162-173 | on completion the requests are exactly the URLs of the pairs whose files were missing at the start, in visiting order |
| Downloader.OutputDir.Visit | CSVDownloader.py:146-188 | one inner-loop pass changes the directory exactly as Step says |
| Downloader.OutputDir.DownloadYear | CSVDownloader.py:144-188 | one year's pass changes the directory exactly as the fold over that year's pairs says |
| Downloader.OutputDir.Download | CSVDownloader.py:139-188 | the nested loops change the directory, the requests and the outcome exactly as the fold over the whole grid says |
| Downloader.Concat | CSVDownloader.py:258 | pd.concat fails with ValueError iff no file was selected |
| Downloader.ConcatColumns | CSVDownloader.py:258 | the combined columns are sorted, duplicate-free and exactly the union of the input columns |
| Downloader.ConcatRowAt | CSVDownloader.py:258 | the combined rows are the input rows file by file in order (row k of file i at offset(i) + k), their count the sum of the inputs', each widened with NaN to the union columns |
| Downloader.SliceIndexFlows | CSVDownloader.py:258 | the index column written with each slice at line 188 of the slice files reaches the combined table, numbering rows within their own file |
| Downloader.SliceSelected | CSVDownloader.py:249 | every slice file of an area is selected for that area |
| Downloader.SuffixOverMatch | CSVDownloader.py:249 | the slice file of area "NA" is also selected for area "A" |
| Downloader.AsWrittenNameRefused | CSVDownloader.py:261 | the name line 261 builds holds U+0007, a character the platform refuses in file names |
| Downloader.CombineStepFails | CSVDownloader.py:240-265 | as written, an iteration that starts without error always fails: no label (IndexError), nothing selected (ValueError), or else the refused name (OSError at line 265); it changes neither the output directory nor "areas" |
| Downloader.CombineEndsAtFirst | CSVDownloader.py:238-265 | as written, the loop ends at its first area with exactly that area's error and writes nothing; with no areas it does nothing |
| Downloader.IntendedStepWrites | CSVDownloader.py:240-265 | (corrected) the selected files are exactly the listed names ending (ignoring ASCII case) in area + ".csv", in listing order; their concatenation is written as the area's combined file; no file fails with ValueError |
| Downloader.IntendedKeepsDir | CSVDownloader.py:238-265 | (corrected) the concatenation loop never changes the output directory, and a failure ends it |
| Downloader.IntendedContents | CSVDownloader.py:238-265 | (corrected) a completed loop leaves under each area's combined name the concatenation of that area's files |
| Downloader.IntendedKeepsOthers | CSVDownloader.py:238-265 | (corrected) no other file of "areas" is changed |
| Downloader.CombinedNameInjective | CSVDownloader.py:261 | (corrected) distinct areas get distinct combined files |
| Downloader.CombinedPathIsOutputEntry | CSVDownloader.py:261 | as written, the combined file is an entry of the output directory itself named "areas", U+0007, "lldata_" + area + ".csv" |
| Downloader.OutputDir.CombineOne | CSVDownloader.py:240-265 | one pass of the concatenation loop as written changes state exactly as CombineStep says |
| Downloader.OutputDir.Combine | CSVDownloader.py:238-265 | the concatenation loop as written changes state exactly as CombineProcess says |
| Downloader.OutputDir.Run | CSVDownloader.py:113-265 | the script: area list (fails if "R" is absent), create the directory, download, create "areas", combine as written; each stage runs only if the previous one finished, so "areas" is created only after a completed download (unless a file of that name exists) and no other subdirectory changes |
| Extractor.LocationFilter | WQDataExtractor.py:47 | fails with KeyError iff the notation column is absent; keeps the columns |
| Extractor.DateFilter | WQDataExtractor.py:49 | fails with KeyError iff the date column is absent; keeps the columns |
| Extractor.DataFilterErrors | WQDataExtractor.py:47-49 | the filter fails iff a column is missing, naming the notation column first |
| Extractor.DataFilterMembers | WQDataExtractor.py:47-49 | a row is kept iff its notation is one of the locations and its date text lies strictly between the bounds in string order |
| Extractor.DataFilterSubsequence | WQDataExtractor.py:47-49 | the kept rows are an order-preserving subsequence of the input |
| Extractor.DataFilterIdempotent | WQDataExtractor.py:47-49 | filtering twice is filtering once |
| Extractor.ChunksFlatten | WQDataExtractor.py:141 | the chunks of at most 10000 rows, joined, give back the file's rows |
| Extractor.FlattenFilter | WQDataExtractor.py:145-150 | filtering each chunk and joining equals filtering the joined rows |
| Extractor.LocateEachSpec | WQDataExtractor.py:145 | the per-chunk location filter is the filter of each chunk, or a KeyError when the column is absent |
| Extractor.WindowEachSpec | WQDataExtractor.py:147 | the per-chunk date filter is the filter of each chunk, or a KeyError when the column is absent |
| Extractor.ChunkedAgrees | WQDataExtractor.py:139-150 | the chunked path gives exactly what the whole-table filter gives, errors included |
| Extractor.Find | WQDataExtractor.py:118-119 | str.find: the first index of the character, or -1 iff it is absent |
| Extractor.AreaNotationBetween | WQDataExtractor.py:118-120 | the notation is the text strictly between the first "(" and the first ")" |
| Extractor.AreaNotationOfLabel | WQDataExtractor.py:118-120 | "Label (CODE)" gives CODE when Label has no parentheses and CODE no ")" |
| Extractor.AreaNotationUnclosed | WQDataExtractor.py:118-120 | with no ")" (find gives -1) the slice drops the last character: "Label (CODE" gives CODE minus its last character |
| Extractor.AreaNotationBare | WQDataExtractor.py:118-120 | with no parentheses the slice is the whole text minus its last character |
| Extractor.ArchivePathInjective | WQDataExtractor.py:125 | distinct notations open distinct files |
| Extractor.ReformatDate | WQDataExtractor.py:73-74 | an accepted date is rendered as "YYYY-MM-DD 00:00:00" of a valid calendar date |
| Extractor.ReformatTwoDigits | WQDataExtractor.py:73-74 | "DD/MM/YYYY" is accepted iff it is a valid calendar date, and then gives "YYYY-MM-DD 00:00:00" with the same fields |
| Extractor.ReformatOneDigit | WQDataExtractor.py:73-74 | single-digit day and month ("5/3/2020") are accepted in the same way |
| Extractor.ReformatRejectsYearFirst | WQDataExtractor.py:73-74 | "YYYY/MM/DD" is refused |
| Extractor.TwoDigitDay | WQDataExtractor.py:73 | a two-digit day field is accepted iff it is 01-31, with that value |
| Extractor.TwoDigitMonth | WQDataExtractor.py:73 | a two-digit month field is accepted iff it is 01-12, with that value |
| Extractor.DatePartOrder | WQDataExtractor.py:73-74 | two rendered dates (compared at line 49) compare as strings exactly as the dates compare, and are equal iff the dates are |
| Extractor.IsoOrder | WQDataExtractor.py:73-74 | the reformatted bounds (compared at line 49) compare as strings exactly as the calendar dates do |
| Extractor.SampleInWindow | WQDataExtractor.py:49 | a sample time "YYYY-MM-DDT..." lies strictly between the bounds iff its date is on or after the start date and before the end date |
| Extractor.Qualify | WQDataExtractor.py:157 | np.where fails iff the qualifier column or the result column is absent (KeyError, qualifier first) or a result is text (TypeError) |
| Extractor.QualifiedValues | WQDataExtractor.py:157 | "resultQualified" is result / 2 where the qualifier is "<" and result elsewhere; row count and every other cell unchanged; the column is added once |
| Extractor.QualifyIdempotent | WQDataExtractor.py:157 | applying the rule again changes nothing |
| Extractor.CollectLocations | WQDataExtractor.py:92-108 | the cursor loop: fails with IndexError at the first row with fewer than six fields, iff there is one; otherwise field 5 of every row, in order |
| Extractor.AsWrittenNeverExports | WQDataExtractor.py:35-49 | as written, the normal branch never exports: data_filter returns None, line 136 binds it and line 157 subscripts it |
| Extractor.AsWrittenLosesExport | WQDataExtractor.py:136 | whenever the intended extraction succeeds, the as-written one fails with TypeError on None |
| Extractor.ExtractExportsSample | WQDataExtractor.py:118-161 | with data_filter returning its result, a matching row in the area's archive file is exported to outDir/selected_data.csv |
| Extractor.ExtractIgnoresMemoryError | WQDataExtractor.py:130-150 | (corrected) whether or not the MemoryError path is taken, the extraction gives the same result |
| Extractor.AsWrittenChunkedExports | WQDataExtractor.py:130-157 | as written, the MemoryError path exports exactly what the corrected extraction exports from the whole table |
| Extractor.Run | WQDataExtractor.py:73-161 | the script as written: refuses the start date, then the end date, then a short cursor row (IndexError at the first row with fewer than six fields), in that order; otherwise the extraction as written with the collected locations, which raises TypeError outside the MemoryError path |
| Shapes.Stem | CSVtoSHP.py:70 | os.path.splitext: stem plus extension give the name back |
| Shapes.GlobbedExtension | CSVtoSHP.py:70 | every file selected by "*.csv" at line 43 has a four-character extension that folds to ".csv" |
| Shapes.RStrip | CSVtoSHP.py:70 | str.rstrip: a prefix of the input, not ending in a stripped character, with only stripped characters removed |
| Shapes.RStripAppend | CSVtoSHP.py:70 | str.rstrip stops at the first character outside the set: everything before it is kept |
| Shapes.RStripThrough | CSVtoSHP.py:70 | characters from the set are stripped however many there are |
| Shapes.ReplaceHyphens | CSVtoSHP.py:73 | same length, every "-" becomes "_", every other character unchanged, so no "-" remains |
| Shapes.ReplaceHyphensIdempotent | CSVtoSHP.py:73 | every "-" becomes "_", and replacing again changes nothing |
| Shapes.CsvName | CSVtoSHP.py:70 | for a name "stem.csv" (stem without "."), the extension is ".csv" and the stem is the stem |
| Shapes.AsWrittenStripsStem | CSVtoSHP.py:70 | as written, the base name is the stem with trailing characters of the extension stripped |
| Shapes.AsWrittenEatsStem | CSVtoSHP.py:70 | as written, trailing stem characters from {'.', 'c', 's', 'v'} are lost ("abc.csv" gives "ab"); the intended base keeps them |
| Shapes.AsWrittenCollides | CSVtoSHP.py:70 | as written, "abc.csv" and "ab.csv" share a layer; the intended base names differ |
| Shapes.AsWrittenAgrees | CSVtoSHP.py:70 | when the stem does not end in an extension character, both give the same base |
| Shapes.HyphenCollides | CSVtoSHP.py:70-73 | "a-b.csv" and "a_b.csv" share a layer, both under the script's rstrip naming and under the corrected stem naming |
| Shapes.LocsPath | CSVtoSHP.py:83 | the retained-points path is the layer path of base + "_locs" |
| Shapes.MergedPath | CSVtoSHP.py:84 | the merged layer is always the layer path of "england_wq_locs" |
| Shapes.ShpPathInjective | CSVtoSHP.py:79-80 | distinct base names get distinct layers |
| Shapes.MergeTarget | CSVtoSHP.py:84 | the merge target used at line 205 is bound only inside the loop: NameError iff no file was selected |
| Shapes.ReadPointColumns | CSVtoSHP.py:141-147 | read with usecols fails with ValueError iff a listed column is missing; otherwise exactly the four columns, with the same rows and cells |
| Shapes.FirstWithKey | CSVtoSHP.py:152 | a row with a given coordinate pair exists iff the pair occurs |
| Shapes.DedupKeys | CSVtoSHP.py:152 | the de-duplication with an initial set of seen pairs keeps fresh pairs once each, at their first occurrence |
| Shapes.DropDuplicatesSpec | CSVtoSHP.py:152 | drop_duplicates keep="first": an order-preserving subsequence, no two rows sharing a pair, every pair of the input kept, each kept row the first with its pair |
| Shapes.FeaturesSpec | CSVtoSHP.py:163-180 | one feature per row, in order: X and easting from the easting cell, Y and northing from the northing cell, notation and label copied |
| Shapes.FeaturesDistinctPoints | CSVtoSHP.py:152-183 | no two inserted points share a location |
| Shapes.FeaturesConcat | CSVtoSHP.py:163-183 | the features of two row blocks are the features of each, in order |
| Shapes.ConvertStepRebuilds | CSVtoSHP.py:61-183 | under either naming rule, one file: its layer is emptied, then holds exactly that file's features (or stays empty on an error); no other layer changes |
| Shapes.ConvertFailureSticks | CSVtoSHP.py:61-183 | an error ends the loop |
| Shapes.ConvertFinalLayer | CSVtoSHP.py:61-183 | under either naming rule, after a completed run, a file whose base name (by that rule) no later file shares leaves exactly its own features in its layer |
| Shapes.AsWrittenLosesLayer | CSVtoSHP.py:61-183 | as written, converting "abc.csv" then "ab.csv" leaves the shared layer "ab" with only ab.csv's features, and the layer named after abc.csv is neither created nor changed |
| Shapes.CorrectedKeepsBothLayers | CSVtoSHP.py:61-183 | (corrected) named by the stem, the same two files keep two distinct layers, each with its own file's features |
| Shapes.ShapeWorkspace.Rebuild | CSVtoSHP.py:99-103 | the layer is deleted if present and re-created empty; other layers unchanged |
| Shapes.ShapeWorkspace.InsertRows | CSVtoSHP.py:163-183 | the cursor loop appends exactly one feature per row, in order, to that layer alone |
| Shapes.ShapeWorkspace.ConvertFile | CSVtoSHP.py:67-183 | one pass of the file loop changes the layers exactly as ConvertStep with the as-written naming (line 70) says |
| Shapes.ShapeWorkspace.ConvertAll | CSVtoSHP.py:43-183 | selects the "*.csv" entries in listing order and changes the layers exactly as the fold over them with the as-written naming says |
| Pipeline.CombinedMatchesArchive | WQDataExtractor.py:125 | (corrected) the intended combined file of an area (inside the "areas" directory of CSVDownloader.py:233) is the file the extraction opens for it, given "areas" as its archive |
| Pipeline.AsWrittenMissesArchive | CSVDownloader.py:261 | the combined file as written is never a file the extraction opens at WQDataExtractor.py:125, for any two areas |
| Pipeline.ExtractReadsCombined | WQDataExtractor.py:118-136 | (corrected) after a completed corrected combine (CSVDownloader.py:238-265), extracting "Label (CODE)" reads exactly the concatenation of CODE's slices |
| Pipeline.AsWrittenArchiveNotFound | WQDataExtractor.py:125-132 | even on a platform that accepted line 261's name, an archive holding only the entries it names gives the extraction a missing file, for any area |
| Pipeline.AsWrittenRunFindsNothing | WQDataExtractor.py:125-132 | as written, a first run leaves "areas" empty (the combine loop of CSVDownloader.py:238-265 writes nothing), so the extraction pointed at it finds no file for any area |

## Left out

- HTTP: `requests.get` is the `Archive.fetch` oracle. There are no retries, timeouts or network behaviour to model.
- CSV parsing and writing: files are tables. Text and numbers are kept apart, and dtype inference is not modelled, including per-chunk dtypes and a date column read as numbers. An unparsable response body is a `None` body.
- A file holding only a header is not modelled: chunked reading of an empty file and pandas' handling of it are left out.
- The index column that `to_csv` adds to the extraction export (WQDataExtractor.py:161) is not modelled. The combined files are written without an index (CSVDownloader.py:265), as `Downloader.Concat` models them.
- Encodings are not modelled, and neither are Unicode digits in `strptime`.
- Case folding beyond ASCII in the Windows glob is not modelled.
- File-name lookup is case-sensitive in the model and case-insensitive on Windows. Files, the archive and layers are keyed by exact name, so:
  - `os.path.isfile` at CSVDownloader.py:162 does not see `2000_a.csv` as the slice `2000_A.csv`, and the model requests it;
  - `read_csv` at WQDataExtractor.py:132 does not open `alldata_ANG.csv` for the area "Label (ang)", and the model gives FileNotFound;
  - the delete and create at CSVtoSHP.py:99-103 keep `ab_c` and `AB_C` as two layers.
- Glob metacharacters inside an area code are not modelled: codes are taken as plain text.
- The order of a directory listing is the order in which entries were created; the host's real order is not modelled.
- Downloader.OutputDir.CreateDirectory: CSVDownloader.py:77-83 catches only FileExistsError, so any other `mkdir` failure (permissions, a missing parent) raises and ends the script. The model's directory creation always succeeds.
- Downloader.IntendedCombineProcess: in the corrected loop, an "areas" path that already exists as a file would make the combined files unwritable; that loop still records them in `areaFiles`.
- Windows also refuses the characters `<>:"/\|?*` and reserved names such as `CON` in a file name. `Downloader.ControlFree` checks only the control characters, the only ones line 261 can introduce.
- UNC and drive-relative paths are not modelled beyond the bare-drive rule of `Strings.Join`.
- Floating point: `result / 2` is real division. IEEE rounding is not modelled.
- The clock: `datetime.now()` is the `currentYear` parameter, and `datetime.date.today()` is part of the output directory name, which is a parameter.
- The `MemoryError` trigger is a boolean parameter; the model has both branches but not when one fires.
- `arcpy`:
  - `GetParameterAsText`, `SearchCursor`, `CreateFeatureclass_management`, `AddField_management`, the `InsertCursor` and `SpatialReference` are not modelled;
  - cursor rows are given as sequences of cells;
  - a layer is a sequence of features;
  - LONG truncation of the easting and northing fields is not modelled.
- `Merge_management` and `ListFeatureClasses` (CSVtoSHP.py:200-205) are not modelled. `Shapes.MergeTarget` gives only the merge target, and the NameError when the loop never ran.
- `os.path.basename(os.path.join(csvDir, filename))` is taken to be the listed name itself.
- `os.chdir` is not modelled: the globs run over the listing of the directory concerned.
- Printing, `arcpy.AddMessage` and the commented-out and triple-quoted code are not modelled.
- WQLocsIdentifier.py is not part of this model. It is a single clip call with no logic of its own.
- File writes are treated as atomic. Concurrent runs are not modelled.
- The catalogue is read already restricted to its label and notation columns. A catalogue without them, which makes pandas raise KeyError, is not modelled.
- Extractor.ReformatDate: accepted years are four ASCII digits from 0001 to 9999, as `%Y` requires.

## Findings

| source | as written | input that shows it | evidently intended | confidence | as-written member | corrected member |
|---|---|---|---|---|---|---|
| CSVDownloader.py:261 | `areas_dir + "\alldata_" + area + ".csv"`: `\a` is the BEL escape and no separator follows `areas_dir`. The name is the output-directory entry `areas` U+0007 `lldata_A.csv`, which Windows refuses, so `to_csv` at line 265 raises OSError at the first area and no combined file is ever written | area `A` with at least one slice file: the script stops at line 265, and `...\areas\alldata_A.csv`, which WQDataExtractor.py:125 opens, does not exist | `os.path.join(areas_dir, "alldata_" + area + ".csv")`, the file WQDataExtractor.py:125 opens | high (not executed) | Downloader.CombineEndsAtFirst; Pipeline.AsWrittenRunFindsNothing | Downloader.IntendedContents; Pipeline.ExtractReadsCombined |
| WQDataExtractor.py:35-49 | `data_filter` computes the filtered frame and returns nothing, so line 136 binds `None` and line 157 raises TypeError whenever no MemoryError occurred | any readable archive file with the needed columns and the MemoryError path not taken | `return df` at the end of `data_filter` | high (not executed) | Extractor.ExtractAsWritten; Extractor.AsWrittenLosesExport | Extractor.Extract; Extractor.ExtractExportsSample |
| CSVtoSHP.py:70 | `.rstrip(".csv")` strips trailing characters from the set {'.', 'c', 's', 'v'}, not the suffix | `abc.csv` and `ab.csv` both give base `ab`: the second file rebuilds layer `ab` and abc.csv's features are lost | remove the extension, i.e. `os.path.splitext(...)[0]` | high (not executed) | Shapes.AsWrittenCollides; Shapes.AsWrittenLosesLayer | Shapes.OutputBase; Shapes.CorrectedKeepsBothLayers |
