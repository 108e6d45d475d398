# Corpus export of EntropyBasedCLDMetrics, modelled in Dafny

`src/create_corpus.py` turns a ChildProject corpus into plain-text files of
the mother's and the target child's utterances, per recording, with the
child's age in months and the recording's stem beside them. There are two
stages.

`get_data` does the following:
- It selects the annotation campaign whose set name starts with a prefix.
- For each distinct annotation file of that campaign, it resolves the
  recording and the child.
- It computes the child's age in months as the day difference floor-divided
  by 30.
- It cleans every utterance and groups the rows by speaker role in a
  `defaultdict(list)`.

`make_folder` then writes one folder per record and view (orthographic,
cleaned, timemarks) under `<output>/<view>/<child name>/<recording stem>`:
- one file per allowed speaker role (`Mother`, `Target_Child`), with one line
  per utterance (`write_utterances`);
- `months.txt` and `filename.txt`.

The project models this core as follows:

- `Calendar`: proleptic Gregorian day numbers as Python's `datetime` uses
  them, and the age in months.
- `Decimal`: `str(int)` and a parser that reads it back.
- `Text`: Python's `str.split(sep)`, with `join`.
- `Seqs`: filtering, and `unique()` (distinct values in order of first
  appearance).
- `Grouping`: the row loop of `get_data`. It is an imperative method over a
  `map` and is proved equal to a functional description. Lemmas state order
  preservation, the partition of the rows and non-empty groups.
- `Extraction`: the table join and the generator. The tables are sequences
  of rows, the annotation files are a function from path to rows, and a
  failed lookup is a `LookupError` value.
- `Export`: `write_utterances` and `make_folder`. The output tree is a
  `map<string, string>` from file path to content, and writing a file in
  mode `"w"` is a map update. The methods are proved equal to functions.
  Lemmas then state:
  - which files a record writes and what they contain;
  - that exporting is an overlay and is idempotent;
  - that records with different stems never touch each other's files.

Two behaviours of the code are easy to miss:
- Output folders are keyed by the last `/`-component of the corpus path
  (src/create_corpus.py:61, 65-69). The child identifier of the recording is
  used only to find the birth date.
- When several set names start with the prefix, the first one in the
  annotation index is used for every path (src/create_corpus.py:25). No error
  is raised, and the files of the other matching sets are read from the
  first set's folder.

## Model

| member | source | states |
|---|---|---|
| Calendar.AgeInMonths | src/create_corpus.py:41 | the age satisfies `age*30 <= days < age*30 + 30`: floor division, also for negative day counts |
| Calendar.AgeInMonthsUnique | src/create_corpus.py:41 | that bound determines the age: any month count satisfying it is the computed one |
| Calendar.AgeAt | src/create_corpus.py:39-41 | the age is the floor of (recording ordinal - birth ordinal) / 30 in the sense of the bound above |
| Calendar.NextDayOrdinal | src/create_corpus.py:41 | consecutive calendar days have consecutive day numbers, so the ordinal difference counts days as `datetime` subtraction does |
| Calendar.AgeExample | src/create_corpus.py:41 | born 2020-01-01 and recorded 2020-04-05 is 95 days, age 3 |
| Calendar.AgeBeforeBirth | src/create_corpus.py:41 | a recording one day before the birth date gives age -1, not 0 |
| Decimal.NatToString | src/create_corpus.py:89 | the decimal text of a natural number is non-empty, all digits, longer than one digit exactly from 10 on, and has no leading zero |
| Decimal.IntToString | src/create_corpus.py:89 | `str(i)` is non-empty and starts with `-` exactly when `i` is negative |
| Decimal.IntToStringRoundTrip | src/create_corpus.py:89 | the text `str(age)` is well-formed integer text and parses back to the age |
| Decimal.IntToStringCanonical | src/create_corpus.py:89 | `str(i)` is canonical integer text: no leading zero, and no `-0` |
| Decimal.CanonicalNatText | src/create_corpus.py:89 | digit text without a leading zero is the printed form of the number it reads as |
| Decimal.CanonicalTextIsPrinted | src/create_corpus.py:89 | every canonical integer text is `str` of the integer it reads as, so printing is a bijection onto canonical texts |
| Decimal.IntTextHasOnly | src/create_corpus.py:75 | a printed integer contains no character other than digits and `-`, in particular no tab or newline |
| Text.Split | src/create_corpus.py:43 | `split(sep)` gives at least one piece and no piece contains `sep` |
| Text.SplitHead | src/create_corpus.py:43 | piece 0 of `split(sep)` is a prefix without `sep`, followed by `sep` when shorter than the string, and the whole string when `sep` does not occur |
| Text.SplitLast | src/create_corpus.py:61 | the last piece of `split(sep)` is a suffix preceded by `sep` when shorter than the string, and the whole string when `sep` does not occur |
| Text.JoinSplit | src/create_corpus.py:43 | joining the pieces of `split(sep)` with `sep` gives back the string |
| Text.SplitJoin | src/create_corpus.py:43 | splitting the join of `sep`-free pieces gives back the pieces |
| Seqs.Distinct | src/create_corpus.py:27 | `unique()`: no repetitions, every input value appears, nothing else does |
| Seqs.Filter | src/create_corpus.py:24 | a boolean-mask selection is no longer than the input and keeps only input rows satisfying the mask |
| Seqs.FilterComplete | src/create_corpus.py:24 | every input row satisfying the mask is in the selection |
| Seqs.FilterFilter | src/create_corpus.py:24-37 | selecting by one mask and then by another is selecting by both at once |
| Seqs.FilterEmpty | src/create_corpus.py:24 | a boolean-mask selection is empty exactly when no row satisfies the mask |
| Seqs.FilterHeadIsFirst | src/create_corpus.py:37 | `.values[0]` of a selection is the first row satisfying the mask |
| Seqs.DistinctOrder | src/create_corpus.py:27 | `unique()` lists values in the order of their first occurrence: an earlier value first occurs earlier |
| Grouping.GroupUtterances | src/create_corpus.py:43-47 | the loop leaves the dictionary equal to `Grouped(rows)` (each role present, with its rows in file order, cleaned) and its key order equal to roles by first appearance |
| Grouping.GroupedSnoc | src/create_corpus.py:47 | one `append` extends exactly the row's own role list, creating it empty on first access |
| Grouping.GroupedKey | src/create_corpus.py:47 | a role is a dictionary key exactly when it is in the key order |
| Grouping.RowLandsInItsGroup | src/create_corpus.py:44-47 | row i is stored, cleaned, in its own role's list, right after the earlier rows of that role |
| Grouping.GroupEntryHasItsRole | src/create_corpus.py:47 | every entry of a role's list is the cleaned form of some row with that role |
| Grouping.GroupKeepsFileOrder | src/create_corpus.py:44-47 | two rows of the same role keep their file order inside the role's list |
| Grouping.GroupsPartitionRows | src/create_corpus.py:43-47 | summed over the keys, the list lengths equal the number of rows: nothing dropped, merged or duplicated |
| Grouping.GroupsNonEmpty | src/create_corpus.py:43-47 | every list in the dictionary is non-empty, so the four-way unpacking of its columns succeeds |
| Extraction.StemIsPrefixBeforeFirstDot | src/create_corpus.py:43 | the stored filename is the prefix before the first `.`, contains no `.`, and is the whole name when there is none |
| Extraction.SelectCampaignSpec | src/create_corpus.py:24-27 | selection fails exactly when no set name starts with the prefix; otherwise it keeps exactly the rows whose set name starts with the prefix and lists exactly their annotation files, without repetition |
| Extraction.CampaignSetIsFirstMatch | src/create_corpus.py:25 | the set used for all paths is that of the first matching annotation row |
| Extraction.RowsForListedFile | src/create_corpus.py:37 | every listed annotation file has an annotation row, so its recording lookup never indexes an empty selection |
| Extraction.RecordingOfIsFirst | src/create_corpus.py:37 | a file's recording filename is that of the first index row whose set starts with the prefix and whose annotation file is that file, and that file is listed |
| Extraction.FindRecordingFails | src/create_corpus.py:38 | the recording lookup fails exactly when no recording row has the filename |
| Extraction.FindRecordingIsFirst | src/create_corpus.py:38 | the recording lookup returns the first row with the filename |
| Extraction.FindChildFails | src/create_corpus.py:40 | the child lookup fails exactly when no child row has the identifier |
| Extraction.FindChildIsFirst | src/create_corpus.py:40 | the child lookup returns the first row with the identifier |
| Extraction.Resolve | src/create_corpus.py:38-40 | a successful resolution carries two dates `strptime` accepts |
| Extraction.ResolveSpec | src/create_corpus.py:38-40 | a success pairs a recording row for the filename with a child row for its child; it fails with `NoRecording` exactly when no recording row matches |
| Extraction.ResolveByRecording | src/create_corpus.py:38-40 | with the first recording row for the filename: an invalid recording date fails with that date; a valid date and no child row for its child fails with `NoChild` |
| Extraction.ResolveByChild | src/create_corpus.py:38-40 | with the first recording row, its date valid, and the first child row for its child: the pair is the result when the birth date is valid, otherwise the run fails with that birth date |
| Extraction.ReadRecordWellFormed | src/create_corpus.py:31-47 | a built record has non-empty groups, keys matching its key order without repetition, and a dot-free stem |
| Extraction.CollectYields | src/create_corpus.py:29-48 | the k-th yielded record is the k-th file's record; the run stops early exactly when a file fails, with that file's failure |
| Extraction.CollectStopsAtFirstFailure | src/create_corpus.py:29-48 | when file i is the first to fail, exactly i records are yielded and the run stops with file i's failure |
| Extraction.ExtractedRecordsWellFormed | src/create_corpus.py:15-48 | every record `get_data` yields is well-formed in the sense above |
| Extraction.BuildRecord | src/create_corpus.py:31-47 | the lookups, age and row loop for one file give the record `ReadRecord` describes, or its lookup failure |
| Extraction.GetData | src/create_corpus.py:15-48 | the generator yields exactly `Extract(...)`: the records before the first failure, and that failure |
| Export.ChildNameIsLastComponent | src/create_corpus.py:61 | the child name is the suffix after the last `/`, contains no `/`, and is the whole path when there is none |
| Export.TrailingSlashGivesEmptyChildName | src/create_corpus.py:61 | a corpus path ending in `/` gives an empty child name |
| Export.WriteUtterances | src/create_corpus.py:50-54 | the file at the path holds the concatenation of `item + "\n"` over the items, and nothing else in the tree changes |
| Export.LinesSnoc | src/create_corpus.py:53-54 | writing one more item appends that item and a newline |
| Export.LinesSplit | src/create_corpus.py:50-54 | splitting the written text at newlines gives back the items and a final empty piece: one line per item |
| Export.TimemarkSplits | src/create_corpus.py:75 | a timemark line splits at its tab into the printed onset and offset and holds no newline |
| Export.ViewsAligned | src/create_corpus.py:72-78 | orthographic, cleaned and timemark lines of a role all have the group's length; line k is tuple k's raw text, cleaned text, and `onset\toffset` |
| Export.ExportRecording | src/create_corpus.py:64-101 | the role loop and sidecar writes of one record produce `ExportRecordingTree`; the length assertion holds |
| Export.WriteSidecars | src/create_corpus.py:88-101 | the six sidecar writes, in order, on any tree |
| Export.ViewOfPath | src/create_corpus.py:64-69 | the view folder is determined by the path |
| Export.SameFolderPaths | src/create_corpus.py:64-82 | in one record's folders, distinct views or file names give distinct paths |
| Export.PathDeterminesStem | src/create_corpus.py:64-82 | for `/`-free file names, the path determines view, stem and file name |
| Export.RoleLeafInjective | src/create_corpus.py:80-82 | different roles get different file names in a view |
| Export.RoleFileDistinct | src/create_corpus.py:80-82 | two role files of one record coincide only for the same view and the same role |
| Export.RoleLeafNotSidecar | src/create_corpus.py:80-100 | a role file never has the name `months.txt` or `filename.txt` |
| Export.SidecarsWritten | src/create_corpus.py:88-101 | each view folder gets `str(age)` in `months.txt` and the stem in `filename.txt` |
| Export.ExportIsOverlay | src/create_corpus.py:64-101 | exporting a record overlays a fixed set of files on the tree and every other path keeps its content |
| Export.RolesDomain | src/create_corpus.py:72-86 | the role loop writes only the three view files of allowed roles it visits |
| Export.RecordFilesDomain | src/create_corpus.py:64-101 | the files one record writes are among its six sidecars and the view files of its allowed roles, and for a well-formed record are exactly those |
| Export.ExportIdempotent | src/create_corpus.py:64-101 | exporting the same record twice gives the same tree as once |
| Export.ExportedRoleFile | src/create_corpus.py:72-86 | a role's file in a view holds its lines exactly when the role is present and allowed; disallowed roles get no file |
| Export.ExportedSidecars | src/create_corpus.py:88-101 | the record's own files hold the printed age, which is canonical integer text reading back as the age, and the stem |
| Export.OtherStemUntouched | src/create_corpus.py:64-101 | a record writes no file with a `/`-free name directly in the view folders of another stem |
| Export.ExportAllSnoc | src/create_corpus.py:63-101 | exporting one more record lays its files over the tree exported so far, for any stems: where paths coincide the later record's content wins, and every other path keeps the earlier content |
| Export.ExportAllUntouched | src/create_corpus.py:63-101 | files with `/`-free names directly in the view folders of a stem no record has keep their previous content |
| Export.ExportAllKeepsRecordFiles | src/create_corpus.py:63-101 | with distinct stems, after all records each record's files hold its own content |
| Export.ExportRecords | src/create_corpus.py:63-101 | the loop over records produces `ExportAll` |
| Export.MakeFolder | src/create_corpus.py:55-101 | every yielded record is exportable; the tree is the export of `get_data`'s records under the child name; the failure is `get_data`'s |

The functions that compute the program's behaviour are specified by the rows
above:
- `Extraction.Stem`: Extraction.StemIsPrefixBeforeFirstDot.
- `Export.ChildName`: Export.ChildNameIsLastComponent, Export.TrailingSlashGivesEmptyChildName.
- `Export.Lines`: Export.WriteUtterances, Export.LinesSnoc, Export.LinesSplit.
- `Export.Unzip`, `Export.Timemark`, `Export.TimemarkLines`, `Export.ViewLines`: Export.ViewsAligned, Export.TimemarkSplits.
- `Extraction.SelectCampaign`: Extraction.SelectCampaignSpec, Extraction.CampaignSetIsFirstMatch.
- `Extraction.RecordingOf`: Extraction.RecordingOfIsFirst, Extraction.RowsForListedFile.
- `Extraction.AnnotationPath`: Extraction.CampaignSetIsFirstMatch (the set name in the path), Extraction.BuildRecord.
- `Seqs.Distinct` (`unique()`): Seqs.Distinct, Seqs.DistinctOrder.
- `Extraction.FindRecording`: Extraction.FindRecordingFails, Extraction.FindRecordingIsFirst.
- `Extraction.FindChild`: Extraction.FindChildFails, Extraction.FindChildIsFirst.
- `Extraction.Resolve`: Extraction.ResolveSpec, Extraction.ResolveByRecording, Extraction.ResolveByChild.
- `Extraction.ReadRecord`: Extraction.BuildRecord, Extraction.ReadRecordWellFormed.
- `Extraction.ReadAll`, `Extraction.Collect`, `Extraction.Extract`: Extraction.CollectYields, Extraction.CollectStopsAtFirstFailure, Extraction.ExtractedRecordsWellFormed, Extraction.GetData.
- `Export.ExportRoles`: Export.RolesDomain, Export.ExportRecording.
- `Export.ViewFolder`, `Export.FileIn`, `Export.RoleFile`: Export.ViewOfPath, Export.SameFolderPaths, Export.PathDeterminesStem, Export.RoleFileDistinct.
- `Export.ExportSidecars`: Export.WriteSidecars, Export.SidecarsWritten.
- `Export.ExportRecordingTree`, `Export.RecordFiles`: Export.ExportRecording, Export.ExportIsOverlay, Export.RecordFilesDomain, Export.ExportIdempotent, Export.ExportedRoleFile, Export.ExportedSidecars, Export.OtherStemUntouched.
- `Export.ExportAll`: Export.ExportRecords, Export.ExportAllUntouched, Export.ExportAllKeepsRecordFiles, Export.MakeFolder.
- `Grouping.Grouped`: Grouping.GroupUtterances, Grouping.GroupedSnoc, Grouping.GroupedKey, Grouping.RowLandsInItsGroup, Grouping.GroupEntryHasItsRole, Grouping.GroupKeepsFileOrder, Grouping.GroupsPartitionRows, Grouping.GroupsNonEmpty.
- `Calendar.Ordinal`: Calendar.NextDayOrdinal, Calendar.AgeAt.

## Left out

- Reading `children.csv`, `recordings.csv` and the annotation index through pandas, `ChildProject` and `AnnotationManager` is foreign table access. These become the `Tables` sequences.
- Reading each converted annotation CSV is foreign I/O. It becomes a `store` function from path to rows, so a missing file or a read error is not modelled.
- The two cleaning passes (`pylangacq.chat._clean_utterance`, then `UtterancesCleaner.clean` with its external marker rules) are foreign calls. They become one uninterpreted total function `normalize`.
- The text parsing done by `datetime.strptime` is a library parser. Dates are taken as year, month and day. The range check is modelled, and a date it rejects is the `MalformedDate` failure.
- `os.makedirs`, `print` and `tqdm` are left out. Directories are not modelled, only the files and their contents.
- Argument parsing and the script entry point are left out. The program that correlates entropies is not part of this model: it is floating-point statistics over files.
- Onsets and offsets are integers. A column that pandas reads as floats (for example one with missing values) would print as `1200.0`; this is not modelled.
- The generator is modelled as the list of records it yields before the first exception, plus that exception. Lookups are pure, so the files written before the failure are the same.
- Grouping.GroupUtterances: the order of roles is the insertion order of the dictionary, modelled as order of first appearance.
- Export.LinesSplit: holds only for items without a newline. An utterance containing a newline would give extra lines, and the model makes no claim about that case.
- Export.ExportAllKeepsRecordFiles: assumes the records have distinct stems. Stems coincide most often when several annotation files belong to one recording: all of them carry its recording filename and so its stem. Then the later file's role files and sidecars overwrite the earlier file's, and a role present only in the earlier file keeps the earlier content. Export.ExportAllSnoc states this later-wins rule for any stems; this lemma covers only the distinct-stem case.
- Export.OtherStemUntouched, Export.ExportAllUntouched: assume the file name contains no `/` and speak only of files directly in a stem's view folders. A recording filename in a subfolder gives a stem containing `/` (`a/b.wav` gives `a/b`), whose folder nests inside the folder of stem `a`; such a record writes under `a`'s folder although no record has stem `a`, so files deeper in a stem's folder are not covered.
- Paths are compared as strings. On a real file system, a stem ending in `/` or containing `..`, doubled `/` separators, or stems that differ only in letter case on a case-insensitive file system can name the same folder through different strings. The model treats these as different paths, so its claims that records do not touch each other's files hold only where the file system distinguishes the strings.
