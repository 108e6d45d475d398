/**
  The table join of `get_data`: select the annotation campaign by set-name
  prefix, then, for each annotation file, find its recording and child,
  compute the age in months, read the file's rows and group them by speaker
  role. `get_data` is a generator; the model returns the records it yields
  before the first failed lookup, together with that failure.
 */
module Extraction {
  import opened Wrappers
  import opened Seqs
  import opened Text
  import opened Calendar
  import opened Grouping

  /** A row of `metadata/children.csv`. */
  datatype Child = Child(childId: string, dob: Date)

  /** A row of `metadata/recordings.csv`. */
  datatype Recording = Recording(recordingFilename: string, childId: string, date: Date)

  /** A row of the annotation index. */
  datatype Annotation = Annotation(annotationFilename: string, recordingFilename: string, setName: string)

  datatype Tables = Tables(children: seq<Child>, recordings: seq<Recording>, annotations: seq<Annotation>)

  /** The exceptions a run stops on. */
  datatype LookupError =
    | NoAnnotationSet(prefix: string)
    | NoRecording(recordingFilename: string)
    | NoChild(childId: string)
    | MalformedDate(date: Date)

  /** The campaign's annotation rows, its first set name and its distinct annotation files. */
  datatype Selection = Selection(setName: string, annotations: seq<Annotation>, files: seq<string>)

  /** What is yielded per annotation file. */
  datatype RecordingData = RecordingData(
    age: int,
    groups: map<string, seq<Entry>>,
    order: seq<string>,
    filename: string)

  /** The recording filename cut at its first `.`. */
  function Stem(recordingFilename: string): string {
    Split(recordingFilename, '.')[0]
  }

  /** The stem is the prefix before the first `.`, and the whole name when there is none. */
  lemma StemIsPrefixBeforeFirstDot(name: string)
    ensures Stem(name) <= name && '.' !in Stem(name)
    ensures |Stem(name)| < |name| ==> name[|Stem(name)|] == '.'
    ensures '.' !in name ==> Stem(name) == name
  {
    SplitHead(name, '.');
  }

  function AnnotationFilenames(annotations: seq<Annotation>): seq<string> {
    seq(|annotations|, k requires 0 <= k < |annotations| => annotations[k].annotationFilename)
  }

  function SelectCampaign(annotations: seq<Annotation>, prefix: string): Result<Selection, LookupError> {
    var selected := Filter(annotations, (a: Annotation) => prefix <= a.setName);
    if selected == [] then Err(NoAnnotationSet(prefix))
    else Ok(Selection(selected[0].setName, selected, Distinct(AnnotationFilenames(selected))))
  }

  /**
    Selection fails exactly when no set name starts with the prefix; otherwise
    it keeps the matching rows, and its files are their annotation files
    without repetition.
   */
  lemma {:induction false} SelectCampaignSpec(annotations: seq<Annotation>, prefix: string)
    ensures SelectCampaign(annotations, prefix).Err?
      <==> forall i :: 0 <= i < |annotations| ==> !(prefix <= annotations[i].setName)
    ensures SelectCampaign(annotations, prefix).Ok? ==>
      var sel := SelectCampaign(annotations, prefix).value;
      && (forall k :: 0 <= k < |sel.annotations| ==> sel.annotations[k] in annotations && prefix <= sel.annotations[k].setName)
      && NoDuplicates(sel.files)
      && (forall k :: 0 <= k < |sel.annotations| ==> sel.annotations[k].annotationFilename in sel.files)
      && (forall k :: 0 <= k < |sel.files| ==> sel.files[k] in AnnotationFilenames(sel.annotations))
      && (forall i :: 0 <= i < |annotations| && prefix <= annotations[i].setName ==>
            annotations[i] in sel.annotations && annotations[i].annotationFilename in sel.files)
  {
    FilterEmpty(annotations, (a: Annotation) => prefix <= a.setName);
    var selected := Filter(annotations, (a: Annotation) => prefix <= a.setName);
    forall k | 0 <= k < |selected| ensures selected[k].annotationFilename in Distinct(AnnotationFilenames(selected)) {
      assert AnnotationFilenames(selected)[k] == selected[k].annotationFilename;
    }
    forall i | 0 <= i < |annotations| && prefix <= annotations[i].setName
      ensures annotations[i] in selected
    {
      FilterComplete(annotations, (a: Annotation) => prefix <= a.setName, i);
    }
  }

  /**
    The set name used for every file of the campaign is the set of the first
    annotation row whose set starts with the prefix, even when several sets
    match.
   */
  lemma CampaignSetIsFirstMatch(annotations: seq<Annotation>, prefix: string, i: nat)
    requires i < |annotations| && prefix <= annotations[i].setName
    requires forall j :: 0 <= j < i ==> !(prefix <= annotations[j].setName)
    ensures SelectCampaign(annotations, prefix).Ok?
    ensures SelectCampaign(annotations, prefix).value.setName == annotations[i].setName
  {
    FilterHeadIsFirst(annotations, (a: Annotation) => prefix <= a.setName, i);
  }

  /** Where the rows of an annotation file are read from. */
  function AnnotationPath(corpus: string, setName: string, file: string): string {
    corpus + "/annotations/" + setName + "/converted/" + file
  }

  /** The annotation rows for `file`, in table order. */
  function RowsFor(annotations: seq<Annotation>, file: string): seq<Annotation> {
    Filter(annotations, (a: Annotation) => a.annotationFilename == file)
  }

  lemma RowsForListedFile(annotations: seq<Annotation>, file: string)
    requires file in AnnotationFilenames(annotations)
    ensures RowsFor(annotations, file) != []
  {
    var i :| 0 <= i < |annotations| && AnnotationFilenames(annotations)[i] == file;
    FilterEmpty(annotations, (a: Annotation) => a.annotationFilename == file);
  }

  /** The recording filename of the first selected annotation row for `file`. */
  function RecordingOf(annotations: seq<Annotation>, file: string): string
    requires file in AnnotationFilenames(annotations)
  {
    RowsForListedFile(annotations, file);
    RowsFor(annotations, file)[0].recordingFilename
  }

  /**
    The recording filename used for a file comes from the first row of the
    whole annotation index whose set starts with the prefix and whose
    annotation file is that file, even when several such rows disagree.
   */
  lemma RecordingOfIsFirst(annotations: seq<Annotation>, prefix: string, file: string, i: nat)
    requires i < |annotations| && prefix <= annotations[i].setName && annotations[i].annotationFilename == file
    requires forall j :: 0 <= j < i ==> !(prefix <= annotations[j].setName && annotations[j].annotationFilename == file)
    ensures SelectCampaign(annotations, prefix).Ok?
    ensures file in SelectCampaign(annotations, prefix).value.files
    ensures file in AnnotationFilenames(SelectCampaign(annotations, prefix).value.annotations)
    ensures RecordingOf(SelectCampaign(annotations, prefix).value.annotations, file) == annotations[i].recordingFilename
  {
    SelectCampaignSpec(annotations, prefix);
    var selected := SelectCampaign(annotations, prefix).value.annotations;
    var k :| 0 <= k < |selected| && selected[k] == annotations[i];
    assert AnnotationFilenames(selected)[k] == file;
    var both := (a: Annotation) => prefix <= a.setName && a.annotationFilename == file;
    FilterFilter(annotations, (a: Annotation) => prefix <= a.setName, (a: Annotation) => a.annotationFilename == file, both);
    FilterHeadIsFirst(annotations, both, i);
  }

  function FindRecording(recordings: seq<Recording>, name: string): Option<Recording> {
    var found := Filter(recordings, (r: Recording) => r.recordingFilename == name);
    if found == [] then None else Some(found[0])
  }

  function FindChild(children: seq<Child>, childId: string): Option<Child> {
    var found := Filter(children, (c: Child) => c.childId == childId);
    if found == [] then None else Some(found[0])
  }

  /** A lookup fails only when no row has the key. */
  lemma FindRecordingFails(recordings: seq<Recording>, name: string)
    ensures FindRecording(recordings, name).None?
      <==> forall i :: 0 <= i < |recordings| ==> recordings[i].recordingFilename != name
  {
    FilterEmpty(recordings, (r: Recording) => r.recordingFilename == name);
  }

  /** A lookup finds the first row with the key. */
  lemma FindRecordingIsFirst(recordings: seq<Recording>, name: string, i: nat)
    requires i < |recordings| && recordings[i].recordingFilename == name
    requires forall j :: 0 <= j < i ==> recordings[j].recordingFilename != name
    ensures FindRecording(recordings, name) == Some(recordings[i])
  {
    FilterHeadIsFirst(recordings, (r: Recording) => r.recordingFilename == name, i);
  }

  lemma FindChildFails(children: seq<Child>, childId: string)
    ensures FindChild(children, childId).None?
      <==> forall i :: 0 <= i < |children| ==> children[i].childId != childId
  {
    FilterEmpty(children, (c: Child) => c.childId == childId);
  }

  lemma FindChildIsFirst(children: seq<Child>, childId: string, i: nat)
    requires i < |children| && children[i].childId == childId
    requires forall j :: 0 <= j < i ==> children[j].childId != childId
    ensures FindChild(children, childId) == Some(children[i])
  {
    FilterHeadIsFirst(children, (c: Child) => c.childId == childId, i);
  }

  /** The shape every yielded record has. */
  ghost predicate WellFormed(data: RecordingData) {
    && NoDuplicates(data.order)
    && (forall role :: role in data.groups <==> role in data.order)
    && (forall role :: role in data.groups ==> |data.groups[role]| > 0)
    && '.' !in data.filename
  }

  /**
    The recording row behind a recording filename and the row of its child,
    looked up in that order, each date checked right after its row is found.
   */
  function Resolve(tables: Tables, recordingFilename: string): (r: Result<(Recording, Child), LookupError>)
    ensures r.Ok? ==> ValidDate(r.value.0.date) && ValidDate(r.value.1.dob)
  {
    match FindRecording(tables.recordings, recordingFilename)
    case None => Err(NoRecording(recordingFilename))
    case Some(recording) =>
      if !ValidDate(recording.date) then Err(MalformedDate(recording.date))
      else match FindChild(tables.children, recording.childId)
      case None => Err(NoChild(recording.childId))
      case Some(child) =>
        if !ValidDate(child.dob) then Err(MalformedDate(child.dob))
        else Ok((recording, child))
  }

  /**
    A successful resolution pairs a recording row for the filename with a
    child row for that recording's child, both with valid dates; a failed one
    names the first missing key or bad date.
   */
  lemma ResolveSpec(tables: Tables, recordingFilename: string)
    ensures var r := Resolve(tables, recordingFilename);
      r.Ok? ==>
        && r.value.0 in tables.recordings && r.value.0.recordingFilename == recordingFilename
        && r.value.1 in tables.children && r.value.1.childId == r.value.0.childId
    ensures Resolve(tables, recordingFilename) == Err(NoRecording(recordingFilename))
      <==> forall i :: 0 <= i < |tables.recordings| ==> tables.recordings[i].recordingFilename != recordingFilename
  {
    FindRecordingFails(tables.recordings, recordingFilename);
  }

  /**
    With `i` the first recording row for the filename: a date `strptime`
    refuses stops the run with that date; a valid date and no child row for
    the recording's child stops it with `NoChild`.
   */
  lemma ResolveByRecording(tables: Tables, recordingFilename: string, i: nat)
    requires i < |tables.recordings| && tables.recordings[i].recordingFilename == recordingFilename
    requires forall j :: 0 <= j < i ==> tables.recordings[j].recordingFilename != recordingFilename
    ensures !ValidDate(tables.recordings[i].date) ==>
      Resolve(tables, recordingFilename) == Err(MalformedDate(tables.recordings[i].date))
    ensures ValidDate(tables.recordings[i].date)
      && (forall j :: 0 <= j < |tables.children| ==> tables.children[j].childId != tables.recordings[i].childId)
      ==> Resolve(tables, recordingFilename) == Err(NoChild(tables.recordings[i].childId))
  {
    FindRecordingIsFirst(tables.recordings, recordingFilename, i);
    FindChildFails(tables.children, tables.recordings[i].childId);
  }

  /**
    With `i` the first recording row for the filename, its date valid, and `j`
    the first child row for its child: the pair resolves when the birth date is
    valid, and otherwise the run stops with that birth date.
   */
  lemma ResolveByChild(tables: Tables, recordingFilename: string, i: nat, j: nat)
    requires i < |tables.recordings| && tables.recordings[i].recordingFilename == recordingFilename
    requires forall k :: 0 <= k < i ==> tables.recordings[k].recordingFilename != recordingFilename
    requires ValidDate(tables.recordings[i].date)
    requires j < |tables.children| && tables.children[j].childId == tables.recordings[i].childId
    requires forall k :: 0 <= k < j ==> tables.children[k].childId != tables.recordings[i].childId
    ensures Resolve(tables, recordingFilename)
      == if ValidDate(tables.children[j].dob) then Ok((tables.recordings[i], tables.children[j]))
         else Err(MalformedDate(tables.children[j].dob))
  {
    FindRecordingIsFirst(tables.recordings, recordingFilename, i);
    FindChildIsFirst(tables.children, tables.recordings[i].childId, j);
  }

  /** The record built for one annotation file, or the lookup that fails for it. */
  function ReadRecord(
    corpus: string, sel: Selection, tables: Tables, store: string -> seq<Row>,
    normalize: string -> string, file: string): Result<RecordingData, LookupError>
    requires file in AnnotationFilenames(sel.annotations)
  {
    var rows := store(AnnotationPath(corpus, sel.setName, file));
    var recordingFilename := RecordingOf(sel.annotations, file);
    match Resolve(tables, recordingFilename)
    case Err(e) => Err(e)
    case Ok((recording, child)) =>
      Ok(RecordingData(
        AgeAt(child.dob, recording.date),
        Grouped(rows, normalize),
        KeyOrder(rows),
        Stem(recordingFilename)))
  }

  /**
    A record that is built has non-empty groups, keys matching its key order
    and a dot-free stem.
   */
  lemma ReadRecordWellFormed(
    corpus: string, sel: Selection, tables: Tables, store: string -> seq<Row>,
    normalize: string -> string, file: string)
    requires file in AnnotationFilenames(sel.annotations)
    ensures var r := ReadRecord(corpus, sel, tables, store, normalize, file);
      r.Ok? ==> WellFormed(r.value)
  {
    var rows := store(AnnotationPath(corpus, sel.setName, file));
    GroupsNonEmpty(rows, normalize);
    StemIsPrefixBeforeFirstDot(RecordingOf(sel.annotations, file));
    forall role ensures role in Grouped(rows, normalize) <==> role in KeyOrder(rows) {
      GroupedKey(rows, normalize, role);
    }
  }

  /** The lookup outcome of each annotation file, in order. */
  function ReadAll(
    corpus: string, sel: Selection, tables: Tables, store: string -> seq<Row>,
    normalize: string -> string, files: seq<string>): (results: seq<Result<RecordingData, LookupError>>)
    requires forall k :: 0 <= k < |files| ==> files[k] in AnnotationFilenames(sel.annotations)
    ensures |results| == |files|
  {
    seq(|files|, k requires 0 <= k < |files| => ReadRecord(corpus, sel, tables, store, normalize, files[k]))
  }

  /**
    What a generator over `results` yields before it stops: the successful
    records up to the first failure, and that failure.
   */
  function Collect(results: seq<Result<RecordingData, LookupError>>): (seq<RecordingData>, Option<LookupError>) {
    if results == [] then ([], None)
    else match results[0]
      case Err(e) => ([], Some(e))
      case Ok(data) =>
        var rest := Collect(results[1..]);
        ([data] + rest.0, rest.1)
  }

  /** Everything `get_data` yields for a corpus and campaign prefix, and how it stops. */
  function Extract(
    corpus: string, prefix: string, tables: Tables, store: string -> seq<Row>,
    normalize: string -> string): (seq<RecordingData>, Option<LookupError>)
  {
    match SelectCampaign(tables.annotations, prefix)
    case Err(e) => ([], Some(e))
    case Ok(sel) => Collect(ReadAll(corpus, sel, tables, store, normalize, sel.files))
  }

  /**
    The k-th record yielded is the k-th result; the run ends early exactly
    when some result is a failure, and then with the first one.
   */
  lemma {:induction false} CollectYields(results: seq<Result<RecordingData, LookupError>>)
    ensures var (out, failure) := Collect(results);
      && |out| <= |results|
      && (forall k :: 0 <= k < |out| ==> results[k] == Ok(out[k]))
      && (failure.None? <==> |out| == |results|)
      && (failure.Some? ==> results[|out|] == Err(failure.value))
  {
    if results != [] {
      CollectYields(results[1..]);
      var rest := Collect(results[1..]);
      if results[0].Ok? {
        var out := [results[0].value] + rest.0;
        forall k | 1 <= k < |out| ensures results[k] == Ok(out[k]) {
          assert results[k] == results[1..][k - 1] && out[k] == rest.0[k - 1];
        }
        if rest.1.Some? {
          assert results[|out|] == results[1..][|rest.0|];
        }
      }
    }
  }

  /** Nothing after the first failure is yielded: the yield stops at the first failing result. */
  lemma {:induction false} CollectStopsAtFirstFailure(results: seq<Result<RecordingData, LookupError>>, i: nat)
    requires i < |results| && results[i].Err?
    requires forall j :: 0 <= j < i ==> results[j].Ok?
    ensures |Collect(results).0| == i
    ensures Collect(results).1 == Some(results[i].error)
  {
    CollectYields(results);
  }

  /** Every record `get_data` yields has non-empty groups, matching key order and a dot-free stem. */
  lemma ExtractedRecordsWellFormed(
    corpus: string, prefix: string, tables: Tables, store: string -> seq<Row>,
    normalize: string -> string)
    ensures forall k :: 0 <= k < |Extract(corpus, prefix, tables, store, normalize).0| ==>
      WellFormed(Extract(corpus, prefix, tables, store, normalize).0[k])
  {
    var selection := SelectCampaign(tables.annotations, prefix);
    if selection.Ok? {
      var sel := selection.value;
      var results := ReadAll(corpus, sel, tables, store, normalize, sel.files);
      var out := Collect(results).0;
      CollectYields(results);
      forall k | 0 <= k < |out| ensures WellFormed(out[k]) {
        ReadRecordWellFormed(corpus, sel, tables, store, normalize, sel.files[k]);
      }
    }
  }

  lemma CollectStep(results: seq<Result<RecordingData, LookupError>>, i: nat)
    requires i < |results|
    ensures Collect(results[i..])
      == if results[i].Err? then ([], Some(results[i].error))
         else ([results[i].value] + Collect(results[i + 1..]).0, Collect(results[i + 1..]).1)
  {
    assert results[i..][0] == results[i] && results[i..][1..] == results[i + 1..];
  }

  /** The lookups and the row loop for one annotation file. */
  method BuildRecord(
    corpus: string, sel: Selection, tables: Tables, store: string -> seq<Row>,
    normalize: string -> string, file: string)
    returns (record: Result<RecordingData, LookupError>)
    requires file in AnnotationFilenames(sel.annotations)
    ensures record == ReadRecord(corpus, sel, tables, store, normalize, file)
  {
    var rows := store(AnnotationPath(corpus, sel.setName, file));
    var recordingFilename := RecordingOf(sel.annotations, file);
    var resolved := Resolve(tables, recordingFilename);
    if resolved.Err? {
      return Err(resolved.error);
    }
    var recordingDate, dob := resolved.value.0.date, resolved.value.1.dob;
    var age := AgeInMonths(Ordinal(recordingDate) - Ordinal(dob));
    assert age == AgeAt(dob, recordingDate);
    var groups, order := GroupUtterances(rows, normalize);
    record := Ok(RecordingData(age, groups, order, Stem(recordingFilename)));
  }

  /**
    The generator body: builds each file's record in turn and stops at the
    first lookup that fails.
   */
  method GetData(
    corpus: string, prefix: string, tables: Tables, store: string -> seq<Row>,
    normalize: string -> string)
    returns (out: seq<RecordingData>, failure: Option<LookupError>)
    ensures (out, failure) == Extract(corpus, prefix, tables, store, normalize)
  {
    var selection := SelectCampaign(tables.annotations, prefix);
    if selection.Err? {
      return [], Some(selection.error);
    }
    var sel := selection.value;
    var files := sel.files;
    ghost var results := ReadAll(corpus, sel, tables, store, normalize, files);
    ghost var whole := Collect(results);
    out := [];
    var i := 0;
    assert results[i..] == results;
    while i < |files|
      invariant 0 <= i <= |files|
      invariant whole.0 == out + Collect(results[i..]).0
      invariant whole.1 == Collect(results[i..]).1
    {
      var record := BuildRecord(corpus, sel, tables, store, normalize, files[i]);
      assert record == results[i];
      CollectStep(results, i);
      if record.Err? {
        assert out + [] == out;
        return out, Some(record.error);
      }
      out := out + [record.value];
      i := i + 1;
    }
    assert results[i..] == [] && out + [] == out;
    failure := None;
  }
}
