/**
  `write_utterances` and `make_folder`: for every yielded record, the three
  view folders `<output>/<view>/<child name>/<stem>`, one file per allowed
  speaker role and view, and the `months.txt` and `filename.txt` sidecars in
  each view folder. The output tree is modelled as a map from file path to
  file content; writing a file (mode "w") replaces its content.
 */
module Export {
  import opened Wrappers
  import opened Seqs
  import opened Text
  import opened Decimal
  import opened Grouping
  import opened Extraction

  type FileTree = map<string, string>

  /** Only these speaker roles are exported. */
  const AllowedSpeakers: set<string> := {"Mother", "Target_Child"}

  datatype View = Orthographic | Cleaned | Timemarks

  function ViewName(view: View): string {
    match view
    case Orthographic => "orthographic"
    case Cleaned => "cleaned"
    case Timemarks => "timemarks"
  }

  /** The last `/`-separated component of the corpus path names the child in output paths. */
  function ChildName(corpus: string): string {
    var parts := Split(corpus, '/');
    parts[|parts| - 1]
  }

  /** The child name is the part of the corpus path after its last `/`. */
  lemma ChildNameIsLastComponent(corpus: string)
    ensures '/' !in ChildName(corpus)
    ensures |ChildName(corpus)| <= |corpus| && corpus[|corpus| - |ChildName(corpus)|..] == ChildName(corpus)
    ensures |ChildName(corpus)| < |corpus| ==> corpus[|corpus| - |ChildName(corpus)| - 1] == '/'
    ensures '/' !in corpus ==> ChildName(corpus) == corpus
  {
    SplitLast(corpus, '/');
  }

  /** A corpus path given with a trailing `/` yields an empty child name. */
  lemma TrailingSlashGivesEmptyChildName(corpus: string)
    requires |corpus| > 0 && corpus[|corpus| - 1] == '/'
    ensures ChildName(corpus) == ""
  {
    ChildNameIsLastComponent(corpus);
  }

  function ViewFolder(output: string, view: View, child: string, stem: string): string {
    output + "/" + ViewName(view) + "/" + child + "/" + stem
  }

  function FileIn(folder: string, leaf: string): string {
    folder + "/" + leaf
  }

  function RoleLeaf(role: string, view: View): string {
    role + "." + ViewName(view)
  }

  const MonthsLeaf: string := "months.txt"
  const FilenameLeaf: string := "filename.txt"

  function RoleFile(output: string, view: View, child: string, stem: string, role: string): string {
    FileIn(ViewFolder(output, view, child, stem), RoleLeaf(role, view))
  }

  // ---- file contents ----

  /** The text `write_utterances` produces: every item followed by a newline. */
  function Lines(items: seq<string>): string {
    if items == [] then "" else items[0] + "\n" + Lines(items[1..])
  }

  lemma {:induction false} LinesSnoc(items: seq<string>, item: string)
    ensures Lines(items + [item]) == Lines(items) + item + "\n"
  {
    if items != [] {
      assert (items + [item])[1..] == items[1..] + [item];
      LinesSnoc(items[1..], item);
    }
  }

  /**
    Splitting a written file at its newlines gives back the items and a final
    empty piece, so the file has one line per item, provided no item itself
    contains a newline.
   */
  lemma {:induction false} LinesSplit(items: seq<string>)
    requires forall k :: 0 <= k < |items| ==> '\n' !in items[k]
    ensures Split(Lines(items), '\n') == items + [""]
  {
    if items != [] {
      LinesSplit(items[1..]);
      SplitAtFirstSep(items[0], Lines(items[1..]), '\n');
      assert items[0] + "\n" + Lines(items[1..]) == items[0] + ['\n'] + Lines(items[1..]);
      assert [items[0]] + (items[1..] + [""]) == items + [""];
    }
  }

  /** Writes `items`, one per line, to the file at `path`, replacing what it held. */
  method WriteUtterances(tree: FileTree, items: seq<string>, path: string) returns (tree': FileTree)
    ensures tree' == tree[path := Lines(items)]
  {
    var text := "";
    for i := 0 to |items|
      invariant text == Lines(items[..i])
    {
      LinesSnoc(items[..i], items[i]);
      assert items[..i + 1] == items[..i] + [items[i]];
      text := text + items[i] + "\n";
    }
    assert items[..|items|] == items;
    tree' := tree[path := text];
  }

  // ---- the columns of one role ----

  /** `list(zip(*group))`: the four columns of a role's tuples. */
  datatype Columns = Columns(raws: seq<string>, cleaneds: seq<string>, onsets: seq<int>, offsets: seq<int>)

  function Unzip(entries: seq<Entry>): Columns {
    Columns(
      seq(|entries|, k requires 0 <= k < |entries| => entries[k].raw),
      seq(|entries|, k requires 0 <= k < |entries| => entries[k].cleaned),
      seq(|entries|, k requires 0 <= k < |entries| => entries[k].onset),
      seq(|entries|, k requires 0 <= k < |entries| => entries[k].offset))
  }

  /** One timing line: onset, a tab, offset. */
  function Timemark(onset: int, offset: int): string {
    IntToString(onset) + "\t" + IntToString(offset)
  }

  /** The timemark lines of paired onsets and offsets; like `zip`, stops at the shorter. */
  function TimemarkLines(onsets: seq<int>, offsets: seq<int>): seq<string> {
    var n := if |onsets| < |offsets| then |onsets| else |offsets|;
    seq(n, k requires 0 <= k < n => Timemark(onsets[k], offsets[k]))
  }

  /** A timemark line splits at its tab into the printed onset and offset. */
  lemma TimemarkSplits(onset: int, offset: int)
    ensures Split(Timemark(onset, offset), '\t') == [IntToString(onset), IntToString(offset)]
    ensures '\n' !in Timemark(onset, offset)
  {
    IntTextHasOnly(onset, '\t');
    IntTextHasOnly(offset, '\t');
    IntTextHasOnly(onset, '\n');
    IntTextHasOnly(offset, '\n');
    SplitWithoutSep(IntToString(offset), '\t');
    SplitAtFirstSep(IntToString(onset), IntToString(offset), '\t');
  }

  /** The lines written for a role in one view. */
  function ViewLines(entries: seq<Entry>, view: View): seq<string> {
    var columns := Unzip(entries);
    match view
    case Orthographic => columns.raws
    case Cleaned => columns.cleaneds
    case Timemarks => TimemarkLines(columns.onsets, columns.offsets)
  }

  /**
    The three views of a role are aligned: each has one line per tuple, line k
    of the orthographic and cleaned views is the raw and cleaned text of
    tuple k, and timemark line k is its onset and offset. So the length
    assertion of the export never fails.
   */
  lemma ViewsAligned(entries: seq<Entry>, k: nat)
    requires k < |entries|
    ensures |ViewLines(entries, Orthographic)| == |ViewLines(entries, Cleaned)|
         == |ViewLines(entries, Timemarks)| == |entries|
    ensures ViewLines(entries, Orthographic)[k] == entries[k].raw
    ensures ViewLines(entries, Cleaned)[k] == entries[k].cleaned
    ensures ViewLines(entries, Timemarks)[k] == Timemark(entries[k].onset, entries[k].offset)
  {
  }

  // ---- one record ----

  /** The files written for the roles in `roles`, in that order, starting from `tree`. */
  function ExportRoles(tree: FileTree, output: string, child: string, data: RecordingData, roles: seq<string>): FileTree
    requires forall k :: 0 <= k < |roles| ==> roles[k] in data.groups
  {
    if roles == [] then tree
    else
      var before := ExportRoles(tree, output, child, data, roles[..|roles| - 1]);
      var role := roles[|roles| - 1];
      if role !in AllowedSpeakers then before
      else
        var entries := data.groups[role];
        before[RoleFile(output, Orthographic, child, data.filename, role) := Lines(ViewLines(entries, Orthographic))]
              [RoleFile(output, Cleaned, child, data.filename, role) := Lines(ViewLines(entries, Cleaned))]
              [RoleFile(output, Timemarks, child, data.filename, role) := Lines(ViewLines(entries, Timemarks))]
  }

  function ExportSidecars(tree: FileTree, output: string, child: string, data: RecordingData): FileTree {
    var months := IntToString(data.age);
    tree[FileIn(ViewFolder(output, Orthographic, child, data.filename), MonthsLeaf) := months]
        [FileIn(ViewFolder(output, Orthographic, child, data.filename), FilenameLeaf) := data.filename]
        [FileIn(ViewFolder(output, Cleaned, child, data.filename), MonthsLeaf) := months]
        [FileIn(ViewFolder(output, Cleaned, child, data.filename), FilenameLeaf) := data.filename]
        [FileIn(ViewFolder(output, Timemarks, child, data.filename), MonthsLeaf) := months]
        [FileIn(ViewFolder(output, Timemarks, child, data.filename), FilenameLeaf) := data.filename]
  }

  /** Every key the record lists has a group. */
  ghost predicate Exportable(data: RecordingData) {
    forall k :: 0 <= k < |data.order| ==> data.order[k] in data.groups
  }

  lemma WellFormedIsExportable(data: RecordingData)
    requires WellFormed(data)
    ensures Exportable(data)
  {
    forall k | 0 <= k < |data.order| ensures data.order[k] in data.groups {
      assert data.order[k] in data.order;
    }
  }

  /** The output tree after exporting one record. */
  function ExportRecordingTree(tree: FileTree, output: string, child: string, data: RecordingData): FileTree
    requires Exportable(data)
  {
    ExportSidecars(ExportRoles(tree, output, child, data, data.order), output, child, data)
  }

  lemma ExportRolesStep(tree: FileTree, output: string, child: string, data: RecordingData, roles: seq<string>, i: nat)
    requires forall k :: 0 <= k < |roles| ==> roles[k] in data.groups
    requires i < |roles|
    ensures var before := ExportRoles(tree, output, child, data, roles[..i]);
      var role := roles[i];
      var entries := data.groups[role];
      ExportRoles(tree, output, child, data, roles[..i + 1])
        == if role !in AllowedSpeakers then before
           else before[RoleFile(output, Orthographic, child, data.filename, role) := Lines(ViewLines(entries, Orthographic))]
                      [RoleFile(output, Cleaned, child, data.filename, role) := Lines(ViewLines(entries, Cleaned))]
                      [RoleFile(output, Timemarks, child, data.filename, role) := Lines(ViewLines(entries, Timemarks))]
  {
    assert roles[..i + 1][..i] == roles[..i];
  }

  /** Writes one record's files: per role in key order, then the sidecars. */
  method ExportRecording(tree: FileTree, output: string, child: string, data: RecordingData)
    returns (tree': FileTree)
    requires WellFormed(data)
    ensures tree' == ExportRecordingTree(tree, output, child, data)
  {
    var orthographicFolder := ViewFolder(output, Orthographic, child, data.filename);
    var cleanedFolder := ViewFolder(output, Cleaned, child, data.filename);
    var timemarksFolder := ViewFolder(output, Timemarks, child, data.filename);
    tree' := tree;
    for i := 0 to |data.order|
      invariant tree' == ExportRoles(tree, output, child, data, data.order[..i])
    {
      var role := data.order[i];
      ExportRolesStep(tree, output, child, data, data.order, i);
      var group := data.groups[role];
      // the four-way unpacking needs at least one tuple
      assert |group| > 0;
      var columns := Unzip(group);
      var timemarks := TimemarkLines(columns.onsets, columns.offsets);
      if role in AllowedSpeakers {
        assert |columns.raws| == |columns.cleaneds| == |timemarks|;
        tree' := WriteUtterances(tree', columns.raws, FileIn(orthographicFolder, RoleLeaf(role, Orthographic)));
        tree' := WriteUtterances(tree', columns.cleaneds, FileIn(cleanedFolder, RoleLeaf(role, Cleaned)));
        tree' := WriteUtterances(tree', timemarks, FileIn(timemarksFolder, RoleLeaf(role, Timemarks)));
      }
    }
    assert data.order[..|data.order|] == data.order;
    tree' := WriteSidecars(tree', output, child, data);
  }

  /** Writes the age and the stem into each view folder, in view order. */
  method WriteSidecars(tree: FileTree, output: string, child: string, data: RecordingData) returns (tree': FileTree)
    ensures tree' == ExportSidecars(tree, output, child, data)
  {
    var months := IntToString(data.age);
    tree' := tree;
    tree' := tree'[FileIn(ViewFolder(output, Orthographic, child, data.filename), MonthsLeaf) := months];
    tree' := tree'[FileIn(ViewFolder(output, Orthographic, child, data.filename), FilenameLeaf) := data.filename];
    tree' := tree'[FileIn(ViewFolder(output, Cleaned, child, data.filename), MonthsLeaf) := months];
    tree' := tree'[FileIn(ViewFolder(output, Cleaned, child, data.filename), FilenameLeaf) := data.filename];
    tree' := tree'[FileIn(ViewFolder(output, Timemarks, child, data.filename), MonthsLeaf) := months];
    tree' := tree'[FileIn(ViewFolder(output, Timemarks, child, data.filename), FilenameLeaf) := data.filename];
  }

  // ---- paths ----

  /** The view is read off the path: the three view names start with different letters. */
  lemma ViewOfPath(output: string, v1: View, v2: View, child: string, s1: string, s2: string, l1: string, l2: string)
    requires FileIn(ViewFolder(output, v1, child, s1), l1) == FileIn(ViewFolder(output, v2, child, s2), l2)
    ensures v1 == v2
  {
    var p1 := FileIn(ViewFolder(output, v1, child, s1), l1);
    var p2 := FileIn(ViewFolder(output, v2, child, s2), l2);
    assert p1[|output| + 1] == ViewName(v1)[0];
    assert p2[|output| + 1] == ViewName(v2)[0];
  }

  /** Within one record's folders, distinct views or leaves give distinct paths. */
  lemma SameFolderPaths(output: string, v1: View, v2: View, child: string, stem: string, l1: string, l2: string)
    requires FileIn(ViewFolder(output, v1, child, stem), l1) == FileIn(ViewFolder(output, v2, child, stem), l2)
    ensures v1 == v2 && l1 == l2
  {
    ViewOfPath(output, v1, v2, child, stem, stem, l1, l2);
    var folder := ViewFolder(output, v1, child, stem);
    assert FileIn(folder, l1)[|folder| + 1..] == l1;
    assert FileIn(folder, l2)[|folder| + 1..] == l2;
  }

  /**
    When file names contain no `/`, the path determines the view, the stem
    and the file name: files of records with different stems never collide.
   */
  lemma PathDeterminesStem(output: string, v1: View, v2: View, child: string, s1: string, s2: string, l1: string, l2: string)
    requires FileIn(ViewFolder(output, v1, child, s1), l1) == FileIn(ViewFolder(output, v2, child, s2), l2)
    requires '/' !in l1 && '/' !in l2
    ensures v1 == v2 && s1 == s2 && l1 == l2
  {
    ViewOfPath(output, v1, v2, child, s1, s2, l1, l2);
    var a1 := ViewFolder(output, v1, child, s1);
    var a2 := ViewFolder(output, v2, child, s2);
    var p := FileIn(a1, l1);
    assert p == FileIn(a2, l2);
    // the last '/' of the path sits right before the file name
    assert p[|a1|] == '/' && p[|a2|] == '/';
    assert forall i :: |a2| < i < |p| ==> p[i] == l2[i - |a2| - 1];
    assert forall i :: |a1| < i < |p| ==> p[i] == l1[i - |a1| - 1];
    assert |a1| == |a2|;
    assert a1 == p[..|a1|] == a2;
    var head := output + "/" + ViewName(v1) + "/" + child + "/";
    assert a1 == head + s1 && a2 == head + s2;
    assert s1 == a1[|head|..] && s2 == a2[|head|..];
    assert l1 == p[|a1| + 1..] && l2 == p[|a2| + 1..];
  }

  lemma SidecarNotElsewhere(output: string, v1: View, v2: View, child: string, s1: string, s2: string, l1: string, l2: string)
    requires s1 != s2 && '/' !in l1 && '/' !in l2
    ensures FileIn(ViewFolder(output, v1, child, s1), l1) != FileIn(ViewFolder(output, v2, child, s2), l2)
  {
    if FileIn(ViewFolder(output, v1, child, s1), l1) == FileIn(ViewFolder(output, v2, child, s2), l2) {
      PathDeterminesStem(output, v1, v2, child, s1, s2, l1, l2);
    }
  }

  lemma RoleLeafInjective(r1: string, r2: string, view: View)
    requires RoleLeaf(r1, view) == RoleLeaf(r2, view)
    ensures r1 == r2
  {
    assert r1 == RoleLeaf(r1, view)[..|r1|];
    assert r2 == RoleLeaf(r2, view)[..|r2|];
  }

  /** A role file is never a sidecar: view names end in c, d or s, sidecar names in t. */
  lemma RoleLeafNotSidecar(role: string, view: View)
    ensures RoleLeaf(role, view) != MonthsLeaf && RoleLeaf(role, view) != FilenameLeaf
  {
    var leaf := RoleLeaf(role, view);
    assert leaf[|leaf| - 1] == ViewName(view)[|ViewName(view)| - 1];
  }

  lemma AllowedLeafHasNoSlash(role: string, view: View)
    requires role in AllowedSpeakers
    ensures '/' !in RoleLeaf(role, view)
  {
    assert '/' !in ViewName(view);
    assert '/' !in role;
  }

  // ---- what one record's export does to the tree ----

  function Lookup(tree: FileTree, path: string): Option<string> {
    if path in tree then Some(tree[path]) else None
  }

  /** The files one record writes, whatever the tree held before. */
  function RecordFiles(output: string, child: string, data: RecordingData): FileTree
    requires Exportable(data)
  {
    ExportRecordingTree(map[], output, child, data)
  }

  lemma {:induction false} ExportRolesOverlay(tree: FileTree, output: string, child: string, data: RecordingData, roles: seq<string>)
    requires forall k :: 0 <= k < |roles| ==> roles[k] in data.groups
    ensures ExportRoles(tree, output, child, data, roles) == tree + ExportRoles(map[], output, child, data, roles)
  {
    if roles != [] {
      ExportRolesOverlay(tree, output, child, data, roles[..|roles| - 1]);
    }
  }

  /**
    Exporting a record lays a fixed set of files over the tree: those paths
    get the record's content and every other path keeps what it held.
   */
  lemma ExportIsOverlay(tree: FileTree, output: string, child: string, data: RecordingData)
    requires Exportable(data)
    ensures ExportRecordingTree(tree, output, child, data) == tree + RecordFiles(output, child, data)
  {
    var roles := ExportRoles(map[], output, child, data, data.order);
    ExportRolesOverlay(tree, output, child, data, data.order);
    SidecarsOverlay(tree, roles, output, child, data);
  }

  lemma SidecarsOverlay(tree: FileTree, files: FileTree, output: string, child: string, data: RecordingData)
    ensures ExportSidecars(tree + files, output, child, data) == tree + ExportSidecars(files, output, child, data)
  {
  }

  /** Exporting the same record again leaves the tree as it is. */
  lemma ExportIdempotent(tree: FileTree, output: string, child: string, data: RecordingData)
    requires Exportable(data)
    ensures ExportRecordingTree(ExportRecordingTree(tree, output, child, data), output, child, data)
         == ExportRecordingTree(tree, output, child, data)
  {
    var files := RecordFiles(output, child, data);
    ExportIsOverlay(tree, output, child, data);
    ExportIsOverlay(tree + files, output, child, data);
    assert (tree + files) + files == tree + files;
  }

  lemma {:induction false} RolesWrittenFiles(output: string, child: string, data: RecordingData, roles: seq<string>, view: View, role: string)
    requires forall k :: 0 <= k < |roles| ==> roles[k] in data.groups
    ensures Lookup(ExportRoles(map[], output, child, data, roles), RoleFile(output, view, child, data.filename, role))
      == if role in roles && role in AllowedSpeakers then Some(Lines(ViewLines(data.groups[role], view))) else None
  {
    if roles != [] {
      var front := roles[..|roles| - 1];
      var last := roles[|roles| - 1];
      RolesWrittenFiles(output, child, data, front, view, role);
      assert role in roles <==> role in front || role == last;
      if last in AllowedSpeakers {
        RoleFileDistinct(output, child, data.filename, Orthographic, last, view, role);
        RoleFileDistinct(output, child, data.filename, Cleaned, last, view, role);
        RoleFileDistinct(output, child, data.filename, Timemarks, last, view, role);
      }
    }
  }

  /** Two role files in one record's folders coincide only for the same view and role. */
  lemma RoleFileDistinct(output: string, child: string, stem: string, v1: View, r1: string, v2: View, r2: string)
    ensures RoleFile(output, v1, child, stem, r1) == RoleFile(output, v2, child, stem, r2) ==> v1 == v2 && r1 == r2
  {
    if RoleFile(output, v1, child, stem, r1) == RoleFile(output, v2, child, stem, r2) {
      SameFolderPaths(output, v1, v2, child, stem, RoleLeaf(r1, v1), RoleLeaf(r2, v2));
      RoleLeafInjective(r1, r2, v2);
    }
  }

  /**
    After exporting a record, the file of a speaker role in a view holds that
    role's lines exactly when the role is present and allowed; no file is
    written for any other role.
   */
  lemma ExportedRoleFile(output: string, child: string, data: RecordingData, view: View, role: string)
    requires WellFormed(data)
    ensures Lookup(RecordFiles(output, child, data), RoleFile(output, view, child, data.filename, role))
      == if role in data.groups && role in AllowedSpeakers then Some(Lines(ViewLines(data.groups[role], view))) else None
  {
    RolesWrittenFiles(output, child, data, data.order, view, role);
    RoleLeafNotSidecar(role, view);
    forall v: View ensures RoleFile(output, view, child, data.filename, role) != FileIn(ViewFolder(output, v, child, data.filename), MonthsLeaf)
      && RoleFile(output, view, child, data.filename, role) != FileIn(ViewFolder(output, v, child, data.filename), FilenameLeaf)
    {
      if RoleFile(output, view, child, data.filename, role) == FileIn(ViewFolder(output, v, child, data.filename), MonthsLeaf) {
        SameFolderPaths(output, view, v, child, data.filename, RoleLeaf(role, view), MonthsLeaf);
      }
      if RoleFile(output, view, child, data.filename, role) == FileIn(ViewFolder(output, v, child, data.filename), FilenameLeaf) {
        SameFolderPaths(output, view, v, child, data.filename, RoleLeaf(role, view), FilenameLeaf);
      }
    }
  }

  /** The sidecar writes put the printed age and the stem in each view folder, over any tree. */
  lemma SidecarsWritten(tree: FileTree, output: string, child: string, data: RecordingData, view: View)
    ensures var files := ExportSidecars(tree, output, child, data);
      var folder := ViewFolder(output, view, child, data.filename);
      && Lookup(files, FileIn(folder, MonthsLeaf)) == Some(IntToString(data.age))
      && Lookup(files, FileIn(folder, FilenameLeaf)) == Some(data.filename)
  {
    var stem := data.filename;
    forall v: View, l1: string, l2: string | (l1 == MonthsLeaf || l1 == FilenameLeaf) && (l2 == MonthsLeaf || l2 == FilenameLeaf)
      ensures FileIn(ViewFolder(output, v, child, stem), l1) == FileIn(ViewFolder(output, view, child, stem), l2)
        ==> v == view && l1 == l2
    {
      if FileIn(ViewFolder(output, v, child, stem), l1) == FileIn(ViewFolder(output, view, child, stem), l2) {
        SameFolderPaths(output, v, view, child, stem, l1, l2);
      }
    }
    assert MonthsLeaf != FilenameLeaf;
  }

  /**
    Each view folder gets the age as printed by `str` (no leading zero, a sign
    only for a negative age), which reads back as the age, and the stem.
   */
  lemma ExportedSidecars(output: string, child: string, data: RecordingData, view: View)
    requires Exportable(data)
    ensures var files := RecordFiles(output, child, data);
      var folder := ViewFolder(output, view, child, data.filename);
      && Lookup(files, FileIn(folder, MonthsLeaf)) == Some(IntToString(data.age))
      && Lookup(files, FileIn(folder, FilenameLeaf)) == Some(data.filename)
      && ParseInt(IntToString(data.age)) == data.age
      && IsCanonicalIntText(IntToString(data.age))
  {
    IntToStringRoundTrip(data.age);
    IntToStringCanonical(data.age);
    SidecarsWritten(ExportRoles(map[], output, child, data, data.order), output, child, data, view);
  }

  /** One of the six sidecar paths of a stem: `months.txt` or `filename.txt` in a view folder. */
  ghost predicate SidecarPath(output: string, child: string, stem: string, path: string) {
    exists view: View :: path == FileIn(ViewFolder(output, view, child, stem), MonthsLeaf)
      || path == FileIn(ViewFolder(output, view, child, stem), FilenameLeaf)
  }

  /** The file of an allowed speaker role in `roles`, in one of the views. */
  ghost predicate RolePath(output: string, child: string, stem: string, roles: seq<string>, path: string) {
    exists view: View, role :: role in roles && role in AllowedSpeakers && path == RoleFile(output, view, child, stem, role)
  }

  lemma {:induction false} RolesDomain(output: string, child: string, data: RecordingData, roles: seq<string>, path: string)
    requires forall k :: 0 <= k < |roles| ==> roles[k] in data.groups
    ensures path in ExportRoles(map[], output, child, data, roles) ==> RolePath(output, child, data.filename, roles, path)
  {
    if roles != [] {
      var front := roles[..|roles| - 1];
      var last := roles[|roles| - 1];
      RolesDomain(output, child, data, front, path);
      if path in ExportRoles(map[], output, child, data, roles) {
        if path in ExportRoles(map[], output, child, data, front) {
          var view: View, role :| role in front && role in AllowedSpeakers && path == RoleFile(output, view, child, data.filename, role);
          assert role in roles;
        } else {
          assert last in AllowedSpeakers;
          assert last in roles;
          if path == RoleFile(output, Orthographic, child, data.filename, last) {
          } else if path == RoleFile(output, Cleaned, child, data.filename, last) {
          } else {
            assert path == RoleFile(output, Timemarks, child, data.filename, last);
          }
        }
      }
    }
  }

  /**
    The files one record writes are exactly its sidecars and the files of its
    allowed speaker roles; any other path is left alone. Without the
    well-formedness of the record, only the inclusion holds.
   */
  lemma RecordFilesDomain(output: string, child: string, data: RecordingData, path: string)
    requires Exportable(data)
    ensures path in RecordFiles(output, child, data) ==>
      SidecarPath(output, child, data.filename, path) || RolePath(output, child, data.filename, data.order, path)
    ensures WellFormed(data) ==>
      (path in RecordFiles(output, child, data) <==>
        SidecarPath(output, child, data.filename, path) || RolePath(output, child, data.filename, data.order, path))
  {
    var stem := data.filename;
    RolesDomain(output, child, data, data.order, path);
    if path in RecordFiles(output, child, data) && !(path in ExportRoles(map[], output, child, data, data.order)) {
      if path == FileIn(ViewFolder(output, Orthographic, child, stem), MonthsLeaf)
        || path == FileIn(ViewFolder(output, Orthographic, child, stem), FilenameLeaf) {
        assert SidecarPath(output, child, stem, path);
      } else if path == FileIn(ViewFolder(output, Cleaned, child, stem), MonthsLeaf)
        || path == FileIn(ViewFolder(output, Cleaned, child, stem), FilenameLeaf) {
        assert SidecarPath(output, child, stem, path);
      } else {
        assert SidecarPath(output, child, stem, path) by {
          assert path == FileIn(ViewFolder(output, Timemarks, child, stem), MonthsLeaf)
            || path == FileIn(ViewFolder(output, Timemarks, child, stem), FilenameLeaf);
        }
      }
    }
    if WellFormed(data) {
      if SidecarPath(output, child, stem, path) {
        var view: View :| path == FileIn(ViewFolder(output, view, child, stem), MonthsLeaf)
          || path == FileIn(ViewFolder(output, view, child, stem), FilenameLeaf);
        ExportedSidecars(output, child, data, view);
      }
      if RolePath(output, child, stem, data.order, path) {
        var view: View, role :| role in data.order && role in AllowedSpeakers && path == RoleFile(output, view, child, stem, role);
        ExportedRoleFile(output, child, data, view, role);
      }
    }
  }

  /** A record writes nothing in the folders of another stem (for file names without `/`). */
  lemma OtherStemUntouched(output: string, child: string, data: RecordingData, view: View, stem: string, leaf: string)
    requires Exportable(data)
    requires stem != data.filename && '/' !in leaf
    ensures FileIn(ViewFolder(output, view, child, stem), leaf) !in RecordFiles(output, child, data)
  {
    var path := FileIn(ViewFolder(output, view, child, stem), leaf);
    assert '/' !in MonthsLeaf && '/' !in FilenameLeaf;
    forall v: View
      ensures FileIn(ViewFolder(output, v, child, data.filename), MonthsLeaf) != path
      ensures FileIn(ViewFolder(output, v, child, data.filename), FilenameLeaf) != path
    {
      SidecarNotElsewhere(output, v, view, child, data.filename, stem, MonthsLeaf, leaf);
      SidecarNotElsewhere(output, v, view, child, data.filename, stem, FilenameLeaf, leaf);
    }
    RolesUntouched(output, child, data, data.order, path, view, stem, leaf);
  }

  lemma {:induction false} RolesUntouched(output: string, child: string, data: RecordingData, roles: seq<string>,
                                          path: string, view: View, stem: string, leaf: string)
    requires forall k :: 0 <= k < |roles| ==> roles[k] in data.groups
    requires path == FileIn(ViewFolder(output, view, child, stem), leaf)
    requires stem != data.filename && '/' !in leaf
    ensures path !in ExportRoles(map[], output, child, data, roles)
  {
    if roles != [] {
      RolesUntouched(output, child, data, roles[..|roles| - 1], path, view, stem, leaf);
      var role := roles[|roles| - 1];
      if role in AllowedSpeakers {
        forall v: View ensures RoleFile(output, v, child, data.filename, role) != path {
          AllowedLeafHasNoSlash(role, v);
          if RoleFile(output, v, child, data.filename, role) == path {
            PathDeterminesStem(output, v, view, child, data.filename, stem, RoleLeaf(role, v), leaf);
          }
        }
      }
    }
  }

  // ---- all records ----

  /** The output tree after exporting `records` in order. */
  function ExportAll(tree: FileTree, output: string, child: string, records: seq<RecordingData>): FileTree
    requires forall k :: 0 <= k < |records| ==> Exportable(records[k])
  {
    if records == [] then tree
    else ExportRecordingTree(ExportAll(tree, output, child, records[..|records| - 1]), output, child, records[|records| - 1])
  }

  lemma LookupOverlay(tree: FileTree, files: FileTree, path: string)
    ensures Lookup(tree + files, path) == if path in files then Some(files[path]) else Lookup(tree, path)
  {
  }

  /** Exporting one more record lays its files over the tree exported so far. */
  lemma ExportAllSnoc(tree: FileTree, output: string, child: string, records: seq<RecordingData>)
    requires forall k :: 0 <= k < |records| ==> Exportable(records[k])
    requires records != []
    ensures ExportAll(tree, output, child, records)
      == ExportAll(tree, output, child, records[..|records| - 1]) + RecordFiles(output, child, records[|records| - 1])
  {
    ExportIsOverlay(ExportAll(tree, output, child, records[..|records| - 1]), output, child, records[|records| - 1]);
  }

  lemma {:induction false} ExportAllUntouched(tree: FileTree, output: string, child: string, records: seq<RecordingData>,
                                              view: View, stem: string, leaf: string)
    requires forall k :: 0 <= k < |records| ==> Exportable(records[k])
    requires forall k :: 0 <= k < |records| ==> records[k].filename != stem
    requires '/' !in leaf
    ensures var path := FileIn(ViewFolder(output, view, child, stem), leaf);
      Lookup(ExportAll(tree, output, child, records), path) == Lookup(tree, path)
  {
    if records != [] {
      var front := records[..|records| - 1];
      var last := records[|records| - 1];
      ExportAllUntouched(tree, output, child, front, view, stem, leaf);
      ExportAllSnoc(tree, output, child, records);
      OtherStemUntouched(output, child, last, view, stem, leaf);
    }
  }

  /**
    When the records have distinct stems, every file a record writes (file
    names without `/`) still holds that record's content after all records
    are exported, and every other file in its folders keeps what the tree
    held before.
   */
  lemma {:induction false} ExportAllKeepsRecordFiles(tree: FileTree, output: string, child: string, records: seq<RecordingData>,
                                                     k: nat, view: View, leaf: string)
    requires forall j :: 0 <= j < |records| ==> Exportable(records[j])
    requires forall i, j :: 0 <= i < j < |records| ==> records[i].filename != records[j].filename
    requires k < |records| && '/' !in leaf
    ensures var path := FileIn(ViewFolder(output, view, child, records[k].filename), leaf);
      Lookup(ExportAll(tree, output, child, records), path) == Lookup(tree + RecordFiles(output, child, records[k]), path)
  {
    var front := records[..|records| - 1];
    var stem := records[k].filename;
    assert forall j :: 0 <= j < |front| ==> front[j] == records[j];
    ExportAllSnoc(tree, output, child, records);
    if k == |records| - 1 {
      assert forall j :: 0 <= j < |front| ==> front[j].filename != stem;
      ExportAllUntouched(tree, output, child, front, view, stem, leaf);
      LastRecordFiles(tree, ExportAll(tree, output, child, front), RecordFiles(output, child, records[k]),
                      FileIn(ViewFolder(output, view, child, stem), leaf));
    } else {
      OtherStemUntouched(output, child, records[|records| - 1], view, stem, leaf);
      ExportAllKeepsRecordFiles(tree, output, child, front, k, view, leaf);
    }
  }

  lemma LastRecordFiles(tree: FileTree, before: FileTree, files: FileTree, path: string)
    requires Lookup(before, path) == Lookup(tree, path)
    ensures Lookup(before + files, path) == Lookup(tree + files, path)
  {
  }

  /** The loop of `make_folder` over the yielded records. */
  method ExportRecords(tree: FileTree, output: string, child: string, records: seq<RecordingData>)
    returns (tree': FileTree)
    requires forall k :: 0 <= k < |records| ==> WellFormed(records[k]) && Exportable(records[k])
    ensures tree' == ExportAll(tree, output, child, records)
  {
    tree' := tree;
    for k := 0 to |records|
      invariant tree' == ExportAll(tree, output, child, records[..k])
    {
      assert records[..k + 1][..k] == records[..k];
      tree' := ExportRecording(tree', output, child, records[k]);
    }
    assert records[..|records|] == records;
  }

  /**
    `make_folder`: exports every record `get_data` yields, in order, under
    the child name taken from the corpus path, and stops with the first
    failure.
   */
  method MakeFolder(
    tree: FileTree, corpus: string, prefix: string, output: string, tables: Tables,
    store: string -> seq<Row>, normalize: string -> string)
    returns (tree': FileTree, failure: Option<LookupError>)
    ensures forall k :: 0 <= k < |Extract(corpus, prefix, tables, store, normalize).0| ==>
      WellFormed(Extract(corpus, prefix, tables, store, normalize).0[k])
      && Exportable(Extract(corpus, prefix, tables, store, normalize).0[k])
    ensures tree' == ExportAll(tree, output, ChildName(corpus), Extract(corpus, prefix, tables, store, normalize).0)
    ensures failure == Extract(corpus, prefix, tables, store, normalize).1
  {
    var child := ChildName(corpus);
    var records, stop := GetData(corpus, prefix, tables, store, normalize);
    ExtractedRecordsWellFormed(corpus, prefix, tables, store, normalize);
    assert records == Extract(corpus, prefix, tables, store, normalize).0;
    assert forall k :: 0 <= k < |records| ==> Exportable(records[k]) by {
      forall k | 0 <= k < |records| ensures Exportable(records[k]) {
        WellFormedIsExportable(records[k]);
      }
    }
    tree' := ExportRecords(tree, output, child, records);
    failure := stop;
  }
}
