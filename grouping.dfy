/**
  The row loop of `get_data`: every annotation row (transcription, onset,
  offset, speaker role) is cleaned and appended to the list kept for its
  speaker role in a `defaultdict(list)`.
 */
module Grouping {
  import opened Seqs

  /** One row of a converted annotation file. */
  datatype Row = Row(transcription: string, onset: int, offset: int, role: string)

  /** The tuple stored per row: raw text, cleaned text, onset, offset. */
  datatype Entry = Entry(raw: string, cleaned: string, onset: int, offset: int)

  /**
    `normalize` stands for the two cleaning passes applied in turn (the CHAT
    clean-up, then the rule-based cleaner); it is total on strings.
   */
  function ToEntry(row: Row, normalize: string -> string): Entry {
    Entry(row.transcription, normalize(row.transcription), row.onset, row.offset)
  }

  function ToEntries(rows: seq<Row>, normalize: string -> string): seq<Entry> {
    seq(|rows|, k requires 0 <= k < |rows| => ToEntry(rows[k], normalize))
  }

  function RolesOf(rows: seq<Row>): seq<string> {
    seq(|rows|, k requires 0 <= k < |rows| => rows[k].role)
  }

  function RowsWithRole(rows: seq<Row>, role: string): seq<Row> {
    Filter(rows, (row: Row) => row.role == role)
  }

  /** What the dictionary holds once every row is appended: each role present, with its rows in file order. */
  function Grouped(rows: seq<Row>, normalize: string -> string): map<string, seq<Entry>> {
    map role | role in RolesOf(rows) :: ToEntries(RowsWithRole(rows, role), normalize)
  }

  /** The dictionary's key order: roles in order of first appearance. */
  function KeyOrder(rows: seq<Row>): seq<string> {
    Distinct(RolesOf(rows))
  }

  lemma RowsWithRoleSnoc(rows: seq<Row>, x: Row, role: string)
    ensures RowsWithRole(rows + [x], role) == RowsWithRole(rows, role) + (if x.role == role then [x] else [])
  {
    FilterSnoc(rows, x, (row: Row) => row.role == role);
  }

  lemma RowsWithRoleAbsent(rows: seq<Row>, role: string)
    requires role !in RolesOf(rows)
    ensures RowsWithRole(rows, role) == []
  {
    forall i | 0 <= i < |rows| ensures rows[i].role != role {
      assert RolesOf(rows)[i] == rows[i].role;
    }
    FilterEmpty(rows, (row: Row) => row.role == role);
  }

  /** The entries of one role after appending a row: its own role gains that row, other roles are unchanged. */
  lemma EntriesSnoc(rows: seq<Row>, x: Row, normalize: string -> string, role: string)
    ensures ToEntries(RowsWithRole(rows + [x], role), normalize)
      == if role != x.role then ToEntries(RowsWithRole(rows, role), normalize)
         else ToEntries(RowsWithRole(rows, role), normalize) + [ToEntry(x, normalize)]
  {
    RowsWithRoleSnoc(rows, x, role);
    if role == x.role {
      assert ToEntries(RowsWithRole(rows, role) + [x], normalize)
          == ToEntries(RowsWithRole(rows, role), normalize) + [ToEntry(x, normalize)];
    }
  }

  /** Appending one row extends exactly its own role's list, creating the list on first use. */
  lemma GroupedSnoc(rows: seq<Row>, x: Row, normalize: string -> string)
    ensures var g := Grouped(rows, normalize);
      Grouped(rows + [x], normalize)
        == g[x.role := (if x.role in g then g[x.role] else []) + [ToEntry(x, normalize)]]
  {
    var g := Grouped(rows, normalize);
    var g' := Grouped(rows + [x], normalize);
    var expected := g[x.role := (if x.role in g then g[x.role] else []) + [ToEntry(x, normalize)]];
    assert RolesOf(rows + [x]) == RolesOf(rows) + [x.role];
    assert g'.Keys == expected.Keys;
    forall role | role in g'
      ensures g'[role] == expected[role]
    {
      EntriesSnoc(rows, x, normalize, role);
      if x.role !in g {
        RowsWithRoleAbsent(rows, x.role);
      }
    }
  }

  lemma GroupedKey(rows: seq<Row>, normalize: string -> string, role: string)
    ensures role in Grouped(rows, normalize) <==> role in KeyOrder(rows)
  {
  }

  /**
    Builds the role dictionary row by row, as the loop over the annotation
    rows does, and returns it with its key order.
   */
  method GroupUtterances(rows: seq<Row>, normalize: string -> string)
    returns (groups: map<string, seq<Entry>>, order: seq<string>)
    ensures groups == Grouped(rows, normalize)
    ensures order == KeyOrder(rows)
  {
    groups, order := map[], [];
    for i := 0 to |rows|
      invariant groups == Grouped(rows[..i], normalize)
      invariant order == KeyOrder(rows[..i])
    {
      var row := rows[i];
      var entry := Entry(row.transcription, normalize(row.transcription), row.onset, row.offset);
      ghost var seen := rows[..i];
      assert rows[..i + 1] == seen + [row];
      assert RolesOf(seen + [row]) == RolesOf(seen) + [row.role];
      GroupedSnoc(seen, row, normalize);
      GroupedKey(seen, normalize, row.role);
      DistinctSnoc(RolesOf(seen), row.role);
      // a defaultdict creates the empty list on the first access to a role
      var list := if row.role in groups then groups[row.role] else [];
      if row.role !in groups {
        order := order + [row.role];
      }
      groups := groups[row.role := list + [entry]];
    }
    assert rows[..|rows|] == rows;
  }

  /**
    Every list in the dictionary is non-empty, since a key only appears when
    a row is appended under it; the four-way unpacking of a group's columns
    relies on this.
   */
  lemma GroupsNonEmpty(rows: seq<Row>, normalize: string -> string)
    ensures forall role :: role in Grouped(rows, normalize) ==> |Grouped(rows, normalize)[role]| > 0
  {
    forall role | role in Grouped(rows, normalize)
      ensures |RowsWithRole(rows, role)| > 0
    {
      var i :| 0 <= i < |rows| && RolesOf(rows)[i] == role;
      FilterEmpty(rows, (row: Row) => row.role == role);
    }
  }

  lemma FilterRolesAppend(a: seq<Row>, b: seq<Row>, role: string)
    ensures RowsWithRole(a + b, role) == RowsWithRole(a, role) + RowsWithRole(b, role)
    decreases |b|
  {
    if b == [] {
      assert a + b == a;
    } else {
      var c := b[..|b| - 1];
      var x := b[|b| - 1];
      assert b == c + [x];
      assert a + b == (a + c) + [x];
      FilterRolesAppend(a, c, role);
      RowsWithRoleSnoc(a + c, x, role);
      RowsWithRoleSnoc(c, x, role);
    }
  }

  /** How many earlier rows share row `i`'s speaker role. */
  function Position(rows: seq<Row>, i: nat): nat
    requires i < |rows|
  {
    |RowsWithRole(rows[..i], rows[i].role)|
  }

  /**
    Row `i` is stored, cleaned, in its own role's list right after the rows
    of that role that precede it in the file.
   */
  lemma {:induction false} RowLandsInItsGroup(rows: seq<Row>, normalize: string -> string, i: nat)
    requires i < |rows|
    ensures rows[i].role in Grouped(rows, normalize)
    ensures Position(rows, i) < |Grouped(rows, normalize)[rows[i].role]|
    ensures Grouped(rows, normalize)[rows[i].role][Position(rows, i)] == ToEntry(rows[i], normalize)
  {
    var role := rows[i].role;
    assert RolesOf(rows)[i] == role;
    assert rows == rows[..i] + [rows[i]] + rows[i + 1..];
    FilterRolesAppend(rows[..i] + [rows[i]], rows[i + 1..], role);
    RowsWithRoleSnoc(rows[..i], rows[i], role);
  }

  /** Conversely, every entry of a role's list is the cleaned form of some row with that role. */
  lemma GroupEntryHasItsRole(rows: seq<Row>, normalize: string -> string, role: string, k: nat)
    requires role in Grouped(rows, normalize) && k < |Grouped(rows, normalize)[role]|
    ensures exists i :: 0 <= i < |rows| && rows[i].role == role && Grouped(rows, normalize)[role][k] == ToEntry(rows[i], normalize)
  {
    var matching := RowsWithRole(rows, role);
    assert matching[k] in rows && matching[k].role == role;
    var i :| 0 <= i < |rows| && rows[i] == matching[k];
    assert Grouped(rows, normalize)[role][k] == ToEntry(rows[i], normalize);
  }

  /** Within a role's list, rows keep their file order. */
  lemma {:induction false} GroupKeepsFileOrder(rows: seq<Row>, i: nat, j: nat)
    requires i < j < |rows| && rows[i].role == rows[j].role
    ensures Position(rows, i) < Position(rows, j)
  {
    var role := rows[i].role;
    assert rows[..j] == rows[..i] + [rows[i]] + rows[i + 1..j];
    FilterRolesAppend(rows[..i] + [rows[i]], rows[i + 1..j], role);
    RowsWithRoleSnoc(rows[..i], rows[i], role);
  }

  /** Total size of the lists stored under `keys`. */
  function GroupSizes(groups: map<string, seq<Entry>>, keys: seq<string>): nat
    requires forall k :: k in keys ==> k in groups
  {
    if keys == [] then 0
    else GroupSizes(groups, keys[..|keys| - 1]) + |groups[keys[|keys| - 1]]|
  }

  lemma {:induction false} GroupSizesUpdate(groups: map<string, seq<Entry>>, keys: seq<string>, key: string, v: seq<Entry>)
    requires forall k :: k in keys ==> k in groups
    requires NoDuplicates(keys) && key in groups
    ensures GroupSizes(groups[key := v], keys)
      == GroupSizes(groups, keys) + (if key in keys then |v| - |groups[key]| else 0)
  {
    if keys != [] {
      var front := keys[..|keys| - 1];
      assert forall k :: k in front ==> k in keys;
      GroupSizesUpdate(groups, front, key, v);
      assert key == keys[|keys| - 1] ==> key !in front;
      assert key in keys <==> key in front || key == keys[|keys| - 1];
    }
  }

  lemma GroupSizesFresh(groups: map<string, seq<Entry>>, keys: seq<string>, key: string, v: seq<Entry>)
    requires forall k :: k in keys ==> k in groups
    requires key !in keys
    ensures GroupSizes(groups[key := v], keys) == GroupSizes(groups, keys)
  {
    if keys != [] {
      GroupSizesFresh(groups, keys[..|keys| - 1], key, v);
    }
  }

  /** One defaultdict append adds exactly one entry to the total over the key order. */
  lemma GroupSizesAppend(groups: map<string, seq<Entry>>, keys: seq<string>, role: string, entry: Entry)
    requires forall k :: k in keys ==> k in groups
    requires NoDuplicates(keys) && (role in groups <==> role in keys)
    ensures var v := (if role in groups then groups[role] else []) + [entry];
      var keys' := if role in keys then keys else keys + [role];
      && (forall k :: k in keys' ==> k in groups[role := v])
      && GroupSizes(groups[role := v], keys') == GroupSizes(groups, keys) + 1
  {
    var v := (if role in groups then groups[role] else []) + [entry];
    if role in keys {
      GroupSizesUpdate(groups, keys, role, v);
    } else {
      GroupSizesFresh(groups, keys, role, v);
      assert (keys + [role])[..|keys|] == keys;
    }
  }

  /**
    Grouping partitions the rows: summed over the dictionary's keys, the list
    lengths give the number of rows; nothing is dropped or merged.
   */
  lemma {:induction false} GroupsPartitionRows(rows: seq<Row>, normalize: string -> string)
    ensures forall k :: k in KeyOrder(rows) ==> k in Grouped(rows, normalize)
    ensures GroupSizes(Grouped(rows, normalize), KeyOrder(rows)) == |rows|
  {
    if rows != [] {
      var front := rows[..|rows| - 1];
      var x := rows[|rows| - 1];
      assert rows == front + [x];
      GroupsPartitionRows(front, normalize);
      GroupedSnoc(front, x, normalize);
      GroupedKey(front, normalize, x.role);
      assert RolesOf(rows) == RolesOf(front) + [x.role];
      DistinctSnoc(RolesOf(front), x.role);
      GroupSizesAppend(Grouped(front, normalize), KeyOrder(front), x.role, ToEntry(x, normalize));
    }
  }
}
