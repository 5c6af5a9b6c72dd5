/** The per-fleet output files: the combined table grouped by fleet name, one file
    per fleet, named after the fleet. */
module FleetFiles {
  import opened Ordering
  import opened Sequences
  import opened Trips
  import opened Results

  /** `name.replace(' ', '_')`. */
  function Underscored(name: string): string
  {
    seq(|name|, i requires 0 <= i < |name| => if name[i] == ' ' then '_' else name[i])
  }

  /** Line 58: the output file name of a fleet. */
  function FileName(fleet: string): string
  {
    Underscored(fleet) + "_Drivers.csv"
  }

  /** Two fleet names give the same file name exactly when they have the same length
      and differ only where one has a space and the other an underscore. */
  lemma FileNameCollision(a: string, b: string)
    ensures FileName(a) == FileName(b) <==>
      |a| == |b| && forall i :: 0 <= i < |a| ==> a[i] == b[i] || (a[i] in " _" && b[i] in " _")
  {
    if FileName(a) == FileName(b) {
      assert |a| == |b|;
      forall i | 0 <= i < |a| ensures a[i] == b[i] || (a[i] in " _" && b[i] in " _") {
        assert FileName(a)[i] == Underscored(a)[i] && FileName(b)[i] == Underscored(b)[i];
      }
    }
    if |a| == |b| && forall i :: 0 <= i < |a| ==> a[i] == b[i] || (a[i] in " _" && b[i] in " _") {
      assert Underscored(a) == Underscored(b);
    }
  }

  /** The derivation is lossy: two different fleets can share a file name. */
  lemma FileNamesCanCollide()
    ensures "North Fleet" != "North_Fleet" && FileName("North Fleet") == FileName("North_Fleet")
  {
    FileNameCollision("North Fleet", "North_Fleet");
  }

  function FleetNames(rows: seq<ResultRow>): (names: seq<string>)
    ensures forall f :: f in names <==> exists x :: x in rows && x.key.fleet == f
  {
    if rows == [] then []
    else
      assert forall x :: x in rows <==> x == rows[0] || x in rows[1..];
      [rows[0].key.fleet] + FleetNames(rows[1..])
  }

  /** The fleet groups in the order groupby('Fleet Name') yields them. */
  function Fleets(table: Table): (fleets: seq<string>)
    ensures StrictlySorted(fleets, StrLt)
    ensures forall f :: f in fleets <==> exists x :: x in table.rows && x.key.fleet == f
  {
    StrLtIsStrictTotalOrder();
    SortedDistinct(FleetNames(table.rows), StrLt)
  }

  /** The group of one fleet: its rows in their order in the combined table, with all its columns. */
  function FleetTable(table: Table, fleet: string): Table
  {
    Table(table.methods, Filter(table.rows, InFleet(fleet)))
  }

  /** The groupby mask of one fleet. */
  function InFleet(fleet: string): ResultRow -> bool
  {
    (x: ResultRow) => x.key.fleet == fleet
  }

  /** Combined rows compared by their keys. */
  predicate RowLt(a: ResultRow, b: ResultRow)
  {
    KeyLt(a.key, b.key)
  }

  /** A fleet's group keeps the ascending key order of the combined table, so each file
      lists its drivers in that order. */
  lemma FleetTableInKeyOrder(table: Table, f: string)
    requires forall i, j :: 0 <= i < j < |table.rows| ==> KeyLt(table.rows[i].key, table.rows[j].key)
    ensures forall i, j :: 0 <= i < j < |FleetTable(table, f).rows| ==>
      KeyLt(FleetTable(table, f).rows[i].key, FleetTable(table, f).rows[j].key)
  {
    assert StrictlySorted(table.rows, RowLt);
    FilterKeepsOrder(table.rows, InFleet(f), RowLt);
    var rows := FleetTable(table, f).rows;
    assert StrictlySorted(rows, RowLt);
    forall i, j | 0 <= i < j < |rows| ensures KeyLt(rows[i].key, rows[j].key) {
      assert RowLt(rows[i], rows[j]);
    }
  }

  /** The rows of the groups of `fleets`, one group after the other. */
  function GroupedRows(table: Table, fleets: seq<string>): seq<ResultRow>
  {
    if fleets == [] then [] else FleetTable(table, fleets[0]).rows + GroupedRows(table, fleets[1..])
  }

  lemma {:induction false} GroupsOfDistinctFleets(table: Table, fleets: seq<string>)
    requires forall i, j :: 0 <= i < j < |fleets| ==> fleets[i] != fleets[j]
    ensures forall x :: multiset(GroupedRows(table, fleets))[x] == if x.key.fleet in fleets then multiset(table.rows)[x] else 0
  {
    if fleets != [] {
      GroupsOfDistinctFleets(table, fleets[1..]);
      assert forall f :: f in fleets <==> f == fleets[0] || f in fleets[1..];
    }
  }

  lemma FleetTableRows(table: Table, f: string)
    ensures forall x :: x in FleetTable(table, f).rows <==> x in table.rows && x.key.fleet == f
  {
    var rows := FleetTable(table, f).rows;
    forall x ensures x in rows <==> x in table.rows && x.key.fleet == f {
      assert x in rows <==> multiset(rows)[x] > 0;
      assert x in table.rows <==> multiset(table.rows)[x] > 0;
    }
  }

  /** The fleet groups partition the combined table: each row is in the group of its
      fleet and in no other, and the groups, taken in order, hold every row exactly once. */
  lemma FleetGroupsPartition(table: Table)
    ensures forall x, f :: x in FleetTable(table, f).rows <==> x in table.rows && x.key.fleet == f
    ensures multiset(GroupedRows(table, Fleets(table))) == multiset(table.rows)
  {
    forall f ensures forall x :: x in FleetTable(table, f).rows <==> x in table.rows && x.key.fleet == f {
      FleetTableRows(table, f);
    }
    var fleets := Fleets(table);
    StrLtIsStrictTotalOrder();
    SortedIsDistinct(fleets, StrLt);
    GroupsOfDistinctFleets(table, fleets);
    forall x ensures multiset(GroupedRows(table, fleets))[x] == multiset(table.rows)[x] {
      if x in table.rows {
        assert x.key.fleet in fleets;
      } else {
        assert multiset(table.rows)[x] == 0;
      }
    }
  }

  /** The directory after the groups of `fleets` are written over `dir`, one after
      the other, each file overwriting any file of the same name. */
  function Written(dir: map<string, Table>, table: Table, fleets: seq<string>): map<string, Table>
  {
    if fleets == [] then dir
    else
      var n := |fleets| - 1;
      Written(dir, table, fleets[..n])[FileName(fleets[n]) := FleetTable(table, fleets[n])]
  }

  /** Writing one more group updates exactly that group's file. */
  lemma WrittenStep(dir: map<string, Table>, table: Table, fleets: seq<string>, i: int)
    requires 0 <= i < |fleets|
    ensures Written(dir, table, fleets[..i + 1]) == Written(dir, table, fleets[..i])[FileName(fleets[i]) := FleetTable(table, fleets[i])]
  {
    assert fleets[..i + 1][..i] == fleets[..i];
  }

  /** The directory holds the files it held and one file per fleet name. */
  lemma {:induction false} WrittenNames(dir: map<string, Table>, table: Table, fleets: seq<string>)
    ensures forall n :: n in Written(dir, table, fleets) <==> n in dir || exists f :: f in fleets && FileName(f) == n
  {
    if fleets != [] {
      var k := |fleets| - 1;
      WrittenNames(dir, table, fleets[..k]);
      assert forall f :: f in fleets <==> f in fleets[..k] || f == fleets[k];
    }
  }

  /** A file no fleet maps to keeps its old contents. */
  lemma {:induction false} WrittenKeepsOthers(dir: map<string, Table>, table: Table, fleets: seq<string>, n: string)
    requires n in dir && forall f :: f in fleets ==> FileName(f) != n
    ensures n in Written(dir, table, fleets) && Written(dir, table, fleets)[n] == dir[n]
  {
    if fleets != [] {
      var k := |fleets| - 1;
      assert fleets[k] in fleets;
      WrittenKeepsOthers(dir, table, fleets[..k], n);
    }
  }

  /** The file of the last fleet with a given file name holds that fleet's group. */
  lemma {:induction false} WrittenLastWins(dir: map<string, Table>, table: Table, fleets: seq<string>, j: int)
    requires 0 <= j < |fleets|
    requires forall j' :: j < j' < |fleets| ==> FileName(fleets[j']) != FileName(fleets[j])
    ensures FileName(fleets[j]) in Written(dir, table, fleets)
    ensures Written(dir, table, fleets)[FileName(fleets[j])] == FleetTable(table, fleets[j])
  {
    var k := |fleets| - 1;
    if j < k {
      var prefix := fleets[..k];
      assert prefix[j] == fleets[j];
      assert forall j' :: j < j' < k ==> prefix[j'] == fleets[j'];
      WrittenLastWins(dir, table, prefix, j);
    }
  }

  /** Over fleets in strictly increasing order, the file a later fleet does not overwrite
      holds its group. */
  lemma SortedLastWins(dir: map<string, Table>, table: Table, fleets: seq<string>, f: string)
    requires StrictlySorted(fleets, StrLt)
    requires f in fleets && forall g :: g in fleets && StrLt(f, g) ==> FileName(g) != FileName(f)
    ensures FileName(f) in Written(dir, table, fleets)
    ensures Written(dir, table, fleets)[FileName(f)] == FleetTable(table, f)
  {
    var j :| 0 <= j < |fleets| && fleets[j] == f;
    forall j' | j < j' < |fleets| ensures FileName(fleets[j']) != FileName(fleets[j]) {
      assert StrLt(fleets[j], fleets[j']) && fleets[j'] in fleets;
    }
    WrittenLastWins(dir, table, fleets, j);
  }

  /** What the directory holds once every fleet of a strictly increasing sequence has
      had its group written. */
  lemma WrittenSpec(dir: map<string, Table>, table: Table, fleets: seq<string>)
    requires StrictlySorted(fleets, StrLt)
    ensures forall n :: n in Written(dir, table, fleets) <==> n in dir || exists f :: f in fleets && FileName(f) == n
    ensures forall n :: n in dir && (forall f :: f in fleets ==> FileName(f) != n) ==> Written(dir, table, fleets)[n] == dir[n]
    ensures forall f :: f in fleets && (forall g :: g in fleets && StrLt(f, g) ==> FileName(g) != FileName(f))
                        ==> Written(dir, table, fleets)[FileName(f)] == FleetTable(table, f)
  {
    WrittenNames(dir, table, fleets);
    forall n | n in dir && (forall f :: f in fleets ==> FileName(f) != n)
      ensures Written(dir, table, fleets)[n] == dir[n]
    {
      WrittenKeepsOthers(dir, table, fleets, n);
    }
    forall f | f in fleets && (forall g :: g in fleets && StrLt(f, g) ==> FileName(g) != FileName(f))
      ensures Written(dir, table, fleets)[FileName(f)] == FleetTable(table, f)
    {
      SortedLastWins(dir, table, fleets, f);
    }
  }

  /** Lines 56-60: writes each fleet's group to its file name, in group order, over
      whatever the directory held. The directory afterwards holds its old files and one
      file per fleet name; a file no fleet maps to is untouched; and when several fleets
      share a file name, the file holds the group of the greatest of them, the last written. */
  method WriteFleetFiles(table: Table, dir: map<string, Table>) returns (files: map<string, Table>)
    ensures files == Written(dir, table, Fleets(table))
    ensures forall n :: n in files <==> n in dir || exists f :: f in Fleets(table) && FileName(f) == n
    ensures forall n :: n in dir && (forall f :: f in Fleets(table) ==> FileName(f) != n) ==> files[n] == dir[n]
    ensures forall f :: f in Fleets(table) && (forall g :: g in Fleets(table) && StrLt(f, g) ==> FileName(g) != FileName(f))
                        ==> files[FileName(f)] == FleetTable(table, f)
  {
    var fleets := Fleets(table);
    files := dir;
    for i := 0 to |fleets|
      invariant files == Written(dir, table, fleets[..i])
    {
      WrittenStep(dir, table, fleets, i);
      files := files[FileName(fleets[i]) := FleetTable(table, fleets[i])];
    }
    assert fleets[..|fleets|] == fleets;
    WrittenSpec(dir, table, fleets);
  }
}
