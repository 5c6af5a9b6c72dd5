/** process_file: the whole transformation from the uploaded trips to the combined
    table and the per-fleet files, step by step as the program rewrites its frame. */
module FleetData {
  import opened Cells
  import opened Ordering
  import opened Sequences
  import opened Trips
  import opened Payments
  import opened Results
  import opened FleetFiles

  /** The key and cash columns of `all` for the grouped `rows`: one row per
      (fleet, contract, driver) key of the rows, in ascending key order, holding the
      key's cash sum. */
  ghost predicate CashColumns(all: Table, rows: seq<Row>)
  {
    && (forall i, j :: 0 <= i < j < |all.rows| ==> KeyLt(all.rows[i].key, all.rows[j].key))
    && (forall k :: (exists i :: 0 <= i < |all.rows| && all.rows[i].key == k) <==> HasKey(rows, k))
    && (forall i :: 0 <= i < |all.rows| ==> all.rows[i].cash == SumCash(rows, all.rows[i].key))
  }

  /** The token columns of `all` for the grouped `rows`: one column per token other
      than "cash" that a keyed row lists, in ascending order; in each cell the number of
      occurrences of that token in the group, or a missing cell for a group that lists
      no token other than "cash". */
  ghost predicate TokenColumns(all: Table, rows: seq<Row>)
  {
    && StrictlySorted(all.methods, StrLt) && "cash" !in all.methods
    && (forall t :: t in all.methods <==> t != "cash" && ListsToken(rows, t))
    && (forall i :: 0 <= i < |all.rows| ==> |all.rows[i].methods| == |all.methods|)
    && (forall i, j :: 0 <= i < |all.rows| && 0 <= j < |all.methods| ==>
          all.rows[i].methods[j] ==
            if PaysByToken(rows, all.rows[i].key) then Some(Occurrences(rows, all.rows[i].key, all.methods[j])) else None)
  }

  /** `mapping` is the vehicle -> contract dictionary; `dir` is what the output
      directory held before. Returns the combined table of the completed trips and the
      directory after every fleet's group is written to its file. */
  method ProcessFile(mapping: map<string, string>, trips: seq<Trip>, dir: map<string, Table>)
    returns (all: Table, files: map<string, Table>)
    ensures CashColumns(all, CompletedRows(mapping, trips))
    ensures TokenColumns(all, CompletedRows(mapping, trips))
    ensures files == Written(dir, all, Fleets(all))
  {
    var rows := EnrichAll(mapping, trips);        // contract column, rider columns dropped
    var completed := Filter(rows, IsCompleted);   // completed trips only
    ghost var raw := completed;
    completed := FillCash(completed);             // '-' and blanks become 0
    var summary := CashSummary(completed);
    var payments := PaymentTable(completed);
    all := Combine(summary, payments);
    files := WriteFleetFiles(all, dir);
    CombinedCashColumns(raw, all);
    CombinedTokenColumns(raw, all);
  }

  /** The key and cash columns of the combined table, in terms of the rows before
      their cash column was filled. */
  lemma CombinedCashColumns(rows: seq<Row>, all: Table)
    requires all == Combine(CashSummary(FillCash(rows)), PaymentTable(FillCash(rows)))
    ensures CashColumns(all, rows)
  {
    FillCashKeepsSummary(rows);
    JoinCashColumns(rows, PaymentTable(FillCash(rows)));
  }

  /** The left join keeps the summary's keys, order and sums. */
  lemma JoinCashColumns(rows: seq<Row>, p: PaymentCounts)
    requires p.Valid()
    ensures CashColumns(Combine(CashSummary(rows), p), rows)
  {
    var summary := CashSummary(rows);
    var all := Combine(summary, p);
    assert forall i :: 0 <= i < |all.rows| ==> all.rows[i].key == summary[i].key;
  }

  /** The token columns of the combined table, in terms of the rows before their cash
      column was filled. */
  lemma CombinedTokenColumns(rows: seq<Row>, all: Table)
    requires all == Combine(CashSummary(FillCash(rows)), PaymentTable(FillCash(rows)))
    ensures TokenColumns(all, rows)
  {
    FillCashKeepsPaymentTable(rows);
  }
}
