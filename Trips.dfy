/** Trip rows: the contract column, the completed-trip filter and the cash summary
    grouped by (fleet, contract, driver). */
module Trips {
  import opened Cells
  import opened Ordering
  import opened Sequences
  import opened Contracts

  /** One input row with the columns the program reads. */
  datatype Trip = Trip(
    vehicle: Cell, status: Cell, fleet: Cell, driver: Cell,
    cash: Cash, payment: Cell, riderId: Cell, riderName: Cell)

  /** A row after the contract column is added and the two rider columns are dropped. */
  datatype Row = Row(
    vehicle: Cell, status: Cell, fleet: Cell, contract: string, driver: Cell,
    cash: Cash, payment: Cell)

  /** The grouping key (fleet name, contract, driver name). */
  datatype Key = Key(fleet: string, contract: string, driver: string)

  /** Tuple order on keys, the order of the grouped rows. */
  predicate KeyLt(a: Key, b: Key)
  {
    || StrLt(a.fleet, b.fleet)
    || (a.fleet == b.fleet && StrLt(a.contract, b.contract))
    || (a.fleet == b.fleet && a.contract == b.contract && StrLt(a.driver, b.driver))
  }

  lemma KeyLtIsStrictTotalOrder()
    ensures IsStrictTotalOrder(KeyLt)
  {
    StrLtIsStrictTotalOrder();
  }

  /** Adds the contract of the trip's vehicle and drops the rider columns. */
  function Enrich(mapping: map<string, string>, t: Trip): Row
  {
    Row(t.vehicle, t.status, t.fleet, GetContract(mapping, t.vehicle), t.driver, t.cash, t.payment)
  }

  function EnrichAll(mapping: map<string, string>, trips: seq<Trip>): (rows: seq<Row>)
  {
    seq(|trips|, i requires 0 <= i < |trips| => Enrich(mapping, trips[i]))
  }

  /** The trip-status mask: equal to exactly "completed". */
  predicate IsCompleted(r: Row)
  {
    r.status == Text("completed")
  }

  /** The completed trips, every one carrying its contract. */
  function CompletedRows(mapping: map<string, string>, trips: seq<Trip>): seq<Row>
  {
    Filter(EnrichAll(mapping, trips), IsCompleted)
  }

  /** A row reaches the aggregates exactly when it comes from a trip whose status
      is exactly "completed", and it carries the contract looked up for that trip. */
  lemma CompletedRowsExact(mapping: map<string, string>, trips: seq<Trip>)
    ensures forall r :: r in CompletedRows(mapping, trips) <==>
      exists i :: 0 <= i < |trips| && trips[i].status == Text("completed") && r == Enrich(mapping, trips[i])
    ensures forall r :: r in CompletedRows(mapping, trips) ==> r.contract == GetContract(mapping, r.vehicle)
  {
    var rows := EnrichAll(mapping, trips);
    forall r ensures r in CompletedRows(mapping, trips) <==> r in rows && IsCompleted(r) {
      assert r in CompletedRows(mapping, trips) <==> multiset(CompletedRows(mapping, trips))[r] > 0;
    }
    forall r | r in rows ensures exists i :: 0 <= i < |trips| && r == Enrich(mapping, trips[i]) {
      var i :| 0 <= i < |rows| && rows[i] == r;
    }
    forall i | 0 <= i < |trips| ensures Enrich(mapping, trips[i]) in rows {
      assert rows[i] == Enrich(mapping, trips[i]);
    }
  }

  /** Lines 22-26: the placeholder '-' and a blank cell both count as 0. */
  function CashAmount(c: Cash): real
  {
    match c
    case Amount(v) => v
    case _ => 0.0
  }

  /** The cash column after it is converted and its missing values are filled with 0. */
  function FillCash(rows: seq<Row>): (filled: seq<Row>)
    ensures |filled| == |rows|
    ensures forall i :: 0 <= i < |rows| ==> filled[i] == rows[i].(cash := Amount(CashAmount(rows[i].cash)))
  {
    if rows == [] then []
    else [rows[0].(cash := Amount(CashAmount(rows[0].cash)))] + FillCash(rows[1..])
  }

  /** The grouping key of a row; groupby drops a row whose fleet or driver is missing. */
  function KeyOf(r: Row): Option<Key>
  {
    if r.fleet.Text? && r.driver.Text? then Some(Key(r.fleet.s, r.contract, r.driver.s)) else None
  }

  ghost predicate HasKey(rows: seq<Row>, k: Key)
  {
    exists x :: x in rows && KeyOf(x) == Some(k)
  }

  /** The keys of the grouped rows, in row order and with repetitions. */
  function RowKeys(rows: seq<Row>): (keys: seq<Key>)
    ensures forall k :: k in keys <==> HasKey(rows, k)
  {
    if rows == [] then []
    else
      assert forall x :: x in rows <==> x == rows[0] || x in rows[1..];
      var rest := RowKeys(rows[1..]);
      match KeyOf(rows[0])
      case Some(k) => [k] + rest
      case None => rest
  }

  /** The cash of the rows with key `k`. */
  function SumCash(rows: seq<Row>, k: Key): real
  {
    if rows == [] then 0.0
    else (if KeyOf(rows[0]) == Some(k) then CashAmount(rows[0].cash) else 0.0) + SumCash(rows[1..], k)
  }

  /** One row of the cash summary: the key columns and `cash`. */
  datatype SummaryRow = SummaryRow(key: Key, cash: real)

  function Summarize(rows: seq<Row>, keys: seq<Key>): (summary: seq<SummaryRow>)
    ensures |summary| == |keys|
    ensures forall i :: 0 <= i < |keys| ==> summary[i] == SummaryRow(keys[i], SumCash(rows, keys[i]))
  {
    if keys == [] then []
    else [SummaryRow(keys[0], SumCash(rows, keys[0]))] + Summarize(rows, keys[1..])
  }

  /** Lines 29-30: one row per distinct key, in ascending key order, with the
      sum of that group's cash. */
  function CashSummary(rows: seq<Row>): (summary: seq<SummaryRow>)
    ensures forall i, j :: 0 <= i < j < |summary| ==> KeyLt(summary[i].key, summary[j].key)
    ensures forall i, j :: 0 <= i < |summary| && 0 <= j < |summary| && i != j ==> summary[i].key != summary[j].key
    ensures forall k :: (exists i :: 0 <= i < |summary| && summary[i].key == k) <==> HasKey(rows, k)
    ensures forall i :: 0 <= i < |summary| ==> summary[i].cash == SumCash(rows, summary[i].key)
  {
    KeyLtIsStrictTotalOrder();
    var keys := SortedDistinct(RowKeys(rows), KeyLt);
    SortedIsDistinct(keys, KeyLt);
    Summarize(rows, keys)
  }

  /** Converting and filling the cash column changes no group and no sum. */
  lemma {:induction false} FillCashKeepsSummary(rows: seq<Row>)
    ensures CashSummary(FillCash(rows)) == CashSummary(rows)
  {
    FillCashKeepsKeysAndSums(rows);
  }

  lemma {:induction false} FillCashKeepsKeysAndSums(rows: seq<Row>)
    ensures RowKeys(FillCash(rows)) == RowKeys(rows)
    ensures forall k :: SumCash(FillCash(rows), k) == SumCash(rows, k)
  {
    if rows != [] {
      FillCashKeepsKeysAndSums(rows[1..]);
      assert FillCash(rows)[1..] == FillCash(rows[1..]);
    }
  }

  /** The cash of all rows that have a complete key. */
  function KeyedCash(rows: seq<Row>): real
  {
    if rows == [] then 0.0
    else (if KeyOf(rows[0]).Some? then CashAmount(rows[0].cash) else 0.0) + KeyedCash(rows[1..])
  }

  function SummaryCash(summary: seq<SummaryRow>): real
  {
    if summary == [] then 0.0 else summary[0].cash + SummaryCash(summary[1..])
  }

  /** What row `r` adds to the summaries of `keys`. */
  function Share(r: Row, keys: seq<Key>): real
  {
    if keys == [] then 0.0
    else (if KeyOf(r) == Some(keys[0]) then CashAmount(r.cash) else 0.0) + Share(r, keys[1..])
  }

  lemma {:induction false} SummarizeHead(r: Row, rows: seq<Row>, keys: seq<Key>)
    ensures SummaryCash(Summarize([r] + rows, keys)) == Share(r, keys) + SummaryCash(Summarize(rows, keys))
  {
    if keys != [] {
      SummarizeHead(r, rows, keys[1..]);
      assert ([r] + rows)[1..] == rows;
    }
  }

  lemma {:induction false} ShareOfDistinctKeys(r: Row, keys: seq<Key>)
    requires forall i, j :: 0 <= i < j < |keys| ==> keys[i] != keys[j]
    requires KeyOf(r).Some? ==> KeyOf(r).value in keys
    ensures Share(r, keys) == if KeyOf(r).Some? then CashAmount(r.cash) else 0.0
  {
    if keys != [] {
      if KeyOf(r) == Some(keys[0]) {
        assert KeyOf(r).value !in keys[1..];
        ShareOfAbsentKey(r, keys[1..]);
      } else {
        ShareOfDistinctKeys(r, keys[1..]);
      }
    }
  }

  lemma {:induction false} ShareOfAbsentKey(r: Row, keys: seq<Key>)
    requires KeyOf(r).Some? ==> KeyOf(r).value !in keys
    ensures Share(r, keys) == 0.0
  {
    if keys != [] {
      ShareOfAbsentKey(r, keys[1..]);
    }
  }

  /** Summing per key over distinct keys that cover every group counts each row's cash once. */
  lemma {:induction false} SummarizeConservesCash(rows: seq<Row>, keys: seq<Key>)
    requires forall i, j :: 0 <= i < j < |keys| ==> keys[i] != keys[j]
    requires forall k :: HasKey(rows, k) ==> k in keys
    ensures SummaryCash(Summarize(rows, keys)) == KeyedCash(rows)
  {
    if rows == [] {
      SummarizeNothing(keys);
    } else {
      var r, rest := rows[0], rows[1..];
      assert rows == [r] + rest;
      assert forall k :: HasKey(rest, k) ==> HasKey(rows, k) by {
        forall k | HasKey(rest, k) ensures HasKey(rows, k) {
          var x :| x in rest && KeyOf(x) == Some(k);
          assert x in rows;
        }
      }
      SummarizeConservesCash(rest, keys);
      SummarizeHead(r, rest, keys);
      if KeyOf(r).Some? {
        assert HasKey(rows, KeyOf(r).value);
      }
      ShareOfDistinctKeys(r, keys);
    }
  }

  lemma {:induction false} SummarizeNothing(keys: seq<Key>)
    ensures SummaryCash(Summarize([], keys)) == 0.0
  {
    if keys != [] {
      SummarizeNothing(keys[1..]);
    }
  }

  /** The cash summary neither loses nor double-counts cash: its `cash` column adds
      up to the cash of every row that has a complete key. */
  lemma CashSummaryConservesCash(rows: seq<Row>)
    ensures SummaryCash(CashSummary(rows)) == KeyedCash(rows)
  {
    KeyLtIsStrictTotalOrder();
    var keys := SortedDistinct(RowKeys(rows), KeyLt);
    SortedIsDistinct(keys, KeyLt);
    SummarizeConservesCash(rows, keys);
  }
}
