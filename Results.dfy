/** The combined table: the cash summary left-joined with the payment counts. */
module Results {
  import opened Cells
  import opened Trips
  import opened Payments

  /** One output row: the key columns, `cash`, and one cell per token column
      (None where the joined cell is missing). */
  datatype ResultRow = ResultRow(key: Key, cash: real, methods: seq<Option<nat>>)

  /** An output table: the token column names and the rows. */
  datatype Table = Table(methods: seq<string>, rows: seq<ResultRow>)

  function JoinRow(s: SummaryRow, p: PaymentCounts): (r: ResultRow)
    requires p.Valid()
  {
    var cells := if s.key in p.counts
      then seq(|p.methods|, j requires 0 <= j < |p.methods| => Some(p.counts[s.key][j]))
      else seq(|p.methods|, j requires 0 <= j < |p.methods| => None);
    ResultRow(s.key, s.cash, cells)
  }

  /** Line 46: a left join on the key. Every summary row is kept, in its order, and
      nothing else is added; a key absent from the counts gets missing cells, not 0. */
  function Combine(summary: seq<SummaryRow>, p: PaymentCounts): (t: Table)
    requires p.Valid()
    ensures t.methods == p.methods && |t.rows| == |summary|
    ensures forall i :: 0 <= i < |summary| ==>
      t.rows[i].key == summary[i].key && t.rows[i].cash == summary[i].cash && |t.rows[i].methods| == |p.methods|
    ensures forall i, j :: 0 <= i < |summary| && 0 <= j < |p.methods| ==>
      t.rows[i].methods[j] == if summary[i].key in p.counts then Some(p.counts[summary[i].key][j]) else None
  {
    Table(p.methods, seq(|summary|, i requires 0 <= i < |summary| => JoinRow(summary[i], p)))
  }

  /** The join drops no counted driver: every key of the payment counts, built from
      the same rows as the cash summary, is a key of the summary. */
  lemma JoinDropsNoPaymentRow(rows: seq<Row>, k: Key)
    requires k in PaymentTable(rows).counts
    ensures exists i :: 0 <= i < |CashSummary(rows)| && CashSummary(rows)[i].key == k
  {
    assert PaysByToken(rows, k);
    PaidKeyIsKey(rows, k);
    KeyHasSummaryRow(rows, k);
  }

  lemma KeyHasSummaryRow(rows: seq<Row>, k: Key)
    requires HasKey(rows, k)
    ensures exists i :: 0 <= i < |CashSummary(rows)| && CashSummary(rows)[i].key == k
  {
    var summary := CashSummary(rows);
    assert exists i :: 0 <= i < |summary| && summary[i].key == k;
  }

  lemma PaidKeyIsKey(rows: seq<Row>, k: Key)
    requires PaysByToken(rows, k)
    ensures HasKey(rows, k)
  {
    var t :| t != "cash" && HasToken(rows, k, t);
    var r :| r in rows && KeyOf(r) == Some(k) && t in TokensOf(r.payment);
  }
}
