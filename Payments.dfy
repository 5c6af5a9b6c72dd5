/** The non-cash payment counts: the payment column is split on ',', exploded into
    one row per token, the exact token "cash" is dropped, and the remaining rows are
    counted per (fleet, contract, driver, token) and pivoted into one column per token. */
module Payments {
  import opened Cells
  import opened Ordering
  import opened Sequences
  import opened Splitting
  import opened Trips

  /** Line 33: the placeholder '-' becomes a missing value. */
  function NormalizePayment(c: Cell): Cell
  {
    if c == Text("-") then Missing else c
  }

  /** The tokens a payment cell holds: nothing when it is missing or '-', otherwise
      its text split on ',' with no trimming. */
  function TokensOf(c: Cell): seq<string>
  {
    match NormalizePayment(c)
    case Missing => []
    case Text(s) => Split(s, ',')
  }

  /** Splitting keeps the spaces around the separator, and a placeholder or a missing
      cell holds no token. */
  lemma TokensOfExamples()
    ensures TokensOf(Text("cash, app")) == ["cash", " app"]
    ensures TokensOf(Text("-")) == [] && TokensOf(Missing) == []
  {
    var tokens := ["cash", " app"];
    assert Join(tokens[1..], ',') == " app";
    assert Join(tokens, ',') == "cash, app";
    SplitJoin(tokens, ',');
  }

  /** Copies of `r`, one per token, each holding that token as its payment value. */
  function WithTokens(r: Row, tokens: seq<string>): seq<Row>
  {
    if tokens == [] then []
    else [r.(payment := Text(tokens[0]))] + WithTokens(r, tokens[1..])
  }

  /** Lines 34-37 for one row; a missing payment value stays one row with a missing token. */
  function ExplodeRow(r: Row): seq<Row>
  {
    match NormalizePayment(r.payment)
    case Missing => [r.(payment := Missing)]
    case Text(s) => WithTokens(r, Split(s, ','))
  }

  function Explode(rows: seq<Row>): seq<Row>
  {
    if rows == [] then [] else ExplodeRow(rows[0]) + Explode(rows[1..])
  }

  /** Line 40: keeps every row whose token is not exactly "cash" (a missing token is kept). */
  predicate NotCash(r: Row)
  {
    r.payment != Text("cash")
  }

  /** Line 43, the size of group (k, t): rows with key `k` and token `t`. */
  function Count(rows: seq<Row>, k: Key, t: string): nat
  {
    if rows == [] then 0
    else (if KeyOf(rows[0]) == Some(k) && rows[0].payment == Text(t) then 1 else 0) + Count(rows[1..], k, t)
  }

  /** How often `t` occurs in the token lists of the rows with key `k`. */
  function Occurrences(rows: seq<Row>, k: Key, t: string): nat
  {
    if rows == [] then 0
    else (if KeyOf(rows[0]) == Some(k) then multiset(TokensOf(rows[0].payment))[t] else 0)
         + Occurrences(rows[1..], k, t)
  }

  /** Some row with key `k` lists token `t`. */
  ghost predicate HasToken(rows: seq<Row>, k: Key, t: string)
  {
    exists r :: r in rows && KeyOf(r) == Some(k) && t in TokensOf(r.payment)
  }

  /** Some row with key `k` lists a token other than "cash". */
  ghost predicate PaysByToken(rows: seq<Row>, k: Key)
  {
    exists t :: t != "cash" && HasToken(rows, k, t)
  }

  lemma {:induction false} CountAppend(a: seq<Row>, b: seq<Row>, k: Key, t: string)
    ensures Count(a + b, k, t) == Count(a, k, t) + Count(b, k, t)
  {
    if a != [] {
      CountAppend(a[1..], b, k, t);
      assert (a + b)[1..] == a[1..] + b;
    } else {
      assert a + b == b;
    }
  }

  lemma {:induction false} CountWithTokens(r: Row, tokens: seq<string>, k: Key, t: string)
    ensures Count(WithTokens(r, tokens), k, t) == if KeyOf(r) == Some(k) then multiset(tokens)[t] else 0
  {
    if tokens != [] {
      CountWithTokens(r, tokens[1..], k, t);
      assert tokens == [tokens[0]] + tokens[1..];
    }
  }

  /** Exploding turns token occurrences into rows: a token listed twice in one trip is counted twice. */
  lemma {:induction false} CountExplode(rows: seq<Row>, k: Key, t: string)
    ensures Count(Explode(rows), k, t) == Occurrences(rows, k, t)
  {
    if rows != [] {
      CountExplode(rows[1..], k, t);
      CountAppend(ExplodeRow(rows[0]), Explode(rows[1..]), k, t);
      match NormalizePayment(rows[0].payment)
      case Missing =>
      case Text(s) => CountWithTokens(rows[0], Split(s, ','), k, t);
    }
  }

  lemma {:induction false} CountDropCash(rows: seq<Row>, k: Key, t: string)
    ensures Count(Filter(rows, NotCash), k, t) == if t == "cash" then 0 else Count(rows, k, t)
  {
    if rows != [] {
      CountDropCash(rows[1..], k, t);
      if NotCash(rows[0]) {
        assert ([rows[0]] + Filter(rows[1..], NotCash))[1..] == Filter(rows[1..], NotCash);
      }
    }
  }

  /** The groupby count of (k, t) is the number of occurrences of `t` in the token
      lists of group `k`, and 0 for "cash". */
  lemma TokenCountsAreOccurrences(rows: seq<Row>, k: Key, t: string)
    ensures Count(Filter(Explode(rows), NotCash), k, t) == if t == "cash" then 0 else Occurrences(rows, k, t)
  {
    CountDropCash(Explode(rows), k, t);
    CountExplode(rows, k, t);
  }

  lemma {:induction false} CountPositive(rows: seq<Row>, k: Key, t: string)
    ensures Count(rows, k, t) > 0 <==> exists y :: y in rows && KeyOf(y) == Some(k) && y.payment == Text(t)
  {
    if rows != [] {
      CountPositive(rows[1..], k, t);
      assert forall y :: y in rows <==> y == rows[0] || y in rows[1..];
    }
  }

  lemma {:induction false} OccurrencesPositive(rows: seq<Row>, k: Key, t: string)
    ensures Occurrences(rows, k, t) > 0 <==> HasToken(rows, k, t)
  {
    if rows != [] {
      OccurrencesPositive(rows[1..], k, t);
      assert forall y :: y in rows <==> y == rows[0] || y in rows[1..];
    }
  }

  /** The tokens of the rows that have a key and a token value. */
  function TokenList(rows: seq<Row>): (tokens: seq<string>)
    ensures forall t :: t in tokens <==> exists y :: y in rows && KeyOf(y).Some? && y.payment == Text(t)
  {
    if rows == [] then []
    else
      assert forall y :: y in rows <==> y == rows[0] || y in rows[1..];
      var rest := TokenList(rows[1..]);
      if KeyOf(rows[0]).Some? && rows[0].payment.Text? then [rows[0].payment.s] + rest else rest
  }

  /** The pivoted counts: the sorted token columns and, for every key, one count per column. */
  datatype PaymentCounts = PaymentCounts(methods: seq<string>, counts: map<Key, seq<nat>>)
  {
    ghost predicate Valid()
    {
      forall k :: k in counts ==> |counts[k]| == |methods|
    }
  }

  /** Line 43, `.size().unstack(fill_value=0)`: groups with a missing key or token
      are dropped; columns are the observed tokens in ascending order; a key is a
      row of the pivot when it has at least one token; unobserved pairs count 0. */
  function Pivot(rows: seq<Row>): (p: PaymentCounts)
    ensures p.Valid()
    ensures StrictlySorted(p.methods, StrLt)
    ensures forall t :: t in p.methods <==> exists y :: y in rows && KeyOf(y).Some? && y.payment == Text(t)
    ensures forall k :: k in p.counts <==> exists y :: y in rows && KeyOf(y) == Some(k) && y.payment.Text?
    ensures forall k, j :: k in p.counts && 0 <= j < |p.methods| ==> p.counts[k][j] == Count(rows, k, p.methods[j])
  {
    StrLtIsStrictTotalOrder();
    var methods := SortedDistinct(TokenList(rows), StrLt);
    var keys := set y | y in rows && KeyOf(y).Some? && y.payment.Text? :: KeyOf(y).value;
    PaymentCounts(methods, map k | k in keys :: seq(|methods|, j requires 0 <= j < |methods| => Count(rows, k, methods[j])))
  }

  /** A token row (k, t) survives the explode and the "cash" filter exactly when
      `t` is not "cash" and some row with key `k` lists `t`. */
  lemma TokenRowIff(rows: seq<Row>, k: Key, t: string)
    ensures (exists y :: y in Filter(Explode(rows), NotCash) && KeyOf(y) == Some(k) && y.payment == Text(t))
            <==> t != "cash" && HasToken(rows, k, t)
  {
    CountPositive(Filter(Explode(rows), NotCash), k, t);
    TokenCountsAreOccurrences(rows, k, t);
    OccurrencesPositive(rows, k, t);
  }

  /** Some keyed row lists token `t`. */
  ghost predicate ListsToken(rows: seq<Row>, t: string)
  {
    exists k :: HasToken(rows, k, t)
  }

  /** Some row of the token rows has a key and token `t`. */
  ghost predicate TokenColumn(tokens: seq<Row>, t: string)
  {
    exists y :: y in tokens && KeyOf(y).Some? && y.payment == Text(t)
  }

  lemma PivotColumnFromRows(rows: seq<Row>, t: string)
    ensures TokenColumn(Filter(Explode(rows), NotCash), t) <==> t != "cash" && ListsToken(rows, t)
  {
    var tokens := Filter(Explode(rows), NotCash);
    if TokenColumn(tokens, t) {
      var y :| y in tokens && KeyOf(y).Some? && y.payment == Text(t);
      TokenRowIff(rows, KeyOf(y).value, t);
    }
    if t != "cash" && ListsToken(rows, t) {
      var k :| HasToken(rows, k, t);
      TokenRowIff(rows, k, t);
    }
  }

  lemma PivotKeysFromRows(rows: seq<Row>)
    ensures forall k :: (exists y :: y in Filter(Explode(rows), NotCash) && KeyOf(y) == Some(k) && y.payment.Text?)
                        <==> PaysByToken(rows, k)
  {
    var tokens := Filter(Explode(rows), NotCash);
    forall k ensures (exists y :: y in tokens && KeyOf(y) == Some(k) && y.payment.Text?) <==> PaysByToken(rows, k)
    {
      if y :| y in tokens && KeyOf(y) == Some(k) && y.payment.Text? {
        TokenRowIff(rows, k, y.payment.s);
      }
      if t :| t != "cash" && HasToken(rows, k, t) {
        TokenRowIff(rows, k, t);
      }
    }
  }

  /** Lines 33-43 together, stated in terms of the completed rows: no "cash" column;
      a column per other token that some keyed row lists; a pivot row per key whose
      rows list a non-cash token; each cell the number of occurrences of its token. */
  function PaymentTable(rows: seq<Row>): (p: PaymentCounts)
    ensures p.Valid() && StrictlySorted(p.methods, StrLt)
    ensures "cash" !in p.methods
    ensures forall t :: t in p.methods <==> t != "cash" && ListsToken(rows, t)
    ensures forall k :: k in p.counts <==> PaysByToken(rows, k)
    ensures forall k, j :: k in p.counts && 0 <= j < |p.methods| ==> p.counts[k][j] == Occurrences(rows, k, p.methods[j])
  {
    var tokens := Filter(Explode(rows), NotCash);
    var p := Pivot(tokens);
    assert forall t :: t in p.methods <==> t != "cash" && ListsToken(rows, t) by {
      forall t ensures t in p.methods <==> t != "cash" && ListsToken(rows, t) {
        assert t in p.methods <==> TokenColumn(tokens, t);
        PivotColumnFromRows(rows, t);
      }
    }
    PivotKeysFromRows(rows);
    assert forall k, j :: k in p.counts && 0 <= j < |p.methods| ==> p.counts[k][j] == Occurrences(rows, k, p.methods[j]) by {
      forall k, j | k in p.counts && 0 <= j < |p.methods|
        ensures p.counts[k][j] == Occurrences(rows, k, p.methods[j])
      {
        TokenCountsAreOccurrences(rows, k, p.methods[j]);
      }
    }
    p
  }

  /** Converting the cash column changes no token count. */
  lemma {:induction false} FillCashKeepsOccurrences(rows: seq<Row>, k: Key, t: string)
    ensures Occurrences(FillCash(rows), k, t) == Occurrences(rows, k, t)
  {
    if rows != [] {
      FillCashKeepsOccurrences(rows[1..], k, t);
      assert FillCash(rows)[1..] == FillCash(rows[1..]);
    }
  }

  /** Converting the cash column changes no row's key or tokens. */
  lemma FillCashKeepsHasToken(rows: seq<Row>, k: Key, t: string)
    ensures HasToken(FillCash(rows), k, t) <==> HasToken(rows, k, t)
  {
    FillCashKeepsOccurrences(rows, k, t);
    OccurrencesPositive(FillCash(rows), k, t);
    OccurrencesPositive(rows, k, t);
  }

  /** Converting the cash column changes no token and no count. */
  lemma FillCashKeepsTokens(rows: seq<Row>)
    ensures forall k, t :: Occurrences(FillCash(rows), k, t) == Occurrences(rows, k, t)
    ensures forall k, t :: HasToken(FillCash(rows), k, t) <==> HasToken(rows, k, t)
  {
    forall k, t
      ensures Occurrences(FillCash(rows), k, t) == Occurrences(rows, k, t)
      ensures HasToken(FillCash(rows), k, t) <==> HasToken(rows, k, t)
    {
      FillCashKeepsOccurrences(rows, k, t);
      FillCashKeepsHasToken(rows, k, t);
    }
  }

  /** The payment table of the rows after their cash column is filled, stated in
      terms of the rows before. */
  lemma FillCashKeepsPaymentTable(rows: seq<Row>)
    ensures forall t :: t in PaymentTable(FillCash(rows)).methods <==> t != "cash" && ListsToken(rows, t)
    ensures forall k :: k in PaymentTable(FillCash(rows)).counts <==> PaysByToken(rows, k)
    ensures forall k, j :: k in PaymentTable(FillCash(rows)).counts && 0 <= j < |PaymentTable(FillCash(rows)).methods| ==>
      PaymentTable(FillCash(rows)).counts[k][j] == Occurrences(rows, k, PaymentTable(FillCash(rows)).methods[j])
  {
    var filled := FillCash(rows);
    FillCashKeepsTokens(rows);
    assert forall k :: PaysByToken(filled, k) <==> PaysByToken(rows, k) by {
      forall k ensures PaysByToken(filled, k) <==> PaysByToken(rows, k) {
        if PaysByToken(filled, k) {
          var t :| t != "cash" && HasToken(filled, k, t);
        }
        if PaysByToken(rows, k) {
          var t :| t != "cash" && HasToken(rows, k, t);
        }
      }
    }
    assert forall t :: ListsToken(filled, t) <==> ListsToken(rows, t) by {
      forall t ensures ListsToken(filled, t) <==> ListsToken(rows, t) {
        if ListsToken(filled, t) {
          var k :| HasToken(filled, k, t);
        }
        if ListsToken(rows, t) {
          var k :| HasToken(rows, k, t);
        }
      }
    }
  }
}
