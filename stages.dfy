/** The whole-table stages of the transformation, each a function from rows to
    rows: the left join on the date key, the rate fill, the THB conversion, the
    date column and its formatting, the projection, duplicate removal and the
    quality filter. */
module Stages {
  import opened Wrappers
  import opened Dates
  import opened Masks
  import opened Records

  // ---------------------------------------------------------------------------
  // Left join on join_date = date

  /** Which rate rows carry the date `key` (null keys equal each other, as in a
      pandas merge). */
  function DateEquals(rates: seq<RateRow>, key: Option<string>): (m: seq<bool>)
    ensures |m| == |rates| && forall i | 0 <= i < |rates| :: m[i] == (rates[i].date == key)
  {
    seq(|rates|, i requires 0 <= i < |rates| => rates[i].date == key)
  }

  /** The rate rows whose date equals the transaction's join date, in rate-table order. */
  function Matches(t: TxRow, rates: seq<RateRow>): seq<RateRow> {
    Mask(rates, DateEquals(rates, t.joinDate))
  }

  /** The rows a left merge emits for one transaction row: at least one, each
      carrying that row, none with a THB amount yet. */
  function JoinRow(t: TxRow, rates: seq<RateRow>): (r: seq<JoinedRow>)
    ensures |r| >= 1
    ensures forall j | 0 <= j < |r| :: r[j].tx == t && r[j].thbAmount.None?
  {
    var ms := Matches(t, rates);
    if |ms| == 0 then [JoinedRow(t, None, None, None)]
    else seq(|ms|, k requires 0 <= k < |ms| => JoinedRow(t, ms[k].date, ms[k].gbpThb, None))
  }

  /** `tx.merge(rates, how = "left", left_on = "join_date", right_on = "date")`. */
  function LeftJoin(tx: seq<TxRow>, rates: seq<RateRow>): (r: seq<JoinedRow>)
    ensures |r| >= |tx|
  {
    if |tx| == 0 then [] else JoinRow(tx[0], rates) + LeftJoin(tx[1..], rates)
  }

  /** A transaction row no rate row matches yields exactly one row, with a null rate. */
  lemma JoinRowUnmatched(t: TxRow, rates: seq<RateRow>)
    requires forall i | 0 <= i < |rates| :: rates[i].date != t.joinDate
    ensures JoinRow(t, rates) == [JoinedRow(t, None, None, None)]
  {
    var m := DateEquals(rates, t.joinDate);
    MaskSpec(rates, m);
    PositionsNone(m);
  }

  /** A matched transaction row yields one row per rate row of its date, in
      rate-table order, each carrying that rate row's date and rate. */
  lemma JoinRowMatched(t: TxRow, rates: seq<RateRow>)
    requires exists i | 0 <= i < |rates| :: rates[i].date == t.joinDate
    ensures var p := Positions(DateEquals(rates, t.joinDate));
            && |JoinRow(t, rates)| == |p|
            && (forall i | 0 <= i < |rates| && rates[i].date == t.joinDate :: i in p)
            && forall j | 0 <= j < |p| ::
                 && p[j] < |rates| && rates[p[j]].date == t.joinDate
                 && JoinRow(t, rates)[j] == JoinedRow(t, rates[p[j]].date, rates[p[j]].gbpThb, None)
  {
    var m := DateEquals(rates, t.joinDate);
    var p := Positions(m);
    MaskSpec(rates, m);
    PositionsSpec(m);
    var i :| 0 <= i < |rates| && rates[i].date == t.joinDate;
    assert i in p;
  }

  /** A left join keeps every transaction row and invents none. */
  lemma {:induction false} LeftJoinKeepsEveryTransaction(tx: seq<TxRow>, rates: seq<RateRow>)
    ensures |LeftJoin(tx, rates)| >= |tx|
    ensures forall j | 0 <= j < |LeftJoin(tx, rates)| :: LeftJoin(tx, rates)[j].tx in tx
    ensures forall i | 0 <= i < |tx| :: exists j | 0 <= j < |LeftJoin(tx, rates)| :: LeftJoin(tx, rates)[j].tx == tx[i]
  {
    if |tx| > 0 {
      var head: seq<JoinedRow> := JoinRow(tx[0], rates);
      var rest: seq<JoinedRow> := LeftJoin(tx[1..], rates);
      LeftJoinKeepsEveryTransaction(tx[1..], rates);
      assert LeftJoin(tx, rates) == head + rest;
      forall j | 0 <= j < |head + rest| ensures (head + rest)[j].tx in tx {
        if j >= |head| {
          assert (head + rest)[j] == rest[j - |head|];
          assert rest[j - |head|].tx in tx[1..];
        }
      }
      forall i | 0 <= i < |tx| ensures exists j | 0 <= j < |head + rest| :: (head + rest)[j].tx == tx[i] {
        if i == 0 {
          assert (head + rest)[0].tx == tx[0];
        } else {
          assert tx[i] == tx[1..][i - 1];
          var j :| 0 <= j < |rest| && rest[j].tx == tx[1..][i - 1];
          assert (head + rest)[|head| + j] == rest[j];
        }
      }
    }
  }

  /** No two rate rows share a date, as the rate extract and its one-row
      fallback both supply. */
  predicate UniqueDates(rates: seq<RateRow>) {
    forall i, j | 0 <= i < j < |rates| :: rates[i].date != rates[j].date
  }

  /** The first rate row carrying date `key`, looked up directly. */
  function RateOn(rates: seq<RateRow>, key: Option<string>): (r: Option<RateRow>)
    ensures r.Some? ==> exists i | 0 <= i < |rates| ::
              rates[i] == r.value && r.value.date == key && forall j | 0 <= j < i :: rates[j].date != key
    ensures r.None? ==> forall i | 0 <= i < |rates| :: rates[i].date != key
  {
    if |rates| == 0 then None
    else if rates[0].date == key then Some(rates[0])
    else
      var r := RateOn(rates[1..], key);
      assert forall i | 1 <= i < |rates| :: rates[i] == rates[1..][i - 1];
      r
  }

  /** The row a left join produces for `t` when rate dates are unique. */
  function JoinedFor(t: TxRow, rates: seq<RateRow>): JoinedRow {
    match RateOn(rates, t.joinDate)
    case Some(r) => JoinedRow(t, r.date, r.gbpThb, None)
    case None => JoinedRow(t, None, None, None)
  }

  lemma JoinRowUniqueDates(t: TxRow, rates: seq<RateRow>)
    requires UniqueDates(rates)
    ensures JoinRow(t, rates) == [JoinedFor(t, rates)]
  {
    match RateOn(rates, t.joinDate)
    case None =>
      JoinRowUnmatched(t, rates);
    case Some(r) =>
      var i :| 0 <= i < |rates| && rates[i] == r && r.date == t.joinDate;
      var m := DateEquals(rates, t.joinDate);
      assert forall j | 0 <= j < |m| && j != i :: !m[j];
      PositionsSingle(m, i);
      JoinRowMatched(t, rates);
      assert JoinRow(t, rates)[0] == JoinedFor(t, rates);
  }

  /** With unique rate dates the join keeps length and order: row `i` of the
      result is transaction `i` beside the rate of its date, or nulls. */
  lemma {:induction false} LeftJoinUniqueDates(tx: seq<TxRow>, rates: seq<RateRow>)
    requires UniqueDates(rates)
    ensures |LeftJoin(tx, rates)| == |tx|
    ensures forall i | 0 <= i < |tx| :: LeftJoin(tx, rates)[i] == JoinedFor(tx[i], rates)
  {
    if |tx| > 0 {
      JoinRowUniqueDates(tx[0], rates);
      LeftJoinUniqueDates(tx[1..], rates);
      assert forall i | 1 <= i < |tx| :: tx[i] == tx[1..][i - 1];
    }
  }

  // ---------------------------------------------------------------------------
  // Rate fill and conversion

  /** `gbp_thb.fillna(42.0)`: every rate is present afterwards; a present rate is
      kept and a null one becomes the fallback; nothing else changes. */
  function FillRate(rows: seq<JoinedRow>): (r: seq<JoinedRow>)
    ensures |r| == |rows|
    ensures forall i | 0 <= i < |rows| ::
              && r[i].gbpThb.Some?
              && (rows[i].gbpThb.Some? ==> r[i].gbpThb == rows[i].gbpThb)
              && (rows[i].gbpThb.None? ==> r[i].gbpThb == Some(FallbackRate))
              && r[i].tx == rows[i].tx && r[i].rateDate == rows[i].rateDate
              && r[i].thbAmount == rows[i].thbAmount
  {
    seq(|rows|, i requires 0 <= i < |rows| =>
      rows[i].(gbpThb := Some(rows[i].gbpThb.GetOr(FallbackRate))))
  }

  /** Element-wise product of two nullable numbers; a null operand gives null. */
  function Times(a: Option<real>, b: Option<real>): (r: Option<real>)
    ensures r.Some? <==> a.Some? && b.Some?
    ensures r.Some? ==> r.value == a.value * b.value
  {
    if a.Some? && b.Some? then Some(a.value * b.value) else None
  }

  /** `thb_amount = total_amount * gbp_thb`, row by row; nothing else changes. */
  function Convert(rows: seq<JoinedRow>): (r: seq<JoinedRow>)
    ensures |r| == |rows|
    ensures forall i | 0 <= i < |rows| ::
              && r[i].thbAmount == Times(rows[i].tx.totalAmount, rows[i].gbpThb)
              && r[i].tx == rows[i].tx && r[i].rateDate == rows[i].rateDate
              && r[i].gbpThb == rows[i].gbpThb
  {
    seq(|rows|, i requires 0 <= i < |rows| =>
      rows[i].(thbAmount := Times(rows[i].tx.totalAmount, rows[i].gbpThb)))
  }

  /** After the fill and the conversion every rate is present, and the THB
      amount is the total times that rate exactly when the total is present. */
  lemma FilledConversion(rows: seq<JoinedRow>)
    ensures forall i | 0 <= i < |rows| ::
              && Convert(FillRate(rows))[i].gbpThb == Some(rows[i].gbpThb.GetOr(FallbackRate))
              && (rows[i].tx.totalAmount.Some? <==> Convert(FillRate(rows))[i].thbAmount.Some?)
              && (rows[i].tx.totalAmount.Some? ==>
                    Convert(FillRate(rows))[i].thbAmount.value
                      == rows[i].tx.totalAmount.value * Convert(FillRate(rows))[i].gbpThb.value)
  {
  }

  // ---------------------------------------------------------------------------
  // The date column

  /** The column named `date` after `date_x` is renamed to `date`: the
      transaction's own date when the transaction table had one, otherwise the
      rate table's key column (null where no rate matched). */
  function DateColumn(rows: seq<JoinedRow>, fromTx: bool): (dates: seq<Option<DateValue>>)
    ensures |dates| == |rows|
    ensures fromTx ==> forall i | 0 <= i < |rows| :: dates[i] == rows[i].tx.date
    ensures !fromTx ==> forall i | 0 <= i < |rows| ::
              dates[i] == (if rows[i].rateDate.Some? then Some(Text(rows[i].rateDate.value)) else None)
  {
    seq(|rows|, i requires 0 <= i < |rows| =>
      if fromTx then rows[i].tx.date
      else match rows[i].rateDate
           case Some(s) => Some(Text(s))
           case None => None)
  }

  /** A column whose every non-null value is a timestamp has dtype `datetime64`. */
  predicate IsDatetimeColumn(dates: seq<Option<DateValue>>) {
    forall i | 0 <= i < |dates| :: dates[i].Some? ==> dates[i].value.Stamp?
  }

  function FormatDate(v: Option<DateValue>): Option<DateValue> {
    match v
    case Some(Stamp(t)) => Some(Text(FormatYmd(t.year, t.month, t.day)))
    case _ => v
  }

  /** `if is_datetime64_any_dtype(date): date = date.dt.strftime('%Y-%m-%d')`:
      a timestamp column becomes ten-character `YYYY-MM-DD` text of the same
      calendar day, nulls staying null; any other column is left as it is. */
  function FormatDates(dates: seq<Option<DateValue>>): (r: seq<Option<DateValue>>)
    ensures |r| == |dates|
    ensures !IsDatetimeColumn(dates) ==> r == dates
    ensures IsDatetimeColumn(dates) ==> forall i | 0 <= i < |dates| ::
              && (r[i].Some? <==> dates[i].Some?)
              && (dates[i].Some? ==>
                    && r[i].value.Text? && |r[i].value.text| == 10
                    && ParseYmd(r[i].value.text)
                         == Some((dates[i].value.stamp.year as int,
                                  dates[i].value.stamp.month as int,
                                  dates[i].value.stamp.day as int)))
  {
    if IsDatetimeColumn(dates) then
      var r := seq(|dates|, i requires 0 <= i < |dates| => FormatDate(dates[i]));
      assert forall i | 0 <= i < |dates| && dates[i].Some? ::
        var t := dates[i].value.stamp;
        ParseYmd(r[i].value.text) == Some((t.year as int, t.month as int, t.day as int))
      by {
        forall i | 0 <= i < |dates| && dates[i].Some?
          ensures var t := dates[i].value.stamp;
                  ParseYmd(r[i].value.text) == Some((t.year as int, t.month as int, t.day as int))
        {
          var t := dates[i].value.stamp;
          FormatYmdRoundTrip(t.year, t.month, t.day);
        }
      }
      r
    else dates
  }

  // ---------------------------------------------------------------------------
  // Projection

  /** `df[target_columns]` on rows: each output field is the merged frame's
      column of the same name, and the date is the renamed date column. */
  function Project(rows: seq<JoinedRow>, dates: seq<Option<DateValue>>): (out: seq<OutRow>)
    requires |dates| == |rows|
    ensures |out| == |rows|
    ensures forall i | 0 <= i < |rows| ::
              var t := rows[i].tx;
              && out[i].transactionId == t.transactionId && out[i].date == dates[i]
              && out[i].productId == t.productId && out[i].price == t.price
              && out[i].quantity == t.quantity && out[i].customerId == t.customerId
              && out[i].productName == t.productName && out[i].customerCountry == t.customerCountry
              && out[i].customerName == t.customerName && out[i].totalAmount == t.totalAmount
              && out[i].thbAmount == rows[i].thbAmount
  {
    seq(|rows|, i requires 0 <= i < |rows| =>
      var t := rows[i].tx;
      OutRow(t.transactionId, dates[i], t.productId, t.price, t.quantity, t.customerId,
             t.productName, t.customerCountry, t.customerName, t.totalAmount, rows[i].thbAmount))
  }

  // ---------------------------------------------------------------------------
  // Duplicate removal on (transaction_id, product_id)

  type RowKey = (Option<string>, Option<string>)

  function Key(r: OutRow): RowKey {
    (r.transactionId, r.productId)
  }

  /** Row `i` repeats the key of an earlier row (null keys equal each other). */
  predicate SeenBefore(rows: seq<OutRow>, i: int)
    requires 0 <= i < |rows|
  {
    exists j | 0 <= j < i :: Key(rows[j]) == Key(rows[i])
  }

  /** `df.duplicated(subset = [...])`, keeping the first occurrence unflagged. */
  function Duplicated(rows: seq<OutRow>): (d: seq<bool>)
    ensures |d| == |rows| && forall i | 0 <= i < |rows| :: d[i] == SeenBefore(rows, i)
  {
    seq(|rows|, i requires 0 <= i < |rows| => SeenBefore(rows, i))
  }

  /** `df.drop_duplicates(subset = [...], keep = 'first')`. */
  function DropDuplicates(rows: seq<OutRow>): (r: seq<OutRow>)
    ensures |r| + CountTrue(Duplicated(rows)) == |rows|
  {
    CountTrueNot(Duplicated(rows));
    Mask(rows, Not(Duplicated(rows)))
  }

  predicate KeysUnique(rows: seq<OutRow>) {
    forall i, j | 0 <= i < j < |rows| :: Key(rows[i]) != Key(rows[j])
  }

  /** The earliest row with the key of row `i`. */
  lemma FirstOccurrence(rows: seq<OutRow>, i: nat) returns (i0: nat)
    requires i < |rows|
    ensures i0 <= i && Key(rows[i0]) == Key(rows[i]) && !SeenBefore(rows, i0)
    decreases i
  {
    if SeenBefore(rows, i) {
      var j :| 0 <= j < i && Key(rows[j]) == Key(rows[i]);
      i0 := FirstOccurrence(rows, j);
    } else {
      i0 := i;
    }
  }

  /** Duplicate removal keeps exactly the first row of each key, in original
      order: afterwards no two rows share a key, every key of the input is still
      present, and the dropped rows are exactly the flagged ones. */
  lemma DropDuplicatesSpec(rows: seq<OutRow>)
    ensures KeysUnique(DropDuplicates(rows))
    ensures |DropDuplicates(rows)| + CountTrue(Duplicated(rows)) == |rows|
    ensures forall i | 0 <= i < |rows| ::
              exists k | 0 <= k < |DropDuplicates(rows)| :: Key(DropDuplicates(rows)[k]) == Key(rows[i])
    ensures var p := Positions(Not(Duplicated(rows)));
            && |p| == |DropDuplicates(rows)| && Increasing(p)
            && (forall k | 0 <= k < |p| ::
                  p[k] < |rows| && DropDuplicates(rows)[k] == rows[p[k]] && !SeenBefore(rows, p[k]))
            && (forall i | 0 <= i < |rows| && !SeenBefore(rows, i) :: i in p)
  {
    var m := Not(Duplicated(rows));
    var out := DropDuplicates(rows);
    var p := Positions(m);
    MaskSpec(rows, m);
    PositionsSpec(m);
    CountTrueNot(Duplicated(rows));
    forall k, l | 0 <= k < l < |out| ensures Key(out[k]) != Key(out[l]) {
      assert p[k] < p[l];
      assert !SeenBefore(rows, p[l]);
    }
    forall i | 0 <= i < |rows|
      ensures exists k | 0 <= k < |out| :: Key(out[k]) == Key(rows[i])
    {
      var i0 := FirstOccurrence(rows, i);
      assert m[i0];
      var k :| 0 <= k < |p| && p[k] == i0;
      assert Key(out[k]) == Key(rows[i]);
    }
  }

  /** Rows with distinct keys are left as they are. */
  lemma DropDuplicatesOfUnique(rows: seq<OutRow>)
    requires KeysUnique(rows)
    ensures DropDuplicates(rows) == rows
    ensures CountTrue(Duplicated(rows)) == 0
  {
    assert forall i | 0 <= i < |rows| :: !SeenBefore(rows, i);
    MaskAllTrue(rows, Not(Duplicated(rows)));
    MaskSpec(rows, Not(Duplicated(rows)));
    CountTrueNot(Duplicated(rows));
  }

  /** When no row is flagged, dropping duplicates is the identity, so the
      source's skipping of the drop in that case changes nothing. */
  lemma DropDuplicatesUnflagged(rows: seq<OutRow>)
    requires true !in Duplicated(rows)
    ensures DropDuplicates(rows) == rows && CountTrue(Duplicated(rows)) == 0
  {
    forall i, j | 0 <= i < j < |rows| ensures Key(rows[i]) != Key(rows[j]) {
      assert !Duplicated(rows)[j];
    }
    DropDuplicatesOfUnique(rows);
  }

  /** Removing duplicates a second time changes nothing. */
  lemma DropDuplicatesIdempotent(rows: seq<OutRow>)
    ensures DropDuplicates(DropDuplicates(rows)) == DropDuplicates(rows)
  {
    DropDuplicatesSpec(rows);
    DropDuplicatesOfUnique(DropDuplicates(rows));
  }

  /** Any order-preserving selection of rows with distinct keys keeps them distinct. */
  lemma MaskKeepsKeysUnique(rows: seq<OutRow>, m: seq<bool>)
    requires |m| == |rows| && KeysUnique(rows)
    ensures KeysUnique(Mask(rows, m))
  {
    MaskSpec(rows, m);
    PositionsSpec(m);
    var p := Positions(m);
    forall k, l | 0 <= k < l < |Mask(rows, m)| ensures Key(Mask(rows, m)[k]) != Key(Mask(rows, m)[l]) {
      assert p[k] < p[l];
    }
  }

  // ---------------------------------------------------------------------------
  // Quality filter

  /** `(price >= 0) & transaction_id.notnull() & date.notnull()`; a null price
      fails the comparison. */
  predicate Good(r: OutRow) {
    r.price.Some? && r.price.value >= 0.0 && r.transactionId.Some? && r.date.Some?
  }

  function GoodMask(rows: seq<OutRow>): (m: seq<bool>)
    ensures |m| == |rows| && forall i | 0 <= i < |rows| :: m[i] == Good(rows[i])
  {
    seq(|rows|, i requires 0 <= i < |rows| => Good(rows[i]))
  }

  /** `df[condition_good]`. */
  function RowFilter(rows: seq<OutRow>): (r: seq<OutRow>)
    ensures |r| == CountTrue(GoodMask(rows)) <= |rows|
    ensures forall k | 0 <= k < |r| :: Good(r[k])
  {
    MaskSpec(rows, GoodMask(rows));
    PositionsSpec(GoodMask(rows));
    Mask(rows, GoodMask(rows))
  }

  /** The filter keeps exactly the good rows, in their original order. */
  lemma RowFilterSpec(rows: seq<OutRow>)
    ensures forall k | 0 <= k < |RowFilter(rows)| :: Good(RowFilter(rows)[k])
    ensures var p := Positions(GoodMask(rows));
            && |p| == |RowFilter(rows)| && Increasing(p)
            && (forall k | 0 <= k < |p| :: p[k] < |rows| && RowFilter(rows)[k] == rows[p[k]])
            && (forall i | 0 <= i < |rows| && Good(rows[i]) :: i in p)
  {
    MaskSpec(rows, GoodMask(rows));
    PositionsSpec(GoodMask(rows));
  }

  /** Filtering a second time changes nothing. */
  lemma RowFilterIdempotent(rows: seq<OutRow>)
    ensures RowFilter(RowFilter(rows)) == RowFilter(rows)
  {
    RowFilterSpec(rows);
    MaskAllTrue(RowFilter(rows), GoodMask(RowFilter(rows)));
  }

  /** A line item with the given keys, quantity and amounts, priced at 10.0 and
      dated 2025-01-01. */
  function LineItem(tid: string, pid: string, qty: int, total: real, thb: real): OutRow {
    OutRow(Some(tid), Some(Text("2025-01-01")), Some(pid), Some(10.0), Some(qty),
           None, None, None, None, Some(total), Some(thb))
  }

  /** Two identical line items of transaction 1 and one of transaction 2:
      the second row is the one duplicate, and the first and third survive. */
  lemma DuplicateScenario()
    ensures var rows := [LineItem("1", "1", 2, 100.0, 4200.0), LineItem("1", "1", 2, 100.0, 4200.0),
                         LineItem("2", "1", 1, 50.0, 2100.0)];
            && Duplicated(rows) == [false, true, false]
            && CountTrue(Duplicated(rows)) == 1
            && DropDuplicates(rows) == [rows[0], rows[2]]
  {
    var rows := [LineItem("1", "1", 2, 100.0, 4200.0), LineItem("1", "1", 2, 100.0, 4200.0),
                 LineItem("2", "1", 1, 50.0, 2100.0)];
    assert SeenBefore(rows, 1) by { assert Key(rows[0]) == Key(rows[1]); }
    assert Duplicated(rows) == [false, true, false];
    var d, keep := [false, true, false], [true, false, true];
    assert Not(d) == keep;
    assert d[..2] == [false, true] && d[..2][..1] == [false];
    assert CountTrue(d[..2][..1]) == 0 by { assert d[..2][..1][..0] == []; }
    assert CountTrue(d) == 1;
    assert keep[..2] == [true, false] && keep[..2][..1] == [true];
    assert Mask(rows[..2], keep[..2]) == [rows[0]] by {
      assert rows[..2][..1] == [rows[0]];
    }
  }

  /** The filter judges price, transaction id and date only: line items with a
      negative THB amount or a quantity of zero or below all pass it. */
  lemma FilterKeepsBadQuantityAndAmount()
    ensures var rows := [LineItem("1", "p", 1, 100.0, 100.0), LineItem("2", "p", 1, -50.0, -50.0),
                         LineItem("3", "p", 0, 200.0, 200.0), LineItem("4", "p", -5, 50.0, 50.0)];
            RowFilter(rows) == rows
  {
    var rows := [LineItem("1", "p", 1, 100.0, 100.0), LineItem("2", "p", 1, -50.0, -50.0),
                 LineItem("3", "p", 0, 200.0, 200.0), LineItem("4", "p", -5, 50.0, 50.0)];
    MaskAllTrue(rows, GoodMask(rows));
  }
}
