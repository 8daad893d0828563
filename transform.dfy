/** `run_transform_and_clean`: merge the transaction extract with the daily
    GBP to THB rates, convert, project onto the output schema, then remove
    duplicate line items and bad rows, counting what each step removed. */
module TransformLogic {
  import opened Wrappers
  import opened Dates
  import opened Masks
  import opened Columns
  import opened Records
  import opened Stages

  /** The counts the quality summary reports. */
  datatype DqReport = DqReport(
    initialRows: nat,
    dupCount: nat,
    rowsAfterDedup: nat,
    cleanedRows: nat,
    removedBadRows: int)

  /** The cleaned table: its columns, in order, and its rows. */
  datatype Cleaned = Cleaned(columns: seq<Column>, rows: seq<OutRow>, report: DqReport)

  /** The rate table's columns once the extract has dropped its `id`. */
  const RateColumns: set<Column> := {Date, GbpThb}

  /** The schema holds the nine columns the output takes over from the extract. */
  predicate HasProjectedColumns(cols: set<Column>) {
    && TransactionId in cols && ProductId in cols && Price in cols && Quantity in cols
    && CustomerId in cols && ProductName in cols && CustomerCountry in cols
    && CustomerName in cols && TotalAmount in cols
  }

  /** The rows of the projected frame, before the quality checks: at least one
      per transaction row, since the left join drops none. */
  function Projected(tx: TxTable, rates: seq<RateRow>): (r: seq<OutRow>)
    ensures |r| >= |tx.rows|
  {
    var rows := Convert(FillRate(LeftJoin(tx.rows, rates)));
    Project(rows, FormatDates(DateColumn(rows, Date in tx.columns)))
  }

  /** The rate a transaction row ends up with once the fill has run: the rate
      of the rate row of its date, or the fallback when there is no such row or
      that row's rate is null. */
  function RateOrFallback(rates: seq<RateRow>, key: Option<string>): real {
    match RateOn(rates, key)
    case Some(r) => r.gbpThb.GetOr(FallbackRate)
    case None => FallbackRate
  }

  /** The transaction table's own date column. */
  function TxDates(rows: seq<TxRow>): (dates: seq<Option<DateValue>>)
    ensures |dates| == |rows| && forall i | 0 <= i < |rows| :: dates[i] == rows[i].date
  {
    seq(|rows|, i requires 0 <= i < |rows| => rows[i].date)
  }

  /** With unique rate dates, after the merge, the fill and the conversion,
      row `i` is transaction `i` with no null rate: its rate is the matched
      rate, or 42.0, and its THB amount is its total times that rate. */
  lemma ConvertedRows(tx: seq<TxRow>, rates: seq<RateRow>)
    requires UniqueDates(rates)
    ensures var rows := Convert(FillRate(LeftJoin(tx, rates)));
            && |rows| == |tx|
            && forall i | 0 <= i < |tx| ::
                 && rows[i].tx == tx[i]
                 && rows[i].gbpThb == Some(RateOrFallback(rates, tx[i].joinDate))
                 && rows[i].thbAmount == Times(tx[i].totalAmount, Some(RateOrFallback(rates, tx[i].joinDate)))
  {
    LeftJoinUniqueDates(tx, rates);
  }

  /** The projected table, row by row, when rate dates are unique: one row per
      transaction, in order, carrying the transaction's own fields and a THB
      amount of total times rate-or-fallback. */
  lemma ProjectedRows(tx: TxTable, rates: seq<RateRow>)
    requires UniqueDates(rates)
    ensures |Projected(tx, rates)| == |tx.rows|
    ensures forall i | 0 <= i < |tx.rows| ::
              var p, t := Projected(tx, rates)[i], tx.rows[i];
              && p.transactionId == t.transactionId && p.productId == t.productId
              && p.price == t.price && p.quantity == t.quantity && p.customerId == t.customerId
              && p.productName == t.productName && p.customerCountry == t.customerCountry
              && p.customerName == t.customerName && p.totalAmount == t.totalAmount
              && p.thbAmount == Times(t.totalAmount, Some(RateOrFallback(rates, t.joinDate)))
  {
    ConvertedRows(tx.rows, rates);
  }

  /** When the extract has a `date` column, the output date of row `i` is the
      transaction's own date, formatted when the column holds timestamps, and
      never the rate table's. */
  lemma ProjectedDates(tx: TxTable, rates: seq<RateRow>)
    requires UniqueDates(rates) && Date in tx.columns
    ensures |Projected(tx, rates)| == |tx.rows|
    ensures forall i | 0 <= i < |tx.rows| :: Projected(tx, rates)[i].date == FormatDates(TxDates(tx.rows))[i]
  {
    ConvertedRows(tx.rows, rates);
    assert DateColumn(Convert(FillRate(LeftJoin(tx.rows, rates))), true) == TxDates(tx.rows);
  }

  /** The table the rate extract writes when the rate service fails: one row,
      today's date, the fallback rate. */
  function FallbackRates(today: string): seq<RateRow> {
    [RateRow(Some(today), Some(FallbackRate))]
  }

  /** With the fallback rate table, every THB amount is the total times 42.0,
      whether or not the transaction's date is today's. */
  lemma FallbackRatesConvert(tx: TxTable, today: string)
    ensures UniqueDates(FallbackRates(today))
    ensures |Projected(tx, FallbackRates(today))| == |tx.rows|
    ensures forall i | 0 <= i < |tx.rows| ::
              Projected(tx, FallbackRates(today))[i].thbAmount == Times(tx.rows[i].totalAmount, Some(42.0))
  {
    var rates := FallbackRates(today);
    ProjectedRows(tx, rates);
    forall i | 0 <= i < |tx.rows| ensures RateOrFallback(rates, tx.rows[i].joinDate) == 42.0 {
    }
  }

  /** The two quality stages, duplicate removal then the filter: the rows that
      are left have distinct keys and all pass the filter. */
  function Clean(rows: seq<OutRow>): (r: seq<OutRow>)
    ensures |r| <= |DropDuplicates(rows)| <= |rows|
    ensures KeysUnique(r)
    ensures forall k | 0 <= k < |r| :: Good(r[k])
  {
    DropDuplicatesSpec(rows);
    MaskKeepsKeysUnique(DropDuplicates(rows), GoodMask(DropDuplicates(rows)));
    RowFilter(DropDuplicates(rows))
  }

  /** A cleaned table is a fixed point of both stages: running duplicate
      removal or the filter on it again, or the whole cleaning, changes nothing. */
  lemma CleanIdempotent(rows: seq<OutRow>)
    ensures DropDuplicates(Clean(rows)) == Clean(rows)
    ensures RowFilter(Clean(rows)) == Clean(rows)
    ensures Clean(Clean(rows)) == Clean(rows)
  {
    DropDuplicatesSpec(rows);
    MaskKeepsKeysUnique(DropDuplicates(rows), GoodMask(DropDuplicates(rows)));
    DropDuplicatesOfUnique(Clean(rows));
    RowFilterIdempotent(DropDuplicates(rows));
  }

  /** The merge succeeds exactly when the extract has `join_date`. Its result
      has `gbp_thb` unless the extract had its own (both are then suffixed),
      keeps the extract's other columns, and has a date column: `date_x` when
      the extract had a `date`, the rate table's `date` otherwise. */
  lemma MergedSchema(cols: set<Column>)
    ensures MergeColumns(cols, RateColumns, JoinDate, Date).Err? <==> JoinDate !in cols
    ensures JoinDate !in cols ==> MergeColumns(cols, RateColumns, JoinDate, Date) == Err(KeyError([JoinDate]))
    ensures JoinDate in cols ==>
              var merged := MergeColumns(cols, RateColumns, JoinDate, Date).value;
              && (GbpThb in merged <==> GbpThb !in cols)
              && (TotalAmount in merged <==> TotalAmount in cols)
              && (HasProjectedColumns(merged) <==> HasProjectedColumns(cols))
              && (Date in cols ==> WithSuffix(Date, X) in merged && WithSuffix(Date, Y) in merged)
              && (Date !in cols ==> Date in merged)
  {
    if JoinDate in cols {
      MergedKeepsDataColumns(cols);
    }
  }

  /** The merge keeps the extract's nine data columns under their own names:
      none of them is a rate column. */
  lemma MergedKeepsDataColumns(cols: set<Column>)
    requires JoinDate in cols
    ensures HasProjectedColumns(MergeColumns(cols, RateColumns, JoinDate, Date).value) <==> HasProjectedColumns(cols)
  {
  }

  /** After `thb_amount` is assigned and `date_x` renamed, both `date` and
      `thb_amount` exist and the extract's columns are untouched. */
  lemma RenamedSchema(merged: set<Column>)
    requires Date in merged || WithSuffix(Date, X) in merged
    ensures var renamed := RenameColumn(merged + {ThbAmount}, WithSuffix(Date, X), Date);
            && Date in renamed && ThbAmount in renamed && WithSuffix(Date, X) !in renamed
            && (HasProjectedColumns(renamed) <==> HasProjectedColumns(merged))
  {
  }

  /** The selection succeeds exactly when the extract's nine columns are there,
      and then yields the eleven target columns in order, without `join_date`,
      `gbp_thb` or the rate table's date. */
  lemma SelectTargets(renamed: set<Column>)
    requires Date in renamed && ThbAmount in renamed
    ensures SelectColumns(renamed, TargetColumns).Ok? <==> HasProjectedColumns(renamed)
    ensures SelectColumns(renamed, TargetColumns).Ok? ==>
              var out := SelectColumns(renamed, TargetColumns).value;
              && |out| == 11 && out[0] == TransactionId && out[1] == Date && out[10] == ThbAmount
              && JoinDate !in out && GbpThb !in out && WithSuffix(Date, Y) !in out
  {
    TargetsPresent(renamed);
    assert JoinDate !in TargetColumns && GbpThb !in TargetColumns && WithSuffix(Date, Y) !in TargetColumns;
  }

  /** Every target column is present exactly when the extract's nine are,
      given `date` and `thb_amount`. */
  lemma TargetsPresent(renamed: set<Column>)
    requires Date in renamed && ThbAmount in renamed
    ensures (forall c | c in TargetColumns :: c in renamed) <==> HasProjectedColumns(renamed)
  {
    var t := TargetColumns;
    assert t[0] == TransactionId && t[2] == ProductId && t[3] == Price && t[4] == Quantity;
    assert t[5] == CustomerId && t[6] == ProductName && t[7] == CustomerCountry;
    assert t[8] == CustomerName && t[9] == TotalAmount;
    if HasProjectedColumns(renamed) {
      forall c | c in t ensures c in renamed {
        var i :| 0 <= i < |t| && t[i] == c;
      }
    }
  }

  /** The extract written when the store returns no rows has only `date`,
      `price` and `quantity`, so the merge raises on the missing `join_date`
      instead of producing an empty output. */
  lemma EmptyExtractRaises()
    ensures MergeColumns({Date, Price, Quantity}, RateColumns, JoinDate, Date) == Err(KeyError([JoinDate]))
  {
  }

  /** The quality checks of `run_transform_and_clean` on the projected rows:
      duplicate removal, skipped when nothing is flagged, then the filter, with
      the counts the summary message reports. */
  method QualityChecks(rows: seq<OutRow>) returns (out: seq<OutRow>, report: DqReport)
    ensures out == Clean(rows)
    ensures report.initialRows == |rows|
    ensures report.dupCount == CountTrue(Duplicated(rows))
    ensures report.rowsAfterDedup == |DropDuplicates(rows)|
    ensures report.dupCount == report.initialRows - report.rowsAfterDedup
    ensures report.cleanedRows == |out|
    ensures report.cleanedRows <= report.rowsAfterDedup <= report.initialRows
    ensures report.removedBadRows == report.rowsAfterDedup - report.cleanedRows >= 0
  {
    out := rows;
    var initialRows := |out|;
    var dupCount := 0;
    if true in Duplicated(out) {
      dupCount := CountTrue(Duplicated(out));
      out := DropDuplicates(out);
    } else {
      DropDuplicatesUnflagged(out);
    }
    var rowsAfterDedup := |out|;

    out := RowFilter(out);
    var cleanedRows := |out|;
    var removedBadRows := rowsAfterDedup - cleanedRows;
    report := DqReport(initialRows, dupCount, rowsAfterDedup, cleanedRows, removedBadRows);
  }

  /** `run_transform_and_clean`. The merge, the fill, the conversion, the date
      handling and the selection follow the source's order, each raising where
      pandas raises; the quality checks then remove duplicates and bad rows and
      record the counts of the summary message. */
  method RunTransformAndClean(tx: TxTable, rates: seq<RateRow>) returns (res: Result<Cleaned, KeyError>)
    ensures res.Err? <==> !(JoinDate in tx.columns && GbpThb !in tx.columns && HasProjectedColumns(tx.columns))
    ensures JoinDate !in tx.columns ==> res == Err(KeyError([JoinDate]))
    ensures res.Ok? ==> res.value.columns == TargetColumns
    ensures res.Ok? ==> res.value.rows == Clean(Projected(tx, rates))
    ensures res.Ok? ==> KeysUnique(res.value.rows)
    ensures res.Ok? ==> forall k | 0 <= k < |res.value.rows| :: Good(res.value.rows[k])
    ensures res.Ok? ==>
              var r := res.value.report;
              && r.initialRows == |Projected(tx, rates)|
              && r.dupCount == CountTrue(Duplicated(Projected(tx, rates)))
              && r.rowsAfterDedup == |DropDuplicates(Projected(tx, rates))|
              && r.dupCount == r.initialRows - r.rowsAfterDedup
              && r.cleanedRows == |res.value.rows|
              && r.cleanedRows <= r.rowsAfterDedup <= r.initialRows
              && r.removedBadRows == r.rowsAfterDedup - r.cleanedRows >= 0
    ensures res.Ok? && UniqueDates(rates) ==> res.value.report.initialRows == |tx.rows|
  {
    MergedSchema(tx.columns);
    var merged: set<Column>;
    match MergeColumns(tx.columns, RateColumns, JoinDate, Date) {
      case Err(e) => return Err(e);
      case Ok(m) => merged := m;
    }
    var rows := LeftJoin(tx.rows, rates);

    // fill the missing rates and convert
    if GbpThb !in merged { return Err(KeyError([GbpThb])); }
    rows := FillRate(rows);
    if TotalAmount !in merged { return Err(KeyError([TotalAmount])); }
    rows := Convert(rows);

    // rename and format the date
    RenamedSchema(merged);
    var columns := RenameColumn(merged + {ThbAmount}, WithSuffix(Date, X), Date);
    if Date !in columns { return Err(KeyError([Date])); }
    var dates := FormatDates(DateColumn(rows, Date in tx.columns));

    // select the output columns
    SelectTargets(columns);
    var selected: seq<Column>;
    match SelectColumns(columns, TargetColumns) {
      case Err(e) => return Err(e);
      case Ok(s) => selected := s;
    }
    var out := Project(rows, dates);
    assert out == Projected(tx, rates);
    if UniqueDates(rates) {
      LeftJoinUniqueDates(tx.rows, rates);
    }

    // data quality checks
    var cleaned, report := QualityChecks(out);
    res := Ok(Cleaned(selected, cleaned, report));
  }
}
