/** The rows flowing through the transformation: a transaction line item from
    the store extract, a daily exchange rate, a merged row and an output row.
    A cell that can be null is an `Option`; money is an exact `real`. */
module Records {
  import opened Wrappers
  import opened Dates
  import opened Columns

  /** Substituted for a missing GBP to THB rate. */
  const FallbackRate: real := 42.0

  /** The output schema, in output order. */
  const TargetColumns: seq<Column> := [
    TransactionId, Date, ProductId, Price, Quantity, CustomerId, ProductName,
    CustomerCountry, CustomerName, TotalAmount, ThbAmount
  ]

  /** One line item of the transaction extract. */
  datatype TxRow = TxRow(
    transactionId: Option<string>,
    date: Option<DateValue>,
    productId: Option<string>,
    price: Option<real>,
    quantity: Option<int>,
    customerId: Option<string>,
    productName: Option<string>,
    customerCountry: Option<string>,
    customerName: Option<string>,
    totalAmount: Option<real>,
    joinDate: Option<string>)

  /** The transaction table: the names of its columns, and its rows (a field
      of a column the table lacks is never read). */
  datatype TxTable = TxTable(columns: set<Column>, rows: seq<TxRow>)

  /** One row of the rate table; its columns are `date` and `gbp_thb`. */
  datatype RateRow = RateRow(date: Option<string>, gbpThb: Option<real>)

  /** A row of the merged frame: the transaction row, the rate row's `date` and
      `gbp_thb` (both null when no rate row matched), and `thb_amount`, which is
      null until the conversion assigns it. */
  datatype JoinedRow = JoinedRow(
    tx: TxRow,
    rateDate: Option<string>,
    gbpThb: Option<real>,
    thbAmount: Option<real>)

  /** One row of the output table, one field per target column. */
  datatype OutRow = OutRow(
    transactionId: Option<string>,
    date: Option<DateValue>,
    productId: Option<string>,
    price: Option<real>,
    quantity: Option<int>,
    customerId: Option<string>,
    productName: Option<string>,
    customerCountry: Option<string>,
    customerName: Option<string>,
    totalAmount: Option<real>,
    thbAmount: Option<real>)
}
