/** The column-name level of a data frame: which names exist after a merge,
    an assignment, a rename or a selection, and the `KeyError` a read of an
    absent column raises. */
module Columns {
  import opened Wrappers

  /** Which side of a merge a suffixed name comes from: `_x` left, `_y` right. */
  datatype Side = X | Y

  /** The column names the transformation meets, spelled in the frames as
      `transaction_id`, `date`, `product_id`, `price`, `quantity`,
      `customer_id`, `product_name`, `customer_country`, `customer_name`,
      `total_amount`, `join_date`, `gbp_thb` and `thb_amount`. A merge renames
      a name found on both sides by appending `_x` or `_y`; `WithSuffix` is
      that name. */
  datatype Column =
    | TransactionId | Date | ProductId | Price | Quantity | CustomerId
    | ProductName | CustomerCountry | CustomerName | TotalAmount | JoinDate
    | GbpThb | ThbAmount
    | WithSuffix(base: Column, side: Side)


  /** pandas' `KeyError`, carrying the columns that were not found. */
  datatype KeyError = KeyError(missing: seq<Column>)

  function Suffixed(cols: set<Column>, side: Side): (r: set<Column>)
    ensures forall c | c in cols :: WithSuffix(c, side) in r
    ensures forall c | c in r :: c.WithSuffix? && c.base in cols && c.side == side
  {
    set c | c in cols :: WithSuffix(c, side)
  }

  /** The columns of `left.merge(right, left_on = leftOn, right_on = rightOn)`.
      Both key columns are kept. A name found on one side only keeps it; a name
      found on both sides is kept twice, as `name_x` (left) and `name_y`
      (right), except a key both sides join on under the same name, which is
      kept once. An absent key raises. */
  function MergeColumns(left: set<Column>, right: set<Column>, leftOn: Column, rightOn: Column)
    : (r: Result<set<Column>, KeyError>)
    ensures r.Err? <==> leftOn !in left || rightOn !in right
    ensures leftOn !in left ==> r == Err(KeyError([leftOn]))
    ensures r.Ok? ==> forall c: Column | !c.WithSuffix? ::
              c in r.value <==> c in left - right || c in right - left || (leftOn == rightOn && c == leftOn)
    ensures r.Ok? ==> forall c | c in left && c in right && !(leftOn == rightOn && c == leftOn) ::
              WithSuffix(c, X) in r.value && WithSuffix(c, Y) in r.value
    ensures r.Ok? ==> forall c | c in r.value ::
              || c in left - right || c in right - left || (leftOn == rightOn && c == leftOn)
              || (c.WithSuffix? && c.base in left && c.base in right && !(leftOn == rightOn && c.base == leftOn))
  {
    if leftOn !in left then Err(KeyError([leftOn]))
    else if rightOn !in right then Err(KeyError([rightOn]))
    else
      var joint := if leftOn == rightOn then {leftOn} else {};
      var shared := left * right - joint;
      Ok((left - right) + (right - left) + joint + Suffixed(shared, X) + Suffixed(shared, Y))
  }

  /** `df.rename(columns = {from: to})`; an absent `from` is ignored. */
  function RenameColumn(cols: set<Column>, from: Column, to: Column): (r: set<Column>)
    ensures from in cols ==> to in r && (from != to ==> from !in r)
    ensures from !in cols ==> r == cols
    ensures forall c | c != from && c != to :: c in r <==> c in cols
  {
    if from in cols then cols - {from} + {to} else cols
  }

  /** The columns of `targets` that `cols` lacks, in the order of `targets`. */
  function MissingColumns(cols: set<Column>, targets: seq<Column>): (missing: seq<Column>)
    ensures forall c :: c in missing <==> c in targets && c !in cols
  {
    if |targets| == 0 then []
    else (if targets[0] in cols then [] else [targets[0]]) + MissingColumns(cols, targets[1..])
  }

  /** `df[targets]`: the selected columns are exactly `targets`, in that order;
      when any is absent the selection raises and names every absent one. */
  function SelectColumns(cols: set<Column>, targets: seq<Column>): (r: Result<seq<Column>, KeyError>)
    ensures r.Ok? <==> forall c | c in targets :: c in cols
    ensures r.Ok? ==> r.value == targets
    ensures r.Err? ==> r.error.missing != [] && forall c | c in r.error.missing :: c in targets && c !in cols
  {
    var missing := MissingColumns(cols, targets);
    if missing == [] then Ok(targets)
    else
      assert missing[0] in missing;
      Err(KeyError(missing))
  }
}
