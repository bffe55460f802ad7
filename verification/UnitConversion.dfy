/** Units of measure of stock items (core/modules/inventory_procurement/support.py), over
    the reals. */
module UnitConversion {
  import opened Text

  datatype Item = Item(stockUom: string, orderUom: string, issueUom: string, orderRatio: Option<real>, issueRatio: Option<real>)

  datatype Error = UomRequired | FactorRequired | ConversionRequired | QuantityInvalid

  datatype Result<T> = Ok(value: T) | Err(error: Error)

  /** `normalize_uom`, `None` when blank. */
  function NormalizeUom(u: string): Option<string> {
    var n := Upper(Strip(u));
    if n == "" then None else Some(n)
  }

  /** `resolve_configured_uom_ratio` */
  function ConfiguredRatio(uom: string, stockUom: string, ratio: Option<real>): Result<real> {
    var s, u := NormalizeUom(stockUom), NormalizeUom(uom);
    if s.None? || u.None? then Err(UomRequired)
    else if u == s then Ok(1.0)
    else if ratio.None? then Err(FactorRequired)
    else if ratio.value <= 0.0 then Err(FactorRequired)
    else Ok(ratio.value)
  }

  /** `resolve_item_uom_factor`: how many stock units one `uom` is. */
  function Factor(item: Item, uom: string): Result<real> {
    var n := NormalizeUom(uom);
    if n.None? then Err(UomRequired)
    else if n.value == item.stockUom then Ok(1.0)
    else if n.value == item.orderUom then ConfiguredRatio(item.orderUom, item.stockUom, item.orderRatio)
    else if n.value == item.issueUom then ConfiguredRatio(item.issueUom, item.stockUom, item.issueRatio)
    else Err(ConversionRequired)
  }

  lemma FactorsArePositive(item: Item, uom: string)
    ensures Factor(item, uom).Ok? ==> Factor(item, uom).value > 0.0
  {
  }

  function Scale(x: real, f: real, t: real): real
    requires t > 0.0
  {
    x * f / t
  }

  /** `convert_item_quantity` */
  function Convert(item: Item, quantity: real, from: string, to: string): Result<real> {
    match Factor(item, from)
    case Err(e) => Err(e)
    case Ok(f) =>
      match Factor(item, to)
      case Err(e) => Err(e)
      case Ok(t) =>
        FactorsArePositive(item, to);
        Ok(Scale(quantity, f, t))
  }

  /** `convert_item_unit_cost_to_stock` */
  function CostPerStockUnit(item: Item, unitCost: real, uom: string): Result<real> {
    match Factor(item, uom)
    case Err(e) => Err(e)
    case Ok(f) =>
      FactorsArePositive(item, uom);
      if unitCost < 0.0 then Err(QuantityInvalid) else Ok(unitCost / f)
  }

  lemma ScaleBack(x: real, f: real)
    requires f > 0.0
    ensures Scale(x, f, f) == x
  {
  }

  lemma ScaleThrough(x: real, f: real, g: real, h: real)
    requires g > 0.0 && h > 0.0
    ensures Scale(Scale(x, f, g), g, h) == Scale(x, f, h)
  {
  }

  /** Between any of an item's units conversion is path independent: going through a third
      unit makes no difference, and succeeds whenever its steps do. */
  lemma ConversionIsPathIndependent(item: Item, quantity: real, a: string, b: string, c: string)
    requires Convert(item, quantity, a, b).Ok? && Factor(item, c).Ok?
    ensures Convert(item, Convert(item, quantity, a, b).value, b, c) == Convert(item, quantity, a, c)
  {
    FactorsArePositive(item, b);
    FactorsArePositive(item, c);
    ScaleThrough(quantity, Factor(item, a).value, Factor(item, b).value, Factor(item, c).value);
  }

  /** Converting there and back restores the quantity. */
  lemma ConversionRoundTrips(item: Item, quantity: real, a: string, b: string)
    requires Convert(item, quantity, a, b).Ok?
    ensures Convert(item, Convert(item, quantity, a, b).value, b, a) == Ok(quantity)
  {
    ConversionIsPathIndependent(item, quantity, a, b, a);
    FactorsArePositive(item, a);
    ScaleBack(quantity, Factor(item, a).value);
  }

  // ----- which units convert ---------------------------------------------------------------

  /** The text spells the unit in some case, with blanks around it or not. */
  predicate Spells(text: string, unit: string) {
    unit != "" && Upper(Strip(text)) == unit
  }

  predicate Positive(ratio: Option<real>) {
    ratio.Some? && ratio.value > 0.0
  }

  /** A stored unit means an amount of stock: it is spelled like the stock unit or has a
      positive ratio to it, and neither is blank. */
  predicate Measured(item: Item, unit: string, ratio: Option<real>) {
    && Upper(Strip(unit)) != "" && Upper(Strip(item.stockUom)) != ""
    && (Upper(Strip(unit)) == Upper(Strip(item.stockUom)) || Positive(ratio))
  }

  /** The units of a stored item: written normalised, and each either the stock unit or with
      a positive ratio. */
  predicate WellFormed(item: Item) {
    && Spells(item.stockUom, item.stockUom) && Spells(item.orderUom, item.orderUom) && Spells(item.issueUom, item.issueUom)
    && (item.orderUom == item.stockUom || Positive(item.orderRatio))
    && (item.issueUom == item.stockUom || Positive(item.issueRatio))
  }

  predicate SpellsOwnUnit(item: Item, text: string) {
    Spells(text, item.stockUom) || Spells(text, item.orderUom) || Spells(text, item.issueUom)
  }

  /** The first of the item's units that the text spells is measured. */
  predicate SpellsMeasuredUnit(item: Item, text: string) {
    || Spells(text, item.stockUom)
    || (Spells(text, item.orderUom) && Measured(item, item.orderUom, item.orderRatio))
    || (Spells(text, item.issueUom) && !Spells(text, item.orderUom) && Measured(item, item.issueUom, item.issueRatio))
  }

  /** How `create_item` settles the units: order and issue unit default to the stock unit,
      and a ratio is demanded where they differ from it. */
  function NewItem(stock: string, order: string, issue: string, orderRatio: Option<real>, issueRatio: Option<real>): Result<Item> {
    var s := NormalizeUom(stock);
    var o, i := NormalizeUom(if order == "" then stock else order), NormalizeUom(if issue == "" then stock else issue);
    if s.None? || o.None? || i.None? then Err(UomRequired)
    else
      match ConfiguredRatio(o.value, s.value, orderRatio)
      case Err(e) => Err(e)
      case Ok(x) =>
        match ConfiguredRatio(i.value, s.value, issueRatio)
        case Err(e) => Err(e)
        case Ok(y) => Ok(Item(s.value, o.value, i.value, Some(x), Some(y)))
  }

  lemma NewItemsAreWellFormed(stock: string, order: string, issue: string, orderRatio: Option<real>, issueRatio: Option<real>)
    ensures var r := NewItem(stock, order, issue, orderRatio, issueRatio); r.Ok? ==> WellFormed(r.value)
  {
    CapitalsIdempotent(stock);
    CapitalsIdempotent(order);
    CapitalsIdempotent(issue);
  }

  /** A conversion succeeds exactly when both texts spell measured units of the item. For an
      item that `create_item` let through that is: exactly when both spell one of its three
      units, in any case and with blanks around. */
  lemma ConversionSucceedsForOwnUnits(item: Item, quantity: real, a: string, b: string)
    ensures Convert(item, quantity, a, b).Ok? <==> SpellsMeasuredUnit(item, a) && SpellsMeasuredUnit(item, b)
    ensures WellFormed(item) ==> (Convert(item, quantity, a, b).Ok? <==> SpellsOwnUnit(item, a) && SpellsOwnUnit(item, b))
  {
    UnitHasFactor(item, a);
    UnitHasFactor(item, b);
  }

  lemma UnitHasFactor(item: Item, x: string)
    ensures Factor(item, x).Ok? <==> SpellsMeasuredUnit(item, x)
    ensures WellFormed(item) ==> (Factor(item, x).Ok? <==> SpellsOwnUnit(item, x))
  {
  }

  /** Value is conserved: stock quantity times stock unit cost is the original quantity times
      the original unit cost, for every unit of the item. */
  lemma ValueIsConserved(item: Item, quantity: real, unitCost: real, uom: string)
    requires Convert(item, quantity, uom, item.stockUom).Ok? && CostPerStockUnit(item, unitCost, uom).Ok?
    requires NormalizeUom(item.stockUom) == Some(item.stockUom)
    ensures Convert(item, quantity, uom, item.stockUom).value * CostPerStockUnit(item, unitCost, uom).value
         == quantity * unitCost
  {
  }

  /** A quantity in order units, or in issue units, is that quantity times the configured
      ratio in stock units. */
  lemma RatiosCountStockUnits(item: Item, quantity: real)
    requires WellFormed(item)
    ensures item.orderUom != item.stockUom ==>
              Convert(item, quantity, item.orderUom, item.stockUom) == Ok(quantity * item.orderRatio.value)
    ensures item.issueUom != item.stockUom && item.issueUom != item.orderUom ==>
              Convert(item, quantity, item.issueUom, item.stockUom) == Ok(quantity * item.issueRatio.value)
  {
    assert Factor(item, item.stockUom) == Ok(1.0);
    if item.orderUom != item.stockUom { assert Factor(item, item.orderUom) == Ok(item.orderRatio.value); }
    if item.issueUom != item.stockUom && item.issueUom != item.orderUom {
      assert Factor(item, item.issueUom) == Ok(item.issueRatio.value);
    }
  }

  /** The cost of one order or issue unit, unless it is negative, is shared out over the stock
      units in it. */
  lemma CostsAreSharedOut(item: Item, cost: real)
    requires WellFormed(item)
    ensures item.orderUom != item.stockUom ==>
              CostPerStockUnit(item, cost, item.orderUom) == if cost < 0.0 then Err(QuantityInvalid) else Ok(cost / item.orderRatio.value)
    ensures item.issueUom != item.stockUom && item.issueUom != item.orderUom ==>
              CostPerStockUnit(item, cost, item.issueUom) == if cost < 0.0 then Err(QuantityInvalid) else Ok(cost / item.issueRatio.value)
  {
    if item.orderUom != item.stockUom { assert Factor(item, item.orderUom) == Ok(item.orderRatio.value); }
    if item.issueUom != item.stockUom && item.issueUom != item.orderUom {
      assert Factor(item, item.issueUom) == Ok(item.issueRatio.value);
    }
  }
}
