/**
 * The pricing projector: the arithmetic of `change_cost` in www/default.js,
 * which turns an hourly price into the price shown for the chosen duration,
 * pricing unit and price modifier, or marks the cell unavailable.
 * Prices are exact reals; the six-decimal rounding of `toFixed(6)` is not modelled.
 */
module PriceProjector {
  import opened JsNumber
  import opened JsValue

  /** The durations `hour_multipliers` knows. */
  const Durations: seq<string> := ["secondly", "hourly", "daily", "weekly", "monthly", "annually"]

  /** `hour_multipliers[duration]`: hours per duration; NaN exactly for a duration it does not list. */
  function HourMultiplier(duration: string): (h: Number)
    ensures h.NaN? <==> duration !in Durations
    ensures h.Finite? ==> h.x > 0.0
    ensures duration == "hourly" ==> h == Finite(1.0)
  {
    if duration == "secondly" then Finite(1.0 / (60.0 * 60.0))
    else if duration == "hourly" then Finite(1.0)
    else if duration == "daily" then Finite(24.0)
    else if duration == "weekly" then Finite(7.0 * 24.0)
    else if duration == "monthly" then Finite(365.0 * 24.0 / 12.0)
    else if duration == "annually" then Finite(365.0 * 24.0)
    else NaN
  }

  /** The sort key written into an unavailable cell. */
  const UnavailableSortKey: real := 999999.0

  /**
   * What a cost cell shows: a price (whose number is also its sort key), the
   * result of arithmetic on NaN (an unknown duration or a non-numeric
   * modifier), or "unavailable".
   */
  datatype Cell = Priced(amount: real) | NotANumber | Unavailable
  {
    /** The number `span-sort-pre` reads back from the cell's `sort` attribute. */
    function SortKey(): Number
    {
      match this
      case Priced(a) => Finite(a)
      case NotANumber => NaN
      case Unavailable => Finite(UnavailableSortKey)
    }
  }

  /**
   * The price a `get_pricing` result stands for once the guard
   * `per_time && !isNaN(per_time)` has looked at it: NaN when that guard
   * fails, which happens for a missing price and also for a price of 0 (falsy).
   */
  function PriceOf(perTime: Value): (n: Number)
    ensures n.Finite? <==> Truthy(perTime) && !IsNaN(perTime)
  {
    if Truthy(perTime) && !IsNaN(perTime) then ToNumber(perTime) else NaN
  }

  /** The rest of the guard: a numeric price and a numeric, positive per-unit divisor. */
  predicate Available(price: Number, divisor: Number)
  {
    price.Finite? && divisor.Finite? && divisor.x > 0.0
  }

  /** `price_modifier * per_time * duration_multiplier / pricing_unit_modifier`, or unavailable. */
  function Project(price: Number, modifier: Number, duration: string, divisor: Number): (c: Cell)
    ensures c.Unavailable? <==> !Available(price, divisor)
    ensures c.NotANumber? <==> Available(price, divisor) && (modifier.NaN? || HourMultiplier(duration).NaN?)
  {
    if Available(price, divisor) then
      var h := HourMultiplier(duration);
      if modifier.Finite? && h.Finite? then
        Priced(modifier.x * price.x * h.x / divisor.x)
      else NotANumber
    else Unavailable
  }

  /** For the `instance` unit the divisor is fixed at 1; otherwise it is the cell's own data. */
  function DivisorFor(unit: string, unitData: map<string, Value>): (d: Number)
    ensures unit == "instance" ==> d == Finite(1.0)
  {
    if unit == "instance" then Finite(1.0) else ToNumber(Get(unitData, unit))
  }

  /** The four kinds of cost cells, each priced from its own lookup. */
  datatype Category = OnDemand | Reserved | EbsOptimized | Emr

  /** The arguments of one `get_pricing` call: row id, region, platform and what follows them. */
  datatype PriceQuery = PriceQuery(rowId: string, region: Value, platform: Value, rest: seq<Value>)

  /** A cost cell of the table: its kind, its row, its data attributes and what it shows. */
  datatype CostCell = CostCell(category: Category, rowId: string, platform: Value,
                               unitData: map<string, Value>, content: Cell)

  /** The `get_pricing` call `change_cost` makes for a cell of each kind. */
  function QueryFor(cell: CostCell, settings: Settings): (q: PriceQuery)
    ensures q.rowId == cell.rowId && q.region == Get(settings, "region")
  {
    match cell.category
    case OnDemand => PriceQuery(cell.rowId, Get(settings, "region"), cell.platform, [Str("ondemand")])
    case Reserved =>
      PriceQuery(cell.rowId, Get(settings, "region"), cell.platform,
                 [Str("reserved"), Get(settings, "reserved_term")])
    case EbsOptimized => PriceQuery(cell.rowId, Get(settings, "region"), Str("ebs"), [])
    case Emr => PriceQuery(cell.rowId, Get(settings, "region"), Str("emr"), [Str("emr")])
  }

  /** The cell after `change_cost` has rewritten it; only its content changes. */
  function Repriced(cell: CostCell, settings: Settings, duration: string, unit: string,
                    modifier: Value, lookup: PriceQuery -> Value): (c: CostCell)
    ensures c.(content := cell.content) == cell
  {
    cell.(content := Project(PriceOf(lookup(QueryFor(cell, settings))), ToNumber(modifier), duration,
                             DivisorFor(unit, cell.unitData)))
  }

  /** One pass of `change_cost`: a cell of `category` is re-priced, any other cell is left alone. */
  function RepricedIf(cell: CostCell, category: Category, settings: Settings, duration: string, unit: string,
                      modifier: Value, lookup: PriceQuery -> Value): (c: CostCell)
    ensures c.category == cell.category && c.(content := cell.content) == cell
    ensures cell.category != category ==> c == cell
  {
    if cell.category == category then Repriced(cell, settings, duration, unit, modifier, lookup) else cell
  }

  /** Every cost cell re-priced, as the four passes of `change_cost` leave them. */
  function RepriceAll(cells: seq<CostCell>, settings: Settings, duration: string, unit: string,
                      modifier: Value, lookup: PriceQuery -> Value): (r: seq<CostCell>)
    ensures |r| == |cells|
  {
    seq(|cells|, k requires 0 <= k < |cells| => Repriced(cells[k], settings, duration, unit, modifier, lookup))
  }

  // ---------------------------------------------------------------------------
  // Properties

  /** An unavailable cell sorts with key 999999, after every realistic price. */
  lemma UnavailableSortsLast(price: Number, modifier: Number, duration: string, divisor: Number)
    requires !Available(price, divisor)
    ensures Project(price, modifier, duration, divisor).SortKey() == Finite(UnavailableSortKey)
  {
  }

  /** A price of 0 is falsy, so the cell reads "unavailable" rather than 0. */
  lemma ZeroPriceIsUnavailable(modifier: Number, duration: string, divisor: Number)
    ensures Project(PriceOf(Num(0.0)), modifier, duration, divisor) == Unavailable
  {
  }

  /** At the defaults (hourly, per instance, modifier 1) a cell shows the looked-up price itself. */
  lemma IdentityAtDefaults(p: real)
    requires p != 0.0
    ensures Project(PriceOf(Num(p)), Finite(1.0), "hourly", DivisorFor("instance", map[])) == Priced(p)
  {
  }

  /** 10 per hour, shown daily, per vCPU on a 4-vCPU instance, modifier 1: 10 * 24 / 4 = 60. */
  lemma DailyPerVcpuExample()
    ensures Project(PriceOf(Num(10.0)), Finite(1.0), "daily", DivisorFor("vcpu", map["vcpu" := Num(4.0)]))
            == Priced(60.0)
  {
  }

  /**
   * The projection can be undone: dividing out the modifier and the duration
   * and multiplying back the divisor gives the hourly price.
   */
  lemma ProjectionInverse(p: real, m: real, duration: string, d: real)
    requires m != 0.0 && d > 0.0 && HourMultiplier(duration).Finite?
    ensures Project(Finite(p), Finite(m), duration, Finite(d)).Priced?
    ensures Project(Finite(p), Finite(m), duration, Finite(d)).amount * d / (m * HourMultiplier(duration).x) == p
  {
    var h := HourMultiplier(duration).x;
    var a := m * p * h / d;
    assert a * d == m * p * h;
    assert m * h != 0.0;
    assert (m * p * h) / (m * h) == p;
  }

  /** A priced amount is the duration's hours times the price per hour. */
  lemma AmountPerHour(p: real, m: real, duration: string, d: real)
    requires d > 0.0 && HourMultiplier(duration).Finite?
    ensures Project(Finite(p), Finite(m), duration, Finite(d))
            == Priced(HourMultiplier(duration).x * (m * p / d))
  {
    MultiplyThenDivide(m * p, HourMultiplier(duration).x, d);
  }

  lemma MultiplyThenDivide(b: real, h: real, div: real)
    requires div > 0.0
    ensures b * h / div == h * (b / div)
  {
    var q := b / div;
    assert q * div == b;
    assert (h * q) * div == h * b;
  }

  /**
   * The durations are consistent with one another: a day is 24 hours, a week
   * 7 days, a year 12 months or 365 days, and an hour 3600 seconds.
   */
  lemma DurationsScale(p: real, m: real, d: real)
    requires d > 0.0
    ensures Project(Finite(p), Finite(m), "daily", Finite(d)).amount
            == 24.0 * Project(Finite(p), Finite(m), "hourly", Finite(d)).amount
    ensures Project(Finite(p), Finite(m), "weekly", Finite(d)).amount
            == 7.0 * Project(Finite(p), Finite(m), "daily", Finite(d)).amount
    ensures Project(Finite(p), Finite(m), "annually", Finite(d)).amount
            == 12.0 * Project(Finite(p), Finite(m), "monthly", Finite(d)).amount
    ensures Project(Finite(p), Finite(m), "annually", Finite(d)).amount
            == 365.0 * Project(Finite(p), Finite(m), "daily", Finite(d)).amount
    ensures Project(Finite(p), Finite(m), "hourly", Finite(d)).amount
            == 3600.0 * Project(Finite(p), Finite(m), "secondly", Finite(d)).amount
  {
    AmountPerHour(p, m, "hourly", d);
    AmountPerHour(p, m, "daily", d);
    AmountPerHour(p, m, "weekly", d);
    AmountPerHour(p, m, "monthly", d);
    AmountPerHour(p, m, "annually", d);
    AmountPerHour(p, m, "secondly", d);
  }

  /**
   * The four passes of `change_cost` together re-price every cell exactly
   * once: a pass never changes a cell's kind, and each kind has its own pass.
   */
  lemma FourPassesRepriceOnce(cell: CostCell, settings: Settings, duration: string, unit: string,
                              modifier: Value, lookup: PriceQuery -> Value)
    ensures RepricedIf(RepricedIf(RepricedIf(RepricedIf(cell, OnDemand, settings, duration, unit, modifier, lookup),
                                             Reserved, settings, duration, unit, modifier, lookup),
                                  EbsOptimized, settings, duration, unit, modifier, lookup),
                       Emr, settings, duration, unit, modifier, lookup)
            == Repriced(cell, settings, duration, unit, modifier, lookup)
  {
  }

  /**
   * Per instance, a cell's own unit data plays no part: at the defaults every
   * cell shows the price its lookup returns, whatever its kind.
   */
  lemma RepricedAtDefaults(cell: CostCell, settings: Settings, lookup: PriceQuery -> Value, p: real)
    requires lookup(QueryFor(cell, settings)) == Num(p) && p != 0.0
    ensures Repriced(cell, settings, "hourly", "instance", Num(1.0), lookup).content == Priced(p)
  {
  }
}
