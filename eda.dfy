/**
 * The exploratory-analysis script: sales by region, by product and month, and by
 * hour; the busiest hour and the product sales within it; products ranked for
 * restocking; and the products that were never sold.
 */
module Eda {
  import opened Wrappers
  import opened Tables
  import opened Relational
  import opened Ordering

  // ----- The transactions frame -----

  /** The `transactions` frame, which gains its Month (line 51) and Hour (line 81) columns in place. */
  class TransactionFrame {
    var rows: seq<Transaction>
    var month: Option<seq<int>>
    var hour: Option<seq<int>>

    constructor (rows: seq<Transaction>)
      ensures this.rows == rows && month == None && hour == None
    {
      this.rows := rows;
      month := None;
      hour := None;
    }

    /** Line 51: the month of each TransactionDate, a number from 1 to 12. */
    method AddMonth()
      modifies this
      ensures rows == old(rows) && hour == old(hour)
      ensures month.Some? && |month.value| == |rows|
      ensures forall i :: 0 <= i < |rows| ==> month.value[i] == MonthOf(rows[i])
      ensures forall m :: m in month.value ==> 1 <= m <= 12
    {
      month := Some(Column(rows, MonthOf));
    }

    /** Line 81: the hour of each TransactionDate, a number from 0 to 23. */
    method AddHour()
      modifies this
      ensures rows == old(rows) && month == old(month)
      ensures hour.Some? && |hour.value| == |rows|
      ensures forall i :: 0 <= i < |rows| ==> hour.value[i] == HourOf(rows[i])
      ensures forall h :: h in hour.value ==> 0 <= h <= 23
    {
      hour := Some(Column(rows, HourOf));
    }
  }

  // ----- Insight 1: regions -----

  /** A row of `merged_data`: a transaction with its customer's record. */
  datatype Sale = Sale(transaction: Transaction, customer: Customer)

  function SaleRegion(s: Sale): string { s.customer.region }
  function SaleValue(s: Sale): int { s.transaction.totalValue }

  function ToSales(ps: seq<(Transaction, Customer)>): (r: seq<Sale>)
    ensures |r| == |ps|
    ensures forall i :: 0 <= i < |ps| ==> r[i] == Sale(ps[i].0, ps[i].1)
  {
    seq(|ps|, i requires 0 <= i < |ps| => Sale(ps[i].0, ps[i].1))
  }

  /** Line 19: transactions inner-merged with customers on CustomerID. */
  function MergeCustomers(ts: seq<Transaction>, cs: seq<Customer>): (r: seq<Sale>)
    ensures forall s :: s in r <==>
      s.transaction in ts && s.customer in cs && s.customer.id == s.transaction.customer
  {
    var pairs := Join(ts, cs, BuyerOf, CustomerKey);
    var r := ToSales(pairs);
    assert forall s: Sale :: s in r <==> (s.transaction, s.customer) in pairs by {
      forall s: Sale | s in r ensures (s.transaction, s.customer) in pairs {
        var i :| 0 <= i < |r| && r[i] == s;
        assert pairs[i] == (s.transaction, s.customer);
      }
      forall s: Sale | (s.transaction, s.customer) in pairs ensures s in r {
        var i :| 0 <= i < |pairs| && pairs[i] == (s.transaction, s.customer);
        assert r[i] == s;
      }
    }
    r
  }

  function SaleTransaction(s: Sale): Transaction { s.transaction }

  /**
   * With unique CustomerIDs the merge yields one row per transaction whose customer
   * has a record, in transaction order.
   */
  lemma MergeCustomersOnUniqueIds(ts: seq<Transaction>, cs: seq<Customer>)
    requires UniqueKeys(cs, CustomerKey)
    ensures Column(MergeCustomers(ts, cs), SaleTransaction) == WhereIn(ts, BuyerOf, KeysOf(cs, CustomerKey))
  {
    var pairs := Join(ts, cs, BuyerOf, CustomerKey);
    var merged := MergeCustomers(ts, cs);
    assert merged == ToSales(pairs);
    assert Column(merged, SaleTransaction) == Lefts(pairs);
    JoinOnUniqueKey(ts, cs, BuyerOf, CustomerKey);
  }

  /** A row of `region_summary`. */
  datatype RegionRow = RegionRow(region: string, totalTransactions: nat, totalSales: Cents)

  function RegionName(r: RegionRow): string { r.region }
  function RegionCount(r: RegionRow): int { r.totalTransactions }
  function RegionSales(r: RegionRow): int { r.totalSales }

  /** Lines 22-26: per region, in ascending order, the number of merged rows and their total value. */
  function RegionSummary(merged: seq<Sale>): seq<RegionRow>
  {
    var regions := SortedKeys(Column(merged, SaleRegion));
    seq(|regions|, i requires 0 <= i < |regions| =>
      RegionRow(regions[i], |Where(merged, SaleRegion, regions[i])|, Total(Where(merged, SaleRegion, regions[i]), SaleValue)))
  }

  /**
   * One row per region of the merged data and none for any other, in ascending
   * order; each row counts the merged rows of its region (at least one) and sums
   * their TotalValue.
   */
  lemma RegionSummaryRows(merged: seq<Sale>)
    ensures StrictlyAscending(Column(RegionSummary(merged), RegionName))
    ensures forall g :: g in Column(RegionSummary(merged), RegionName) <==> g in KeysOf(merged, SaleRegion)
    ensures forall r :: r in RegionSummary(merged) ==>
      && r.totalTransactions == |Where(merged, SaleRegion, r.region)|
      && r.totalTransactions >= 1
      && r.totalSales == Total(Where(merged, SaleRegion, r.region), SaleValue)
  {
    var regions := SortedKeys(Column(merged, SaleRegion));
    var summary := RegionSummary(merged);
    assert Column(summary, RegionName) == regions;
    forall r | r in summary ensures r.totalTransactions >= 1 {
      var i :| 0 <= i < |summary| && summary[i] == r;
      assert r.region == regions[i] && regions[i] in regions;
      var x :| x in merged && SaleRegion(x) == r.region;
      assert x in Where(merged, SaleRegion, r.region);
    }
  }

  /** The region counts add up to the number of merged rows and the sales to their total value. */
  lemma RegionSummaryIsPartition(merged: seq<Sale>)
    ensures Total(RegionSummary(merged), RegionCount) == |merged|
    ensures Total(RegionSummary(merged), RegionSales) == Total(merged, SaleValue)
  {
    var regions := SortedKeys(Column(merged, SaleRegion));
    var summary := RegionSummary(merged);
    AscendingIsDistinct(regions);
    GroupReportCount(summary, RegionCount, regions, merged, SaleRegion);
    GroupReportTotal(summary, RegionSales, regions, merged, SaleRegion, SaleValue);
  }

  // ----- Insights 4 and 5: sales per product -----

  /** A row of `peak_hour_product_sales` or `product_sales_summary`. */
  datatype ProductSales = ProductSales(product: ProductId, totalSales: Cents, totalQuantity: int)

  function SalesProduct(s: ProductSales): ProductId { s.product }
  function SalesTotal(s: ProductSales): int { s.totalSales }
  function SalesQuantity(s: ProductSales): int { s.totalQuantity }

  /** Lines 116-120 and 143-147: per product, in ascending ProductID order, the summed TotalValue and Quantity. */
  function ProductSummary(ts: seq<Transaction>): seq<ProductSales>
  {
    var ids := SortedKeys(Column(ts, ProductOf));
    seq(|ids|, i requires 0 <= i < |ids| =>
      ProductSales(ids[i], Total(Where(ts, ProductOf, ids[i]), ValueOf), Total(Where(ts, ProductOf, ids[i]), QuantityOf)))
  }

  /**
   * One row per product sold and none for any other, in ascending ProductID order;
   * each row sums TotalValue and Quantity over that product's transactions.
   */
  lemma ProductSummaryRows(ts: seq<Transaction>)
    ensures StrictlyAscending(Column(ProductSummary(ts), SalesProduct))
    ensures forall p :: p in Column(ProductSummary(ts), SalesProduct) <==> p in KeysOf(ts, ProductOf)
    ensures forall s :: s in ProductSummary(ts) ==>
      && s.totalSales == Total(Where(ts, ProductOf, s.product), ValueOf)
      && s.totalQuantity == Total(Where(ts, ProductOf, s.product), QuantityOf)
  {
    var ids := SortedKeys(Column(ts, ProductOf));
    assert Column(ProductSummary(ts), SalesProduct) == ids;
  }

  /** The product rows add up to the TotalValue and Quantity of all transactions. */
  lemma ProductSummaryIsPartition(ts: seq<Transaction>)
    ensures Total(ProductSummary(ts), SalesTotal) == Total(ts, ValueOf)
    ensures Total(ProductSummary(ts), SalesQuantity) == Total(ts, QuantityOf)
  {
    var ids := SortedKeys(Column(ts, ProductOf));
    AscendingIsDistinct(ids);
    GroupReportTotal(ProductSummary(ts), SalesTotal, ids, ts, ProductOf, ValueOf);
    GroupReportTotal(ProductSummary(ts), SalesQuantity, ids, ts, ProductOf, QuantityOf);
  }

  // ----- Insight 2: sales per product and month -----

  /** A row of `product_month_summary`. */
  datatype ProductMonthSales = ProductMonthSales(product: ProductId, month: MonthNum, totalSales: Cents, totalQuantity: int)

  function MonthlyProduct(s: ProductMonthSales): ProductId { s.product }
  function MonthlySales(s: ProductMonthSales): int { s.totalSales }
  function MonthlyQuantity(s: ProductMonthSales): int { s.totalQuantity }
  function MonthlyKey(s: ProductMonthSales): (ProductId, int) { (s.product, s.month as int) }
  function ProductMonthOf(t: Transaction): (ProductId, int) { (t.product, t.date.month) }

  /** The rows of product `p`, one per month in which it sold, in month order. */
  function MonthBlock(ts: seq<Transaction>, p: ProductId): (r: seq<ProductMonthSales>)
    ensures forall x :: x in r ==> x.product == p
  {
    var pts := Where(ts, ProductOf, p);
    var months := PresentKeys(pts, MonthOf, 1, 13);
    assert forall i :: 0 <= i < |months| ==> months[i] in months;
    seq(|months|, i requires 0 <= i < |months| =>
      ProductMonthSales(p, months[i], Total(Where(pts, MonthOf, months[i]), ValueOf), Total(Where(pts, MonthOf, months[i]), QuantityOf)))
  }

  function Blocks(ts: seq<Transaction>, ps: seq<ProductId>): seq<ProductMonthSales>
  {
    if ps == [] then [] else MonthBlock(ts, ps[0]) + Blocks(ts, ps[1..])
  }

  /** Lines 54-58: grouping by (ProductID, Month), ordered by product and then by month. */
  function ProductMonthSummary(ts: seq<Transaction>): seq<ProductMonthSales>
  {
    Blocks(ts, SortedKeys(Column(ts, ProductOf)))
  }

  /** The order of a two-key `groupby` index: by product, then by month. */
  predicate KeyBefore(a: (ProductId, int), b: (ProductId, int))
  {
    LexLess(a.0, b.0) || (a.0 == b.0 && a.1 < b.1)
  }

  /** Within a product's block the months are strictly ascending. */
  lemma MonthBlockAscending(ts: seq<Transaction>, p: ProductId)
    ensures forall i, j :: 0 <= i < j < |MonthBlock(ts, p)| ==> MonthBlock(ts, p)[i].month < MonthBlock(ts, p)[j].month
  {
    var months := PresentKeys(Where(ts, ProductOf, p), MonthOf, 1, 13);
    assert forall i :: 0 <= i < |months| ==> MonthBlock(ts, p)[i].month as int == months[i];
  }

  /** A key of product `q`'s block is a (q, month) pair that occurs in the transactions. */
  lemma MonthBlockKeys(ts: seq<Transaction>, q: ProductId, p: ProductId, m: int)
    ensures (p, m) in Column(MonthBlock(ts, q), MonthlyKey) <==> p == q && (p, m) in KeysOf(ts, ProductMonthOf)
  {
    var pts := Where(ts, ProductOf, q);
    var block := MonthBlock(ts, q);
    var months := PresentKeys(pts, MonthOf, 1, 13);
    assert |block| == |months|;
    if p == q && (p, m) in KeysOf(ts, ProductMonthOf) {
      var t :| t in ts && ProductMonthOf(t) == (p, m);
      assert t in pts;
      assert m in months;
      var i :| 0 <= i < |months| && months[i] == m;
      assert Column(block, MonthlyKey)[i] == (p, m);
    }
    if (p, m) in Column(block, MonthlyKey) {
      var i :| 0 <= i < |block| && MonthlyKey(block[i]) == (p, m);
      assert block[i] in block;
      assert months[i] in months;
      var t :| t in pts && MonthOf(t) == m;
      assert ProductMonthOf(t) == (p, m);
    }
  }

  lemma {:induction false} BlocksShape(ts: seq<Transaction>, ps: seq<ProductId>)
    requires StrictlyAscending(ps)
    ensures forall i, j :: 0 <= i < j < |Blocks(ts, ps)| ==>
      KeyBefore(MonthlyKey(Blocks(ts, ps)[i]), MonthlyKey(Blocks(ts, ps)[j]))
    ensures forall x :: x in Blocks(ts, ps) ==> x.product in ps
  {
    if ps != [] {
      var block := MonthBlock(ts, ps[0]);
      var rest := Blocks(ts, ps[1..]);
      BlocksShape(ts, ps[1..]);
      MonthBlockAscending(ts, ps[0]);
      assert Blocks(ts, ps) == block + rest;
      forall x | x in rest ensures LexLess(ps[0], x.product) {
        var k :| 0 < k < |ps| && ps[k] == x.product;
      }
      forall i, j | 0 <= i < j < |block + rest|
        ensures KeyBefore(MonthlyKey((block + rest)[i]), MonthlyKey((block + rest)[j]))
      {
        if j < |block| {
        } else if i < |block| {
          assert (block + rest)[j] in rest;
        }
      }
      forall x | x in Blocks(ts, ps) ensures x.product in ps {
        if x in rest {
          var k :| 0 <= k < |ps[1..]| && ps[1..][k] == x.product;
        }
      }
    }
  }

  lemma {:induction false} BlocksKeys(ts: seq<Transaction>, ps: seq<ProductId>, p: ProductId, m: int)
    ensures (p, m) in Column(Blocks(ts, ps), MonthlyKey) <==> p in ps && (p, m) in KeysOf(ts, ProductMonthOf)
  {
    if ps != [] {
      var block := MonthBlock(ts, ps[0]);
      var rest := Blocks(ts, ps[1..]);
      BlocksKeys(ts, ps[1..], p, m);
      MonthBlockKeys(ts, ps[0], p, m);
      assert Blocks(ts, ps) == block + rest;
      ColumnAppend(block, rest, MonthlyKey);
      var cb, cr := Column(block, MonthlyKey), Column(rest, MonthlyKey);
      assert (p, m) in cb + cr <==> (p, m) in cb || (p, m) in cr;
      assert p in ps <==> p == ps[0] || p in ps[1..] by {
        assert ps == [ps[0]] + ps[1..];
      }
    }
  }

  /**
   * `product_month_summary` has exactly one row per (ProductID, Month) pair that
   * occurs in the transactions, ordered by product and then by month.
   */
  lemma ProductMonthSummaryShape(ts: seq<Transaction>)
    ensures forall i, j :: 0 <= i < j < |ProductMonthSummary(ts)| ==>
      KeyBefore(MonthlyKey(ProductMonthSummary(ts)[i]), MonthlyKey(ProductMonthSummary(ts)[j]))
    ensures forall p, m :: (p, m) in Column(ProductMonthSummary(ts), MonthlyKey) <==> (p, m) in KeysOf(ts, ProductMonthOf)
  {
    var ps := SortedKeys(Column(ts, ProductOf));
    BlocksShape(ts, ps);
    forall p, m ensures (p, m) in Column(ProductMonthSummary(ts), MonthlyKey) <==> (p, m) in KeysOf(ts, ProductMonthOf) {
      BlocksKeys(ts, ps, p, m);
      if (p, m) in KeysOf(ts, ProductMonthOf) {
        var t :| t in ts && ProductMonthOf(t) == (p, m);
        assert p in KeysOf(ts, ProductOf);
      }
    }
  }

  /** A product's monthly sales and quantities add up to its totals over all months. */
  lemma MonthBlockTotals(ts: seq<Transaction>, p: ProductId)
    ensures Total(MonthBlock(ts, p), MonthlySales) == Total(Where(ts, ProductOf, p), ValueOf)
    ensures Total(MonthBlock(ts, p), MonthlyQuantity) == Total(Where(ts, ProductOf, p), QuantityOf)
  {
    var pts := Where(ts, ProductOf, p);
    var months := PresentKeys(pts, MonthOf, 1, 13);
    IncreasingIsDistinct(months);
    GroupReportTotal(MonthBlock(ts, p), MonthlySales, months, pts, MonthOf, ValueOf);
    GroupReportTotal(MonthBlock(ts, p), MonthlyQuantity, months, pts, MonthOf, QuantityOf);
  }

  lemma {:induction false} WhereBlocks(ts: seq<Transaction>, ps: seq<ProductId>, p: ProductId)
    requires StrictlyAscending(ps)
    ensures Where(Blocks(ts, ps), MonthlyProduct, p) == if p in ps then MonthBlock(ts, p) else []
  {
    if ps != [] {
      var block := MonthBlock(ts, ps[0]);
      var rest := Blocks(ts, ps[1..]);
      WhereAppend(block, rest, MonthlyProduct, p);
      WhereBlocks(ts, ps[1..], p);
      if p == ps[0] {
        WhereAll(block, MonthlyProduct, p);
        LexLessIrreflexive(p);
        assert p !in ps[1..];
      } else {
        WhereNone(block, MonthlyProduct, p);
      }
    }
  }

  /** Each row of `product_month_summary` sums TotalValue and Quantity over the transactions of its product and month. */
  lemma ProductMonthRowValues(ts: seq<Transaction>, x: ProductMonthSales)
    requires x in ProductMonthSummary(ts)
    ensures x.totalSales == Total(Where(Where(ts, ProductOf, x.product), MonthOf, x.month as int), ValueOf)
    ensures x.totalQuantity == Total(Where(Where(ts, ProductOf, x.product), MonthOf, x.month as int), QuantityOf)
  {
    var ps := SortedKeys(Column(ts, ProductOf));
    WhereBlocks(ts, ps, x.product);
    assert x in Where(ProductMonthSummary(ts), MonthlyProduct, x.product);
    var block := MonthBlock(ts, x.product);
    assert x in block;
    var i :| 0 <= i < |block| && block[i] == x;
    var months := PresentKeys(Where(ts, ProductOf, x.product), MonthOf, 1, 13);
    assert months[i] in months;
  }

  /**
   * Summing a product's rows of `product_month_summary` gives that product's row of
   * `product_sales_summary`: every sold product's monthly sales and quantities add
   * up to its overall TotalSales and TotalQuantity.
   */
  lemma MonthlySalesAddUp(ts: seq<Transaction>, s: ProductSales)
    requires s in ProductSummary(ts)
    ensures Total(Where(ProductMonthSummary(ts), MonthlyProduct, s.product), MonthlySales) == s.totalSales
    ensures Total(Where(ProductMonthSummary(ts), MonthlyProduct, s.product), MonthlyQuantity) == s.totalQuantity
  {
    var ps := SortedKeys(Column(ts, ProductOf));
    ProductSummaryRows(ts);
    assert s.product in Column(ProductSummary(ts), SalesProduct);
    WhereBlocks(ts, ps, s.product);
    MonthBlockTotals(ts, s.product);
  }

  // ----- Insight 3: transactions per hour and the peak hour -----

  /** A row of `hourly_summary`. */
  datatype HourCount = HourCount(hour: HourNum, totalTransactions: nat)

  function HourTransactions(h: HourCount): int { h.totalTransactions }

  function HourOfRow(h: HourCount): int { h.hour }

  function HourRows(ts: seq<Transaction>, hours: seq<int>): (r: seq<HourCount>)
    requires forall h :: h in hours ==> 0 <= h < 24
    ensures |r| == |hours|
    ensures forall i :: 0 <= i < |hours| ==> r[i].hour == hours[i] && r[i].totalTransactions == |Where(ts, HourOf, hours[i])|
    ensures Column(r, HourOfRow) == hours
  {
    if hours == [] then []
    else
      assert hours[0] in hours;
      assert forall h :: h in hours[1..] ==> h in hours;
      [HourCount(hours[0], |Where(ts, HourOf, hours[0])|)] + HourRows(ts, hours[1..])
  }

  /** Lines 84-88: per hour of the day occurring in the data, ascending, the number of transactions. */
  function HourlySummary(ts: seq<Transaction>): (r: seq<HourCount>)
    ensures forall i, j :: 0 <= i < j < |r| ==> r[i].hour < r[j].hour
    ensures forall h :: h in Column(r, HourOfRow) <==> h in KeysOf(ts, HourOf)
    ensures forall i :: 0 <= i < |r| ==> r[i].totalTransactions == |Where(ts, HourOf, r[i].hour)|
  {
    HourRows(ts, PresentKeys(ts, HourOf, 0, 24))
  }

  /** The hourly counts add up to the number of transactions. */
  lemma HourlySummaryIsPartition(ts: seq<Transaction>)
    ensures Total(HourlySummary(ts), HourTransactions) == |ts|
  {
    var hours := PresentKeys(ts, HourOf, 0, 24);
    IncreasingIsDistinct(hours);
    GroupReportCount(HourlySummary(ts), HourTransactions, hours, ts, HourOf);
  }

  /** `idxmax`: the position of the first largest value. */
  function FirstMaxIndex(s: seq<int>): (i: nat)
    requires s != []
    ensures i < |s|
    ensures forall j :: 0 <= j < |s| ==> s[j] <= s[i]
    ensures forall j :: 0 <= j < i ==> s[j] < s[i]
  {
    if |s| == 1 then 0
    else
      var k := FirstMaxIndex(s[..|s| - 1]);
      if s[|s| - 1] > s[k] then |s| - 1 else k
  }

  /** Why `idxmax` has no answer. */
  datatype EdaError = EmptySequence

  /** Line 110: the Hour of the row with the first largest TotalTransactions; an error on an empty table. */
  function PeakHour(summary: seq<HourCount>): (r: Result<HourNum, EdaError>)
    ensures r.Failure? <==> summary == []
  {
    if summary == [] then Failure(EmptySequence)
    else Success(summary[FirstMaxIndex(Column(summary, HourTransactions))].hour)
  }

  lemma EarlierHourEarlierRow(s: seq<HourCount>, j: nat, i: nat)
    requires forall a, b :: 0 <= a < b < |s| ==> s[a].hour < s[b].hour
    requires j < |s| && i < |s| && s[j].hour < s[i].hour
    ensures j < i
  {
  }

  lemma FirstMaxRowBeats(s: seq<HourCount>, i: nat, j: nat)
    requires forall a, b :: 0 <= a < b < |s| ==> s[a].hour < s[b].hour
    requires s != [] && i == FirstMaxIndex(Column(s, HourTransactions))
    requires j < |s|
    ensures s[j].totalTransactions <= s[i].totalTransactions
    ensures s[j].hour < s[i].hour ==> s[j].totalTransactions < s[i].totalTransactions
  {
    var counts := Column(s, HourTransactions);
    assert counts[j] <= counts[i];
    if s[j].hour < s[i].hour {
      EarlierHourEarlierRow(s, j, i);
    }
  }

  /** What `HourlySummary` promises about a table of hourly counts. */
  ghost predicate IsHourlySummary(ts: seq<Transaction>, s: seq<HourCount>)
  {
    && (forall a, b :: 0 <= a < b < |s| ==> s[a].hour < s[b].hour)
    && (forall h :: h in Column(s, HourOfRow) <==> h in KeysOf(ts, HourOf))
    && (forall k :: 0 <= k < |s| ==> s[k].totalTransactions == |Where(ts, HourOf, s[k].hour)|)
  }

  lemma SummaryHourOccurs(ts: seq<Transaction>, s: seq<HourCount>, i: nat)
    requires IsHourlySummary(ts, s)
    requires i < |s|
    ensures s[i].hour in KeysOf(ts, HourOf)
    ensures |Where(ts, HourOf, s[i].hour)| >= 1
  {
    assert HourOfRow(s[i]) in Column(s, HourOfRow);
    var t :| t in ts && HourOf(t) == s[i].hour;
    assert t in Where(ts, HourOf, s[i].hour);
  }

  lemma FirstMaxRowBeatsHour(ts: seq<Transaction>, s: seq<HourCount>, i: nat, h: int)
    requires IsHourlySummary(ts, s)
    requires s != [] && i == FirstMaxIndex(Column(s, HourTransactions))
    ensures |Where(ts, HourOf, h)| <= |Where(ts, HourOf, s[i].hour)|
    ensures h < s[i].hour ==> |Where(ts, HourOf, h)| < |Where(ts, HourOf, s[i].hour)|
  {
    if h in KeysOf(ts, HourOf) {
      assert h in Column(s, HourOfRow);
      var j :| 0 <= j < |s| && HourOfRow(s[j]) == h;
      FirstMaxRowBeats(s, i, j);
    } else {
      WhereNone(ts, HourOf, h);
      SummaryHourOccurs(ts, s, i);
    }
  }

  /** The row at the first maximal count holds an hour of the data that no hour outnumbers and every earlier hour falls short of. */
  lemma FirstMaxRowIsLowestBusiest(ts: seq<Transaction>, s: seq<HourCount>, i: nat)
    requires IsHourlySummary(ts, s)
    requires s != [] && i == FirstMaxIndex(Column(s, HourTransactions))
    ensures s[i].hour in KeysOf(ts, HourOf)
    ensures forall h :: |Where(ts, HourOf, h)| <= |Where(ts, HourOf, s[i].hour)|
    ensures forall h :: h < s[i].hour ==> |Where(ts, HourOf, h)| < |Where(ts, HourOf, s[i].hour)|
  {
    SummaryHourOccurs(ts, s, i);
    forall h ensures |Where(ts, HourOf, h)| <= |Where(ts, HourOf, s[i].hour)|
      ensures h < s[i].hour ==> |Where(ts, HourOf, h)| < |Where(ts, HourOf, s[i].hour)|
    {
      FirstMaxRowBeatsHour(ts, s, i, h);
    }
  }

  /**
   * The peak hour exists exactly when there are transactions; then it occurs in the
   * data, no hour has more transactions, and every earlier hour has fewer: it is the
   * lowest of the busiest hours.
   */
  lemma PeakHourIsLowestBusiest(ts: seq<Transaction>)
    ensures PeakHour(HourlySummary(ts)).Failure? <==> ts == []
    ensures PeakHour(HourlySummary(ts)).Success? ==>
      var peak := PeakHour(HourlySummary(ts)).value;
      && peak in KeysOf(ts, HourOf)
      && (forall h :: |Where(ts, HourOf, h)| <= |Where(ts, HourOf, peak)|)
      && (forall h :: h < peak ==> |Where(ts, HourOf, h)| < |Where(ts, HourOf, peak)|)
  {
    var summary := HourlySummary(ts);
    if ts != [] {
      assert HourOf(ts[0]) in KeysOf(ts, HourOf);
      assert HourOf(ts[0]) in Column(summary, HourOfRow);
    }
    if summary != [] {
      var i := FirstMaxIndex(Column(summary, HourTransactions));
      FirstMaxRowIsLowestBusiest(ts, summary, i);
    }
  }

  // ----- Insight 4: sales in the peak hour -----

  /** Line 113: the transactions of hour `h`. */
  function HourTransactionsOf(ts: seq<Transaction>, h: int): (r: seq<Transaction>)
    ensures forall t :: t in r <==> t in ts && t.date.hour == h
  {
    Where(ts, HourOf, h)
  }

  /**
   * With non-negative values and quantities, each product's TotalSales and
   * TotalQuantity within one hour are at most its overall totals.
   */
  lemma PeakHourSalesBounded(ts: seq<Transaction>, h: int)
    requires NonNegative(ts)
    ensures forall a, b :: a in ProductSummary(HourTransactionsOf(ts, h)) && b in ProductSummary(ts) && a.product == b.product ==>
      a.totalSales <= b.totalSales && a.totalQuantity <= b.totalQuantity
  {
    var peak := HourTransactionsOf(ts, h);
    ProductSummaryRows(peak);
    ProductSummaryRows(ts);
    forall a, b | a in ProductSummary(peak) && b in ProductSummary(ts) && a.product == b.product
      ensures a.totalSales <= b.totalSales && a.totalQuantity <= b.totalQuantity
    {
      var p := a.product;
      WhereCommutes(ts, HourOf, h, ProductOf, p);
      TotalWhereBound(Where(ts, ProductOf, p), HourOf, h, ValueOf);
      TotalWhereBound(Where(ts, ProductOf, p), HourOf, h, QuantityOf);
    }
  }

  /** The order of `sort_values(by="TotalSales", ascending=False)`. */
  function SellsAtLeast(a: ProductSales, b: ProductSales): bool { a.totalSales >= b.totalSales }

  lemma SellsAtLeastIsTotal()
    ensures TotalPreorder(SellsAtLeast)
  {
  }

  /** Line 130: the ten best-selling products of the peak hour. */
  function TopPeakProducts(peakSales: seq<ProductSales>): (r: seq<ProductSales>)
    ensures |r| == if 10 < |peakSales| then 10 else |peakSales|
    ensures SortedBy(r, SellsAtLeast)
    ensures multiset(r) <= multiset(peakSales)
    ensures forall x, y :: x in r && y in multiset(peakSales) - multiset(r) ==> SellsAtLeast(x, y)
  {
    SellsAtLeastIsTotal();
    TopN(peakSales, SellsAtLeast, 10)
  }

  // ----- Insight 5: stock recommendations -----

  /** A row of `product_recommendations`: a product's sales joined with its record. */
  datatype Recommendation = Recommendation(
    product: ProductId,
    name: string,
    category: string,
    totalSales: Cents,
    totalQuantity: int,
    price: Cents)

  function Recommend(p: (ProductSales, Product)): Recommendation
  {
    Recommendation(p.0.product, p.1.name, p.1.category, p.0.totalSales, p.0.totalQuantity, p.1.price)
  }

  function RecommendAll(ps: seq<(ProductSales, Product)>): (r: seq<Recommendation>)
    ensures |r| == |ps|
    ensures forall i :: 0 <= i < |ps| ==> r[i] == Recommend(ps[i])
  {
    seq(|ps|, i requires 0 <= i < |ps| => Recommend(ps[i]))
  }

  /** The order of `sort_values(by=["TotalSales", "Price"], ascending=False)`. */
  function RanksAtLeast(a: Recommendation, b: Recommendation): bool
  {
    a.totalSales > b.totalSales || (a.totalSales == b.totalSales && a.price >= b.price)
  }

  lemma RanksAtLeastIsTotal()
    ensures TotalPreorder(RanksAtLeast)
  {
  }

  /** Line 150: the product summary inner-merged with the product records. */
  function JoinProducts(summary: seq<ProductSales>, products: seq<Product>): (r: seq<Recommendation>)
    ensures forall x :: x in r ==> exists s, p :: s in summary && p in products && s.product == p.id && x == Recommend((s, p))
    ensures forall x :: x in r ==> x.product in KeysOf(summary, SalesProduct) && x.product in KeysOf(products, ProductKey)
    ensures forall s, p :: s in summary && p in products && s.product == p.id ==> Recommend((s, p)) in r
  {
    var pairs := Join(summary, products, SalesProduct, ProductKey);
    var r := RecommendAll(pairs);
    forall x | x in r
      ensures exists s, p :: s in summary && p in products && s.product == p.id && x == Recommend((s, p))
      ensures x.product in KeysOf(summary, SalesProduct) && x.product in KeysOf(products, ProductKey)
    {
      var i :| 0 <= i < |r| && r[i] == x;
      assert pairs[i] in pairs;
      assert x == Recommend((pairs[i].0, pairs[i].1));
    }
    forall s, p | s in summary && p in products && s.product == p.id ensures Recommend((s, p)) in r {
      assert (s, p) in pairs;
      var i :| 0 <= i < |pairs| && pairs[i] == (s, p);
      assert r[i] == Recommend((s, p));
    }
    r
  }

  function RecommendedProduct(x: Recommendation): ProductId { x.product }

  /**
   * With unique ProductIDs among the records, the merge yields exactly one row per sales
   * row that has a record, in the order of the sales rows.
   */
  lemma JoinProductsOnUniqueIds(summary: seq<ProductSales>, products: seq<Product>)
    requires UniqueKeys(products, ProductKey)
    ensures Column(JoinProducts(summary, products), RecommendedProduct)
         == Column(WhereIn(summary, SalesProduct, KeysOf(products, ProductKey)), SalesProduct)
    ensures |JoinProducts(summary, products)| == |WhereIn(summary, SalesProduct, KeysOf(products, ProductKey))|
  {
    var pairs := Join(summary, products, SalesProduct, ProductKey);
    var r := JoinProducts(summary, products);
    assert r == RecommendAll(pairs);
    JoinOnUniqueKey(summary, products, SalesProduct, ProductKey);
    assert Column(r, RecommendedProduct) == Column(Lefts(pairs), SalesProduct);
  }

  /**
   * Lines 150-153: every product with both sales and a record (and nothing else),
   * ordered by TotalSales descending and, among equal sales, by Price descending.
   */
  function Recommendations(summary: seq<ProductSales>, products: seq<Product>): (r: seq<Recommendation>)
    ensures multiset(r) == multiset(JoinProducts(summary, products))
    ensures forall x :: x in r ==> exists s, p :: s in summary && p in products && s.product == p.id && x == Recommend((s, p))
    ensures forall x :: x in r ==> x.product in KeysOf(summary, SalesProduct) && x.product in KeysOf(products, ProductKey)
    ensures forall s, p :: s in summary && p in products && s.product == p.id ==> Recommend((s, p)) in r
    ensures SortedBy(r, RanksAtLeast)
  {
    var joined := JoinProducts(summary, products);
    RanksAtLeastIsTotal();
    var r := Sort(joined, RanksAtLeast);
    assert forall x :: x in r <==> x in joined by {
      forall x ensures x in r <==> x in joined {
        assert x in r <==> x in multiset(r);
      }
    }
    r
  }

  /** Line 166: the first twenty recommendations. */
  function TopRecommendations(recommendations: seq<Recommendation>): (r: seq<Recommendation>)
    ensures |r| == if 20 < |recommendations| then 20 else |recommendations|
    ensures r == recommendations[..|r|]
  {
    Take(recommendations, 20)
  }

  // ----- Insight 6: products never sold -----

  /** Line 185: the products whose ProductID occurs in no transaction, in their original order. */
  function NewProducts(products: seq<Product>, ts: seq<Transaction>): (r: seq<Product>)
    ensures |r| <= |products|
    ensures forall p :: p in r <==> p in products && forall t :: t in ts ==> t.product != p.id
  {
    WhereNotIn(products, ProductKey, KeysOf(ts, ProductOf))
  }

  /**
   * The products never sold and the recommended products split the product records:
   * no new product is recommended, and every other product is.
   */
  lemma NewProductsAreNotRecommended(products: seq<Product>, ts: seq<Transaction>)
    ensures forall n, x :: n in NewProducts(products, ts) && x in Recommendations(ProductSummary(ts), products) ==>
      n.id != x.product
    ensures forall p :: p in products && p !in NewProducts(products, ts) ==>
      exists x :: x in Recommendations(ProductSummary(ts), products) && x.product == p.id
  {
    var summary := ProductSummary(ts);
    var recs := Recommendations(summary, products);
    ProductSummaryRows(ts);
    forall n, x | n in NewProducts(products, ts) && x in recs ensures n.id != x.product {
      assert x.product in Column(summary, SalesProduct);
    }
    forall p | p in products && p !in NewProducts(products, ts)
      ensures exists x :: x in recs && x.product == p.id
    {
      var t :| t in ts && t.product == p.id;
      assert p.id in KeysOf(ts, ProductOf);
      assert p.id in Column(summary, SalesProduct);
      var i :| 0 <= i < |summary| && summary[i].product == p.id;
      assert summary[i] in summary;
      assert Recommend((summary[i], p)) in recs;
    }
  }
}
