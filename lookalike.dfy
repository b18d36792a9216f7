/**
 * The lookalike script: transactions joined with customers and products, one feature
 * row per customer (total spend, mean transaction value, purchase count and
 * per-category purchase counts), and the three nearest neighbours of the first
 * twenty customers read off a precomputed similarity table.
 */
module Lookalike {
  import opened Wrappers
  import opened Tables
  import opened Relational
  import opened Ordering

  /** A row of `full_data`: a transaction with its customer record and its product record. */
  datatype Purchase = Purchase(transaction: Transaction, customer: Customer, product: Product)

  function PurchaseCustomer(r: Purchase): CustomerId { r.transaction.customer }
  function PurchaseCategory(r: Purchase): string { r.product.category }
  function PurchaseValue(r: Purchase): int { r.transaction.totalValue }
  function PurchaseTransaction(r: Purchase): Transaction { r.transaction }

  /** The product key of a (transaction, customer) row of `customer_transactions`. */
  function PairProduct(p: (Transaction, Customer)): ProductId { p.0.product }

  function Flatten(rows: seq<((Transaction, Customer), Product)>): (r: seq<Purchase>)
    ensures |r| == |rows|
    ensures forall i :: 0 <= i < |rows| ==> r[i] == Purchase(rows[i].0.0, rows[i].0.1, rows[i].1)
  {
    if rows == [] then [] else [Purchase(rows[0].0.0, rows[0].0.1, rows[0].1)] + Flatten(rows[1..])
  }

  /** `full_data`: transactions inner-merged with customers on CustomerID, then with products on ProductID. */
  function FullData(ts: seq<Transaction>, cs: seq<Customer>, ps: seq<Product>): (r: seq<Purchase>)
    ensures forall x :: x in r <==>
      && x.transaction in ts && x.customer in cs && x.product in ps
      && x.customer.id == x.transaction.customer
      && x.product.id == x.transaction.product
  {
    var pairs := Join(ts, cs, BuyerOf, CustomerKey);
    var triples := Join(pairs, ps, PairProduct, ProductKey);
    var r := Flatten(triples);
    assert forall x: Purchase :: x in r <==> ((x.transaction, x.customer), x.product) in triples by {
      forall x: Purchase | x in r ensures ((x.transaction, x.customer), x.product) in triples {
        var i :| 0 <= i < |r| && r[i] == x;
        assert triples[i] == ((x.transaction, x.customer), x.product);
      }
      forall x: Purchase | ((x.transaction, x.customer), x.product) in triples ensures x in r {
        var i :| 0 <= i < |triples| && triples[i] == ((x.transaction, x.customer), x.product);
        assert r[i] == x;
      }
    }
    r
  }

  lemma LeftsOfFlatten(rows: seq<((Transaction, Customer), Product)>)
    ensures Column(Flatten(rows), PurchaseTransaction) == Lefts(Lefts(rows))
  {
  }

  lemma {:induction false} LeftsOfWhereIn(rows: seq<(Transaction, Customer)>, keys: set<ProductId>)
    ensures Lefts(WhereIn(rows, PairProduct, keys)) == WhereIn(Lefts(rows), ProductOf, keys)
  {
    if rows != [] {
      var head := if PairProduct(rows[0]) in keys then [rows[0]] else [];
      LeftsAppend(head, WhereIn(rows[1..], PairProduct, keys));
      assert Lefts(rows)[1..] == Lefts(rows[1..]);
      LeftsOfWhereIn(rows[1..], keys);
    }
  }

  /**
   * With unique customer and product identifiers, `full_data` holds exactly the
   * transactions whose customer and product both exist, once each and in order.
   */
  lemma FullDataOnUniqueIds(ts: seq<Transaction>, cs: seq<Customer>, ps: seq<Product>)
    requires UniqueKeys(cs, CustomerKey) && UniqueKeys(ps, ProductKey)
    ensures Column(FullData(ts, cs, ps), PurchaseTransaction)
         == WhereIn(WhereIn(ts, BuyerOf, KeysOf(cs, CustomerKey)), ProductOf, KeysOf(ps, ProductKey))
  {
    var pairs := Join(ts, cs, BuyerOf, CustomerKey);
    var triples := Join(pairs, ps, PairProduct, ProductKey);
    LeftsOfFlatten(triples);
    JoinOnUniqueKey(pairs, ps, PairProduct, ProductKey);
    LeftsOfWhereIn(pairs, KeysOf(ps, ProductKey));
    JoinOnUniqueKey(ts, cs, BuyerOf, CustomerKey);
  }

  // ----- Feature table -----

  /**
   * One row of `customer_features`. `categoryCounts[j]` is the count for the j-th
   * category column of the table; the mean is an exact rational.
   */
  datatype FeatureRow = FeatureRow(
    customer: CustomerId,
    totalSpending: Cents,
    avgTransactionValue: real,
    purchaseFrequency: nat,
    categoryCounts: seq<nat>)

  /** `customer_features`: the category columns (in column order) and the rows (in CustomerID order). */
  datatype FeatureTable = FeatureTable(categories: seq<string>, rows: seq<FeatureRow>)

  function FeatureCustomer(f: FeatureRow): CustomerId { f.customer }
  function FeatureSpending(f: FeatureRow): int { f.totalSpending }
  function FeatureFrequency(f: FeatureRow): int { f.purchaseFrequency }

  /** A customer's rows of `full_data`. */
  function PurchasesOf(data: seq<Purchase>, c: CustomerId): seq<Purchase>
  {
    Where(data, PurchaseCustomer, c)
  }

  /** `mean()` of a group: its total over its size, as an exact rational. */
  function Mean(total: int, count: nat): real
    requires count > 0
  {
    total as real / count as real
  }

  /** AvgTransactionValue x PurchaseFrequency = TotalSpending. */
  predicate MeanTimesCountIsTotal(f: FeatureRow)
  {
    f.avgTransactionValue * (f.purchaseFrequency as real) == f.totalSpending as real
  }

  lemma MeanTimesCount(f: FeatureRow)
    requires f.purchaseFrequency > 0
    requires f.avgTransactionValue == Mean(f.totalSpending, f.purchaseFrequency)
    ensures MeanTimesCountIsTotal(f)
  {
  }

  /** The feature row of customer `c`, against the category columns `categories`. */
  function FeatureOf(data: seq<Purchase>, categories: seq<string>, c: CustomerId): (f: FeatureRow)
    requires c in KeysOf(data, PurchaseCustomer)
    requires StrictlyAscending(categories)
    requires forall x :: x in data ==> x.product.category in categories
    ensures f.customer == c
    ensures f.purchaseFrequency >= 1
    ensures MeanTimesCountIsTotal(f)
    ensures |f.categoryCounts| == |categories|
    ensures SumInts(f.categoryCounts) == f.purchaseFrequency
  {
    var mine := PurchasesOf(data, c);
    var x :| x in data && PurchaseCustomer(x) == c;
    assert x in mine;
    var total := Total(mine, PurchaseValue);
    var count := |mine|;
    AscendingIsDistinct(categories);
    PartitionCount(categories, mine, PurchaseCategory);
    var f := FeatureRow(c, total, Mean(total, count), count, GroupSizes(categories, mine, PurchaseCategory));
    MeanTimesCount(f);
    f
  }

  /** The feature table built by lines 14-32 (and again, identically, by 34-52 and 54-72). */
  function Features(data: seq<Purchase>): (t: FeatureTable)
  {
    var categories := SortedKeys(Column(data, PurchaseCategory));
    var ids := SortedKeys(Column(data, PurchaseCustomer));
    FeatureTable(categories, seq(|ids|, i requires 0 <= i < |ids| => FeatureOf(data, categories, ids[i])))
  }

  /**
   * The table has exactly one row per customer of the joined data, in ascending
   * CustomerID order; customers without a joined transaction have no row. Its
   * category columns are exactly the categories of the joined data, ascending.
   */
  lemma FeatureTableShape(data: seq<Purchase>)
    ensures StrictlyAscending(Column(Features(data).rows, FeatureCustomer))
    ensures forall c :: c in Column(Features(data).rows, FeatureCustomer) <==> c in KeysOf(data, PurchaseCustomer)
    ensures StrictlyAscending(Features(data).categories)
    ensures forall k :: k in Features(data).categories <==> k in KeysOf(data, PurchaseCategory)
  {
    var ids := SortedKeys(Column(data, PurchaseCustomer));
    assert Column(Features(data).rows, FeatureCustomer) == ids;
  }

  /**
   * Every feature row: its spending is the total over exactly that customer's joined
   * rows, its frequency is their number, and each category count is the number of
   * them in that category, zero exactly when the customer bought nothing there.
   */
  lemma FeatureRowValues(data: seq<Purchase>, i: nat)
    requires i < |Features(data).rows|
    ensures var f := Features(data).rows[i];
      && f.totalSpending == Total(PurchasesOf(data, f.customer), PurchaseValue)
      && f.purchaseFrequency == |PurchasesOf(data, f.customer)|
      && |f.categoryCounts| == |Features(data).categories|
      && forall j :: 0 <= j < |f.categoryCounts| ==>
           && f.categoryCounts[j] == |Where(PurchasesOf(data, f.customer), PurchaseCategory, Features(data).categories[j])|
           && (f.categoryCounts[j] == 0 <==>
                 forall x :: x in data && x.transaction.customer == f.customer ==>
                   x.product.category != Features(data).categories[j])
  {
    var t := Features(data);
    var f := t.rows[i];
    forall j | 0 <= j < |f.categoryCounts|
      ensures f.categoryCounts[j] == 0 <==>
        forall x :: x in data && x.transaction.customer == f.customer ==> x.product.category != t.categories[j]
    {
      var sel := Where(PurchasesOf(data, f.customer), PurchaseCategory, t.categories[j]);
      if f.categoryCounts[j] != 0 {
        assert sel[0] in sel;
      }
    }
  }

  /**
   * The feature rows partition the joined data: their spendings add up to the total
   * value of all joined rows, and their frequencies to the number of joined rows.
   */
  lemma FeaturesPartitionData(data: seq<Purchase>)
    ensures Total(Features(data).rows, FeatureSpending) == Total(data, PurchaseValue)
    ensures Total(Features(data).rows, FeatureFrequency) == |data|
  {
    var categories := SortedKeys(Column(data, PurchaseCategory));
    var ids := SortedKeys(Column(data, PurchaseCustomer));
    var rows := Features(data).rows;
    AscendingIsDistinct(ids);
    GroupReportTotal(rows, FeatureSpending, ids, data, PurchaseCustomer, PurchaseValue);
    GroupReportCount(rows, FeatureFrequency, ids, data, PurchaseCustomer);
  }

  // ----- Top-3 similar customers -----

  /** One entry of a similarity row: another customer and its similarity score. */
  datatype Score = Score(customer: CustomerId, value: real)

  function ScoreCustomer(s: Score): CustomerId { s.customer }

  /** The order of `sort_values(ascending=False)` on a similarity row. */
  function ScoreAtLeast(a: Score, b: Score): bool { a.value >= b.value }

  lemma ScoreOrderIsTotal()
    ensures TotalPreorder(ScoreAtLeast)
  {
  }

  /** How many neighbours are kept per customer (`iloc[1:4]`). */
  const Neighbours := 3

  /** How many customers are queried (`head(20)`). */
  const Queried := 20

  /**
   * `r` is drawn from `row` without the entry `top`, which scores highest in the row,
   * and nothing left out of `r` (other than `top`) scores above anything in `r`.
   */
  ghost predicate SkipsTopRanked(row: seq<Score>, top: Score, r: seq<Score>)
  {
    && top in row
    && (forall y :: y in row ==> top.value >= y.value)
    && multiset(r) + multiset{top} <= multiset(row)
    && (forall x, y :: x in r && y in multiset(row) - multiset(r) - multiset{top} ==> x.value >= y.value)
  }

  /**
   * `row.sort_values(ascending=False).iloc[1:4]`: the row sorted by descending score,
   * without its first (top-ranked) entry, cut to three entries.
   */
  function MostSimilar(row: seq<Score>): (r: seq<Score>)
    ensures |r| <= Neighbours
    ensures |row| > 0 ==> |r| == if |row| - 1 < Neighbours then |row| - 1 else Neighbours
    ensures forall i, j :: 0 <= i < j < |r| ==> r[i].value >= r[j].value
    ensures |row| > 0 ==> exists top :: SkipsTopRanked(row, top, r)
    ensures |row| == 0 ==> r == []
  {
    var sorted := Sort(row, ScoreAtLeast);
    ScoreOrderIsTotal();
    if |sorted| == 0 then []
    else
      var end := if |sorted| < Neighbours + 1 then |sorted| else Neighbours + 1;
      SortedWithoutTop(row, sorted, end);
      sorted[1..end]
  }

  /** Cutting a descending sort of `row` to positions 1 .. end-1 skips its top entry and keeps the next best. */
  lemma SortedWithoutTop(row: seq<Score>, sorted: seq<Score>, end: nat)
    requires multiset(sorted) == multiset(row)
    requires SortedBy(sorted, ScoreAtLeast)
    requires 1 <= end <= |sorted|
    ensures forall i, j :: 0 <= i < j < end - 1 ==> sorted[1..end][i].value >= sorted[1..end][j].value
    ensures SkipsTopRanked(row, sorted[0], sorted[1..end])
  {
    var r := sorted[1..end];
    forall i, j | 0 <= i < j < |r| ensures r[i].value >= r[j].value {
      SortedByAt(sorted, ScoreAtLeast, 1 + i, 1 + j);
    }
    SplitAt(sorted, end);
    assert sorted[0] in multiset(row);
    HeadIsMaximal(row, sorted);
    RestIsDominated(sorted, end);
  }

  lemma SplitAt(sorted: seq<Score>, end: nat)
    requires 1 <= end <= |sorted|
    ensures multiset(sorted[1..end]) + multiset{sorted[0]} <= multiset(sorted)
    ensures multiset(sorted) - multiset(sorted[1..end]) - multiset{sorted[0]} == multiset(sorted[end..])
  {
    assert sorted == [sorted[0]] + sorted[1..end] + sorted[end..];
  }

  lemma HeadIsMaximal(row: seq<Score>, sorted: seq<Score>)
    requires multiset(sorted) == multiset(row)
    requires SortedBy(sorted, ScoreAtLeast)
    requires |sorted| > 0
    ensures forall y :: y in row ==> sorted[0].value >= y.value
  {
    forall y | y in row ensures sorted[0].value >= y.value {
      assert y in multiset(sorted);
      var k :| 0 <= k < |sorted| && sorted[k] == y;
      if k > 0 { SortedByAt(sorted, ScoreAtLeast, 0, k); }
    }
  }

  lemma RestIsDominated(sorted: seq<Score>, end: nat)
    requires SortedBy(sorted, ScoreAtLeast)
    requires 1 <= end <= |sorted|
    ensures forall x, y :: x in sorted[1..end] && y in multiset(sorted[end..]) ==> x.value >= y.value
  {
    var r := sorted[1..end];
    forall x, y | x in r && y in multiset(sorted[end..]) ensures x.value >= y.value {
      var i :| 0 <= i < |r| && r[i] == x;
      assert y in sorted[end..];
      var k :| 0 <= k < |sorted[end..]| && sorted[end..][k] == y;
      assert sorted[end + k] == y && sorted[1 + i] == x;
      SortedByAt(sorted, ScoreAtLeast, 1 + i, end + k);
    }
  }

  /**
   * The query customer is left out of its own neighbours whenever its entry in the
   * row (customer identifiers being unique there) scores strictly above every other.
   */
  lemma SelfExcluded(row: seq<Score>, self: Score)
    requires UniqueKeys(row, ScoreCustomer)
    requires self in row
    requires forall y :: y in row && y.customer != self.customer ==> y.value < self.value
    ensures forall x :: x in MostSimilar(row) ==> x.customer != self.customer
  {
    var r := MostSimilar(row);
    var top :| SkipsTopRanked(row, top, r);
    // The top-ranked entry scores at least as much as `self`, so it is `self`.
    assert top.value >= self.value;
    assert top.customer == self.customer;
    UniqueKeysIdentify(row, ScoreCustomer, top, self);
    UniqueKeysOccurOnce(row, ScoreCustomer, self);
    assert multiset(r)[self] == 0;
    forall x | x in r ensures x.customer != self.customer {
      assert x in multiset(row);
      assert x != self;
      UniqueKeysIdentify(row, ScoreCustomer, x, self);
    }
  }

  /**
   * The loop of lines 75-78 that fills `top_similarities`: for each of the first twenty
   * customers of the feature table, in order, its row of the similarity table is
   * looked up (a missing row is the KeyError of `.loc`) and its three nearest
   * neighbours are stored under it.
   */
  method TopSimilarities(features: FeatureTable, similarity: map<CustomerId, seq<Score>>)
    returns (r: Result<map<CustomerId, seq<Score>>, CustomerId>)
    ensures r.Success? <==> forall c :: c in QueriedCustomers(features) ==> c in similarity
    ensures r.Success? ==> forall c :: c in r.value <==> c in QueriedCustomers(features)
    ensures r.Success? ==> forall c :: c in r.value ==> c in similarity && r.value[c] == MostSimilar(similarity[c])
    ensures r.Failure? ==> FirstMissing(QueriedCustomers(features), similarity, r.error)
  {
    r := NearestNeighbours(QueriedCustomers(features), similarity);
  }

  /** The body of that loop over the customers `queried`, in order. */
  method NearestNeighbours(queried: seq<CustomerId>, similarity: map<CustomerId, seq<Score>>)
    returns (r: Result<map<CustomerId, seq<Score>>, CustomerId>)
    ensures r.Success? <==> forall c :: c in queried ==> c in similarity
    ensures r.Success? ==> forall c :: c in r.value <==> c in queried
    ensures r.Success? ==> forall c :: c in r.value ==> c in similarity && r.value[c] == MostSimilar(similarity[c])
    ensures r.Failure? ==> FirstMissing(queried, similarity, r.error)
  {
    var top: map<CustomerId, seq<Score>> := map[];
    for i := 0 to |queried|
      invariant forall c :: c in queried[..i] ==> c in similarity
      invariant forall c :: c in top <==> c in queried[..i]
      invariant forall c :: c in top ==> c in similarity && top[c] == MostSimilar(similarity[c])
    {
      var customer := queried[i];
      if customer !in similarity {
        FirstMissingAt(queried, similarity, i);
        return Failure(customer);
      }
      assert queried[..i + 1] == queried[..i] + [customer];
      top := top[customer := MostSimilar(similarity[customer])];
    }
    assert queried[..|queried|] == queried;
    return Success(top);
  }

  lemma FirstMissingAt(queried: seq<CustomerId>, similarity: map<CustomerId, seq<Score>>, i: nat)
    requires i < |queried| && queried[i] !in similarity
    requires forall c :: c in queried[..i] ==> c in similarity
    ensures FirstMissing(queried, similarity, queried[i])
  {
    forall j | 0 <= j < i ensures queried[j] in similarity {
      assert queried[j] in queried[..i];
    }
  }

  /** The customers the loop visits: `customer_features['CustomerID'].head(20)`. */
  function QueriedCustomers(features: FeatureTable): seq<CustomerId>
  {
    Take(Column(features.rows, FeatureCustomer), Queried)
  }

  /** `c` is the first of `queried` without a row in `similarity`: where `.loc` raises. */
  ghost predicate FirstMissing(queried: seq<CustomerId>, similarity: map<CustomerId, seq<Score>>, c: CustomerId)
  {
    exists i :: 0 <= i < |queried| && queried[i] == c && c !in similarity
      && forall j :: 0 <= j < i ==> queried[j] in similarity
  }
}
