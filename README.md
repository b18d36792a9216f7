# Customer analytics scripts: a Dafny model

This project models the deterministic core of three pandas scripts over the same three
tables (customers, products, transactions):

- **Lookalike** (`Rajesh_S_Lookalike.py`):
  - Transactions are inner-joined with customers and products.
  - Each customer gets a feature row: total spending, mean transaction value, purchase
    count, and a zero-filled purchase count per category.
  - For the first twenty customers, the three best-scoring other customers are read off
    a similarity row, skipping the top-ranked (self) entry.
- **Clustering pre-processing** (`Rajesh_S_Clustering.py`):
  - Each customer's age in whole years since signup is added to the customer frame in
    place.
  - Transactions are left-merged with those ages.
  - The per-customer total spend is broadcast to every row (`transform('sum')`).
  - One row per customer is kept, giving the (Age, TotalSpent) table handed to the
    clusterer.
- **EDA reports** (`Rajesh_S_EDA.py`):
  - Transaction counts and sales by region, by product and month, by hour, and by
    product.
  - The busiest hour, and product sales within that hour with the top 10 of them by
    sales.
  - Products ranked for restocking by sales and then price, with the top 20 of that
    ranking.
  - Products that were never sold.

## Modelling choices

- **Modules:** one per file.
  - `Wrappers` holds `Option` and `Result`.
  - `Tables` holds the three record types.
  - `Relational` holds the pandas operations used, as generic functions over sequences of
    rows with key and value columns passed as functions. They cover boolean filtering,
    `sum`, `count`, inner and left `merge`, `drop_duplicates` and `head`.
  - `Ordering` holds Python's string order, the group-by key order, and a stable
    `sort_values`.
  - The three scripts are `Lookalike`, `Clustering` and `Eda`.
- **Money and dates:**
  - Money is integer cents.
  - A mean is an exact `real`, and its defining identity mean × count = total is proved.
  - Timestamps are parsed `(year, month, day, hour)` records, with month, day and hour in
    range by type.
  - An unparsable SignupDate (`errors='coerce'`, so NaT) is `None`.
- **Group-by:**
  - `groupby` output is ordered by key: strings by code point (Python's `<`), integers
    ascending.
  - A `count` of TransactionID counts rows, because the identifier is never null.
- **Joins:** a merge is modelled in general, so duplicate right-hand keys multiply rows.
  The lemmas that speak of "one row per transaction" assume unique identifiers.
- **The similarity table:**
  - The lookalike script reads `similarity_df`, which it never defines (line 77 would
    raise `NameError`).
  - The table is therefore an input: a map from customer to its row of (customer, score)
    entries.
  - A customer without a row is the `KeyError` of `.loc`, returned as `Failure`.
- **In-place state:**
  - The customer frame of the clustering script is a class (`CustomerFrame`) whose Age
    column is set and then decremented in place.
  - The EDA transactions frame is a class (`TransactionFrame`) that gains Month and Hour
    columns.
  - The lookalike loop fills its dictionary in a `for` loop (`NearestNeighbours`, run by
    `TopSimilarities` on the first twenty customers).
  - The remaining operations are functions.
- **Clock:** "now" (`datetime.now()`) is a parameter.

What the scripts do, and the model with them:

- The clustering merge (Rajesh_S_Clustering.py:27) is a **left** merge, so a transaction
  of an unknown customer is kept with a missing Age.
- Rows with a missing Age are kept in the clustering table.
- The scripts raise no error of their own for an empty join or a duplicate identifier.
  The error paths modelled are those of pandas calls in the scripts:
  - the `KeyError` when the frame has no Age column (Rajesh_S_Clustering.py:27);
  - the `KeyError` for a customer without a similarity row (Rajesh_S_Lookalike.py:77);
  - the `ValueError` of `idxmax` on an empty hourly table (Rajesh_S_EDA.py:110).
- Similarity ties are not broken by customer identifier: the row is sorted by score only
  (Rajesh_S_Lookalike.py:77).

## Model

| member | source | states |
|---|---|---|
| Lookalike.FullData | Rajesh_S_Lookalike.py:9-12 | a joined row exists exactly when its transaction, customer and product all exist and the customer and product identifiers match the transaction's |
| Relational.Join | Rajesh_S_Lookalike.py:9-12 | an inner `merge` holds a pair exactly when its left row and right row exist and their keys match |
| Lookalike.FullDataOnUniqueIds | Rajesh_S_Lookalike.py:9-12 | with unique identifiers, the joined rows are exactly the transactions whose customer and product both exist, once each and in transaction order |
| Lookalike.FeatureOf | Rajesh_S_Lookalike.py:15-27 | a customer's feature row has frequency at least 1, mean × frequency = spending, one count per category column, and counts summing to the frequency |
| Lookalike.MeanTimesCount | Rajesh_S_Lookalike.py:19 | the group mean times the group size is the group total |
| Lookalike.FeatureTableShape | Rajesh_S_Lookalike.py:27-32 | `Features`, the feature table built at lines 14-32: one row per customer of the joined data, in ascending CustomerID order, and none for customers without joined rows; the category columns are exactly the joined categories, ascending |
| Lookalike.FeatureRowValues | Rajesh_S_Lookalike.py:15-27 | in `Features`: spending is the sum of TotalValue over exactly the customer's joined rows; frequency is their number; each category count is the number of them in that category, and it is 0 exactly when the customer bought nothing there |
| Lookalike.FeaturesPartitionData | Rajesh_S_Lookalike.py:15-23 | the spendings of all feature rows add up to the joined total value, and the frequencies add up to the number of joined rows |
| Lookalike.MostSimilar | Rajesh_S_Lookalike.py:77 | at most 3 entries (exactly min(3, n-1) for a non-empty row), non-increasing scores, the top-ranked entry skipped, and no entry left out outscores one kept |
| Lookalike.SelfExcluded | Rajesh_S_Lookalike.py:77 | the query customer is absent from its own result whenever its self-score is strictly the highest in the row |
| Lookalike.TopSimilarities | Rajesh_S_Lookalike.py:75-78 | succeeds exactly when every queried customer has a similarity row; its keys are then exactly the first min(20, n) feature-table customers, each mapped to its top-3 selection; otherwise it reports the first customer without a row |
| Lookalike.NearestNeighbours | Rajesh_S_Lookalike.py:75-78 | the loop over the given customers, in order: it succeeds exactly when each has a similarity row, its keys are then exactly those customers, each mapped to its top-3 selection; otherwise it stops at the first customer without a row |
| Clustering.AgeAt | Rajesh_S_Clustering.py:22-23 | the age is the plain year difference or one less, and it is non-negative whenever the signup is not after now |
| Clustering.AgeIsElapsedYears | Rajesh_S_Clustering.py:22-23 | k is the age exactly when the k-th anniversary of the signup is not after now and the (k+1)-th is |
| Clustering.AgeColumn | Rajesh_S_Clustering.py:20-23 | one entry per customer, missing exactly when its SignupDate did not parse, and otherwise its age |
| Clustering.CustomerFrame.AddAge | Rajesh_S_Clustering.py:19-25 | with a SignupDate column the in-place difference-then-decrement leaves exactly the age column; without one, only the missing column is reported and the frame is unchanged |
| Clustering.AgeTable | Rajesh_S_Clustering.py:27 | selecting (CustomerID, Age) fails with a missing-column error exactly when there is no Age column, and otherwise yields one pair per customer |
| Clustering.MergeKeepsEveryTransaction | Rajesh_S_Clustering.py:27 | `MergeAges`, the left merge of line 27: every transaction survives the left merge: with a missing Age when its customer is unknown, and with the Age of each matching customer row otherwise |
| Clustering.MergeOnUniqueCustomers | Rajesh_S_Clustering.py:27 | with unique CustomerIDs the merge has one row per transaction, in order, carrying its customer's Age or a missing Age for an unknown customer |
| Clustering.WithTotalSpent | Rajesh_S_Clustering.py:31 | `transform('sum')` as a per-customer group-sum table looked up by each row; it keeps every row, with its transaction and Age |
| Clustering.BroadcastIsCustomerTotal | Rajesh_S_Clustering.py:31 | the value each row looks up in the group table is the sum of TotalValue over all rows of its customer, so rows of one customer agree |
| Clustering.DeduplicatedRows | Rajesh_S_Clustering.py:32 | one row per customer of the merged data and no other: the customer's first row, in order of first appearance, with its TotalSpent unchanged |
| Clustering.DeduplicatedTotal | Rajesh_S_Clustering.py:31-32 | the kept TotalSpent values add up to the TotalValue of all merged rows |
| Clustering.ClusteringTable | Rajesh_S_Clustering.py:27-32 | building the table fails exactly when the frame has no Age column |
| Clustering.FeaturePairs | Rajesh_S_Clustering.py:34 | the clusterer's input holds one (Age, TotalSpent) pair per kept row, in order |
| Clustering.PrepareClustering | Rajesh_S_Clustering.py:19-34 | on a freshly loaded frame: fails with the missing Age column exactly when the frame has no SignupDate column, leaving the frame as it was; otherwise the frame holds the age column and the result is the (Age, TotalSpent) table; the rows and the SignupDate flag never change |
| Eda.TransactionFrame.AddMonth | Rajesh_S_EDA.py:51 | the Month column holds each transaction's month, always in 1..12, and nothing else changes |
| Eda.TransactionFrame.AddHour | Rajesh_S_EDA.py:81 | the Hour column holds each transaction's hour, always in 0..23, and nothing else changes |
| Eda.MergeCustomers | Rajesh_S_EDA.py:19 | a merged row exists exactly when its transaction and customer exist and the CustomerIDs match |
| Eda.MergeCustomersOnUniqueIds | Rajesh_S_EDA.py:19 | with unique CustomerIDs the merge holds one row per transaction whose customer has a record, once each and in transaction order |
| Eda.RegionSummaryRows | Rajesh_S_EDA.py:22-26 | `RegionSummary`, lines 22-26: one row per region of the merged data, ascending and none other; each counts that region's rows (at least one) and sums their TotalValue |
| Eda.RegionSummaryIsPartition | Rajesh_S_EDA.py:22-26 | the region counts add up to the number of merged rows and the region sales to their total value |
| Eda.ProductSummaryRows | Rajesh_S_EDA.py:143-147 | `ProductSummary`, lines 116-120 and 143-147: one row per product sold, ascending and none other; each sums that product's TotalValue and Quantity |
| Eda.ProductSummaryIsPartition | Rajesh_S_EDA.py:143-147 | the product TotalSales add up to the overall TotalValue and the product TotalQuantity to the overall Quantity |
| Eda.ProductMonthSummaryShape | Rajesh_S_EDA.py:54-58 | `ProductMonthSummary`, lines 54-58: exactly one row per (ProductID, Month) pair occurring in the transactions, ordered by product and then by month |
| Eda.ProductMonthRowValues | Rajesh_S_EDA.py:54-58 | each row of the product-month summary sums TotalValue and Quantity over exactly the transactions of its product in its month |
| Eda.MonthBlockTotals | Rajesh_S_EDA.py:54-58 | a product's monthly sales and quantities add up to its totals over all its transactions |
| Eda.MonthlySalesAddUp | Rajesh_S_EDA.py:54-58 | summing a product's rows of the product-month summary gives that product's TotalSales and TotalQuantity in the product summary of lines 143-147 |
| Eda.HourlySummary | Rajesh_S_EDA.py:84-88 | the hours are ascending and exactly those occurring in the data; each row counts that hour's transactions |
| Eda.HourlySummaryIsPartition | Rajesh_S_EDA.py:84-88 | the hourly counts add up to the number of transactions |
| Eda.FirstMaxIndex | Rajesh_S_EDA.py:110 | `idxmax` returns a position whose value no other exceeds and which every earlier value falls short of |
| Eda.PeakHour | Rajesh_S_EDA.py:110 | the peak hour is an error exactly when the hourly table is empty |
| Eda.PeakHourIsLowestBusiest | Rajesh_S_EDA.py:110 | there is a peak hour exactly when there are transactions; it occurs in the data, no hour has more transactions, and every earlier hour has fewer |
| Eda.HourTransactionsOf | Rajesh_S_EDA.py:113 | the peak-hour rows are exactly the transactions of that hour |
| Eda.PeakHourSalesBounded | Rajesh_S_EDA.py:113-120 | with non-negative values and quantities, a product's peak-hour TotalSales and TotalQuantity are at most its overall ones |
| Eda.TopPeakProducts | Rajesh_S_EDA.py:130 | min(10, n) of the peak-hour rows with non-increasing sales, drawn from the rows, and no row left out sells more than one kept |
| Eda.JoinProducts | Rajesh_S_EDA.py:150 | every row comes from a (sales row, record) pair with matching ProductID, and every such pair yields one |
| Eda.JoinProductsOnUniqueIds | Rajesh_S_EDA.py:150 | with unique ProductIDs among the records, the merge yields exactly one row per sales row that has a record, in the order of the sales rows |
| Eda.Recommendations | Rajesh_S_EDA.py:150-153 | a reordering of the joined rows: each comes from a matching (sales row, record) pair and each such pair appears; ordered by TotalSales descending and, among equal sales, by Price descending |
| Eda.TopRecommendations | Rajesh_S_EDA.py:166 | the first min(20, n) recommendations |
| Eda.NewProducts | Rajesh_S_EDA.py:185 | exactly the product records whose ProductID occurs in no transaction |
| Eda.NewProductsAreNotRecommended | Rajesh_S_EDA.py:185 | no new product is recommended, and every other product record is recommended |
| Ordering.SortedKeys | Rajesh_S_EDA.py:23 | group-by keys are strictly ascending in Python's string order and exactly the values of the key column |
| Ordering.Sort | Rajesh_S_EDA.py:153 | `sort_values` returns a permutation of its input, ordered whenever the order is total and transitive |
| Ordering.TopN | Rajesh_S_EDA.py:130 | sort-then-head returns min(n, len) rows, ordered and drawn from the input, and no row left out may precede one kept |
| Relational.LeftJoinOnUniqueKey | Rajesh_S_Clustering.py:27 | a left merge on a unique right key has exactly one row per left row, in order |
| Relational.LeftJoin | Rajesh_S_Clustering.py:27 | a left `merge` keeps only left rows; a left row appears with a missing right side exactly when no right row has its key, and with each right row whose key matches |
| Relational.DropDuplicatesKeepsFirst | Rajesh_S_Clustering.py:32 | each kept row's key occurs in the input, and the kept row is the first input row with that key |
| Relational.DropDuplicatesInOrder | Rajesh_S_Clustering.py:32 | kept rows come in the order in which their keys first appear in the input |
| Relational.DropDuplicates | Rajesh_S_Clustering.py:32 | `drop_duplicates(subset=key)` keeps rows of the input, no two with the same key, and every key of the input |
| Relational.Take | Rajesh_S_Lookalike.py:76 | `head(n)` is the prefix of length min(n, len) |

## Left out

- Loading the CSV files and writing `Clustered_Customers.csv`: file I/O. The tables are
  parameters.
- Plotting (matplotlib, seaborn) and all `print`/`tabulate` output, including the message
  printed when there are no new products: presentation only.
- `StandardScaler`, `KMeans` and `davies_bouldin_score` (Rajesh_S_Clustering.py:36-44):
  floating-point library code. The model stops at the (Age, TotalSpent) table they
  receive.
- The cosine similarity matrix: the lookalike script never computes it, and it would be
  floating point. Its rows are an input.
- `datetime.now()`: "now" is a parameter.
- `pd.to_datetime` parsing: dates arrive parsed, with `None` for an unparsable
  SignupDate.
- The warning filter and environment variable (Rajesh_S_Clustering.py:11-12).
- The unused `launch_date_threshold` (Rajesh_S_EDA.py:182).
- Floating-point money: values are integer cents and means are exact rationals, so
  float rounding is not modelled.
- The `rename(..., inplace=True)` calls and the re-merge of per-customer columns
  (Rajesh_S_Lookalike.py:16-32). The model builds each feature row directly. It has the
  same values, because every partial table has the same CustomerIDs.
- The second and third copies of the feature block (Rajesh_S_Lookalike.py:34-72). They
  repeat lines 14-32 exactly and are modelled once.
- The order of ties in a single-column `sort_values`. pandas uses an unstable quicksort
  there; the model sorts stably. The contracts of `Lookalike.MostSimilar` and
  `Eda.TopPeakProducts` do not depend on the order of tied rows.
- The `Cluster` column (Rajesh_S_Clustering.py:42): it comes from the clusterer.
- Missing values outside SignupDate: Region, TotalValue, Quantity, Price, the dates and
  the identifiers are always present in the model. pandas would drop rows with a NaN
  group key in `groupby` and skip NaN values in `sum`, so the partition lemmas
  (`Eda.RegionSummaryIsPartition` and the others) hold only for complete data.
- Missing columns other than SignupDate, such as the `KeyError` of `groupby("Region")`
  (Rajesh_S_EDA.py:23) when the customers file has no Region column: the records always
  carry every column.
- Lookalike.FeatureOf: models the `mean()` column as an exact rational, not the float
  pandas stores.
