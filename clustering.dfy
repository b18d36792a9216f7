/**
 * The clustering script up to the point where the clusterer takes over: each
 * customer's age in whole years since signup, the transactions left-merged with
 * those ages, each customer's total spend broadcast to all of its rows, and one row
 * per customer kept, giving the (Age, TotalSpent) table that is scaled and clustered.
 */
module Clustering {
  import opened Wrappers
  import opened Tables
  import opened Relational
  import opened Ordering

  // ----- Age -----

  /** `a` is on or before `b` as a calendar day (the hour is ignored). */
  predicate DayNotAfter(a: Date, b: Date)
  {
    a.year < b.year
    || (a.year == b.year && (a.month < b.month || (a.month == b.month && a.day <= b.day)))
  }

  /** The signup's month and day come later in the year than now's (the mask of line 23). */
  predicate AnniversaryAhead(signup: Date, now: Date)
  {
    signup.month > now.month || (signup.month == now.month && signup.day > now.day)
  }

  /** Lines 22-23: the difference of the years, less one while this year's anniversary is still ahead. */
  function AgeAt(signup: Date, now: Date): (age: int)
    ensures age == now.year - signup.year || age == now.year - signup.year - 1
    ensures DayNotAfter(signup, now) ==> age >= 0
  {
    (now.year - signup.year) - (if AnniversaryAhead(signup, now) then 1 else 0)
  }

  /** The signup date moved forward by `k` years. */
  function Anniversary(signup: Date, k: int): Date
  {
    signup.(year := signup.year + k)
  }

  /**
   * The age is the number of whole years elapsed: the age-th anniversary of the
   * signup is not after now and the next one is, and no other number of years has
   * that property.
   */
  lemma AgeIsElapsedYears(signup: Date, now: Date, k: int)
    ensures k == AgeAt(signup, now) <==>
      DayNotAfter(Anniversary(signup, k), now) && !DayNotAfter(Anniversary(signup, k + 1), now)
  {
  }

  /** The Age of one customer: missing when its SignupDate did not parse (NaT). */
  function AgeOf(signup: Option<Date>, now: Date): Option<int>
  {
    match signup
    case None => None
    case Some(d) => Some(AgeAt(d, now))
  }

  /** The Age column computed by lines 22-23, one entry per customer row. */
  function AgeColumn(rows: seq<Customer>, now: Date): (ages: seq<Option<int>>)
    ensures |ages| == |rows|
    ensures forall i :: 0 <= i < |rows| ==> ages[i] == AgeOf(rows[i].signup, now)
  {
    seq(|rows|, i requires 0 <= i < |rows| => AgeOf(rows[i].signup, now))
  }

  /** Line 22 on one row: `now.year - SignupDate.dt.year`, missing for NaT. */
  function YearsSince(signup: Option<Date>, now: Date): Option<int>
  {
    match signup
    case None => None
    case Some(d) => Some(now.year - d.year)
  }

  /** Line 23 on one row: subtracting the boolean mask (1 or 0) from the year difference. */
  function LessOneIfAhead(years: Option<int>, signup: Option<Date>, now: Date): Option<int>
  {
    match years
    case None => None
    case Some(y) => Some(y - (if signup.Some? && AnniversaryAhead(signup.value, now) then 1 else 0))
  }

  /**
   * The `customers` frame of the clustering script, whose columns are added and
   * changed in place. `age` is the Age column, None while the frame has none.
   */
  class CustomerFrame {
    var rows: seq<Customer>
    var hasSignupDate: bool
    var age: Option<seq<Option<int>>>

    ghost predicate Valid()
      reads this
    {
      age.Some? ==> |age.value| == |rows|
    }

    /** The frame as read from Customers.csv, with or without a SignupDate column. */
    constructor (rows: seq<Customer>, hasSignupDate: bool)
      ensures Valid()
      ensures this.rows == rows && this.hasSignupDate == hasSignupDate && age == None
    {
      this.rows := rows;
      this.hasSignupDate := hasSignupDate;
      age := None;
    }

    /**
     * Lines 19-25: with a SignupDate column, Age is set to the year difference and then
     * decremented where the anniversary is still ahead; without one, the script only
     * reports the missing column (`found` is false) and leaves the frame alone.
     */
    method AddAge(now: Date) returns (found: bool)
      requires Valid()
      modifies this
      ensures Valid()
      ensures rows == old(rows) && hasSignupDate == old(hasSignupDate)
      ensures found == hasSignupDate
      ensures found ==> age == Some(AgeColumn(rows, now))
      ensures !found ==> age == old(age)
    {
      found := hasSignupDate;
      if found {
        var rs := rows;
        age := Some(seq(|rs|, i requires 0 <= i < |rs| => YearsSince(rs[i].signup, now)));
        var years := age.value;
        age := Some(seq(|rs|, i requires 0 <= i < |rs| => LessOneIfAhead(years[i], rs[i].signup, now)));
        assert age.value == AgeColumn(rs, now);
      }
    }
  }

  // ----- Left merge with the ages -----

  /** A row of `customers[['CustomerID', 'Age']]`. */
  datatype AgeRow = AgeRow(customer: CustomerId, age: Option<int>)

  function AgeRowCustomer(a: AgeRow): CustomerId { a.customer }

  datatype ClusteringError = MissingColumn(name: string)

  /** `customers[['CustomerID', 'Age']]`: a KeyError when the frame has no Age column. */
  function AgeTable(rows: seq<Customer>, age: Option<seq<Option<int>>>): (r: Result<seq<AgeRow>, ClusteringError>)
    requires age.Some? ==> |age.value| == |rows|
    ensures r.Failure? <==> age.None?
    ensures r.Failure? ==> r.error == MissingColumn("Age")
    ensures r.Success? ==> |r.value| == |rows|
    ensures r.Success? ==> forall i :: 0 <= i < |rows| ==> r.value[i] == AgeRow(rows[i].id, age.value[i])
  {
    match age
    case None => Failure(MissingColumn("Age"))
    case Some(ages) => Success(seq(|rows|, i requires 0 <= i < |rows| => AgeRow(rows[i].id, ages[i])))
  }

  /** A row of `merged_data`: a transaction and its customer's Age (missing if there is none). */
  datatype MergedRow = MergedRow(transaction: Transaction, age: Option<int>)

  function MergedCustomer(m: MergedRow): CustomerId { m.transaction.customer }
  function MergedValue(m: MergedRow): int { m.transaction.totalValue }
  function MergedTransaction(m: MergedRow): Transaction { m.transaction }

  function ToMerged(p: (Transaction, Option<AgeRow>)): MergedRow
  {
    MergedRow(p.0, match p.1 case None => None case Some(a) => a.age)
  }

  function MapToMerged(ps: seq<(Transaction, Option<AgeRow>)>): (r: seq<MergedRow>)
    ensures |r| == |ps|
    ensures forall i :: 0 <= i < |ps| ==> r[i] == ToMerged(ps[i])
  {
    if ps == [] then [] else [ToMerged(ps[0])] + MapToMerged(ps[1..])
  }

  /** Line 27: `pd.merge(transactions, ages, on='CustomerID', how='left')`. */
  function MergeAges(ts: seq<Transaction>, ages: seq<AgeRow>): seq<MergedRow>
  {
    MapToMerged(LeftJoin(ts, ages, BuyerOf, AgeRowCustomer))
  }

  /**
   * The left merge keeps every transaction: each appears with a missing Age when its
   * customer has no row, and otherwise once with the Age of each matching row.
   */
  lemma MergeKeepsEveryTransaction(ts: seq<Transaction>, ages: seq<AgeRow>, t: Transaction)
    requires t in ts
    ensures t.customer !in KeysOf(ages, AgeRowCustomer) ==> MergedRow(t, None) in MergeAges(ts, ages)
    ensures forall a :: a in ages && a.customer == t.customer ==> MergedRow(t, a.age) in MergeAges(ts, ages)
  {
    var joined := LeftJoin(ts, ages, BuyerOf, AgeRowCustomer);
    var merged := MergeAges(ts, ages);
    if t.customer !in KeysOf(ages, AgeRowCustomer) {
      assert (t, None) in joined;
      var i :| 0 <= i < |joined| && joined[i] == (t, None);
      assert merged[i] == MergedRow(t, None);
    }
    forall a | a in ages && a.customer == t.customer ensures MergedRow(t, a.age) in merged {
      assert (t, Some(a)) in joined;
      var i :| 0 <= i < |joined| && joined[i] == (t, Some(a));
      assert merged[i] == MergedRow(t, a.age);
    }
  }

  /** The Age a merge attaches to customer `c`: that of its first row, missing when it has none. */
  function AgeLookup(ages: seq<AgeRow>, c: CustomerId): Option<int>
  {
    if c in KeysOf(ages, AgeRowCustomer) then ages[FirstIndex(ages, AgeRowCustomer, c)].age else None
  }

  lemma JoinedRowAt(ts: seq<Transaction>, ages: seq<AgeRow>, i: nat)
    requires UniqueKeys(ages, AgeRowCustomer)
    requires i < |LeftJoin(ts, ages, BuyerOf, AgeRowCustomer)|
    ensures var p := LeftJoin(ts, ages, BuyerOf, AgeRowCustomer)[i];
      ToMerged(p) == MergedRow(p.0, AgeLookup(ages, p.0.customer))
  {
    var joined := LeftJoin(ts, ages, BuyerOf, AgeRowCustomer);
    var p := joined[i];
    LeftJoinRowAt(ts, ages, BuyerOf, AgeRowCustomer, i);
    if p.1.Some? {
      var f := FirstIndex(ages, AgeRowCustomer, p.0.customer);
      assert ages[f] in ages;
      UniqueKeysIdentify(ages, AgeRowCustomer, p.1.value, ages[f]);
    }
  }

  /**
   * With unique CustomerIDs, the merge has exactly one row per transaction, in
   * transaction order, carrying the Age of the transaction's customer, or a missing
   * Age when the customer is unknown.
   */
  lemma MergeOnUniqueCustomers(ts: seq<Transaction>, ages: seq<AgeRow>)
    requires UniqueKeys(ages, AgeRowCustomer)
    ensures |MergeAges(ts, ages)| == |ts|
    ensures forall i :: 0 <= i < |ts| ==>
      MergeAges(ts, ages)[i] == MergedRow(ts[i], AgeLookup(ages, ts[i].customer))
  {
    var joined := LeftJoin(ts, ages, BuyerOf, AgeRowCustomer);
    LeftJoinOnUniqueKey(ts, ages, BuyerOf, AgeRowCustomer);
    forall i | 0 <= i < |ts|
      ensures MergeAges(ts, ages)[i] == MergedRow(ts[i], AgeLookup(ages, ts[i].customer))
    {
      assert Lefts(joined)[i] == joined[i].0;
      JoinedRowAt(ts, ages, i);
    }
  }

  // ----- TotalSpent and de-duplication -----

  /** A row of `merged_data` once it has the TotalSpent column. */
  datatype SpentRow = SpentRow(transaction: Transaction, age: Option<int>, totalSpent: Cents)

  function SpentCustomer(s: SpentRow): CustomerId { s.transaction.customer }
  function SpentTotal(s: SpentRow): int { s.totalSpent }

  /** The total TotalValue of a customer's rows. */
  function CustomerTotal(rows: seq<MergedRow>, c: CustomerId): Cents
  {
    Total(Where(rows, MergedCustomer, c), MergedValue)
  }

  /**
   * Line 31: `groupby('CustomerID')['TotalValue'].transform('sum')`. The per-customer
   * sums are laid out along the sorted CustomerIDs, and each row looks up its own
   * customer's sum there.
   */
  function WithTotalSpent(rows: seq<MergedRow>): (r: seq<SpentRow>)
    ensures |r| == |rows|
    ensures forall i :: 0 <= i < |rows| ==>
      r[i].transaction == rows[i].transaction && r[i].age == rows[i].age
  {
    var ids := SortedKeys(Column(rows, MergedCustomer));
    var sums := GroupSums(ids, rows, MergedCustomer, MergedValue);
    seq(|rows|, i requires 0 <= i < |rows| => SpentAt(rows, ids, sums, i))
  }

  /** Row `i` with the sum of its customer looked up in the group table `sums`. */
  function SpentAt(rows: seq<MergedRow>, ids: seq<CustomerId>, sums: seq<int>, i: nat): (r: SpentRow)
    requires i < |rows| && |sums| == |ids|
    requires forall c :: c in ids <==> c in KeysOf(rows, MergedCustomer)
    ensures r.transaction == rows[i].transaction && r.age == rows[i].age
  {
    assert MergedCustomer(rows[i]) in KeysOf(rows, MergedCustomer);
    SpentRow(rows[i].transaction, rows[i].age, sums[IndexOf(ids, rows[i].transaction.customer)])
  }

  /**
   * After the broadcast each row's TotalSpent is the sum of TotalValue over all rows
   * of its customer, so rows of the same customer carry the same TotalSpent.
   */
  lemma BroadcastIsCustomerTotal(rows: seq<MergedRow>)
    ensures forall i :: 0 <= i < |rows| ==>
      WithTotalSpent(rows)[i].totalSpent == CustomerTotal(rows, rows[i].transaction.customer)
    ensures forall i, j :: 0 <= i < |rows| && 0 <= j < |rows| && rows[i].transaction.customer == rows[j].transaction.customer ==>
      WithTotalSpent(rows)[i].totalSpent == WithTotalSpent(rows)[j].totalSpent
  {
    var ids := SortedKeys(Column(rows, MergedCustomer));
    var sums := GroupSums(ids, rows, MergedCustomer, MergedValue);
    forall i | 0 <= i < |rows|
      ensures WithTotalSpent(rows)[i].totalSpent == CustomerTotal(rows, rows[i].transaction.customer)
    {
      var c := rows[i].transaction.customer;
      assert MergedCustomer(rows[i]) in KeysOf(rows, MergedCustomer);
      var k := IndexOf(ids, c);
      assert WithTotalSpent(rows)[i] == SpentAt(rows, ids, sums, i);
      assert sums[k] == Total(Where(rows, MergedCustomer, ids[k]), MergedValue);
    }
  }

  /** Lines 27-32: the de-duplicated merged table handed to the scaler, or the KeyError of line 27. */
  function ClusteringTable(ts: seq<Transaction>, rows: seq<Customer>, age: Option<seq<Option<int>>>): (r: Result<seq<SpentRow>, ClusteringError>)
    requires age.Some? ==> |age.value| == |rows|
    ensures r.Failure? <==> age.None?
  {
    match AgeTable(rows, age)
    case Failure(e) => Failure(e)
    case Success(ages) => Success(DropDuplicates(WithTotalSpent(MergeAges(ts, ages)), SpentCustomer))
  }

  /** Line 34: `merged_data[['Age', 'TotalSpent']]`, the input of StandardScaler and KMeans. */
  function FeaturePairs(table: seq<SpentRow>): (r: seq<(Option<int>, Cents)>)
    ensures |r| == |table|
    ensures forall i :: 0 <= i < |table| ==> r[i] == (table[i].age, table[i].totalSpent)
  {
    seq(|table|, i requires 0 <= i < |table| => (table[i].age, table[i].totalSpent))
  }

  lemma SpentKeys(rows: seq<MergedRow>)
    ensures KeysOf(WithTotalSpent(rows), SpentCustomer) == KeysOf(rows, MergedCustomer)
  {
    var spent := WithTotalSpent(rows);
    forall c | c in KeysOf(rows, MergedCustomer) ensures c in KeysOf(spent, SpentCustomer) {
      var x :| x in rows && MergedCustomer(x) == c;
      var i :| 0 <= i < |rows| && rows[i] == x;
      assert spent[i] in spent;
    }
    forall c | c in KeysOf(spent, SpentCustomer) ensures c in KeysOf(rows, MergedCustomer) {
      var x :| x in spent && SpentCustomer(x) == c;
      var i :| 0 <= i < |spent| && spent[i] == x;
      assert rows[i] in rows;
    }
  }

  lemma FirstSpentIndex(rows: seq<MergedRow>, c: CustomerId)
    requires c in KeysOf(WithTotalSpent(rows), SpentCustomer)
    ensures c in KeysOf(rows, MergedCustomer)
    ensures FirstIndex(WithTotalSpent(rows), SpentCustomer, c) == FirstIndex(rows, MergedCustomer, c)
  {
    var spent := WithTotalSpent(rows);
    var f := FirstIndex(spent, SpentCustomer, c);
    forall j | 0 <= j < f ensures MergedCustomer(rows[j]) != c {
      assert SpentCustomer(spent[j]) != c;
    }
    FirstIndexAt(rows, MergedCustomer, f);
  }

  /**
   * `drop_duplicates(subset='CustomerID')` leaves one row per customer of the merged
   * data: the customer's first row, in order of first appearance, still carrying the
   * customer's total.
   */
  lemma DeduplicatedRows(rows: seq<MergedRow>)
    ensures var kept := DropDuplicates(WithTotalSpent(rows), SpentCustomer);
      && UniqueKeys(kept, SpentCustomer)
      && KeysOf(kept, SpentCustomer) == KeysOf(rows, MergedCustomer)
      && (forall i :: 0 <= i < |kept| ==>
            && kept[i].transaction.customer in KeysOf(rows, MergedCustomer)
            && kept[i] == WithTotalSpent(rows)[FirstIndex(rows, MergedCustomer, kept[i].transaction.customer)]
            && kept[i].totalSpent == CustomerTotal(rows, kept[i].transaction.customer))
      && (forall i, j :: 0 <= i < j < |kept| ==>
            && kept[i].transaction.customer in KeysOf(rows, MergedCustomer)
            && kept[j].transaction.customer in KeysOf(rows, MergedCustomer)
            && FirstIndex(rows, MergedCustomer, kept[i].transaction.customer)
               < FirstIndex(rows, MergedCustomer, kept[j].transaction.customer))
  {
    var spent := WithTotalSpent(rows);
    var kept := DropDuplicates(spent, SpentCustomer);
    DropDuplicatesKeepsFirst(spent, SpentCustomer);
    DropDuplicatesInOrder(spent, SpentCustomer);
    SpentKeys(rows);
    BroadcastIsCustomerTotal(rows);
    forall i | 0 <= i < |kept|
      ensures kept[i].transaction.customer in KeysOf(rows, MergedCustomer)
      ensures FirstIndex(spent, SpentCustomer, kept[i].transaction.customer)
           == FirstIndex(rows, MergedCustomer, kept[i].transaction.customer)
    {
      FirstSpentIndex(rows, kept[i].transaction.customer);
    }
  }

  /** The kept TotalSpent values add up to the TotalValue of all merged rows. */
  lemma DeduplicatedTotal(rows: seq<MergedRow>)
    ensures Total(DropDuplicates(WithTotalSpent(rows), SpentCustomer), SpentTotal) == Total(rows, MergedValue)
  {
    var spent := WithTotalSpent(rows);
    var kept := DropDuplicates(spent, SpentCustomer);
    var ids := Column(kept, SpentCustomer);
    forall i | 0 <= i < |ids| ensures SpentTotal(kept[i]) == Total(Where(rows, MergedCustomer, ids[i]), MergedValue) {
      assert kept[i] in kept;
      var j :| 0 <= j < |spent| && spent[j] == kept[i];
    }
    SpentKeys(rows);
    assert Distinct(ids) by {
      forall i, j | 0 <= i < j < |ids| ensures ids[i] != ids[j] { }
    }
    GroupReportTotal(kept, SpentTotal, ids, rows, MergedCustomer, MergedValue);
  }

  /**
   * The script from line 19 to line 34 on a freshly loaded frame: the Age column is
   * added, then the table is built from it. Without a SignupDate column there is no
   * Age column and the column selection of line 27 fails.
   */
  method PrepareClustering(frame: CustomerFrame, ts: seq<Transaction>, now: Date)
    returns (r: Result<seq<(Option<int>, Cents)>, ClusteringError>)
    requires frame.Valid() && frame.age == None
    modifies frame
    ensures frame.Valid() && frame.rows == old(frame.rows)
    ensures frame.hasSignupDate == old(frame.hasSignupDate)
    ensures r.Failure? <==> !frame.hasSignupDate
    ensures r.Failure? ==> frame.age == old(frame.age)
    ensures r.Failure? ==> r.error == MissingColumn("Age")
    ensures r.Success? ==>
      frame.age == Some(AgeColumn(frame.rows, now)) &&
      ClusteringTable(ts, frame.rows, frame.age).Success? &&
      r.value == FeaturePairs(ClusteringTable(ts, frame.rows, frame.age).value)
  {
    var found := frame.AddAge(now);
    var table := ClusteringTable(ts, frame.rows, frame.age);
    if table.Failure? {
      return Failure(table.error);
    }
    return Success(FeaturePairs(table.value));
  }
}
