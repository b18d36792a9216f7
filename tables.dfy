/**
 * The three input relations (customers, products, transactions) as typed records.
 * Money is held as integer cents; timestamps are already parsed into calendar fields.
 */
module Tables {
  import opened Wrappers

  type CustomerId = string
  type ProductId = string
  type TransactionId = string

  /** An amount of money in cents. */
  type Cents = int

  type MonthNum = m: int | 1 <= m <= 12 witness 1
  type DayNum = d: int | 1 <= d <= 31 witness 1
  type HourNum = h: int | 0 <= h <= 23 witness 0

  /** A parsed timestamp: calendar date plus hour of the day. */
  datatype Date = Date(year: int, month: MonthNum, day: DayNum, hour: HourNum)

  /** A row of Customers.csv; `signup` is None when the SignupDate text does not parse. */
  datatype Customer = Customer(id: CustomerId, name: string, region: string, signup: Option<Date>)

  /** A row of Products.csv. */
  datatype Product = Product(id: ProductId, name: string, category: string, price: Cents)

  /** A row of Transactions.csv. */
  datatype Transaction = Transaction(
    id: TransactionId,
    customer: CustomerId,
    product: ProductId,
    quantity: int,
    totalValue: Cents,
    date: Date)

  // Column accessors, passed as key or value functions to the relational operators.

  function CustomerKey(c: Customer): CustomerId { c.id }
  function ProductKey(p: Product): ProductId { p.id }
  function BuyerOf(t: Transaction): CustomerId { t.customer }
  function ProductOf(t: Transaction): ProductId { t.product }
  function ValueOf(t: Transaction): int { t.totalValue }
  function QuantityOf(t: Transaction): int { t.quantity }

  /**
   * The `TransactionDate.dt.month` column (1 to 12): the Month column of the EDA frame
   * and the month group key of its reports.
   */
  function MonthOf(t: Transaction): int { t.date.month }

  /**
   * The `TransactionDate.dt.hour` column (0 to 23): the Hour column of the EDA frame
   * and the hour group key of its reports.
   */
  function HourOf(t: Transaction): int { t.date.hour }

  /** Every transaction value and quantity is non-negative, as the data model promises. */
  predicate NonNegative(ts: seq<Transaction>)
  {
    forall t :: t in ts ==> t.totalValue >= 0 && t.quantity >= 0
  }
}
