/** The scalar types and records shared by the order table, the books and the market state.
    Widths are those of the C++ aliases; every arithmetic step that could leave a width is
    written out where it happens. */
module MarketTypes {

  const TWO_32: nat := 0x1_0000_0000
  const TWO_64: nat := 0x1_0000_0000_0000_0000

  type InstrumentId = x: nat | x < 0x1_0000
  type Price = x: nat | x < TWO_32
  type Shares = x: nat | x < TWO_32
  type OrderId = x: nat | x < TWO_64
  type Timestamp = x: nat | x < TWO_64

  datatype Side = Buy | Sell

  /** A resting order.  `quantity` is a 64-bit field in C++, but it only ever holds what is left
      of a 32-bit share count. */
  datatype Order = Order(
    orderId: OrderId,
    instrumentId: InstrumentId,
    timestamp: Timestamp,
    price: Price,
    quantity: Shares,
    side: Side)

  datatype Option<+T> = None | Some(value: T) {
    function GetOr(default: T): T {
      match this
      case None => default
      case Some(v) => v
    }
  }
}
