/** Reference semantics of the ITCH order messages on a plain map from order id to resting order.
    Price levels and best quotes are not state here: they are sums and extremes over that map. */
module Reference {
  import opened MarketTypes

  // ----- Messages and notifications -----

  datatype NewOrder = NewOrder(
    orderId: OrderId, instrumentId: InstrumentId, timestamp: Timestamp,
    price: Price, shares: Shares, buySell: char)

  datatype Message =
    | AddOrder(add: NewOrder)
    | AddOrderWithMpid(add: NewOrder)
    | OrderExecuted(orderId: OrderId, timestamp: Timestamp, shares: Shares)
    | OrderExecutedWithPrice(orderId: OrderId, timestamp: Timestamp, shares: Shares, executionPrice: Price)
    | OrderCancel(orderId: OrderId, timestamp: Timestamp, shares: Shares)
    | OrderDelete(orderId: OrderId, timestamp: Timestamp)
    | OrderReplace(originalId: OrderId, newId: OrderId, timestamp: Timestamp, price: Price, shares: Shares)
    | Trade(instrumentId: InstrumentId, timestamp: Timestamp, price: Price, shares: Shares, buySell: char)
    | Unhandled

  datatype Bbo = Bbo(
    hasBid: bool, bidPrice: Price, bidQuantity: nat,
    hasAsk: bool, askPrice: Price, askQuantity: nat)

  const NO_BBO := Bbo(false, 0, 0, false, 0, 0)

  /** Bbo::operator==: prices and quantities count only where the side is present. */
  predicate SameBbo(a: Bbo, b: Bbo) {
    && a.hasBid == b.hasBid
    && a.hasAsk == b.hasAsk
    && (a.hasBid ==> a.bidPrice == b.bidPrice && a.bidQuantity == b.bidQuantity)
    && (a.hasAsk ==> a.askPrice == b.askPrice && a.askQuantity == b.askQuantity)
  }

  datatype TradeEvent = TradeEvent(
    instrumentId: InstrumentId, timestamp: Timestamp, price: Price, quantity: Shares, side: Side)

  /** A trade notification, and how many quote notifications had been made before it. */
  datatype TradeNote = TradeNote(event: TradeEvent, quotesBefore: nat)

  datatype BboEvent = BboEvent(instrumentId: InstrumentId, timestamp: Timestamp, bbo: Bbo)

  /** The error counters of the market state. */
  datatype Counters = Counters(
    duplicateAdds: nat,
    unknownExecutions: nat, overExecuted: nat,
    unknownExecutionsWithPrice: nat, overExecutedWithPrice: nat,
    unknownCancels: nat, overCancelled: nat,
    unknownDeletes: nat,
    unknownReplaces: nat, duplicateReplacements: nat,
    missingBooks: nat, failedReductions: nat, failedRemovals: nat)

  const NO_ERRORS := Counters(0, 0, 0, 0, 0, 0, 0, 0, 0, 0, 0, 0, 0)

  function SideOf(buySell: char): Side {
    if buySell == 'B' then Buy else Sell
  }

  function OrderOf(a: NewOrder): Order {
    Order(a.orderId, a.instrumentId, a.timestamp, a.price, a.shares, SideOf(a.buySell))
  }

  // ----- Levels and quotes as functions of the resting orders -----

  type Orders = map<OrderId, Order>

  /** A price level; its price is its key in the map that holds it. */
  datatype LevelView = LevelView(quantity: nat, orderCount: nat) {
    /** 64-bit additions: both fields wrap. */
    function Add(added: nat): (r: LevelView)
      ensures quantity + added < TWO_64 ==> r.quantity == quantity + added
      ensures orderCount + 1 < TWO_64 ==> r.orderCount == orderCount + 1
    {
      LevelView((quantity + added) % TWO_64, (orderCount + 1) % TWO_64)
    }

    function Reduce(reduced: nat): Option<LevelView> {
      if reduced > quantity then None else Some(this.(quantity := quantity - reduced))
    }

    function RemoveOrder(remaining: nat): Option<LevelView> {
      if orderCount == 0 || remaining > quantity then None
      else Some(LevelView(quantity - remaining, orderCount - 1))
    }

    predicate Empty() {
      orderCount == 0
    }
  }

  type Levels = map<Price, LevelView>

  predicate On(o: Order, i: InstrumentId, side: Side) {
    o.instrumentId == i && o.side == side
  }

  function Resting(m: Orders, i: InstrumentId, side: Side, p: Price): set<OrderId> {
    set id | id in m && On(m[id], i, side) && m[id].price == p
  }

  ghost function Total(m: Orders, ids: set<OrderId>): nat
    requires ids <= m.Keys
  {
    if ids == {} then 0 else
      var id :| id in ids;
      m[id].quantity + Total(m, ids - {id})
  }

  /** The level at a price: the summed quantity and the number of the orders resting there. */
  ghost function LevelAt(m: Orders, i: InstrumentId, side: Side, p: Price): LevelView {
    var ids := Resting(m, i, side, p);
    LevelView(Total(m, ids), |ids|)
  }

  function Prices(m: Orders, i: InstrumentId, side: Side): set<Price> {
    set id | id in m && On(m[id], i, side) :: m[id].price
  }

  /** One side of one book: a level exists at exactly the prices where some order rests. */
  ghost function SideView(m: Orders, i: InstrumentId, side: Side): Levels {
    map p | p in Prices(m, i, side) :: LevelAt(m, i, side, p)
  }

  /** Highest price first for bids, lowest first for asks. */
  predicate AtLeastAsGood(side: Side, p: Price, q: Price) {
    if side.Buy? then q <= p else p <= q
  }

  lemma {:induction false} BestExists(side: Side, s: set<Price>) returns (best: Price)
    requires s != {}
    ensures best in s && forall q <- s :: AtLeastAsGood(side, best, q)
    decreases s
  {
    var x :| x in s;
    var rest := s - {x};
    best := x;
    if rest != {} {
      var p := BestExists(side, rest);
      if AtLeastAsGood(side, p, x) {
        best := p;
      }
    }
    assert forall q <- s :: q == x || q in rest;
  }

  function BestPrice(side: Side, prices: set<Price>): Price
    requires prices != {}
  {
    assert exists p :: p in prices && forall q <- prices :: AtLeastAsGood(side, p, q) by {
      var best := BestExists(side, prices);
    }
    var p :| p in prices && forall q <- prices :: AtLeastAsGood(side, p, q);
    p
  }

  lemma BestPriceIs(side: Side, prices: set<Price>)
    requires prices != {}
    ensures BestPrice(side, prices) in prices
    ensures forall q <- prices :: AtLeastAsGood(side, BestPrice(side, prices), q)
  {
  }

  /** Price and quantity of the best level, if there is one. */
  function TopOf(side: Side, levels: Levels): (top: Option<(Price, nat)>) {
    if levels == map[] then None
    else
      BestPriceIs(side, levels.Keys);
      Some((BestPrice(side, levels.Keys), levels[BestPrice(side, levels.Keys)].quantity))
  }

  function Quote(bid: Option<(Price, nat)>, ask: Option<(Price, nat)>): Bbo {
    Bbo(bid.Some?, bid.GetOr((0, 0)).0, bid.GetOr((0, 0)).1, ask.Some?, ask.GetOr((0, 0)).0, ask.GetOr((0, 0)).1)
  }

  /** Some order rests at `p` and none at a better price. */
  ghost predicate IsBest(m: Orders, i: InstrumentId, side: Side, p: Price) {
    && (exists id <- m :: On(m[id], i, side) && m[id].price == p)
    && (forall id <- m :: On(m[id], i, side) ==> AtLeastAsGood(side, p, m[id].price))
  }

  lemma BestRests(m: Orders, i: InstrumentId, side: Side)
    requires exists id <- m :: On(m[id], i, side)
    ensures exists p :: IsBest(m, i, side, p)
  {
    var id :| id in m && On(m[id], i, side);
    assert m[id].price in Prices(m, i, side);
    var p := BestExists(side, Prices(m, i, side));
    assert forall id <- m :: On(m[id], i, side) ==> m[id].price in Prices(m, i, side);
    assert IsBest(m, i, side, p);
  }

  /** The best resting price of one side with all the shares resting there. */
  ghost function TopAt(m: Orders, i: InstrumentId, side: Side): Option<(Price, nat)> {
    if exists id <- m :: On(m[id], i, side) then
      BestRests(m, i, side);
      var p :| IsBest(m, i, side, p);
      Some((p, Total(m, Resting(m, i, side, p))))
    else None
  }

  /** The quote of an instrument: highest bid and lowest ask over the resting orders. */
  ghost function BboAt(m: Orders, i: InstrumentId): Bbo {
    Quote(TopAt(m, i, Buy), TopAt(m, i, Sell))
  }

  // ----- What one message does -----

  /** The observable state: resting orders, error counters and the notifications made so far. */
  datatype State = State(
    orders: Orders,
    counters: Counters,
    trades: seq<TradeNote>,
    quotes: seq<BboEvent>,
    bboHandler: bool,
    tradeHandler: bool)

  function Initial(bboHandler: bool, tradeHandler: bool): State {
    State(map[], NO_ERRORS, [], [], bboHandler, tradeHandler)
  }

  /** Change the resting orders, then notify the instrument's quote if it moved. */
  ghost function WithOrders(s: State, m: Orders, i: InstrumentId, t: Timestamp): State {
    s.(orders := m,
       quotes := if s.bboHandler && !SameBbo(BboAt(s.orders, i), BboAt(m, i))
                 then s.quotes + [BboEvent(i, t, BboAt(m, i))] else s.quotes)
  }

  ghost function WithTrade(s: State, e: TradeEvent): State {
    s.(trades := if s.tradeHandler then s.trades + [TradeNote(e, |s.quotes|)] else s.trades)
  }

  /** The order that remains of `o` after `shares` of it are gone; nothing when they were all. */
  function AfterTaking(m: Orders, id: OrderId, shares: Shares): Orders
    requires id in m && shares <= m[id].quantity
  {
    if shares == m[id].quantity then m - {id}
    else m[id := m[id].(quantity := m[id].quantity - shares)]
  }

  /** The states that differ from `s` in the resting orders only. */
  function Inserted(s: State, o: Order): State {
    s.(orders := s.orders[o.orderId := o])
  }

  function Removed(s: State, id: OrderId): State {
    s.(orders := s.orders - {id})
  }

  function Taken(s: State, id: OrderId, shares: Shares): State
    requires id in s.orders && shares <= s.orders[id].quantity
  {
    s.(orders := AfterTaking(s.orders, id, shares))
  }

  function DuplicateAdd(s: State): State {
    s.(counters := s.counters.(duplicateAdds := s.counters.duplicateAdds + 1))
  }

  ghost function AddedTo(s: State, o: Order): State {
    WithOrders(s, s.orders[o.orderId := o], o.instrumentId, o.timestamp)
  }

  ghost function ApplyAdd(s: State, o: Order): State {
    if o.orderId in s.orders then DuplicateAdd(s) else AddedTo(s, o)
  }

  ghost function ApplyTake(s: State, id: OrderId, t: Timestamp, shares: Shares): State
    requires id in s.orders && shares <= s.orders[id].quantity
  {
    WithOrders(s, AfterTaking(s.orders, id, shares), s.orders[id].instrumentId, t)
  }

  ghost function ApplyExecution(s: State, id: OrderId, t: Timestamp, shares: Shares, price: Price): State
    requires id in s.orders && shares <= s.orders[id].quantity
  {
    var o := s.orders[id];
    ApplyTake(WithTrade(s, TradeEvent(o.instrumentId, t, price, shares, o.side)), id, t, shares)
  }

  // One function for each error counter that a message can raise.

  function UnknownExecution(s: State): State {
    s.(counters := s.counters.(unknownExecutions := s.counters.unknownExecutions + 1))
  }

  function OverExecution(s: State): State {
    s.(counters := s.counters.(overExecuted := s.counters.overExecuted + 1))
  }

  function UnknownExecutionWithPrice(s: State): State {
    s.(counters := s.counters.(unknownExecutionsWithPrice := s.counters.unknownExecutionsWithPrice + 1))
  }

  function OverExecutionWithPrice(s: State): State {
    s.(counters := s.counters.(overExecutedWithPrice := s.counters.overExecutedWithPrice + 1))
  }

  function UnknownCancel(s: State): State {
    s.(counters := s.counters.(unknownCancels := s.counters.unknownCancels + 1))
  }

  function OverCancel(s: State): State {
    s.(counters := s.counters.(overCancelled := s.counters.overCancelled + 1))
  }

  function UnknownDelete(s: State): State {
    s.(counters := s.counters.(unknownDeletes := s.counters.unknownDeletes + 1))
  }

  function UnknownReplace(s: State): State {
    s.(counters := s.counters.(unknownReplaces := s.counters.unknownReplaces + 1))
  }

  function DuplicateReplace(s: State): State {
    s.(counters := s.counters.(duplicateReplacements := s.counters.duplicateReplacements + 1))
  }

  /** The order that takes the place of `o`. */
  function Replacement(o: Order, newId: OrderId, t: Timestamp, price: Price, shares: Shares): Order {
    Order(newId, o.instrumentId, t, price, shares, o.side)
  }

  ghost function ReplacedBy(s: State, id: OrderId, o: Order): State {
    WithOrders(s, (s.orders - {id})[o.orderId := o], o.instrumentId, o.timestamp)
  }

  ghost function DeletedAt(s: State, id: OrderId, t: Timestamp): State
    requires id in s.orders
  {
    WithOrders(s, s.orders - {id}, s.orders[id].instrumentId, t)
  }

  ghost function ApplyExecuted(s: State, id: OrderId, t: Timestamp, shares: Shares): State {
    if id !in s.orders then UnknownExecution(s)
    else if shares > s.orders[id].quantity then OverExecution(s)
    else ApplyExecution(s, id, t, shares, s.orders[id].price)
  }

  ghost function ApplyExecutedWithPrice(s: State, id: OrderId, t: Timestamp, shares: Shares, price: Price): State {
    if id !in s.orders then UnknownExecutionWithPrice(s)
    else if shares > s.orders[id].quantity then OverExecutionWithPrice(s)
    else ApplyExecution(s, id, t, shares, price)
  }

  ghost function ApplyCancel(s: State, id: OrderId, t: Timestamp, shares: Shares): State {
    if id !in s.orders then UnknownCancel(s)
    else if shares > s.orders[id].quantity then OverCancel(s)
    else ApplyTake(s, id, t, shares)
  }

  ghost function ApplyDelete(s: State, id: OrderId, t: Timestamp): State {
    if id !in s.orders then UnknownDelete(s) else DeletedAt(s, id, t)
  }

  ghost function ApplyReplace(s: State, id: OrderId, newId: OrderId, t: Timestamp, price: Price, shares: Shares)
    : State
  {
    if id !in s.orders then UnknownReplace(s)
    else if newId != id && newId in s.orders then DuplicateReplace(s)
    else ReplacedBy(s, id, Replacement(s.orders[id], newId, t, price, shares))
  }

  ghost function Apply(s: State, m: Message): State {
    match m
    case AddOrder(a) => ApplyAdd(s, OrderOf(a))
    case AddOrderWithMpid(a) => ApplyAdd(s, OrderOf(a))
    case OrderExecuted(id, t, shares) => ApplyExecuted(s, id, t, shares)
    case OrderExecutedWithPrice(id, t, shares, price) => ApplyExecutedWithPrice(s, id, t, shares, price)
    case OrderCancel(id, t, shares) => ApplyCancel(s, id, t, shares)
    case OrderDelete(id, t) => ApplyDelete(s, id, t)
    case OrderReplace(id, newId, t, price, shares) => ApplyReplace(s, id, newId, t, price, shares)
    case Trade(i, t, price, shares, buySell) => WithTrade(s, TradeEvent(i, t, price, shares, SideOf(buySell)))
    case Unhandled => s
  }

  ghost function Run(s: State, ms: seq<Message>): State
    decreases |ms|
  {
    if ms == [] then s else Run(Apply(s, ms[0]), ms[1..])
  }

  // ----- Room in a table of bounded capacity -----

  predicate TakesAll(s: State, id: OrderId, shares: Shares) {
    id in s.orders && shares == s.orders[id].quantity
  }

  predicate Replaces(s: State, id: OrderId, newId: OrderId) {
    id in s.orders && (newId == id || newId !in s.orders)
  }

  /** Whether a message adds an order, none leaving. */
  predicate Adds(s: State, m: Message) {
    match m
    case AddOrder(a) => a.orderId !in s.orders
    case AddOrderWithMpid(a) => a.orderId !in s.orders
    case _ => false
  }

  /** Whether a message removes an order, or replaces one. */
  predicate Removes(s: State, m: Message) {
    match m
    case OrderExecuted(id, t, shares) => TakesAll(s, id, shares)
    case OrderExecutedWithPrice(id, t, shares, price) => TakesAll(s, id, shares)
    case OrderCancel(id, t, shares) => TakesAll(s, id, shares)
    case OrderDelete(id, t) => id in s.orders
    case OrderReplace(id, newId, t, price, shares) => Replaces(s, id, newId)
    case _ => false
  }

  /** A table of `capacity` slots is not asked to add to, or remove from, a full table. */
  predicate HasRoom(s: State, m: Message, capacity: nat) {
    Adds(s, m) || Removes(s, m) ==> |s.orders| < capacity
  }

  ghost predicate RunHasRoom(s: State, ms: seq<Message>, capacity: nat)
    decreases |ms|
  {
    ms != [] ==> HasRoom(s, ms[0], capacity) && RunHasRoom(Apply(s, ms[0]), ms[1..], capacity)
  }

  /** Before each of the messages fewer than `capacity` orders are active. */
  ghost predicate BelowCapacity(s: State, ms: seq<Message>, capacity: nat)
    decreases |ms|
  {
    ms != [] ==> |s.orders| < capacity && BelowCapacity(Apply(s, ms[0]), ms[1..], capacity)
  }
}
