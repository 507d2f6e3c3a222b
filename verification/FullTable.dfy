/** Runs do reach a full table, and what happens there. */
module FullTable {
  import opened MarketTypes
  import opened Reference
  import opened Runs
  import opened OrderTable
  import opened Book
  import opened MarketState
  import Masking

  /** The k-th of any number of orders with different ids. */
  function OrderNumber(k: nat): NewOrder
    requires k < TWO_64
  {
    NewOrder(k, 0, 0, 1, 1, 'B')
  }

  function Filling(n: nat): (ms: seq<Message>)
    requires n <= Masking.CAPACITY
    ensures |ms| == n
  {
    seq(n, k requires 0 <= k < n => AddOrder(OrderNumber(k)))
  }

  /** The ids of the first `n` orders, and no others. */
  ghost predicate FirstIds(m: Orders, n: nat) {
    |m| == n && forall id: OrderId :: id in m <==> id < n
  }

  /** Adds of different ids never meet a full table before all slots are taken, and then they are. */
  lemma {:induction false} FillingFills(bboHandler: bool, tradeHandler: bool, n: nat, capacity: nat)
    requires n <= capacity <= Masking.CAPACITY
    ensures RunHasRoom(Initial(bboHandler, tradeHandler), Filling(n), capacity)
    ensures FirstIds(Run(Initial(bboHandler, tradeHandler), Filling(n)).orders, n)
    decreases n
  {
    var s0 := Initial(bboHandler, tradeHandler);
    if n == 0 {
    } else {
      var m := AddOrder(OrderNumber(n - 1));
      FillingFills(bboHandler, tradeHandler, n - 1, capacity);
      assert Filling(n) == Filling(n - 1) + [m];
      RunConcat(s0, Filling(n - 1), [m]);
      RoomConcat(s0, Filling(n - 1), [m], capacity);
      OneMoreFits(Run(s0, Filling(n - 1)), n - 1, capacity);
    }
  }

  lemma OneMoreFits(s: State, n: nat, capacity: nat)
    requires FirstIds(s.orders, n) && n < capacity && n < TWO_64
    ensures var ms := [AddOrder(OrderNumber(n))];
            RunHasRoom(s, ms, capacity) && FirstIds(Run(s, ms).orders, n + 1)
  {
    var m := AddOrder(OrderNumber(n));
    assert [m][1..] == [] && Run(s, [m]) == Apply(s, m);
    OneMoreId(s.orders, OrderOf(OrderNumber(n)), n);
  }

  lemma OneMoreId(m: Orders, o: Order, n: nat)
    requires FirstIds(m, n) && o.orderId == n
    ensures FirstIds(m[o.orderId := o], n + 1)
  {
    assert m[o.orderId := o] - {o.orderId} == m;
    DropSize(m[o.orderId := o], o.orderId);
  }

  /** Where every slot is taken, the next new order is refused, and no removal can be asked for. */
  lemma FullHasNoRoom(bboHandler: bool, tradeHandler: bool, capacity: nat)
    requires 0 < capacity <= Masking.CAPACITY
    ensures var s := Run(Initial(bboHandler, tradeHandler), Filling(capacity));
            && !HasRoom(s, AddOrder(OrderNumber(capacity)), capacity)
            && !HasRoom(s, OrderDelete(0, 0), capacity)
  {
    FillingFills(bboHandler, tradeHandler, capacity, capacity);
  }

  /** A deletion of this id would still be scanning after any number of steps. */
  ghost predicate ScansForever(table: OrderStore<LevelHandle>, id: OrderId)
    requires table.Valid() && id in table.contents && table.size == table.slots.Length
    reads table, table.slots
  {
    var s, slot := table.slots[..], table.where[id];
    FullIffNoEmptySlot(s, table.where);
    forall steps: nat ::
      var (t, hole, current) := ScanFull(s, table.hash, slot, Next(|s|, slot), steps); t[current].Occupied?
  }

  lemma RemovalNeverEnds(market: ItchMarketState, id: OrderId)
    requires market.Valid() && market.orders.size == market.orders.slots.Length && id in market.resting
    ensures ScansForever(market.orders, id)
  {
    var table := market.orders;
    var s, slot := table.slots[..], table.where[id];
    FullIffNoEmptySlot(s, table.where);
    forall steps: nat
      ensures var (t, hole, current) := ScanFull(s, table.hash, slot, Next(|s|, slot), steps); t[current].Occupied?
    {
      FullTableNeverStops(s, table.where, table.hash, slot, steps);
    }
  }

  /** For every capacity, a market state on whose table every slot is taken, by a run that has room for all
      of its messages.  The removal of any order resting there would never end. */
  method FillTable(capacity: nat, hash: OrderId -> nat, bboHandler: bool, tradeHandler: bool)
    returns (market: ItchMarketState)
    requires 0 < capacity <= Masking.CAPACITY && HashBelow(hash, capacity)
    ensures market.Valid() && fresh(market.Repr)
    ensures market.orders.size == market.orders.slots.Length == capacity
    ensures market.Snapshot() == Run(Initial(bboHandler, tradeHandler), Filling(capacity))
    ensures FirstIds(market.resting, capacity)
    ensures forall id: OrderId | id in market.resting :: ScansForever(market.orders, id)
  {
    market := new ItchMarketState(capacity, hash, bboHandler, tradeHandler);
    FillingFills(bboHandler, tradeHandler, capacity, capacity);
    market.OnMessages(Filling(capacity));
    market.FewOrders();
    forall id: OrderId | id in market.resting
      ensures ScansForever(market.orders, id)
    {
      RemovalNeverEnds(market, id);
    }
  }

  /** One more new order there leaves levels and table in disagreement. */
  method FullTableBreaks(capacity: nat, hash: OrderId -> nat, bboHandler: bool, tradeHandler: bool)
    returns (market: ItchMarketState)
    requires 0 < capacity <= Masking.CAPACITY && HashBelow(hash, capacity)
    ensures market.Torn() && fresh(market.Repr)
    ensures market.Snapshot() == DuplicateAdd(Run(Initial(bboHandler, tradeHandler), Filling(capacity)))
  {
    market := FillTable(capacity, hash, bboHandler, tradeHandler);
    market.OnMessage(AddOrder(OrderNumber(capacity)));
  }
}
