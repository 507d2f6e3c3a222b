/** What holds of every run of the reference semantics, and so of every run of the market state. */
module Runs {
  import opened MarketTypes
  import opened Reference
  import LevelAlgebra

  // ----- Runs compose -----

  lemma {:induction false} RunConcat(s: State, a: seq<Message>, b: seq<Message>)
    ensures Run(s, a + b) == Run(Run(s, a), b)
    decreases |a|
  {
    if a == [] {
      assert a + b == b;
    } else {
      assert (a + b)[0] == a[0] && (a + b)[1..] == a[1..] + b;
      RunConcat(Apply(s, a[0]), a[1..], b);
    }
  }

  /** What the counters of the defensive branches hold. */
  function Defensive(s: State): (nat, nat, nat) {
    (s.counters.missingBooks, s.counters.failedReductions, s.counters.failedRemovals)
  }

  lemma ApplyKeepsDefensive(s: State, m: Message)
    ensures Defensive(Apply(s, m)) == Defensive(s)
  {
  }

  /** No message of the reference semantics counts a missing book or a refused level change. */
  lemma {:induction false} DefensiveCountersStay(s: State, ms: seq<Message>)
    ensures Defensive(Run(s, ms)) == Defensive(s)
    decreases |ms|
  {
    if ms == [] {
    } else {
      ApplyKeepsDefensive(s, ms[0]);
      DefensiveCountersStay(Apply(s, ms[0]), ms[1..]);
    }
  }

  lemma {:induction false} RoomConcat(s: State, a: seq<Message>, b: seq<Message>, capacity: nat)
    ensures RunHasRoom(s, a + b, capacity) <==> RunHasRoom(s, a, capacity) && RunHasRoom(Run(s, a), b, capacity)
    decreases |a|
  {
    if a == [] {
      assert a + b == b;
    } else {
      assert (a + b)[0] == a[0] && (a + b)[1..] == a[1..] + b;
      RoomConcat(Apply(s, a[0]), a[1..], b, capacity);
    }
  }

  /** Active orders strictly below the capacity leave room for every message. */
  lemma {:induction false} BelowCapacityHasRoom(s: State, ms: seq<Message>, capacity: nat)
    requires BelowCapacity(s, ms, capacity)
    ensures RunHasRoom(s, ms, capacity)
    decreases |ms|
  {
    if ms == [] {
    } else {
      BelowCapacityHasRoom(Apply(s, ms[0]), ms[1..], capacity);
    }
  }

  // ----- Quote notifications reconstruct every book -----

  /** The last quote notified for an instrument; an empty one before the first. */
  ghost function LastQuote(quotes: seq<BboEvent>, i: InstrumentId): Bbo {
    if quotes == [] then NO_BBO
    else if quotes[|quotes| - 1].instrumentId == i then quotes[|quotes| - 1].bbo
    else LastQuote(quotes[..|quotes| - 1], i)
  }

  /** Whoever keeps the last quote of each instrument has its best bid and ask, and every
      notification changed what was known. */
  ghost predicate QuotesFollow(s: State) {
    && (forall i: InstrumentId :: LastQuote(s.quotes, i) == BboAt(s.orders, i))
    && (forall k | 0 <= k < |s.quotes| :: s.quotes[k].bbo != LastQuote(s.quotes[..k], s.quotes[k].instrumentId))
  }

  lemma BestIsUnique(m: Orders, i: InstrumentId, side: Side, p: Price, q: Price)
    requires IsBest(m, i, side, p) && IsBest(m, i, side, q)
    ensures p == q
  {
    var a :| a in m && On(m[a], i, side) && m[a].price == p;
    var b :| b in m && On(m[b], i, side) && m[b].price == q;
    assert AtLeastAsGood(side, p, q) && AtLeastAsGood(side, q, p);
  }

  /** The same orders of instrument `i` rest in both maps. */
  ghost predicate SameAt(m: Orders, m': Orders, i: InstrumentId) {
    && (forall id <- m :: m[id].instrumentId == i ==> id in m' && m'[id] == m[id])
    && (forall id <- m' :: m'[id].instrumentId == i ==> id in m && m[id] == m'[id])
  }

  lemma SameTop(m: Orders, m': Orders, i: InstrumentId, side: Side)
    requires SameAt(m, m', i)
    ensures TopAt(m, i, side) == TopAt(m', i, side)
  {
    if exists id <- m :: On(m[id], i, side) {
      BestRests(m, i, side);
      var p: Price :| IsBest(m, i, side, p) && TopAt(m, i, side) == Some((p, Total(m, Resting(m, i, side, p))));
      SameBest(m, m', i, side, p);
      var q: Price :| IsBest(m', i, side, q) && TopAt(m', i, side) == Some((q, Total(m', Resting(m', i, side, q))));
      BestIsUnique(m', i, side, p, q);
      assert Resting(m, i, side, p) == Resting(m', i, side, p);
      LevelAlgebra.TotalOfSame(m, m', Resting(m, i, side, p));
    }
  }

  lemma SameBest(m: Orders, m': Orders, i: InstrumentId, side: Side, p: Price)
    requires SameAt(m, m', i) && IsBest(m, i, side, p)
    ensures IsBest(m', i, side, p) && exists id <- m' :: On(m'[id], i, side)
  {
    var id :| id in m && On(m[id], i, side) && m[id].price == p;
    assert id in m' && On(m'[id], i, side) && m'[id].price == p;
  }

  lemma SameQuote(m: Orders, m': Orders, i: InstrumentId)
    requires SameAt(m, m', i)
    ensures BboAt(m, i) == BboAt(m', i)
  {
    SameTop(m, m', i, Buy);
    SameTop(m, m', i, Sell);
  }

  /** Between quotes of books, operator== is equality. */
  lemma QuotesEqual(m: Orders, m': Orders, i: InstrumentId)
    ensures SameBbo(BboAt(m, i), BboAt(m', i)) <==> BboAt(m, i) == BboAt(m', i)
  {
  }

  lemma OneMoreQuote(quotes: seq<BboEvent>, e: BboEvent, i: InstrumentId)
    ensures LastQuote(quotes + [e], i) == if e.instrumentId == i then e.bbo else LastQuote(quotes, i)
  {
    assert (quotes + [e])[..|quotes|] == quotes;
  }

  /** A change of one instrument's orders keeps the invariant. */
  lemma ChangeKeepsQuotes(s: State, m: Orders, i: InstrumentId, t: Timestamp)
    requires s.bboHandler && QuotesFollow(s)
    requires forall j: InstrumentId | j != i :: SameAt(s.orders, m, j)
    ensures QuotesFollow(WithOrders(s, m, i, t))
  {
    var s' := WithOrders(s, m, i, t);
    var e := BboEvent(i, t, BboAt(m, i));
    QuotesEqual(s.orders, m, i);
    forall j: InstrumentId
      ensures LastQuote(s'.quotes, j) == BboAt(s'.orders, j)
    {
      OneMoreQuote(s.quotes, e, j);
      if j != i {
        SameQuote(s.orders, m, j);
      }
    }
    forall k | 0 <= k < |s'.quotes|
      ensures s'.quotes[k].bbo != LastQuote(s'.quotes[..k], s'.quotes[k].instrumentId)
    {
      if k < |s.quotes| {
        assert s'.quotes[..k] == s.quotes[..k];
      } else {
        assert s'.quotes[..k] == s.quotes;
      }
    }
  }

  /** Order ids are the keys they are stored under. */
  ghost predicate KeyedById(m: Orders) {
    forall id <- m :: m[id].orderId == id
  }

  lemma AddKeepsQuotes(s: State, o: Order)
    requires s.bboHandler && QuotesFollow(s) && KeyedById(s.orders)
    ensures QuotesFollow(ApplyAdd(s, o)) && KeyedById(ApplyAdd(s, o).orders)
  {
    if o.orderId !in s.orders {
      ChangeKeepsQuotes(s, s.orders[o.orderId := o], o.instrumentId, o.timestamp);
    }
  }

  lemma TakeKeepsQuotes(s: State, id: OrderId, t: Timestamp, shares: Shares)
    requires s.bboHandler && QuotesFollow(s) && KeyedById(s.orders)
    requires id in s.orders && shares <= s.orders[id].quantity
    ensures QuotesFollow(ApplyTake(s, id, t, shares)) && KeyedById(ApplyTake(s, id, t, shares).orders)
  {
    ChangeKeepsQuotes(s, AfterTaking(s.orders, id, shares), s.orders[id].instrumentId, t);
  }

  lemma ExecutionKeepsQuotes(s: State, id: OrderId, t: Timestamp, shares: Shares, price: Price)
    requires s.bboHandler && QuotesFollow(s) && KeyedById(s.orders)
    requires id in s.orders && shares <= s.orders[id].quantity
    ensures QuotesFollow(ApplyExecution(s, id, t, shares, price))
            && KeyedById(ApplyExecution(s, id, t, shares, price).orders)
  {
    var o := s.orders[id];
    TakeKeepsQuotes(WithTrade(s, TradeEvent(o.instrumentId, t, price, shares, o.side)), id, t, shares);
  }

  lemma DeleteKeepsQuotes(s: State, id: OrderId, t: Timestamp)
    requires s.bboHandler && QuotesFollow(s) && KeyedById(s.orders)
    ensures QuotesFollow(ApplyDelete(s, id, t)) && KeyedById(ApplyDelete(s, id, t).orders)
  {
    if id in s.orders {
      ChangeKeepsQuotes(s, s.orders - {id}, s.orders[id].instrumentId, t);
    }
  }

  lemma ReplacedElsewhere(m: Orders, id: OrderId, o: Order, m': Orders)
    requires KeyedById(m) && id in m && o.instrumentId == m[id].instrumentId && (o.orderId == id || o.orderId !in m)
    requires m' == (m - {id})[o.orderId := o]
    ensures KeyedById(m') && forall j: InstrumentId | j != o.instrumentId :: SameAt(m, m', j)
  {
  }

  lemma ReplaceKeepsQuotes(s: State, id: OrderId, newId: OrderId, t: Timestamp, price: Price, shares: Shares)
    requires s.bboHandler && QuotesFollow(s) && KeyedById(s.orders)
    ensures QuotesFollow(ApplyReplace(s, id, newId, t, price, shares))
    ensures KeyedById(ApplyReplace(s, id, newId, t, price, shares).orders)
  {
    if id in s.orders && (newId == id || newId !in s.orders) {
      var o := Replacement(s.orders[id], newId, t, price, shares);
      var m := (s.orders - {id})[o.orderId := o];
      ReplacedElsewhere(s.orders, id, o, m);
      ChangeKeepsQuotes(s, m, o.instrumentId, t);
    }
  }

  lemma ApplyKeepsQuotes(s: State, m: Message)
    requires s.bboHandler && QuotesFollow(s) && KeyedById(s.orders)
    ensures QuotesFollow(Apply(s, m)) && KeyedById(Apply(s, m).orders)
  {
    match m
    case AddOrder(a) => AddKeepsQuotes(s, OrderOf(a));
    case AddOrderWithMpid(a) => AddKeepsQuotes(s, OrderOf(a));
    case OrderExecuted(id, t, shares) =>
      if Takes(s, id, shares) { ExecutionKeepsQuotes(s, id, t, shares, s.orders[id].price); }
    case OrderExecutedWithPrice(id, t, shares, price) =>
      if Takes(s, id, shares) { ExecutionKeepsQuotes(s, id, t, shares, price); }
    case OrderCancel(id, t, shares) =>
      if Takes(s, id, shares) { TakeKeepsQuotes(s, id, t, shares); }
    case OrderDelete(id, t) => DeleteKeepsQuotes(s, id, t);
    case OrderReplace(id, newId, t, price, shares) => ReplaceKeepsQuotes(s, id, newId, t, price, shares);
    case Trade(i, t, price, shares, buySell) =>
    case Unhandled =>
  }

  lemma {:induction false} RunKeepsQuotes(s: State, ms: seq<Message>)
    requires s.bboHandler && QuotesFollow(s) && KeyedById(s.orders)
    ensures QuotesFollow(Run(s, ms))
    decreases |ms|
  {
    if ms == [] {
    } else {
      ApplyKeepsQuotes(s, ms[0]);
      RunKeepsQuotes(Apply(s, ms[0]), ms[1..]);
    }
  }

  /** A state whose handler has been told every quote so far. */
  ghost predicate Following(s: State) {
    s.bboHandler && QuotesFollow(s) && KeyedById(s.orders)
  }

  lemma FollowingRuns(s: State, ms: seq<Message>)
    ensures Following(s) ==> QuotesFollow(Run(s, ms))
  {
    if Following(s) {
      RunKeepsQuotes(s, ms);
    }
  }

  /** With a handler installed from the start, the notifications reconstruct every book's quote after
      every run, and no two consecutive ones of an instrument are equal. */
  lemma QuotesReconstructBooks(ms: seq<Message>, tradeHandler: bool)
    ensures QuotesFollow(Run(Initial(true, tradeHandler), ms))
  {
    forall i: InstrumentId
      ensures LastQuote([], i) == BboAt(map[], i)
    {
    }
    RunKeepsQuotes(Initial(true, tradeHandler), ms);
  }

  // ----- Share conservation -----

  /** The account of one order from its entry to its end. */
  datatype Life = Life(initial: nat, executed: nat, cancelled: nat, notified: int)

  datatype ClosedLife = ClosedLife(orderId: OrderId, life: Life, withdrawn: nat)

  datatype Ledger = Ledger(open: map<OrderId, Life>, closed: seq<ClosedLife>)

  function Notified(trades: seq<TradeNote>): nat {
    if trades == [] then 0 else Notified(trades[..|trades| - 1]) + trades[|trades| - 1].event.quantity
  }

  /** The shares notified as traded between two states. */
  function NotifiedBetween(s: State, s': State): int {
    Notified(s'.trades) - Notified(s.trades)
  }

  /** Whether a message takes shares off a resting order. */
  predicate Takes(s: State, id: OrderId, shares: Shares) {
    id in s.orders && shares <= s.orders[id].quantity
  }

  /** Book an account entry; the life is closed if the order is gone afterwards. */
  function Entry(l: Ledger, id: OrderId, life: Life, gone: bool): Ledger {
    if gone then Ledger(l.open - {id}, l.closed + [ClosedLife(id, life, 0)])
    else l.(open := l.open[id := life])
  }

  function RecordAdd(l: Ledger, s: State, o: Order): Ledger {
    if o.orderId in s.orders then l else l.(open := l.open[o.orderId := Life(o.quantity, 0, 0, 0)])
  }

  /** What an execution says was executed, and what the state notified and did with the order. */
  function RecordExecution(l: Ledger, s: State, s': State, id: OrderId, shares: Shares): Ledger
    requires l.open.Keys == s.orders.Keys
  {
    if !Takes(s, id, shares) then l else
      var life := l.open[id];
      Entry(l, id, life.(executed := life.executed + shares, notified := life.notified + NotifiedBetween(s, s')),
            id !in s'.orders)
  }

  function RecordCancel(l: Ledger, s: State, s': State, id: OrderId, shares: Shares): Ledger
    requires l.open.Keys == s.orders.Keys
  {
    if !Takes(s, id, shares) then l else
      var life := l.open[id];
      Entry(l, id, life.(cancelled := life.cancelled + shares), id !in s'.orders)
  }

  function RecordDelete(l: Ledger, s: State, id: OrderId): Ledger
    requires l.open.Keys == s.orders.Keys
  {
    if id !in s.orders then l
    else Ledger(l.open - {id}, l.closed + [ClosedLife(id, l.open[id], s.orders[id].quantity)])
  }

  function RecordReplace(l: Ledger, s: State, id: OrderId, newId: OrderId, shares: Shares): Ledger
    requires l.open.Keys == s.orders.Keys
  {
    if id !in s.orders || (newId != id && newId in s.orders) then l
    else var l' := RecordDelete(l, s, id); l'.(open := l'.open[newId := Life(shares, 0, 0, 0)])
  }

  /** The accounts after a message: what it says of shares, and what the state did about the order. */
  ghost function Record(l: Ledger, s: State, m: Message): Ledger
    requires l.open.Keys == s.orders.Keys
  {
    match m
    case AddOrder(a) => RecordAdd(l, s, OrderOf(a))
    case AddOrderWithMpid(a) => RecordAdd(l, s, OrderOf(a))
    case OrderExecuted(id, t, shares) => RecordExecution(l, s, Apply(s, m), id, shares)
    case OrderExecutedWithPrice(id, t, shares, price) => RecordExecution(l, s, Apply(s, m), id, shares)
    case OrderCancel(id, t, shares) => RecordCancel(l, s, Apply(s, m), id, shares)
    case OrderDelete(id, t) => RecordDelete(l, s, id)
    case OrderReplace(id, newId, t, price, shares) => RecordReplace(l, s, id, newId, shares)
    case Trade(i, t, price, shares, buySell) => l
    case Unhandled => l
  }

  /** Every share is accounted for: executed, cancelled, still resting, or withdrawn at the end. */
  ghost predicate Balanced(l: Ledger, s: State) {
    && l.open.Keys == s.orders.Keys
    && (forall id <- l.open :: l.open[id].initial == l.open[id].executed + l.open[id].cancelled + s.orders[id].quantity)
    && (forall c <- l.closed :: c.life.initial == c.life.executed + c.life.cancelled + c.withdrawn)
    && (s.tradeHandler ==> forall id <- l.open :: l.open[id].notified == l.open[id].executed)
    && (s.tradeHandler ==> forall c <- l.closed :: c.life.notified == c.life.executed)
  }

  lemma OneMoreTrade(trades: seq<TradeNote>, e: TradeNote)
    ensures Notified(trades + [e]) == Notified(trades) + e.event.quantity
  {
    assert (trades + [e])[..|trades|] == trades;
  }

  /** Only the orders, the handlers and the trades matter to a balance. */
  lemma EntryKeepsBalance(l: Ledger, s: State, s': State, id: OrderId, shares: Shares, life: Life, gone: bool)
    requires Balanced(l, s) && Takes(s, id, shares)
    requires s'.orders == AfterTaking(s.orders, id, shares) && s'.tradeHandler == s.tradeHandler
    requires life.initial == l.open[id].initial
    requires life.executed + life.cancelled == l.open[id].executed + l.open[id].cancelled + shares
    requires s.tradeHandler ==> life.notified == life.executed
    requires gone <==> id !in s'.orders
    ensures Balanced(Entry(l, id, life, gone), s')
  {
  }

  /** An execution notifies exactly its shares, before the quote it may cause. */
  lemma ExecutionNotifies(s: State, id: OrderId, t: Timestamp, shares: Shares, price: Price)
    requires Takes(s, id, shares)
    ensures var s' := ApplyExecution(s, id, t, shares, price);
            && s'.tradeHandler == s.tradeHandler && s'.orders == AfterTaking(s.orders, id, shares)
            && (s.tradeHandler ==> NotifiedBetween(s, s') == shares)
            && (s.tradeHandler ==> |s'.trades| == |s.trades| + 1 && s'.trades[|s.trades|].quotesBefore == |s.quotes|)
  {
    var o := s.orders[id];
    OneMoreTrade(s.trades, TradeNote(TradeEvent(o.instrumentId, t, price, shares, o.side), |s.quotes|));
  }

  lemma ExecutionKeepsBalance(l: Ledger, s: State, id: OrderId, t: Timestamp, shares: Shares, price: Price)
    requires Balanced(l, s) && Takes(s, id, shares)
    ensures Balanced(RecordExecution(l, s, ApplyExecution(s, id, t, shares, price), id, shares),
                     ApplyExecution(s, id, t, shares, price))
  {
    var life := l.open[id];
    var s' := ApplyExecution(s, id, t, shares, price);
    ExecutionNotifies(s, id, t, shares, price);
    EntryKeepsBalance(l, s, s', id, shares,
                      life.(executed := life.executed + shares, notified := life.notified + NotifiedBetween(s, s')),
                      id !in s'.orders);
  }

  lemma CancelKeepsBalance(l: Ledger, s: State, id: OrderId, t: Timestamp, shares: Shares)
    requires Balanced(l, s)
    ensures Balanced(RecordCancel(l, s, ApplyCancel(s, id, t, shares), id, shares), ApplyCancel(s, id, t, shares))
  {
    if Takes(s, id, shares) {
      var s' := ApplyTake(s, id, t, shares);
      EntryKeepsBalance(l, s, s', id, shares, l.open[id].(cancelled := l.open[id].cancelled + shares),
                        id !in s'.orders);
    }
  }

  lemma DeleteKeepsBalance(l: Ledger, s: State, s': State, id: OrderId)
    requires Balanced(l, s) && s'.orders == s.orders - {id} && s'.tradeHandler == s.tradeHandler
    ensures Balanced(RecordDelete(l, s, id), s')
  {
  }

  lemma AddKeepsBalance(l: Ledger, s: State, s': State, o: Order)
    requires Balanced(l, s) && o.orderId !in s.orders
    requires s'.orders == s.orders[o.orderId := o] && s'.tradeHandler == s.tradeHandler
    ensures Balanced(l.(open := l.open[o.orderId := Life(o.quantity, 0, 0, 0)]), s')
  {
  }

  lemma ReplaceKeepsBalance(l: Ledger, s: State, id: OrderId, newId: OrderId, t: Timestamp, price: Price,
                            shares: Shares)
    requires Balanced(l, s)
    ensures Balanced(RecordReplace(l, s, id, newId, shares), ApplyReplace(s, id, newId, t, price, shares))
  {
    if id in s.orders && (newId == id || newId !in s.orders) {
      var mid := Removed(s, id);
      DeleteKeepsBalance(l, s, mid, id);
      AddKeepsBalance(RecordDelete(l, s, id), mid, ApplyReplace(s, id, newId, t, price, shares),
                      Replacement(s.orders[id], newId, t, price, shares));
    }
  }

  lemma TakingKeepsBalance(l: Ledger, s: State, m: Message)
    requires Balanced(l, s) && (m.OrderExecuted? || m.OrderExecutedWithPrice? || m.OrderCancel?)
    ensures Balanced(Record(l, s, m), Apply(s, m))
  {
    match m
    case OrderExecuted(id, t, shares) =>
      if Takes(s, id, shares) { ExecutionKeepsBalance(l, s, id, t, shares, s.orders[id].price); }
    case OrderExecutedWithPrice(id, t, shares, price) =>
      if Takes(s, id, shares) { ExecutionKeepsBalance(l, s, id, t, shares, price); }
    case OrderCancel(id, t, shares) => CancelKeepsBalance(l, s, id, t, shares);
  }

  lemma RecordKeepsBalance(l: Ledger, s: State, m: Message)
    requires Balanced(l, s)
    ensures Balanced(Record(l, s, m), Apply(s, m))
  {
    match m
    case AddOrder(a) =>
      if a.orderId !in s.orders { AddKeepsBalance(l, s, ApplyAdd(s, OrderOf(a)), OrderOf(a)); }
    case AddOrderWithMpid(a) =>
      if a.orderId !in s.orders { AddKeepsBalance(l, s, ApplyAdd(s, OrderOf(a)), OrderOf(a)); }
    case OrderDelete(id, t) => DeleteKeepsBalance(l, s, ApplyDelete(s, id, t), id);
    case OrderReplace(id, newId, t, price, shares) => ReplaceKeepsBalance(l, s, id, newId, t, price, shares);
    case Trade(i, t, price, shares, buySell) =>
    case Unhandled =>
    case _ => TakingKeepsBalance(l, s, m);
  }

  ghost function RecordAll(l: Ledger, s: State, ms: seq<Message>): Ledger
    requires Balanced(l, s)
    decreases |ms|
  {
    if ms == [] then l
    else
      RecordKeepsBalance(l, s, ms[0]);
      RecordAll(Record(l, s, ms[0]), Apply(s, ms[0]), ms[1..])
  }

  /** Share conservation over every run, for every lifetime of every order. */
  lemma {:induction false} SharesConserved(l: Ledger, s: State, ms: seq<Message>)
    requires Balanced(l, s)
    ensures Balanced(RecordAll(l, s, ms), Run(s, ms))
    decreases |ms|
  {
    if ms == [] {
    } else {
      RecordKeepsBalance(l, s, ms[0]);
      SharesConserved(Record(l, s, ms[0]), Apply(s, ms[0]), ms[1..]);
    }
  }

  const NO_ACCOUNTS := Ledger(map[], [])

  /** From the start of a session the books balance after any messages: for every order still resting
      initial = executed + cancelled + remaining, for every one that is gone initial = executed +
      cancelled + withdrawn, and with a trade handler exactly the executed shares were notified. */
  lemma EveryLifeAddsUp(ms: seq<Message>, bboHandler: bool, tradeHandler: bool)
    ensures var s := Initial(bboHandler, tradeHandler);
            && Balanced(NO_ACCOUNTS, s)
            && var l, s' := RecordAll(NO_ACCOUNTS, s, ms), Run(s, ms);
               && l.open.Keys == s'.orders.Keys
               && (forall id <- l.open ::
                     l.open[id].initial == l.open[id].executed + l.open[id].cancelled + s'.orders[id].quantity)
               && (forall c <- l.closed :: c.life.initial == c.life.executed + c.life.cancelled + c.withdrawn)
               && (s'.tradeHandler ==> forall id <- l.open :: l.open[id].notified == l.open[id].executed)
               && (s'.tradeHandler ==> forall c <- l.closed :: c.life.notified == c.life.executed)
  {
    SharesConserved(NO_ACCOUNTS, Initial(bboHandler, tradeHandler), ms);
  }

  /** An order that had at least `shares` lost exactly them, and is gone exactly if that was all; no other
      order changed. */
  ghost predicate TakesFrom(m: Orders, m': Orders, id: OrderId, shares: Shares) {
    && id in m && shares <= m[id].quantity
    && (id !in m' <==> shares == m[id].quantity)
    && (id in m' ==> m'[id] == m[id].(quantity := m[id].quantity - shares))
    && m' - {id} == m - {id}
  }

  lemma RemovedExactlyWhenConsumed(s: State, m: Message)
    requires m.OrderExecuted? || m.OrderExecutedWithPrice? || m.OrderCancel?
    requires Takes(s, m.orderId, m.shares)
    ensures TakesFrom(s.orders, Apply(s, m).orders, m.orderId, m.shares)
  {
  }
}
