/** What each order message does to orders, price levels, notifications and error counters, said of the
    message's own fields: prices, sides and shares, with no use of the functions the semantics is made of. */
module MessageEffects {
  import opened MarketTypes
  import opened Reference
  import opened Runs
  import opened LevelAlgebra

  // ----- Quotes -----

  /** The bid is the highest price a buy order rests at and the ask the lowest price a sell order rests at,
      each with everything resting there; a side is there exactly if some order of it is. */
  lemma QuoteIsBest(m: Orders, i: InstrumentId)
    ensures BboAt(m, i).hasBid <==> exists id <- m :: m[id].instrumentId == i && m[id].side == Buy
    ensures BboAt(m, i).hasAsk <==> exists id <- m :: m[id].instrumentId == i && m[id].side == Sell
    ensures forall id <- m | m[id].instrumentId == i && m[id].side == Buy :: m[id].price <= BboAt(m, i).bidPrice
    ensures forall id <- m | m[id].instrumentId == i && m[id].side == Sell :: BboAt(m, i).askPrice <= m[id].price
    ensures BboAt(m, i).hasBid ==>
              && (exists id <- m :: m[id].instrumentId == i && m[id].side == Buy
                                    && m[id].price == BboAt(m, i).bidPrice)
              && BboAt(m, i).bidQuantity == LevelAt(m, i, Buy, BboAt(m, i).bidPrice).quantity
    ensures BboAt(m, i).hasAsk ==>
              && (exists id <- m :: m[id].instrumentId == i && m[id].side == Sell
                                    && m[id].price == BboAt(m, i).askPrice)
              && BboAt(m, i).askQuantity == LevelAt(m, i, Sell, BboAt(m, i).askPrice).quantity
  {
    TopIsBest(m, i, Buy);
    TopIsBest(m, i, Sell);
  }

  lemma TopIsBest(m: Orders, i: InstrumentId, side: Side)
    ensures TopAt(m, i, side).Some? <==> exists id <- m :: m[id].instrumentId == i && m[id].side == side
    ensures TopAt(m, i, side).Some? ==>
              var (p, q) := TopAt(m, i, side).value;
              && (forall id <- m | m[id].instrumentId == i && m[id].side == side ::
                    if side == Buy then m[id].price <= p else p <= m[id].price)
              && (exists id <- m :: m[id].instrumentId == i && m[id].side == side && m[id].price == p)
              && q == LevelAt(m, i, side, p).quantity
  {
    if id :| id in m && m[id].instrumentId == i && m[id].side == side {
      assert On(m[id], i, side);
      BestRests(m, i, side);
      var p: Price :| IsBest(m, i, side, p) && TopAt(m, i, side) == Some((p, Total(m, Resting(m, i, side, p))));
      assert forall id <- m | m[id].instrumentId == i && m[id].side == side :: On(m[id], i, side);
    } else {
      assert forall id <- m :: !On(m[id], i, side);
    }
  }

  /** With a handler from the start, after any run the last quote noted for an instrument is that. */
  lemma LastQuoteIsBest(ms: seq<Message>, tradeHandler: bool, i: InstrumentId)
    ensures var s := Run(Initial(true, tradeHandler), ms);
            var q := LastQuote(s.quotes, i);
            && (q.hasBid <==> exists id <- s.orders :: s.orders[id].instrumentId == i && s.orders[id].side == Buy)
            && (q.hasAsk <==> exists id <- s.orders :: s.orders[id].instrumentId == i && s.orders[id].side == Sell)
            && forall id <- s.orders | s.orders[id].instrumentId == i ::
                 if s.orders[id].side == Buy then s.orders[id].price <= q.bidPrice else q.askPrice <= s.orders[id].price
  {
    var s := Run(Initial(true, tradeHandler), ms);
    QuotesReconstructBooks(ms, tradeHandler);
    assert LastQuote(s.quotes, i) == BboAt(s.orders, i);
    QuoteIsBest(s.orders, i);
  }

  // ----- Levels -----

  lemma NoOrders(i: InstrumentId, side: Side, p: Price)
    ensures LevelAt(map[], i, side, p) == LevelView(0, 0)
  {
    assert Resting(map[], i, side, p) == {};
  }

  /** One more order: the level at its price gains its shares and one order, every other level stays. */
  lemma LevelWith(m: Orders, o: Order, i: InstrumentId, side: Side, p: Price)
    requires o.orderId !in m
    ensures var l := LevelAt(m, i, side, p);
            LevelAt(m[o.orderId := o], i, side, p) ==
            if o.instrumentId == i && o.side == side && o.price == p
            then LevelView(l.quantity + o.quantity, l.orderCount + 1) else l
  {
    LevelAfterInsert(m, o, i, side, p);
  }

  /** Level by level, `after` is `before` with `shares` in one order more at one price. */
  ghost predicate GainsAt(before: Orders, after: Orders, i: InstrumentId, side: Side, p: Price, shares: Shares) {
    forall j: InstrumentId, s: Side, q: Price {:trigger LevelAt(after, j, s, q)} ::
      LevelAt(after, j, s, q) ==
      if j == i && s == side && q == p
      then LevelView(LevelAt(before, j, s, q).quantity + shares, LevelAt(before, j, s, q).orderCount + 1)
      else LevelAt(before, j, s, q)
  }

  lemma GainsWith(m: Orders, o: Order)
    requires o.orderId !in m
    ensures GainsAt(m, m[o.orderId := o], o.instrumentId, o.side, o.price, o.quantity)
  {
    forall j: InstrumentId, s: Side, q: Price
      ensures LevelAt(m[o.orderId := o], j, s, q) ==
              if j == o.instrumentId && s == o.side && q == o.price
              then LevelView(LevelAt(m, j, s, q).quantity + o.quantity, LevelAt(m, j, s, q).orderCount + 1)
              else LevelAt(m, j, s, q)
    {
      LevelWith(m, o, j, s, q);
    }
  }

  // ----- Orders -----

  /** A and F of a new id: the order rests as the message says, 'B' for a buy and anything else for a sell;
      its level gains its shares; nothing else changes.  A known id changes no order. */
  lemma AddEffect(s: State, m: Message)
    requires m.AddOrder? || m.AddOrderWithMpid?
    ensures var a, orders := m.add, Apply(s, m).orders;
            if a.orderId in s.orders then orders == s.orders
            else
              var side := if a.buySell == 'B' then Buy else Sell;
              && a.orderId in orders && orders - {a.orderId} == s.orders
              && orders[a.orderId] == Order(a.orderId, a.instrumentId, a.timestamp, a.price, a.shares, side)
              && GainsAt(s.orders, orders, a.instrumentId, side, a.price, a.shares)
  {
    var a, orders := m.add, Apply(s, m).orders;
    if a.orderId !in s.orders {
      GainsWith(s.orders, orders[a.orderId]);
      assert orders - {a.orderId} == s.orders;
    }
  }

  /** U of a known order onto its own or a free id: the old order leaves; in its place, for the same
      instrument and side, rests one with the message's id, time, price and shares, and the level at that price
      gains them; nothing else changes.  Any other U changes no order. */
  lemma ReplaceEffect(s: State, m: Message)
    requires m.OrderReplace?
    ensures var id, newId, orders := m.originalId, m.newId, Apply(s, m).orders;
            if id !in s.orders || (newId != id && newId in s.orders) then orders == s.orders
            else
              var o, rest := s.orders[id], s.orders - {id};
              && newId in orders && orders - {newId} == rest && (id in orders <==> id == newId)
              && orders[newId] == Order(newId, o.instrumentId, m.timestamp, m.price, m.shares, o.side)
              && GainsAt(rest, orders, o.instrumentId, o.side, m.price, m.shares)
  {
    var id, newId, orders := m.originalId, m.newId, Apply(s, m).orders;
    if id in s.orders && (newId == id || newId !in s.orders) {
      var rest := s.orders - {id};
      GainsWith(rest, orders[newId]);
      assert orders - {newId} == rest;
    }
  }

  /** D of a known order: it leaves, and its level loses what was left of it. */
  lemma DeleteEffect(s: State, m: Message)
    requires m.OrderDelete? && KeyedById(s.orders)
    ensures var id, orders := m.orderId, Apply(s, m).orders;
            if id !in s.orders then orders == s.orders
            else
              var o := s.orders[id];
              orders == s.orders - {id} && GainsAt(orders, s.orders, o.instrumentId, o.side, o.price, o.quantity)
  {
    if m.orderId in s.orders {
      var o, rest := s.orders[m.orderId], s.orders - {m.orderId};
      GainsWith(rest, o);
      assert rest[o.orderId := o] == s.orders;
    }
  }

  /** E, C and X of a known order with at least these shares left: it loses them, and goes exactly if that was
      all; compared with the orders without it, its level holds what is left.  Otherwise no order changes. */
  lemma TakeEffect(s: State, m: Message)
    requires (m.OrderExecuted? || m.OrderExecutedWithPrice? || m.OrderCancel?) && KeyedById(s.orders)
    ensures var id, orders := m.orderId, Apply(s, m).orders;
            if id !in s.orders || m.shares > s.orders[id].quantity then orders == s.orders
            else
              var o, rest := s.orders[id], s.orders - {id};
              && TakesFrom(s.orders, orders, id, m.shares)
              && GainsAt(rest, s.orders, o.instrumentId, o.side, o.price, o.quantity)
              && (m.shares == o.quantity ==> orders == rest)
              && (m.shares < o.quantity ==>
                    GainsAt(rest, orders, o.instrumentId, o.side, o.price, o.quantity - m.shares))
  {
    var id := m.orderId;
    if id in s.orders && m.shares <= s.orders[id].quantity {
      RemovedExactlyWhenConsumed(s, m);
      TakenLevels(s.orders, Apply(s, m).orders, id, m.shares);
    }
  }

  lemma TakenLevels(m: Orders, m': Orders, id: OrderId, shares: Shares)
    requires KeyedById(m) && TakesFrom(m, m', id, shares)
    ensures var o, rest := m[id], m - {id};
            && GainsAt(rest, m, o.instrumentId, o.side, o.price, o.quantity)
            && (shares == o.quantity ==> m' == rest)
            && (shares < o.quantity ==> GainsAt(rest, m', o.instrumentId, o.side, o.price, o.quantity - shares))
  {
    var o, rest := m[id], m - {id};
    GainsWith(rest, o);
    assert rest[id := o] == m;
    if shares < o.quantity {
      GainsWith(rest, m'[id]);
      assert rest[id := m'[id]] == m';
    }
  }

  /** P and unhandled messages change no order. */
  lemma OtherEffect(s: State, m: Message)
    requires m.Trade? || m.Unhandled?
    ensures Apply(s, m).orders == s.orders && Apply(s, m).quotes == s.quotes
  {
  }

  lemma ApplyKeepsKeyed(s: State, m: Message)
    requires KeyedById(s.orders)
    ensures KeyedById(Apply(s, m).orders)
  {
  }

  // ----- Notifications -----

  /** With a handler, E notes the execution at the order's price, C at the message's, both for the order's
      instrument and side; P notes the message's trade, 'B' for a buy; nothing else notes a trade. */
  lemma TradeEffect(s: State, m: Message)
    ensures var trades := Apply(s, m).trades;
            if !s.tradeHandler then trades == s.trades
            else match m
              case OrderExecuted(id, t, shares) =>
                if id !in s.orders || shares > s.orders[id].quantity then trades == s.trades
                else
                  var o := s.orders[id];
                  trades == s.trades + [TradeNote(TradeEvent(o.instrumentId, t, o.price, shares, o.side), |s.quotes|)]
              case OrderExecutedWithPrice(id, t, shares, price) =>
                if id !in s.orders || shares > s.orders[id].quantity then trades == s.trades
                else
                  var o := s.orders[id];
                  trades == s.trades + [TradeNote(TradeEvent(o.instrumentId, t, price, shares, o.side), |s.quotes|)]
              case Trade(i, t, price, shares, buySell) =>
                var side := if buySell == 'B' then Buy else Sell;
                trades == s.trades + [TradeNote(TradeEvent(i, t, price, shares, side), |s.quotes|)]
              case _ => trades == s.trades
  {
  }

  /** The time a message carries. */
  function TimeOf(m: Message): Timestamp {
    if m.AddOrder? || m.AddOrderWithMpid? then m.add.timestamp else if m.Unhandled? then 0 else m.timestamp
  }

  /** One more quote was noted: the new one of an instrument whose quote moved, at this time. */
  ghost predicate NotesQuote(s: State, s': State, t: Timestamp) {
    var n := |s.quotes|;
    && |s'.quotes| == n + 1 && s'.quotes[..n] == s.quotes
    && var e := s'.quotes[n];
       e.timestamp == t && e.bbo == BboAt(s'.orders, e.instrumentId) != BboAt(s.orders, e.instrumentId)
  }

  ghost predicate SameQuotes(m: Orders, m': Orders) {
    forall i: InstrumentId :: BboAt(m', i) == BboAt(m, i)
  }

  /** Without a handler nothing is noted; with one, nothing exactly if no quote moved, else the one that did. */
  ghost predicate QuotesNoted(s: State, s': State, t: Timestamp) {
    if !s.bboHandler || SameQuotes(s.orders, s'.orders) then s'.quotes == s.quotes else NotesQuote(s, s', t)
  }

  /** With a handler, one quote is noted exactly if some instrument's quote moved: the new quote of that
      instrument, under the message's time.  Without a handler, none. */
  lemma QuoteEffect(s: State, m: Message)
    requires KeyedById(s.orders)
    ensures QuotesNoted(s, Apply(s, m), TimeOf(m))
  {
    if m.AddOrder? || m.AddOrderWithMpid? {
      AddNotes(s, m);
    } else if m.OrderExecuted? || m.OrderExecutedWithPrice? || m.OrderCancel? {
      TakeNotes(s, m);
    } else if m.OrderDelete? {
      DeleteNotes(s, m);
    } else if m.OrderReplace? {
      ReplaceNotes(s, m);
    } else {
      OtherEffect(s, m);
    }
  }

  lemma AddNotes(s: State, m: Message)
    requires m.AddOrder? || m.AddOrderWithMpid?
    ensures QuotesNoted(s, Apply(s, m), TimeOf(m))
  {
    var s' := Apply(s, m);
    if m.add.orderId !in s.orders {
      ChangeNotes(s, s', m.add.instrumentId, m.add.timestamp);
    }
  }

  lemma TakeNotes(s: State, m: Message)
    requires m.OrderExecuted? || m.OrderExecutedWithPrice? || m.OrderCancel?
    ensures QuotesNoted(s, Apply(s, m), TimeOf(m))
  {
    if Takes(s, m.orderId, m.shares) {
      RemovedExactlyWhenConsumed(s, m);
      TakenElsewhere(s.orders, Apply(s, m).orders, m.orderId, m.shares);
      TakeQuotes(s, m);
      ChangeNotes(s, Apply(s, m), s.orders[m.orderId].instrumentId, m.timestamp);
    }
  }

  lemma TakenElsewhere(m: Orders, m': Orders, id: OrderId, shares: Shares)
    requires TakesFrom(m, m', id, shares)
    ensures forall j: InstrumentId | j != m[id].instrumentId :: SameAt(m, m', j)
  {
    forall x | x in m && x != id
      ensures x in m' && m'[x] == m[x]
    {
      assert x in m - {id} && (m' - {id})[x] == (m - {id})[x];
    }
    forall x | x in m' && x != id
      ensures x in m
    {
      assert x in m' - {id};
    }
  }

  lemma TakeQuotes(s: State, m: Message)
    requires (m.OrderExecuted? || m.OrderExecutedWithPrice? || m.OrderCancel?) && Takes(s, m.orderId, m.shares)
    ensures Apply(s, m).quotes ==
            WithOrders(s, Apply(s, m).orders, s.orders[m.orderId].instrumentId, m.timestamp).quotes
  {
  }

  lemma DeleteNotes(s: State, m: Message)
    requires m.OrderDelete?
    ensures QuotesNoted(s, Apply(s, m), TimeOf(m))
  {
    if m.orderId in s.orders {
      ChangeNotes(s, Apply(s, m), s.orders[m.orderId].instrumentId, m.timestamp);
    }
  }

  lemma ReplaceNotes(s: State, m: Message)
    requires m.OrderReplace? && KeyedById(s.orders)
    ensures QuotesNoted(s, Apply(s, m), TimeOf(m))
  {
    if Replaces(s, m.originalId, m.newId) {
      var s' := Apply(s, m);
      var o := s'.orders[m.newId];
      ReplacedElsewhere(s.orders, m.originalId, o, s'.orders);
      ChangeNotes(s, s', o.instrumentId, m.timestamp);
    }
  }

  lemma ChangeNotes(s: State, s': State, i: InstrumentId, t: Timestamp)
    requires s'.quotes == WithOrders(s, s'.orders, i, t).quotes
    requires forall j: InstrumentId | j != i :: SameAt(s.orders, s'.orders, j)
    ensures QuotesNoted(s, s', t)
  {
    QuotesEqual(s.orders, s'.orders, i);
    forall j: InstrumentId | j != i
      ensures BboAt(s'.orders, j) == BboAt(s.orders, j)
    {
      SameQuote(s.orders, s'.orders, j);
    }
  }

  // ----- Error counters -----

  function One(b: bool): nat {
    if b then 1 else 0
  }

  /** Every counter by the messages that raise it. */
  lemma CounterEffect(s: State, m: Message)
    ensures var c, c', known := s.counters, Apply(s, m).counters, s.orders.Keys;
            && c'.duplicateAdds == c.duplicateAdds
                 + One((m.AddOrder? || m.AddOrderWithMpid?) && m.add.orderId in known)
            && c'.unknownExecutions == c.unknownExecutions + One(m.OrderExecuted? && m.orderId !in known)
            && c'.overExecuted == c.overExecuted
                 + One(m.OrderExecuted? && m.orderId in known && m.shares > s.orders[m.orderId].quantity)
            && c'.unknownExecutionsWithPrice == c.unknownExecutionsWithPrice
                 + One(m.OrderExecutedWithPrice? && m.orderId !in known)
            && c'.overExecutedWithPrice == c.overExecutedWithPrice
                 + One(m.OrderExecutedWithPrice? && m.orderId in known && m.shares > s.orders[m.orderId].quantity)
            && c'.unknownCancels == c.unknownCancels + One(m.OrderCancel? && m.orderId !in known)
            && c'.overCancelled == c.overCancelled
                 + One(m.OrderCancel? && m.orderId in known && m.shares > s.orders[m.orderId].quantity)
            && c'.unknownDeletes == c.unknownDeletes + One(m.OrderDelete? && m.orderId !in known)
            && c'.unknownReplaces == c.unknownReplaces + One(m.OrderReplace? && m.originalId !in known)
            && c'.duplicateReplacements == c.duplicateReplacements
                 + One(m.OrderReplace? && m.originalId in known && m.newId != m.originalId && m.newId in known)
            && c'.missingBooks == c.missingBooks
            && c'.failedReductions == c.failedReductions && c'.failedRemovals == c.failedRemovals
  {
  }
}
