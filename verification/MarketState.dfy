/** The market state: the order table and the books, kept in agreement by every ITCH message. */
module MarketState {
  import opened MarketTypes
  import opened OrderTable
  import opened Reference
  import opened LevelAlgebra
  import opened Book
  import opened Runs
  import Masking

  class ItchMarketState {
    const orders: OrderStore<LevelHandle>
    const books: BookStore
    const bboHandler: bool
    const tradeHandler: bool
    var counters: Counters
    var trades: seq<TradeNote>
    var quotes: seq<BboEvent>
    ghost const Repr: set<object>

    /** The orders in the table, without their handles. */
    ghost var resting: Orders

    // ----- What the state stands for -----

    ghost function SideAt(i: InstrumentId, s: Side): BookSide
      requires |books.books| == 0x1_0000
    {
      books.books[i].Of(s)
    }

    ghost function Snapshot(): State
      reads this
    {
      State(resting, counters, trades, quotes, bboHandler, tradeHandler)
    }

    /** The objects are where they should be and separate from each other. */
    ghost predicate Shaped()
      reads this, Repr
    {
      && {this, orders, orders.slots, books, books.present} <= Repr
      && orders.slots as object != books.present
      && orders.Valid() && books.Valid()
      && resting == OrdersIn(orders.contents)
      && orders.slots.Length <= Masking.CAPACITY
      && (forall i: InstrumentId, s: Side {:trigger SideAt(i, s)} :: SideAt(i, s) in Repr && SideAt(i, s).Valid())
    }

    /** The levels of every side are exactly those of the resting orders `m`. */
    ghost predicate LevelsAgree(m: Orders)
      reads this, Repr
      requires Shaped()
    {
      forall i: InstrumentId, s: Side {:trigger SideAt(i, s)} :: SideAt(i, s).view == SideView(m, i, s)
    }

    /** The order's handle is the live level at its price and side. */
    ghost predicate HandleLive(stored: StoredOrder<LevelHandle>)
      reads this, Repr
      requires Shaped()
    {
      && books.present[stored.order.instrumentId]
      && stored.level.price == stored.order.price
      && SideAt(stored.order.instrumentId, stored.order.side).Live(stored.level)
    }

    ghost predicate HandlesLive()
      reads this, Repr
      requires Shaped()
    {
      forall id {:trigger HandleLive(orders.contents[id])} | id in orders.contents :: HandleLive(orders.contents[id])
    }

    ghost predicate Valid()
      reads this, Repr
    {
      Shaped() && LevelsAgree(resting) && HandlesLive()
    }

    constructor (capacity: nat, hash: OrderId -> nat, bboHandler: bool, tradeHandler: bool)
      requires 0 < capacity <= Masking.CAPACITY && HashBelow(hash, capacity)
      ensures Valid() && fresh(Repr) && orders.slots.Length == capacity
      ensures Snapshot() == Initial(bboHandler, tradeHandler)
      ensures resting == map[] && trades == [] && quotes == []
      ensures counters == Counters(0, 0, 0, 0, 0, 0, 0, 0, 0, 0, 0, 0, 0)
    {
      var table := new OrderStore<LevelHandle>(capacity, hash);
      var store := new BookStore();
      orders, books := table, store;
      this.bboHandler, this.tradeHandler := bboHandler, tradeHandler;
      counters, trades, quotes, resting := NO_ERRORS, [], [], map[];
      ghost var sides: set<object> := set i: InstrumentId, s: Side | 0 <= i < 0x1_0000 :: store.books[i].Of(s);
      assert fresh(sides);
      Repr := {this, table, table.slots, store, store.present} + sides;
      new;
      assert OrdersIn(orders.contents) == resting;
      assert fresh(Repr);
      assert Snapshot() == Initial(bboHandler, tradeHandler);
      forall i: InstrumentId, s: Side
        ensures SideAt(i, s) in Repr
        ensures SideAt(i, s).view == SideView(resting, i, s)
      {
        assert SideView(map[], i, s) == map[];
      }
    }

    // ----- Agreement after a change of one side -----

    /** Only this object, the order table and one side may have changed. */
    twostate predicate OnlyTouched(side: BookSide)
      reads this, Repr
    {
      forall o: object | o in Repr && o != this && o != orders && o != orders.slots && o != side :: unchanged(o)
    }

    twostate lemma ShapeKept(side: BookSide)
      requires old(Shaped()) && OnlyTouched(side)
      requires orders.Valid() && resting == OrdersIn(orders.contents) && side.Valid()
      ensures Shaped()
    {
      assert unchanged(books) && unchanged(books.present);
      forall i: InstrumentId, s: Side
        ensures SideAt(i, s) in Repr && SideAt(i, s).Valid()
      {
        assert SideAt(i, s) == side || unchanged(SideAt(i, s));
      }
    }

    twostate lemma LevelsRestored(side: BookSide, new m: Orders, new i0: InstrumentId, new s0: Side)
      requires old(Shaped()) && OnlyTouched(side) && Shaped() && side == SideAt(i0, s0)
      requires old(LevelsAgree(resting))
      requires side.view == SideView(m, i0, s0)
      requires forall i: InstrumentId, s: Side | !(i == i0 && s == s0) ::
        SideView(m, i, s) == SideView(old(resting), i, s)
      ensures LevelsAgree(m)
    {
      forall i: InstrumentId, s: Side
        ensures SideAt(i, s).view == SideView(m, i, s)
      {
        assert SideAt(i, s) == side || unchanged(SideAt(i, s));
      }
    }

    /** The level of a resting order exists. */
    lemma OwnLevelExists(id: OrderId)
      requires Shaped() && LevelsAgree(resting) && id in orders.contents
      ensures var o := orders.contents[id].order;
              o.price in SideAt(o.instrumentId, o.side).view
    {
      var o := orders.contents[id].order;
      SideViewIs(resting, o.instrumentId, o.side);
      assert resting[id] == o;
      assert id in Reference.Resting(resting, o.instrumentId, o.side, o.price);
    }

    /** A handle survives a change of the side if its level does. */
    twostate lemma HandleKept(side: BookSide, new stored: StoredOrder<LevelHandle>)
      requires old(Shaped()) && OnlyTouched(side) && Shaped() && old(HandleLive(stored))
      requires forall h :: old(side.Live(h)) && h.price in side.view ==> side.Live(h)
      requires stored.order.price in SideAt(stored.order.instrumentId, stored.order.side).view
      ensures HandleLive(stored)
    {
      assert unchanged(books) && unchanged(books.present);
      var own := SideAt(stored.order.instrumentId, stored.order.side);
      assert own == side || unchanged(own);
    }

    twostate lemma HandlesAfterTaking(side: BookSide)
      requires old(Valid()) && OnlyTouched(side) && Shaped() && LevelsAgree(resting)
      requires forall h :: old(side.Live(h)) && h.price in side.view ==> side.Live(h)
      requires OnlyTaken(old(orders.contents), orders.contents)
      ensures HandlesLive()
    {
      forall id <- orders.contents
        ensures HandleLive(orders.contents[id])
      {
        OwnLevelExists(id);
        HandleKept(side, old(orders.contents)[id]);
      }
    }

    twostate lemma HandlesAfterAdding(side: BookSide, new stored: StoredOrder<LevelHandle>)
      requires old(Valid()) && OnlyTouched(side) && Shaped() && LevelsAgree(resting)
      requires forall h :: old(side.Live(h)) ==> side.Live(h)
      requires orders.contents == old(orders.contents)[stored.order.orderId := stored]
      requires HandleLive(stored)
      ensures HandlesLive()
    {
      forall id <- orders.contents
        ensures HandleLive(orders.contents[id])
      {
        if id != stored.order.orderId {
          OwnLevelExists(id);
          HandleKept(side, old(orders.contents)[id]);
        }
      }
    }

    // ----- The level and the table, one operation each -----

    method ReduceLevel(side: BookSide, handle: LevelHandle, shares: nat) returns (ok: bool)
      requires side.Valid() && side.Live(handle)
      modifies this`counters, side
      ensures side.Valid() && forall h :: side.Live(h) <==> old(side.Live(h))
      ensures ok <==> shares <= old(side.view)[handle.price].quantity
      ensures side.view == if ok then Reduce(old(side.view), handle.price, shares) else old(side.view)
      ensures ok ==> Snapshot() == old(Snapshot())
      ensures !ok ==> counters == old(counters).(failedReductions := old(counters).failedReductions + 1)
    {
      ok := side.Reduce(handle, shares);
      if !ok {
        counters := counters.(failedReductions := counters.failedReductions + 1);
      }
    }

    method RemoveFromLevel(side: BookSide, handle: LevelHandle, remaining: nat) returns (ok: bool)
      requires side.Valid() && side.Live(handle)
      modifies this`counters, side
      ensures side.Valid() && forall h :: side.Live(h) <==> old(side.Live(h)) && h.price in side.view
      ensures ok <==> remaining <= old(side.view)[handle.price].quantity && old(side.view)[handle.price].orderCount > 0
      ensures side.view == if ok then Withdraw(old(side.view), handle.price, remaining) else old(side.view)
      ensures ok ==> Snapshot() == old(Snapshot())
      ensures !ok ==> counters == old(counters).(failedRemovals := old(counters).failedRemovals + 1)
    {
      ok := side.RemoveOrder(handle, remaining);
      if !ok {
        counters := counters.(failedRemovals := counters.failedRemovals + 1);
      }
    }

    method EraseFromTable(slot: nat, ghost id: OrderId)
      requires orders.Valid() && resting == OrdersIn(orders.contents)
      requires id in orders.contents && slot == orders.where[id]
      requires orders.size < orders.slots.Length
      modifies this`resting, orders, orders.slots
      ensures orders.Valid() && resting == OrdersIn(orders.contents) && OnlyTaken(old(orders.contents), orders.contents)
      ensures Snapshot() == Removed(old(Snapshot()), id)
    {
      OrdersWithout(orders.contents, id);
      orders.RemoveAt(slot, id);
      resting := resting - {id};
    }

    lemma LeftInTable(c: map<OrderId, StoredOrder<LevelHandle>>, m: Orders, id: OrderId, shares: Shares, left: Shares)
      requires id in c && m == OrdersIn(c) && shares < c[id].order.quantity && left == c[id].order.quantity - shares
      ensures AfterTaking(m, id, shares) == OrdersIn(WithLeft(c, id, left)) && OnlyTaken(c, WithLeft(c, id, left))
    {
      OrdersWithLeft(c, id, left);
    }

    method ReduceInTable(slot: nat, shares: Shares, ghost id: OrderId)
      requires orders.Valid() && resting == OrdersIn(orders.contents)
      requires id in orders.contents && slot == orders.where[id]
      requires shares < orders.contents[id].order.quantity
      modifies this`resting, orders, orders.slots
      ensures orders.Valid() && resting == OrdersIn(orders.contents) && OnlyTaken(old(orders.contents), orders.contents)
      ensures Snapshot() == Taken(old(Snapshot()), id, shares)
    {
      orders.StoredAt(slot, id);
      var left := orders.slots[slot].stored.order.quantity - shares;
      ghost var s', c' := Taken(Snapshot(), id, shares), WithLeft(orders.contents, id, left);
      LeftInTable(orders.contents, resting, id, shares, left);
      assert s'.orders == OrdersIn(c');
      orders.SetQuantity(slot, left, id);
      assert orders.contents == c';
      assert Snapshot() == old(Snapshot());
      resting := s'.orders;
      assert Snapshot() == s';
    }

    method AddToTable(order: Order, handle: LevelHandle) returns (added: bool)
      requires orders.Valid() && resting == OrdersIn(orders.contents)
      requires order.orderId !in orders.contents
      modifies this`resting, orders, orders.slots
      ensures orders.Valid() && resting == OrdersIn(orders.contents)
      ensures added <==> old(orders.size) < orders.slots.Length
      ensures orders.contents == if added then old(orders.contents)[order.orderId := StoredOrder(order, handle)]
                                 else old(orders.contents)
      ensures Snapshot() == if added then Inserted(old(Snapshot()), order) else old(Snapshot())
    {
      OrdersWith(orders.contents, order.orderId, StoredOrder(order, handle));
      ghost var m' := Inserted(Snapshot(), order).orders;
      added := orders.Add(order, handle);
      if added {
        resting := m';
      }
    }

    // ----- Taking shares: the common tail of E, C and X; and deletion -----

    /** The slot of a stored order holds it, and the order's book was created. */
    lemma StoredAt(slot: nat, id: OrderId)
      requires Valid() && id in orders.contents && slot == orders.where[id]
      ensures slot < orders.slots.Length && orders.slots[slot].Occupied?
              && orders.slots[slot].stored == orders.contents[id]
      ensures id in resting && resting[id] == orders.contents[id].order && resting[id].orderId == id
      ensures books.present[resting[id].instrumentId]
    {
      assert HandleLive(orders.contents[id]);
    }

    /** The level of a resting order holds at least that order. */
    lemma LevelHolds(slot: nat, id: OrderId)
      requires Valid() && id in orders.contents && slot == orders.where[id]
      ensures slot < orders.slots.Length && orders.slots[slot].Occupied?
              && orders.slots[slot].stored == orders.contents[id]
      ensures var stored := orders.contents[id];
              var side := SideAt(stored.order.instrumentId, stored.order.side);
              && id in resting && resting[id] == stored.order && stored.order.orderId == id
              && books.present[stored.order.instrumentId]
              && side.Live(stored.level) && stored.level.price == stored.order.price
              && stored.order.quantity <= side.view[stored.level.price].quantity
              && side.view[stored.level.price].orderCount > 0
    {
      var stored := orders.contents[id];
      assert HandleLive(stored);
      OwnSideAfterTaking(resting, id, stored.order.quantity);
    }

    /** What a taking or a deletion leaves behind is a valid state again. */
    twostate lemma TakeKeepsAgreement(side: BookSide, new id: OrderId, new shares: Shares)
      requires old(Valid()) && OnlyTouched(side)
      requires old(id in resting && shares <= resting[id].quantity)
      requires side == SideAt(old(resting)[id].instrumentId, old(resting)[id].side)
      requires orders.Valid() && resting == OrdersIn(orders.contents)
               && OnlyTaken(old(orders.contents), orders.contents)
      requires side.Valid() && forall h :: old(side.Live(h)) && h.price in side.view ==> side.Live(h)
      requires resting == AfterTaking(old(resting), id, shares)
      requires side.view == SideView(resting, old(resting)[id].instrumentId, old(resting)[id].side)
      ensures Valid()
    {
      var o := old(resting)[id];
      ShapeKept(side);
      forall i: InstrumentId, s: Side | !On(o, i, s)
        ensures SideView(resting, i, s) == SideView(old(resting), i, s)
      {
        OtherSideAfterChange(old(resting), resting, id, i, s);
      }
      LevelsRestored(side, resting, o.instrumentId, o.side);
      HandlesAfterTaking(side);
    }

    /** Both structures give up an order with `remaining` shares still in its level. */
    method EraseBoth(slot: nat, side: BookSide, remaining: Shares, ghost id: OrderId)
      requires orders.Valid() && resting == OrdersIn(orders.contents)
      requires id in orders.contents && slot == orders.where[id]
      requires orders.size < orders.slots.Length
      requires side.Valid() && side.Live(orders.contents[id].level)
      requires side.view[orders.contents[id].level.price].orderCount > 0
      requires remaining <= side.view[orders.contents[id].level.price].quantity
      modifies this`counters, this`resting, side, orders, orders.slots
      ensures Snapshot() == Removed(old(Snapshot()), id)
      ensures orders.Valid() && resting == OrdersIn(orders.contents) && OnlyTaken(old(orders.contents), orders.contents)
      ensures side.Valid() && side.view == Withdraw(old(side.view), old(orders.contents)[id].level.price, remaining)
      ensures forall h :: old(side.Live(h)) && h.price in side.view ==> side.Live(h)
    {
      var stored := orders.slots[slot].stored;
      assert stored == orders.contents[id];
      var ok := RemoveFromLevel(side, stored.level, remaining);
      assert ok;  // the C++ returns here if the level refuses, which it never does
      EraseFromTable(slot, id);
    }

    /** Both structures give up some, not all, shares of an order. */
    method TakePart(slot: nat, side: BookSide, shares: Shares, ghost id: OrderId)
      requires orders.Valid() && resting == OrdersIn(orders.contents)
      requires id in orders.contents && slot == orders.where[id]
      requires shares < orders.contents[id].order.quantity
      requires side.Valid() && side.Live(orders.contents[id].level)
      requires shares <= side.view[orders.contents[id].level.price].quantity
      modifies this`counters, this`resting, side, orders, orders.slots
      ensures Snapshot() == Taken(old(Snapshot()), id, shares)
      ensures orders.Valid() && resting == OrdersIn(orders.contents) && OnlyTaken(old(orders.contents), orders.contents)
      ensures side.Valid() && side.view == Reduce(old(side.view), old(orders.contents)[id].level.price, shares)
      ensures forall h :: old(side.Live(h)) && h.price in side.view ==> side.Live(h)
    {
      var stored := orders.slots[slot].stored;
      assert stored == orders.contents[id];
      var ok := ReduceLevel(side, stored.level, shares);
      assert ok;  // the C++ returns here if the level refuses, which it never does
      ReduceInTable(slot, shares, id);
    }

    /** Everything left is taken: reduce the level to what others hold, then remove the order with
        nothing remaining. */
    method TakeAll(slot: nat, side: BookSide, ghost id: OrderId)
      requires orders.Valid() && resting == OrdersIn(orders.contents)
      requires id in orders.contents && slot == orders.where[id]
      requires orders.size < orders.slots.Length
      requires side.Valid() && side.Live(orders.contents[id].level)
      requires side.view[orders.contents[id].level.price].orderCount > 0
      requires orders.contents[id].order.quantity <= side.view[orders.contents[id].level.price].quantity
      modifies this`counters, this`resting, side, orders, orders.slots
      ensures Snapshot() == Removed(old(Snapshot()), id)
      ensures orders.Valid() && resting == OrdersIn(orders.contents) && OnlyTaken(old(orders.contents), orders.contents)
      ensures side.Valid()
      ensures side.view
           == Withdraw(old(side.view), old(orders.contents)[id].level.price, old(orders.contents)[id].order.quantity)
      ensures forall h :: old(side.Live(h)) && h.price in side.view ==> side.Live(h)
    {
      var stored := orders.slots[slot].stored;
      assert stored == orders.contents[id];
      ReduceThenWithdraw(side.view, stored.level.price, stored.order.quantity);
      var ok := ReduceLevel(side, stored.level, stored.order.quantity);
      assert ok;  // the C++ returns here if the level refuses, which it never does
      EraseBoth(slot, side, 0, id);
    }

    /** `shares` of a resting order are gone, in the book and in the table. */
    method Shrink(slot: nat, book: OrderBook, shares: Shares, ghost id: OrderId)
      requires Valid() && id in orders.contents && slot == orders.where[id]
      requires shares == orders.contents[id].order.quantity ==> orders.size < orders.slots.Length
      requires shares <= orders.contents[id].order.quantity
      requires book == books.books[orders.contents[id].order.instrumentId]
      modifies Repr
      ensures Valid()
      ensures Snapshot() == Taken(old(Snapshot()), id, shares)
    {
      LevelHolds(slot, id);
      OwnSideAfterTaking(resting, id, shares);
      var order := orders.slots[slot].stored.order;
      var side := book.Of(order.side);
      if shares == order.quantity {
        TakeAll(slot, side, id);
      } else {
        TakePart(slot, side, shares, id);
      }
      TakeKeepsAgreement(side, id, shares);
    }

    /** An order is deleted, in the book and in the table. */
    method Erase(slot: nat, book: OrderBook, ghost id: OrderId)
      requires Valid() && id in orders.contents && slot == orders.where[id]
      requires orders.size < orders.slots.Length
      requires book == books.books[orders.contents[id].order.instrumentId]
      modifies Repr
      ensures Valid() && orders.size < orders.slots.Length
      ensures Snapshot() == Removed(old(Snapshot()), id)
      ensures books.present[old(orders.contents[id].order.instrumentId)]
    {
      LevelHolds(slot, id);
      OwnSideAfterTaking(resting, id, resting[id].quantity);
      var order := orders.slots[slot].stored.order;
      var side := book.Of(order.side);
      assert books.present as object !in {this, side, orders, orders.slots};
      EraseBoth(slot, side, order.quantity, id);
      TakeKeepsAgreement(side, id, order.quantity);
    }

    // ----- Adding an order: the common tail of A, F and U -----

    /** Few enough orders that no sum of a level wraps. */
    lemma FewOrders()
      requires Shaped()
      ensures |resting| == orders.size <= orders.slots.Length < TWO_32 - 1
    {
      FullIffNoEmptySlot(orders.slots[..], orders.where);
      assert |resting.Keys| == |orders.contents.Keys|;
    }

    /** What an accepted new order leaves behind is a valid state again. */
    twostate lemma InsertKeepsAgreement(side: BookSide, new stored: StoredOrder<LevelHandle>)
      requires old(Valid()) && OnlyTouched(side)
      requires side == SideAt(stored.order.instrumentId, stored.order.side) && books.present[stored.order.instrumentId]
      requires stored.order.orderId !in old(orders.contents)
      requires orders.Valid() && resting == OrdersIn(orders.contents)
      requires orders.contents == old(orders.contents)[stored.order.orderId := stored]
      requires resting == old(resting)[stored.order.orderId := stored.order]
      requires side.Valid() && side.Live(stored.level) && stored.level.price == stored.order.price
      requires forall h :: old(side.Live(h)) ==> side.Live(h)
      requires side.view == SideView(resting, stored.order.instrumentId, stored.order.side)
      ensures Valid()
    {
      var o := stored.order;
      ShapeKept(side);
      forall i: InstrumentId, s: Side | !On(o, i, s)
        ensures SideView(resting, i, s) == SideView(old(resting), i, s)
      {
        OtherSideAfterInsert(old(resting), o, i, s);
      }
      LevelsRestored(side, resting, o.instrumentId, o.side);
      HandlesAfterAdding(side, stored);
    }

    /** A full table: the level has changed, the orders have not. */
    twostate lemma RefusedInsertTears(side: BookSide, new order: Order)
      requires old(Valid()) && OnlyTouched(side)
      requires side == SideAt(order.instrumentId, order.side)
      requires orders.Valid() && resting == old(resting) == OrdersIn(orders.contents)
      requires side.Valid() && side.view == Deposit(old(side.view), order.price, order.quantity)
      ensures Shaped() && !LevelsAgree(resting)
    {
      ShapeKept(side);
      FewOrders();
      DepositShows(resting, order.instrumentId, order.side, order.price, order.quantity);
    }

    /** The level receives the order first, the table second; a full table refuses it. */
    method AddToBoth(order: Order, side: BookSide) returns (added: bool, ghost handle: LevelHandle)
      requires orders.Valid() && resting == OrdersIn(orders.contents) && side.Valid()
      requires order.orderId !in orders.contents
      modifies this`resting, side, orders, orders.slots
      ensures orders.Valid() && resting == OrdersIn(orders.contents)
      ensures added <==> old(orders.size) < orders.slots.Length
      ensures orders.contents == if added then old(orders.contents)[order.orderId := StoredOrder(order, handle)]
                                 else old(orders.contents)
      ensures Snapshot() == if added then Inserted(old(Snapshot()), order) else old(Snapshot())
      ensures side.Valid() && side.Live(handle) && handle.price == order.price
      ensures forall h :: old(side.Live(h)) ==> side.Live(h)
      ensures side.view == Deposit(old(side.view), order.price, order.quantity)
    {
      var level := side.Add(order.price, order.quantity);
      added := AddToTable(order, level);
      handle := level;
    }

    /** A new order enters the book and, unless that is full, the table.  The book goes first: on a
        full table it keeps shares that no stored order has, and agreement is lost. */
    method Insert(order: Order, book: OrderBook) returns (added: bool)
      requires Valid() && order.orderId !in orders.contents
      requires book == books.books[order.instrumentId] && books.present[order.instrumentId]
      modifies Repr
      ensures added <==> old(orders.size) < orders.slots.Length
      ensures if added then Valid() else Torn()
      ensures Snapshot() == if added then Inserted(old(Snapshot()), order) else old(Snapshot())
    {
      FewOrders();
      OwnSideAfterInsert(resting, order);
      var side := book.Of(order.side);
      assert side == SideAt(order.instrumentId, order.side);
      ghost var handle;
      added, handle := AddToBoth(order, side);
      if added {
        InsertKeepsAgreement(side, StoredOrder(order, handle));
      } else {
        RefusedInsertTears(side, order);
      }
    }

    // ----- Notifications and lookups -----

    /** The slot of a stored order, and the order. */
    method Locate(id: OrderId) returns (found: Option<(nat, Order)>)
      requires Valid()
      ensures Valid() && Snapshot() == old(Snapshot()) && unchanged(orders) && unchanged(orders.slots)
      ensures found.Some? <==> id in resting
      ensures found.Some? ==> id in orders.contents && found.value.0 == orders.where[id]
      ensures found.Some? ==> found.value.1 == orders.contents[id].order == resting[id]
    {
      var slot := orders.FindIndex(id);
      if slot.None? {
        return None;
      }
      StoredAt(slot.value, id);
      return Some((slot.value, orders.slots[slot.value].stored.order));
    }

    /** Counters, notifications and newly opened books may have changed; nothing else has. */
    twostate predicate OnlyLogged()
      reads this, Repr
    {
      && resting == old(resting)
      && (forall o: object | o in Repr && o != this && o != books && o != books.present :: unchanged(o))
    }

    /** Counters, notifications and newly opened books do not disturb agreement. */
    twostate lemma ValidKept()
      requires old(Valid()) && OnlyLogged() && books.Valid()
      requires forall i: InstrumentId | old(books.present[i]) :: books.present[i]
      ensures Valid()
    {
      assert forall i: InstrumentId, s: Side {:trigger SideAt(i, s)} :: unchanged(SideAt(i, s));
      assert unchanged(orders) && unchanged(orders.slots);
      assert Shaped() && LevelsAgree(resting);
      forall id <- orders.contents
        ensures HandleLive(orders.contents[id])
      {
        assert old(HandleLive(orders.contents[id]));
      }
    }

    method Count(c: Counters, ghost s: State)
      requires Valid() && s == Snapshot().(counters := c)
      modifies this`counters
      ensures Valid() && Snapshot() == s
    {
      counters := c;
      ValidKept();
    }

    method NotifyTrade(i: InstrumentId, t: Timestamp, price: Price, quantity: Shares, side: Side)
      requires Valid()
      modifies this`trades
      ensures Valid()
      ensures Snapshot() == WithTrade(old(Snapshot()), TradeEvent(i, t, price, quantity, side))
      ensures unchanged(orders) && unchanged(orders.slots)
    {
      if !tradeHandler {
        return;
      }
      trades := trades + [TradeNote(TradeEvent(i, t, price, quantity, side), |quotes|)];
      ValidKept();
    }

    /** The book of an order, or an error count when it was never created. */
    method LocateBook(i: InstrumentId) returns (book: Option<OrderBook>)
      requires Valid()
      modifies this`counters
      ensures Valid()
      ensures book == if books.present[i] then Some(books.books[i]) else None
      ensures Snapshot() == if books.present[i] then old(Snapshot())
                            else old(Snapshot()).(counters := old(counters).
                                   (missingBooks := old(counters).missingBooks + 1))
      ensures unchanged(orders) && unchanged(orders.slots)
    {
      book := books.Find(i);
      if book.None? {
        var c := counters.(missingBooks := counters.missingBooks + 1);
        Count(c, Snapshot().(counters := c));
      }
    }

    method OpenBook(i: InstrumentId) returns (book: OrderBook)
      requires Valid()
      modifies books, books.present
      ensures Valid() && book == books.books[i] && books.present[i]
      ensures Snapshot() == old(Snapshot())
    {
      book := books.GetOrCreate(i);
      ValidKept();
    }

    /** What the book shows. */
    function BboNow(i: InstrumentId, book: OrderBook): Bbo
      requires Valid() && book == books.books[i]
      reads this, Repr
    {
      assert book.bids == SideAt(i, Buy) && book.asks == SideAt(i, Sell);
      book.BboNow()
    }

    /** What the book shows is the best quote over the resting orders. */
    lemma BboIs(i: InstrumentId, book: OrderBook)
      requires Valid() && book == books.books[i]
      ensures BboNow(i, book) == BboAt(resting, i)
    {
      assert book.bids == SideAt(i, Buy) && book.asks == SideAt(i, Sell);
      TopOfLevels(resting, i, Buy);
      TopOfLevels(resting, i, Sell);
    }

    /** Notify the quote of a book if it differs from the one before the change. */
    method NotifyBboChange(i: InstrumentId, t: Timestamp, book: OrderBook, before: Bbo, ghost s: State)
      requires Valid() && book == books.books[i] && Snapshot() == s.(orders := resting)
      requires bboHandler ==> before == BboAt(s.orders, i)
      modifies this`quotes
      ensures Valid()
      ensures Snapshot() == WithOrders(s, resting, i, t)
    {
      if !bboHandler {
        return;
      }
      BboIs(i, book);
      var after := BboNow(i, book);
      if SameBbo(before, after) {
        return;
      }
      NotifyQuote(BboEvent(i, t, after));
    }

    method NotifyQuote(e: BboEvent)
      requires Valid()
      modifies this`quotes
      ensures Valid() && Snapshot() == old(Snapshot()).(quotes := old(quotes) + [e])
    {
      quotes := quotes + [e];
      ValidKept();
    }

    /** The quote of a book before a change, asked for only when someone listens. */
    function QuoteBefore(i: InstrumentId, book: OrderBook): (before: Bbo)
      requires Valid() && book == books.books[i]
      reads this, Repr
      ensures bboHandler ==> before == BboAt(resting, i)
    {
      BboIs(i, book);
      if bboHandler then BboNow(i, book) else NO_BBO
    }

    // ----- The handlers -----

    /** After a new order met a full table: the levels and the table disagree. */
    ghost predicate Torn()
      reads this, Repr
    {
      Shaped() && !LevelsAgree(resting)
    }

    twostate lemma TornKept()
      requires old(Torn()) && OnlyLogged() && books.Valid()
      ensures Torn()
    {
      assert forall i: InstrumentId, s: Side {:trigger SideAt(i, s)} :: unchanged(SideAt(i, s));
      assert unchanged(orders) && unchanged(orders.slots);
      assert Shaped();
    }

    /** The table's refusal is counted as a duplicate. */
    method CountRefused()
      requires Torn()
      modifies this`counters
      ensures Torn() && Snapshot() == DuplicateAdd(old(Snapshot()))
    {
      counters := counters.(duplicateAdds := counters.duplicateAdds + 1);
      TornKept();
    }

    /** A and F for an id that is not stored. */
    method AddNew(order: Order) returns (added: bool)
      requires Valid() && order.orderId !in resting
      modifies Repr
      ensures added <==> old(orders.size) < orders.slots.Length
      ensures if added
              then Valid() && Snapshot() == AddedTo(old(Snapshot()), order)
              else Torn() && Snapshot() == DuplicateAdd(old(Snapshot()))
    {
      var book := OpenBook(order.instrumentId);
      added := Enter(order, book);
    }

    /** A new order and its book: the table's refusal is counted, an insertion is notified. */
    method Enter(order: Order, book: OrderBook) returns (added: bool)
      requires Valid() && order.orderId !in resting
      requires book == books.books[order.instrumentId] && books.present[order.instrumentId]
      modifies Repr
      ensures added <==> old(orders.size) < orders.slots.Length
      ensures if added
              then Valid() && Snapshot() == AddedTo(old(Snapshot()), order)
              else Torn() && Snapshot() == DuplicateAdd(old(Snapshot()))
    {
      ghost var s0 := Snapshot();
      var before := QuoteBefore(order.instrumentId, book);
      added := Insert(order, book);
      if !added {
        CountRefused();
        return;
      }
      NotifyBboChange(order.instrumentId, order.timestamp, book, before, s0);
    }

    /** A and F.  Agreement survives exactly when the id is known already or a slot is free. */
    method OnAdd(order: Order)
      requires Valid()
      modifies Repr
      ensures if order.orderId in old(resting) || old(orders.size) < orders.slots.Length
              then Valid() && Snapshot() == ApplyAdd(old(Snapshot()), order)
              else Torn() && Snapshot() == DuplicateAdd(old(Snapshot()))
    {
      var known := Locate(order.orderId);
      if known.Some? {
        Count(counters.(duplicateAdds := counters.duplicateAdds + 1), DuplicateAdd(Snapshot()));
      } else {
        var _ := AddNew(order);
      }
    }

    /** The part of E, C and X after their checks. */
    method Take(slot: nat, i: InstrumentId, book: OrderBook, shares: Shares, t: Timestamp, ghost id: OrderId)
      requires Valid() && id in orders.contents && slot == orders.where[id]
      requires shares == orders.contents[id].order.quantity ==> orders.size < orders.slots.Length
      requires shares <= orders.contents[id].order.quantity
      requires id in resting && resting[id] == orders.contents[id].order
      requires i == orders.contents[id].order.instrumentId && book == books.books[i]
      modifies Repr
      ensures Valid()
      ensures Snapshot() == ApplyTake(old(Snapshot()), id, t, shares)
    {
      ghost var s0 := Snapshot();
      var before := QuoteBefore(i, book);
      Shrink(slot, book, shares, id);
      NotifyBboChange(i, t, book, before, s0);
    }

    /** E and C after the check of the shares: the trade is notified before the book changes. */
    method Execute(slot: nat, t: Timestamp, shares: Shares, price: Price, ghost id: OrderId)
      requires Valid() && id in orders.contents && slot == orders.where[id]
      requires shares == orders.contents[id].order.quantity ==> orders.size < orders.slots.Length
      requires shares <= orders.contents[id].order.quantity
      modifies Repr
      ensures Valid()
      ensures Snapshot() == ApplyExecution(old(Snapshot()), id, t, shares, price)
    {
      StoredAt(slot, id);
      var order := orders.slots[slot].stored.order;
      var book := LocateBook(order.instrumentId);
      assert book.Some?;  // the C++ returns here if the book is missing, which it never is
      NotifyTrade(order.instrumentId, t, price, shares, order.side);
      Take(slot, order.instrumentId, book.value, shares, t, id);
    }

    method OnOrderExecuted(id: OrderId, t: Timestamp, shares: Shares)
      requires Valid() && (TakesAll(Snapshot(), id, shares) ==> orders.size < orders.slots.Length)
      modifies Repr
      ensures Valid() && Snapshot() == ApplyExecuted(old(Snapshot()), id, t, shares)
    {
      var found := Locate(id);
      if found.None? {
        Count(counters.(unknownExecutions := counters.unknownExecutions + 1), UnknownExecution(Snapshot()));
        return;
      }
      var (slot, order) := found.value;
      if shares > order.quantity {
        Count(counters.(overExecuted := counters.overExecuted + 1), OverExecution(Snapshot()));
        return;
      }
      Execute(slot, t, shares, order.price, id);
    }

    method OnOrderExecutedWithPrice(id: OrderId, t: Timestamp, shares: Shares, price: Price)
      requires Valid() && (TakesAll(Snapshot(), id, shares) ==> orders.size < orders.slots.Length)
      modifies Repr
      ensures Valid() && Snapshot() == ApplyExecutedWithPrice(old(Snapshot()), id, t, shares, price)
    {
      var found := Locate(id);
      if found.None? {
        Count(counters.(unknownExecutionsWithPrice := counters.unknownExecutionsWithPrice + 1),
              UnknownExecutionWithPrice(Snapshot()));
        return;
      }
      var (slot, order) := found.value;
      if shares > order.quantity {
        Count(counters.(overExecutedWithPrice := counters.overExecutedWithPrice + 1),
              OverExecutionWithPrice(Snapshot()));
        return;
      }
      Execute(slot, t, shares, price, id);
    }

    method Cancel(slot: nat, t: Timestamp, shares: Shares, ghost id: OrderId)
      requires Valid() && id in orders.contents && slot == orders.where[id]
      requires shares == orders.contents[id].order.quantity ==> orders.size < orders.slots.Length
      requires shares <= orders.contents[id].order.quantity
      modifies Repr
      ensures Valid()
      ensures Snapshot() == ApplyTake(old(Snapshot()), id, t, shares)
    {
      StoredAt(slot, id);
      var order := orders.slots[slot].stored.order;
      var book := LocateBook(order.instrumentId);
      assert book.Some?;  // the C++ returns here if the book is missing, which it never is
      Take(slot, order.instrumentId, book.value, shares, t, id);
    }

    method OnOrderCancel(id: OrderId, t: Timestamp, shares: Shares)
      requires Valid() && (TakesAll(Snapshot(), id, shares) ==> orders.size < orders.slots.Length)
      modifies Repr
      ensures Valid() && Snapshot() == ApplyCancel(old(Snapshot()), id, t, shares)
    {
      var found := Locate(id);
      if found.None? {
        Count(counters.(unknownCancels := counters.unknownCancels + 1), UnknownCancel(Snapshot()));
        return;
      }
      var (slot, order) := found.value;
      if shares > order.quantity {
        Count(counters.(overCancelled := counters.overCancelled + 1), OverCancel(Snapshot()));
        return;
      }
      Cancel(slot, t, shares, id);
    }

    method Delete(slot: nat, t: Timestamp, ghost id: OrderId)
      requires Valid() && id in orders.contents && slot == orders.where[id]
      requires orders.size < orders.slots.Length
      modifies Repr
      ensures Valid()
      ensures Snapshot() == DeletedAt(old(Snapshot()), id, t)
    {
      ghost var s0 := Snapshot();
      StoredAt(slot, id);
      var i := orders.slots[slot].stored.order.instrumentId;
      var book := LocateBook(i);
      assert book.Some?;  // the C++ returns here if the book is missing, which it never is
      var before := QuoteBefore(i, book.value);
      Erase(slot, book.value, id);
      NotifyBboChange(i, t, book.value, before, s0);
    }

    method OnOrderDelete(id: OrderId, t: Timestamp)
      requires Valid() && (id in resting ==> orders.size < orders.slots.Length)
      modifies Repr
      ensures Valid() && Snapshot() == ApplyDelete(old(Snapshot()), id, t)
    {
      var found := Locate(id);
      if found.None? {
        Count(counters.(unknownDeletes := counters.unknownDeletes + 1), UnknownDelete(Snapshot()));
        return;
      }
      Delete(found.value.0, t, id);
    }

    /** U on both structures: the old order leaves before the new one enters, so a free slot is
        certain and the insertion cannot be refused. */
    method Swap(slot: nat, book: OrderBook, replacement: Order, ghost id: OrderId)
      requires Valid() && id in orders.contents && slot == orders.where[id]
      requires orders.size < orders.slots.Length
      requires replacement.orderId == id || replacement.orderId !in resting
      requires replacement.instrumentId == orders.contents[id].order.instrumentId
      requires book == books.books[replacement.instrumentId] && books.present[replacement.instrumentId]
      modifies Repr
      ensures Valid()
      ensures Snapshot() == Inserted(Removed(old(Snapshot()), id), replacement)
    {
      Erase(slot, book, id);
      var added := Insert(replacement, book);
      assert added;  // the C++ counts a duplicate here, which never happens
    }

    method Replace(slot: nat, replacement: Order, ghost id: OrderId)
      requires Valid() && id in orders.contents && slot == orders.where[id]
      requires orders.size < orders.slots.Length
      requires replacement.orderId == id || replacement.orderId !in resting
      requires replacement.instrumentId == orders.contents[id].order.instrumentId
      modifies Repr
      ensures Valid()
      ensures Snapshot() == ReplacedBy(old(Snapshot()), id, replacement)
    {
      ghost var s0 := Snapshot();
      StoredAt(slot, id);
      var book := LocateBook(replacement.instrumentId);
      assert book.Some?;  // the C++ returns here if the book is missing, which it never is
      var before := QuoteBefore(replacement.instrumentId, book.value);
      Swap(slot, book.value, replacement, id);
      NotifyBboChange(replacement.instrumentId, replacement.timestamp, book.value, before, s0);
    }

    /** The replacement id is free, or is the id it replaces. */
    method ReplacementTaken(id: OrderId, newId: OrderId) returns (taken: bool)
      requires Valid()
      ensures Valid() && Snapshot() == old(Snapshot()) && unchanged(orders) && unchanged(orders.slots)
      ensures taken <==> newId != id && newId in resting
    {
      if newId == id {
        return false;
      }
      var found := Locate(newId);
      return found.Some?;
    }

    method OnOrderReplace(id: OrderId, newId: OrderId, t: Timestamp, price: Price, shares: Shares)
      requires Valid() && (Replaces(Snapshot(), id, newId) ==> orders.size < orders.slots.Length)
      modifies Repr
      ensures Valid() && Snapshot() == ApplyReplace(old(Snapshot()), id, newId, t, price, shares)
    {
      var found := Locate(id);
      if found.None? {
        Count(counters.(unknownReplaces := counters.unknownReplaces + 1), UnknownReplace(Snapshot()));
        return;
      }
      var (slot, order) := found.value;
      var taken := ReplacementTaken(id, newId);
      if taken {
        Count(counters.(duplicateReplacements := counters.duplicateReplacements + 1), DuplicateReplace(Snapshot()));
        return;
      }
      Replace(slot, Replacement(order, newId, t, price, shares), id);
    }

    method OnTrade(i: InstrumentId, t: Timestamp, price: Price, shares: Shares, buySell: char)
      requires Valid()
      modifies Repr
      ensures Valid() && Snapshot() == WithTrade(old(Snapshot()), TradeEvent(i, t, price, shares, SideOf(buySell)))
    {
      NotifyTrade(i, t, price, shares, SideOf(buySell));
    }

    /** E, C and X.  They remove an order exactly when they consume everything that was left of it, and
        touch no other order. */
    method OnTaking(m: Message)
      requires Valid() && HasRoom(Snapshot(), m, orders.slots.Length)
      requires m.OrderExecuted? || m.OrderExecutedWithPrice? || m.OrderCancel?
      modifies Repr
      ensures Valid() && Snapshot() == Apply(old(Snapshot()), m)
      ensures old(Takes(Snapshot(), m.orderId, m.shares)) ==>
                TakesFrom(old(resting), resting, m.orderId, m.shares)
    {
      if Takes(Snapshot(), m.orderId, m.shares) {
        RemovedExactlyWhenConsumed(Snapshot(), m);
      }
      assert |resting| == orders.size by { FewOrders(); }
      if m.OrderExecuted? {
        OnOrderExecuted(m.orderId, m.timestamp, m.shares);
      } else if m.OrderExecutedWithPrice? {
        OnOrderExecutedWithPrice(m.orderId, m.timestamp, m.shares, m.executionPrice);
      } else {
        OnOrderCancel(m.orderId, m.timestamp, m.shares);
      }
    }

    /** Every message but A and F. */
    method OnOther(m: Message)
      requires Valid() && HasRoom(Snapshot(), m, orders.slots.Length)
      requires !m.AddOrder? && !m.AddOrderWithMpid?
      modifies Repr
      ensures Valid() && Snapshot() == Apply(old(Snapshot()), m)
    {
      assert |resting| == orders.size by { FewOrders(); }
      match m
      case OrderExecuted(_, _, _) => OnTaking(m);
      case OrderExecutedWithPrice(_, _, _, _) => OnTaking(m);
      case OrderCancel(_, _, _) => OnTaking(m);
      case OrderDelete(id, t) => OnOrderDelete(id, t);
      case OrderReplace(id, newId, t, price, shares) => OnOrderReplace(id, newId, t, price, shares);
      case Trade(i, t, price, shares, buySell) => OnTrade(i, t, price, shares, buySell);
      case Unhandled =>
    }

    /** Any message that does not remove an order from a full table.  With room for it the state does to its
        two structures exactly what the reference semantics does to a map of orders, and the structures agree
        again; an Add without room is counted as a duplicate and leaves them in disagreement. */
    method OnMessage(m: Message)
      requires Valid() && (Removes(Snapshot(), m) ==> orders.size < orders.slots.Length)
      modifies Repr
      ensures if HasRoom(old(Snapshot()), m, orders.slots.Length)
              then Valid() && Snapshot() == Apply(old(Snapshot()), m)
              else Torn() && Snapshot() == DuplicateAdd(old(Snapshot()))
    {
      assert |resting| == orders.size <= orders.slots.Length by { FewOrders(); }
      match m
      case AddOrder(a) => OnAdd(OrderOf(a));
      case AddOrderWithMpid(a) => OnAdd(OrderOf(a));
      case _ => OnOther(m);
    }

    /** Every run with room for its messages: after any of them the state is the reference run's and the
        two structures agree, no defensive branch was ever taken, and quotes that followed the books still
        do. */
    method OnMessages(ms: seq<Message>)
      requires Valid() && RunHasRoom(Snapshot(), ms, orders.slots.Length)
      modifies Repr
      ensures Valid() && Snapshot() == Run(old(Snapshot()), ms)
      ensures counters.missingBooks == old(counters).missingBooks
      ensures counters.failedReductions == old(counters).failedReductions
      ensures counters.failedRemovals == old(counters).failedRemovals
      ensures old(Following(Snapshot())) ==> QuotesFollow(Snapshot())
    {
      ghost var s0 := Snapshot();
      var n := 0;
      while n < |ms|
        invariant 0 <= n <= |ms|
        invariant Valid() && Run(Snapshot(), ms[n..]) == Run(s0, ms)
        invariant RunHasRoom(Snapshot(), ms[n..], orders.slots.Length)
      {
        assert ms[n..][0] == ms[n] && ms[n..][1..] == ms[n + 1..];
        FewOrders();
        OnMessage(ms[n]);
        n := n + 1;
      }
      DefensiveCountersStay(s0, ms);
      FollowingRuns(s0, ms);
    }
  }
}
