/** Price levels, book sides and order books, with the level handles that orders keep. */
module Book {
  import opened MarketTypes
  import opened Reference
  import opened LevelAlgebra

  /** A node of a side's level map.  `id` is the node's identity: a level that is erased and created
      again at the same price is a different node. */
  datatype Node = Node(id: nat, level: LevelView)

  /** What an order keeps to reach its level without a search: the map iterator, that is, a node. */
  datatype LevelHandle = LevelHandle(price: Price, node: nat)

  class BookSide {
    const side: Side
    ghost const instrument: InstrumentId
    var levels: map<Price, Node>

    /** The identity of the next node to be created; identities are never reused. */
    var nextNode: nat

    /** The levels without their nodes' identities. */
    ghost var view: Levels

    ghost predicate Valid()
      reads this
    {
      && levels.Keys == view.Keys
      && forall p <- levels :: levels[p].level == view[p] && levels[p].id < nextNode
    }

    /** The handle may be dereferenced: its node has not been erased. */
    predicate Live(handle: LevelHandle)
      reads this
    {
      handle.price in levels && levels[handle.price].id == handle.node
    }

    constructor (side: Side, ghost instrument: InstrumentId)
      ensures Valid() && view == map[] && this.side == side && this.instrument == instrument
    {
      this.side := side;
      this.instrument := instrument;
      levels, view, nextNode := map[], map[], 0;
    }

    /** Find or create the level, add the order, hand out the level's handle.  Live handles stay
        live, and the only handle that can become live is one to a node that never existed before. */
    method Add(price: Price, quantity: nat) returns (handle: LevelHandle)
      requires Valid()
      modifies this
      ensures Valid() && Live(handle) && handle.price == price
      ensures forall h :: old(Live(h)) ==> Live(h)
      ensures forall h :: Live(h) ==> old(Live(h)) || h == handle
      ensures !old(Live(handle)) ==> handle.node == old(nextNode)
      ensures view == Deposit(old(view), price, quantity)
    {
      if price !in levels {
        levels := levels[price := Node(nextNode, LevelView(0, 0))];
        nextNode := nextNode + 1;
      }
      var node := levels[price];
      levels := levels[price := node.(level := node.level.Add(quantity))];
      view := Deposit(view, price, quantity);
      handle := LevelHandle(price, node.id);
    }

    method Reduce(handle: LevelHandle, quantity: nat) returns (ok: bool)
      requires Valid() && Live(handle)
      modifies this
      ensures Valid() && forall h :: Live(h) <==> old(Live(h))
      ensures ok <==> quantity <= old(view)[handle.price].quantity
      ensures view == if ok then LevelAlgebra.Reduce(old(view), handle.price, quantity) else old(view)
    {
      var node := levels[handle.price];
      var reduced := node.level.Reduce(quantity);
      if reduced.None? {
        return false;
      }
      levels := levels[handle.price := node.(level := reduced.value)];
      view := LevelAlgebra.Reduce(view, handle.price, quantity);
      return true;
    }

    /** Remove one order; the level is erased, and its handle dies, when that was the last one. */
    method RemoveOrder(handle: LevelHandle, remaining: nat) returns (ok: bool)
      requires Valid() && Live(handle)
      modifies this
      ensures Valid()
      ensures ok <==> old(view)[handle.price].orderCount > 0 && remaining <= old(view)[handle.price].quantity
      ensures view == if ok then Withdraw(old(view), handle.price, remaining) else old(view)
      ensures forall h :: Live(h) <==> old(Live(h)) && h.price in view
    {
      var node := levels[handle.price];
      var left := node.level.RemoveOrder(remaining);
      if left.None? {
        return false;
      }
      if left.value.Empty() {
        levels := levels - {handle.price};
      } else {
        levels := levels[handle.price := node.(level := left.value)];
      }
      view := Withdraw(view, handle.price, remaining);
      return true;
    }

    /** The last node of the map for bids, the first for asks. */
    function Best(): (top: Option<(Price, nat)>)
      reads this
      requires Valid()
      ensures top == TopOf(side, view)
      ensures top.None? <==> view == map[]
      ensures top.Some? ==> top.value.0 in view && top.value.1 == view[top.value.0].quantity
      ensures top.Some? ==> forall p <- view :: if side == Buy then p <= top.value.0 else top.value.0 <= p
    {
      if levels == map[] then None
      else
        BestPriceIs(side, levels.Keys);
        var p := BestPrice(side, levels.Keys);
        Some((p, levels[p].level.quantity))
    }
  }

  class OrderBook {
    const bids: BookSide
    const asks: BookSide

    constructor (ghost instrument: InstrumentId)
      ensures fresh(bids) && fresh(asks)
      ensures bids.Valid() && bids.side == Buy && bids.instrument == instrument && bids.view == map[]
      ensures asks.Valid() && asks.side == Sell && asks.instrument == instrument && asks.view == map[]
    {
      bids := new BookSide(Buy, instrument);
      asks := new BookSide(Sell, instrument);
    }

    function Of(side: Side): BookSide {
      if side.Buy? then bids else asks
    }

    /** The best quote read off the two level maps. */
    function BboNow(): (bbo: Bbo)
      requires bids.Valid() && asks.Valid() && bids.side == Buy && asks.side == Sell
      reads bids, asks
      ensures bbo == Quote(TopOf(Buy, bids.view), TopOf(Sell, asks.view))
    {
      var bid, ask := bids.Best(), asks.Best();
      var result := NO_BBO;
      var withBid := if bid.Some? then result.(hasBid := true, bidPrice := bid.value.0, bidQuantity := bid.value.1)
          else result;
      if ask.Some? then withBid.(hasAsk := true, askPrice := ask.value.0, askQuantity := ask.value.1) else withBid
    }
  }

  /** All books, addressed by instrument id; `present` says which were ever created. */
  class BookStore {
    const books: seq<OrderBook>
    const present: array<bool>
    var size: nat

    /** The instruments whose books were asked for with GetOrCreate. */
    ghost var created: set<InstrumentId>

    /** One book for each 16-bit instrument id, each with its own two sides. */
    ghost predicate Valid()
      reads this, present
    {
      && |books| == present.Length == 0x1_0000
      && (forall i: InstrumentId, s: Side :: books[i].Of(s).instrument == i && books[i].Of(s).side == s)
      && (forall i: InstrumentId :: present[i] <==> i in created)
      && size == |created|
    }

    constructor ()
      ensures Valid() && fresh(present) && created == {}
      ensures forall i: InstrumentId, s: Side ::
        fresh(books[i].Of(s)) && books[i].Of(s).Valid() && books[i].Of(s).view == map[]
    {
      var all: seq<OrderBook> := [];
      while |all| < 0x1_0000
        invariant |all| <= 0x1_0000
        invariant forall j | 0 <= j < |all| ::
          && fresh(all[j].bids) && all[j].bids.Valid() && all[j].bids.view == map[]
          && all[j].bids.instrument == j && all[j].bids.side == Buy
          && fresh(all[j].asks) && all[j].asks.Valid() && all[j].asks.view == map[]
          && all[j].asks.instrument == j && all[j].asks.side == Sell
        decreases 0x1_0000 - |all|
      {
        var book := new OrderBook(|all|);
        all := all + [book];
      }
      books := all;
      present := new bool[0x1_0000](_ => false);
      size, created := 0, {};
    }

    method GetOrCreate(i: InstrumentId) returns (book: OrderBook)
      requires Valid()
      modifies this, present
      ensures Valid() && book == books[i] && created == old(created) + {i}
      ensures forall j: InstrumentId :: present[j] <==> old(present[j]) || j == i
    {
      if !present[i] {
        present[i] := true;
        size := size + 1;
      }
      created := created + {i};
      book := books[i];
    }

    /** The book of an instrument, exactly if it was created before. */
    method Find(i: InstrumentId) returns (book: Option<OrderBook>)
      requires Valid()
      ensures book.Some? <==> i in created
      ensures book.Some? ==> book.value == books[i]
    {
      book := if present[i] then Some(books[i]) else None;
    }
  }
}
