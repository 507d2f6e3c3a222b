/** How one change of the resting orders changes the levels: the pure half of book/store agreement. */
module LevelAlgebra {
  import opened MarketTypes
  import opened Arithmetic
  import opened Reference

  // ----- What PriceLevel and BookSide do to the levels of a side -----

  /** Adding an order of `q` shares at price `p`; both 64-bit sums wrap. */
  function Deposit(v: Levels, p: Price, q: nat): Levels {
    var was := if p in v then v[p] else LevelView(0, 0);
    v[p := was.Add(q)]
  }

  function Reduce(v: Levels, p: Price, q: nat): Levels
    requires p in v && q <= v[p].quantity
  {
    v[p := v[p].(quantity := v[p].quantity - q)]
  }

  /** Removing one order with `q` shares left; a level without orders goes away. */
  function Withdraw(v: Levels, p: Price, q: nat): Levels
    requires p in v && q <= v[p].quantity && v[p].orderCount > 0
  {
    if v[p].orderCount == 1 then v - {p}
    else v[p := LevelView(v[p].quantity - q, v[p].orderCount - 1)]
  }

  // ----- Sums over orders -----

  lemma {:induction false} TotalSplit(m: Orders, ids: set<OrderId>, x: OrderId)
    requires ids <= m.Keys && x in ids
    ensures Total(m, ids) == m[x].quantity + Total(m, ids - {x})
    decreases ids
  {
    var y :| y in ids && Total(m, ids) == m[y].quantity + Total(m, ids - {y});
    if y != x {
      TotalSplit(m, ids - {y}, x);
      TotalSplit(m, ids - {x}, y);
      assert ids - {y} - {x} == ids - {x} - {y};
    }
  }

  lemma {:induction false} TotalOfSame(m: Orders, m': Orders, ids: set<OrderId>)
    requires ids <= m.Keys && ids <= m'.Keys
    requires forall id <- ids :: m[id].quantity == m'[id].quantity
    ensures Total(m, ids) == Total(m', ids)
    decreases ids
  {
    if ids == {} {
    } else {
      var x :| x in ids;
      TotalSplit(m, ids, x);
      TotalSplit(m', ids, x);
      TotalOfSame(m, m', ids - {x});
    }
  }

  lemma {:induction false} TotalBound(m: Orders, ids: set<OrderId>)
    requires ids <= m.Keys
    ensures Total(m, ids) <= |ids| * (TWO_32 - 1)
    decreases ids
  {
    if ids == {} {
    } else {
      var x :| x in ids;
      TotalSplit(m, ids, x);
      TotalBound(m, ids - {x});
    }
  }

  lemma SideViewIs(m: Orders, i: InstrumentId, side: Side)
    ensures forall p: Price :: p in SideView(m, i, side) <==> Resting(m, i, side, p) != {}
    ensures forall p <- SideView(m, i, side) :: SideView(m, i, side)[p] == LevelAt(m, i, side, p)
  {
    forall p: Price
      ensures p in Prices(m, i, side) <==> Resting(m, i, side, p) != {}
    {
      if id :| id in Resting(m, i, side, p) {
        assert id in m && On(m[id], i, side) && m[id].price == p;
      }
      if p in Prices(m, i, side) {
        var id :| id in m && On(m[id], i, side) && m[id].price == p;
        assert id in Resting(m, i, side, p);
      }
    }
  }

  /** Real arithmetic bound: a level holds at most 2^32-1 shares an order, so below 2^22 active
      orders every quantity stays below 2^54 and the 64-bit sums never wrap. */
  lemma LevelBound(m: Orders, i: InstrumentId, side: Side, p: Price)
    requires p in SideView(m, i, side)
    ensures var l := SideView(m, i, side)[p];
            && 1 <= l.orderCount <= |m|
            && l.quantity <= l.orderCount * (TWO_32 - 1)
            && (|m| < 0x40_0000 ==> l.quantity < 0x40_0000_0000_0000)
  {
    SideViewIs(m, i, side);
    var ids := Resting(m, i, side, p);
    TotalBound(m, ids);
    SubsetSize(ids, m.Keys);
  }

  // ----- One new order -----

  lemma RestingAfterInsert(m: Orders, o: Order, i: InstrumentId, side: Side, p: Price)
    requires o.orderId !in m
    ensures Resting(m[o.orderId := o], i, side, p) ==
            if On(o, i, side) && o.price == p then Resting(m, i, side, p) + {o.orderId} else Resting(m, i, side, p)
  {
  }

  lemma LevelAfterInsert(m: Orders, o: Order, i: InstrumentId, side: Side, p: Price)
    requires o.orderId !in m
    ensures var m' := m[o.orderId := o];
            LevelAt(m', i, side, p) ==
            if On(o, i, side) && o.price == p
            then LevelView(LevelAt(m, i, side, p).quantity + o.quantity, LevelAt(m, i, side, p).orderCount + 1)
            else LevelAt(m, i, side, p)
  {
    var ids := Resting(m, i, side, p);
    RestingAfterInsert(m, o, i, side, p);
    TotalOfSame(m, m[o.orderId := o], ids);
    if On(o, i, side) && o.price == p {
      TotalWithOne(m, o, ids);
    }
  }

  lemma TotalWithOne(m: Orders, o: Order, ids: set<OrderId>)
    requires o.orderId !in m && ids <= m.Keys
    ensures var m' := m[o.orderId := o];
            && |ids + {o.orderId}| == |ids| + 1 && Total(m', ids + {o.orderId}) == Total(m', ids) + o.quantity
  {
    TotalSplit(m[o.orderId := o], ids + {o.orderId}, o.orderId);
    assert ids + {o.orderId} - {o.orderId} == ids;
  }

  /** Below 2^32 orders neither sum of a deposit wraps. */
  lemma ExactDeposit(m: Orders, i: InstrumentId, side: Side, p: Price, q: Shares)
    requires |m| < TWO_32 - 1
    ensures var l := LevelAt(m, i, side, p);
            Deposit(SideView(m, i, side), p, q) ==
            SideView(m, i, side)[p := LevelView(l.quantity + q, l.orderCount + 1)]
  {
    SideViewIs(m, i, side);
    var v, l := SideView(m, i, side), LevelAt(m, i, side, p);
    if p in v {
      LevelBound(m, i, side, p);
    } else {
      assert l == LevelView(0, 0);
    }
    assert l.orderCount <= TWO_32 - 2 && l.quantity <= l.orderCount * (TWO_32 - 1);
    assert (l.quantity + q) % TWO_64 == l.quantity + q;
    assert (l.orderCount + 1) % TWO_64 == l.orderCount + 1;
  }

  lemma SameLevels(v: Levels, w: Levels)
    requires forall p: Price :: p in v <==> p in w
    requires forall p <- v :: v[p] == w[p]
    ensures v == w
  {
  }

  lemma OtherPriceAfterInsert(m: Orders, o: Order, i: InstrumentId, side: Side, p: Price)
    requires o.orderId !in m && !(On(o, i, side) && o.price == p)
    ensures var v, v' := SideView(m, i, side), SideView(m[o.orderId := o], i, side);
            (p in v' <==> p in v) && (p in v' ==> v'[p] == v[p])
  {
    SideViewIs(m, i, side);
    SideViewIs(m[o.orderId := o], i, side);
    LevelAfterInsert(m, o, i, side, p);
    RestingAfterInsert(m, o, i, side, p);
  }

  lemma OwnPriceAfterInsert(m: Orders, o: Order)
    requires o.orderId !in m
    ensures var v', l := SideView(m[o.orderId := o], o.instrumentId, o.side),
                LevelAt(m, o.instrumentId, o.side, o.price);
            o.price in v' && v'[o.price] == LevelView(l.quantity + o.quantity, l.orderCount + 1)
  {
    SideViewIs(m[o.orderId := o], o.instrumentId, o.side);
    LevelAfterInsert(m, o, o.instrumentId, o.side, o.price);
    RestingAfterInsert(m, o, o.instrumentId, o.side, o.price);
  }

  lemma OwnSideChangesOnePrice(m: Orders, o: Order)
    requires o.orderId !in m
    ensures var v, v' := SideView(m, o.instrumentId, o.side), SideView(m[o.orderId := o], o.instrumentId, o.side);
            o.price in v' && v' == v[o.price := v'[o.price]]
  {
    var v, v' := SideView(m, o.instrumentId, o.side), SideView(m[o.orderId := o], o.instrumentId, o.side);
    OwnPriceAfterInsert(m, o);
    forall p: Price | p != o.price
      ensures (p in v' <==> p in v) && (p in v' ==> v'[p] == v[p])
    {
      OtherPriceAfterInsert(m, o, o.instrumentId, o.side, p);
    }
    SameLevels(v', v[o.price := v'[o.price]]);
  }

  /** The level after one more order of `q` shares. */
  function Plus(l: LevelView, q: nat): LevelView {
    LevelView(l.quantity + q, l.orderCount + 1)
  }

  lemma OwnSideExact(m: Orders, o: Order)
    requires o.orderId !in m
    ensures SideView(m[o.orderId := o], o.instrumentId, o.side) ==
            SideView(m, o.instrumentId, o.side)
              [o.price := Plus(LevelAt(m, o.instrumentId, o.side, o.price), o.quantity)]
  {
    OwnSideChangesOnePrice(m, o);
    OwnPriceAfterInsert(m, o);
  }

  lemma OwnSideAfterInsert(m: Orders, o: Order)
    requires o.orderId !in m && |m| < TWO_32 - 1
    ensures SideView(m[o.orderId := o], o.instrumentId, o.side) ==
            Deposit(SideView(m, o.instrumentId, o.side), o.price, o.quantity)
  {
    OwnSideExact(m, o);
    ExactDeposit(m, o.instrumentId, o.side, o.price, o.quantity);
  }

  lemma OtherSideAfterInsert(m: Orders, o: Order, i: InstrumentId, side: Side)
    requires o.orderId !in m && !On(o, i, side)
    ensures SideView(m[o.orderId := o], i, side) == SideView(m, i, side)
  {
    var v, v' := SideView(m, i, side), SideView(m[o.orderId := o], i, side);
    forall p: Price
      ensures (p in v' <==> p in v) && (p in v' ==> v'[p] == v[p])
    {
      OtherPriceAfterInsert(m, o, i, side, p);
    }
    SameLevels(v', v);
  }

  /** Inserting an order deposits it in its own side and touches no other side of any book. */
  lemma SideAfterInsert(m: Orders, o: Order, i: InstrumentId, side: Side)
    requires o.orderId !in m && |m| < TWO_32 - 1
    ensures SideView(m[o.orderId := o], i, side) ==
            if On(o, i, side) then Deposit(SideView(m, i, side), o.price, o.quantity) else SideView(m, i, side)
  {
    if On(o, i, side) {
      OwnSideAfterInsert(m, o);
    } else {
      OtherSideAfterInsert(m, o, i, side);
    }
  }

  lemma RestOf(m: Orders, id: OrderId) returns (rest: Orders)
    requires id in m
    ensures rest == m - {id} && m == rest[id := m[id]] && |rest| == |m| - 1
  {
    rest := m - {id};
    assert |rest| == |rest.Keys| && |m| == |m.Keys| && rest.Keys == m.Keys - {id};
  }

  lemma UndoPlus(v: Levels, p: Price, l: LevelView, q: nat)
    requires if p in v then v[p] == l && l.orderCount > 0 else l == LevelView(0, 0)
    ensures Withdraw(v[p := Plus(l, q)], p, q) == v
  {
  }

  lemma ReduceThenWithdraw(v: Levels, p: Price, q: nat)
    requires p in v && q <= v[p].quantity && v[p].orderCount > 0
    ensures Withdraw(Reduce(v, p, q), p, 0) == Withdraw(v, p, q)
  {
  }

  lemma ReducePlus(v0: Levels, v: Levels, p: Price, l: LevelView, q: nat, left: nat)
    requires left <= q && v == v0[p := Plus(l, q)]
    ensures p in v && q - left <= v[p].quantity && Reduce(v, p, q - left) == v0[p := Plus(l, left)]
  {
  }

  lemma LevelAtIs(m: Orders, i: InstrumentId, side: Side, p: Price)
    ensures var v, l := SideView(m, i, side), LevelAt(m, i, side, p);
            if p in v then v[p] == l && l.orderCount > 0 else l == LevelView(0, 0)
  {
    SideViewIs(m, i, side);
    if p in SideView(m, i, side) {
      LevelBound(m, i, side, p);
    }
  }

  lemma OwnSideAfterDelete(m: Orders, id: OrderId)
    requires id in m && m[id].orderId == id
    ensures var o := m[id];
            var v := SideView(m, o.instrumentId, o.side);
            && o.price in v && o.quantity <= v[o.price].quantity && v[o.price].orderCount > 0
            && SideView(m - {id}, o.instrumentId, o.side) == Withdraw(v, o.price, o.quantity)
  {
    var o := m[id];
    var rest := RestOf(m, id);
    OwnSideExact(rest, o);
    LevelAtIs(rest, o.instrumentId, o.side, o.price);
    UndoPlus(SideView(rest, o.instrumentId, o.side), o.price,
             LevelAt(rest, o.instrumentId, o.side, o.price), o.quantity);
  }

  /** One more order on its own side, spelled out for an order that is known by its parts. */
  lemma OwnSideWith(rest: Orders, m: Orders, o: Order, i: InstrumentId, side: Side, p: Price, q: Shares)
    requires o.orderId !in rest && m == rest[o.orderId := o]
    requires o.instrumentId == i && o.side == side && o.price == p && o.quantity == q
    ensures SideView(m, i, side) == SideView(rest, i, side)[p := Plus(LevelAt(rest, i, side, p), q)]
  {
    OwnSideExact(rest, o);
  }

  /** The same order with `left` instead of all its shares. */
  lemma OwnSideAfterShrink(rest: Orders, m: Orders, m': Orders, o: Order, left: Shares)
    requires o.orderId !in rest && left <= o.quantity
    requires m == rest[o.orderId := o] && m' == rest[o.orderId := o.(quantity := left)]
    ensures var v := SideView(m, o.instrumentId, o.side);
            && o.price in v && o.quantity - left <= v[o.price].quantity
            && SideView(m', o.instrumentId, o.side) == Reduce(v, o.price, o.quantity - left)
  {
    var i, side, p := o.instrumentId, o.side, o.price;
    OwnSideWith(rest, m, o, i, side, p, o.quantity);
    OwnSideWith(rest, m', o.(quantity := left), i, side, p, left);
    ReducePlus(SideView(rest, i, side), SideView(m, i, side), p, LevelAt(rest, i, side, p), o.quantity, left);
  }

  lemma OwnSideAfterTake(m: Orders, id: OrderId, shares: Shares)
    requires id in m && m[id].orderId == id && shares <= m[id].quantity
    ensures var o := m[id];
            var v := SideView(m, o.instrumentId, o.side);
            && o.price in v && shares <= v[o.price].quantity
            && SideView(m[id := o.(quantity := o.quantity - shares)], o.instrumentId, o.side)
               == Reduce(v, o.price, shares)
  {
    var rest := RestOf(m, id);
    var m' := m[id := m[id].(quantity := m[id].quantity - shares)];
    assert m' == rest[id := m'[id]];
    OwnSideAfterShrink(rest, m, m', m[id], m[id].quantity - shares);
  }

  /** `shares` of an order are gone: its level is reduced, or loses the order. */
  lemma OwnSideAfterTaking(m: Orders, id: OrderId, shares: Shares)
    requires id in m && m[id].orderId == id && shares <= m[id].quantity
    ensures var o := m[id];
            var v := SideView(m, o.instrumentId, o.side);
            && o.price in v && shares <= v[o.price].quantity && v[o.price].orderCount > 0
            && SideView(AfterTaking(m, id, shares), o.instrumentId, o.side) ==
               (if shares == o.quantity then Withdraw(v, o.price, shares) else Reduce(v, o.price, shares))
  {
    OwnSideAfterDelete(m, id);
    if shares == m[id].quantity {
      assert AfterTaking(m, id, shares) == m - {id};
    } else {
      OwnSideAfterTake(m, id, shares);
      assert AfterTaking(m, id, shares) == m[id := m[id].(quantity := m[id].quantity - shares)];
    }
  }

  /** A deposit never goes unnoticed. */
  lemma DepositShows(m: Orders, i: InstrumentId, side: Side, p: Price, q: Shares)
    requires |m| < TWO_32 - 1
    ensures Deposit(SideView(m, i, side), p, q) != SideView(m, i, side)
  {
    ExactDeposit(m, i, side, p, q);
    LevelAtIs(m, i, side, p);
    assert p in Deposit(SideView(m, i, side), p, q);
  }

  /** Removing an order, or changing what is left of it, touches no other side of any book. */
  lemma OtherSideAfterChange(m: Orders, m': Orders, id: OrderId, i: InstrumentId, side: Side)
    requires id in m && m[id].orderId == id && !On(m[id], i, side)
    requires m' == m - {id} || exists left: Shares :: m' == m[id := m[id].(quantity := left)]
    ensures SideView(m', i, side) == SideView(m, i, side)
  {
    var rest := RestOf(m, id);
    OtherSideAfterInsert(rest, m[id], i, side);
    if m' != rest {
      var left: Shares :| m' == m[id := m[id].(quantity := left)];
      assert m' == rest[id := m[id].(quantity := left)];
      OtherSideAfterInsert(rest, m[id].(quantity := left), i, side);
    }
  }

  // ----- The best level is the best resting price -----

  /** The first or last level of a side carries the best resting price and everything resting there. */
  lemma TopOfLevels(m: Orders, i: InstrumentId, side: Side)
    ensures TopOf(side, SideView(m, i, side)) == TopAt(m, i, side)
  {
    SideViewIs(m, i, side);
    var v := SideView(m, i, side);
    if id :| id in m && On(m[id], i, side) {
      assert id in Resting(m, i, side, m[id].price);
      BestPriceIs(side, v.Keys);
      var p := BestPrice(side, v.Keys);
      BestRests(m, i, side);
      assert TopAt(m, i, side).Some?;
      var q := TopAt(m, i, side).value.0;
      assert IsBest(m, i, side, q);
      var at :| at in m && On(m[at], i, side) && m[at].price == q;
      assert at in Resting(m, i, side, q);
      var first :| first in Resting(m, i, side, p);
      assert p == q;
    } else {
      assert forall p: Price :: Resting(m, i, side, p) == {};
      assert v == map[];
    }
  }
}
