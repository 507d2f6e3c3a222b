/** The open-addressed order table: fixed capacity, linear probing, backward-shift deletion. */
module OrderTable {
  import opened MarketTypes
  import opened Arithmetic

  datatype StoredOrder<L> = StoredOrder(order: Order, level: L)

  datatype Slot<L> = Empty | Occupied(stored: StoredOrder<L>) {
    function Id(): OrderId
      requires Occupied?
    {
      stored.order.orderId
    }
  }

  // ----- Cyclic positions -----

  /** The slot after `i` in a table of `n` slots. */
  function Next(n: nat, i: nat): nat
    requires i < n
  {
    if i + 1 == n then 0 else i + 1
  }

  /** How many steps of `Next` lead from `a` to `b`. */
  function Dist(n: nat, a: nat, b: nat): nat
    requires a < n && b < n
  {
    if a <= b then b - a else b + n - a
  }

  // ----- What a well-formed table looks like -----

  /** `w` is exactly the position of every stored id: no id is stored twice, none is missing. */
  ghost predicate Indexed<L>(s: seq<Slot<L>>, w: map<OrderId, nat>) {
    && (forall id <- w :: w[id] < |s| && s[w[id]].Occupied? && s[w[id]].Id() == id)
    && (forall j {:trigger s[j].Id()} | 0 <= j < |s| && s[j].Occupied? :: s[j].Id() in w && w[s[j].Id()] == j)
  }

  /** `k` lies on the probe path from the home of the order in slot `j` up to, not including, `j`. */
  ghost predicate OnPath<L>(s: seq<Slot<L>>, hash: OrderId -> nat, j: nat, k: nat)
    requires j < |s| && k < |s| && s[j].Occupied?
    requires hash(s[j].Id()) < |s|
  {
    Dist(|s|, hash(s[j].Id()), k) < Dist(|s|, hash(s[j].Id()), j)
  }

  ghost predicate HashBelow(hash: OrderId -> nat, n: nat) {
    forall id: OrderId :: hash(id) < n
  }

  /** Every slot on every probe path is occupied. */
  ghost predicate Probed<L>(s: seq<Slot<L>>, hash: OrderId -> nat)
    requires HashBelow(hash, |s|)
  {
    forall j, k {:trigger OnPath(s, hash, j, k)} | 0 <= j < |s| && 0 <= k < |s| && s[j].Occupied?
          && OnPath(s, hash, j, k) ::
      s[k].Occupied?
  }

  /** The table while a deletion is under way: `hole` is empty and may still cut probe paths, but
      only those of orders the scan has not reached. */
  ghost predicate ProbedPast<L>(s: seq<Slot<L>>, hash: OrderId -> nat, hole: nat, current: nat)
    requires HashBelow(hash, |s|) && hole < |s| && current < |s|
  {
    forall j, k {:trigger OnPath(s, hash, j, k)} | 0 <= j < |s| && 0 <= k < |s| && s[j].Occupied?
          && OnPath(s, hash, j, k) ::
      s[k].Occupied? || (k == hole && Dist(|s|, hole, j) >= Dist(|s|, hole, current))
  }

  /** What the table stores, as the map from order id to stored order it stands for. */
  ghost function MapOf<L>(s: seq<Slot<L>>, w: map<OrderId, nat>): (m: map<OrderId, StoredOrder<L>>)
    requires Indexed(s, w)
    ensures m.Keys == w.Keys && |m| == |w|
    ensures forall id <- m :: m[id].order.orderId == id
  {
    var m := map id <- w :: s[w[id]].stored;
    assert m.Keys == w.Keys && |m| == |m.Keys|;
    m
  }

  /** The orders of a stored map, without their level handles. */
  ghost function OrdersIn<L>(c: map<OrderId, StoredOrder<L>>): (m: map<OrderId, Order>)
    ensures m.Keys == c.Keys
  {
    map id <- c :: c[id].order
  }

  /** The stored map with only `quantity` left of one order. */
  ghost function WithLeft<L>(c: map<OrderId, StoredOrder<L>>, id: OrderId, quantity: Shares)
    : map<OrderId, StoredOrder<L>>
    requires id in c
  {
    c[id := c[id].(order := c[id].order.(quantity := quantity))]
  }

  /** Orders only leave or shrink; what is left of an order keeps its handle, price, side and book. */
  ghost predicate OnlyTaken<L>(c: map<OrderId, StoredOrder<L>>, c': map<OrderId, StoredOrder<L>>) {
    forall id <- c' :: id in c && c'[id].level == c[id].level
      && c'[id].order.(quantity := 0) == c[id].order.(quantity := 0)
  }

  lemma OrdersWithout<L>(c: map<OrderId, StoredOrder<L>>, id: OrderId)
    ensures OrdersIn(c - {id}) == OrdersIn(c) - {id} && OnlyTaken(c, c - {id})
  {
  }

  lemma OrdersWithLeft<L>(c: map<OrderId, StoredOrder<L>>, id: OrderId, quantity: Shares)
    requires id in c
    ensures OrdersIn(WithLeft(c, id, quantity)) == OrdersIn(c)[id := OrdersIn(c)[id].(quantity := quantity)]
    ensures OnlyTaken(c, WithLeft(c, id, quantity))
  {
  }

  lemma OrdersWith<L>(c: map<OrderId, StoredOrder<L>>, id: OrderId, stored: StoredOrder<L>)
    ensures OrdersIn(c[id := stored]) == OrdersIn(c)[id := stored.order]
  {
  }

  /** Slots `s`, indexed by `w`, are a well-formed table storing exactly `m`. */
  ghost predicate WellFormed<L>(s: seq<Slot<L>>, w: map<OrderId, nat>, hash: OrderId -> nat,
                                m: map<OrderId, StoredOrder<L>>) {
    HashBelow(hash, |s|) && Indexed(s, w) && Probed(s, hash) && MapOf(s, w) == m
  }

  // ----- Counting -----

  ghost function Below(n: nat): (r: set<nat>)
    ensures |r| == n
    ensures forall i: nat :: i in r <==> i < n
  {
    if n == 0 then {} else Below(n - 1) + {n - 1}
  }

  lemma {:induction false} InjectionSize(w: map<OrderId, nat>)
    requires forall x, y | x in w && y in w && w[x] == w[y] :: x == y
    ensures |w.Values| == |w|
    decreases |w|
  {
    if w == map[] {
    } else {
      var x :| x in w;
      var v := w - {x};
      InjectionSize(v);
      assert forall y <- v :: v[y] == w[y] && w[y] != w[x];
      assert w.Values == v.Values + {w[x]} by {
        forall k | k in w.Values ensures k in v.Values + {w[x]} {
          var y :| y in w && w[y] == k;
          assert y == x || (y in v && v[y] == k);
        }
      }
    }
  }

  /** The table is full exactly when it stores as many orders as it has slots. */
  lemma FullIffNoEmptySlot<L>(s: seq<Slot<L>>, w: map<OrderId, nat>)
    requires Indexed(s, w)
    ensures |w| <= |s|
    ensures |w| < |s| <==> exists j | 0 <= j < |s| :: s[j].Empty?
  {
    InjectionSize(w);
    SubsetSize(w.Values, Below(|s|));
    if j :| 0 <= j < |s| && s[j].Empty? {
      assert j in Below(|s|) && j !in w.Values;
    }
    if |w| < |s| {
      assert w.Values != Below(|s|);
      var j :| j in Below(|s|) && j !in w.Values;
      if s[j].Occupied? {
        assert w[s[j].Id()] == j;
        assert s[j].Id() in w;
      }
    }
  }

  lemma EmptySlot<L>(s: seq<Slot<L>>, w: map<OrderId, nat>) returns (empty: nat)
    requires Indexed(s, w) && |w| < |s|
    ensures empty < |s| && s[empty].Empty?
  {
    FullIffNoEmptySlot(s, w);
    empty :| empty < |s| && s[empty].Empty?;
  }

  lemma DropSize<K, V>(m: map<K, V>, k: K)
    requires k in m
    ensures |m - {k}| == |m| - 1
  {
    assert |m.Keys| == |m| && |(m - {k}).Keys| == |m - {k}|;
    assert (m - {k}).Keys == m.Keys - {k};
  }

  /** Filling an empty slot stores one order more. */
  lemma InsertKeepsMap<L>(s: seq<Slot<L>>, w: map<OrderId, nat>, at: nat, stored: StoredOrder<L>)
    requires Indexed(s, w) && at < |s| && s[at].Empty? && stored.order.orderId !in w
    ensures var t, w' := s[at := Occupied(stored)], w[stored.order.orderId := at];
            Indexed(t, w') && MapOf(t, w') == MapOf(s, w)[stored.order.orderId := stored]
  {
    InsertKeepsIndex(s, w, at, stored);
    var t, w' := s[at := Occupied(stored)], w[stored.order.orderId := at];
    forall id | id in w'
      ensures t[w'[id]].stored == MapOf(s, w)[stored.order.orderId := stored][id]
    {
      assert id != stored.order.orderId ==> s[w[id]].Id() == id;
    }
  }

  lemma InsertKeepsIndex<L>(s: seq<Slot<L>>, w: map<OrderId, nat>, at: nat, stored: StoredOrder<L>)
    requires Indexed(s, w) && at < |s| && s[at].Empty? && stored.order.orderId !in w
    ensures Indexed(s[at := Occupied(stored)], w[stored.order.orderId := at])
  {
  }

  /** Filling the first empty slot on the probe path of a new id. */
  lemma InsertKeepsShape<L>(s: seq<Slot<L>>, w: map<OrderId, nat>, hash: OrderId -> nat, at: nat,
                            stored: StoredOrder<L>, m: map<OrderId, StoredOrder<L>>)
    requires WellFormed(s, w, hash, m)
    requires at < |s| && s[at].Empty? && stored.order.orderId !in w
    requires Passed(s, stored.order.orderId, hash(stored.order.orderId), Dist(|s|, hash(stored.order.orderId), at))
    ensures WellFormed(s[at := Occupied(stored)], w[stored.order.orderId := at], hash,
                       m[stored.order.orderId := stored])
  {
    InsertKeepsMap(s, w, at, stored);
    InsertKeepsPaths(s, hash, at, stored);
  }

  lemma InsertKeepsPaths<L>(s: seq<Slot<L>>, hash: OrderId -> nat, at: nat, stored: StoredOrder<L>)
    requires HashBelow(hash, |s|) && Probed(s, hash) && at < |s| && s[at].Empty?
    requires Passed(s, stored.order.orderId, hash(stored.order.orderId), Dist(|s|, hash(stored.order.orderId), at))
    ensures Probed(s[at := Occupied(stored)], hash)
  {
    var s' := s[at := Occupied(stored)];
    forall j, k | 0 <= j < |s'| && 0 <= k < |s'| && s'[j].Occupied? && OnPath(s', hash, j, k)
      ensures s'[k].Occupied?
    {
      if j != at {
        assert OnPath(s, hash, j, k);
      }
    }
  }

  /** Rewriting a stored order in place, its id unchanged. */
  lemma UpdateKeepsShape<L>(s: seq<Slot<L>>, w: map<OrderId, nat>, hash: OrderId -> nat, at: nat,
                            stored: StoredOrder<L>, m: map<OrderId, StoredOrder<L>>)
    requires WellFormed(s, w, hash, m)
    requires at < |s| && s[at].Occupied? && s[at].Id() == stored.order.orderId
    ensures WellFormed(s[at := Occupied(stored)], w, hash, m[stored.order.orderId := stored])
  {
    var s' := s[at := Occupied(stored)];
    forall j, k | 0 <= j < |s'| && 0 <= k < |s'| && s'[j].Occupied? && OnPath(s', hash, j, k)
      ensures s'[k].Occupied?
    {
      assert OnPath(s, hash, j, k);
    }
  }

  // ----- The scan of a deletion -----

  /** Taking an order out of its slot leaves the index without its id. */
  lemma VacateKeepsMap<L>(s: seq<Slot<L>>, w: map<OrderId, nat>, at: nat)
    requires Indexed(s, w) && at < |s| && s[at].Occupied?
    ensures var t, w' := s[at := Empty], w - {s[at].Id()};
            Indexed(t, w') && MapOf(t, w') == MapOf(s, w) - {s[at].Id()}
  {
    var t, w' := s[at := Empty], w - {s[at].Id()};
    forall id | id in w'
      ensures t[w'[id]] == s[w[id]]
    {
      assert s[w[id]].Id() == id;
    }
  }

  /** Taking an order out of its slot, with no repair yet. */
  lemma VacateKeepsIndex<L>(s: seq<Slot<L>>, w: map<OrderId, nat>, hash: OrderId -> nat, at: nat)
    requires HashBelow(hash, |s|) && Indexed(s, w) && Probed(s, hash)
    requires at < |s| && s[at].Occupied?
    ensures var t, w' := s[at := Empty], w - {s[at].Id()};
            Indexed(t, w') && MapOf(t, w') == MapOf(s, w) - {s[at].Id()}
            && ProbedPast(t, hash, at, Next(|s|, at))
  {
    VacateKeepsMap(s, w, at);
    VacateKeepsPaths(s, hash, at);
  }

  lemma VacateKeepsPaths<L>(s: seq<Slot<L>>, hash: OrderId -> nat, at: nat)
    requires HashBelow(hash, |s|) && Probed(s, hash) && at < |s|
    ensures ProbedPast(s[at := Empty], hash, at, Next(|s|, at))
  {
    var t := s[at := Empty];
    forall j, k | 0 <= j < |t| && 0 <= k < |t| && t[j].Occupied? && OnPath(t, hash, j, k)
      ensures t[k].Occupied? || (k == at && Dist(|t|, at, j) >= Dist(|t|, at, Next(|t|, at)))
    {
      assert OnPath(s, hash, j, k);
    }
  }

  /** Moving an order to another slot moves its entry in the index. */
  lemma MoveKeepsIndex<L>(t: seq<Slot<L>>, w: map<OrderId, nat>, hole: nat, current: nat)
    requires Indexed(t, w) && hole < |t| && current < |t| && hole != current
    requires t[hole].Empty? && t[current].Occupied?
    ensures Indexed(t[hole := t[current]][current := Empty], w[t[current].Id() := hole])
  {
  }

  /** Moving an order to another slot changes where it is, not what is stored. */
  lemma MoveKeepsMap<L>(t: seq<Slot<L>>, w: map<OrderId, nat>, hole: nat, current: nat)
    requires Indexed(t, w) && hole < |t| && current < |t| && hole != current
    requires t[hole].Empty? && t[current].Occupied?
    ensures var t', w' := t[hole := t[current]][current := Empty], w[t[current].Id() := hole];
            Indexed(t', w') && MapOf(t', w') == MapOf(t, w)
  {
    var t', w' := t[hole := t[current]][current := Empty], w[t[current].Id() := hole];
    MoveKeepsIndex(t, w, hole, current);
    forall id | id in w
      ensures id in w' && t'[w'[id]] == t[w[id]]
    {
      assert t[w[id]].Id() == id;
    }
    SameStored(t, w, t', w');
  }

  lemma SameStored<L>(s: seq<Slot<L>>, w: map<OrderId, nat>, t: seq<Slot<L>>, v: map<OrderId, nat>)
    requires Indexed(s, w) && Indexed(t, v) && w.Keys == v.Keys
    requires forall id <- w :: t[v[id]] == s[w[id]]
    ensures MapOf(t, v) == MapOf(s, w)
  {
  }

  /** Moving the order at `current` into the hole keeps every probe path intact up to the new hole. */
  lemma MoveKeepsPaths<L>(t: seq<Slot<L>>, t': seq<Slot<L>>, hash: OrderId -> nat, hole: nat, current: nat)
    requires HashBelow(hash, |t|) && hole < |t| && current < |t| && hole != current
    requires t[hole].Empty? && t[current].Occupied?
    requires ProbedPast(t, hash, hole, current)
    requires OnPath(t, hash, current, hole)
    requires t' == t[hole := t[current]][current := Empty]
    ensures ProbedPast(t', hash, current, Next(|t|, current))
  {
    forall j, k | 0 <= j < |t'| && 0 <= k < |t'| && t'[j].Occupied? && OnPath(t', hash, j, k)
      ensures t'[k].Occupied? || (k == current && Dist(|t|, current, j) >= Dist(|t|, current, Next(|t|, current)))
    {
      if j == hole {
        assert OnPath(t, hash, current, k);
      } else {
        assert OnPath(t, hash, j, k);
      }
    }
  }

  /** Leaving the order at `current` where it is: the hole is not on its probe path. */
  lemma SkipKeepsPaths<L>(t: seq<Slot<L>>, hash: OrderId -> nat, hole: nat, current: nat, empty: nat)
    requires HashBelow(hash, |t|) && hole < |t| && current < |t| && empty < |t| && hole != current && hole != empty
    requires t[hole].Empty? && t[current].Occupied? && t[empty].Empty?
    requires Dist(|t|, hole, current) < Dist(|t|, hole, empty)
    requires ProbedPast(t, hash, hole, current)
    requires !OnPath(t, hash, current, hole)
    ensures ProbedPast(t, hash, hole, Next(|t|, current))
  {
  }

  /** Everything a deletion keeps between two steps of its scan: table `t`, with the hole empty,
      stores exactly `kept`; slots between hole and scan position are done; an empty slot is ahead. */
  ghost predicate Scanning<L>(t: seq<Slot<L>>, w: map<OrderId, nat>, hash: OrderId -> nat, hole: nat, current: nat,
                              empty: nat, kept: map<OrderId, StoredOrder<L>>)
  {
    && HashBelow(hash, |t|)
    && hole < |t| && current < |t| && empty < |t|
    && hole != current && hole != empty
    && t[hole].Empty? && t[empty].Empty?
    && Dist(|t|, hole, current) <= Dist(|t|, hole, empty)
    && Indexed(t, w)
    && MapOf(t, w) == kept
    && ProbedPast(t, hash, hole, current)
  }

  lemma ScanStarts<L>(s: seq<Slot<L>>, w: map<OrderId, nat>, hash: OrderId -> nat, at: nat, empty: nat,
                      m: map<OrderId, StoredOrder<L>>)
    requires WellFormed(s, w, hash, m)
    requires at < |s| && s[at].Occupied? && empty < |s| && s[empty].Empty?
    ensures Scanning(s[at := Empty], w - {s[at].Id()}, hash, at, Next(|s|, at), empty, m - {s[at].Id()})
  {
    VacateKeepsIndex(s, w, hash, at);
  }

  /** A deletion can begin wherever a stored id is, as long as some slot is empty. */
  lemma RemovalStarts<L>(s: seq<Slot<L>>, w: map<OrderId, nat>, hash: OrderId -> nat, id: OrderId, at: nat,
                         m: map<OrderId, StoredOrder<L>>) returns (empty: nat)
    requires WellFormed(s, w, hash, m) && id in m && at == w[id] && |m| < |s|
    ensures at < |s| && Scanning(s[at := Empty], w - {id}, hash, at, Next(|s|, at), empty, m - {id})
    ensures |m - {id}| == |m| - 1
  {
    empty := EmptySlot(s, w);
    assert s[at].Id() == id;
    ScanStarts(s, w, hash, at, empty, m);
    DropSize(m, id);
  }

  /** Once the scan meets an empty slot, the hole cuts no probe path at all. */
  lemma ScanEnds<L>(t: seq<Slot<L>>, w: map<OrderId, nat>, hash: OrderId -> nat, hole: nat, current: nat, empty: nat,
                    kept: map<OrderId, StoredOrder<L>>)
    requires Scanning(t, w, hash, hole, current, empty, kept)
    requires t[current].Empty?
    ensures WellFormed(t, w, hash, kept)
  {
    forall j, k | 0 <= j < |t| && 0 <= k < |t| && t[j].Occupied? && OnPath(t, hash, j, k)
      ensures t[k].Occupied?
    {
      assert k == hole && j != current && Dist(|t|, hole, j) >= Dist(|t|, hole, current)
         ==> OnPath(t, hash, j, current);
    }
  }

  lemma ScanMoves<L>(t: seq<Slot<L>>, w: map<OrderId, nat>, hash: OrderId -> nat, hole: nat, current: nat, empty: nat,
                     kept: map<OrderId, StoredOrder<L>>)
    requires Scanning(t, w, hash, hole, current, empty, kept)
    requires t[current].Occupied? && OnPath(t, hash, current, hole)
    ensures Scanning(t[hole := t[current]][current := Empty], w[t[current].Id() := hole], hash,
                     current, Next(|t|, current), empty, kept)
  {
    MoveKeepsMap(t, w, hole, current);
    MoveKeepsPaths(t, t[hole := t[current]][current := Empty], hash, hole, current);
  }

  lemma ScanSkips<L>(t: seq<Slot<L>>, w: map<OrderId, nat>, hash: OrderId -> nat, hole: nat, current: nat, empty: nat,
                     kept: map<OrderId, StoredOrder<L>>)
    requires Scanning(t, w, hash, hole, current, empty, kept)
    requires t[current].Occupied? && !OnPath(t, hash, current, hole)
    ensures Scanning(t, w, hash, hole, Next(|t|, current), empty, kept)
  {
    SkipKeepsPaths(t, hash, hole, current, empty);
  }

  lemma OneCloser(n: nat, current: nat, empty: nat)
    requires current < n && empty < n
    ensures current != empty ==> Dist(n, Next(n, current), empty) < Dist(n, current, empty)
  {
  }

  /** One step of the scan, on the slots themselves: the table, the hole and the position after it. */
  function ScanStep<L>(s: seq<Slot<L>>, hash: OrderId -> nat, hole: nat, current: nat): (seq<Slot<L>>, nat, nat)
    requires hole < |s| && current < |s| && s[current].Occupied? && hash(s[current].Id()) < |s|
  {
    var home := hash(s[current].Id());
    if Dist(|s|, home, hole) < Dist(|s|, home, current)
    then (s[hole := s[current]], current, Next(|s|, current))
    else (s, hole, Next(|s|, current))
  }

  ghost predicate AllOccupied<L>(s: seq<Slot<L>>) {
    forall j | 0 <= j < |s| :: s[j].Occupied?
  }

  /** The table, hole and position after `steps` steps on a table with no empty slot; there always is a
      next step. */
  ghost function ScanFull<L>(s: seq<Slot<L>>, hash: OrderId -> nat, hole: nat, current: nat, steps: nat)
    : (r: (seq<Slot<L>>, nat, nat))
    requires HashBelow(hash, |s|) && hole < |s| && current < |s| && AllOccupied(s)
    ensures |r.0| == |s| && r.1 < |s| && r.2 < |s| && AllOccupied(r.0)
  {
    if steps == 0 then (s, hole, current)
    else var (t, h, c) := ScanFull(s, hash, hole, current, steps - 1); ScanStep(t, hash, h, c)
  }

  /** Without an empty slot a deletion never ends: after any number of steps the slot looked at next is
      occupied.  So `removeAt` terminates if and only if the table is not full. */
  lemma FullTableNeverStops<L>(s: seq<Slot<L>>, w: map<OrderId, nat>, hash: OrderId -> nat, slot: nat, steps: nat)
    requires Indexed(s, w) && HashBelow(hash, |s|) && |w| == |s| && slot < |s|
    ensures AllOccupied(s)
    ensures var (t, h, c) := ScanFull(s, hash, slot, Next(|s|, slot), steps); t[c].Occupied?
  {
    FullIffNoEmptySlot(s, w);
    var (t, h, c) := ScanFull(s, hash, slot, Next(|s|, slot), steps);
  }

  // ----- The probe loops -----

  /** The first `probe` slots of the probe path of `id` are taken by other orders. */
  ghost predicate Passed<L>(s: seq<Slot<L>>, id: OrderId, home: nat, probe: nat)
    requires home < |s|
  {
    forall k {:trigger s[k]} | 0 <= k < |s| && Dist(|s|, home, k) < probe :: s[k].Occupied? && s[k].Id() != id
  }

  lemma ProbeOne<L>(s: seq<Slot<L>>, id: OrderId, home: nat, index: nat, probe: nat)
    requires home < |s| && index < |s| && Dist(|s|, home, index) == probe && Passed(s, id, home, probe)
    requires s[index].Occupied? && s[index].Id() != id
    ensures Passed(s, id, home, probe + 1)
    ensures probe + 1 < |s| ==> Dist(|s|, home, Next(|s|, index)) == probe + 1
  {
    assert forall k | 0 <= k < |s| && Dist(|s|, home, k) == probe :: k == index;
  }

  /** An empty slot on the probe path ends the search: the id is not stored. */
  lemma ProbeMisses<L>(s: seq<Slot<L>>, w: map<OrderId, nat>, hash: OrderId -> nat, id: OrderId, index: nat, probe: nat)
    requires HashBelow(hash, |s|) && Indexed(s, w) && Probed(s, hash)
    requires index < |s| && Dist(|s|, hash(id), index) == probe && Passed(s, id, hash(id), probe) && s[index].Empty?
    ensures id !in w
  {
    if id in w {
      assert s[w[id]].Id() == id;
      assert OnPath(s, hash, w[id], index);
    }
  }

  /** So does a whole round. */
  lemma ProbedAll<L>(s: seq<Slot<L>>, w: map<OrderId, nat>, id: OrderId, home: nat)
    requires home < |s| && Indexed(s, w) && Passed(s, id, home, |s|)
    ensures id !in w && forall k | 0 <= k < |s| :: s[k].Occupied?
  {
    forall k | 0 <= k < |s|
      ensures s[k].Occupied? && s[k].Id() != id
    {
      assert Dist(|s|, home, k) < |s|;
    }
  }

  // ----- Whole runs of operations, on the map -----

  datatype Operation<L> = Insert(order: Order, level: L) | Delete(orderId: OrderId) | Lookup(orderId: OrderId)

  function AfterOperation<L>(m: map<OrderId, StoredOrder<L>>, capacity: nat, op: Operation<L>)
    : map<OrderId, StoredOrder<L>>
  {
    match op
    case Insert(o, level) => if o.orderId !in m && |m| < capacity then m[o.orderId := StoredOrder(o, level)] else m
    case Delete(id) => m - {id}
    case Lookup(id) => m
  }

  predicate AnswerTo<L>(m: map<OrderId, StoredOrder<L>>, capacity: nat, op: Operation<L>) {
    match op
    case Insert(o, _) => o.orderId !in m && |m| < capacity
    case Delete(id) => id in m
    case Lookup(id) => id in m
  }

  /** A plain map, the answers it has given, and the largest size it has had. */
  datatype MapModel<L> = MapModel(m: map<OrderId, StoredOrder<L>>, answers: seq<bool>, peak: nat)

  function MapStep<L>(s: MapModel<L>, capacity: nat, op: Operation<L>): MapModel<L> {
    var m := AfterOperation(s.m, capacity, op);
    MapModel(m, s.answers + [AnswerTo(s.m, capacity, op)], if s.peak < |m| then |m| else s.peak)
  }

  function MapRun<L>(s: MapModel<L>, capacity: nat, ops: seq<Operation<L>>): MapModel<L>
    decreases |ops|
  {
    if ops == [] then s else MapRun(MapStep(s, capacity, ops[0]), capacity, ops[1..])
  }

  /** The peak is the largest of the old peak and the sizes after each operation. */
  lemma {:induction false} PeakIsLargest<L>(s: MapModel<L>, capacity: nat, ops: seq<Operation<L>>)
    ensures var peak := MapRun(s, capacity, ops).peak;
            && s.peak <= peak
            && (forall n | 0 < n <= |ops| :: |MapRun(s, capacity, ops[..n]).m| <= peak)
            && (peak == s.peak || exists n :: 0 < n <= |ops| && |MapRun(s, capacity, ops[..n]).m| == peak)
    decreases |ops|
  {
    if ops == [] {
    } else {
      var s1, rest, peak := MapStep(s, capacity, ops[0]), ops[1..], MapRun(s, capacity, ops).peak;
      PeakIsLargest(s1, capacity, rest);
      FirstThenPrefix(s, capacity, ops, 1);
      forall n | 0 < n <= |ops|
        ensures |MapRun(s, capacity, ops[..n]).m| <= peak
      {
        FirstThenPrefix(s, capacity, ops, n);
      }
      if peak == s1.peak {
        assert peak == s.peak || |MapRun(s, capacity, ops[..1]).m| == peak;
      } else {
        var n :| 0 < n <= |rest| && |MapRun(s1, capacity, rest[..n]).m| == peak;
        FirstThenPrefix(s, capacity, ops, n + 1);
      }
    }
  }

  lemma FirstThenPrefix<L>(s: MapModel<L>, capacity: nat, ops: seq<Operation<L>>, n: nat)
    requires 0 < n <= |ops|
    ensures MapRun(s, capacity, ops[..n]) == MapRun(MapStep(s, capacity, ops[0]), capacity, ops[1..][..n - 1])
  {
    assert ops[..n][0] == ops[0] && ops[..n][1..] == ops[1..][..n - 1];
  }

  /** No stored order is deleted while the table is full. */
  ghost predicate NeverDeletesFull<L>(m: map<OrderId, StoredOrder<L>>, capacity: nat, ops: seq<Operation<L>>)
    decreases |ops|
  {
    ops != [] ==>
      && (ops[0].Delete? && ops[0].orderId in m ==> |m| < capacity)
      && NeverDeletesFull(AfterOperation(m, capacity, ops[0]), capacity, ops[1..])
  }

  // ----- The table -----

  class OrderStore<L> {
    const slots: array<Slot<L>>
    const hash: OrderId -> nat
    var size: nat
    var peakSize: nat
    ghost var where: map<OrderId, nat>

    /** The finite map this table stands for. */
    ghost var contents: map<OrderId, StoredOrder<L>>

    ghost predicate Valid()
      reads this, slots
    {
      && slots.Length > 0
      && WellFormed(slots[..], where, hash, contents)
      && size == |contents| <= peakSize
    }

    constructor (capacity: nat, hash: OrderId -> nat)
      requires capacity > 0 && HashBelow(hash, capacity)
      ensures Valid() && fresh(slots) && slots.Length == capacity && this.hash == hash
      ensures contents == map[] && size == 0 && peakSize == 0
    {
      slots := new Slot<L>[capacity](_ => Empty);
      this.hash := hash;
      size, peakSize := 0, 0;
      where, contents := map[], map[];
    }

    /** The slot of `orderId`, or None. */
    method FindIndex(orderId: OrderId) returns (r: Option<nat>)
      requires Valid()
      ensures r.Some? <==> orderId in contents
      ensures r.Some? ==> r.value < slots.Length && where[orderId] == r.value
                          && slots[r.value].Occupied? && slots[r.value].stored == contents[orderId]
    {
      var n := slots.Length;
      var home := hash(orderId);
      var index: nat, probe: nat := home, 0;
      ghost var s := slots[..];
      while probe < n
        invariant 0 <= probe <= n && index < n
        invariant probe < n ==> Dist(n, home, index) == probe
        invariant Passed(s, orderId, home, probe)
      {
        if slots[index].Empty? {
          ProbeMisses(s, where, hash, orderId, index, probe);
          return None;
        }
        if slots[index].Id() == orderId {
          return Some(index);
        }
        ProbeOne(s, orderId, home, index, probe);
        index := Next(n, index);
        probe := probe + 1;
      }
      ProbedAll(s, where, orderId, home);
      return None;
    }

    method Contains(orderId: OrderId) returns (found: bool)
      requires Valid()
      ensures found <==> orderId in contents
    {
      var r := FindIndex(orderId);
      found := r.Some?;
    }

    /** Writing a new order into the first empty slot of its probe path. */
    method Occupy(index: nat, stored: StoredOrder<L>)
      requires Valid() && index < slots.Length && slots[index].Empty?
      requires stored.order.orderId !in where
      requires Passed(slots[..], stored.order.orderId, hash(stored.order.orderId),
                      Dist(slots.Length, hash(stored.order.orderId), index))
      modifies this, slots
      ensures Valid()
      ensures contents == old(contents)[stored.order.orderId := stored]
      ensures size == old(size) + 1
      ensures peakSize == if old(peakSize) < size then size else old(peakSize)
    {
      Fill(index, stored);
      size := size + 1;
      if size > peakSize {
        peakSize := size;
      }
    }

    method Fill(index: nat, stored: StoredOrder<L>)
      requires Valid() && index < slots.Length && slots[index].Empty?
      requires stored.order.orderId !in where
      requires Passed(slots[..], stored.order.orderId, hash(stored.order.orderId),
                      Dist(slots.Length, hash(stored.order.orderId), index))
      modifies this`where, this`contents, slots
      ensures WellFormed(slots[..], where, hash, contents)
      ensures contents == old(contents)[stored.order.orderId := stored] && |contents| == |old(contents)| + 1
    {
      InsertKeepsShape(slots[..], where, hash, index, stored, contents);
      ghost var filled := slots[..][index := Occupied(stored)];
      slots[index] := Occupied(stored);
      where, contents := where[stored.order.orderId := index], contents[stored.order.orderId := stored];
      assert slots[..] == filled;
    }

    /** Insert if absent: refused exactly when the id is stored already or no slot is free. */
    method Add(order: Order, level: L) returns (added: bool)
      requires Valid()
      modifies this, slots
      ensures Valid()
      ensures added <==> order.orderId !in old(contents) && old(size) < slots.Length
      ensures contents == if added then old(contents)[order.orderId := StoredOrder(order, level)] else old(contents)
      ensures size == |contents|
      ensures peakSize == if old(peakSize) < size then size else old(peakSize)
    {
      var free := FindFree(order.orderId);
      FullIffNoEmptySlot(slots[..], where);
      if free.None? {
        return false;
      }
      Occupy(free.value, StoredOrder(order, level));
      return true;
    }

    /** The probe loop of an insertion: the first empty slot on the path of an id that is not stored. */
    method FindFree(orderId: OrderId) returns (r: Option<nat>)
      requires Valid()
      ensures r.Some? ==> r.value < slots.Length && slots[r.value].Empty? && orderId !in where
                          && Passed(slots[..], orderId, hash(orderId), Dist(slots.Length, hash(orderId), r.value))
      ensures r.None? ==> orderId in where || forall k | 0 <= k < slots.Length :: slots[..][k].Occupied?
    {
      var n := slots.Length;
      var home := hash(orderId);
      var index: nat, probe: nat := home, 0;
      ghost var s := slots[..];
      while probe < n && slots[index].Occupied?
        invariant 0 <= probe <= n && index < n
        invariant probe < n ==> Dist(n, home, index) == probe
        invariant Passed(s, orderId, home, probe)
      {
        if slots[index].Id() == orderId {
          assert s[index].Id() in where;
          return None;
        }
        ProbeOne(s, orderId, home, index, probe);
        index := Next(n, index);
        probe := probe + 1;
      }
      if probe == n {
        ProbedAll(s, where, orderId, home);
        return None;
      }
      ProbeMisses(s, where, hash, orderId, index, probe);
      return Some(index);
    }

    /** The slot of a stored id holds its order. */
    lemma StoredAt(slot: nat, id: OrderId)
      requires Valid() && id in contents && slot == where[id]
      ensures slot < slots.Length && slots[slot].Occupied? && slots[slot].stored == contents[id]
    {
      assert slots[..][slot].Id() == id;
    }

    /** In-place change of what is left of a stored order. */
    method SetQuantity(slot: nat, quantity: Shares, ghost id: OrderId)
      requires Valid() && id in contents && slot == where[id]
      modifies this`contents, slots
      ensures Valid()
      ensures contents == WithLeft(old(contents), id, quantity)
    {
      var stored := slots[slot].stored;
      var changed := stored.(order := stored.order.(quantity := quantity));
      UpdateKeepsShape(slots[..], where, hash, slot, changed, contents);
      ghost var t := slots[..][slot := Occupied(changed)];
      slots[slot] := Occupied(changed);
      contents := contents[id := changed];
      assert slots[..] == t;
    }

    /** The table with the slot being vacated read as empty. */
    ghost function Without(hole: nat): seq<Slot<L>>
      reads this, slots
      requires hole < slots.Length
    {
      slots[..][hole := Empty]
    }

    /** One step of the scan: an order whose probe path crosses the hole moves into it. */
    method ShiftStep(hole: nat, current: nat, ghost empty: nat, ghost kept: map<OrderId, StoredOrder<L>>)
      returns (newHole: nat)
      requires hole < slots.Length && current < slots.Length && hole != current && slots[current].Occupied?
      requires Scanning(Without(hole), where, hash, hole, current, empty, kept)
      modifies this`where, slots
      ensures newHole < slots.Length
      ensures Scanning(Without(newHole), where, hash, newHole, Next(slots.Length, current), empty, kept)
      ensures (slots[..], newHole, Next(slots.Length, current)) == ScanStep(old(slots[..]), hash, hole, current)
    {
      var n := slots.Length;
      ghost var t := Without(hole);
      assert t[current] == slots[current];
      var home := hash(slots[current].Id());
      if Dist(n, home, hole) < Dist(n, home, current) {
        ScanMoves(t, where, hash, hole, current, empty, kept);
        where := where[slots[current].Id() := hole];
        slots[hole] := slots[current];
        assert Without(current) == t[hole := t[current]][current := Empty];
        return current;
      } else {
        ScanSkips(t, where, hash, hole, current, empty, kept);
        return hole;
      }
    }

    /** The scan, ending with the hole marked empty.  It stops at an empty slot, so one has to exist. */
    method ShiftBack(slot: nat, ghost empty: nat, ghost kept: map<OrderId, StoredOrder<L>>)
      requires slot < slots.Length
      requires Scanning(Without(slot), where, hash, slot, Next(slots.Length, slot), empty, kept)
      modifies this`where, slots
      ensures WellFormed(slots[..], where, hash, kept)
    {
      var hole: nat := slot;
      var current: nat := Next(slots.Length, hole);
      while slots[current].Occupied?
        modifies this`where, slots
        invariant hole < slots.Length && current < slots.Length
        invariant Scanning(Without(hole), where, hash, hole, current, empty, kept)
        decreases Dist(slots.Length, current, empty)
      {
        assert Without(hole)[current] == slots[current];
        OneCloser(slots.Length, current, empty);
        hole := ShiftStep(hole, current, empty, kept);
        current := Next(slots.Length, current);
      }
      CloseHole(hole, current, empty, kept);
    }

    /** The end of the scan: the hole becomes an empty slot. */
    method CloseHole(hole: nat, ghost current: nat, ghost empty: nat, ghost kept: map<OrderId, StoredOrder<L>>)
      requires hole < slots.Length && current < slots.Length && slots[current].Empty?
      requires Scanning(Without(hole), where, hash, hole, current, empty, kept)
      modifies slots
      ensures WellFormed(slots[..], where, hash, kept)
    {
      ghost var t := Without(hole);
      assert t[current] == slots[current];
      ScanEnds(t, where, hash, hole, current, empty, kept);
      slots[hole] := Empty;
      assert slots[..] == t;
    }

    /** Backward-shift deletion: exactly one id goes, every other id keeps its stored order. */
    method RemoveAt(slot: nat, ghost id: OrderId)
      requires Valid() && id in contents && slot == where[id]
      requires size < slots.Length
      modifies this`where, this`contents, this`size, slots
      ensures Valid()
      ensures contents == old(contents) - {id}
      ensures size == old(size) - 1
    {
      ghost var kept := contents - {id};
      ghost var empty := RemovalStarts(slots[..], where, hash, id, slot, contents);
      where, contents := where - {id}, kept;
      size := size - 1;
      assert size == |kept| <= peakSize;
      ghost var t := Without(slot);
      assert t == old(slots[..])[slot := Empty];
      ShiftBack(slot, empty, kept);
    }

    method Remove(orderId: OrderId) returns (removed: bool)
      requires Valid() && (orderId in contents ==> size < slots.Length)
      modifies this, slots
      ensures Valid()
      ensures removed <==> orderId in old(contents)
      ensures contents == old(contents) - {orderId}
      ensures size == |contents| && peakSize == old(peakSize)
    {
      var slot := FindIndex(orderId);
      if slot.None? {
        return false;
      }
      RemoveAt(slot.value, orderId);
      return true;
    }

    method Apply(op: Operation<L>) returns (answer: bool)
      requires Valid() && (op.Delete? && op.orderId in contents ==> size < slots.Length)
      modifies this, slots
      ensures Valid()
      ensures contents == AfterOperation(old(contents), slots.Length, op)
      ensures answer == AnswerTo(old(contents), slots.Length, op)
      ensures peakSize == if old(peakSize) < size then size else old(peakSize)
    {
      match op
      case Insert(order, level) => answer := Add(order, level);
      case Delete(orderId) => answer := Remove(orderId);
      case Lookup(orderId) => answer := Contains(orderId);
    }

    /** Any sequence of operations: the table answers and ends like the map, and its peak is the largest
        size that was ever reached. */
    method Perform(ops: seq<Operation<L>>) returns (answers: seq<bool>)
      requires Valid() && NeverDeletesFull(contents, slots.Length, ops)
      modifies this, slots
      ensures Valid()
      ensures MapModel(contents, answers, peakSize)
           == MapRun(MapModel(old(contents), [], old(peakSize)), slots.Length, ops)
    {
      answers := [];
      var i := 0;
      while i < |ops|
        invariant 0 <= i <= |ops| && Valid()
        invariant NeverDeletesFull(contents, slots.Length, ops[i..])
        invariant MapRun(MapModel(contents, answers, peakSize), slots.Length, ops[i..])
               == MapRun(MapModel(old(contents), [], old(peakSize)), slots.Length, ops)
      {
        assert ops[i..][0] == ops[i] && ops[i..][1..] == ops[i + 1..];
        var answer := Apply(ops[i]);
        answers := answers + [answer];
        i := i + 1;
      }
    }
  }
}
