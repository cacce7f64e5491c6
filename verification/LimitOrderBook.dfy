/** The order book as the engine keeps it: two price-sorted maps of first-in-first-out lists of
    shared orders, and an index from order id to the order and its place in its list. Every public
    method is proved against its value-level counterpart in PriceTimePriority. */
module LimitOrderBook {
  import opened PriceTimePriority
  import OrderBookRuns
  import opened Wrappers

  class Order {
    const orderType: OrderType
    const orderId: OrderId
    const side: Side
    const price: int
    const initialQuantity: nat
    var remainingQuantity: nat

    constructor (orderType: OrderType, orderId: OrderId, side: Side, price: int, quantity: nat)
      ensures Value() == Ord(orderType, orderId, side, price, quantity, quantity)
    {
      this.orderType := orderType;
      this.orderId := orderId;
      this.side := side;
      this.price := price;
      initialQuantity := quantity;
      remainingQuantity := quantity;
    }

    function Value(): Ord
      reads this
    {
      Ord(orderType, orderId, side, price, initialQuantity, remainingQuantity)
    }

    predicate IsFilled()
      reads this
    {
      remainingQuantity == 0
    }

    /** `ok` is false where the original throws. */
    method Fill(quantity: nat) returns (ok: bool)
      modifies this
      ensures ok <==> quantity <= old(remainingQuantity)
      ensures Value() == if ok then old(Value()).Fill(quantity) else old(Value())
    {
      if quantity > remainingQuantity {
        return false;
      }
      remainingQuantity := remainingQuantity - quantity;
      return true;
    }
  }

  /** A cell of a linked list; the original's list iterators point at these. */
  class ListNode {
    const order: Order

    constructor (order: Order)
      ensures this.order == order
    {
      this.order := order;
    }
  }

  datatype Level = Level(price: int, orders: seq<ListNode>)

  datatype OrderEntry = OrderEntry(order: Order, location: ListNode)

  // ---- Levels: a sorted map from price to list ----

  ghost function Flat(ls: seq<Level>): seq<ListNode> {
    if ls == [] then [] else ls[0].orders + Flat(ls[1..])
  }

  ghost function Values(ns: seq<ListNode>): (vs: seq<Ord>)
    reads set n | n in ns :: n.order
    ensures |vs| == |ns| && forall i :: 0 <= i < |ns| ==> vs[i] == ns[i].order.Value()
  {
    seq(|ns|, i requires 0 <= i < |ns| reads set n | n in ns :: n.order => ns[i].order.Value())
  }

  ghost predicate GoodLevel(side: Side, l: Level) {
    l.orders != [] && forall n :: n in l.orders ==> n.order.price == l.price && n.order.side == side
  }

  /** Strictly best price first, no level empty. */
  ghost predicate GoodLevels(side: Side, ls: seq<Level>) {
    ls != [] ==>
      && GoodLevel(side, ls[0])
      && (|ls| > 1 ==> Better(side, ls[0].price, ls[1].price))
      && GoodLevels(side, ls[1..])
  }

  ghost predicate NoDuplicates(ns: seq<ListNode>) {
    forall i, j :: 0 <= i < j < |ns| ==> ns[i] != ns[j]
  }

  /** `map[price].push_back(node)`: a new level is created where the price belongs. */
  function PushBack(side: Side, ls: seq<Level>, price: int, node: ListNode): seq<Level> {
    if ls == [] || Better(side, price, ls[0].price) then [Level(price, [node])] + ls
    else if ls[0].price == price then [Level(price, ls[0].orders + [node])] + ls[1..]
    else [ls[0]] + PushBack(side, ls[1..], price, node)
  }

  predicate HasLevel(ls: seq<Level>, price: int) {
    exists i :: 0 <= i < |ls| && ls[i].price == price
  }

  /** `map.at(price)`, as a position. */
  function LevelAt(ls: seq<Level>, price: int): (i: nat)
    requires HasLevel(ls, price)
    ensures i < |ls| && ls[i].price == price
  {
    if ls[0].price == price then 0 else 1 + LevelAt(ls[1..], price)
  }

  function EraseNode(ns: seq<ListNode>, node: ListNode): seq<ListNode> {
    if ns == [] then [] else if ns[0] == node then ns[1..] else [ns[0]] + EraseNode(ns[1..], node)
  }

  /** `map.at(price).erase(node)`, dropping the level when its list becomes empty. */
  function EraseFromLevel(ls: seq<Level>, price: int, node: ListNode): seq<Level>
    requires HasLevel(ls, price)
  {
    if ls[0].price == price then
      var list := EraseNode(ls[0].orders, node);
      if list == [] then ls[1..] else [Level(price, list)] + ls[1..]
    else
      [ls[0]] + EraseFromLevel(ls[1..], price, node)
  }

  lemma FlatCons(l: Level, ls: seq<Level>)
    ensures Flat([l] + ls) == l.orders + Flat(ls)
  {
    assert ([l] + ls)[1..] == ls;
  }

  lemma {:induction false} FlatIsGood(side: Side, ls: seq<Level>, n: ListNode)
    requires GoodLevels(side, ls) && n in Flat(ls)
    ensures n.order.side == side && HasLevel(ls, n.order.price)
    ensures n in ls[LevelAt(ls, n.order.price)].orders
    ensures n.order.price == ls[0].price || Better(side, ls[0].price, n.order.price)
  {
    if n in ls[0].orders {
    } else {
      FlatIsGood(side, ls[1..], n);
      var i := LevelAt(ls[1..], n.order.price);
      assert ls[i + 1].price == n.order.price;
    }
  }

  /** Insertion goes wherever what is ahead is at least as good and what is behind is worse. */
  lemma {:induction false} InsertAt(side: Side, s: seq<Ord>, o: Ord, k: nat)
    requires k <= |s|
    requires forall i :: 0 <= i < k ==> !Better(side, o.price, s[i].price)
    requires forall i :: k <= i < |s| ==> Better(side, o.price, s[i].price)
    ensures Insert(side, s, o) == InsertedAt(s, k, o)
  {
    if k == 0 {
    } else {
      InsertAt(side, s[1..], o, k - 1);
      InsertedPast([s[0]], s[1..], k - 1, o);
      assert [s[0]] + s[1..] == s;
    }
  }

  lemma {:induction false} PushBackGood(side: Side, ls: seq<Level>, node: ListNode)
    requires GoodLevels(side, ls) && node.order.side == side
    ensures GoodLevels(side, PushBack(side, ls, node.order.price, node))
    ensures ls != [] && !Better(side, node.order.price, ls[0].price) ==>
              PushBack(side, ls, node.order.price, node)[0].price == ls[0].price
  {
    if ls == [] || !Better(side, ls[0].price, node.order.price) {
    } else {
      PushBackGood(side, ls[1..], node);
    }
  }

  ghost function InsertedAt<T>(s: seq<T>, k: nat, x: T): seq<T>
    requires k <= |s|
  {
    s[..k] + [x] + s[k..]
  }

  ghost function RemovedAt<T>(s: seq<T>, k: nat): seq<T>
    requires k < |s|
  {
    s[..k] + s[k + 1..]
  }

  lemma InsertedPast<T>(a: seq<T>, b: seq<T>, k: nat, x: T)
    requires k <= |b|
    ensures a + InsertedAt(b, k, x) == InsertedAt(a + b, |a| + k, x)
  {
  }

  lemma RemovedPast<T>(a: seq<T>, b: seq<T>, k: nat)
    requires k < |b|
    ensures a + RemovedAt(b, k) == RemovedAt(a + b, |a| + k)
  {
  }

  lemma RemovedWithin<T>(a: seq<T>, b: seq<T>, k: nat)
    requires k < |a|
    ensures RemovedAt(a, k) + b == RemovedAt(a + b, k)
  {
  }

  lemma {:induction false} FlatAllWorse(side: Side, ls: seq<Level>, price: int)
    requires GoodLevels(side, ls)
    requires ls != [] ==> Better(side, price, ls[0].price)
    ensures forall i :: 0 <= i < |Flat(ls)| ==> Better(side, price, Flat(ls)[i].order.price)
  {
    if ls == [] {
    } else {
      FlatAllWorse(side, ls[1..], price);
      forall i | 0 <= i < |Flat(ls)| ensures Better(side, price, Flat(ls)[i].order.price) {
        if i < |ls[0].orders| { assert ls[0].orders[i] in ls[0].orders; }
      }
    }
  }

  /** Where a new order of this price goes in the flattened side. */
  ghost function Place(side: Side, ls: seq<Level>, price: int): (k: nat)
    ensures k <= |Flat(ls)|
  {
    if ls == [] || Better(side, price, ls[0].price) then 0
    else if ls[0].price == price then |ls[0].orders|
    else |ls[0].orders| + Place(side, ls[1..], price)
  }

  lemma PushOntoFirst(side: Side, ls: seq<Level>, node: ListNode)
    requires ls != [] && ls[0].price == node.order.price
    ensures Flat(PushBack(side, ls, node.order.price, node)) == InsertedAt(Flat(ls), |ls[0].orders|, node)
  {
    var price, first, rest := node.order.price, ls[0].orders, Flat(ls[1..]);
    FlatCons(Level(price, first + [node]), ls[1..]);
    assert first + [node] + rest == InsertedAt(first + rest, |first|, node);
  }

  lemma {:induction false} PushBackAtPlace(side: Side, ls: seq<Level>, node: ListNode)
    ensures Flat(PushBack(side, ls, node.order.price, node))
            == InsertedAt(Flat(ls), Place(side, ls, node.order.price), node)
  {
    var price := node.order.price;
    if ls == [] || Better(side, price, ls[0].price) {
      FlatCons(Level(price, [node]), ls);
    } else if ls[0].price == price {
      PushOntoFirst(side, ls, node);
    } else {
      PushBackAtPlace(side, ls[1..], node);
      FlatCons(ls[0], PushBack(side, ls[1..], price, node));
      InsertedPast(ls[0].orders, Flat(ls[1..]), Place(side, ls[1..], price), node);
    }
  }

  /** The place is behind all that is at least as good and ahead of all that is worse. */
  lemma {:induction false} PlaceSplits(side: Side, ls: seq<Level>, price: int)
    requires GoodLevels(side, ls)
    ensures var k := Place(side, ls, price);
            && (forall i :: 0 <= i < k ==> !Better(side, price, Flat(ls)[i].order.price))
            && (forall i :: k <= i < |Flat(ls)| ==> Better(side, price, Flat(ls)[i].order.price))
  {
    if ls == [] || Better(side, price, ls[0].price) {
      FlatAllWorse(side, ls, price);
    } else {
      var first := ls[0].orders;
      assert forall i :: 0 <= i < |first| ==> first[i] in first;
      if ls[0].price == price {
        FlatAllWorse(side, ls[1..], price);
      } else {
        PlaceSplits(side, ls[1..], price);
      }
    }
  }

  lemma {:induction false} EraseNodeAt(ns: seq<ListNode>, node: ListNode) returns (k: nat)
    requires node in ns
    ensures k < |ns| && ns[k] == node && EraseNode(ns, node) == RemovedAt(ns, k)
  {
    if ns[0] == node {
      k := 0;
    } else {
      k := EraseNodeAt(ns[1..], node);
      RemovedPast([ns[0]], ns[1..], k);
      assert [ns[0]] + ns[1..] == ns;
      k := k + 1;
    }
  }

  lemma {:induction false} EraseNodeSubset(ns: seq<ListNode>, node: ListNode)
    ensures forall n :: n in EraseNode(ns, node) ==> n in ns
  {
    if ns == [] || ns[0] == node {
    } else {
      EraseNodeSubset(ns[1..], node);
    }
  }

  lemma {:induction false} EraseFromLevelGood(side: Side, ls: seq<Level>, price: int, node: ListNode)
    requires GoodLevels(side, ls) && HasLevel(ls, price)
    ensures var ls' := EraseFromLevel(ls, price, node);
            && GoodLevels(side, ls')
            && (ls' != [] ==> ls'[0].price == ls[0].price || Better(side, ls[0].price, ls'[0].price))
  {
    if ls[0].price == price {
      EraseNodeSubset(ls[0].orders, node);
    } else {
      EraseFromLevelGood(side, ls[1..], price, node);
    }
  }

  lemma EraseFromFirst(ls: seq<Level>, node: ListNode) returns (k: nat)
    requires ls != [] && ls[0].price == node.order.price && node in ls[0].orders
    ensures k < |Flat(ls)| && Flat(ls)[k] == node
    ensures Flat(EraseFromLevel(ls, node.order.price, node)) == RemovedAt(Flat(ls), k)
  {
    k := EraseNodeAt(ls[0].orders, node);
    RemovedWithin(ls[0].orders, Flat(ls[1..]), k);
    FlatCons(Level(ls[0].price, EraseNode(ls[0].orders, node)), ls[1..]);
  }

  lemma {:induction false} EraseFromLevelAt(ls: seq<Level>, node: ListNode) returns (k: nat)
    requires HasLevel(ls, node.order.price) && node in ls[LevelAt(ls, node.order.price)].orders
    ensures k < |Flat(ls)| && Flat(ls)[k] == node
    ensures Flat(EraseFromLevel(ls, node.order.price, node)) == RemovedAt(Flat(ls), k)
  {
    var price := node.order.price;
    if ls[0].price == price {
      k := EraseFromFirst(ls, node);
    } else {
      assert LevelAt(ls, price) == 1 + LevelAt(ls[1..], price);
      k := EraseFromLevelAt(ls[1..], node);
      RemovedPast(ls[0].orders, Flat(ls[1..]), k);
      FlatCons(ls[0], EraseFromLevel(ls[1..], price, node));
      k := |ls[0].orders| + k;
    }
  }

  // ---- The book ----

  /** The index knows every resting order and where it is, and nothing else. */
  ghost predicate IndexAgrees(orders: map<OrderId, OrderEntry>, bids: seq<ListNode>, asks: seq<ListNode>) {
    && (forall n :: n in bids ==> n.order.orderId in orders && orders[n.order.orderId] == OrderEntry(n.order, n))
    && (forall n :: n in asks ==> n.order.orderId in orders && orders[n.order.orderId] == OrderEntry(n.order, n))
    && (forall id :: id in orders ==>
          && orders[id].order.orderId == id && orders[id].location.order == orders[id].order
          && orders[id].location in if orders[id].order.side == Buy then bids else asks)
  }

  ghost predicate MembersWithout(t: seq<ListNode>, s: seq<ListNode>, node: ListNode) {
    NoDuplicates(t) && (forall n :: n in t ==> n in s && n != node) && (forall n :: n in s && n != node ==> n in t)
  }

  lemma RemovedMembers(s: seq<ListNode>, k: nat)
    requires k < |s| && NoDuplicates(s)
    ensures MembersWithout(RemovedAt(s, k), s, s[k])
  {
    var t := RemovedAt(s, k);
    assert forall i :: 0 <= i < |t| ==> t[i] == s[if i < k then i else i + 1];
    forall n | n in s && n != s[k] ensures n in t {
      var i :| 0 <= i < |s| && s[i] == n;
      assert t[if i < k then i else i - 1] == n;
    }
  }

  lemma IndexWithout(orders: map<OrderId, OrderEntry>, b: seq<ListNode>, a: seq<ListNode>,
                     b': seq<ListNode>, a': seq<ListNode>, node: ListNode)
    requires IndexAgrees(orders, b, a)
    requires MembersWithout(b', b, node) && MembersWithout(a', a, node)
    requires node in b || node in a
    ensures IndexAgrees(orders - {node.order.orderId}, b', a')
  {
  }

  lemma ValuesWithout(ns: seq<ListNode>, k: nat)
    requires k < |ns| && DistinctIds(Values(ns))
    ensures Without(Values(ns), ns[k].order.orderId) == Values(RemovedAt(ns, k))
  {
    var v, t := Values(ns), RemovedAt(ns, k);
    var j := WithoutSplits(v, ns[k].order.orderId);
    assert v[k].id == ns[k].order.orderId;
    assert j == k;
    forall i | 0 <= i < |t| ensures Values(t)[i] == Without(v, v[k].id)[i] {
      assert t[i] == ns[if i < k then i else i + 1];
    }
  }

  twostate lemma SameTail(ns: seq<ListNode>)
    requires ns != []
    requires forall i :: 0 < i < |ns| ==> unchanged(ns[i].order)
    ensures Values(ns) == [ns[0].order.Value()] + old(Values(ns))[1..]
  {
  }

  twostate lemma SameValues(ns: seq<ListNode>)
    requires forall n :: n in ns ==> unchanged(n.order)
    ensures Values(ns) == old(Values(ns))
  {
  }

  lemma WithoutAbsent(s: seq<Ord>, id: OrderId)
    requires !HasId(s, id)
    ensures Without(s, id) == s
  {
    var k := WithoutSplits(s, id);
  }

  /** Erasing a node from its level, seen from the flattened side. */
  lemma EraseOnSide(side: Side, ls: seq<Level>, node: ListNode)
    requires GoodLevels(side, ls) && NoDuplicates(Flat(ls)) && DistinctIds(Values(Flat(ls)))
    requires node in Flat(ls)
    ensures HasLevel(ls, node.order.price)
    ensures var ls' := EraseFromLevel(ls, node.order.price, node);
            && GoodLevels(side, ls') && MembersWithout(Flat(ls'), Flat(ls), node)
            && Values(Flat(ls')) == Without(Values(Flat(ls)), node.order.orderId)
  {
    FlatIsGood(side, ls, node);
    var k := EraseFromLevelAt(ls, node);
    EraseFromLevelGood(side, ls, node.order.price, node);
    RemovedMembers(Flat(ls), k);
    ValuesWithout(Flat(ls), k);
  }

  lemma InsertedMembers(s: seq<ListNode>, k: nat, node: ListNode)
    requires k <= |s| && NoDuplicates(s) && node !in s
    ensures NoDuplicates(InsertedAt(s, k, node))
    ensures forall n :: n in InsertedAt(s, k, node) <==> n in s || n == node
  {
    var t := InsertedAt(s, k, node);
    assert t[k] == node && forall i :: 0 <= i < |s| ==> t[if i < k then i else i + 1] == s[i];
  }

  lemma ValuesInserted(ns: seq<ListNode>, k: nat, node: ListNode)
    requires k <= |ns|
    ensures Values(InsertedAt(ns, k, node)) == InsertedAt(Values(ns), k, node.order.Value())
  {
  }

  /** Pushing a node onto its level, seen from the flattened side. */
  lemma PushOnSide(side: Side, ls: seq<Level>, node: ListNode)
    requires GoodLevels(side, ls) && NoDuplicates(Flat(ls))
    requires node !in Flat(ls) && node.order.side == side
    ensures var ls' := PushBack(side, ls, node.order.price, node);
            && GoodLevels(side, ls') && NoDuplicates(Flat(ls'))
            && (forall n :: n in Flat(ls') <==> n in Flat(ls) || n == node)
            && Values(Flat(ls')) == Insert(side, Values(Flat(ls)), node.order.Value())
  {
    var k := Place(side, ls, node.order.price);
    PushBackGood(side, ls, node);
    PushBackAtPlace(side, ls, node);
    InsertedMembers(Flat(ls), k, node);
    ValuesInserted(Flat(ls), k, node);
    var vs, o := Values(Flat(ls)), node.order.Value();
    assert Insert(side, vs, o) == InsertedAt(vs, k, o) by {
      PlaceSplits(side, ls, node.order.price);
      InsertAt(side, vs, o, k);
    }
  }

  lemma IndexWith(orders: map<OrderId, OrderEntry>, b: seq<ListNode>, a: seq<ListNode>,
                  b': seq<ListNode>, a': seq<ListNode>, node: ListNode)
    requires IndexAgrees(orders, b, a) && node.order.orderId !in orders
    requires forall n :: n in b' <==> n in b || (n == node && node.order.side == Buy)
    requires forall n :: n in a' <==> n in a || (n == node && node.order.side == Sell)
    ensures IndexAgrees(orders[node.order.orderId := OrderEntry(node.order, node)], b', a')
  {
  }

  /** Writing a shortened list back to the best level, erasing the level when the list is empty. */
  function StoreFront(ls: seq<Level>, list: seq<ListNode>): seq<Level>
    requires ls != []
  {
    if list == [] then ls[1..] else [Level(ls[0].price, list)] + ls[1..]
  }

  lemma StoreFrontGood(side: Side, ls: seq<Level>, list: seq<ListNode>)
    requires GoodLevels(side, ls) && ls != []
    requires forall n :: n in list ==> n in ls[0].orders
    ensures GoodLevels(side, StoreFront(ls, list))
    ensures Flat(StoreFront(ls, list)) == list + Flat(ls[1..])
  {
    if list != [] {
      assert GoodLevel(side, Level(ls[0].price, list));
      FlatCons(Level(ls[0].price, list), ls[1..]);
    }
  }

  lemma CancelFront(b: Book, side: Side)
    requires DisjointIds(b) && b.Own(side) != []
    ensures Cancel(b, b.Own(side)[0].id) == FromSides(side, b.Own(side)[1..], b.Opposite(side))
  {
    var opp := b.Opposite(side);
    assert forall i :: 0 <= i < |opp| ==> opp[i].id != b.Own(side)[0].id;
    WithoutAbsent(opp, b.Own(side)[0].id);
  }

  ghost function DropFilled(s: seq<Ord>): seq<Ord>
    requires s != []
  {
    if s[0].remaining == 0 then s[1..] else s
  }

  lemma FillThenDrop(s: seq<Ord>, q: nat)
    requires s != [] && q <= s[0].remaining
    ensures DropFilled([s[0].Fill(q)] + s[1..]) == AfterFill(s, q)
    ensures |AfterFill(s, q)| == if q == s[0].remaining then |s| - 1 else |s|
  {
    assert ([s[0].Fill(q)] + s[1..])[1..] == s[1..];
  }

  lemma FirstOfFlat(side: Side, ls: seq<Level>)
    requires GoodLevels(side, ls) && ls != []
    ensures ls[0].orders != [] && Flat(ls) != [] && Flat(ls)[0] == ls[0].orders[0]
    ensures Flat(ls)[1..] == ls[0].orders[1..] + Flat(ls[1..])
    ensures StoreFront(ls, ls[0].orders) == ls
  {
    assert GoodLevel(side, ls[0]);
  }

  lemma TailMembers(ns: seq<ListNode>)
    requires ns != [] && NoDuplicates(ns)
    ensures MembersWithout(ns[1..], ns, ns[0]) && Values(ns[1..]) == Values(ns)[1..]
  {
    RemovedMembers(ns, 0);
    assert RemovedAt(ns, 0) == ns[1..];
  }

  /** One of the two fronts is used up. */
  lemma TradeShrinks(b: Book)
    requires b.bids != [] && b.asks != []
    ensures var q := Min(b.bids[0].remaining, b.asks[0].remaining);
            Book(AfterFill(b.bids, q), AfterFill(b.asks, q)).Size() < b.Size()
  {
    FillThenDrop(b.bids, Min(b.bids[0].remaining, b.asks[0].remaining));
    FillThenDrop(b.asks, Min(b.bids[0].remaining, b.asks[0].remaining));
  }

  lemma StoreFrontPops(side: Side, ls: seq<Level>)
    requires GoodLevels(side, ls) && ls != [] && NoDuplicates(Flat(ls))
    ensures ls[0].orders != [] && Flat(ls) != [] && Flat(ls)[0] == ls[0].orders[0]
    ensures StoreFront(ls, ls[0].orders) == ls
    ensures var ls' := StoreFront(ls, ls[0].orders[1..]);
            && GoodLevels(side, ls') && Flat(ls') == Flat(ls)[1..]
            && MembersWithout(Flat(ls'), Flat(ls), Flat(ls)[0])
            && Values(Flat(ls')) == Values(Flat(ls))[1..]
  {
    FirstOfFlat(side, ls);
    StoreFrontGood(side, ls, ls[0].orders[1..]);
    TailMembers(Flat(ls));
  }

  lemma AbsentFromSide(side: Side, ls: seq<Level>, node: ListNode)
    requires GoodLevels(side, ls) && node.order.side != side && NoDuplicates(Flat(ls))
    ensures MembersWithout(Flat(ls), Flat(ls), node)
  {
    forall n | n in Flat(ls) ensures n != node { FlatIsGood(side, ls, n); }
  }

  /** No id of one side rests on the other. */
  lemma AbsentId(node: ListNode, own: seq<ListNode>, opposite: seq<ListNode>)
    requires node in own
    requires forall i, j :: 0 <= i < |own| && 0 <= j < |opposite| ==> own[i].order.orderId != opposite[j].order.orderId
    ensures !HasId(Values(opposite), node.order.orderId)
  {
  }

  class Orderbook {
    var bids: seq<Level>
    var asks: seq<Level>
    var orders: map<OrderId, OrderEntry>

    constructor ()
      ensures Valid() && Contents() == Book([], [])
    {
      bids, asks, orders := [], [], map[];
    }

    ghost predicate Valid()
      reads this
    {
      && GoodLevels(Buy, bids) && GoodLevels(Sell, asks)
      && NoDuplicates(Flat(bids)) && NoDuplicates(Flat(asks))
      && IndexAgrees(orders, Flat(bids), Flat(asks))
    }

    ghost function Nodes(): set<ListNode>
      reads this
    {
      (set n | n in Flat(bids)) + (set n | n in Flat(asks))
    }

    ghost function Resting(): set<Order>
      reads this
    {
      set n | n in Nodes() :: n.order
    }

    ghost function Contents(): Book
      reads this, Resting()
    {
      Book(Values(Flat(bids)), Values(Flat(asks)))
    }

    lemma SidesAreGood()
      requires Valid()
      ensures forall n :: n in Flat(bids) ==> n.order.side == Buy && HasLevel(bids, n.order.price)
      ensures forall n :: n in Flat(asks) ==> n.order.side == Sell && HasLevel(asks, n.order.price)
    {
      forall n | n in Flat(bids) ensures n.order.side == Buy && HasLevel(bids, n.order.price) {
        FlatIsGood(Buy, bids, n);
      }
      forall n | n in Flat(asks) ensures n.order.side == Sell && HasLevel(asks, n.order.price) {
        FlatIsGood(Sell, asks, n);
      }
    }

    lemma IdsAreDistinct()
      requires Valid()
      ensures DistinctIds(Values(Flat(bids))) && DistinctIds(Values(Flat(asks))) && DisjointIds(Contents())
      ensures forall id :: id in orders <==> Contents().Holds(id)
    {
      SidesAreGood();
      var b, a := Flat(bids), Flat(asks);
      forall i, j | 0 <= i < j < |b| ensures b[i].order.orderId != b[j].order.orderId {
        assert b[i] in b && b[j] in b;
      }
      forall i, j | 0 <= i < j < |a| ensures a[i].order.orderId != a[j].order.orderId {
        assert a[i] in a && a[j] in a;
      }
      forall i, j | 0 <= i < |b| && 0 <= j < |a| ensures b[i].order.orderId != a[j].order.orderId {
        assert b[i] in b && a[j] in a;
      }
      forall id ensures id in orders <==> Contents().Holds(id) {
        if id in orders {
          var n := orders[id].location;
          if n in b {
            var i :| 0 <= i < |b| && b[i] == n;
            assert Values(b)[i].id == id;
          } else {
            var i :| 0 <= i < |a| && a[i] == n;
            assert Values(a)[i].id == id;
          }
        }
        if HasId(Values(b), id) {
          var i :| 0 <= i < |b| && Values(b)[i].id == id;
          assert b[i] in b;
        }
        if HasId(Values(a), id) {
          var i :| 0 <= i < |a| && Values(a)[i].id == id;
          assert a[i] in a;
        }
      }
    }

    predicate CanMatch(side: Side, price: int)
      reads this
    {
      if side == Buy then asks != [] && price >= asks[0].price
      else bids != [] && price <= bids[0].price
    }

    lemma FrontsAgree()
      requires Valid()
      ensures bids != [] <==> Contents().bids != []
      ensures asks != [] <==> Contents().asks != []
      ensures bids != [] ==> bids[0].orders != [] && Flat(bids)[0] == bids[0].orders[0]
      ensures bids != [] ==> Contents().bids[0].price == bids[0].price
      ensures asks != [] ==> asks[0].orders != [] && Flat(asks)[0] == asks[0].orders[0]
      ensures asks != [] ==> Contents().asks[0].price == asks[0].price
    {
      if bids != [] { assert bids[0].orders[0] in bids[0].orders; }
      if asks != [] { assert asks[0].orders[0] in asks[0].orders; }
    }

    /** What the erasure of a resting order's cell leaves. */
    ghost predicate Erased(node: ListNode, bids': seq<Level>, asks': seq<Level>)
      reads this, Resting()
    {
      var id := node.order.orderId;
      && GoodLevels(Buy, bids') && GoodLevels(Sell, asks')
      && MembersWithout(Flat(bids'), Flat(bids), node) && MembersWithout(Flat(asks'), Flat(asks), node)
      && Values(Flat(bids')) == Without(Values(Flat(bids)), id)
      && Values(Flat(asks')) == Without(Values(Flat(asks)), id)
    }

    lemma EraseBid(node: ListNode)
      requires Valid() && node in Flat(bids)
      ensures node.order.side == Buy && HasLevel(bids, node.order.price)
      ensures Erased(node, EraseFromLevel(bids, node.order.price, node), asks)
    {
      IdsAreDistinct();
      SidesAreGood();
      EraseOnSide(Buy, bids, node);
      AbsentFromSide(Sell, asks, node);
      assert !HasId(Values(Flat(asks)), node.order.orderId) by { AbsentId(node, Flat(bids), Flat(asks)); }
      WithoutAbsent(Values(Flat(asks)), node.order.orderId);
    }

    lemma EraseAsk(node: ListNode)
      requires Valid() && node in Flat(asks)
      ensures node.order.side == Sell && HasLevel(asks, node.order.price)
      ensures Erased(node, bids, EraseFromLevel(asks, node.order.price, node))
    {
      IdsAreDistinct();
      SidesAreGood();
      EraseOnSide(Sell, asks, node);
      AbsentFromSide(Buy, bids, node);
      assert !HasId(Values(Flat(bids)), node.order.orderId) by { AbsentId(node, Flat(asks), Flat(bids)); }
      WithoutAbsent(Values(Flat(bids)), node.order.orderId);
    }

    method CancelOrder(orderId: OrderId)
      requires Valid()
      modifies this
      ensures Valid() && Nodes() <= old(Nodes())
      ensures Contents() == Cancel(old(Contents()), orderId)
    {
      ghost var b, a := Flat(bids), Flat(asks);
      if orderId !in orders {
        IdsAreDistinct();
        WithoutAbsent(Values(b), orderId);
        WithoutAbsent(Values(a), orderId);
        return;
      }
      var entry := orders[orderId];
      if entry.order.side == Sell {
        EraseAsk(entry.location);
        orders := orders - {orderId};
        asks := EraseFromLevel(asks, entry.order.price, entry.location);
      } else {
        EraseBid(entry.location);
        orders := orders - {orderId};
        bids := EraseFromLevel(bids, entry.order.price, entry.location);
      }
      SameValues(Flat(bids));
      SameValues(Flat(asks));
      IndexWithout(old(orders), b, a, Flat(bids), Flat(asks), entry.location);
    }

    /** Filling the two fronts touches no other resting order. */
    lemma FrontsAreApart(bid: Order, ask: Order)
      requires Valid() && Flat(bids) != [] && Flat(asks) != []
      requires bid == Flat(bids)[0].order && ask == Flat(asks)[0].order
      ensures bid != ask
      ensures forall i :: 0 < i < |Flat(bids)| ==> Flat(bids)[i].order !in {bid, ask}
      ensures forall i :: 0 < i < |Flat(asks)| ==> Flat(asks)[i].order !in {bid, ask}
    {
      IdsAreDistinct();
      var b, a := Contents().bids, Contents().asks;
      assert b[0].id != a[0].id;
      forall i | 0 < i < |Flat(bids)| ensures Flat(bids)[i].order !in {bid, ask} {
        assert b[i].id != b[0].id && b[i].id != a[0].id;
      }
      forall i | 0 < i < |Flat(asks)| ensures Flat(asks)[i].order !in {bid, ask} {
        assert a[i].id != a[0].id && b[0].id != a[i].id;
      }
    }

    /** The first half of one turn of the inner loop: the two front orders fill each other. */
    method FillFronts(bid: Order, ask: Order) returns (quantity: nat)
      requires Valid() && Flat(bids) != [] && Flat(asks) != []
      requires bid == Flat(bids)[0].order && ask == Flat(asks)[0].order
      modifies bid, ask
      ensures Valid()
      ensures quantity == Min(old(bid.remainingQuantity), old(ask.remainingQuantity))
      ensures Contents().bids == [old(Contents()).bids[0].Fill(quantity)] + old(Contents()).bids[1..]
      ensures Contents().asks == [old(Contents()).asks[0].Fill(quantity)] + old(Contents()).asks[1..]
    {
      ghost var b, a := Flat(bids), Flat(asks);
      FrontsAreApart(bid, ask);
      quantity := Min(bid.remainingQuantity, ask.remainingQuantity);
      var ok := bid.Fill(quantity);
      assert ok;
      ok := ask.Fill(quantity);
      assert ok;
      SameTail(b);
      SameTail(a);
    }

    /** What is left when the front bid leaves. */
    lemma FrontBidLeaves()
      requires Valid() && bids != []
      ensures bids[0].orders != [] && Flat(bids) != [] && Flat(bids)[0] == bids[0].orders[0]
      ensures StoreFront(bids, bids[0].orders) == bids
      ensures var ls := StoreFront(bids, bids[0].orders[1..]);
              && GoodLevels(Buy, ls) && MembersWithout(Flat(ls), Flat(bids), Flat(bids)[0])
              && Values(Flat(ls)) == Values(Flat(bids))[1..]
              && IndexAgrees(orders - {Flat(bids)[0].order.orderId}, Flat(ls), Flat(asks))
    {
      var node := Flat(bids)[0];
      StoreFrontPops(Buy, bids);
      AbsentFromSide(Sell, asks, node) by { FlatIsGood(Buy, bids, node); }
      IndexWithout(orders, Flat(bids), Flat(asks), Flat(StoreFront(bids, bids[0].orders[1..])), Flat(asks), node);
    }

    lemma FrontAskLeaves()
      requires Valid() && asks != []
      ensures asks[0].orders != [] && Flat(asks) != [] && Flat(asks)[0] == asks[0].orders[0]
      ensures StoreFront(asks, asks[0].orders) == asks
      ensures var ls := StoreFront(asks, asks[0].orders[1..]);
              && GoodLevels(Sell, ls) && MembersWithout(Flat(ls), Flat(asks), Flat(asks)[0])
              && Values(Flat(ls)) == Values(Flat(asks))[1..]
              && IndexAgrees(orders - {Flat(asks)[0].order.orderId}, Flat(bids), Flat(ls))
    {
      var node := Flat(asks)[0];
      StoreFrontPops(Sell, asks);
      AbsentFromSide(Buy, bids, node) by { FlatIsGood(Sell, asks, node); }
      IndexWithout(orders, Flat(bids), Flat(asks), Flat(bids), Flat(StoreFront(asks, asks[0].orders[1..])), node);
    }

    /** The second half: a filled front order leaves its list and the index, and an emptied level
        leaves its side. `list` is the list of the best level. */
    method PopFilledBid(list: seq<ListNode>) returns (list': seq<ListNode>)
      requires Valid() && Flat(bids) != [] && list == bids[0].orders
      modifies this
      ensures Valid() && Nodes() <= old(Nodes())
      ensures bids == StoreFront(old(bids), list') && asks == old(asks)
      ensures Contents().bids == DropFilled(old(Contents()).bids)
      ensures Contents().asks == old(Contents()).asks
    {
      FrontBidLeaves();
      var bid := list[0].order;
      list' := list;
      if bid.IsFilled() {
        list' := list[1..];
        orders := orders - {bid.orderId};
        bids := StoreFront(bids, list');
        SameValues(Flat(bids));
        SameValues(Flat(asks));
      }
    }

    method PopFilledAsk(list: seq<ListNode>) returns (list': seq<ListNode>)
      requires Valid() && Flat(asks) != [] && list == asks[0].orders
      modifies this
      ensures Valid() && Nodes() <= old(Nodes())
      ensures asks == StoreFront(old(asks), list') && bids == old(bids)
      ensures Contents().asks == DropFilled(old(Contents()).asks)
      ensures Contents().bids == old(Contents()).bids
    {
      FrontAskLeaves();
      var ask := list[0].order;
      list' := list;
      if ask.IsFilled() {
        list' := list[1..];
        orders := orders - {ask.orderId};
        asks := StoreFront(asks, list');
        SameValues(Flat(asks));
        SameValues(Flat(bids));
      }
    }

    /** One turn of the inner loop. */
    method TradeFronts(bidList: seq<ListNode>, askList: seq<ListNode>)
      returns (bidList': seq<ListNode>, askList': seq<ListNode>, trade: Trade)
      requires Valid() && Flat(bids) != [] && Flat(asks) != []
      requires bidList == bids[0].orders && askList == asks[0].orders
      modifies this, Resting()
      ensures Valid() && Nodes() <= old(Nodes())
      ensures bids == StoreFront(old(bids), bidList') && asks == StoreFront(old(asks), askList')
      ensures var b := old(Contents());
              var q := Min(b.bids[0].remaining, b.asks[0].remaining);
              && Contents() == Book(AfterFill(b.bids, q), AfterFill(b.asks, q))
              && trade == TradeOf(b.bids[0], b.asks[0], q)
    {
      FrontsAgree();
      ghost var b, a := Contents().bids, Contents().asks;
      var bid, ask := bidList[0].order, askList[0].order;
      assert b[0] == bid.Value() && a[0] == ask.Value();
      var quantity := FillFronts(bid, ask);
      FillThenDrop(b, quantity);
      FillThenDrop(a, quantity);
      bidList' := PopFilledBid(bidList);
      askList' := PopFilledAsk(askList);
      trade := Trade(TradeInfo(bid.orderId, bid.price, quantity), TradeInfo(ask.orderId, ask.price, quantity));
    }

    /** The two levels' lists trade until one of them is empty. */
    method MatchLevels(bidList: seq<ListNode>, askList: seq<ListNode>) returns (trades: seq<Trade>)
      requires Valid() && Flat(bids) != [] && Flat(asks) != []
      requires bidList == bids[0].orders && askList == asks[0].orders
      requires bids[0].price >= asks[0].price
      modifies this, Resting()
      ensures Valid() && Nodes() <= old(Nodes())
      ensures MatchAll(old(Contents())) == MatchAll(Contents()).After(trades)
      ensures Contents().Size() < old(Contents().Size())
    {
      FrontsAgree();
      trades := [];
      var bidLevel, askLevel := bidList, askList;
      ghost var bidPrice, askPrice := bids[0].price, asks[0].price;
      while bidLevel != [] && askLevel != []
        invariant Valid() && Nodes() <= old(Nodes())
        invariant MatchAll(old(Contents())) == MatchAll(Contents()).After(trades)
        invariant bidLevel != [] ==> bids != [] && bids[0] == Level(bidPrice, bidLevel)
        invariant askLevel != [] ==> asks != [] && asks[0] == Level(askPrice, askLevel)
        invariant Contents().Size() + |trades| <= old(Contents().Size())
        invariant trades == [] ==> bidLevel != [] && askLevel != []
        decreases Contents().Size()
      {
        FrontsAgree();
        MatchStep(old(Contents()), Contents(), trades);
        TradeShrinks(Contents());
        var trade;
        bidLevel, askLevel, trade := TradeFronts(bidLevel, askLevel);
        trades := trades + [trade];
      }
    }

    method MatchOrders() returns (trades: seq<Trade>)
      requires Valid()
      modifies this, Resting()
      ensures Valid() && Nodes() <= old(Nodes())
      ensures Outcome(Contents(), trades) == MatchAndKill(old(Contents()))
    {
      trades := [];
      while true
        invariant Valid() && Nodes() <= old(Nodes())
        invariant MatchAll(old(Contents())) == MatchAll(Contents()).After(trades)
        decreases Contents().Size()
      {
        FrontsAgree();
        if bids == [] || asks == [] {
          break;
        }
        if bids[0].price < asks[0].price {
          break;
        }
        ghost var before := MatchAll(Contents());
        var more := MatchLevels(bids[0].orders, asks[0].orders);
        AfterAfter(old(Contents()), trades, before, more, MatchAll(Contents()));
        trades := trades + more;
      }
      MatchStops(Contents());
      assert trades + [] == trades;
      assert MatchAll(old(Contents())) == Outcome(Contents(), trades);
      KillFronts();
    }

    /** The two front orders leave the book if they may not rest. */
    method KillFronts()
      requires Valid()
      modifies this
      ensures Valid() && Nodes() <= old(Nodes())
      ensures Contents() == Book(KillFront(old(Contents()).bids), KillFront(old(Contents()).asks))
    {
      if bids != [] {
        FrontsAgree();
        var order := bids[0].orders[0].order;
        if order.orderType == FillAndKill {
          IdsAreDistinct();
          CancelFront(Contents(), Buy);
          CancelOrder(order.orderId);
        }
      }
      if asks != [] {
        FrontsAgree();
        var order := asks[0].orders[0].order;
        if order.orderType == FillAndKill {
          IdsAreDistinct();
          CancelFront(Contents(), Sell);
          CancelOrder(order.orderId);
        }
      }
    }

    /** The order joins the end of its level's list and the index. */
    method Enter(order: Order)
      requires Valid() && order.orderId !in orders
      modifies this
      ensures Valid() && Resting() <= old(Resting()) + {order}
      ensures var b, side := old(Contents()), order.side;
              Contents() == FromSides(side, Insert(side, b.Own(side), order.Value()), b.Opposite(side))
    {
      var node := new ListNode(order);
      ghost var b, a := Flat(bids), Flat(asks);
      SameValues(b);
      SameValues(a);
      label Made:
      if order.side == Buy {
        PushOnSide(Buy, bids, node);
        bids := PushBack(Buy, bids, order.price, node);
      } else {
        PushOnSide(Sell, asks, node);
        asks := PushBack(Sell, asks, order.price, node);
      }
      orders := orders[order.orderId := OrderEntry(order, node)];
      SameValues@Made(Flat(bids));
      SameValues@Made(Flat(asks));
      IndexWith(old(orders), b, a, Flat(bids), Flat(asks), node);
    }

    method AddOrder(order: Order) returns (trades: seq<Trade>)
      requires Valid()
      modifies this, Resting(), order
      ensures Valid() && Resting() <= old(Resting()) + {order}
      ensures Outcome(Contents(), trades) == Add(old(Contents()), old(order.Value()))
      ensures Inv(old(Contents())) ==>
                OrderBookRuns.Serves(old(Contents()), old(order.Value()), Outcome(Contents(), trades))
    {
      if Inv(Contents()) {
        OrderBookRuns.AddServes(Contents(), order.Value());
      }
      IdsAreDistinct();
      FrontsAgree();
      if order.orderId in orders {
        return [];
      }
      if order.orderType == FillAndKill && !CanMatch(order.side, order.price) {
        return [];
      }
      Enter(order);
      trades := MatchOrders();
    }

    lemma IndexFinds(id: OrderId)
      requires Valid()
      ensures id in orders <==> Lookup(Contents(), id).Some?
      ensures id in orders ==> Lookup(Contents(), id).value.orderType == orders[id].order.orderType
    {
      IdsAreDistinct();
      var b, a := Flat(bids), Flat(asks);
      var i := WithoutSplits(Values(b), id);
      var j := WithoutSplits(Values(a), id);
      if i < |b| { assert b[i] in b; }
      if j < |a| { assert a[j] in a; }
    }

    /** Adds an order made for the purpose. */
    method AddNew(orderType: OrderType, orderId: OrderId, side: Side, price: int, quantity: nat)
      returns (trades: seq<Trade>, ghost order: Order)
      requires Valid()
      modifies this, Resting()
      ensures Valid() && fresh(order) && Resting() <= old(Resting()) + {order}
      ensures var o := Ord(orderType, orderId, side, price, quantity, quantity);
              Outcome(Contents(), trades) == Add(old(Contents()), o)
    {
      var made := new Order(orderType, orderId, side, price, quantity);
      trades := AddOrder(made);
      order := made;
    }

    /** Cancel and re-enter under the same id; the order type comes from the order already resting. */
    method MatchOrder(orderId: OrderId, side: Side, price: int, quantity: nat) returns (trades: seq<Trade>)
      requires Valid()
      modifies this, Resting()
      ensures Valid() && fresh(Resting() - old(Resting()))
      ensures Outcome(Contents(), trades) == Modify(old(Contents()), orderId, side, price, quantity)
    {
      IndexFinds(orderId);
      if orderId !in orders {
        return [];
      }
      var existingOrder := orders[orderId].order;
      ghost var before := Resting();
      CancelOrder(orderId);
      assert Resting() <= before;
      ghost var order;
      trades, order := AddNew(existingOrder.orderType, orderId, side, price, quantity);
      assert Resting() - before <= {order};
    }
  }
}
