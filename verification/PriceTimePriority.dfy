/** The limit order book on values: what an order, a trade and a book are, the matching the
    engine performs, and the price-time-priority rule it is meant to follow. */
module PriceTimePriority {
  import opened Wrappers

  datatype OrderType = GoodTillCancel | FillAndKill

  datatype Side = Buy | Sell

  type OrderId = nat

  datatype Ord = Ord(orderType: OrderType, id: OrderId, side: Side, price: int, initial: nat, remaining: nat)
  {
    function Fill(q: nat): Ord
      requires q <= remaining
    {
      this.(remaining := remaining - q)
    }
  }

  datatype TradeInfo = TradeInfo(id: OrderId, price: int, quantity: nat)

  datatype Trade = Trade(bid: TradeInfo, ask: TradeInfo)

  /** Both sides flattened: best price first, then arrival order within a price. */
  datatype Book = Book(bids: seq<Ord>, asks: seq<Ord>)
  {
    function Own(side: Side): seq<Ord> { if side == Buy then bids else asks }
    function Opposite(side: Side): seq<Ord> { if side == Buy then asks else bids }
    ghost function Size(): nat { |bids| + |asks| }
    ghost predicate Holds(id: OrderId) { HasId(bids, id) || HasId(asks, id) }
  }

  function FromSides(side: Side, own: seq<Ord>, opposite: seq<Ord>): Book {
    if side == Buy then Book(own, opposite) else Book(opposite, own)
  }

  function Min(a: nat, b: nat): nat { if a <= b then a else b }

  predicate Better(side: Side, p: int, q: int) {
    if side == Buy then p > q else p < q
  }

  /** A price on `side` that the other side's price `q` can trade with. */
  predicate Crosses(side: Side, p: int, q: int) {
    if side == Buy then p >= q else p <= q
  }

  ghost predicate HasId(s: seq<Ord>, id: OrderId) {
    exists i :: 0 <= i < |s| && s[i].id == id
  }

  ghost predicate Sorted(side: Side, s: seq<Ord>) {
    forall i, j :: 0 <= i < j < |s| ==> !Better(side, s[j].price, s[i].price)
  }

  ghost predicate AllOn(side: Side, s: seq<Ord>) {
    forall i :: 0 <= i < |s| ==> s[i].side == side
  }

  ghost predicate DistinctIds(s: seq<Ord>) {
    forall i, j :: 0 <= i < j < |s| ==> s[i].id != s[j].id
  }

  ghost predicate NoFillAndKill(s: seq<Ord>) {
    forall i :: 0 <= i < |s| ==> s[i].orderType == GoodTillCancel
  }

  ghost predicate SideInv(side: Side, s: seq<Ord>) {
    Sorted(side, s) && AllOn(side, s) && DistinctIds(s) && NoFillAndKill(s)
  }

  /** Every bid is priced below every ask. */
  ghost predicate Uncrossed(b: Book) {
    forall i, j :: 0 <= i < |b.bids| && 0 <= j < |b.asks| ==> b.bids[i].price < b.asks[j].price
  }

  ghost predicate DisjointIds(b: Book) {
    forall i, j :: 0 <= i < |b.bids| && 0 <= j < |b.asks| ==> b.bids[i].id != b.asks[j].id
  }

  /** What every public operation keeps. */
  ghost predicate Inv(b: Book) {
    SideInv(Buy, b.bids) && SideInv(Sell, b.asks) && DisjointIds(b) && Uncrossed(b)
  }

  // ---- What the engine does ----

  /** Behind every resting order of the same price, ahead of every worse one. */
  function Insert(side: Side, s: seq<Ord>, o: Ord): seq<Ord> {
    if s == [] || Better(side, o.price, s[0].price) then [o] + s
    else [s[0]] + Insert(side, s[1..], o)
  }

  function AfterFill(s: seq<Ord>, q: nat): seq<Ord>
    requires s != [] && q <= s[0].remaining
  {
    if s[0].remaining == q then s[1..] else [s[0].Fill(q)] + s[1..]
  }

  function TradeOf(bid: Ord, ask: Ord, q: nat): Trade {
    Trade(TradeInfo(bid.id, bid.price, q), TradeInfo(ask.id, ask.price, q))
  }

  datatype Outcome = Outcome(book: Book, trades: seq<Trade>)
  {
    function After(earlier: seq<Trade>): Outcome { Outcome(book, earlier + trades) }
  }

  /** Front against front until one side is empty or the fronts no longer cross. */
  function MatchAll(b: Book): Outcome
    decreases |b.bids| + |b.asks|
  {
    if b.bids == [] || b.asks == [] || b.bids[0].price < b.asks[0].price then
      Outcome(b, [])
    else
      var q := Min(b.bids[0].remaining, b.asks[0].remaining);
      MatchAll(Book(AfterFill(b.bids, q), AfterFill(b.asks, q)))
        .After([TradeOf(b.bids[0], b.asks[0], q)])
  }

  function Without(s: seq<Ord>, id: OrderId): seq<Ord> {
    if s == [] then [] else if s[0].id == id then s[1..] else [s[0]] + Without(s[1..], id)
  }

  function Cancel(b: Book, id: OrderId): Book {
    Book(Without(b.bids, id), Without(b.asks, id))
  }

  /** Only the front order is looked at. */
  function KillFront(s: seq<Ord>): seq<Ord> {
    if s != [] && s[0].orderType == FillAndKill then s[1..] else s
  }

  function MatchAndKill(b: Book): Outcome {
    var m := MatchAll(b);
    Outcome(Book(KillFront(m.book.bids), KillFront(m.book.asks)), m.trades)
  }

  predicate CanMatch(b: Book, side: Side, price: int) {
    b.Opposite(side) != [] && Crosses(side, price, b.Opposite(side)[0].price)
  }

  ghost predicate Rejected(b: Book, o: Ord) {
    b.Holds(o.id) || (o.orderType == FillAndKill && !CanMatch(b, o.side, o.price))
  }

  ghost function Add(b: Book, o: Ord): Outcome {
    if Rejected(b, o) then Outcome(b, [])
    else MatchAndKill(FromSides(o.side, Insert(o.side, b.Own(o.side), o), b.Opposite(o.side)))
  }

  ghost function Find(s: seq<Ord>, id: OrderId): Option<Ord> {
    if s == [] then None else if s[0].id == id then Some(s[0]) else Find(s[1..], id)
  }

  ghost function Lookup(b: Book, id: OrderId): Option<Ord> {
    var f := Find(b.bids, id);
    if f.Some? then f else Find(b.asks, id)
  }

  /** Cancel, then add again under the same id and order type. */
  ghost function Modify(b: Book, id: OrderId, side: Side, price: int, quantity: nat): Outcome {
    var found := Lookup(b, id);
    if found.None? then Outcome(b, [])
    else Add(Cancel(b, id), Ord(found.value.orderType, id, side, price, quantity, quantity))
  }

  // ---- The rule it is meant to follow ----

  datatype Swept = Swept(left: Option<Ord>, opposite: seq<Ord>, trades: seq<Trade>)

  function Pair(o: Ord, resting: Ord, q: nat): Trade {
    if o.side == Buy then TradeOf(o, resting, q) else TradeOf(resting, o, q)
  }

  /** The incoming order takes from the opposite side, best first, for as long as it crosses. */
  function Sweep(o: Ord, opposite: seq<Ord>): Swept
    decreases |opposite|
  {
    if opposite == [] || !Crosses(o.side, o.price, opposite[0].price) then
      Swept(Some(o), opposite, [])
    else
      var q := Min(o.remaining, opposite[0].remaining);
      var t := Pair(o, opposite[0], q);
      if o.remaining == q then Swept(None, AfterFill(opposite, q), [t])
      else
        var s := Sweep(o.Fill(q), opposite[1..]);
        s.(trades := [t] + s.trades)
  }

  /** Sweep; what is left of a GoodTillCancel order rests, what is left of a FillAndKill order
      is dropped; a FillAndKill order that cannot trade and a duplicate id change nothing. */
  ghost function PriceTime(b: Book, o: Ord): Outcome {
    if Rejected(b, o) then Outcome(b, [])
    else
      var s := Sweep(o, b.Opposite(o.side));
      var own := b.Own(o.side);
      var own' := if s.left.Some? && o.orderType == GoodTillCancel then Insert(o.side, own, s.left.value) else own;
      Outcome(FromSides(o.side, own', s.opposite), s.trades)
  }

  // ---- Insertion and removal ----

  /** Insertion is stable: everything at least as good stays ahead, everything worse stays behind. */
  lemma {:induction false} InsertSplits(side: Side, s: seq<Ord>, o: Ord) returns (k: nat)
    requires Sorted(side, s)
    ensures k <= |s| && Insert(side, s, o) == s[..k] + [o] + s[k..]
    ensures forall i :: 0 <= i < k ==> !Better(side, o.price, s[i].price)
    ensures forall i :: k <= i < |s| ==> Better(side, o.price, s[i].price)
  {
    if s == [] || Better(side, o.price, s[0].price) {
      k := 0;
    } else {
      var j := InsertSplits(side, s[1..], o);
      k := j + 1;
      assert s == [s[0]] + s[1..];
    }
  }

  lemma {:induction false} WithoutSplits(s: seq<Ord>, id: OrderId) returns (k: nat)
    ensures k <= |s| && forall i :: 0 <= i < k ==> s[i].id != id
    ensures k == |s| ==> Without(s, id) == s && Find(s, id) == None
    ensures k < |s| ==> s[k].id == id && Without(s, id) == s[..k] + s[k + 1..] && Find(s, id) == Some(s[k])
  {
    if s == [] || s[0].id == id {
      k := 0;
    } else {
      k := WithoutSplits(s[1..], id);
      if k < |s[1..]| {
        assert [s[0]] + (s[1..][..k] + s[1..][k + 1..]) == s[..k + 1] + s[k + 2..];
      }
      k := k + 1;
    }
  }

  // ---- Matching refines the sweep ----

  lemma MatchStops(b: Book)
    requires b.bids != [] && b.asks != [] ==> b.bids[0].price < b.asks[0].price
    ensures MatchAll(b) == Outcome(b, [])
  {
  }

  /** One trade between the fronts carries a run of matching one step further. */
  lemma MatchStep(start: Book, before: Book, ts: seq<Trade>)
    requires MatchAll(start) == MatchAll(before).After(ts)
    requires before.bids != [] && before.asks != [] && before.bids[0].price >= before.asks[0].price
    ensures var q := Min(before.bids[0].remaining, before.asks[0].remaining);
            MatchAll(start) == MatchAll(Book(AfterFill(before.bids, q), AfterFill(before.asks, q)))
                                 .After(ts + [TradeOf(before.bids[0], before.asks[0], q)])
  {
    var q := Min(before.bids[0].remaining, before.asks[0].remaining);
    var t := TradeOf(before.bids[0], before.asks[0], q);
    var rest := MatchAll(Book(AfterFill(before.bids, q), AfterFill(before.asks, q)));
    assert ts + ([t] + rest.trades) == (ts + [t]) + rest.trades;
  }

  lemma AfterAfter(start: Book, ts: seq<Trade>, m: Outcome, us: seq<Trade>, n: Outcome)
    requires MatchAll(start) == m.After(ts) && m == n.After(us)
    ensures MatchAll(start) == n.After(ts + us)
  {
    assert ts + (us + n.trades) == (ts + us) + n.trades;
  }

  /** With the incoming order at the front of its side and nothing behind it crossing, matching
      front against front is exactly the sweep. */
  lemma {:induction false} MatchIsSweep(o: Ord, own: seq<Ord>, opposite: seq<Ord>)
    requires Sorted(if o.side == Buy then Sell else Buy, opposite)
    requires Uncrossed(FromSides(o.side, own, opposite))
    ensures var s := Sweep(o, opposite);
            var own' := if s.left.Some? then [s.left.value] + own else own;
            MatchAll(FromSides(o.side, [o] + own, opposite)) == Outcome(FromSides(o.side, own', s.opposite), s.trades)
    decreases |opposite|
  {
    var b := FromSides(o.side, [o] + own, opposite);
    if opposite == [] || !Crosses(o.side, o.price, opposite[0].price) {
    } else {
      var q := Min(o.remaining, opposite[0].remaining);
      assert ([o] + own)[1..] == own;
      if o.remaining == q {
        MatchStops(FromSides(o.side, own, AfterFill(opposite, q)));
      } else {
        assert AfterFill([o] + own, q) == [o.Fill(q)] + own;
        MatchIsSweep(o.Fill(q), own, opposite[1..]);
      }
    }
  }

  lemma InsertAtFront(b: Book, o: Ord)
    requires Inv(b) && CanMatch(b, o.side, o.price)
    ensures Insert(o.side, b.Own(o.side), o) == [o] + b.Own(o.side)
  {
  }

  /** The sweep changes neither identity nor limit of the incoming order. */
  lemma {:induction false} SweepLeft(o: Ord, opposite: seq<Ord>)
    ensures var l := Sweep(o, opposite).left;
            l.Some? ==> l.value == o.(remaining := l.value.remaining) && l.value.remaining <= o.remaining
    decreases |opposite|
  {
    if opposite == [] || !Crosses(o.side, o.price, opposite[0].price) {
    } else {
      var q := Min(o.remaining, opposite[0].remaining);
      if o.remaining != q { SweepLeft(o.Fill(q), opposite[1..]); }
    }
  }

  /** Once swept, the opposite side is a suffix of what it was, up to a partial fill of its head. */
  lemma {:induction false} SweepSuffix(o: Ord, opposite: seq<Ord>) returns (k: nat)
    ensures k <= |opposite|
    ensures var s := Sweep(o, opposite);
            && |s.opposite| == |opposite| - k
            && (forall i :: 0 < i < |s.opposite| ==> s.opposite[i] == opposite[k + i])
            && (s.opposite != [] ==>
                  && s.opposite[0] == opposite[k].(remaining := s.opposite[0].remaining)
                  && s.opposite[0].remaining <= opposite[k].remaining)
    decreases |opposite|
  {
    k := 0;
    if opposite == [] || !Crosses(o.side, o.price, opposite[0].price) {
    } else {
      var q := Min(o.remaining, opposite[0].remaining);
      if o.remaining != q {
        var j := SweepSuffix(o.Fill(q), opposite[1..]);
        k := j + 1;
        assert Sweep(o, opposite).opposite == Sweep(o.Fill(q), opposite[1..]).opposite;
      } else if opposite[0].remaining == q {
        k := 1;
      }
    }
  }

  /** What is left of the incoming order no longer crosses what is left opposite. */
  lemma {:induction false} SweepUncrosses(o: Ord, opposite: seq<Ord>)
    ensures var s := Sweep(o, opposite);
            s.left.Some? && s.opposite != [] ==> !Crosses(o.side, o.price, s.opposite[0].price)
    decreases |opposite|
  {
    if opposite == [] || !Crosses(o.side, o.price, opposite[0].price) {
    } else {
      var q := Min(o.remaining, opposite[0].remaining);
      if o.remaining != q { SweepUncrosses(o.Fill(q), opposite[1..]); }
    }
  }

  /** Adding an order follows price-time priority, although the engine only ever compares the
      two fronts and afterwards looks for FillAndKill orders at the two fronts alone. */
  lemma AddRefinesPriceTime(b: Book, o: Ord)
    requires Inv(b)
    ensures Add(b, o) == PriceTime(b, o)
  {
    if !Rejected(b, o) {
      if CanMatch(b, o.side, o.price) {
        CrossingAddIsSweep(b, o);
      } else {
        RestingAddIsInsert(b, o);
      }
    }
  }

  lemma RestingAddIsInsert(b: Book, o: Ord)
    requires Inv(b) && !Rejected(b, o) && !CanMatch(b, o.side, o.price)
    ensures Add(b, o) == PriceTime(b, o)
  {
    var own := b.Own(o.side);
    assert Insert(o.side, own, o)[0] == o || (own != [] && Insert(o.side, own, o)[0] == own[0]);
    MatchStops(FromSides(o.side, Insert(o.side, own, o), b.Opposite(o.side)));
  }

  lemma CrossingAddIsSweep(b: Book, o: Ord)
    requires Inv(b) && !Rejected(b, o) && CanMatch(b, o.side, o.price)
    ensures Add(b, o) == PriceTime(b, o)
  {
    var own, opp := b.Own(o.side), b.Opposite(o.side);
    var s := Sweep(o, opp);
    InsertAtFront(b, o);
    MatchIsSweep(o, own, opp);
    SweepLeft(o, opp);
    var k := SweepSuffix(o, opp);
    assert KillFront(s.opposite) == s.opposite;
    assert KillFront(own) == own;
    if s.left.Some? {
      var l := s.left.value;
      assert Insert(o.side, own, l) == [l] + own;
      assert ([l] + own)[1..] == own;
    }
  }
}
