/** What price-time priority guarantees: the exact trades of one order, the facts every operation
    keeps, and the quantity ledger of a whole run. */
module OrderBookRuns {
  import opened PriceTimePriority
  import opened Wrappers

  // ---- One incoming order ----

  ghost function Quantity(ts: seq<Trade>): nat {
    if ts == [] then 0 else ts[0].ask.quantity + Quantity(ts[1..])
  }

  /** Everything resting opposite that `o` may trade with. */
  ghost function Available(o: Ord, opposite: seq<Ord>): nat {
    if opposite == [] then 0
    else
      (if Crosses(o.side, o.price, opposite[0].price) then opposite[0].remaining else 0)
      + Available(o, opposite[1..])
  }

  ghost function OtherSide(side: Side): Side { if side == Buy then Sell else Buy }

  lemma {:induction false} NothingAvailable(o: Ord, opposite: seq<Ord>)
    requires Sorted(OtherSide(o.side), opposite)
    requires opposite != [] ==> !Crosses(o.side, o.price, opposite[0].price)
    ensures Available(o, opposite) == 0
  {
    if opposite == [] {
    } else {
      NothingAvailable(o, opposite[1..]);
    }
  }

  /** An order trades as much as it possibly can: its own quantity or all that crosses. */
  lemma {:induction false} SweepTradesAllItCan(o: Ord, opposite: seq<Ord>)
    requires Sorted(OtherSide(o.side), opposite)
    ensures Quantity(Sweep(o, opposite).trades) == Min(o.remaining, Available(o, opposite))
    ensures Sweep(o, opposite).left.Some? ==>
              Sweep(o, opposite).left.value.remaining == o.remaining - Quantity(Sweep(o, opposite).trades)
    decreases |opposite|
  {
    if opposite == [] || !Crosses(o.side, o.price, opposite[0].price) {
      NothingAvailable(o, opposite);
    } else {
      var q := Min(o.remaining, opposite[0].remaining);
      if o.remaining != q {
        var rest := Sweep(o.Fill(q), opposite[1..]);
        SweepTradesAllItCan(o.Fill(q), opposite[1..]);
        SameAvailable(o, o.Fill(q), opposite[1..]);
        assert ([Pair(o, opposite[0], q)] + rest.trades)[1..] == rest.trades;
      }
    }
  }

  lemma {:induction false} SameAvailable(o: Ord, p: Ord, opposite: seq<Ord>)
    requires o.side == p.side && o.price == p.price
    ensures Available(o, opposite) == Available(p, opposite)
  {
    if opposite == [] {
    } else {
      SameAvailable(o, p, opposite[1..]);
    }
  }

  /** The i-th trade is with the i-th opposite order in priority, for the smaller of what the two
      still have; an opposite order is passed over only when it is used up. */
  lemma {:induction false} SweepTradesInPriority(o: Ord, opposite: seq<Ord>, i: nat)
    requires i < |Sweep(o, opposite).trades|
    ensures var ts := Sweep(o, opposite).trades;
            && i < |opposite| && Quantity(ts[..i]) <= o.remaining
            && Crosses(o.side, o.price, opposite[i].price)
            && ts[i] == Pair(o, opposite[i], Min(o.remaining - Quantity(ts[..i]), opposite[i].remaining))
            && (i + 1 < |ts| ==> ts[i].ask.quantity == opposite[i].remaining)
    decreases i
  {
    var q := Min(o.remaining, opposite[0].remaining);
    var ts := Sweep(o, opposite).trades;
    if i == 0 {
    } else {
      var rest := Sweep(o.Fill(q), opposite[1..]);
      SweepTradesInPriority(o.Fill(q), opposite[1..], i - 1);
      assert ts == [Pair(o, opposite[0], q)] + rest.trades;
      assert ts[..i][1..] == rest.trades[..i - 1];
    }
  }

  /** Something is left of the order exactly when it has more than can be traded, or nothing crosses. */
  lemma {:induction false} SweepLeavesIff(o: Ord, opposite: seq<Ord>)
    requires Sorted(OtherSide(o.side), opposite)
    ensures Sweep(o, opposite).left.Some? <==>
            || o.remaining > Available(o, opposite)
            || opposite == [] || !Crosses(o.side, o.price, opposite[0].price)
    decreases |opposite|
  {
    if opposite == [] || !Crosses(o.side, o.price, opposite[0].price) {
    } else if o.remaining > opposite[0].remaining {
      var p := o.Fill(opposite[0].remaining);
      SweepLeavesIff(p, opposite[1..]);
      SameAvailable(o, p, opposite[1..]);
      if opposite[1..] != [] && !Crosses(p.side, p.price, opposite[1..][0].price) {
        NothingAvailable(p, opposite[1..]);
      }
    }
  }

  // ---- What adding an order promises ----

  /** Trade by trade the order gives its own id and limit price, its counterparty the id and limit
      price of the next resting order, and both the same quantity; every counterparty but the last is
      used up. */
  ghost predicate TradesWith(o: Ord, opposite: seq<Ord>, ts: seq<Trade>) {
    && |ts| <= |opposite|
    && forall i :: 0 <= i < |ts| ==>
         var own := if o.side == Buy then ts[i].bid else ts[i].ask;
         var other := if o.side == Buy then ts[i].ask else ts[i].bid;
         && own == TradeInfo(o.id, o.price, own.quantity)
         && other == TradeInfo(opposite[i].id, opposite[i].price, own.quantity)
         && own.quantity <= opposite[i].remaining
         && (i + 1 < |ts| ==> own.quantity == opposite[i].remaining)
  }

  /** What is left rests, in its place, unless it is FillAndKill. */
  ghost predicate RestsRemainder(b: Book, o: Ord, b': Book) {
    var own, opposite := b.Own(o.side), b.Opposite(o.side);
    var available := Available(o, opposite);
    var crosses := opposite != [] && Crosses(o.side, o.price, opposite[0].price);
    b'.Own(o.side) ==
    if o.orderType == GoodTillCancel && (o.remaining > available || !crosses)
    then Insert(o.side, own, o.(remaining := o.remaining - Min(o.remaining, available)))
    else own
  }

  /** The opposite side loses a prefix, and its new head what it traded. */
  ghost predicate LosesPrefix(opposite: seq<Ord>, opposite': seq<Ord>) {
    |opposite'| <= |opposite| &&
    var k := |opposite| - |opposite'|;
    && (opposite' != [] ==> opposite'[0] == opposite[k].(remaining := opposite'[0].remaining))
    && forall i :: 0 < i < |opposite'| ==> opposite'[i] == opposite[k + i]
  }

  /** What an addition does: nothing if the id already rests; otherwise the order trades all it can,
      in priority, whichever its type, and what is left rests or is dropped. */
  ghost predicate Serves(b: Book, o: Ord, r: Outcome) {
    if b.Holds(o.id) then r == Outcome(b, [])
    else
      var opposite := b.Opposite(o.side);
      && Quantity(r.trades) == Min(o.remaining, Available(o, opposite))
      && TradesWith(o, opposite, r.trades)
      && RestsRemainder(b, o, r.book)
      && LosesPrefix(opposite, r.book.Opposite(o.side))
  }

  lemma SweepTradesWith(o: Ord, opposite: seq<Ord>)
    ensures TradesWith(o, opposite, Sweep(o, opposite).trades)
  {
    var ts := Sweep(o, opposite).trades;
    if ts != [] {
      SweepTradesInPriority(o, opposite, |ts| - 1);
    }
    forall i | 0 <= i < |ts|
      ensures ts[i] == Pair(o, opposite[i], ts[i].ask.quantity) && ts[i].ask.quantity <= opposite[i].remaining
      ensures i + 1 < |ts| ==> ts[i].ask.quantity == opposite[i].remaining
    {
      SweepTradesInPriority(o, opposite, i);
    }
  }

  lemma AddServes(b: Book, o: Ord)
    requires Inv(b)
    ensures Serves(b, o, Add(b, o))
  {
    AddRefinesPriceTime(b, o);
    if !b.Holds(o.id) {
      if Rejected(b, o) {
        NothingAvailable(o, b.Opposite(o.side));
      } else {
        SweepServes(b, o);
      }
    }
  }

  lemma SweepRests(o: Ord, own: seq<Ord>, opposite: seq<Ord>)
    requires Sorted(OtherSide(o.side), opposite)
    ensures var s := Sweep(o, opposite);
            var rests := s.left.Some? && o.orderType == GoodTillCancel;
            var own' := if rests then Insert(o.side, own, s.left.value) else own;
            RestsRemainder(FromSides(o.side, own, opposite), o, FromSides(o.side, own', s.opposite))
  {
    SweepTradesAllItCan(o, opposite);
    SweepLeavesIff(o, opposite);
    SweepLeft(o, opposite);
  }

  lemma SweepLosesPrefix(o: Ord, opposite: seq<Ord>)
    ensures LosesPrefix(opposite, Sweep(o, opposite).opposite)
  {
    var k := SweepSuffix(o, opposite);
  }

  lemma SweepServes(b: Book, o: Ord)
    requires Inv(b) && !Rejected(b, o)
    ensures Serves(b, o, PriceTime(b, o))
  {
    SweepTradesAllItCan(o, b.Opposite(o.side));
    SweepTradesWith(o, b.Opposite(o.side));
    SweepLosesPrefix(o, b.Opposite(o.side));
    SweepRests(o, b.Own(o.side), b.Opposite(o.side));
  }

  // ---- What one operation keeps ----

  ghost predicate Stems(o: Ord, s: seq<Ord>) {
    exists m :: 0 <= m < |s| && o.id == s[m].id && o.price == s[m].price
  }

  /** Every order of `t` has the id and the price of one of `s`. */
  ghost predicate DrawnFrom(t: seq<Ord>, s: seq<Ord>) {
    forall n :: 0 <= n < |t| ==> Stems(t[n], s)
  }

  lemma DrawnKeepsApart(b: Book, b': Book)
    requires DisjointIds(b) && Uncrossed(b)
    requires DrawnFrom(b'.bids, b.bids) && DrawnFrom(b'.asks, b.asks)
    ensures DisjointIds(b') && Uncrossed(b')
    ensures forall id :: b'.Holds(id) ==> b.Holds(id)
  {
  }

  lemma SuffixKeepsSide(side: Side, s: seq<Ord>, t: seq<Ord>, k: nat)
    requires SideInv(side, s)
    requires k <= |s| && |t| == |s| - k && forall i :: 0 < i < |t| ==> t[i] == s[k + i]
    requires t != [] ==> t[0] == s[k].(remaining := t[0].remaining)
    ensures SideInv(side, t) && DrawnFrom(t, s)
  {
    assert forall i :: 0 <= i < |t| ==> t[i] == s[k + i].(remaining := t[i].remaining);
  }

  lemma InsertKeepsSide(side: Side, s: seq<Ord>, o: Ord)
    requires SideInv(side, s) && !HasId(s, o.id) && o.orderType == GoodTillCancel && o.side == side
    ensures SideInv(side, Insert(side, s, o))
  {
    var k := InsertSplits(side, s, o);
    var t := Insert(side, s, o);
    assert t[k] == o && forall i :: 0 <= i < k ==> t[i] == s[i];
    assert forall i :: k < i < |t| ==> t[i] == s[i - 1];
    forall i, j | 0 <= i < j < |t|
      ensures t[i].id != t[j].id && !Better(side, t[j].price, t[i].price)
    {
      var x, y := if i <= k then i else i - 1, if j <= k then j else j - 1;
      if i == k {
        assert s[y].id != o.id;
      } else if j == k {
        assert s[x].id != o.id;
      } else {
        assert s[x].id != s[y].id;
      }
    }
  }

  lemma {:induction false} InsertMembers(side: Side, s: seq<Ord>, o: Ord)
    ensures forall i :: 0 <= i < |Insert(side, s, o)| ==> Insert(side, s, o)[i] == o || Insert(side, s, o)[i] in s
  {
    if s == [] || Better(side, o.price, s[0].price) {
    } else {
      InsertMembers(side, s[1..], o);
    }
  }

  lemma RemovalKeepsSide(side: Side, s: seq<Ord>, k: nat)
    requires SideInv(side, s) && k < |s|
    ensures var t := s[..k] + s[k + 1..]; SideInv(side, t) && DrawnFrom(t, s) && !HasId(t, s[k].id)
  {
    var t := s[..k] + s[k + 1..];
    forall n | 0 <= n < |t| ensures Stems(t[n], s) && t[n].id != s[k].id {
      if n < k {
        assert t[n] == s[n] && s[n].id != s[k].id;
      } else {
        assert t[n] == s[n + 1] && s[k].id != s[n + 1].id;
      }
    }
    assert SideInv(side, t) by {
      assert forall n :: 0 <= n < |t| ==> t[n] == s[if n < k then n else n + 1];
    }
  }

  lemma WithoutKeepsSide(side: Side, s: seq<Ord>, id: OrderId)
    requires SideInv(side, s)
    ensures SideInv(side, Without(s, id)) && DrawnFrom(Without(s, id), s) && !HasId(Without(s, id), id)
  {
    var k := WithoutSplits(s, id);
    if k < |s| {
      RemovalKeepsSide(side, s, k);
    }
  }

  /** What the sweep leaves opposite goes with the side of the incoming order as it was. */
  lemma SweepKeepsInv(b: Book, o: Ord)
    requires Inv(b)
    ensures var b' := FromSides(o.side, b.Own(o.side), Sweep(o, b.Opposite(o.side)).opposite);
            Inv(b') && forall id :: b'.Holds(id) ==> b.Holds(id)
  {
    var own, opp := b.Own(o.side), b.Opposite(o.side);
    var k := SweepSuffix(o, opp);
    SuffixKeepsSide(OtherSide(o.side), opp, Sweep(o, opp).opposite, k);
    assert DrawnFrom(own, own);
    DrawnKeepsApart(b, FromSides(o.side, own, Sweep(o, opp).opposite));
  }

  lemma AddKeepsInv(b: Book, o: Ord)
    requires Inv(b)
    ensures Inv(Add(b, o).book)
  {
    AddRefinesPriceTime(b, o);
    if !Rejected(b, o) {
      var s := Sweep(o, b.Opposite(o.side));
      SweepKeepsInv(b, o);
      if s.left.Some? && o.orderType == GoodTillCancel {
        SweepLeft(o, b.Opposite(o.side));
        SweepUncrosses(o, b.Opposite(o.side));
        RestKeepsInv(FromSides(o.side, b.Own(o.side), s.opposite), s.left.value);
      }
    }
  }

  lemma RestKeepsInv(b: Book, o: Ord)
    requires Inv(b) && !b.Holds(o.id) && o.orderType == GoodTillCancel
    requires b.Opposite(o.side) != [] ==> !Crosses(o.side, o.price, b.Opposite(o.side)[0].price)
    ensures Inv(FromSides(o.side, Insert(o.side, b.Own(o.side), o), b.Opposite(o.side)))
  {
    var own, opp := b.Own(o.side), b.Opposite(o.side);
    var own' := Insert(o.side, own, o);
    InsertKeepsSide(o.side, own, o);
    InsertMembers(o.side, own, o);
    forall i, j | 0 <= i < |own'| && 0 <= j < |opp|
      ensures own'[i].id != opp[j].id && !Crosses(o.side, own'[i].price, opp[j].price)
    {
      if own'[i] == o {
        assert HasId(opp, opp[j].id);
        assert j == 0 || !Better(OtherSide(o.side), opp[j].price, opp[0].price);
      } else {
        var m :| 0 <= m < |own| && own[m] == own'[i];
      }
    }
  }

  lemma CancelKeepsInv(b: Book, id: OrderId)
    requires Inv(b)
    ensures Inv(Cancel(b, id)) && !Cancel(b, id).Holds(id)
  {
    WithoutKeepsSide(Buy, b.bids, id);
    WithoutKeepsSide(Sell, b.asks, id);
    DrawnKeepsApart(b, Cancel(b, id));
  }

  /** The order type is read from a resting order, so it is GoodTillCancel, and the id has just been
      freed: a modification of a live order always enters the book again. */
  lemma ModifyAlwaysReAdds(b: Book, id: OrderId, side: Side, price: int, quantity: nat)
    requires Inv(b)
    ensures Lookup(b, id).Some? <==> b.Holds(id)
    ensures !b.Holds(id) ==> Modify(b, id, side, price, quantity) == Outcome(b, [])
    ensures b.Holds(id) ==>
              var o := Ord(GoodTillCancel, id, side, price, quantity, quantity);
              !Rejected(Cancel(b, id), o) && Modify(b, id, side, price, quantity) == PriceTime(Cancel(b, id), o)
  {
    var i := WithoutSplits(b.bids, id);
    var j := WithoutSplits(b.asks, id);
    CancelKeepsInv(b, id);
    if b.Holds(id) {
      AddRefinesPriceTime(Cancel(b, id), Ord(GoodTillCancel, id, side, price, quantity, quantity));
    }
  }

  // ---- Runs ----

  datatype Op =
    | AddOp(order: Ord)
    | CancelOp(id: OrderId)
    | ModifyOp(id: OrderId, side: Side, price: int, quantity: nat)

  ghost function Step(b: Book, op: Op): Outcome {
    match op
    case AddOp(o) => Add(b, o)
    case CancelOp(id) => Outcome(Cancel(b, id), [])
    case ModifyOp(id, side, price, quantity) => Modify(b, id, side, price, quantity)
  }

  ghost function OptionSeq(o: Option<Ord>): seq<Ord> { if o.Some? then [o.value] else [] }

  /** Orders the engine accepted in this step. */
  ghost function Entered(b: Book, op: Op): seq<Ord>
    decreases op.ModifyOp?
  {
    match op
    case AddOp(o) => if Rejected(b, o) then [] else [o]
    case CancelOp(_) => []
    case ModifyOp(id, side, price, quantity) =>
      var found := Lookup(b, id);
      if found.None? then []
      else Entered(Cancel(b, id), AddOp(Ord(found.value.orderType, id, side, price, quantity, quantity)))
  }

  ghost function Killed(s: seq<Ord>): seq<Ord> {
    if s != [] && s[0].orderType == FillAndKill then [s[0]] else []
  }

  /** Orders that left the book in this step with what they still had: cancelled or killed. */
  ghost function Dropped(b: Book, op: Op): seq<Ord>
    decreases op.ModifyOp?
  {
    match op
    case AddOp(o) =>
      if Rejected(b, o) then []
      else
        var m := MatchAll(FromSides(o.side, Insert(o.side, b.Own(o.side), o), b.Opposite(o.side)));
        Killed(m.book.bids) + Killed(m.book.asks)
    case CancelOp(id) => OptionSeq(Find(b.bids, id)) + OptionSeq(Find(b.asks, id))
    case ModifyOp(id, side, price, quantity) =>
      var found := Lookup(b, id);
      if found.None? then []
      else Dropped(b, CancelOp(id))
           + Dropped(Cancel(b, id), AddOp(Ord(found.value.orderType, id, side, price, quantity, quantity)))
  }

  datatype Ledger = Ledger(book: Book, trades: seq<Trade>, entered: seq<Ord>, dropped: seq<Ord>)

  ghost function Run(b: Book, ops: seq<Op>): Ledger {
    if ops == [] then Ledger(b, [], [], [])
    else
      var op := ops[|ops| - 1];
      var l := Run(b, ops[..|ops| - 1]);
      var s := Step(l.book, op);
      Ledger(s.book, l.trades + s.trades, l.entered + Entered(l.book, op), l.dropped + Dropped(l.book, op))
  }

  lemma StepKeepsInv(b: Book, op: Op)
    requires Inv(b)
    ensures Inv(Step(b, op).book)
  {
    match op
    case AddOp(o) => AddKeepsInv(b, o);
    case CancelOp(id) => CancelKeepsInv(b, id);
    case ModifyOp(id, side, price, quantity) =>
      CancelKeepsInv(b, id);
      if Lookup(b, id).Some? {
        AddKeepsInv(Cancel(b, id), Ord(Lookup(b, id).value.orderType, id, side, price, quantity, quantity));
      }
  }

  /** In every reachable book both sides are sorted, ids are unique, no FillAndKill order rests and
      every bid is priced below every ask. */
  lemma {:induction false} ReachableBooksAreSound(ops: seq<Op>)
    ensures Inv(Run(Book([], []), ops).book)
  {
    if ops == [] {
    } else {
      ReachableBooksAreSound(ops[..|ops| - 1]);
      StepKeepsInv(Run(Book([], []), ops[..|ops| - 1]).book, ops[|ops| - 1]);
    }
  }

  // ---- Conservation of quantity ----

  ghost function RemainingOf(s: seq<Ord>, id: OrderId): nat {
    if s == [] then 0 else (if s[0].id == id then s[0].remaining else 0) + RemainingOf(s[1..], id)
  }

  ghost function TradedBy(ts: seq<Trade>, id: OrderId): nat {
    if ts == [] then 0
    else (if ts[0].bid.id == id then ts[0].bid.quantity else 0)
         + (if ts[0].ask.id == id then ts[0].ask.quantity else 0)
         + TradedBy(ts[1..], id)
  }

  ghost function Resting(b: Book, id: OrderId): nat { RemainingOf(b.bids, id) + RemainingOf(b.asks, id) }

  lemma {:induction false} RemainingOfConcat(s: seq<Ord>, t: seq<Ord>, id: OrderId)
    ensures RemainingOf(s + t, id) == RemainingOf(s, id) + RemainingOf(t, id)
  {
    if s == [] {
      assert s + t == t;
    } else {
      assert (s + t)[1..] == s[1..] + t;
      RemainingOfConcat(s[1..], t, id);
    }
  }

  lemma {:induction false} TradedByConcat(s: seq<Trade>, t: seq<Trade>, id: OrderId)
    ensures TradedBy(s + t, id) == TradedBy(s, id) + TradedBy(t, id)
  {
    if s == [] {
      assert s + t == t;
    } else {
      assert (s + t)[1..] == s[1..] + t;
      TradedByConcat(s[1..], t, id);
    }
  }

  lemma {:induction false} InsertCounts(side: Side, s: seq<Ord>, o: Ord, id: OrderId)
    ensures RemainingOf(Insert(side, s, o), id) == RemainingOf(s, id) + RemainingOf([o], id)
    ensures |Insert(side, s, o)| == |s| + 1
  {
    if s == [] || Better(side, o.price, s[0].price) {
    } else {
      InsertCounts(side, s[1..], o, id);
    }
  }

  lemma {:induction false} WithoutCounts(s: seq<Ord>, gone: OrderId, id: OrderId)
    ensures RemainingOf(s, id) == RemainingOf(Without(s, gone), id) + RemainingOf(OptionSeq(Find(s, gone)), id)
    ensures |Without(s, gone)| <= |s|
  {
    if s == [] || s[0].id == gone {
    } else {
      WithoutCounts(s[1..], gone, id);
    }
  }

  /** Matching moves quantity from orders to trades and loses none. */
  lemma {:induction false} MatchConserves(b: Book, id: OrderId)
    ensures Resting(b, id) == Resting(MatchAll(b).book, id) + TradedBy(MatchAll(b).trades, id)
    decreases |b.bids| + |b.asks|
  {
    if b.bids == [] || b.asks == [] || b.bids[0].price < b.asks[0].price {
    } else {
      var q := Min(b.bids[0].remaining, b.asks[0].remaining);
      var rest := Book(AfterFill(b.bids, q), AfterFill(b.asks, q));
      MatchConserves(rest, id);
      AfterFillCounts(b.bids, q, id);
      AfterFillCounts(b.asks, q, id);
      TradedByConcat([TradeOf(b.bids[0], b.asks[0], q)], MatchAll(rest).trades, id);
    }
  }

  lemma AfterFillCounts(s: seq<Ord>, q: nat, id: OrderId)
    requires s != [] && q <= s[0].remaining
    ensures RemainingOf(s, id) == RemainingOf(AfterFill(s, q), id) + if s[0].id == id then q else 0
  {
    assert ([s[0].Fill(q)] + s[1..])[1..] == s[1..];
  }

  /** Every trade uses up an order, so there are no more trades than orders, and none is made at
      prices that do not cross. */
  lemma {:induction false} MatchIsBounded(b: Book)
    ensures var m := MatchAll(b);
            && |m.trades| + m.book.Size() <= b.Size()
            && forall i :: 0 <= i < |m.trades| ==>
                 m.trades[i].bid.price >= m.trades[i].ask.price && m.trades[i].bid.quantity == m.trades[i].ask.quantity
    decreases |b.bids| + |b.asks|
  {
    if b.bids == [] || b.asks == [] || b.bids[0].price < b.asks[0].price {
    } else {
      var q := Min(b.bids[0].remaining, b.asks[0].remaining);
      MatchIsBounded(Book(AfterFill(b.bids, q), AfterFill(b.asks, q)));
    }
  }

  lemma KilledCounts(s: seq<Ord>, id: OrderId)
    ensures RemainingOf(s, id) == RemainingOf(KillFront(s), id) + RemainingOf(Killed(s), id)
  {
  }

  lemma AddConserves(b: Book, o: Ord, id: OrderId)
    ensures Resting(b, id) + RemainingOf(Entered(b, AddOp(o)), id)
            == Resting(Add(b, o).book, id) + TradedBy(Add(b, o).trades, id) + RemainingOf(Dropped(b, AddOp(o)), id)
    ensures |Add(b, o).trades| + Add(b, o).book.Size() <= b.Size() + |Entered(b, AddOp(o))|
  {
    if !Rejected(b, o) {
      InsertCounts(o.side, b.Own(o.side), o, id);
      var b' := FromSides(o.side, Insert(o.side, b.Own(o.side), o), b.Opposite(o.side));
      var m := MatchAll(b');
      MatchConserves(b', id);
      MatchIsBounded(b');
      KilledCounts(m.book.bids, id);
      KilledCounts(m.book.asks, id);
      RemainingOfConcat(Killed(m.book.bids), Killed(m.book.asks), id);
    }
  }

  lemma CancelConserves(b: Book, gone: OrderId, id: OrderId)
    ensures Resting(b, id) == Resting(Cancel(b, gone), id) + RemainingOf(Dropped(b, CancelOp(gone)), id)
    ensures Cancel(b, gone).Size() <= b.Size()
  {
    WithoutCounts(b.bids, gone, id);
    WithoutCounts(b.asks, gone, id);
    RemainingOfConcat(OptionSeq(Find(b.bids, gone)), OptionSeq(Find(b.asks, gone)), id);
  }

  lemma StepConserves(b: Book, op: Op, id: OrderId)
    ensures Resting(b, id) + RemainingOf(Entered(b, op), id)
            == Resting(Step(b, op).book, id) + TradedBy(Step(b, op).trades, id) + RemainingOf(Dropped(b, op), id)
    ensures |Step(b, op).trades| + Step(b, op).book.Size() <= b.Size() + |Entered(b, op)|
  {
    match op
    case AddOp(o) => AddConserves(b, o, id);
    case CancelOp(gone) => CancelConserves(b, gone, id);
    case ModifyOp(gone, side, price, quantity) =>
      var found := Lookup(b, gone);
      if found.Some? {
        var o := Ord(found.value.orderType, gone, side, price, quantity, quantity);
        CancelConserves(b, gone, id);
        AddConserves(Cancel(b, gone), o, id);
        RemainingOfConcat(Dropped(b, CancelOp(gone)), Dropped(Cancel(b, gone), AddOp(o)), id);
      }
  }

  /** Over any run, for each id: what entered is what traded plus what still rests plus what was
      cancelled or killed; and there are never more trades than orders that entered. */
  lemma {:induction false} RunConserves(ops: seq<Op>, id: OrderId)
    ensures var l := Run(Book([], []), ops);
            && RemainingOf(l.entered, id) == TradedBy(l.trades, id) + Resting(l.book, id) + RemainingOf(l.dropped, id)
            && |l.trades| + l.book.Size() <= |l.entered|
  {
    if ops == [] {
    } else {
      var op, l := ops[|ops| - 1], Run(Book([], []), ops[..|ops| - 1]);
      RunConserves(ops[..|ops| - 1], id);
      StepConserves(l.book, op, id);
      TradedByConcat(l.trades, Step(l.book, op).trades, id);
      RemainingOfConcat(l.entered, Entered(l.book, op), id);
      RemainingOfConcat(l.dropped, Dropped(l.book, op), id);
    }
  }
}
