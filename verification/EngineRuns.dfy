/** Runs of the order book engine itself: whatever operations are performed on a new one, its maps,
    lists and index hold the book, and it returns the trades, of the value-level run. */
module EngineRuns {
  import opened PriceTimePriority
  import opened OrderBookRuns
  import opened LimitOrderBook

  /** An order object with this value; a caller may have filled part of it already. */
  method MakeOrder(o: Ord) returns (order: Order)
    requires o.remaining <= o.initial
    ensures fresh(order) && order.Value() == o
  {
    order := new Order(o.orderType, o.id, o.side, o.price, o.initial);
    var ok := order.Fill(o.initial - o.remaining);
  }

  method Perform(book: Orderbook, op: Op) returns (trades: seq<Trade>)
    requires book.Valid() && (op.AddOp? ==> op.order.remaining <= op.order.initial)
    modifies book, book.Resting()
    ensures book.Valid() && fresh(book.Resting() - old(book.Resting()))
    ensures Outcome(book.Contents(), trades) == Step(old(book.Contents()), op)
  {
    match op
    case AddOp(o) =>
      var order := MakeOrder(o);
      trades := book.AddOrder(order);
    case CancelOp(id) =>
      book.CancelOrder(id);
      trades := [];
    case ModifyOp(id, side, price, quantity) =>
      trades := book.MatchOrder(id, side, price, quantity);
  }

  /** The book and all the trades after the first `i` operations on an empty book. */
  ghost function After(ops: seq<Op>, i: nat): Outcome
    requires i <= |ops|
  {
    Outcome(Run(Book([], []), ops[..i]).book, Run(Book([], []), ops[..i]).trades)
  }

  lemma AfterNext(ops: seq<Op>, i: nat)
    requires i < |ops|
    ensures After(ops, i + 1) == Step(After(ops, i).book, ops[i]).After(After(ops, i).trades)
  {
    assert ops[..i + 1][..i] == ops[..i];
  }

  method PerformNext(book: Orderbook, trades: seq<Trade>, ops: seq<Op>, i: nat) returns (trades': seq<Trade>)
    requires i < |ops| && (ops[i].AddOp? ==> ops[i].order.remaining <= ops[i].order.initial)
    requires book.Valid() && Outcome(book.Contents(), trades) == After(ops, i)
    modifies book, book.Resting()
    ensures book.Valid() && fresh(book.Resting() - old(book.Resting()))
    ensures Outcome(book.Contents(), trades') == After(ops, i + 1)
  {
    AfterNext(ops, i);
    var more := Perform(book, ops[i]);
    trades' := trades + more;
  }

  /** Orders never have more remaining than they started with. */
  method PerformAll(ops: seq<Op>) returns (book: Orderbook, trades: seq<Trade>)
    requires forall i :: 0 <= i < |ops| && ops[i].AddOp? ==> ops[i].order.remaining <= ops[i].order.initial
    ensures fresh(book) && book.Valid() && Inv(book.Contents())
    ensures book.Contents() == Run(Book([], []), ops).book && trades == Run(Book([], []), ops).trades
  {
    book := new Orderbook();
    trades := [];
    for i := 0 to |ops|
      invariant fresh(book) && fresh(book.Resting()) && book.Valid()
      invariant Outcome(book.Contents(), trades) == After(ops, i)
    {
      trades := PerformNext(book, trades, ops, i);
    }
    assert ops[..|ops|] == ops;
    assert Inv(book.Contents()) by { ReachableBooksAreSound(ops); }
  }
}
