/** A program that feeds a list of commands to one order book. */
module Sessions {
  import opened Types
  import opened Orders
  import opened Books
  import opened Runs
  import opened Statuses
  import opened DepthFeed
  import opened Ledger
  import opened Lifecycles
  import opened OrderBooks

  /** The book, and all that its handlers have been given. */
  ghost function HistoryOf(ob: OrderBook): History
    reads ob, ob.bids.levels, ob.bids.levels.bookCont, ob.asks.levels, ob.asks.levels.bookCont
  {
    History(ob.View(), ob.tradeUpdates, ob.levelUpdates, ob.orderUpdates)
  }

  method Execute(ob: OrderBook, cmd: Command)
    requires ob.Valid() && Playable(ob.View(), cmd)
    modifies ob, ob.Repr()
    ensures ob.Valid() && fresh(ob.Repr() - old(ob.Repr()))
    ensures HistoryOf(ob) == Extend(old(HistoryOf(ob)), Next(old(ob.View()), cmd))
  {
    hide Add;
    hide Cancel;
    hide Admissible;
    hide OrderBook.Valid;
    hide OrderBook.View;
    match cmd {
      case Submit(o, newId) =>
        var order := new Order(ob.symbol, o.price, o.qty, o.side, Open, o.kind, o.account, o.id);
        ob.AddOrder(order, newId);
      case Withdraw(id) =>
        CancelIsSilent(ob.View(), id);
        ob.RemoveOrder(id);
        assert ob.tradeUpdates + [] == ob.tradeUpdates && ob.orderUpdates + [] == ob.orderUpdates;
    }
  }

  lemma CancelIsSilent(b: Book, id: OrderId)
    ensures Cancel(b, id).trades == [] && Cancel(b, id).notices == []
  {
  }

  /** The machine with its lists, indexes, caches and deferred removals ends every run
      where the reference book does, having told its handlers the same. */
  method Session(symbol: Symbol, cmds: seq<Command>) returns (ob: OrderBook)
    requires PlayableRun(cmds)
    ensures ob.Valid()
    ensures HistoryOf(ob) == Run(cmds)
    ensures BookLive(ob.View()) && (LegalRun(cmds) ==> BookSound(ob.View()))
    ensures Replay(map[], ob.levelUpdates) == DepthOf(ob.View())
    ensures forall k :: 0 <= k <= |ob.levelUpdates| ==> NotCrossed(Replay(map[], ob.levelUpdates[..k]))
    ensures BookTruthful(ob.View()) && AllTruthful(ob.orderUpdates)
    ensures AllFrom(ob.orderUpdates, cmds) && BookFrom(ob.View(), cmds)
    ensures forall t :: t in ob.tradeUpdates ==> Paired(t, cmds)
    ensures ToldApart(cmds) ==>
      && Balanced(Absorb(map[], ob.orderUpdates), id => TradedSince(cmds, id), ob.View())
      && LivesAgree(Absorb(map[], ob.orderUpdates), (id: OrderId) => WithdrawnSince(cmds, id), ob.View())
  {
    hide Run;
    hide PlayableRun;
    hide LegalRun;
    hide Playable;
    hide BookLive;
    hide BookSound;
    hide NotCrossed;
    hide BookTruthful;
    hide AllTruthful;
    hide Next;
    hide OrderBook.Valid;
    hide OrderBook.View;
    hide Replay;
    hide DepthOf;
    hide ToldApart;
    hide TradedSince;
    hide AllFrom;
    hide BookFrom;
    hide Paired;
    hide LivesAgree;
    hide Balanced;
    hide Absorb;
    RunStart();
    ob := new OrderBook(symbol);
    var i := 0;
    while i < |cmds|
      invariant 0 <= i <= |cmds|
      invariant ob.Valid() && fresh(ob) && fresh(ob.Repr())
      invariant HistoryOf(ob) == Run(cmds[..i])
    {
      PrefixPlayable(cmds, i + 1);
      PrefixStep(cmds, i);
      Execute(ob, cmds[i]);
      i := i + 1;
    }
    assert cmds[..i] == cmds;
    FeedIsDepth(cmds);
    StatusesAgree(cmds);
    NothingMadeUp(cmds);
    TradesArePaired(cmds);
    ReachableLive(cmds);
    forall k | 0 <= k <= |ob.levelUpdates| ensures NotCrossed(Replay(map[], ob.levelUpdates[..k])) {
      NeverShowsCrossed(cmds, k);
    }
    if LegalRun(cmds) {
      ReachableSound(cmds);
    }
    if ToldApart(cmds) {
      LedgerBalances(cmds);
      LiveIff(cmds);
    }
  }

  lemma RunStart()
    ensures Run([]) == History(EMPTY_BOOK, [], [], [])
  {
  }

  lemma {:induction false} PrefixPlayable(cmds: seq<Command>, n: nat)
    requires PlayableRun(cmds) && n <= |cmds|
    ensures PlayableRun(cmds[..n])
    decreases |cmds|
  {
    if n == |cmds| {
      assert cmds[..n] == cmds;
    } else {
      PrefixPlayable(cmds[..|cmds| - 1], n);
      assert cmds[..|cmds| - 1][..n] == cmds[..n];
    }
  }

  lemma PrefixStep(cmds: seq<Command>, i: nat)
    requires i < |cmds| && PlayableRun(cmds[..i + 1])
    ensures Run(cmds[..i + 1]) == Extend(Run(cmds[..i]), Next(Run(cmds[..i]).book, cmds[i]))
    ensures Playable(Run(cmds[..i]).book, cmds[i])
  {
    assert cmds[..i + 1] == cmds[..i] + [cmds[i]];
    RunExtends(cmds[..i], cmds[i]);
  }
}
