/** The order book: the two sides, the id index, and the feeds. */
module OrderBooks {
  import opened Types
  import opened Orders
  import opened Sweeps
  import opened FlatBook
  import opened Books
  import opened Soundness
  import opened MatchingEngines
  import opened PriceLevels
  import opened BookSides

  class OrderBook {
    const symbol: Symbol
    const bids: BookSide
    const asks: BookSide
    var ordersIdMap: map<OrderId, FindOrderHelper>

    // What the update handlers have been given so far.
    var orderUpdates: seq<OrderView>
    var tradeUpdates: seq<Trade>
    var levelUpdates: seq<LevelUpdate>

    ghost function Repr(): set<object>
      reads bids.levels, asks.levels
    {
      {bids.levels, asks.levels} + bids.levels.LevelRepr + asks.levels.LevelRepr
    }

    ghost predicate Separate()
      reads bids.levels, asks.levels
    {
      && bids.side == Buy && asks.side == Sell
      && bids.levels != asks.levels
      && this !in Repr()
      && bids.levels !in asks.levels.LevelRepr && asks.levels !in bids.levels.LevelRepr
      && bids.levels.LevelRepr !! asks.levels.LevelRepr
    }

    ghost predicate Valid()
      reads this, Repr()
    {
      && Separate()
      && bids.Valid() && asks.Valid()
    }

    ghost function View(): Book
      reads this, bids.levels, bids.levels.bookCont, asks.levels, asks.levels.bookCont
    {
      Book(bids.Flat(), asks.Flat(), ordersIdMap)
    }

    constructor (symbol: Symbol)
      ensures Valid() && View() == EMPTY_BOOK && this.symbol == symbol
      ensures orderUpdates == [] && tradeUpdates == [] && levelUpdates == []
      ensures fresh(Repr())
    {
      hide BookSide.Valid;
      hide BookSide.Flat;
      this.symbol := symbol;
      bids := new BookSide(symbol, Buy);
      asks := new BookSide(symbol, Sell);
      ordersIdMap := map[];
      orderUpdates, tradeUpdates, levelUpdates := [], [], [];
    }

    /** While the book it stands for is in order, the machine's own best prices are not crossed. */
    lemma NeverCrossed()
      requires Valid() && BookLive(View())
      ensures !bids.Empty() && !asks.Empty() ==> bids.BestPrice() < asks.BestPrice()
    {
    }

    method NotifyOrders(os: seq<Order>)
      modifies this`orderUpdates
      ensures orderUpdates == old(orderUpdates) + ViewsOf(os)
    {
      var i := 0;
      while i < |os|
        invariant 0 <= i <= |os|
        invariant orderUpdates == old(orderUpdates) + ViewsOf(os)[..i]
      {
        orderUpdates := orderUpdates + [os[i].View()];
        i := i + 1;
      }
    }

    method NotifyTrades(ts: seq<Trade>)
      modifies this`tradeUpdates
      ensures tradeUpdates == old(tradeUpdates) + ts
    {
      var i := 0;
      while i < |ts|
        invariant 0 <= i <= |ts|
        invariant tradeUpdates == old(tradeUpdates) + ts[..i]
      {
        tradeUpdates := tradeUpdates + [ts[i]];
        i := i + 1;
      }
    }

    method NotifyLevels(us: seq<LevelUpdate>)
      modifies this`levelUpdates
      ensures levelUpdates == old(levelUpdates) + us
    {
      var i := 0;
      while i < |us|
        invariant 0 <= i <= |us|
        invariant levelUpdates == old(levelUpdates) + us[..i]
      {
        levelUpdates := levelUpdates + [us[i]];
        i := i + 1;
      }
    }

    /** Sweep one side, tell the owners, unlink what was filled, and publish. */
    method SweepSide(side: BookSide, engine: MatchingEngine<PriceLevel>)
      requires side.Valid()
      requires engine.trades == [] && engine.modifiedOrders == [] && engine.removeLevels == []
      requires engine !in side.levels.LevelRepr && engine.originalOrder !in side.levels.LevelRepr
      requires this !in side.levels.LevelRepr
      modifies side.levels`bookCont, side.levels.LevelRepr
      modifies engine`trades, engine`modifiedOrders, engine`removeLevels
      modifies engine.originalOrder`remainingQty, engine.originalOrder`status
      modifies this`orderUpdates, this`tradeUpdates, this`levelUpdates
      ensures side.Valid() && side.levels.LevelRepr == old(side.levels.LevelRepr)
      ensures var r := Sweep(old(side.Flat()), old(engine.originalOrder.View()));
              && side.Flat() == r.rest
              && engine.originalOrder.View() == r.crossing
              && orderUpdates == old(orderUpdates) + r.touched
              && tradeUpdates == old(tradeUpdates) + r.trades
              && levelUpdates == old(levelUpdates) + LevelUpdates(side.side, TradedPrices(r.trades), r.rest)
    {
      hide BookSide.Valid;
      hide BookSide.Flat;
      hide BookSide.Swept;
      hide Order.View;
      hide Sweep;
      hide ViewsOf;
      hide LevelUpdates;
      hide TradedPrices;
      ghost var ls := side.levels.bookCont;
      var updates: seq<LevelUpdate>;
      ghost var t, e;
      updates, t, e := side.MatchOrder(engine);
      NotifyOrders(engine.modifiedOrders);
      side.UnlinkFilled(engine.removeLevels, ls, e);
      NotifyTrades(engine.trades);
      NotifyLevels(updates);
    }

    method MatchOrder(order: Order)
      requires Valid() && order !in Repr()
      modifies this`orderUpdates, this`tradeUpdates, this`levelUpdates
      modifies bids.levels, asks.levels, bids.levels.LevelRepr, asks.levels.LevelRepr
      modifies order`remainingQty, order`status
      ensures Valid() && Repr() == old(Repr())
      ensures var out := Match(old(View()), old(order.View()));
              && View() == out.book
              && order.View() == Final(out)
              && tradeUpdates == old(tradeUpdates) + out.trades
              && levelUpdates == old(levelUpdates) + out.updates
              && orderUpdates + [order.View()] == old(orderUpdates) + out.notices
    {
      hide BookSide.Valid;
      hide BookSide.Flat;
      hide Order.View;
      hide Sweep;
      hide LevelUpdates;
      hide TradedPrices;
      order.ViewFields();
      bids.LevelsWithin();
      asks.LevelsWithin();
      var engine := new MatchingEngine<PriceLevel>(order);
      if order.IsBuy() {
        SweepSide(asks, engine);
      } else {
        SweepSide(bids, engine);
      }
    }

    method IsCrossingOrder(order: Order) returns (crossing: bool)
      requires Valid()
      ensures crossing <==> Meets(View(), order.View())
      ensures crossing == Crosses(View(), order.View())
    {
      hide BookSide.Valid;
      hide BookSide.Flat;
      bids.BestIsFirst();
      asks.BestIsFirst();
      var isBuy := order.IsBuy();
      if (isBuy && asks.Empty()) || (!isBuy && bids.Empty()) {
        return false;
      }
      var oppositeBestPrice := if isBuy then asks.BestPrice() else bids.BestPrice();
      crossing := if isBuy then order.price >= oppositeBestPrice else order.price <= oppositeBestPrice;
    }

    method RejectOrder(order: Order)
      modifies order`status
      ensures order.View() == old(order.View()).(status := Rejected)
    {
      order.SetStatus(Rejected);
    }

    /** As std::unordered_map::emplace: an entry that exists is kept. */
    method AddOrderHelper(price: Price, id: OrderId, side: Side)
      modifies this`ordersIdMap
      ensures ordersIdMap == if id in old(ordersIdMap) then old(ordersIdMap)
                             else old(ordersIdMap)[id := FindOrderHelper(id, side, price)]
    {
      if id !in ordersIdMap {
        ordersIdMap := ordersIdMap[id := FindOrderHelper(id, side, price)];
      }
    }

    /** The end of LimitOrder: what is left of the order joins its own side. */
    method RestOrder(order: Order)
      requires Valid() && order !in Repr()
      requires order.orderId != 0 && 0 < order.remainingQty && order.status != Filled
      requires LevelTotal(View().On(order.side), order.price) + order.remainingQty < U64_LIMIT
      modifies this`ordersIdMap, this`levelUpdates
      modifies bids.levels, asks.levels, bids.levels.LevelRepr, asks.levels.LevelRepr
      ensures Valid() && fresh(Repr() - old(Repr()))
      ensures var b := Rest(old(View()), order.View());
              && View() == b
              && levelUpdates == old(levelUpdates) +
                   [LevelUpdate(order.side, order.price, LevelTotal(b.On(order.side), order.price))]
    {
      hide BookSide.Valid;
      hide BookSide.Flat;
      hide LevelTotal;
      hide Insert;
      hide Order.View;
      order.ViewFields();
      bids.LevelsWithin();
      asks.LevelsWithin();
      var update: LevelUpdate;
      if order.IsBuy() {
        update := bids.AddOrder(order);
        AddOrderHelper(order.price, order.orderId, order.side);
      } else {
        update := asks.AddOrder(order);
        AddOrderHelper(order.price, order.orderId, order.side);
      }
      levelUpdates := levelUpdates + [update];
    }

    /** The book and the order stand as this outcome says, and the feeds have
        grown by what it reports; only the order's own last notice is still to come. */
    ghost predicate Did(out: Outcome, order: Order, notices: seq<OrderView>,
                        trades: seq<Trade>, updates: seq<LevelUpdate>)
      reads this, bids.levels, bids.levels.bookCont, asks.levels, asks.levels.bookCont, order
    {
      && out.notices != []
      && View() == out.book
      && order.View() == Final(out)
      && orderUpdates + [order.View()] == notices + out.notices
      && tradeUpdates == trades + out.trades
      && levelUpdates == updates + out.updates
    }

    method LimitOrder(order: Order)
      requires Valid() && order !in Repr()
      requires order.kind == Limit && Admissible(View(), order.View())
      modifies this`ordersIdMap, this`orderUpdates, this`tradeUpdates, this`levelUpdates
      modifies bids.levels, asks.levels, bids.levels.LevelRepr, asks.levels.LevelRepr
      modifies order`remainingQty, order`status
      ensures Valid() && fresh(Repr() - old(Repr()))
      ensures Did(Add(old(View()), old(order.View())), order,
                  old(orderUpdates), old(tradeUpdates), old(levelUpdates))
      ensures var b, r := old(View()), old(Encounter(View(), order.View()));
              && order.View() == r.crossing
              && tradeUpdates == old(tradeUpdates) + r.trades
              && View().On(order.side.Opposite()) == r.rest
              && View().On(order.side) == OwnSide(b, r.crossing)
    {
      hide BookSide.Valid;
      hide BookSide.Flat;
      hide Order.View;
      hide Match;
      hide Crosses;
      hide Rest;
      hide LevelTotal;
      hide Meets;
      hide Encounter;
      hide OwnSide;
      hide Sweep;
      hide Insert;
      hide Add;
      order.ViewFields();
      var crossing := IsCrossingOrder(order);
      AddSides(View(), order.View());
      AddLimit(View(), order.View());
      if crossing {
        LeftOfLimit(View(), order.View());
        MatchOrder(order);
      }
      order.ViewFields();
      if order.status == Filled {
        return;
      }
      RestOrder(order);
    }

    method MarketOrder(order: Order)
      requires Valid() && order !in Repr()
      requires order.kind == Market
      modifies this`ordersIdMap, this`orderUpdates, this`tradeUpdates, this`levelUpdates
      modifies bids.levels, asks.levels, bids.levels.LevelRepr, asks.levels.LevelRepr
      modifies order`remainingQty, order`status
      ensures Valid() && fresh(Repr() - old(Repr()))
      ensures Did(Add(old(View()), old(order.View())), order,
                  old(orderUpdates), old(tradeUpdates), old(levelUpdates))
      ensures var b, r := old(View()), old(Encounter(View(), order.View()));
              && order.View() == r.crossing
              && tradeUpdates == old(tradeUpdates) + r.trades
              && View().On(order.side.Opposite()) == r.rest
              && View().On(order.side) == OwnSide(b, r.crossing)
    {
      hide BookSide.Valid;
      hide BookSide.Flat;
      hide Order.View;
      hide Match;
      hide Crosses;
      hide Rest;
      hide LevelTotal;
      hide Meets;
      hide Encounter;
      hide OwnSide;
      hide Sweep;
      hide Insert;
      order.ViewFields();
      AddSides(View(), order.View());
      bids.BestIsFirst();
      asks.BestIsFirst();
      if (order.IsBuy() && asks.Empty()) || (!order.IsBuy() && bids.Empty()) {
        RejectOrder(order);
        return;
      }
      MatchOrder(order);
    }

    method FillAndKillOrder(order: Order)
      requires Valid() && order !in Repr()
      requires order.kind == FillAndKill
      modifies this`ordersIdMap, this`orderUpdates, this`tradeUpdates, this`levelUpdates
      modifies bids.levels, asks.levels, bids.levels.LevelRepr, asks.levels.LevelRepr
      modifies order`remainingQty, order`status
      ensures Valid() && fresh(Repr() - old(Repr()))
      ensures Did(Add(old(View()), old(order.View())), order,
                  old(orderUpdates), old(tradeUpdates), old(levelUpdates))
      ensures var b, r := old(View()), old(Encounter(View(), order.View()));
              && order.View() == r.crossing
              && tradeUpdates == old(tradeUpdates) + r.trades
              && View().On(order.side.Opposite()) == r.rest
              && View().On(order.side) == OwnSide(b, r.crossing)
    {
      hide BookSide.Valid;
      hide BookSide.Flat;
      hide Order.View;
      hide Match;
      hide Crosses;
      hide Rest;
      hide LevelTotal;
      hide Meets;
      hide Encounter;
      hide OwnSide;
      hide Sweep;
      hide Insert;
      order.ViewFields();
      var crossing := IsCrossingOrder(order);
      AddSides(View(), order.View());
      if crossing {
        MatchOrder(order);
      } else {
        RejectOrder(order);
      }
    }

    method Dispatch(order: Order)
      requires Valid() && order !in Repr()
      requires Admissible(View(), order.View())
      modifies this`ordersIdMap, this`orderUpdates, this`tradeUpdates, this`levelUpdates
      modifies bids.levels, asks.levels, bids.levels.LevelRepr, asks.levels.LevelRepr
      modifies order`remainingQty, order`status
      ensures Valid() && fresh(Repr() - old(Repr()))
      ensures Did(Add(old(View()), old(order.View())), order,
                  old(orderUpdates), old(tradeUpdates), old(levelUpdates))
    {
      hide BookSide.Valid;
      hide BookSide.Flat;
      hide Add;
      hide LevelTotal;
      match order.kind
      case Market => MarketOrder(order);
      case FillAndKill => FillAndKillOrder(order);
      case Limit => LimitOrder(order);
    }

    /** newId is what the id generator would hand out. */
    method AddOrder(order: Order, newId: OrderId)
      requires Valid() && order !in Repr()
      requires order.symbol == symbol ==> Admissible(View(), Identified(order.View(), newId))
      modifies this`ordersIdMap, this`orderUpdates, this`tradeUpdates, this`levelUpdates
      modifies bids.levels, asks.levels, bids.levels.LevelRepr, asks.levels.LevelRepr
      modifies order
      ensures Valid() && fresh(Repr() - old(Repr()))
      ensures order.symbol == old(order.symbol)
      ensures order.symbol == symbol ==>
        && order.orderId == (if old(order.orderId) == 0 then newId else old(order.orderId))
        && |orderUpdates| > |old(orderUpdates)| && orderUpdates[|orderUpdates| - 1] == order.View()
      ensures var o, b := Identified(old(order.View()), newId), old(View());
              if old(order.symbol) != symbol then
                View() == b && order.View() == old(order.View()) && orderUpdates == old(orderUpdates)
                && tradeUpdates == old(tradeUpdates) && levelUpdates == old(levelUpdates)
              else
                var out := Add(b, o);
                && View() == out.book
                && order.View() == Final(out)
                && orderUpdates == old(orderUpdates) + out.notices
                && tradeUpdates == old(tradeUpdates) + out.trades
                && levelUpdates == old(levelUpdates) + out.updates
    {
      hide BookSide.Valid;
      hide BookSide.Flat;
      hide Add;
      hide LevelTotal;
      if order.symbol != symbol {
        return;
      }
      bids.LevelsWithin();
      asks.LevelsWithin();
      order.symbol := symbol;
      if order.orderId == 0 {
        order.orderId := newId;
      }
      Dispatch(order);
      orderUpdates := orderUpdates + [order.View()];
    }

    method RemoveOrder(id: OrderId)
      requires Valid()
      modifies this`ordersIdMap, this`levelUpdates
      modifies bids.levels, asks.levels, bids.levels.LevelRepr, asks.levels.LevelRepr
      ensures Valid() && fresh(Repr() - old(Repr()))
      ensures var out := Cancel(old(View()), id);
              View() == out.book && levelUpdates == old(levelUpdates) + out.updates
      ensures tradeUpdates == old(tradeUpdates) && orderUpdates == old(orderUpdates)
    {
      hide BookSide.Valid;
      hide BookSide.Flat;
      hide LevelTotal;
      hide DeleteAtPrice;
      bids.LevelsWithin();
      asks.LevelsWithin();
      var updates: seq<LevelUpdate> := [];
      if id in ordersIdMap {
        var helper := ordersIdMap[id];
        var update: LevelUpdate;
        if helper.side == Buy {
          update := bids.RemoveOrder(helper);
        } else {
          update := asks.RemoveOrder(helper);
        }
        updates := updates + [update];
        ordersIdMap := ordersIdMap - {id};
      }
      NotifyLevels(updates);
    }
  }
}