/** One side of the book. */
module BookSides {
  import opened Types
  import opened Orders
  import opened Sweeps
  import opened FlatBook
  import opened SideViews
  import opened SideSweeps
  import opened MatchingEngines
  import opened PriceLevels
  import opened OrderBookData

  /** The loop that unlinks filled orders, level by level. */
  method UnlinkLevels(removeLevels: seq<PriceLevel>, ghost g: LevelGroup)
    requires LevelsOk(g.levels, g.side, g.repr)
    requires removeLevels <= g.levels
    requires forall i :: |removeLevels| <= i < |g.levels| ==> g.levels[i].ordersToBeRemoved == []
    modifies g.repr
    ensures LevelsOk(g.levels, g.side, g.repr)
    ensures LevelViews(g.levels) == old(LevelViews(g.levels))
    ensures forall i :: 0 <= i < |g.levels| ==>
      g.levels[i].ordersToBeRemoved == [] && g.levels[i].LinkedOrders == old(g.levels[i].Contents())
  {
    hide PriceLevel.Valid;
    hide LevelsOk;
    hide LevelViews;
    ContentsOf(g.levels);
    var i := 0;
    while i < |removeLevels|
      invariant 0 <= i <= |removeLevels|
      invariant LevelsOk(g.levels, g.side, g.repr)
      invariant LevelViews(g.levels) == old(LevelViews(g.levels))
      invariant forall j :: 0 <= j < |g.levels| && (j < i || |removeLevels| <= j) ==>
        g.levels[j].ordersToBeRemoved == []
    {
      LevelIn(g.levels, g.side, g.repr, i);
      UnlinkNext(removeLevels[i], g, i);
      i := i + 1;
    }
    ContentsOf(g.levels);
  }

  lemma ContentsOf(ls: seq<PriceLevel>)
    ensures forall i :: 0 <= i < |ls| ==> LevelViews(ls)[i].orders == ls[i].Contents()
    ensures forall i :: 0 <= i < |ls| && ls[i].ordersToBeRemoved == [] ==> ls[i].LinkedOrders == ls[i].Contents()
  {
  }

  method UnlinkNext(level: PriceLevel, ghost g: LevelGroup, ghost k: nat)
    requires LevelsOk(g.levels, g.side, g.repr)
    requires k < |g.levels| && level == g.levels[k]
    modifies level.Repr
    ensures LevelsOk(g.levels, g.side, g.repr)
    ensures LevelViews(g.levels) == old(LevelViews(g.levels))
    ensures level.ordersToBeRemoved == []
    ensures forall i :: 0 <= i < |g.levels| && i != k ==>
      g.levels[i].ordersToBeRemoved == old(g.levels[i].ordersToBeRemoved)
  {
    hide PriceLevel.Valid;
    hide LevelsOk;
    hide LevelViews;
    LevelIn(g.levels, g.side, g.repr, k);
    level.RemoveMarkedOrderNodes();
    OnlyOneChanged(g, k);
    assert g.repr + level.Repr == g.repr;
  }

  class BookSide {
    const side: Side
    const levels: OrderBookDataMap

    /** The state between calls: every level in the map has live orders and none
        waiting to be unlinked. */
    ghost predicate Valid()
      reads levels, levels.LevelRepr
    {
      && levels.side == side
      && levels.Valid()
      && levels.Settled()
      && NoneEmpty(levels.Views())
    }

    /** The live orders of this side in priority order. */
    ghost function Flat(): seq<OrderView>
      reads levels, levels.bookCont
    {
      Flatten(levels.Views())
    }

    constructor (symbol: Symbol, side: Side)
      ensures Valid() && this.side == side && Flat() == []
      ensures fresh(levels) && fresh(levels.LevelRepr)
    {
      this.side := side;
      levels := new OrderBookDataMap(symbol, side);
    }

    predicate Empty()
      reads levels
    {
      levels.Empty()
    }

    function BestPrice(): Price
      reads levels
      requires !Empty()
    {
      levels.BestPrice()
    }

    /** The map is empty exactly when no order is live, and its first level holds the best one. */
    lemma BestIsFirst()
      requires Valid()
      ensures Empty() <==> Flat() == []
      ensures !Empty() ==> BestPrice() == Flat()[0].price
      ensures forall o :: o in Flat() ==> !Before(side, o.price, BestPrice())
    {
      hide PriceLevel.Valid;
      hide Flatten;
      var vs := levels.Views();
      ViewsOk();
      if Empty() {
        FlattenEmpty(vs);
      } else {
        FlattenEmpty(vs[..0]);
        FlattenSplit(vs, 0);
        assert vs[0].orders[0] in vs[0].orders;
      }
      forall o | o in Flat() ensures !Empty() && !Before(side, o.price, BestPrice()) {
        FlattenMember(vs, o);
        var i :| 0 <= i < |vs| && o in vs[i].orders;
        assert LevelOk(side, vs[i]);
      }
    }

    /** Between calls the map holds a level for exactly the prices at which something
        is live, and that level's cached total, which is positive, is what is live there. */
    lemma LevelsAreLive()
      requires Valid()
      ensures forall i :: 0 <= i < |levels.bookCont| ==>
        var l := levels.bookCont[i];
        && l.orderCont.Nodes != [] && l.totalQty > 0
        && l.totalQty == LevelTotal(Flat(), l.price)
      ensures forall o :: o in Flat() ==> exists i :: 0 <= i < |levels.bookCont| && levels.bookCont[i].price == o.price
    {
      hide LevelTotal;
      hide Flatten;
      var vs := levels.Views();
      ViewsOk();
      forall i | 0 <= i < |levels.bookCont|
        ensures levels.bookCont[i].orderCont.Nodes != [] && levels.bookCont[i].totalQty > 0
        ensures levels.bookCont[i].totalQty == LevelTotal(Flat(), levels.bookCont[i].price)
      {
        var l := levels.bookCont[i];
        LevelIn(levels.bookCont, side, levels.LevelRepr, i);
        LevelTotalIsSum(side, vs, i);
        NoLiveTotal(side, vs[i]);
        l.Shape();
      }
      forall o | o in Flat() ensures exists i :: 0 <= i < |levels.bookCont| && levels.bookCont[i].price == o.price {
        FlattenMember(vs, o);
        var i :| 0 <= i < |vs| && o in vs[i].orders;
        assert LevelOk(side, vs[i]) && levels.bookCont[i].price == vs[i].price;
      }
    }

    lemma LevelsWithin()
      requires Valid()
      ensures forall l :: l in levels.bookCont ==> l in levels.LevelRepr
      ensures levels !in levels.LevelRepr
    {
    }

    /** What the levels look like from the outside. */
    lemma ViewsOk()
      requires levels.Valid()
      ensures SideOk(levels.side, levels.Views())
      ensures forall i :: 0 <= i < |levels.bookCont| ==>
        && levels.bookCont[i].totalQty == Sum(levels.Views()[i].orders)
        && levels.Views()[i].price == levels.bookCont[i].price
    {
      hide PriceLevel.Valid;
      forall i | 0 <= i < |levels.bookCont|
        ensures LevelOk(levels.side, levels.Views()[i])
        ensures levels.bookCont[i].totalQty == Sum(levels.Views()[i].orders)
      {
        levels.bookCont[i].TotalIsExact();
      }
    }

    method AddToLevel(level: PriceLevel, ghost k: nat, order: Order) returns (update: LevelUpdate)
      requires levels.Valid() && levels.Settled() && levels.side == side
      requires k < |levels.bookCont| && levels.bookCont[k] == level && level.price == order.price
      requires order.orderId != 0 && order.side == side
      requires order.remainingQty > 0 && order.status != Filled
      requires level.totalQty + order.remainingQty < U64_LIMIT
      modifies levels`LevelRepr, level.Repr
      ensures levels.Valid() && levels.Settled()
      ensures levels.bookCont == old(levels.bookCont)
      ensures fresh(levels.LevelRepr - old(levels.LevelRepr)) && old(levels.LevelRepr) <= levels.LevelRepr
      ensures var os := old(level.Contents());
              var os' := if HasId(os, old(order.orderId)) then os else os + [old(order.View())];
              levels.Views() == old(levels.Views())[k := LevelView(level.price, os')]
      ensures update == LevelUpdate(side, level.price, level.totalQty)
    {
      hide PriceLevel.Valid;
      hide Order.View;
      hide Sum;
      hide Ordered;
      hide LevelsOk;
      hide LevelViews;
      LevelIn(levels.bookCont, side, levels.LevelRepr, k);
      assert level == levels.bookCont[k];
      level.ContentsWhenSettled();
      ghost var g := LevelGroup(levels.bookCont, side, levels.LevelRepr);
      update := level.AddOrder(order);
      level.ContentsWhenSettled();
      OnlyOneChanged(g, k);
      levels.LevelRepr := levels.LevelRepr + level.Repr;
    }

    method AddOrder(order: Order) returns (update: LevelUpdate)
      requires Valid()
      requires order.orderId != 0 && order.side == side
      requires order.remainingQty > 0 && order.status != Filled
      requires LevelTotal(Flat(), order.price) + order.remainingQty < U64_LIMIT
      modifies levels, levels.LevelRepr
      ensures Valid()
      ensures fresh(levels.LevelRepr - old(levels.LevelRepr)) && old(levels.LevelRepr) <= levels.LevelRepr
      ensures Flat() == if HasIdAt(old(Flat()), order.price, old(order.orderId)) then old(Flat())
                        else Insert(side, old(Flat()), old(order.View()))
      ensures update == LevelUpdate(side, order.price, LevelTotal(Flat(), order.price))
    {
      hide PriceLevel.Valid;
      hide PriceLevel.View;
      hide Order.View;
      hide LevelsOk;
      hide LevelViews;
      hide Ordered;
      hide SideOk;
      hide Flatten;
      hide LevelTotal;
      hide Insert;
      hide HasId;
      hide HasIdAt;
      ghost var vs0 := levels.Views();
      var level, k := levels.GetBookLevel(order.price);
      ghost var vs := levels.Views();
      LevelFoundFlat(vs0, vs, k, order.price);
      LevelIn(levels.bookCont, side, levels.LevelRepr, k);
      ViewsOk();
      order.ViewFields();
      LevelTotalIsSum(side, vs, k);
      AddInLevel(side, vs, k, order.View());
      update := AddToLevel(level, k, order);
      assert levels.Views()[k].orders != [];
      ViewsOk();
      LevelTotalIsSum(side, levels.Views(), k);
    }

    method RemoveFromLevel(level: PriceLevel, ghost k: nat, id: OrderId) returns (update: LevelUpdate)
      requires levels.Valid() && levels.Settled() && levels.side == side
      requires k < |levels.bookCont| && levels.bookCont[k] == level
      modifies level.Repr
      ensures levels.Valid() && levels.Settled()
      ensures levels.bookCont == old(levels.bookCont) && levels.LevelRepr == old(levels.LevelRepr)
      ensures levels.Views() == old(levels.Views())[k := LevelView(level.price, Delete(old(level.Contents()), id))]
      ensures update == LevelUpdate(side, level.price, level.totalQty)
    {
      hide PriceLevel.Valid;
      hide Sum;
      hide Ordered;
      hide LevelsOk;
      hide LevelViews;
      hide Delete;
      LevelIn(levels.bookCont, side, levels.LevelRepr, k);
      assert level == levels.bookCont[k];
      level.ContentsWhenSettled();
      ghost var g := LevelGroup(levels.bookCont, side, levels.LevelRepr);
      update := level.RemoveOrder(id);
      level.ContentsWhenSettled();
      OnlyOneChanged(g, k);
      assert levels.LevelRepr + level.Repr == levels.LevelRepr;
    }

    /** Erase level k from the map if this update says that it is gone. */
    method EraseIfGone(update: LevelUpdate, ghost k: nat)
      requires levels.Valid() && levels.side == side
      requires k < |levels.bookCont|
      requires update == LevelUpdate(side, levels.bookCont[k].price, levels.bookCont[k].totalQty)
      modifies levels`bookCont
      ensures levels.Valid() && (old(levels.Settled()) ==> levels.Settled())
      ensures levels.bookCont == if update.total != 0 then old(levels.bookCont)
                                 else old(levels.bookCont)[..k] + old(levels.bookCont)[k + 1..]
      ensures levels.Views() == if update.total != 0 then old(levels.Views())
                                else old(levels.Views())[..k] + old(levels.Views())[k + 1..]
    {
      hide LevelsOk;
      hide LevelViews;
      hide Ordered;
      LowerBoundAt(side, levels.bookCont, k);
      EraseViews(levels.bookCont, k);
      if update.total == 0 {
        levels.RemoveBookLevel(update.price);
      }
    }

    method RemoveOrder(helper: FindOrderHelper) returns (update: LevelUpdate)
      requires Valid()
      modifies levels, levels.LevelRepr
      ensures Valid()
      ensures fresh(levels.LevelRepr - old(levels.LevelRepr)) && old(levels.LevelRepr) <= levels.LevelRepr
      ensures Flat() == DeleteAtPrice(old(Flat()), helper.price, helper.id)
      ensures update == LevelUpdate(side, helper.price, LevelTotal(Flat(), helper.price))
    {
      hide PriceLevel.Valid;
      hide PriceLevel.View;
      hide LevelsOk;
      hide LevelViews;
      hide Ordered;
      hide SideOk;
      hide Flatten;
      hide LevelTotal;
      hide Sum;
      hide Delete;
      hide DeleteAtPrice;
      ghost var vs0 := levels.Views();
      var level, k := levels.GetBookLevel(helper.price);
      ghost var vs := levels.Views();
      LevelIn(levels.bookCont, side, levels.LevelRepr, k);
      ViewsOk();
      RemovedFromLevel(side, vs0, vs, k, helper.id);
      update := RemoveFromLevel(level, k, helper.id);
      ViewsOk();
      EraseIfGone(update, k);
    }

    method MatchLevel(level: PriceLevel, ghost k: nat, engine: MatchingEngine<PriceLevel>) returns (update: LevelUpdate)
      requires levels.Valid() && levels.side == side
      requires k < |levels.bookCont| && levels.bookCont[k] == level && level.ordersToBeRemoved == []
      requires engine !in levels.LevelRepr && engine.originalOrder !in levels.LevelRepr
      requires forall o :: o in engine.modifiedOrders ==> o !in level.Repr && o != engine.originalOrder
      modifies level.Repr, engine`trades, engine`modifiedOrders, engine`removeLevels
      modifies engine.originalOrder`remainingQty, engine.originalOrder`status
      ensures levels.Valid()
      ensures levels.bookCont == old(levels.bookCont) && levels.LevelRepr == old(levels.LevelRepr)
      ensures var v := old(levels.Views())[k];
              var r := Sweep(v.orders, old(engine.originalOrder.View()));
              && v.price == level.price
              && levels.Views() == old(levels.Views())[k := LevelView(v.price, r.rest)]
              && engine.originalOrder.View() == r.crossing
              && engine.trades == old(engine.trades) + r.trades
              && ViewsOf(engine.modifiedOrders) == old(ViewsOf(engine.modifiedOrders)) + r.touched
              && engine.removeLevels ==
                   old(engine.removeLevels) + (if r.trades == [] then [] else [level])
              && update == LevelUpdate(side, v.price, Sum(r.rest))
      ensures forall i :: 0 <= i < |levels.bookCont| && i != k ==>
        && levels.bookCont[i].ordersToBeRemoved == old(levels.bookCont[i].ordersToBeRemoved)
        && levels.bookCont[i].Repr == old(levels.bookCont[i].Repr)
      ensures forall o :: o in engine.modifiedOrders ==> o in old(engine.modifiedOrders) || o in level.Repr
      ensures level.Repr == old(level.Repr)
    {
      hide PriceLevel.Valid;
      hide Order.View;
      hide ViewsOf;
      hide Sum;
      hide Sweep;
      hide Ordered;
      hide LevelsOk;
      hide LevelViews;
      LevelIn(levels.bookCont, side, levels.LevelRepr, k);
      ghost var g := LevelGroup(levels.bookCont, side, levels.LevelRepr);
      update := level.MatchOrder(engine);
      level.TotalIsExact();
      OnlyOneChanged(g, k);
      assert levels.LevelRepr + level.Repr == levels.LevelRepr;
    }

    /** The state of a sweep that has traded with the first |updates| levels. */
    ghost predicate Sweeping(engine: MatchingEngine<PriceLevel>, vs0: seq<LevelView>, c0: OrderView,
                             updates: seq<LevelUpdate>)
      reads levels, levels.bookCont, engine, engine.originalOrder, engine.modifiedOrders
    {
      && SideProgress(side, vs0, c0, levels.Views(), engine.originalOrder.View(), engine.trades,
                      ViewsOf(engine.modifiedOrders), updates)
      && |updates| <= |levels.bookCont|
      && engine.originalOrder.View().remaining == engine.originalOrder.remainingQty
      && engine.removeLevels == levels.bookCont[..|updates|]
      && (forall i :: |updates| <= i < |levels.bookCont| ==> levels.bookCont[i].ordersToBeRemoved == [])
      && engine.originalOrder !in engine.modifiedOrders
      && NotInLevels(engine.modifiedOrders, levels.bookCont, |updates|)
    }

    /** The next level, while the crossing order still wants more. */
    method SweepNext(engine: MatchingEngine<PriceLevel>, k: nat, ghost vs0: seq<LevelView>, ghost c0: OrderView,
                     updates: seq<LevelUpdate>)
      returns (updates': seq<LevelUpdate>)
      requires levels.Valid() && levels.side == side
      requires engine !in levels.LevelRepr && engine.originalOrder !in levels.LevelRepr
      requires Sweeping(engine, vs0, c0, updates)
      requires k == |updates| < |levels.bookCont| && engine.HasRemainingQty() && levels.Views()[k].orders != []
      modifies levels.LevelRepr, engine`trades, engine`modifiedOrders, engine`removeLevels
      modifies engine.originalOrder`remainingQty, engine.originalOrder`status
      ensures levels.Valid()
      ensures levels.bookCont == old(levels.bookCont) && levels.LevelRepr == old(levels.LevelRepr)
      ensures Sweeping(engine, vs0, c0, updates') && |updates'| == k + 1
    {
      hide PriceLevel.Valid;
      hide Order.View;
      hide ViewsOf;
      hide Sum;
      hide Sweep;
      hide Ordered;
      hide LevelsOk;
      hide LevelViews;
      hide SideProgress;
      LevelIn(levels.bookCont, side, levels.LevelRepr, k);
      SideStep(side, vs0, c0, levels.Views(), engine.originalOrder.View(), engine.trades,
               ViewsOf(engine.modifiedOrders), updates);
      ghost var os := engine.modifiedOrders;
      var update := MatchLevel(levels.bookCont[k], k, engine);
      updates' := updates + [update];
      NextLevelsApart(os, engine.modifiedOrders, levels.bookCont, side, levels.LevelRepr, k);
      engine.originalOrder.ViewFields();
    }

    /** The first loop of MatchOrder: the levels trade, best first. */
    method SweepLevels(engine: MatchingEngine<PriceLevel>) returns (updates: seq<LevelUpdate>)
      requires Valid()
      requires engine.trades == [] && engine.modifiedOrders == [] && engine.removeLevels == []
      requires engine !in levels.LevelRepr && engine.originalOrder !in levels.LevelRepr
      modifies levels.LevelRepr, engine`trades, engine`modifiedOrders, engine`removeLevels
      modifies engine.originalOrder`remainingQty, engine.originalOrder`status
      ensures levels.Valid()
      ensures levels.bookCont == old(levels.bookCont) && levels.LevelRepr == old(levels.LevelRepr)
      ensures Sweeping(engine, old(levels.Views()), old(engine.originalOrder.View()), updates)
      ensures |updates| == |levels.bookCont| || engine.originalOrder.remainingQty == 0
    {
      hide PriceLevel.Valid;
      hide Order.View;
      hide LevelsOk;
      hide SideProgress;
      hide Ordered;
      hide LevelViews;
      updates := [];
      ghost var vs0, c0 := levels.Views(), engine.originalOrder.View();
      ViewsOk();
      SideStart(side, vs0, c0);
      engine.originalOrder.ViewFields();
      NoViews(engine.modifiedOrders);
      var k := 0;
      while k < |levels.bookCont|
        invariant 0 <= k <= |levels.bookCont|
        invariant levels.Valid() && levels.side == side
        invariant levels.bookCont == old(levels.bookCont) && levels.LevelRepr == old(levels.LevelRepr)
        invariant Sweeping(engine, vs0, c0, updates) && |updates| <= k
        invariant engine.originalOrder.remainingQty == 0 || |updates| == k
        decreases |levels.bookCont| - k
      {
        if engine.HasRemainingQty() {
          NextUntouched(vs0, c0, levels.Views(), engine.originalOrder.View(), engine.trades,
                        ViewsOf(engine.modifiedOrders), updates);
          updates := SweepNext(engine, k, vs0, c0, updates);
        }
        k := k + 1;
      }
    }

    lemma NextUntouched(vs0: seq<LevelView>, c0: OrderView, vs: seq<LevelView>, c: OrderView,
                        trades: seq<Trade>, touched: seq<OrderView>, updates: seq<LevelUpdate>)
      requires SideProgress(side, vs0, c0, vs, c, trades, touched, updates)
      requires NoneEmpty(vs0)
      ensures |updates| < |vs| ==> vs[|updates|].orders != []
    {
    }

    /** The second loop of MatchOrder: levels left with nothing leave the map. */
    method EraseSwept(updates: seq<LevelUpdate>)
      requires levels.Valid() && levels.side == side
      requires |updates| <= |levels.bookCont|
      requires forall i :: 0 <= i < |updates| ==>
        updates[i] == LevelUpdate(side, levels.bookCont[i].price, levels.bookCont[i].totalQty)
      requires forall i :: 0 <= i < |updates| - 1 ==> updates[i].total == 0
      modifies levels`bookCont
      ensures levels.Valid()
      ensures levels.bookCont == old(levels.bookCont)[Emptied(updates)..]
    {
      hide LevelsOk;
      hide LevelViews;
      hide Ordered;
      ghost var ls, e := levels.bookCont, 0;
      var j := 0;
      while j < |updates|
        invariant 0 <= e <= j <= |updates|
        invariant levels.Valid() && levels.side == side
        invariant levels.bookCont == ls[e..]
        invariant j < |updates| ==> e == j
        invariant j == |updates| ==> e == Emptied(updates)
      {
        DropFirst(ls, j);
        EraseIfGone(updates[j], 0);
        j, e := j + 1, if updates[j].total == 0 then j + 1 else j;
      }
    }

    /** A sweep went through the first t of the levels ls and erased the first e
        from the map; only the first t may have orders waiting to be unlinked. */
    ghost predicate Swept(ls: seq<PriceLevel>, t: nat, e: nat)
      reads levels, levels.LevelRepr
    {
      && levels.side == side && levels !in levels.LevelRepr
      && LevelsOk(ls, side, levels.LevelRepr) && Ordered(side, ls)
      && e <= t <= |ls| && levels.bookCont == ls[e..]
      && (forall i :: t <= i < |ls| ==> ls[i].ordersToBeRemoved == [])
      && NoneEmpty(LevelViews(ls)[e..])
    }

    /** When the sweep is over: what it amounts to, and which levels are to be erased. */
    lemma SweepFinished(engine: MatchingEngine<PriceLevel>, vs0: seq<LevelView>, c0: OrderView,
                        updates: seq<LevelUpdate>)
      requires levels.Valid() && levels.side == side && NoneEmpty(vs0)
      requires Sweeping(engine, vs0, c0, updates)
      requires |updates| == |levels.bookCont| || engine.originalOrder.remainingQty == 0
      ensures var r := Sweep(Flatten(vs0), c0);
              var e := Emptied(updates);
              && e <= |updates| <= |levels.bookCont|
              && r.rest == Flatten(LevelViews(levels.bookCont[e..]))
              && r.crossing == engine.originalOrder.View()
              && r.trades == engine.trades
              && r.touched == ViewsOf(engine.modifiedOrders)
              && updates == LevelUpdates(side, TradedPrices(r.trades), r.rest)
              && NoneEmpty(LevelViews(levels.bookCont)[e..])
      ensures forall i :: 0 <= i < |updates| ==>
        updates[i] == LevelUpdate(side, levels.bookCont[i].price, levels.bookCont[i].totalQty)
      ensures forall i :: 0 <= i < |updates| - 1 ==> updates[i].total == 0
      ensures engine.removeLevels == levels.bookCont[..|updates|]
      ensures forall i :: |updates| <= i < |levels.bookCont| ==> levels.bookCont[i].ordersToBeRemoved == []
    {
      hide PriceLevel.Valid;
      hide Order.View;
      hide LevelsOk;
      hide Ordered;
      hide LevelViews;
      hide Flatten;
      hide Sweep;
      hide Sum;
      hide ViewsOf;
      hide NotInLevels;
      hide LevelUpdates;
      hide TradedPrices;
      SideDone(side, vs0, c0, levels.Views(), engine.originalOrder.View(), engine.trades,
               ViewsOf(engine.modifiedOrders), updates);
      ViewsOk();
      SuffixViews(levels.bookCont, Emptied(updates));
    }

    /** Sweep this side with the engine's order. The levels it erases from the map
        stay reachable through the engine, their filled orders still linked. */
    method MatchOrder(engine: MatchingEngine<PriceLevel>)
      returns (updates: seq<LevelUpdate>, ghost t: nat, ghost e: nat)
      requires Valid()
      requires engine.trades == [] && engine.modifiedOrders == [] && engine.removeLevels == []
      requires engine !in levels.LevelRepr && engine.originalOrder !in levels.LevelRepr
      modifies levels`bookCont, levels.LevelRepr, engine`trades, engine`modifiedOrders, engine`removeLevels
      modifies engine.originalOrder`remainingQty, engine.originalOrder`status
      ensures levels.LevelRepr == old(levels.LevelRepr)
      ensures var r := Sweep(old(Flat()), old(engine.originalOrder.View()));
              && Flat() == r.rest
              && engine.originalOrder.View() == r.crossing
              && engine.trades == r.trades
              && ViewsOf(engine.modifiedOrders) == r.touched
              && updates == LevelUpdates(side, TradedPrices(r.trades), r.rest)
      ensures Swept(old(levels.bookCont), t, e)
      ensures t <= |old(levels.bookCont)| && engine.removeLevels == old(levels.bookCont)[..t]
    {
      hide PriceLevel.Valid;
      hide Order.View;
      hide LevelsOk;
      hide Ordered;
      hide LevelViews;
      hide Flatten;
      hide Sweep;
      hide Sum;
      hide ViewsOf;
      hide LevelUpdates;
      hide TradedPrices;
      hide Sweeping;
      hide NoneEmpty;
      ghost var vs0, c0 := levels.Views(), engine.originalOrder.View();
      updates := SweepLevels(engine);
      t, e := |updates|, Emptied(updates);
      SweepFinished(engine, vs0, c0, updates);
      EraseSwept(updates);
    }

    /** Once the marked orders of the swept levels ls are unlinked, those that are
        still in the map make up a side again. */
    lemma Reassemble(ls: seq<PriceLevel>, t: nat, e: nat)
      requires Swept(ls, t, e)
      requires forall i :: 0 <= i < |ls| ==> ls[i].ordersToBeRemoved == []
      ensures Valid() && Flat() == Flatten(LevelViews(ls)[e..])
    {
      hide PriceLevel.Valid;
      hide LevelsOk;
      hide Ordered;
      hide LevelViews;
      hide Flatten;
      SuffixViews(ls, e);
      SuffixOk(ls, side, levels.LevelRepr, e);
    }

    lemma SweptFlat(ls: seq<PriceLevel>, t: nat, e: nat)
      requires Swept(ls, t, e)
      ensures Flat() == Flatten(LevelViews(ls)[e..])
    {
      hide PriceLevel.Valid;
      hide LevelsOk;
      hide Ordered;
      hide LevelViews;
      hide Flatten;
      SuffixViews(ls, e);
    }

    /** Unlink the filled orders of the levels that a sweep went through. Some of
        these levels are no longer in the map. */
    method UnlinkFilled(removeLevels: seq<PriceLevel>, ghost ls: seq<PriceLevel>, ghost e: nat)
      requires Swept(ls, |removeLevels|, e) && removeLevels <= ls
      modifies levels.LevelRepr
      ensures Valid() && Flat() == old(Flat()) && levels.LevelRepr == old(levels.LevelRepr)
      ensures forall l :: l in removeLevels ==> l.ordersToBeRemoved == [] && l.LinkedOrders == old(l.Contents())
    {
      hide PriceLevel.Valid;
      hide LevelsOk;
      hide Ordered;
      hide LevelViews;
      hide Flatten;
      SweptFlat(ls, |removeLevels|, e);
      UnlinkLevels(removeLevels, LevelGroup(ls, side, levels.LevelRepr));
      Reassemble(ls, |removeLevels|, e);
    }
  }
}
