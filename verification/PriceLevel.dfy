/** One price level: its queue of resting orders, the cached total of what
    they still want, and the nodes that matching has marked for removal. */
module PriceLevels {
  import opened Types
  import opened Orders
  import opened Sweeps
  import opened FlatBook
  import opened HashedLinkedList
  import opened MatchingEngines

  type OrderNode = Node<OrderId, Order>

  /** A queue whose first m orders are filled and whose others are live. */
  ghost predicate SoundQueue(os: seq<OrderView>, m: nat, price: Price, side: Side) {
    && m <= |os|
    && (forall i :: 0 <= i < |os| ==> os[i].price == price && os[i].side == side)
    && (forall i :: 0 <= i < m ==> os[i].remaining == 0 && os[i].status == Filled)
    && (forall i :: m <= i < |os| ==> os[i].remaining > 0 && os[i].status != Filled)
  }

  lemma SoundPush(os: seq<OrderView>, m: nat, price: Price, side: Side, o: OrderView)
    requires SoundQueue(os, m, price, side)
    requires o.price == price && o.side == side && o.remaining > 0 && o.status != Filled
    ensures SoundQueue(os + [o], m, price, side)
    ensures (os + [o])[m..] == os[m..] + [o]
    ensures Sum(os + [o]) == Sum(os) + o.remaining
  {
    SumAppend(os, [o]);
  }

  lemma SoundWithout(os: seq<OrderView>, k: nat, price: Price, side: Side)
    requires SoundQueue(os, 0, price, side) && k < |os|
    ensures SoundQueue(Without(os, k), 0, price, side)
    ensures Sum(Without(os, k)) == Sum(os) - os[k].remaining
  {
    hide Sum;
    SumRemove(os, k);
    forall i | 0 <= i < |Without(os, k)|
      ensures Without(os, k)[i] == os[if i < k then i else i + 1]
    {
    }
  }

  lemma SoundSuffix(os: seq<OrderView>, m: nat, price: Price, side: Side)
    requires SoundQueue(os, m, price, side)
    ensures SoundQueue(os[m..], 0, price, side)
    ensures Sum(os[m..]) == Sum(os)
  {
    if m > 0 {
      assert os[1..][m - 1..] == os[m..];
      SoundSuffix(os[1..], m - 1, price, side);
    }
  }

  lemma SoundLive(os: seq<OrderView>, m: nat, price: Price, side: Side)
    requires SoundQueue(os, m, price, side)
    ensures m < |os| ==> os[m].remaining > 0
  {
  }

  function Items(ns: seq<OrderNode>): (os: seq<Order>)
    ensures |os| == |ns| && forall i :: 0 <= i < |ns| ==> os[i] == ns[i].item
  {
    seq(|ns|, i requires 0 <= i < |ns| => ns[i].item)
  }

  lemma NoItems(before: seq<Order>, ns: seq<OrderNode>)
    ensures before == before + Items(ns[..0])
  {
  }

  lemma ItemsExtend(before: seq<Order>, ns: seq<OrderNode>, k: nat)
    requires k < |ns|
    ensures (before + Items(ns[..k])) + [ns[k].item] == before + Items(ns[..k + 1])
  {
  }

  /** How many orders at the front of the queue are filled, if m were and only
      the next one can have changed. */
  ghost function FilledUpTo(os: seq<OrderView>, m: nat): nat
    requires m < |os|
  {
    if os[m].remaining == 0 then m + 1 else m
  }

  lemma SoundStep(os: seq<OrderView>, m: nat, price: Price, side: Side, q: int)
    requires SoundQueue(os, m, price, side) && m < |os| && 0 <= q <= os[m].remaining
    ensures var os' := os[m := Settle(os[m], q)];
            && SoundQueue(os', FilledUpTo(os', m), price, side)
            && Sum(os') == Sum(os) - q && Sum(os) >= q
  {
    hide Sum;
    SumUpdate(os, m, Settle(os[m], q));
  }

  /** A sweep of the live orders begins by filling the first of them. */
  lemma SweepStep(os: seq<OrderView>, m: nat, c: OrderView)
    requires m < |os| && c.remaining > 0
    ensures var q := Min(os[m].remaining, c.remaining);
            var p := Settle(os[m], q);
            var os' := os[m := p];
            Sweep(os[m..], c) ==
            Join([TradeOf(os[m], c, q)], [p], Sweep(os'[FilledUpTo(os', m)..], Settle(c, q)))
  {
    var q := Min(os[m].remaining, c.remaining);
    var os' := os[m := Settle(os[m], q)];
    assert os[m..][0] == os[m] && os[m..][1..] == os[m + 1..];
    if os'[m].remaining > 0 {
      assert os'[m..] == [os'[m]] + os[m + 1..];
      SweepDone(os'[m..], Settle(c, q));
    } else {
      assert os'[m + 1..] == os[m + 1..];
    }
  }

  /** A sweep of os by c0 that has got as far as these trades: the queue is now
      live, its first m orders are filled, and the rest of the sweep is still to
      come with the crossing order at c. */
  ghost predicate Progress(os: seq<OrderView>, c0: OrderView, live: seq<OrderView>, m: nat, c: OrderView,
                           trades: seq<Trade>, touched: seq<OrderView>) {
    && m <= |touched| == |trades| <= m + 1
    && |touched| <= |os|
    && (c.remaining > 0 ==> |touched| == m)
    && live == touched + os[|touched|..]
    && Sweep(os, c0) == Join(trades, touched, Sweep(live[m..], c))
  }

  lemma ProgressStart(os: seq<OrderView>, c0: OrderView)
    ensures Progress(os, c0, os, 0, c0, [], [])
  {
  }

  lemma ProgressStep(os: seq<OrderView>, c0: OrderView, live: seq<OrderView>, m: nat, c: OrderView,
                     trades: seq<Trade>, touched: seq<OrderView>)
    requires Progress(os, c0, live, m, c, trades, touched)
    requires m < |live| && c.remaining > 0
    ensures var q := Min(live[m].remaining, c.remaining);
            var live' := live[m := Settle(live[m], q)];
            Progress(os, c0, live', FilledUpTo(live', m), Settle(c, q),
                     trades + [TradeOf(live[m], c, q)], touched + [live'[m]])
  {
    hide Sweep;
    hide Join;
    var q := Min(live[m].remaining, c.remaining);
    var live' := live[m := Settle(live[m], q)];
    SweepStep(live, m, c);
    JoinJoin(trades, [TradeOf(live[m], c, q)], touched, [live'[m]],
             Sweep(live'[FilledUpTo(live', m)..], Settle(c, q)));
    assert live' == (touched + [live'[m]]) + os[m + 1..];
  }

  lemma ProgressDone(os: seq<OrderView>, c0: OrderView, live: seq<OrderView>, m: nat, c: OrderView,
                     trades: seq<Trade>, touched: seq<OrderView>)
    requires Progress(os, c0, live, m, c, trades, touched)
    requires m == |live| || c.remaining == 0
    ensures Sweep(os, c0) == SweepResult(live[m..], c, trades, touched)
    ensures m <= |touched| == |trades| <= |live| && live[..|touched|] == touched
  {
  }

  class PriceLevel {
    const symbol: Symbol
    const price: Price
    const side: Side
    const orderCont: HashLinkedList<OrderId, Order>
    var totalQty: Quantity
    var ordersToBeRemoved: seq<OrderNode>

    // The orders linked into the list, marked ones included, front first.
    ghost var LinkedOrders: seq<OrderView>
    ghost var Repr: set<object>

    ghost predicate Valid()
      reads this, Repr
      ensures Valid() ==> this in Repr
    {
      && Structured()
      && SoundQueue(LinkedOrders, |ordersToBeRemoved|, price, side)
      && totalQty == Sum(LinkedOrders)
    }

    ghost predicate Structured()
      reads this, Repr
      ensures Structured() ==> this in Repr
    {
      && Queued()
      && |ordersToBeRemoved| <= |LinkedOrders|
      && ordersToBeRemoved == orderCont.Nodes[..|ordersToBeRemoved|]
    }

    ghost predicate Queued()
      reads this, Repr
      ensures Queued() ==> this in Repr
    {
      && this in Repr && orderCont in Repr
      && (forall n :: n in orderCont.Nodes ==> n in Repr && n.item in Repr)
      && orderCont.Valid()
      && |LinkedOrders| == |orderCont.Nodes|
      && (forall i :: 0 <= i < |LinkedOrders| ==>
            LinkedOrders[i] == orderCont.Nodes[i].item.View() && LinkedOrders[i].id == orderCont.Nodes[i].id)
    }

    /** The index finds an id exactly when the queue holds it, and then once. */
    lemma IdIndex(id: OrderId)
      requires Queued()
      ensures id in orderCont.nodeMap <==> HasId(LinkedOrders, id)
      ensures id in orderCont.nodeMap ==>
        id in orderCont.Position &&
        var k := orderCont.Position[id];
        && k < |LinkedOrders| && LinkedOrders[k].id == id
        && orderCont.Nodes[k] == orderCont.nodeMap[id]
        && (forall i :: 0 <= i < |LinkedOrders| && i != k ==> LinkedOrders[i].id != id)
    {
    }

    /** The cached total is what the live orders still want. */
    lemma TotalIsExact()
      requires Valid()
      ensures totalQty == Sum(LinkedOrders) == Sum(Contents())
      ensures SoundQueue(Contents(), 0, price, side)
    {
      SoundSuffix(LinkedOrders, |ordersToBeRemoved|, price, side);
    }

    /** The marked nodes are linked in front, and are exactly the filled orders. */
    lemma MarkedAreTheFilled()
      requires Valid()
      ensures ordersToBeRemoved <= orderCont.Nodes
      ensures forall i :: 0 <= i < |orderCont.Nodes| ==>
        var o := orderCont.Nodes[i].item;
        && (i < |ordersToBeRemoved| <==> o.status == Filled)
        && (i < |ordersToBeRemoved| <==> o.remainingQty == 0)
    {
    }

    lemma ContentsWhenSettled()
      requires ordersToBeRemoved == []
      ensures Contents() == LinkedOrders
    {
    }

    lemma Shape()
      requires Valid()
      ensures |LinkedOrders| == |orderCont.Nodes| && |ordersToBeRemoved| <= |orderCont.Nodes|
      ensures orderCont.front == if orderCont.Nodes == [] then null else orderCont.Nodes[0]
    {
    }

    lemma NodeAt(k: nat)
      requires Valid() && k < |orderCont.Nodes|
      ensures orderCont.Nodes[k].item in Repr
      ensures orderCont.Nodes[k].right == if k + 1 == |orderCont.Nodes| then null else orderCont.Nodes[k + 1]
    {
    }

    lemma ItemViews(k: nat)
      requires Queued() && k <= |LinkedOrders|
      ensures ViewsOf(Items(orderCont.Nodes[..k])) == LinkedOrders[..k]
      ensures forall o :: o in Items(orderCont.Nodes[..k]) ==> o in Repr
    {
    }

    lemma ItemsApart(k: nat)
      requires Queued() && k < |LinkedOrders|
      ensures forall i :: 0 <= i < |LinkedOrders| && i != k ==> orderCont.Nodes[i].item != orderCont.Nodes[k].item
    {
    }

    /** The orders that are still live: those not marked for removal. */
    ghost function Contents(): seq<OrderView>
      reads this
    {
      if |ordersToBeRemoved| <= |LinkedOrders| then LinkedOrders[|ordersToBeRemoved|..] else []
    }

    ghost function View(): LevelView
      reads this
    {
      LevelView(price, Contents())
    }

    constructor (symbol: Symbol, price: Price, side: Side)
      ensures Valid() && fresh(Repr)
      ensures this.symbol == symbol && this.price == price && this.side == side
      ensures ordersToBeRemoved == [] && Contents() == []
    {
      this.symbol, this.price, this.side := symbol, price, side;
      totalQty := 0;
      orderCont := new HashLinkedList();
      ordersToBeRemoved, LinkedOrders := [], [];
      new;
      Repr := {this, orderCont};
    }

    method PushCopy(order: Order)
      requires Structured()
      requires order.orderId !in orderCont.nodeMap
      modifies this`LinkedOrders, this`Repr, orderCont, orderCont.Nodes`left, orderCont.Nodes`right
      ensures Structured() && fresh(Repr - old(Repr)) && old(Repr) <= Repr
      ensures LinkedOrders == old(LinkedOrders) + [old(order.View())]
    {
      hide HashLinkedList.Chained;
      hide HashLinkedList.Valid;
      hide Order.View;
      order.ViewFields();
      var copy := new Order.Copy(order);
      ghost var node := orderCont.Push(order.orderId, copy);
      Repr := Repr + {copy, node};
      LinkedOrders := LinkedOrders + [copy.View()];
    }

    method AddOrder(order: Order) returns (update: LevelUpdate)
      requires Valid()
      requires order.orderId != 0
      requires order.price == price && order.side == side
      requires order.remainingQty > 0 && order.status != Filled
      requires totalQty + order.remainingQty < U64_LIMIT
      modifies Repr
      ensures Valid() && fresh(Repr - old(Repr)) && old(Repr) <= Repr
      ensures ordersToBeRemoved == old(ordersToBeRemoved)
      ensures LinkedOrders == if HasId(old(LinkedOrders), old(order.orderId)) then old(LinkedOrders)
                              else old(LinkedOrders) + [old(order.View())]
      ensures update == LevelUpdate(side, price, totalQty)
    {
      hide HashLinkedList.Valid;
      hide SoundQueue;
      hide Sum;
      IdIndex(order.orderId);
      if orderCont.Contains(order.orderId) {
        return LevelUpdate(side, price, totalQty);
      }
      SoundPush(LinkedOrders, |ordersToBeRemoved|, price, side, order.View());
      PushCopy(order);
      totalQty := totalQty + order.remainingQty;
      update := LevelUpdate(side, price, totalQty);
    }

    method Unlink(node: OrderNode, ghost k: nat)
      requires Queued()
      requires k < |LinkedOrders| && orderCont.Nodes[k] == node
      modifies this`LinkedOrders, orderCont, orderCont.Nodes`left, orderCont.Nodes`right
      ensures Queued()
      ensures orderCont.Nodes == Without(old(orderCont.Nodes), k)
      ensures LinkedOrders == Without(old(LinkedOrders), k)
    {
      hide HashLinkedList.Valid;
      hide Order.View;
      orderCont.RemoveNode(node, k);
      LinkedOrders := Without(LinkedOrders, k);
      assert orderCont.Nodes == Without(old(orderCont.Nodes), k);
    }

    method UnlinkId(id: OrderId)
      requires Queued()
      requires id in orderCont.nodeMap
      modifies this`LinkedOrders, orderCont, orderCont.Nodes`left, orderCont.Nodes`right
      ensures Queued()
      ensures id in old(orderCont.Position) && old(orderCont.Position)[id] < |old(LinkedOrders)|
      ensures orderCont.Nodes == Without(old(orderCont.Nodes), old(orderCont.Position)[id])
      ensures LinkedOrders == Without(old(LinkedOrders), old(orderCont.Position)[id])
    {
      hide HashLinkedList.Valid;
      hide Order.View;
      IdIndex(id);
      ghost var k := orderCont.Position[id];
      orderCont.Remove(id);
      LinkedOrders := Without(LinkedOrders, k);
      assert orderCont.Nodes == Without(old(orderCont.Nodes), k);
    }

    method RemoveOrder(id: OrderId) returns (update: LevelUpdate)
      requires Valid()
      requires ordersToBeRemoved == []
      modifies Repr
      ensures Valid() && Repr == old(Repr)
      ensures ordersToBeRemoved == []
      ensures LinkedOrders == Delete(old(LinkedOrders), id)
      ensures update == LevelUpdate(side, price, totalQty)
    {
      hide HashLinkedList.Valid;
      hide SoundQueue;
      hide Sum;
      hide Delete;
      IdIndex(id);
      var res := orderCont.Find(id);
      if res != null {
        ghost var k := orderCont.Position[id];
        SoundWithout(LinkedOrders, k, price, side);
        DeleteAt(LinkedOrders, k);
        totalQty := totalQty - res.item.remainingQty;
        UnlinkId(id);
      } else {
        DeleteAbsent(LinkedOrders, id);
      }
      update := LevelUpdate(side, price, totalQty);
    }

    method RemoveMarkedOrderNodes()
      requires Valid()
      modifies Repr
      ensures Valid() && Repr == old(Repr)
      ensures ordersToBeRemoved == []
      ensures Contents() == old(Contents()) && LinkedOrders == Contents()
    {
      hide HashLinkedList.Valid;
      hide SoundQueue;
      hide Sum;
      SoundSuffix(LinkedOrders, |ordersToBeRemoved|, price, side);
      var i := 0;
      while i < |ordersToBeRemoved|
        invariant 0 <= i <= |ordersToBeRemoved|
        invariant Queued() && Repr == old(Repr)
        invariant ordersToBeRemoved == old(ordersToBeRemoved) && totalQty == old(totalQty)
        invariant orderCont.Nodes == old(orderCont.Nodes)[i..]
        invariant LinkedOrders == old(LinkedOrders)[i..]
      {
        Unlink(ordersToBeRemoved[i], 0);
        i := i + 1;
      }
      ordersToBeRemoved := [];
    }

    /** One fill against the first live order of the queue. */
    method MatchNode(engine: MatchingEngine<PriceLevel>, node: OrderNode)
      requires Valid()
      requires |ordersToBeRemoved| < |LinkedOrders| && node == orderCont.Nodes[|ordersToBeRemoved|]
      requires engine.originalOrder !in Repr && engine.HasRemainingQty()
      modifies this`totalQty, this`ordersToBeRemoved, this`LinkedOrders
      modifies node.item`remainingQty, node.item`status
      modifies engine`trades, engine`modifiedOrders
      modifies engine.originalOrder`remainingQty, engine.originalOrder`status
      ensures Valid()
      ensures var m, c, os := |old(ordersToBeRemoved)|, old(engine.originalOrder.View()), old(LinkedOrders);
              var q := Min(os[m].remaining, c.remaining);
              && LinkedOrders == os[m := Settle(os[m], q)]
              && |ordersToBeRemoved| == FilledUpTo(LinkedOrders, m)
              && engine.originalOrder.View() == Settle(c, q)
              && engine.trades == old(engine.trades) + [TradeOf(os[m], c, q)]
              && engine.modifiedOrders == old(engine.modifiedOrders) + [node.item]
              && totalQty == old(totalQty) - q
    {
      hide HashLinkedList.Valid;
      hide SoundQueue;
      hide Sum;
      hide Order.View;
      hide Sweep;
      ghost var m := |ordersToBeRemoved|;
      engine.originalOrder.ViewFields();
      node.item.ViewFields();
      SoundStep(LinkedOrders, m, price, side, Min(LinkedOrders[m].remaining, engine.originalOrder.remainingQty));
      ItemsApart(m);
      var removedQty := engine.MatchOrder(node.item);
      totalQty := totalQty - removedQty;
      node.item.ViewFields();
      LinkedOrders := LinkedOrders[m := node.item.View()];
      if node.item.status == Filled {
        ordersToBeRemoved := ordersToBeRemoved + [node];
      }
    }

    /** How far the sweep of the queue os by an order that stood at c0 has got. */
    ghost predicate Filling(engine: MatchingEngine<PriceLevel>, os: seq<OrderView>, c0: OrderView,
                            trades: seq<Trade>, touched: seq<OrderView>)
      reads this, engine.originalOrder
    {
      && Progress(os, c0, LinkedOrders, |ordersToBeRemoved|, engine.originalOrder.View(), trades, touched)
      && engine.originalOrder.View().remaining == engine.originalOrder.remainingQty
    }

    /** The loop of MatchOrder: every node is visited, front to back. */
    method FillQueue(engine: MatchingEngine<PriceLevel>)
      returns (ghost trades: seq<Trade>, ghost touched: seq<OrderView>)
      requires Valid()
      requires ordersToBeRemoved == []
      requires engine !in Repr && engine.originalOrder !in Repr
      modifies Repr, engine`trades, engine`modifiedOrders
      modifies engine.originalOrder`remainingQty, engine.originalOrder`status
      ensures Valid() && Repr == old(Repr)
      ensures Filling(engine, old(LinkedOrders), old(engine.originalOrder.View()), trades, touched)
      ensures |ordersToBeRemoved| == |LinkedOrders| || engine.originalOrder.remainingQty == 0
      ensures engine.trades == old(engine.trades) + trades
      ensures |touched| <= |orderCont.Nodes|
      ensures engine.modifiedOrders == old(engine.modifiedOrders) + Items(orderCont.Nodes[..|touched|])
      ensures if trades == [] then totalQty == old(totalQty) else totalQty < old(totalQty)
    {
      hide Valid;
      hide Order.View;
      hide Sweep;
      hide Progress;
      hide Items;
      trades, touched := [], [];
      ghost var os, c0 := LinkedOrders, engine.originalOrder.View();
      ghost var ns := orderCont.Nodes;
      ProgressStart(os, c0);
      Shape();
      engine.originalOrder.ViewFields();
      NoItems(engine.modifiedOrders, ns);
      var node := orderCont.front;
      ghost var k := 0;
      while node != null
        decreases |ns| - k
        invariant 0 <= k <= |ns| && node == (if k < |ns| then ns[k] else null)
        invariant Valid() && Repr == old(Repr) && orderCont.Nodes == ns
        invariant Filling(engine, os, c0, trades, touched)
        invariant engine.originalOrder.remainingQty > 0 ==> |ordersToBeRemoved| == |touched| == k
        invariant |touched| <= |ns|
        invariant engine.trades == old(engine.trades) + trades
        invariant engine.modifiedOrders == old(engine.modifiedOrders) + Items(ns[..|touched|])
        invariant if trades == [] then totalQty == old(totalQty) else totalQty < old(totalQty)
      {
        Shape();
        NodeAt(k);
        if engine.HasRemainingQty() {
          trades, touched := Offer(engine, node, os, c0, old(engine.trades), trades, touched);
          ItemsExtend(old(engine.modifiedOrders), ns, k);
        }
        NodeAt(k);
        node := node.right;
        k := k + 1;
      }
      Shape();
    }

    method Offer(engine: MatchingEngine<PriceLevel>, node: OrderNode, ghost os: seq<OrderView>, ghost c0: OrderView,
                 ghost before: seq<Trade>, ghost trades: seq<Trade>, ghost touched: seq<OrderView>)
      returns (ghost trades': seq<Trade>, ghost touched': seq<OrderView>)
      requires Valid()
      requires |ordersToBeRemoved| < |LinkedOrders| && node == orderCont.Nodes[|ordersToBeRemoved|]
      requires engine.originalOrder !in Repr && engine.HasRemainingQty()
      requires Filling(engine, os, c0, trades, touched) && engine.trades == before + trades
      modifies this`totalQty, this`ordersToBeRemoved, this`LinkedOrders
      modifies node.item`remainingQty, node.item`status
      modifies engine`trades, engine`modifiedOrders
      modifies engine.originalOrder`remainingQty, engine.originalOrder`status
      ensures Valid()
      ensures Filling(engine, os, c0, trades', touched')
      ensures |touched'| == |touched| + 1 && trades' != []
      ensures engine.trades == before + trades'
      ensures engine.modifiedOrders == old(engine.modifiedOrders) + [node.item]
      ensures totalQty < old(totalQty)
      ensures engine.originalOrder.remainingQty > 0 ==> |ordersToBeRemoved| == |old(ordersToBeRemoved)| + 1
    {
      hide HashLinkedList.Valid;
      hide SoundQueue;
      hide Sum;
      hide Order.View;
      hide Sweep;
      hide Progress;
      ghost var k := |ordersToBeRemoved|;
      ghost var c := engine.originalOrder.View();
      ghost var t := TradeOf(LinkedOrders[k], c, Min(LinkedOrders[k].remaining, c.remaining));
      SoundLive(LinkedOrders, k, price, side);
      ProgressStep(os, c0, LinkedOrders, k, c, trades, touched);
      MatchNode(engine, node);
      trades', touched' := trades + [t], touched + [LinkedOrders[k]];
      engine.originalOrder.ViewFields();
    }

    /** Every live order is offered to the engine, oldest first, for as long as
        the crossing order wants more. Filled orders stay linked and are marked. */
    method MatchOrder(engine: MatchingEngine<PriceLevel>) returns (update: LevelUpdate)
      requires Valid()
      requires ordersToBeRemoved == []
      requires engine !in Repr && engine.originalOrder !in Repr
      requires forall o :: o in engine.modifiedOrders ==> o !in Repr && o != engine.originalOrder
      modifies Repr, engine`trades, engine`modifiedOrders, engine`removeLevels
      modifies engine.originalOrder`remainingQty, engine.originalOrder`status
      ensures Valid() && Repr == old(Repr)
      ensures update == LevelUpdate(side, price, totalQty)
      ensures var r := Sweep(old(Contents()), old(engine.originalOrder.View()));
              && Contents() == r.rest
              && engine.originalOrder.View() == r.crossing
              && engine.trades == old(engine.trades) + r.trades
              && engine.removeLevels ==
                   old(engine.removeLevels) + (if r.trades == [] then [] else [this])
              && |ordersToBeRemoved| <= |r.trades|
              && ViewsOf(engine.modifiedOrders) == old(ViewsOf(engine.modifiedOrders)) + r.touched
      ensures forall o :: o in engine.modifiedOrders ==> o in old(engine.modifiedOrders) || o in Repr
    {
      hide HashLinkedList.Valid;
      hide SoundQueue;
      hide Sum;
      hide Order.View;
      hide Sweep;
      hide Progress;
      hide ViewsOf;
      hide Items;
      var prevTotalQty := totalQty;
      ghost var os, c0 := LinkedOrders, engine.originalOrder.View();
      ghost var trades, touched := FillQueue(engine);
      ProgressDone(os, c0, LinkedOrders, |ordersToBeRemoved|, engine.originalOrder.View(), trades, touched);
      ItemViews(|touched|);
      ViewsUnchanged(old(engine.modifiedOrders));
      ViewsAppend(old(engine.modifiedOrders), Items(orderCont.Nodes[..|touched|]));
      if totalQty != prevTotalQty {
        engine.AddLevelToRemoveOrders(this);
      }
      update := LevelUpdate(side, price, totalQty);
    }
  }
}
