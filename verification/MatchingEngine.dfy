/** One crossing order being matched: its fills, and what they produced.
    Level is the type of price level, which this module does not look into. */
module MatchingEngines {
  import opened Types
  import opened Orders
  import opened Sweeps

  class MatchingEngine<Level> {
    const originalOrder: Order
    var trades: seq<Trade>
    var modifiedOrders: seq<Order>
    var removeLevels: seq<Level>

    constructor (order: Order)
      ensures originalOrder == order && trades == [] && modifiedOrders == [] && removeLevels == []
    {
      originalOrder := order;
      trades, modifiedOrders, removeLevels := [], [], [];
    }

    predicate HasRemainingQty()
      reads originalOrder
    {
      originalOrder.remainingQty > 0
    }

    method MatchOrder(order: Order) returns (removedQty: Quantity)
      requires order != originalOrder
      modifies this`trades, this`modifiedOrders
      modifies order`remainingQty, order`status
      modifies originalOrder`remainingQty, originalOrder`status
      ensures removedQty == Min(old(order.remainingQty), old(originalOrder.remainingQty))
      ensures order.View() == Settle(old(order.View()), removedQty)
      ensures originalOrder.View() == Settle(old(originalOrder.View()), removedQty)
      ensures trades == old(trades) + [TradeOf(old(order.View()), old(originalOrder.View()), removedQty)]
      ensures var t := trades[|old(trades)|];
              && t.price == order.price && t.qty == removedQty && t.crossingSide == originalOrder.side
              && t.passiveAccount == order.account && t.crossingAccount == originalOrder.account
              && t.passiveId == order.orderId && t.crossingId == originalOrder.orderId
      ensures order.remainingQty == old(order.remainingQty) - removedQty
      ensures originalOrder.remainingQty == old(originalOrder.remainingQty) - removedQty
      ensures order.status == if order.remainingQty == 0 then Filled else Partial
      ensures originalOrder.status == if originalOrder.remainingQty == 0 then Filled else Partial
      ensures modifiedOrders == old(modifiedOrders) + [order]
    {
      removedQty := Min(order.remainingQty, originalOrder.remainingQty);
      var _ := order.ReduceQty(removedQty);
      originalOrder.remainingQty := originalOrder.remainingQty - removedQty;

      if order.remainingQty == originalOrder.remainingQty {
        order.SetStatus(Filled);
        originalOrder.SetStatus(Filled);
      } else if order.remainingQty > originalOrder.remainingQty {
        order.SetStatus(Partial);
        originalOrder.SetStatus(Filled);
      } else if order.remainingQty < originalOrder.remainingQty {
        order.SetStatus(Filled);
        originalOrder.SetStatus(Partial);
      }

      modifiedOrders := modifiedOrders + [order];
      trades := trades + [Trade(order.price, removedQty, originalOrder.side, order.account,
                                originalOrder.account, order.orderId, originalOrder.orderId)];
    }

    method AddLevelToRemoveOrders(level: Level)
      modifies this`removeLevels
      ensures removeLevels == old(removeLevels) + [level]
    {
      removeLevels := removeLevels + [level];
    }
  }
}
