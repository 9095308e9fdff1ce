/** The mutable order object. */
module Orders {
  import opened Types

  class Order {
    const price: Price
    const qty: Quantity
    const side: Side
    const kind: OrderType
    const account: AccountId
    var symbol: Symbol
    var remainingQty: Quantity
    var status: OrderStatus
    var orderId: OrderId

    function View(): OrderView
      reads this
    {
      OrderView(orderId, price, qty, remainingQty, side, status, kind, account)
    }

    lemma ViewFields()
      ensures View().id == orderId && View().remaining == remainingQty && View().status == status
      ensures View().price == price && View().side == side && View().qty == qty && View().kind == kind
    {
    }

    constructor (symbol: Symbol, price: Price, qty: Quantity, side: Side, status: OrderStatus,
                 kind: OrderType, account: AccountId, orderId: OrderId)
      ensures View() == OrderView(orderId, price, qty, qty, side, status, kind, account)
      ensures this.symbol == symbol
    {
      this.symbol := symbol;
      this.price, this.qty, this.remainingQty := price, qty, qty;
      this.side, this.status, this.kind := side, status, kind;
      this.account, this.orderId := account, orderId;
    }

    /** The copy a list node makes of the order it is given. */
    constructor Copy(o: Order)
      ensures View() == o.View()
      ensures symbol == o.symbol
    {
      symbol := o.symbol;
      price, qty, remainingQty := o.price, o.qty, o.remainingQty;
      side, status, kind := o.side, o.status, o.kind;
      account, orderId := o.account, o.orderId;
    }

    /** Too large a reduction is refused (and logged), never wrapped around. */
    method ReduceQty(q: Quantity) returns (left: Quantity)
      modifies this`remainingQty
      ensures left == remainingQty
      ensures remainingQty == if q > old(remainingQty) then old(remainingQty) else old(remainingQty) - q
    {
      if q > remainingQty {
      } else {
        remainingQty := remainingQty - q;
      }
      left := remainingQty;
    }

    method SetStatus(s: OrderStatus)
      modifies this`status
      ensures status == s
    {
      status := s;
    }

    predicate IsBuy() {
      side == Buy
    }
  }

  ghost function ViewsOf(os: seq<Order>): (vs: seq<OrderView>)
    reads os
    ensures |vs| == |os| && forall i :: 0 <= i < |os| ==> vs[i] == os[i].View()
  {
    seq(|os|, i requires 0 <= i < |os| reads os => os[i].View())
  }

  lemma ViewsAppend(a: seq<Order>, b: seq<Order>)
    ensures ViewsOf(a + b) == ViewsOf(a) + ViewsOf(b)
  {
  }

  lemma NoViews(os: seq<Order>)
    ensures os == [] ==> ViewsOf(os) == []
  {
  }

  twostate lemma ViewsUnchanged(os: seq<Order>)
    requires forall o :: o in os ==> unchanged(o)
    ensures ViewsOf(os) == old(ViewsOf(os))
  {
    forall i | 0 <= i < |os| ensures os[i].View() == old(os[i].View()) {
      assert os[i] in os;
    }
  }
}
