/** The reference order book: each side is one flat list of live orders, best
    price first and, within a price, oldest first. */
module FlatBook {
  import opened Types
  import opened Sweeps

  ghost predicate HasId(os: seq<OrderView>, id: OrderId) {
    exists i :: 0 <= i < |os| && os[i].id == id
  }

  predicate HasIdAt(os: seq<OrderView>, price: Price, id: OrderId) {
    exists o :: o in os && o.id == id && o.price == price
  }

  function Delete(os: seq<OrderView>, id: OrderId): seq<OrderView> {
    if os == [] then []
    else if os[0].id == id then Delete(os[1..], id)
    else [os[0]] + Delete(os[1..], id)
  }

  lemma {:induction false} DeleteAbsent(os: seq<OrderView>, id: OrderId)
    requires !HasId(os, id)
    ensures Delete(os, id) == os
  {
    if os != [] {
      assert os[0].id != id;
      assert forall i :: 0 <= i < |os[1..]| ==> os[1..][i] == os[i + 1];
      DeleteAbsent(os[1..], id);
    }
  }

  lemma {:induction false} DeleteAppend(a: seq<OrderView>, b: seq<OrderView>, id: OrderId)
    ensures Delete(a + b, id) == Delete(a, id) + Delete(b, id)
  {
    if a == [] {
      assert a + b == b;
    } else {
      assert (a + b)[1..] == a[1..] + b;
      DeleteAppend(a[1..], b, id);
    }
  }

  lemma {:induction false} DeleteAt(os: seq<OrderView>, k: nat)
    requires k < |os|
    requires forall i :: 0 <= i < |os| && i != k ==> os[i].id != os[k].id
    ensures Delete(os, os[k].id) == os[..k] + os[k + 1..]
  {
    var id := os[k].id;
    assert os == os[..k] + ([os[k]] + os[k + 1..]);
    DeleteAppend(os[..k], [os[k]] + os[k + 1..], id);
    DeleteAbsent(os[..k], id);
    assert ([os[k]] + os[k + 1..])[1..] == os[k + 1..];
    DeleteAbsent(os[k + 1..], id);
  }

  /** Cancel the order with this id, if it rests at this price. */
  function DeleteAtPrice(os: seq<OrderView>, price: Price, id: OrderId): seq<OrderView> {
    if os == [] then []
    else if os[0].id == id && os[0].price == price then DeleteAtPrice(os[1..], price, id)
    else [os[0]] + DeleteAtPrice(os[1..], price, id)
  }

  lemma {:induction false} DeleteAtMembers(os: seq<OrderView>, price: Price, id: OrderId)
    ensures forall o :: o in DeleteAtPrice(os, price, id) <==> o in os && !(o.id == id && o.price == price)
  {
    if os != [] {
      assert os == [os[0]] + os[1..];
      DeleteAtMembers(os[1..], price, id);
    }
  }

  /** When every order with this id rests at this price, the price is no restriction. */
  lemma {:induction false} DeleteAtTruePrice(os: seq<OrderView>, price: Price, id: OrderId)
    requires forall o :: o in os && o.id == id ==> o.price == price
    ensures DeleteAtPrice(os, price, id) == Delete(os, id)
  {
    if os != [] {
      assert os[0] in os;
      DeleteAtTruePrice(os[1..], price, id);
    }
  }

  lemma {:induction false} DeleteAtOtherPrice(os: seq<OrderView>, price: Price, id: OrderId)
    requires forall o :: o in os ==> o.price != price
    ensures DeleteAtPrice(os, price, id) == os
  {
    if os != [] {
      assert os[0] in os;
      DeleteAtOtherPrice(os[1..], price, id);
    }
  }

  lemma {:induction false} DeleteAtPriceAppend(a: seq<OrderView>, b: seq<OrderView>, price: Price, id: OrderId)
    ensures DeleteAtPrice(a + b, price, id) == DeleteAtPrice(a, price, id) + DeleteAtPrice(b, price, id)
  {
    if a == [] {
      assert a + b == b;
    } else {
      assert (a + b)[1..] == a[1..] + b;
      DeleteAtPriceAppend(a[1..], b, price, id);
    }
  }

  /** Join the queue behind every order that is at least as good. */
  function Insert(side: Side, os: seq<OrderView>, o: OrderView): seq<OrderView> {
    if os == [] || Before(side, o.price, os[0].price) then [o] + os
    else [os[0]] + Insert(side, os[1..], o)
  }

  lemma {:induction false} InsertBetween(side: Side, a: seq<OrderView>, b: seq<OrderView>, o: OrderView)
    requires forall x :: x in a ==> !Before(side, o.price, x.price)
    requires b == [] || Before(side, o.price, b[0].price)
    ensures Insert(side, a + b, o) == a + [o] + b
  {
    if a == [] {
      assert a + b == b;
    } else {
      assert a[0] in a;
      assert (a + b)[1..] == a[1..] + b;
      InsertBetween(side, a[1..], b, o);
    }
  }

  /** What the orders at one price still want. */
  function LevelTotal(os: seq<OrderView>, price: Price): nat {
    if os == [] then 0
    else (if os[0].price == price then os[0].remaining else 0) + LevelTotal(os[1..], price)
  }

  lemma {:induction false} LevelTotalAppend(a: seq<OrderView>, b: seq<OrderView>, price: Price)
    ensures LevelTotal(a + b, price) == LevelTotal(a, price) + LevelTotal(b, price)
  {
    if a == [] {
      assert a + b == b;
    } else {
      assert (a + b)[1..] == a[1..] + b;
      LevelTotalAppend(a[1..], b, price);
    }
  }

  lemma {:induction false} LevelTotalHere(os: seq<OrderView>, price: Price)
    requires forall o :: o in os ==> o.price == price
    ensures LevelTotal(os, price) == Sum(os)
  {
    if os != [] {
      assert os[0] in os;
      LevelTotalHere(os[1..], price);
    }
  }

  lemma {:induction false} LevelTotalElsewhere(os: seq<OrderView>, price: Price)
    requires forall o :: o in os ==> o.price != price
    ensures LevelTotal(os, price) == 0
  {
    if os != [] {
      assert os[0] in os;
      LevelTotalElsewhere(os[1..], price);
    }
  }

  /** The prices that traded, in the order in which they did. */
  function TradedPrices(trades: seq<Trade>): seq<Price> {
    if trades == [] then []
    else if |trades| > 1 && trades[1].price == trades[0].price then TradedPrices(trades[1..])
    else [trades[0].price] + TradedPrices(trades[1..])
  }

  lemma {:induction false} TradedPricesAppend(a: seq<Trade>, b: seq<Trade>, price: Price)
    requires b != [] && forall t :: t in b ==> t.price == price
    requires a == [] || a[|a| - 1].price != price
    ensures TradedPrices(a + b) == TradedPrices(a) + [price]
  {
    if a == [] {
      assert a + b == b && b[0] in b;
      if |b| > 1 {
        assert b[1] in b;
        TradedPricesAppend([], b[1..], price);
        assert [] + b[1..] == b[1..];
      }
    } else {
      assert (a + b)[1..] == a[1..] + b;
      assert b[0] in b;
      TradedPricesAppend(a[1..], b, price);
    }
  }

  /** One update for each of these prices, carrying its total in os. */
  function LevelUpdates(side: Side, prices: seq<Price>, os: seq<OrderView>): (us: seq<LevelUpdate>)
    ensures |us| == |prices|
    ensures forall i :: 0 <= i < |us| ==> us[i] == LevelUpdate(side, prices[i], LevelTotal(os, prices[i]))
  {
    seq(|prices|, i requires 0 <= i < |prices| => LevelUpdate(side, prices[i], LevelTotal(os, prices[i])))
  }
}
