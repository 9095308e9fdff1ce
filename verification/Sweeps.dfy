/** The reference meaning of matching: one crossing order filled greedily
    against a flat list of passive orders, best first. */
module Sweeps {
  import opened Types

  function Sum(os: seq<OrderView>): nat {
    if os == [] then 0 else os[0].remaining + Sum(os[1..])
  }

  lemma {:induction false} SumAppend(a: seq<OrderView>, b: seq<OrderView>)
    ensures Sum(a + b) == Sum(a) + Sum(b)
  {
    if a == [] {
      assert a + b == b;
    } else {
      assert (a + b)[1..] == a[1..] + b;
      SumAppend(a[1..], b);
    }
  }

  lemma {:induction false} SumUpdate(a: seq<OrderView>, k: nat, o: OrderView)
    requires k < |a|
    ensures Sum(a[k := o]) == Sum(a) - a[k].remaining + o.remaining
    ensures Sum(a) >= a[k].remaining
  {
    if k == 0 {
      assert a[k := o][1..] == a[1..];
    } else {
      assert a[k := o][1..] == a[1..][k - 1 := o];
      SumUpdate(a[1..], k - 1, o);
    }
  }

  lemma {:induction false} SumRemove(a: seq<OrderView>, k: nat)
    requires k < |a|
    ensures Sum(a[..k] + a[k + 1..]) == Sum(a) - a[k].remaining
    ensures Sum(a) >= a[k].remaining
  {
    assert a == a[..k] + ([a[k]] + a[k + 1..]);
    SumAppend(a[..k], [a[k]] + a[k + 1..]);
    SumAppend([a[k]], a[k + 1..]);
    SumAppend(a[..k], a[k + 1..]);
  }

  /** The order after q of it has traded. */
  function Settle(o: OrderView, q: int): OrderView
    requires 0 <= q <= o.remaining
  {
    o.(remaining := o.remaining - q, status := if o.remaining == q then Filled else Partial)
  }

  function TradeOf(passive: OrderView, crossing: OrderView, q: Quantity): Trade {
    Trade(passive.price, q, crossing.side, passive.account, crossing.account, passive.id, crossing.id)
  }

  datatype SweepResult = SweepResult(
    rest: seq<OrderView>,      // what is left of the passive orders
    crossing: OrderView,       // the crossing order afterwards
    trades: seq<Trade>,
    touched: seq<OrderView>)   // the passive orders that traded, afterwards

  function Join(trades: seq<Trade>, touched: seq<OrderView>, r: SweepResult): SweepResult {
    r.(trades := trades + r.trades, touched := touched + r.touched)
  }

  function Sweep(passive: seq<OrderView>, crossing: OrderView): SweepResult
    decreases |passive|
  {
    if passive == [] || crossing.remaining == 0 then
      SweepResult(passive, crossing, [], [])
    else
      var q := Min(passive[0].remaining, crossing.remaining);
      var p := Settle(passive[0], q);
      var t := TradeOf(passive[0], crossing, q);
      if p.remaining > 0 then
        SweepResult([p] + passive[1..], Settle(crossing, q), [t], [p])
      else
        Join([t], [p], Sweep(passive[1..], Settle(crossing, q)))
  }

  lemma JoinJoin(ts: seq<Trade>, us: seq<Trade>, ps: seq<OrderView>, qs: seq<OrderView>, r: SweepResult)
    ensures Join(ts, ps, Join(us, qs, r)) == Join(ts + us, ps + qs, r)
  {
  }

  lemma SweepDone(os: seq<OrderView>, c: OrderView)
    requires os == [] || c.remaining == 0
    ensures Sweep(os, c) == SweepResult(os, c, [], [])
  {
  }

  /** A sweep of a + b is a sweep of a, continued on whatever a left followed by b. */
  lemma {:induction false} SweepAppend(a: seq<OrderView>, b: seq<OrderView>, c: OrderView)
    ensures var r := Sweep(a, c);
            Sweep(a + b, c) == Join(r.trades, r.touched, Sweep(r.rest + b, r.crossing))
    decreases |a|
  {
    if a == [] || c.remaining == 0 {
      assert a == [] ==> a + b == b;
      var s := Sweep(a + b, c);
      assert [] + s.trades == s.trades && [] + s.touched == s.touched;
    } else {
      var q := Min(a[0].remaining, c.remaining);
      var p := Settle(a[0], q);
      var t := TradeOf(a[0], c, q);
      var c' := Settle(c, q);
      assert (a + b)[1..] == a[1..] + b;
      if p.remaining > 0 {
        assert c'.remaining == 0;
        assert [p] + (a[1..] + b) == ([p] + a[1..]) + b;
      } else {
        var r := Sweep(a[1..], c');
        SweepAppend(a[1..], b, c');
        JoinJoin([t], r.trades, [p], r.touched, Sweep(r.rest + b, r.crossing));
      }
    }
  }
}
