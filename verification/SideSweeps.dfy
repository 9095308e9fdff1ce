/** A sweep that goes level by level is the sweep of the flat list. */
module SideSweeps {
  import opened Types
  import opened Sweeps
  import opened FlatBook
  import opened SideViews

  /** A sweep ends because one of the two sides is exhausted. */
  lemma {:induction false} SweepExhausts(os: seq<OrderView>, c: OrderView)
    ensures var r := Sweep(os, c); r.rest == [] || r.crossing.remaining == 0
    decreases |os|
  {
    if os != [] && c.remaining > 0 {
      var q := Min(os[0].remaining, c.remaining);
      if q == os[0].remaining {
        SweepExhausts(os[1..], Settle(c, q));
      }
    }
  }

  lemma {:induction false} SweepRestOk(side: Side, price: Price, os: seq<OrderView>, c: OrderView)
    requires LevelOk(side, LevelView(price, os))
    ensures LevelOk(side, LevelView(price, Sweep(os, c).rest))
    decreases |os|
  {
    if os != [] && c.remaining > 0 {
      var q := Min(os[0].remaining, c.remaining);
      assert os[0] in os;
      if q == os[0].remaining {
        assert LevelOk(side, LevelView(price, os[1..]));
        SweepRestOk(side, price, os[1..], Settle(c, q));
      }
    }
  }

  lemma {:induction false} SweepTradePrices(os: seq<OrderView>, c: OrderView, price: Price)
    requires forall o :: o in os ==> o.price == price
    ensures forall t :: t in Sweep(os, c).trades ==> t.price == price
    ensures os != [] && c.remaining > 0 ==> Sweep(os, c).trades != []
    ensures |Sweep(os, c).trades| == |Sweep(os, c).touched|
    decreases |os|
  {
    if os != [] && c.remaining > 0 {
      var q := Min(os[0].remaining, c.remaining);
      assert os[0] in os;
      if q == os[0].remaining {
        SweepTradePrices(os[1..], Settle(c, q), price);
      }
    }
  }

  function Prices(vs: seq<LevelView>): (ps: seq<Price>)
    ensures |ps| == |vs| && forall i :: 0 <= i < |vs| ==> ps[i] == vs[i].price
  {
    seq(|vs|, i requires 0 <= i < |vs| => vs[i].price)
  }

  ghost predicate UpdatesFor(side: Side, vs: seq<LevelView>, updates: seq<LevelUpdate>) {
    && |updates| <= |vs|
    && (forall i :: 0 <= i < |updates| ==> updates[i] == LevelUpdate(side, vs[i].price, Sum(vs[i].orders)))
  }

  /** The levels vs0 have been swept by an order that stood at c0 as far as the
      levels vs: the first |updates| of them traded, and produced these trades,
      touched orders and updates; the order now stands at c. */
  ghost predicate SideProgress(side: Side, vs0: seq<LevelView>, c0: OrderView, vs: seq<LevelView>, c: OrderView,
                               trades: seq<Trade>, touched: seq<OrderView>, updates: seq<LevelUpdate>) {
    && |vs| == |vs0| && SideOk(side, vs)
    && UpdatesFor(side, vs, updates)
    && vs[|updates|..] == vs0[|updates|..]
    && (forall i :: 0 <= i < |updates| && (c.remaining > 0 || i < |updates| - 1) ==> vs[i].orders == [])
    && TradedPrices(trades) == Prices(vs[..|updates|])
    && (trades == [] <==> updates == [])
    && (trades != [] ==> trades[|trades| - 1].price == vs[|updates| - 1].price)
    && Sweep(Flatten(vs0), c0) == Join(trades, touched, Sweep(Flatten(vs), c))
  }

  lemma SideStart(side: Side, vs: seq<LevelView>, c: OrderView)
    requires SideOk(side, vs)
    ensures SideProgress(side, vs, c, vs, c, [], [], [])
  {
  }

  /** Sweeping the level after emptied ones is the next part of the flat sweep. */
  lemma LevelThenRest(vs: seq<LevelView>, k: nat, c: OrderView)
    requires k < |vs| && forall i :: 0 <= i < k ==> vs[i].orders == []
    ensures var r := Sweep(vs[k].orders, c);
            Sweep(Flatten(vs), c) ==
            Join(r.trades, r.touched, Sweep(Flatten(vs[k := LevelView(vs[k].price, r.rest)]), r.crossing))
  {
    hide Sweep;
    var r := Sweep(vs[k].orders, c);
    FlattenSplit(vs, k);
    FlattenEmpty(vs[..k]);
    FlattenUpdate(vs, k, LevelView(vs[k].price, r.rest));
    assert Flatten(vs) == vs[k].orders + Flatten(vs[k + 1..]);
    assert [] + r.rest == r.rest;
    SweepAppend(vs[k].orders, Flatten(vs[k + 1..]), c);
  }

  lemma PricesExtend(vs: seq<LevelView>, vs': seq<LevelView>, k: nat)
    requires |vs| == |vs'| && k < |vs| && forall i :: 0 <= i <= k ==> vs'[i].price == vs[i].price
    ensures Prices(vs'[..k + 1]) == Prices(vs[..k]) + [vs[k].price]
  {
  }

  lemma SideStep(side: Side, vs0: seq<LevelView>, c0: OrderView, vs: seq<LevelView>, c: OrderView,
                 trades: seq<Trade>, touched: seq<OrderView>, updates: seq<LevelUpdate>)
    requires SideProgress(side, vs0, c0, vs, c, trades, touched, updates)
    requires |updates| < |vs| && vs[|updates|].orders != [] && c.remaining > 0
    ensures var k := |updates|;
            var r := Sweep(vs[k].orders, c);
            r.trades != [] &&
            SideProgress(side, vs0, c0, vs[k := LevelView(vs[k].price, r.rest)], r.crossing,
                         trades + r.trades, touched + r.touched,
                         updates + [LevelUpdate(side, vs[k].price, Sum(r.rest))])
  {
    hide Sweep;
    hide Sum;
    hide TradedPrices;
    hide Flatten;
    hide Prices;
    var k, v := |updates|, vs[|updates|];
    var r := Sweep(v.orders, c);
    var v' := LevelView(v.price, r.rest);
    var vs' := vs[k := v'];
    assert LevelOk(side, v);
    SweepRestOk(side, v.price, v.orders, c);
    SweepTradePrices(v.orders, c, v.price);
    SweepExhausts(v.orders, c);
    LevelThenRest(vs, k, c);
    JoinJoin(trades, r.trades, touched, r.touched, Sweep(Flatten(vs'), r.crossing));
    PricesExtend(vs, vs', k);
    LastTrade(trades, r.trades, v.price);
    if trades != [] { assert Before(side, vs[k - 1].price, v.price); }
    TradedPricesAppend(trades, r.trades, v.price);
    assert vs'[k + 1..] == vs0[k + 1..] by {
      assert vs'[k + 1..] == vs[k..][1..] == vs0[k..][1..];
    }
  }

  lemma LastTrade(a: seq<Trade>, b: seq<Trade>, price: Price)
    requires b != [] && forall t :: t in b ==> t.price == price
    ensures (a + b)[|a + b| - 1].price == price
  {
  }

  /** How many levels at the front were emptied: all that traded, except that
      the last one may have something left. */
  function Emptied(updates: seq<LevelUpdate>): nat {
    if updates == [] || updates[|updates| - 1].total == 0 then |updates| else |updates| - 1
  }

  lemma PricesIndex(vs: seq<LevelView>, n: nat, ps: seq<Price>)
    requires n <= |vs| && ps == Prices(vs[..n])
    ensures |ps| == n && forall i :: 0 <= i < n ==> ps[i] == vs[i].price
  {
  }

  /** The level updates are the totals, in what is left, of the prices that traded. */
  lemma UpdatesAreTotals(side: Side, vs: seq<LevelView>, trades: seq<Trade>, updates: seq<LevelUpdate>)
    requires SideOk(side, vs) && UpdatesFor(side, vs, updates)
    requires TradedPrices(trades) == Prices(vs[..|updates|])
    ensures updates == LevelUpdates(side, TradedPrices(trades), Flatten(vs))
    ensures forall i :: 0 <= i < |updates| ==> (updates[i].total == 0 <==> vs[i].orders == [])
  {
    hide Flatten;
    hide Sum;
    hide TradedPrices;
    hide LevelTotal;
    PricesIndex(vs, |updates|, TradedPrices(trades));
    forall i | 0 <= i < |updates|
      ensures updates[i].total == 0 <==> vs[i].orders == []
      ensures LevelTotal(Flatten(vs), vs[i].price) == updates[i].total
    {
      NoLiveTotal(side, vs[i]);
      LevelTotalIsSum(side, vs, i);
    }
  }

  lemma FlattenSuffix(vs: seq<LevelView>, e: nat)
    requires e <= |vs| && forall i :: 0 <= i < e ==> vs[i].orders == []
    ensures Flatten(vs[e..]) == Flatten(vs)
  {
    hide Flatten;
    FlattenEmpty(vs[..e]);
    FlattenAppend(vs[..e], vs[e..]);
    assert vs == vs[..e] + vs[e..];
    assert [] + Flatten(vs[e..]) == Flatten(vs[e..]);
  }

  lemma RestIsLive(vs0: seq<LevelView>, vs: seq<LevelView>, t: nat, e: nat)
    requires |vs| == |vs0| && e <= t <= |vs| && vs[t..] == vs0[t..] && NoneEmpty(vs0)
    requires forall i :: e <= i < t ==> vs[i].orders != []
    ensures NoneEmpty(vs[e..])
  {
  }

  /** A finished sweep of the levels is the sweep of the flat list. */
  lemma SideDone(side: Side, vs0: seq<LevelView>, c0: OrderView, vs: seq<LevelView>, c: OrderView,
                 trades: seq<Trade>, touched: seq<OrderView>, updates: seq<LevelUpdate>)
    requires SideProgress(side, vs0, c0, vs, c, trades, touched, updates)
    requires |updates| == |vs| || c.remaining == 0
    requires NoneEmpty(vs0)
    ensures var r := Sweep(Flatten(vs0), c0);
            var e := Emptied(updates);
            && e <= |vs|
            && r == SweepResult(Flatten(vs[e..]), c, trades, touched)
            && NoneEmpty(vs[e..])
            && updates == LevelUpdates(side, TradedPrices(trades), r.rest)
            && (forall i :: 0 <= i < |updates| - 1 ==> updates[i].total == 0)
  {
    hide Flatten;
    hide Sweep;
    hide Sum;
    hide TradedPrices;
    hide Prices;
    hide LevelUpdates;
    var e, t := Emptied(updates), |updates|;
    UpdatesAreTotals(side, vs, trades, updates);
    FlattenSuffix(vs, e);
    RestIsLive(vs0, vs, t, e);
    if c.remaining > 0 {
      FlattenEmpty(vs);
    }
    SweepDone(Flatten(vs), c);
    assert trades + [] == trades && touched + [] == touched;
  }
}
