/** Price-time priority: who trades in a sweep, how much, and at what price,
    said without following the sweep. */
module Priority {
  import opened Types
  import opened Sweeps
  import opened Books
  import opened Soundness

  /** What order i gets of a demand for q: its fill of whatever those ahead of it leave. */
  function Allotted(os: seq<OrderView>, q: nat, i: nat): nat
    requires i < |os|
  {
    var ahead := Sum(os[..i]);
    if q <= ahead then 0 else Min(os[i].remaining, q - ahead)
  }

  lemma AllottedShift(os: seq<OrderView>, q: nat, i: nat)
    requires i + 1 < |os| && os[0].remaining <= q
    ensures Allotted(os, q, i + 1) == Allotted(os[1..], q - os[0].remaining, i)
  {
    assert os[..i + 1][1..] == os[1..][..i];
  }

  /** What is left when n orders have traded: the last of them may stay, smaller. */
  function LeftOver(os: seq<OrderView>, q: nat, n: nat): seq<OrderView>
    requires n <= |os|
  {
    if n > 0 && Allotted(os, q, n - 1) < os[n - 1].remaining
    then [Settle(os[n - 1], Allotted(os, q, n - 1))] + os[n..] else os[n..]
  }

  lemma LeftOverShift(os: seq<OrderView>, q: nat, n: nat)
    requires 0 < n <= |os| && 0 < os[0].remaining <= q
    ensures LeftOver(os, q, n) == LeftOver(os[1..], q - os[0].remaining, n - 1)
  {
    assert os[n..] == os[1..][n - 1..];
    if n > 1 {
      AllottedShift(os, q, n - 2);
    } else {
      assert os[..0] == [];
    }
  }

  /** Order i traded its share: this trade, and this is the order afterwards. */
  ghost predicate Turn(os: seq<OrderView>, c: OrderView, i: nat, trade: Trade, after: OrderView)
    requires i < |os|
  {
    var a := Allotted(os, c.remaining, i);
    0 < a < U64_LIMIT && trade == TradeOf(os[i], c, a) && after == Settle(os[i], a)
  }

  ghost predicate FilledInTurn(os: seq<OrderView>, c: OrderView, r: SweepResult, n: nat) {
    && n == |r.trades| == |r.touched| <= |os|
    && (forall i :: 0 <= i < n ==> Turn(os, c, i, r.trades[i], r.touched[i]))
    && (forall i :: n <= i < |os| ==> Allotted(os, c.remaining, i) == 0)
    && (forall i :: 0 <= i < n - 1 ==> Allotted(os, c.remaining, i) == os[i].remaining)
    && r.rest == LeftOver(os, c.remaining, n)
  }

  /** The orders that trade are the first n; each gets exactly its turn's share, all
      but the last in full, and a partly filled one stays at the front of the queue. */
  lemma {:induction false} PriceTimePriority(os: seq<OrderView>, c: OrderView)
    requires AllLive(os)
    ensures FilledInTurn(os, c, Sweep(os, c), |Sweep(os, c).trades|)
    decreases |os|
  {
    var r := Sweep(os, c);
    if os == [] {
    } else if c.remaining == 0 {
      NothingLeft(os, 0, 0);
      assert os[0..] == os;
    } else {
      assert os[0] in os;
      var q := Min(os[0].remaining, c.remaining);
      if q < os[0].remaining {
        NothingLeft(os, q, 1);
        assert os[..0] == [] && Allotted(os, c.remaining, 0) == q;
      } else {
        var c' := Settle(c, q);
        PriceTimePriority(os[1..], c');
        ShiftTurn(os, c);
      }
    }
  }

  /** From the point where those ahead want all of q, nobody gets anything. */
  lemma {:induction false} NothingLeft(os: seq<OrderView>, q: nat, k: nat)
    requires k <= |os| && Sum(os[..k]) >= q
    ensures forall i :: k <= i < |os| ==> Allotted(os, q, i) == 0
  {
    forall i | k <= i < |os| ensures Sum(os[..i]) >= q {
      assert os[..i] == os[..k] + os[k..i];
      SumAppend(os[..k], os[k..i]);
    }
  }

  lemma FirstInFull(os: seq<OrderView>, c: OrderView)
    requires os != [] && 0 < os[0].remaining <= c.remaining
    ensures var q := os[0].remaining;
            var r' := Sweep(os[1..], Settle(c, q));
            Sweep(os, c) == SweepResult(r'.rest, r'.crossing, [TradeOf(os[0], c, q)] + r'.trades,
                                        [Settle(os[0], q)] + r'.touched)
    ensures Allotted(os, c.remaining, 0) == os[0].remaining
  {
  }

  lemma ShiftTurn(os: seq<OrderView>, c: OrderView)
    requires os != [] && 0 < os[0].remaining <= c.remaining
    requires var c' := Settle(c, os[0].remaining);
             FilledInTurn(os[1..], c', Sweep(os[1..], c'), |Sweep(os[1..], c').trades|)
    ensures FilledInTurn(os, c, Sweep(os, c), |Sweep(os, c).trades|)
  {
    hide Sweep;
    hide Allotted;
    hide Sum;
    hide LeftOver;
    var q := c.remaining;
    var c' := Settle(c, os[0].remaining);
    var r, r' := Sweep(os, c), Sweep(os[1..], c');
    var n := |r'.trades| + 1;
    FirstInFull(os, c);
    forall i | 1 <= i < |os|
      ensures Allotted(os, q, i) == Allotted(os[1..], c'.remaining, i - 1) && os[i] == os[1..][i - 1]
    {
      AllottedShift(os, q, i - 1);
    }
    forall i | 1 <= i < n ensures Turn(os, c, i, r.trades[i], r.touched[i]) {
      assert r.trades[i] == r'.trades[i - 1] && r.touched[i] == r'.touched[i - 1];
      assert Turn(os[1..], c', i - 1, r'.trades[i - 1], r'.touched[i - 1]);
    }
    LeftOverShift(os, q, n);
  }

  /** Each trade is at its passive order's own price, and prices only get worse. */
  lemma {:induction false} PricesFromBestOutward(side: Side, os: seq<OrderView>, c: OrderView)
    requires AllLive(os) && Sorted(side, os)
    ensures var ts := Sweep(os, c).trades;
            && |ts| <= |os|
            && (forall i :: 0 <= i < |ts| ==> ts[i].price == os[i].price && ts[i].passiveId == os[i].id)
            && (forall i, j :: 0 <= i < j < |ts| ==> !Before(side, ts[j].price, ts[i].price))
  {
    PriceTimePriority(os, c);
    var ts := Sweep(os, c).trades;
    forall i | 0 <= i < |ts| ensures ts[i].price == os[i].price && ts[i].passiveId == os[i].id {
      assert Turn(os, c, i, ts[i], Sweep(os, c).touched[i]);
    }
  }

  function TradeSum(ts: seq<Trade>): nat {
    if ts == [] then 0 else ts[0].qty + TradeSum(ts[1..])
  }

  /** What was traded left both the crossing order and the passive side. */
  lemma {:induction false} SweepConserves(os: seq<OrderView>, c: OrderView)
    ensures var r := Sweep(os, c);
            && TradeSum(r.trades) == c.remaining - r.crossing.remaining
            && TradeSum(r.trades) == Sum(os) - Sum(r.rest)
    decreases |os|
  {
    if os != [] && c.remaining > 0 {
      var q := Min(os[0].remaining, c.remaining);
      if q == os[0].remaining {
        SweepConserves(os[1..], Settle(c, q));
      } else {
        assert ([Settle(os[0], q)] + os[1..])[1..] == os[1..];
        assert TradeSum(Sweep(os, c).trades) == q;
      }
    }
  }

  /** What these trades took from the passive order id. */
  function PassiveQty(ts: seq<Trade>, id: OrderId): nat {
    if ts == [] then 0 else (if ts[0].passiveId == id then ts[0].qty else 0) + PassiveQty(ts[1..], id)
  }

  /** Passive orders do not see who crosses them, only how much it wants. */
  lemma {:induction false} OnlyQuantityMatters(os: seq<OrderView>, c: OrderView, d: OrderView)
    requires c.remaining == d.remaining
    ensures Sweep(os, c).rest == Sweep(os, d).rest
    ensures forall id :: PassiveQty(Sweep(os, c).trades, id) == PassiveQty(Sweep(os, d).trades, id)
    decreases |os|
  {
    if os != [] && c.remaining > 0 {
      var q := Min(os[0].remaining, c.remaining);
      if q == os[0].remaining {
        OnlyQuantityMatters(os[1..], Settle(c, q), Settle(d, q));
      }
    }
  }

  /** Wanting a and then b takes from every passive order what wanting a + b does. */
  lemma {:induction false} SplitSweep(os: seq<OrderView>, c1: OrderView, c2: OrderView, c: OrderView)
    requires AllLive(os) && c.remaining == c1.remaining + c2.remaining
    ensures var r1 := Sweep(os, c1);
            var r2 := Sweep(r1.rest, c2);
            var r := Sweep(os, c);
            && r2.rest == r.rest
            && forall id :: PassiveQty(r.trades, id) == PassiveQty(r1.trades, id) + PassiveQty(r2.trades, id)
    decreases |os|
  {
    if os == [] {
    } else if c1.remaining == 0 {
      OnlyQuantityMatters(os, c2, c);
    } else {
      assert os[0] in os;
      if os[0].remaining <= c1.remaining {
        SplitSweep(os[1..], Settle(c1, os[0].remaining), c2, Settle(c, os[0].remaining));
      } else {
        SplitWithinFirst(os, c1, c2, c);
      }
    }
  }

  lemma FirstInPart(os: seq<OrderView>, c: OrderView)
    requires os != [] && c.remaining < os[0].remaining
    ensures Sweep(os, c).rest == [if c.remaining == 0 then os[0] else Settle(os[0], c.remaining)] + os[1..]
    ensures forall id :: PassiveQty(Sweep(os, c).trades, id) == if id == os[0].id then c.remaining else 0
  {
  }

  lemma FirstQty(t: Trade, ts: seq<Trade>, id: OrderId)
    ensures PassiveQty([t] + ts, id) == (if t.passiveId == id then t.qty else 0) + PassiveQty(ts, id)
  {
  }

  lemma SplitWithinFirst(os: seq<OrderView>, c1: OrderView, c2: OrderView, c: OrderView)
    requires os != [] && 0 < c1.remaining < os[0].remaining && c.remaining == c1.remaining + c2.remaining
    ensures var r1 := Sweep(os, c1);
            var r2 := Sweep(r1.rest, c2);
            var r := Sweep(os, c);
            && r2.rest == r.rest
            && forall id :: PassiveQty(r.trades, id) == PassiveQty(r1.trades, id) + PassiveQty(r2.trades, id)
  {
    hide Sweep;
    hide PassiveQty;
    var p := Settle(os[0], c1.remaining);
    var left := [p] + os[1..];
    assert left[0] == p && left[1..] == os[1..];
    FirstInPart(os, c1);
    if c2.remaining < p.remaining {
      FirstInPart(left, c2);
      FirstInPart(os, c);
    } else {
      var d2, d := Settle(c2, p.remaining), Settle(c, os[0].remaining);
      FirstInFull(left, c2);
      FirstInFull(os, c);
      OnlyQuantityMatters(os[1..], d2, d);
      forall id ensures PassiveQty(Sweep(os, c).trades, id) ==
                        PassiveQty(Sweep(os, c1).trades, id) + PassiveQty(Sweep(left, c2).trades, id)
      {
        FirstQty(TradeOf(p, c2, p.remaining), Sweep(os[1..], d2).trades, id);
        FirstQty(TradeOf(os[0], c, os[0].remaining), Sweep(os[1..], d).trades, id);
      }
    }
  }
}
