/** What a single call does to a sound book, beyond keeping it sound. */
module Calls {
  import opened Types
  import opened Sweeps
  import opened FlatBook
  import opened Books
  import opened Soundness
  import opened Runs
  import opened DepthFeed
  import opened Priority

  /** When an order trades: a MARKET order if the other side is not empty, any other if
      something there is within its price, and then its first trade is. If it does not
      trade, nobody on the other side notices, and unless it is a LIMIT order nothing
      happens but its rejection. */
  lemma TradesIff(b: Book, o: OrderView)
    requires BookLive(b) && Whole(o)
    ensures var os := b.On(o.side.Opposite()); var out := Add(b, o);
            && (out.trades != [] <==>
                if o.kind == Market then os != [] else exists x :: x in os && Acceptable(o.side, o.price, x.price))
            && (o.kind != Market && out.trades != [] ==> Acceptable(o.side, o.price, out.trades[0].price))
            && (out.trades == [] ==> out.book.On(o.side.Opposite()) == os)
            && (out.trades == [] && o.kind != Limit ==>
                  out.book == b && out.updates == [] && out.notices == [o.(status := Rejected)])
  {
    hide BookLive;
    hide Crosses;
    hide Match;
    hide Rest;
    hide Sweep;
    hide LevelTotal;
    var os := b.On(o.side.Opposite());
    CrossesIff(b, o);
    AddSides(b, o);
    MatchSides(b, o);
    if os != [] {
      MatchExhausts(b, o);
      FirstTrade(os, o);
    }
  }

  lemma FirstTrade(os: seq<OrderView>, o: OrderView)
    requires os != [] && Sweep(os, o).trades != []
    ensures Sweep(os, o).trades[0].price == os[0].price
  {
  }

  /** os' is os with o in its place: behind all that are at least as good, ahead of the rest. */
  ghost predicate JoinedAt(side: Side, os: seq<OrderView>, o: OrderView, os': seq<OrderView>, k: nat) {
    && k <= |os| && os' == os[..k] + [o] + os[k..]
    && (forall i :: 0 <= i < k ==> !Before(side, o.price, os[i].price))
    && (forall i :: k <= i < |os| ==> Before(side, o.price, os[i].price))
  }

  lemma InsertJoins(side: Side, os: seq<OrderView>, o: OrderView) returns (k: nat)
    requires Sorted(side, os)
    ensures JoinedAt(side, os, o, Insert(side, os, o), k)
    ensures o in Insert(side, os, o) && Sum(Insert(side, os, o)) == Sum(os) + o.remaining
  {
    hide Insert;
    hide Sum;
    k := InsertSplits(side, os, o);
    forall i | k <= i < |os| ensures Before(side, o.price, os[i].price) {
      if i > k { assert !Before(side, os[i].price, os[k].price); }
    }
    assert (os[..k] + [o] + os[k..])[k] == o;
    SumAppend(os[..k], os[k..]);
    SumAppend(os[..k] + [o], os[k..]);
    SumAppend(os[..k], [o]);
    SumOne(o);
    assert os == os[..k] + os[k..];
  }

  lemma SumOne(o: OrderView)
    ensures Sum([o]) == o.remaining
  {
  }

  /** What is left of a LIMIT order rests, all of it, in its place and nowhere else; the
      index then knows where, and the level's new total is published last. */
  lemma LeftoverRests(b: Book, o: OrderView)
    requires BookSound(b) && LegalOrder(b, o) && o.kind == Limit
    ensures var own, out := b.On(o.side), Add(b, o); var own', left := out.book.On(o.side), Final(out);
            && (left.remaining > 0 <==> left in own')
            && (left.remaining == 0 ==> own' == own && out.book.index == b.index)
            && (left.remaining > 0 ==>
                  && (exists k :: JoinedAt(o.side, own, left, own', k))
                  && out.book.index == b.index[o.id := FindOrderHelper(o.id, o.side, o.price)]
                  && out.updates != [] && out.updates[|out.updates| - 1] ==
                     LevelUpdate(o.side, o.price, LevelTotal(own, o.price) + left.remaining))
            && Sum(own') == Sum(own) + left.remaining
  {
    hide Sweep;
    hide BookLive;
    hide SideSound;
    hide Sum;
    hide LevelTotal;
    hide Insert;
    hide JoinedAt;
    hide Match;
    hide Rest;
    SoundIsLive(b);
    LiveSide(b, o.side);
    SideInOrder(b, o.side);
    MatchSides(b, o);
    LeftOfLimit(b, o);
    var out := if Crosses(b, o) then Match(b, o) else Outcome(b, [], [], [o]);
    var left := Final(out);
    if Crosses(b, o) {
      LimitLeft(b, o);
      MatchSound(b, o);
    }
    if left.status != Filled {
      RestNew(out.book, left);
      var k := InsertJoins(o.side, b.On(o.side), left);
      InsertTotal(o.side, b.On(o.side), left, o.price);
    }
  }

  lemma SideInOrder(b: Book, side: Side)
    requires BookLive(b)
    ensures Sorted(side, b.On(side))
  {
  }

  function TradedAt(ts: seq<Trade>, price: Price): nat {
    if ts == [] then 0 else (if ts[0].price == price then ts[0].qty else 0) + TradedAt(ts[1..], price)
  }

  /** What a price loses in a sweep is what trades at it. */
  lemma {:induction false} SweepTotal(os: seq<OrderView>, c: OrderView, price: Price)
    ensures var r := Sweep(os, c);
            LevelTotal(os, price) == LevelTotal(r.rest, price) + TradedAt(r.trades, price)
    decreases |os|
  {
    if os != [] && c.remaining > 0 {
      var q := Min(os[0].remaining, c.remaining);
      if q == os[0].remaining {
        SweepTotal(os[1..], Settle(c, q), price);
      } else {
        assert ([Settle(os[0], q)] + os[1..])[1..] == os[1..];
        assert TradedAt(Sweep(os, c).trades, price) == if os[0].price == price then q else 0;
      }
    }
  }

  lemma {:induction false} TradedSomething(ts: seq<Trade>, i: nat)
    requires i < |ts| && ts[i].qty > 0
    ensures TradedAt(ts, ts[i].price) > 0
  {
    if i > 0 {
      TradedSomething(ts[1..], i - 1);
    }
  }

  lemma TradesMove(os: seq<OrderView>, c: OrderView)
    requires AllLive(os)
    ensures forall t :: t in Sweep(os, c).trades ==> t.qty > 0
  {
    hide Sweep;
    hide Allotted;
    var r := Sweep(os, c);
    PriceTimePriority(os, c);
    forall t | t in r.trades ensures t.qty > 0 {
      var i :| 0 <= i < |r.trades| && r.trades[i] == t;
      assert Turn(os, c, i, r.trades[i], r.touched[i]);
    }
  }

  ghost predicate Worsening(side: Side, ps: seq<Price>) {
    forall i, j :: 0 <= i < j < |ps| ==> Before(side, ps[i], ps[j])
  }

  /** If prices only get worse from trade to trade, each price is listed once, best first. */
  lemma {:induction false} ListedOnce(side: Side, ts: seq<Trade>)
    requires forall i, j :: 0 <= i < j < |ts| ==> !Before(side, ts[j].price, ts[i].price)
    ensures Worsening(side, TradedPrices(ts))
  {
    if |ts| == 1 {
      assert ts[1..] == [] && TradedPrices(ts) == [ts[0].price];
    } else if ts != [] {
      var rest := TradedPrices(ts[1..]);
      ListedOnce(side, ts[1..]);
      TradedPricesOnly(ts[1..]);
      if ts[1].price != ts[0].price {
        forall i | 0 <= i < |rest| ensures Before(side, ts[0].price, rest[i]) {
          assert rest[i] in rest;
          var t :| t in ts[1..] && t.price == rest[i];
          var j :| 0 <= j < |ts[1..]| && ts[1..][j] == t;
          assert ts[j + 1] == t;
          assert j > 0 ==> !Before(side, ts[j + 1].price, ts[1].price);
        }
      }
    }
  }

  ghost predicate Told(us: seq<LevelUpdate>, side: Side, price: Price) {
    exists u :: u in us && u.side == side && u.price == price
  }

  ghost predicate AllApart(us: seq<LevelUpdate>) {
    forall i, j :: 0 <= i < j < |us| ==> us[i].side != us[j].side || us[i].price != us[j].price
  }

  lemma MatchUpdates(b: Book, o: OrderView)
    requires BookLive(b)
    ensures var out := Match(b, o);
            && AllApart(out.updates)
            && forall s, p :: Told(out.updates, s, p) <==> LevelTotal(out.book.On(s), p) != LevelTotal(b.On(s), p)
  {
    hide Sweep;
    hide LevelTotal;
    hide TradedPrices;
    hide TradedAt;
    var side, out := o.side.Opposite(), Match(b, o);
    var os := b.On(side);
    var ts := Sweep(os, o).trades;
    LiveSide(b, side);
    SideInOrder(b, side);
    PricesFromBestOutward(side, os, o);
    ListedOnce(side, ts);
    TradedPricesHaveAll(ts);
    TradedPricesOnly(ts);
    TradesMove(os, o);
    forall i, j | 0 <= i < j < |out.updates| ensures out.updates[i].price != out.updates[j].price {
      assert Before(side, TradedPrices(ts)[i], TradedPrices(ts)[j]);
    }
    forall s, p ensures Told(out.updates, s, p) <==> LevelTotal(out.book.On(s), p) != LevelTotal(b.On(s), p) {
      ToldPrices(side, TradedPrices(ts), Sweep(os, o).rest, s, p);
      SweepTotal(os, o, p);
      if s == side && p in TradedPrices(ts) {
        var t :| t in ts && t.price == p;
        var i :| 0 <= i < |ts| && ts[i] == t;
        TradedSomething(ts, i);
      } else if s == side {
        UntradedPrice(os, o, p);
      }
    }
  }

  lemma ToldPrices(side: Side, prices: seq<Price>, os: seq<OrderView>, s: Side, p: Price)
    ensures Told(LevelUpdates(side, prices, os), s, p) <==> s == side && p in prices
  {
    var us := LevelUpdates(side, prices, os);
    if s == side && p in prices {
      var i :| 0 <= i < |prices| && prices[i] == p;
      assert us[i] in us;
    }
  }

  lemma ToldOneMore(us: seq<LevelUpdate>, u: LevelUpdate, s: Side, p: Price)
    ensures Told(us + [u], s, p) <==> Told(us, s, p) || (s == u.side && p == u.price)
  {
    assert u in us + [u];
    if x :| x in us && x.side == s && x.price == p {
      assert x in us + [u];
    }
  }

  /** A call publishes exactly the levels whose total it changed, each of them once. */
  lemma UpdatesAreChanges(b: Book, o: OrderView)
    requires BookSound(b) && LegalOrder(b, o)
    ensures var out := Add(b, o);
            && AllApart(out.updates)
            && forall s, p :: Told(out.updates, s, p) <==> LevelTotal(out.book.On(s), p) != LevelTotal(b.On(s), p)
  {
    hide BookLive;
    hide SideSound;
    hide LevelTotal;
    hide Match;
    hide Rest;
    hide Insert;
    hide Told;
    SoundIsLive(b);
    MatchUpdates(b, o);
    NothingTold();
    if o.kind == Limit {
      var out := if Crosses(b, o) then Match(b, o) else Outcome(b, [], [], [o]);
      var left := Final(out);
      LeftOfLimit(b, o);
      MatchUpdatesSide(b, o);
      if Crosses(b, o) {
        MatchSound(b, o);
      }
      if left.status != Filled {
        RestNew(out.book, left);
        forall s, p ensures Told(Add(b, o).updates, s, p) <==>
                            LevelTotal(Add(b, o).book.On(s), p) != LevelTotal(b.On(s), p) {
          ToldOneMore(out.updates, Add(b, o).updates[|out.updates|], s, p);
          InsertTotal(o.side, b.On(o.side), left, p);
        }
      }
    }
  }

  lemma NothingTold()
    ensures forall s, p :: !Told([], s, p)
  {
  }

  lemma MatchUpdatesSide(b: Book, o: OrderView)
    ensures forall u :: u in Match(b, o).updates ==> u.side == o.side.Opposite()
  {
  }

  /** Cancelling an id that the index does not hold does nothing at all. */
  lemma CancelUnknown(b: Book, id: OrderId)
    requires BookSound(b) && id !in b.index
    ensures Cancel(b, id) == Outcome(b, [], [], [])
    ensures !HasId(b.bids, id) && !HasId(b.asks, id)
  {
  }

  /** An order that traded is filled, or has emptied the opposite side; and it ends
      REJECTED exactly when it is not a LIMIT order and nothing traded. Only a LIMIT
      order touches its own side or the index. */
  lemma SweepsUntilExhausted(b: Book, o: OrderView)
    requires BookLive(b) && Admissible(b, o) && Whole(o)
    ensures var out := Add(b, o); var final := Final(out);
            && (out.trades != [] ==> final.remaining == 0 || out.book.On(o.side.Opposite()) == [])
            && (final.status == Filled <==> final.remaining == 0)
            && (final.status == Rejected <==> o.kind != Limit && out.trades == [])
            && (final.status == Open <==> o.kind == Limit && out.trades == [])
            && TradeSum(out.trades) == o.remaining - final.remaining
            && TradeSum(out.trades) == Sum(b.On(o.side.Opposite())) - Sum(out.book.On(o.side.Opposite()))
            && (o.kind != Limit ==> out.book.On(o.side) == b.On(o.side) && out.book.index == b.index)
  {
    hide Sweep;
    hide BookLive;
    hide Sum;
    hide TradeSum;
    hide LevelUpdates;
    hide LevelTotal;
    hide Insert;
    hide TradedPrices;
    var os := b.On(o.side.Opposite());
    SweepConserves(os, o);
    NoTradesNoQty();
    if os != [] {
      MatchExhausts(b, o);
    }
  }

  /** Two MARKET orders for a and b take what one for a + b takes. */
  lemma MarketSplit(b: Book, o1: OrderView, o2: OrderView, o: OrderView)
    requires BookLive(b) && Whole(o) && Whole(o1) && Whole(o2)
    requires o1.kind == o2.kind == o.kind == Market && o1.side == o2.side == o.side
    requires o.qty == o1.qty + o2.qty
    ensures var first := Add(b, o1);
            var second := Add(first.book, o2);
            var whole := Add(b, o);
            && second.book == whole.book
            && forall id :: PassiveQty(whole.trades, id) == PassiveQty(first.trades, id) + PassiveQty(second.trades, id)
  {
    hide Sweep;
    hide BookLive;
    hide PassiveQty;
    var os := b.On(o.side.Opposite());
    LiveSide(b, o.side.Opposite());
    NoTradesNoQty();
    if os != [] {
      SplitSweep(os, o1, o2, o);
      var left := Sweep(os, o1).rest;
      if left == [] {
        SweepDone(left, o2);
      }
    }
  }

  lemma NoTradesNoQty()
    ensures forall id :: PassiveQty([], id) == 0
    ensures TradeSum([]) == 0
  {
  }

  /** Cancelling a live order takes out that order and nothing else. */
  lemma CancelLive(b: Book, side: Side, k: nat)
    requires BookSound(b) && k < |b.On(side)|
    ensures var os := b.On(side);
            var out := Cancel(b, os[k].id);
            && out.book.On(side) == os[..k] + os[k + 1..]
            && out.book.On(side.Opposite()) == b.On(side.Opposite())
            && out.book.index == b.index - {os[k].id}
            && out.updates == [LevelUpdate(side, os[k].price, LevelTotal(out.book.On(side), os[k].price))]
            && LevelTotal(out.book.On(side), os[k].price) + os[k].remaining == LevelTotal(os, os[k].price)
  {
    hide Delete;
    hide DeleteAtPrice;
    hide LevelTotal;
    var os := b.On(side);
    assert os[k] in os;
    CancelById(b, os[k].id);
    DeleteAt(os, k);
    LevelTotalWithout(os, k);
  }

  lemma LevelTotalWithout(os: seq<OrderView>, k: nat)
    requires k < |os|
    ensures LevelTotal(os[..k] + os[k + 1..], os[k].price) == LevelTotal(os, os[k].price) - os[k].remaining
    ensures LevelTotal(os, os[k].price) >= os[k].remaining
  {
    var p := os[k].price;
    var tail := [os[k]] + os[k + 1..];
    assert os == os[..k] + tail && tail[1..] == os[k + 1..];
    LevelTotalAppend(os[..k], tail, p);
    LevelTotalAppend(os[..k], os[k + 1..], p);
  }

  /** Cancelling an id that is indexed but no longer live (it was filled) leaves both
      sides alone, and repeats the level's present total. */
  lemma CancelStale(b: Book, id: OrderId)
    requires BookSound(b) && id in b.index && !HasId(b.bids, id) && !HasId(b.asks, id)
    ensures var h := b.index[id];
            Cancel(b, id) ==
            Outcome(b.(index := b.index - {id}), [],
                    [LevelUpdate(h.side, h.price, LevelTotal(b.On(h.side), h.price))], [])
  {
    hide LevelTotal;
    hide Delete;
    CancelById(b, id);
    DeleteAbsent(b.On(b.index[id].side), id);
  }

  lemma InsertThenDelete(side: Side, os: seq<OrderView>, o: OrderView)
    requires forall x :: x in os ==> x.id != o.id
    ensures Delete(Insert(side, os, o), o.id) == os
  {
    hide Delete;
    hide Insert;
    var k := InsertSplits(side, os, o);
    var os' := os[..k] + [o] + os[k..];
    forall i | 0 <= i < |os'| ensures os'[i] == if i < k then os[i] else if i == k then o else os[i - 1] {
    }
    DeleteAt(os', k);
    assert os'[..k] + os'[k + 1..] == os;
  }

  /** Adding an order that does not trade and cancelling it again leaves no trace in
      the book; the feed ends by restating the total that was there before. */
  lemma AddThenCancel(b: Book, o: OrderView)
    requires BookSound(b) && LegalOrder(b, o) && o.kind == Limit
    requires forall x :: x in b.On(o.side.Opposite()) ==> !Acceptable(o.side, o.price, x.price)
    ensures var added := Add(b, o);
            var cancelled := Cancel(added.book, o.id);
            && cancelled.book == b
            && added.trades == []
            && cancelled.updates == [LevelUpdate(o.side, o.price, LevelTotal(b.On(o.side), o.price))]
  {
    hide LevelTotal;
    hide Insert;
    hide Delete;
    hide DeleteAtPrice;
    hide Match;
    hide Rest;
    CrossesIff(b, o);
    RestNew(b, o);
    RestSound(b, o);
    CancelById(Rest(b, o), o.id);
    forall x | x in b.On(o.side) ensures x.id != o.id {
      assert x.id in b.index;
    }
    InsertThenDelete(o.side, b.On(o.side), o);
    assert b.index[o.id := FindOrderHelper(o.id, o.side, o.price)] - {o.id} == b.index;
  }

  lemma RestedThere(b: Book, o: OrderView)
    ensures HasIdAt(Rest(b, o).On(o.side), o.price, o.id)
    ensures Rest(b, o).index ==
            if o.id in b.index then b.index else b.index[o.id := FindOrderHelper(o.id, o.side, o.price)]
  {
    var k := InsertSplits(o.side, b.On(o.side), o);
    var os' := b.On(o.side)[..k] + [o] + b.On(o.side)[k..];
    assert os'[k] == o && o in os';
  }

  /** After an order has come to rest its id takes it out again, unless the index already
      had that id at another place: then the cancel goes to that place and misses, and
      there is no second one, for the entry is gone. */
  lemma CancelMissesIff(b: Book, o: OrderView)
    requires IndexSound(b.index)
    ensures var b' := Cancel(Rest(b, o), o.id).book;
            && o.id !in b'.index
            && (HasIdAt(b'.On(o.side), o.price, o.id) <==>
                o.id in b.index && b.index[o.id] != FindOrderHelper(o.id, o.side, o.price))
  {
    hide Rest;
    hide DeleteAtPrice;
    RestedThere(b, o);
    var b' := Rest(b, o);
    var h := b'.index[o.id];
    DeleteAtMembers(b'.On(h.side), h.price, h.id);
  }

  // How far a limit price protects its order. The price is compared once, with
  // the best opposite price; the sweep that follows does not look at it again.

  function Available(os: seq<OrderView>, side: Side, limit: Price): nat {
    if os == [] then 0
    else (if Acceptable(side, limit, os[0].price) then os[0].remaining else 0) + Available(os[1..], side, limit)
  }

  lemma {:induction false} AvailableAppend(a: seq<OrderView>, b: seq<OrderView>, side: Side, limit: Price)
    ensures Available(a + b, side, limit) == Available(a, side, limit) + Available(b, side, limit)
  {
    if a == [] {
      assert a + b == b;
    } else {
      assert (a + b)[1..] == a[1..] + b;
      AvailableAppend(a[1..], b, side, limit);
    }
  }

  lemma {:induction false} AvailableAll(os: seq<OrderView>, side: Side, limit: Price, all: bool)
    requires forall o :: o in os ==> (Acceptable(side, limit, o.price) <==> all)
    ensures Available(os, side, limit) == if all then Sum(os) else 0
  {
    if os != [] {
      assert os[0] in os;
      AvailableAll(os[1..], side, limit, all);
    }
  }

  lemma NoneBeyond(side: Side, os: seq<OrderView>, limit: Price, k: nat)
    requires Sorted(side.Opposite(), os) && k < |os|
    requires !Acceptable(side, limit, os[k].price)
    ensures forall o :: o in os[k..] ==> !Acceptable(side, limit, o.price)
  {
  }

  /** The acceptable orders of a sorted side are a prefix of it. */
  lemma AcceptableFirst(side: Side, os: seq<OrderView>, limit: Price, k: nat)
    requires Sorted(side.Opposite(), os) && k < |os|
    requires !Acceptable(side, limit, os[k].price)
    requires forall i :: 0 <= i < k ==> Acceptable(side, limit, os[i].price)
    ensures Available(os, side, limit) == Sum(os[..k])
  {
    hide Sum;
    hide Available;
    hide Sorted;
    hide Acceptable;
    assert os == os[..k] + os[k..];
    AvailableAppend(os[..k], os[k..], side, limit);
    AvailableAll(os[..k], side, limit, true);
    NoneBeyond(side, os, limit, k);
    AvailableAll(os[k..], side, limit, false);
  }

  lemma FirstUnacceptable(side: Side, limit: Price, os: seq<OrderView>) returns (k: nat)
    ensures k <= |os|
    ensures forall i :: 0 <= i < k ==> Acceptable(side, limit, os[i].price)
    ensures k < |os| ==> !Acceptable(side, limit, os[k].price)
  {
    k := 0;
    while k < |os| && Acceptable(side, limit, os[k].price)
      invariant k <= |os| && forall i :: 0 <= i < k ==> Acceptable(side, limit, os[i].price)
    {
      k := k + 1;
    }
  }

  /** Every trade of a sweep is within the order's limit if and only if the order wants
      no more than is offered within it, or nothing is offered beyond it. */
  lemma WithinLimitIff(b: Book, o: OrderView)
    requires BookLive(b) && o.remaining > 0
    ensures var os := b.On(o.side.Opposite());
            (forall t :: t in Match(b, o).trades ==> Acceptable(o.side, o.price, t.price)) <==>
            (o.remaining <= Available(os, o.side, o.price) ||
             forall x :: x in os ==> Acceptable(o.side, o.price, x.price))
  {
    hide Sweep;
    hide Sum;
    hide Available;
    hide LeftOver;
    var os := b.On(o.side.Opposite());
    var ts := Sweep(os, o).trades;
    LiveSide(b, o.side.Opposite());
    PriceTimePriority(os, o);
    PricesFromBestOutward(o.side.Opposite(), os, o);
    var k := FirstUnacceptable(o.side, o.price, os);
    if k < |os| {
      AcceptableFirst(o.side, os, o.price, k);
      assert os[k] in os;
      assert Allotted(os, o.remaining, k) == 0 <==> o.remaining <= Sum(os[..k]);
      if |ts| > k {
        assert Turn(os, o, k, ts[k], Sweep(os, o).touched[k]);
        assert ts[k] in ts && ts[k].price == os[k].price;
      }
    } else {
      forall t | t in ts ensures Acceptable(o.side, o.price, t.price) {
        var i :| 0 <= i < |ts| && ts[i] == t;
      }
    }
  }

  /** When a LIMIT or FILL_AND_KILL order can count on its limit, for every order. */
  lemma LimitKeptIff(b: Book, o: OrderView)
    requires BookLive(b) && Whole(o) && o.kind != Market
    ensures var os := b.On(o.side.Opposite());
            (forall t :: t in Add(b, o).trades ==> Acceptable(o.side, o.price, t.price)) <==>
            ((forall x :: x in os ==> !Acceptable(o.side, o.price, x.price)) ||
             o.remaining <= Available(os, o.side, o.price) ||
             (forall x :: x in os ==> Acceptable(o.side, o.price, x.price)))
  {
    hide Sweep;
    hide BookLive;
    hide Available;
    CrossesIff(b, o);
    WithinLimitIff(b, o);
  }

  lemma TwoTrades(x: OrderView, y: OrderView, o: OrderView)
    requires 0 < x.remaining < o.remaining == x.remaining + y.remaining
    ensures Sweep([x, y], o).trades ==
            [TradeOf(x, o, x.remaining), TradeOf(y, o, y.remaining)]
    ensures Sweep([x, y], o).crossing.status == Filled
  {
    var c := Settle(o, x.remaining);
    assert [x, y][1..] == [y] && [y][1..] == [];
    assert Sweep([], Settle(c, y.remaining)) == SweepResult([], Settle(c, y.remaining), [], []);
    assert Sweep([y], c).trades == [TradeOf(y, c, y.remaining)];
  }

  /** A run of three: two orders to sell 1, at 100 and at 200, and one to buy 2. */
  function Overpaying(): seq<Command> {
    [Submit(OrderView(1, 100, 1, 1, Sell, Open, Limit, 7), 0),
     Submit(OrderView(2, 200, 1, 1, Sell, Open, Limit, 7), 0),
     Submit(OrderView(3, 100, 2, 2, Buy, Open, Limit, 8), 0)]
  }

  lemma BothOffered()
    ensures var near, far := Overpaying()[0].order, Overpaying()[1].order;
            var cmds := [Overpaying()[0], Overpaying()[1]];
            && LegalRun(cmds)
            && Run(cmds).trades == []
            && Run(cmds).book ==
               Book([], [near, far], map[1 := FindOrderHelper(1, Sell, 100), 2 := FindOrderHelper(2, Sell, 200)])
  {
    var first, second := Overpaying()[0], Overpaying()[1];
    assert [] + [first] == [first] && [first] + [second] == [first, second];
    RunExtends([], first);
    assert Run([first]).book == Book([], [first.order], map[1 := FindOrderHelper(1, Sell, 100)]);
    RunExtends([first], second);
  }

  /** A limit order does trade beyond its limit: the order to buy 2 at up to 100 is
      legal, and pays 200 for the second. */
  lemma LimitIsNotKept()
    ensures LegalRun(Overpaying())
    ensures Run(Overpaying()).trades == [Trade(100, 1, Buy, 7, 8, 1, 3), Trade(200, 1, Buy, 7, 8, 2, 3)]
  {
    hide Sweep;
    hide LevelUpdates;
    hide Run;
    hide LegalRun;
    hide PlayableRun;
    var cmds := [Overpaying()[0], Overpaying()[1]];
    assert Overpaying() == cmds + [Overpaying()[2]];
    BothOffered();
    RunExtends(cmds, Overpaying()[2]);
    TwoTrades(Overpaying()[0].order, Overpaying()[1].order, Overpaying()[2].order);
  }
}
