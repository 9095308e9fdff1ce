/** A subscriber that only hears the level updates knows the whole depth. */
module DepthFeed {
  import opened Types
  import opened Sweeps
  import opened FlatBook
  import opened Books
  import opened Soundness
  import opened Runs

  /** Total still wanted at each side and price that has any. */
  type Depth = map<(Side, Price), nat>

  /** How a subscriber applies one update: 0 deletes the level. */
  function Apply(d: Depth, u: LevelUpdate): Depth {
    if u.total == 0 then d - {(u.side, u.price)} else d[(u.side, u.price) := u.total]
  }

  function Replay(d: Depth, us: seq<LevelUpdate>): Depth {
    if us == [] then d else Apply(Replay(d, us[..|us| - 1]), us[|us| - 1])
  }

  /** The depth of the book, taken from its live orders. */
  function DepthOf(b: Book): Depth {
    map k | k in (set o | o in b.bids + b.asks :: (o.side, o.price)) :: LevelTotal(b.On(k.0), k.1)
  }

  /** d has this total at this place, with nothing there standing for 0. */
  ghost predicate Has(d: Depth, side: Side, price: Price, total: nat) {
    if total == 0 then (side, price) !in d else (side, price) in d && d[(side, price)] == total
  }

  ghost predicate Shows(d: Depth, b: Book) {
    forall side, price :: Has(d, side, price, LevelTotal(b.On(side), price))
  }

  lemma {:induction false} LevelTotalPositive(os: seq<OrderView>, price: Price)
    requires AllLive(os)
    ensures LevelTotal(os, price) > 0 <==> exists o :: o in os && o.price == price
  {
    if os != [] {
      assert os[0] in os;
      assert os == [os[0]] + os[1..];
      LevelTotalPositive(os[1..], price);
    }
  }

  /** The depth map of a book with live orders only shows every total, and is the only map that does. */
  lemma DepthShows(b: Book)
    requires BookLive(b)
    ensures Shows(DepthOf(b), b)
  {
    forall side: Side, price: Price ensures Has(DepthOf(b), side, price, LevelTotal(b.On(side), price)) {
      LevelTotalPositive(b.On(side), price);
      if o :| o in b.On(side) && o.price == price {
        assert o in b.bids + b.asks && o.side == side;
      }
    }
  }

  lemma ShownOnce(d: Depth, d': Depth, b: Book)
    requires Shows(d, b) && Shows(d', b)
    ensures d == d'
  {
    forall k ensures k in d <==> k in d' {
      assert Has(d, k.0, k.1, LevelTotal(b.On(k.0), k.1));
      assert Has(d', k.0, k.1, LevelTotal(b.On(k.0), k.1));
    }
    forall k | k in d ensures d[k] == d'[k] {
      assert Has(d, k.0, k.1, LevelTotal(b.On(k.0), k.1));
      assert Has(d', k.0, k.1, LevelTotal(b.On(k.0), k.1));
    }
  }

  lemma {:induction false} ReplayAppend(d: Depth, us: seq<LevelUpdate>, vs: seq<LevelUpdate>)
    ensures Replay(d, us + vs) == Replay(Replay(d, us), vs)
    decreases |vs|
  {
    if vs == [] {
      assert us + vs == us;
    } else {
      assert (us + vs)[..|us + vs| - 1] == us + vs[..|vs| - 1];
      ReplayAppend(d, us, vs[..|vs| - 1]);
    }
  }

  /** Updates that tell totals of os at some prices: those prices get them, the rest stay. */
  lemma {:induction false} ReplayTotals(d: Depth, side: Side, prices: seq<Price>, os: seq<OrderView>)
    ensures var d' := Replay(d, LevelUpdates(side, prices, os));
            && (forall p :: p in prices ==> Has(d', side, p, LevelTotal(os, p)))
            && (forall s, p :: s != side || p !in prices ==>
                  ((s, p) in d' <==> (s, p) in d) && ((s, p) in d ==> d'[(s, p)] == d[(s, p)]))
    decreases |prices|
  {
    hide LevelTotal;
    hide LevelUpdates;
    if prices != [] {
      var n := |prices| - 1;
      LevelUpdatesInit(side, prices, os);
      ReplayTotals(d, side, prices[..n], os);
      assert prices == prices[..n] + [prices[n]];
    }
  }

  lemma LevelUpdatesInit(side: Side, prices: seq<Price>, os: seq<OrderView>)
    requires prices != []
    ensures var us, n := LevelUpdates(side, prices, os), |prices| - 1;
            && us[..n] == LevelUpdates(side, prices[..n], os)
            && us[n] == LevelUpdate(side, prices[n], LevelTotal(os, prices[n]))
  {
  }

  lemma {:induction false} TradedPricesHaveAll(ts: seq<Trade>)
    ensures forall t :: t in ts ==> t.price in TradedPrices(ts)
  {
    if ts != [] {
      TradedPricesHaveAll(ts[1..]);
      assert ts == [ts[0]] + ts[1..];
      if |ts| > 1 && ts[1].price == ts[0].price {
        assert ts[1] == ts[1..][0];
      }
    }
  }

  /** A price at which nothing traded keeps its total. */
  lemma {:induction false} UntradedPrice(os: seq<OrderView>, c: OrderView, price: Price)
    requires forall t :: t in Sweep(os, c).trades ==> t.price != price
    ensures LevelTotal(Sweep(os, c).rest, price) == LevelTotal(os, price)
    decreases |os|
  {
    if os != [] && c.remaining > 0 {
      var q := Min(os[0].remaining, c.remaining);
      var t := TradeOf(os[0], c, q);
      assert t in Sweep(os, c).trades;
      if q == os[0].remaining {
        UntradedPrice(os[1..], Settle(c, q), price);
      } else {
        assert ([Settle(os[0], q)] + os[1..])[1..] == os[1..];
      }
    }
  }

  lemma MatchShown(d: Depth, b: Book, o: OrderView)
    requires Shows(d, b)
    ensures Shows(Replay(d, Match(b, o).updates), Match(b, o).book)
  {
    hide Sweep;
    hide LevelTotal;
    hide Replay;
    hide LevelUpdates;
    hide TradedPrices;
    var side := o.side.Opposite();
    var os := b.On(side);
    var r := Sweep(os, o);
    var out := Match(b, o);
    ReplayTotals(d, side, TradedPrices(r.trades), r.rest);
    TradedPricesHaveAll(r.trades);
    var d' := Replay(d, out.updates);
    forall s, p ensures Has(d', s, p, LevelTotal(out.book.On(s), p)) {
      assert Has(d, s, p, LevelTotal(b.On(s), p));
      if s == side && p !in TradedPrices(r.trades) {
        UntradedPrice(os, o, p);
      }
    }
  }

  lemma {:induction false} InsertTotal(side: Side, os: seq<OrderView>, o: OrderView, price: Price)
    ensures LevelTotal(Insert(side, os, o), price) ==
            LevelTotal(os, price) + if o.price == price then o.remaining else 0
  {
    if os == [] || Before(side, o.price, os[0].price) {
      assert ([o] + os)[1..] == os;
    } else {
      InsertTotal(side, os[1..], o, price);
      assert ([os[0]] + Insert(side, os[1..], o))[1..] == Insert(side, os[1..], o);
    }
  }

  lemma {:induction false} DeleteTotal(os: seq<OrderView>, at: Price, id: OrderId, price: Price)
    requires at != price
    ensures LevelTotal(DeleteAtPrice(os, at, id), price) == LevelTotal(os, price)
  {
    if os != [] {
      DeleteTotal(os[1..], at, id, price);
    }
  }

  /** One update that tells the new total of the only place that changed. */
  lemma OneUpdateShown(d: Depth, b: Book, b': Book, u: LevelUpdate)
    requires Shows(d, b)
    requires u.total == LevelTotal(b'.On(u.side), u.price)
    requires forall s, p :: s != u.side || p != u.price ==> LevelTotal(b'.On(s), p) == LevelTotal(b.On(s), p)
    ensures Shows(Apply(d, u), b')
  {
  }

  lemma ReplayOne(d: Depth, u: LevelUpdate)
    ensures Replay(d, [u]) == Apply(d, u)
  {
  }

  lemma RestShown(d: Depth, b: Book, o: OrderView)
    requires Shows(d, b)
    ensures var b' := Rest(b, o);
            Shows(Apply(d, LevelUpdate(o.side, o.price, LevelTotal(b'.On(o.side), o.price))), b')
  {
    hide LevelTotal;
    hide Insert;
    var b' := Rest(b, o);
    forall p ensures o.price != p ==> LevelTotal(b'.On(o.side), p) == LevelTotal(b.On(o.side), p) {
      InsertTotal(o.side, b.On(o.side), o, p);
    }
    OneUpdateShown(d, b, b', LevelUpdate(o.side, o.price, LevelTotal(b'.On(o.side), o.price)));
  }

  lemma AddShown(d: Depth, b: Book, o: OrderView)
    requires Shows(d, b)
    ensures Shows(Replay(d, Add(b, o).updates), Add(b, o).book)
  {
    hide Shows;
    hide LevelTotal;
    hide Rest;
    hide Match;
    hide Crosses;
    assert Replay(d, []) == d;
    MatchShown(d, b, o);
    if o.kind == Limit {
      var out := if Crosses(b, o) then Match(b, o) else Outcome(b, [], [], [o]);
      FinalKeepsPlace(b, o);
      assert Shows(Replay(d, out.updates), out.book);
      var left := Final(out);
      if left.status != Filled {
        RestShown(Replay(d, out.updates), out.book, left);
        var u := LevelUpdate(o.side, o.price, LevelTotal(Rest(out.book, left).On(o.side), o.price));
        ReplayAppend(d, out.updates, [u]);
        ReplayOne(Replay(d, out.updates), u);
      }
    }
  }

  lemma FinalKeepsPlace(b: Book, o: OrderView)
    ensures var left := Final(Match(b, o)); left.side == o.side && left.price == o.price
  {
    SweepCrossing(b.On(o.side.Opposite()), o);
  }

  lemma CancelShown(d: Depth, b: Book, id: OrderId)
    requires Shows(d, b)
    ensures Shows(Replay(d, Cancel(b, id).updates), Cancel(b, id).book)
  {
    hide LevelTotal;
    hide DeleteAtPrice;
    hide Shows;
    var out := Cancel(b, id);
    if id in b.index {
      var h := b.index[id];
      forall p | p != h.price
        ensures LevelTotal(DeleteAtPrice(b.On(h.side), h.price, h.id), p) == LevelTotal(b.On(h.side), p)
      {
        DeleteTotal(b.On(h.side), h.price, h.id, p);
      }
      OneUpdateShown(d, b, out.book, out.updates[0]);
      ReplayOne(d, out.updates[0]);
    } else {
      SameTotals(d, b, out.book);
    }
  }

  lemma SameTotals(d: Depth, b: Book, b': Book)
    requires Shows(d, b) && b'.bids == b.bids && b'.asks == b.asks
    ensures Shows(d, b')
    ensures Replay(d, []) == d
  {
    forall s, p ensures Has(d, s, p, LevelTotal(b'.On(s), p)) {
      assert Has(d, s, p, LevelTotal(b.On(s), p));
    }
  }

  /** Over every run, playable or not. */
  lemma {:induction false} FeedShows(cmds: seq<Command>)
    ensures Shows(Replay(map[], Run(cmds).updates), Run(cmds).book)
  {
    hide Shows;
    hide Add;
    hide Cancel;
    if cmds == [] {
      EmptyShown();
    } else {
      var n := |cmds| - 1;
      var h := Run(cmds[..n]);
      var d := Replay(map[], h.updates);
      FeedShows(cmds[..n]);
      ReplayAppend(map[], h.updates, Next(h.book, cmds[n]).updates);
      match cmds[n]
      case Submit(o, newId) => AddShown(d, h.book, Identified(o, newId));
      case Withdraw(id) => CancelShown(d, h.book, id);
    }
  }

  lemma EmptyShown()
    ensures Shows(Replay(map[], []), EMPTY_BOOK)
  {
  }

  /** Over every run, replaying the public feed from nothing gives exactly the depth of
      the book. */
  lemma FeedIsDepth(cmds: seq<Command>)
    requires PlayableRun(cmds)
    ensures Replay(map[], Run(cmds).updates) == DepthOf(Run(cmds).book)
  {
    FeedShows(cmds);
    ReachableLive(cmds);
    DepthShows(Run(cmds).book);
    ShownOnce(Replay(map[], Run(cmds).updates), DepthOf(Run(cmds).book), Run(cmds).book);
  }

  // What a subscriber sees between two updates, when a call has published only
  // some of its updates so far.

  ghost predicate NotCrossed(d: Depth) {
    forall p, q :: (Buy, p) in d && (Sell, q) in d ==> p < q
  }

  lemma ShownNotCrossed(d: Depth, b: Book)
    requires Shows(d, b) && BookLive(b)
    ensures NotCrossed(d)
  {
    hide LevelTotal;
    forall p, q | (Buy, p) in d && (Sell, q) in d ensures p < q {
      assert Has(d, Buy, p, LevelTotal(b.bids, p)) by { assert b.On(Buy) == b.bids; }
      assert Has(d, Sell, q, LevelTotal(b.asks, q)) by { assert b.On(Sell) == b.asks; }
      LevelTotalPositive(b.bids, p);
      LevelTotalPositive(b.asks, q);
      BestIsBest(Buy, b.bids, p);
      BestIsBest(Sell, b.asks, q);
    }
  }

  lemma BestIsBest(side: Side, os: seq<OrderView>, price: Price)
    requires Sorted(side, os) && exists o :: o in os && o.price == price
    ensures os != [] && !Before(side, price, os[0].price)
  {
    var o :| o in os && o.price == price;
    var i :| 0 <= i < |os| && os[i] == o;
    if i > 0 { assert !Before(side, os[i].price, os[0].price); }
  }

  /** Trades happen only at prices that were on show. */
  lemma {:induction false} TradesWereShown(os: seq<OrderView>, c: OrderView)
    ensures forall t :: t in Sweep(os, c).trades ==> exists o :: o in os && o.price == t.price
    decreases |os|
  {
    if os != [] && c.remaining > 0 {
      var q := Min(os[0].remaining, c.remaining);
      assert os[0] in os;
      if q == os[0].remaining {
        TradesWereShown(os[1..], Settle(c, q));
        assert os == [os[0]] + os[1..];
      }
    }
  }

  lemma {:induction false} TradedPricesOnly(ts: seq<Trade>)
    ensures forall p :: p in TradedPrices(ts) ==> exists t :: t in ts && t.price == p
  {
    if ts != [] {
      assert ts == [ts[0]] + ts[1..] && ts[0] in ts;
      TradedPricesOnly(ts[1..]);
    }
  }

  /** Updates at prices that are on show put no other price on show. */
  lemma {:induction false} NothingNewShown(d: Depth, us: seq<LevelUpdate>)
    requires forall u :: u in us ==> (u.side, u.price) in d
    ensures Replay(d, us).Keys <= d.Keys
    decreases |us|
  {
    if us != [] {
      NothingNewShown(d, us[..|us| - 1]);
    }
  }

  lemma MatchUpdatesShown(d: Depth, b: Book, o: OrderView)
    requires Shows(d, b) && BookLive(b)
    ensures forall u :: u in Match(b, o).updates ==> (u.side, u.price) in d
  {
    hide Sweep;
    hide LevelTotal;
    hide TradedPrices;
    var side := o.side.Opposite();
    var os := b.On(side);
    TradesWereShown(os, o);
    TradedPricesOnly(Sweep(os, o).trades);
    LiveSide(b, side);
    forall u | u in Match(b, o).updates ensures (u.side, u.price) in d {
      assert u.side == side && u.price in TradedPrices(Sweep(os, o).trades);
      var t :| t in Sweep(os, o).trades && t.price == u.price;
      var x :| x in os && x.price == t.price;
      LevelTotalPositive(os, u.price);
      assert Has(d, side, u.price, LevelTotal(os, u.price));
    }
  }

  /** All but the last update of a call come from its sweep. */
  lemma AllButLast(b: Book, cmd: Command)
    ensures var us := Next(b, cmd).updates;
            |us| <= 1 || (cmd.Submit? && us[..|us| - 1] <= Match(b, Identified(cmd.order, cmd.newId)).updates)
  {
    hide Match;
    hide Rest;
    hide LevelTotal;
    hide DeleteAtPrice;
  }

  lemma CallNotCrossed(d: Depth, b: Book, cmd: Command, k: nat)
    requires Shows(d, b) && BookLive(b) && Playable(b, cmd) && k <= |Next(b, cmd).updates|
    ensures NotCrossed(Replay(d, Next(b, cmd).updates[..k]))
  {
    hide Add;
    hide Cancel;
    hide Match;
    hide Shows;
    hide BookLive;
    hide NotCrossed;
    var us := Next(b, cmd).updates;
    if k == |us| {
      assert us[..k] == us;
      match cmd {
        case Submit(o, newId) =>
          AddShown(d, b, Identified(o, newId));
          AddLive(b, Identified(o, newId));
        case Withdraw(id) =>
          CancelShown(d, b, id);
          CancelKeepsLive(b, id);
      }
      ShownNotCrossed(Replay(d, us), Next(b, cmd).book);
    } else {
      ShownNotCrossed(d, b);
      AllButLast(b, cmd);
      if cmd.Submit? {
        MatchUpdatesShown(d, b, Identified(cmd.order, cmd.newId));
      }
      FewerNotCrossed(d, us[..k]);
    }
  }

  lemma FewerNotCrossed(d: Depth, us: seq<LevelUpdate>)
    requires NotCrossed(d) && forall u :: u in us ==> (u.side, u.price) in d
    ensures NotCrossed(Replay(d, us))
  {
    NothingNewShown(d, us);
  }

  /** At no moment of any run, also between two updates of one call, does the feed show
      a bid at or above an ask. */
  lemma {:induction false} NeverShowsCrossed(cmds: seq<Command>, k: nat)
    requires PlayableRun(cmds) && k <= |Run(cmds).updates|
    ensures NotCrossed(Replay(map[], Run(cmds).updates[..k]))
    decreases |cmds|
  {
    hide NotCrossed;
    hide Shows;
    hide BookLive;
    hide Playable;
    if cmds == [] {
      NothingShown();
    } else {
      var n := |cmds| - 1;
      var h := Run(cmds[..n]);
      var us := Next(h.book, cmds[n]).updates;
      var m := |h.updates|;
      if k <= m {
        NeverShowsCrossed(cmds[..n], k);
        assert (h.updates + us)[..k] == h.updates[..k];
      } else {
        FeedShows(cmds[..n]);
        ReachableLive(cmds[..n]);
        CallNotCrossed(Replay(map[], h.updates), h.book, cmds[n], k - m);
        assert (h.updates + us)[..k] == h.updates + us[..k - m];
        ReplayAppend(map[], h.updates, us[..k - m]);
      }
    }
  }

  lemma NothingShown()
    ensures NotCrossed(Replay(map[], []))
  {
  }
}
