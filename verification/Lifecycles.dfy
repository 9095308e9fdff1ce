/** Every order from its submission to its end: under which id and on whose account
    it is booked, reported and traded, and when it is live. */
module Lifecycles {
  import opened Types
  import opened Sweeps
  import opened FlatBook
  import opened Books
  import opened Soundness
  import opened Priority
  import opened Runs
  import opened Statuses
  import opened Calls
  import opened Ledger

  // Where what is booked, reported and traded comes from.

  /** x is the order of this command, as its sender wrote it. */
  predicate IsOf(x: OrderView, cmd: Command) {
    && Submits(cmd, x.id)
    && x.side == cmd.order.side && x.price == cmd.order.price && x.qty == cmd.order.qty
    && x.kind == cmd.order.kind && x.account == cmd.order.account
  }

  ghost predicate From(x: OrderView, cmds: seq<Command>) {
    exists i :: 0 <= i < |cmds| && IsOf(x, cmds[i])
  }

  ghost predicate AllFrom(os: seq<OrderView>, cmds: seq<Command>) {
    forall x :: x in os ==> From(x, cmds)
  }

  lemma FromMore(os: seq<OrderView>, before: seq<Command>, cmd: Command)
    requires AllFrom(os, before)
    ensures AllFrom(os, before + [cmd])
  {
    forall x | x in os ensures From(x, before + [cmd]) {
      var i :| 0 <= i < |before| && IsOf(x, before[i]);
      assert (before + [cmd])[i] == before[i];
    }
  }

  /** A sweep makes up no order, and changes only what an order still wants and its status. */
  lemma {:induction false} SweepFrom(os: seq<OrderView>, c: OrderView, cmds: seq<Command>)
    requires AllFrom(os, cmds) && From(c, cmds)
    ensures var r := Sweep(os, c); AllFrom(r.rest, cmds) && AllFrom(r.touched, cmds) && From(r.crossing, cmds)
    decreases |os|
  {
    if os != [] && c.remaining > 0 {
      var q := Min(os[0].remaining, c.remaining);
      assert os[0] in os;
      SettleFrom(os[0], q, cmds);
      SettleFrom(c, q, cmds);
      if q == os[0].remaining {
        SweepFrom(os[1..], Settle(c, q), cmds);
      }
    }
  }

  lemma SettleFrom(o: OrderView, q: nat, cmds: seq<Command>)
    requires From(o, cmds) && q <= o.remaining
    ensures From(Settle(o, q), cmds)
  {
    var i :| 0 <= i < |cmds| && IsOf(o, cmds[i]);
    assert IsOf(Settle(o, q), cmds[i]);
  }

  ghost predicate BookFrom(b: Book, cmds: seq<Command>) {
    AllFrom(b.bids, cmds) && AllFrom(b.asks, cmds)
  }

  lemma AddFrom(b: Book, o: OrderView, cmds: seq<Command>)
    requires BookFrom(b, cmds) && From(o, cmds) && From(o.(status := Rejected), cmds)
    ensures BookFrom(Add(b, o).book, cmds) && AllFrom(Add(b, o).notices, cmds)
  {
    hide BookFrom;
    hide From;
    hide Match;
    hide Rest;
    MatchFrom(b, o, cmds);
    var out := if Crosses(b, o) then Match(b, o) else Outcome(b, [], [], [o]);
    assert Final(out) in out.notices;
    RestFrom(out.book, Final(out), cmds);
  }

  lemma MatchFrom(b: Book, o: OrderView, cmds: seq<Command>)
    requires BookFrom(b, cmds) && From(o, cmds)
    ensures BookFrom(Match(b, o).book, cmds) && AllFrom(Match(b, o).notices, cmds)
  {
    hide From;
    hide Sweep;
    SweepFrom(b.On(o.side.Opposite()), o, cmds);
  }

  lemma RestFrom(b: Book, o: OrderView, cmds: seq<Command>)
    requires BookFrom(b, cmds) && From(o, cmds)
    ensures BookFrom(Rest(b, o), cmds)
  {
    hide From;
    hide Insert;
    var k := InsertSplits(o.side, b.On(o.side), o);
  }

  lemma CancelFrom(b: Book, id: OrderId, cmds: seq<Command>)
    requires BookFrom(b, cmds)
    ensures BookFrom(Cancel(b, id).book, cmds) && Cancel(b, id).notices == []
  {
    hide From;
    hide DeleteAtPrice;
    if id in b.index {
      var h := b.index[id];
      DeleteAtMembers(b.On(h.side), h.price, h.id);
    }
  }

  /** In every run, whatever is live and whatever is reported is an order that was
      submitted, under the id it brought or else the one it was given. */
  lemma {:induction false} NothingMadeUp(cmds: seq<Command>)
    ensures BookFrom(Run(cmds).book, cmds) && AllFrom(Run(cmds).notices, cmds)
  {
    hide From;
    hide Add;
    hide Cancel;
    if cmds != [] {
      var n := |cmds| - 1;
      var before, h := cmds[..n], Run(cmds[..n]);
      assert cmds == before + [cmds[n]];
      NothingMadeUp(before);
      FromMore(h.book.bids, before, cmds[n]);
      FromMore(h.book.asks, before, cmds[n]);
      FromMore(h.notices, before, cmds[n]);
      match cmds[n]
      case Submit(o, newId) =>
        JustFrom(cmds);
        AddFrom(h.book, Identified(o, newId), cmds);
      case Withdraw(id) => CancelFrom(h.book, id, cmds);
    }
  }

  lemma JustFrom(cmds: seq<Command>)
    requires cmds != [] && cmds[|cmds| - 1].Submit?
    ensures var cmd := cmds[|cmds| - 1]; var o := Identified(cmd.order, cmd.newId);
            IsOf(o, cmd) && From(o, cmds) && From(o.(status := Rejected), cmds)
  {
    var n := |cmds| - 1;
    var o := Identified(cmds[n].order, cmds[n].newId);
    assert IsOf(o, cmds[n]) && IsOf(o.(status := Rejected), cmds[n]);
  }

  /** The trade is between these two orders: at the price of the one that rested, in the
      other's direction, for the ids and accounts of both, and for no more than either wants. */
  predicate Between(t: Trade, resting: Command, arriving: Command) {
    && Submits(resting, t.passiveId) && Submits(arriving, t.crossingId)
    && resting.order.kind == Limit
    && t.price == resting.order.price
    && t.crossingSide == arriving.order.side != resting.order.side
    && t.passiveAccount == resting.order.account && t.crossingAccount == arriving.order.account
    && 0 < t.qty <= resting.order.qty && t.qty <= arriving.order.qty
  }

  ghost predicate Paired(t: Trade, cmds: seq<Command>) {
    exists j, i :: 0 <= j < i < |cmds| && Between(t, cmds[j], cmds[i])
  }

  lemma PairedMore(ts: seq<Trade>, before: seq<Command>, cmd: Command)
    requires forall t :: t in ts ==> Paired(t, before)
    ensures forall t :: t in ts ==> Paired(t, before + [cmd])
  {
    forall t | t in ts ensures Paired(t, before + [cmd]) {
      var j, i :| 0 <= j < i < |before| && Between(t, before[j], before[i]);
      assert Between(t, (before + [cmd])[j], (before + [cmd])[i]);
    }
  }

  lemma MatchPaired(b: Book, o: OrderView, before: seq<Command>, cmd: Command)
    requires BookLive(b) && BookTruthful(b) && BookFrom(b, before) && IsOf(o, cmd) && o.remaining == o.qty
    ensures forall t :: t in Match(b, o).trades ==> Paired(t, before + [cmd])
  {
    hide Sweep;
    hide Allotted;
    var os := b.On(o.side.Opposite());
    var ts := Sweep(os, o).trades;
    var cmds := before + [cmd];
    LiveSide(b, o.side.Opposite());
    SweepNames(os, o);
    forall t | t in ts ensures Paired(t, cmds) {
      var m :| 0 <= m < |ts| && ts[m] == t;
      assert os[m] in os && Truthful(os[m]);
      var j :| 0 <= j < |before| && IsOf(os[m], before[j]);
      ShareWanted(os, o.remaining, m);
      assert cmds[j] == before[j] && cmds[|before|] == cmd;
      assert Between(t, cmds[j], cmds[|before|]);
    }
  }

  lemma ShareWanted(os: seq<OrderView>, q: nat, i: nat)
    requires i < |os|
    ensures Allotted(os, q, i) <= q
  {
  }

  lemma AddTrades(b: Book, o: OrderView)
    ensures Add(b, o).trades == [] || Add(b, o).trades == Match(b, o).trades
  {
  }

  /** In every run, each trade is between a LIMIT order and a later order of the other
      side, and carries their ids and accounts. */
  lemma {:induction false} TradesArePaired(cmds: seq<Command>)
    requires PlayableRun(cmds)
    ensures forall t :: t in Run(cmds).trades ==> Paired(t, cmds)
  {
    hide Paired;
    hide Match;
    hide Add;
    hide Cancel;
    hide BookFrom;
    hide BookLive;
    hide BookTruthful;
    if cmds != [] {
      var n := |cmds| - 1;
      var before, h := cmds[..n], Run(cmds[..n]);
      assert cmds == before + [cmds[n]];
      TradesArePaired(before);
      PairedMore(h.trades, before, cmds[n]);
      match cmds[n]
      case Submit(o, newId) =>
        ReachableLive(before);
        StatusesAgree(before);
        NothingMadeUp(before);
        JustFrom(cmds);
        MatchPaired(h.book, Identified(o, newId), before, cmds[n]);
        AddTrades(h.book, Identified(o, newId));
      case Withdraw(id) => CancelNoTrades(h.book, id);
    }
  }

  lemma CancelNoTrades(b: Book, id: OrderId)
    ensures Cancel(b, id).trades == []
  {
  }

  lemma SideOf(b: Book, side: Side)
    requires BookLive(b)
    ensures forall x :: x in b.On(side) ==> x.side == side
  {
  }

  /** A call reports the resting order of each trade, in turn, and last the order itself. */
  lemma NoticesFollowTrades(b: Book, o: OrderView)
    requires BookLive(b) && Whole(o)
    ensures var out := Add(b, o);
            && |out.notices| == |out.trades| + 1
            && (forall i :: 0 <= i < |out.trades| ==>
                  var n, t := out.notices[i], out.trades[i];
                  && n.id == t.passiveId && n.price == t.price && n.account == t.passiveAccount
                  && n.side == o.side.Opposite())
            && Final(out).id == o.id && Final(out).account == o.account && Final(out).side == o.side
  {
    hide Sweep;
    hide Allotted;
    hide BookLive;
    hide Rest;
    hide LevelTotal;
    hide LevelUpdates;
    hide TradedPrices;
    var os := b.On(o.side.Opposite());
    LiveSide(b, o.side.Opposite());
    SideOf(b, o.side.Opposite());
    SweepNames(os, o);
    CrosserKept(b, o);
    forall i | 0 <= i < |Sweep(os, o).touched| ensures os[i].side == o.side.Opposite() {
      assert os[i] in os;
    }
  }

  // When an order is live.

  predicate Pending(o: OrderView) {
    o.kind == Limit && (o.status == Open || o.status == Partial)
  }

  /** A cancel for this id has come since an order was last submitted under it. */
  predicate WithdrawnSince(cmds: seq<Command>, id: OrderId) {
    cmds != [] &&
    var n := |cmds| - 1;
    if Submits(cmds[n], id) then false
    else cmds[n] == Withdraw(id) || WithdrawnSince(cmds[..n], id)
  }

  /** Live is what is pending by its last report and not withdrawn since. */
  ghost predicate LivesAgree(k: Known, gone: OrderId -> bool, b: Book) {
    forall id :: !NotLive(b, id) <==> id in k && Pending(k[id]) && !gone(id)
  }

  /** A sweep takes out exactly the orders that get all they want. */
  lemma GoneIff(os: seq<OrderView>, c: OrderView, i: nat)
    requires AllLive(os) && Unique(os) && i < |os|
    ensures NotAmong(Sweep(os, c).rest, os[i].id) <==> Allotted(os, c.remaining, i) == os[i].remaining
  {
    hide Sweep;
    hide Allotted;
    var r := Sweep(os, c);
    var n := |r.trades|;
    PriceTimePriority(os, c);
    ShareBound(os, c.remaining, i);
    var stays := n > 0 && Allotted(os, c.remaining, n - 1) < os[n - 1].remaining;
    var m := if stays then n - 1 else n;
    forall j | 0 <= j < |r.rest| ensures r.rest[j].id == os[m + j].id {
      if stays && j > 0 { assert r.rest[j] == os[n..][j - 1]; }
    }
    if i >= m {
      assert r.rest[i - m].id == os[i].id;
      assert os[i] in os;
    }
  }

  /** After a match, an order of the other side is live exactly if its last report is not
      that it is filled, and every other order is as it was. */
  lemma MatchLives(k: Known, b: Book, o: OrderView, id: OrderId)
    requires BookSound(b) && BookTruthful(b) && Reported(k, b.bids) && Reported(k, b.asks)
    requires NotLive(b, o.id) && id != o.id
    ensures var k', b' := Absorb(k, Match(b, o).notices), Match(b, o).book;
            if NotLive(b, id) then NotLive(b', id) && (id in k' <==> id in k) && (id in k ==> k'[id] == k[id])
            else id in k' && (NotLive(b', id) <==> !Pending(k'[id]))
  {
    hide Sweep;
    hide Absorb;
    hide Allotted;
    var os := b.On(o.side.Opposite());
    var r := Sweep(os, o);
    LiveSide(b, o.side.Opposite());
    SidesApart(b, o.side);
    MatchSides(b, o);
    SweepReports(os, o, k);
    AbsorbLast(k, r.touched, r.crossing);
    if NotAmong(os, id) {
      LeftNotAmong(os, o, id);
      OwnLives(k, b, o.side, id);
    } else {
      var i :| 0 <= i < |os| && os[i].id == id;
      assert os[i] in os;
      assert NotAmong(b.On(o.side), id) by { OwnNotAmong(b, o.side, os[i]); }
      GoneIff(os, o, i);
    }
  }

  lemma OwnLives(k: Known, b: Book, side: Side, id: OrderId)
    requires BookTruthful(b) && BookLive(b) && Reported(k, b.On(side))
    ensures !NotAmong(b.On(side), id) ==> id in k && Pending(k[id])
  {
    if i :| 0 <= i < |b.On(side)| && b.On(side)[i].id == id {
      assert b.On(side)[i] in b.On(side);
    }
  }

  lemma OwnNotAmong(b: Book, side: Side, x: OrderView)
    requires BookSound(b) && x in b.On(side.Opposite())
    ensures NotAmong(b.On(side), x.id)
  {
  }

  lemma InsertAmong(side: Side, os: seq<OrderView>, o: OrderView, id: OrderId)
    ensures NotAmong(Insert(side, os, o), id) <==> NotAmong(os, id) && o.id != id
  {
    hide Insert;
    var k := InsertSplits(side, os, o);
    var os' := os[..k] + [o] + os[k..];
    forall i | 0 <= i < |os| ensures os[i] == os'[if i < k then i else i + 1] {
    }
    assert os'[k] == o;
  }

  /** An order that comes to rest makes nobody else live. */
  lemma RestLives(b: Book, o: OrderView, id: OrderId)
    requires id != o.id
    ensures NotLive(Rest(b, o), id) <==> NotLive(b, id)
  {
    hide Insert;
    hide NotAmong;
    InsertAmong(o.side, b.On(o.side), o, id);
  }

  lemma OneNotice(k: Known, n: OrderView)
    ensures Absorb(k, [n]) == k[n.id := n]
  {
    assert [n] == [] + [n];
    AbsorbLast(k, [], n);
  }

  /** A call leaves every other order's life in agreement. */
  lemma OthersLive(k: Known, gone: OrderId -> bool, b: Book, o: OrderView, id: OrderId)
    requires BookSound(b) && BookTruthful(b) && Reported(k, b.bids) && Reported(k, b.asks)
    requires NotLive(b, o.id) && LivesAgree(k, gone, b) && id != o.id
    ensures var k', b' := Absorb(k, Add(b, o).notices), Add(b, o).book;
            !NotLive(b', id) <==> id in k' && Pending(k'[id]) && !gone(id)
  {
    hide Absorb;
    hide BookSound;
    hide BookTruthful;
    hide Reported;
    hide NotLive;
    hide Match;
    hide Rest;
    hide Pending;
    MatchLives(k, b, o, id);
    OneNotice(k, o);
    OneNotice(k, o.(status := Rejected));
    LeftOfLimitId(b, o);
    var out := if Crosses(b, o) then Match(b, o) else Outcome(b, [], [], [o]);
    RestLives(out.book, Final(out), id);
  }

  lemma LeftOfLimitId(b: Book, o: OrderView)
    ensures Final(Match(b, o)).id == o.id
  {
    MatchSides(b, o);
  }

  /** The order of the call itself is live exactly if it is a LIMIT order with something left. */
  lemma OwnLife(k: Known, b: Book, o: OrderView)
    requires BookSound(b) && BookTruthful(b) && LegalOrder(b, o) && NotLive(b, o.id)
    ensures var k', b' := Absorb(k, Add(b, o).notices), Add(b, o).book;
            o.id in k' && (!NotLive(b', o.id) <==> Pending(k'[o.id]))
  {
    hide Absorb;
    hide BookSound;
    hide BookLive;
    hide BookTruthful;
    hide Sweep;
    hide Insert;
    hide NotAmong;
    hide JoinedAt;
    hide LevelTotal;
    hide Sum;
    var out, os := Add(b, o), b.On(o.side.Opposite());
    SoundIsLive(b);
    CrossesIff(b, o);
    AddSides(b, o);
    MatchSides(b, o);
    AddTruthful(b, o);
    FinalIsKnown(k, out.notices);
    assert Final(out) in out.notices;
    LiveSide(b, o.side.Opposite());
    LeftNotAmong(os, o, o.id);
    if o.kind == Limit {
      LeftoverRests(b, o);
      InsertAmong(o.side, b.On(o.side), Final(out), o.id);
      AmongAt(out.book.On(o.side), Final(out));
    }
  }

  lemma AmongAt(os: seq<OrderView>, o: OrderView)
    ensures o in os ==> !NotAmong(os, o.id)
  {
  }

  lemma CancelLives(k: Known, gone: OrderId -> bool, b: Book, id: OrderId, other: OrderId)
    requires BookSound(b) && LivesAgree(k, gone, b)
    ensures var b' := Cancel(b, id).book;
            !NotLive(b', other) <==> other in k && Pending(k[other]) && other != id && !gone(other)
  {
    hide Delete;
    hide Pending;
    if id in b.index {
      var h := b.index[id];
      CancelById(b, id);
      IndexedPrice(b, id);
      DeleteAmong(b.On(h.side), id, other);
    } else {
      CancelUnknown(b, id);
    }
    assert id == other ==> NotLive(Cancel(b, id).book, id);
  }

  lemma {:induction false} DeleteAmong(os: seq<OrderView>, id: OrderId, other: OrderId)
    ensures NotAmong(Delete(os, id), other) <==> other == id || NotAmong(os, other)
  {
    hide Delete;
    DeleteMembers(os, id);
    forall x | x in Delete(os, id) && x.id == other ensures !NotAmong(os, other) && other != id {
      AmongAt(os, x);
    }
    forall x | x in os && x.id == other && other != id ensures !NotAmong(Delete(os, id), other) {
      AmongAt(Delete(os, id), x);
    }
    if !NotAmong(os, other) {
      var i :| 0 <= i < |os| && os[i].id == other;
      assert os[i] in os;
    }
    if !NotAmong(Delete(os, id), other) {
      var i :| 0 <= i < |Delete(os, id)| && Delete(os, id)[i].id == other;
      assert Delete(os, id)[i] in Delete(os, id);
    }
  }

  /** In every run whose orders can be told apart, an order is live if and only if it is
      a LIMIT order last reported OPEN or PARTIAL and no cancel has come for it since:
      what is left of a LIMIT order is never dropped, and nothing else stays. */
  lemma {:induction false} LiveIff(cmds: seq<Command>)
    requires ToldApart(cmds)
    ensures var h := Run(cmds);
            LivesAgree(Absorb(map[], h.notices), (id: OrderId) => WithdrawnSince(cmds, id), h.book)
  {
    hide Absorb;
    hide Add;
    hide Cancel;
    hide BookSound;
    hide BookTruthful;
    hide NotLive;
    hide Pending;
    hide AccountsBalance;
    hide Reported;
    if cmds == [] {
      NobodyLive();
    } else {
      var n := |cmds| - 1;
      var before, h, out := cmds[..n], Run(cmds[..n]), Next(Run(cmds[..n]).book, cmds[n]);
      var k, gone := Absorb(map[], h.notices), id => WithdrawnSince(before, id);
      LiveIff(before);
      LedgerBalances(before);
      ApartIsLegal(before);
      LegalIsPlayable(before);
      ReachableSound(before);
      StatusesAgree(before);
      AbsorbAppend(map[], h.notices, out.notices);
      match cmds[n] {
        case Submit(o, newId) =>
          var order := Identified(o, newId);
          OwnLife(k, h.book, order);
          forall id | id != order.id
            ensures var k' := Absorb(k, out.notices);
                    !NotLive(out.book, id) <==> id in k' && Pending(k'[id]) && !gone(id)
          {
            OthersLive(k, gone, h.book, order, id);
          }
        case Withdraw(id) =>
          CancelSilent(k, h.book, id);
          forall other
            ensures !NotLive(out.book, other) <==> other in k && Pending(k[other]) && other != id && !gone(other)
          {
            CancelLives(k, gone, h.book, id, other);
          }
      }
    }
  }

  lemma NobodyLive()
    ensures LivesAgree(Absorb(map[], []), (id: OrderId) => WithdrawnSince([], id), EMPTY_BOOK)
  {
  }

  /** One past the place of the last command that submits an order under this id. */
  function LastSubmit(cmds: seq<Command>, id: OrderId): (n: nat)
    ensures n <= |cmds| && (n > 0 ==> Submits(cmds[n - 1], id))
    ensures forall j :: n <= j < |cmds| ==> !Submits(cmds[j], id)
  {
    if cmds == [] then 0
    else if Submits(cmds[|cmds| - 1], id) then |cmds|
    else LastSubmit(cmds[..|cmds| - 1], id)
  }

  /** What is known of each order is about the last one submitted under its id. */
  ghost predicate LatestKnown(k: Known, cmds: seq<Command>) {
    forall id :: id in k ==> LastSubmit(cmds, id) > 0 && IsOf(k[id], cmds[LastSubmit(cmds, id) - 1])
  }

  /** k' says of this order at most that it wants less now. */
  predicate StillKnown(k: Known, k': Known, id: OrderId) {
    && (id in k' <==> id in k)
    && (id in k ==> k'[id] == k[id].(remaining := k'[id].remaining, status := k'[id].status))
  }

  lemma OthersKept(k: Known, b: Book, o: OrderView, id: OrderId)
    requires BookSound(b) && Reported(k, b.bids) && Reported(k, b.asks) && id != o.id
    ensures StillKnown(k, Absorb(k, Add(b, o).notices), id)
  {
    hide Absorb;
    hide Match;
    hide Rest;
    hide BookSound;
    hide Reported;
    MatchKept(k, b, o, id);
    OneNotice(k, o);
    OneNotice(k, o.(status := Rejected));
  }

  lemma MatchKept(k: Known, b: Book, o: OrderView, id: OrderId)
    requires BookSound(b) && Reported(k, b.bids) && Reported(k, b.asks) && id != o.id
    ensures StillKnown(k, Absorb(k, Match(b, o).notices), id)
  {
    hide Sweep;
    hide Absorb;
    hide Allotted;
    var os := b.On(o.side.Opposite());
    var r := Sweep(os, o);
    LiveSide(b, o.side.Opposite());
    MatchSides(b, o);
    SweepReports(os, o, k);
    AbsorbLast(k, r.touched, r.crossing);
    if !NotAmong(os, id) {
      var i :| 0 <= i < |os| && os[i].id == id;
    }
  }

  lemma OwnKept(k: Known, cmds: seq<Command>, b: Book)
    requires cmds != [] && cmds[|cmds| - 1].Submit?
    ensures var cmd := cmds[|cmds| - 1]; var o := Identified(cmd.order, cmd.newId);
            var k' := Absorb(k, Add(b, o).notices);
            o.id in k' && IsOf(k'[o.id], cmd)
  {
    hide Absorb;
    hide Match;
    hide Rest;
    var cmd := cmds[|cmds| - 1];
    var o := Identified(cmd.order, cmd.newId);
    JustFrom(cmds);
    CrosserKept(b, o);
    FinalIsKnown(k, Add(b, o).notices);
  }

  lemma CrosserKept(b: Book, o: OrderView)
    ensures var left := Final(Match(b, o)); left == o.(remaining := left.remaining, status := left.status)
  {
    SweepCrossing(b.On(o.side.Opposite()), o);
  }

  lemma SubmitLatest(k: Known, b: Book, before: seq<Command>, cmd: Command)
    requires BookSound(b) && Reported(k, b.bids) && Reported(k, b.asks) && LatestKnown(k, before) && cmd.Submit?
    ensures LatestKnown(Absorb(k, Add(b, Identified(cmd.order, cmd.newId)).notices), before + [cmd])
  {
    hide Absorb;
    hide Add;
    hide BookSound;
    hide Reported;
    var o, cmds := Identified(cmd.order, cmd.newId), before + [cmd];
    var k' := Absorb(k, Add(b, o).notices);
    assert cmds[..|before|] == before;
    OwnKept(k, cmds, b);
    forall id | id in k' ensures LastSubmit(cmds, id) > 0 && IsOf(k'[id], cmds[LastSubmit(cmds, id) - 1]) {
      if id != o.id {
        OthersKept(k, b, o, id);
        assert IsOf(k[id], before[LastSubmit(before, id) - 1]);
      }
    }
  }

  lemma WithdrawLatest(k: Known, before: seq<Command>, id: OrderId)
    requires LatestKnown(k, before)
    ensures LatestKnown(k, before + [Withdraw(id)])
  {
    assert (before + [Withdraw(id)])[..|before|] == before;
  }

  lemma {:induction false} LatestReports(cmds: seq<Command>)
    requires ToldApart(cmds)
    ensures LatestKnown(Absorb(map[], Run(cmds).notices), cmds)
  {
    hide Absorb;
    hide Add;
    hide Cancel;
    hide BookSound;
    hide LatestKnown;
    hide NotLive;
    hide AccountsBalance;
    hide Reported;
    if cmds != [] {
      var n := |cmds| - 1;
      var before, h, out := cmds[..n], Run(cmds[..n]), Next(Run(cmds[..n]).book, cmds[n]);
      var k := Absorb(map[], h.notices);
      assert cmds == before + [cmds[n]];
      LatestReports(before);
      LedgerBalances(before);
      ApartIsLegal(before);
      ReachableSound(before);
      AbsorbAppend(map[], h.notices, out.notices);
      match cmds[n] {
        case Submit(o, newId) =>
          SubmitLatest(k, h.book, before, cmds[n]);
        case Withdraw(id) =>
          CancelSilent(k, h.book, id);
          WithdrawLatest(k, before, id);
      }
    } else {
      NobodyKnown();
    }
  }

  lemma NobodyKnown()
    ensures LatestKnown(Absorb(map[], []), [])
  {
  }

  lemma {:induction false} WithdrawnIff(cmds: seq<Command>, id: OrderId)
    ensures WithdrawnSince(cmds, id) <==>
            exists j :: LastSubmit(cmds, id) <= j < |cmds| && cmds[j] == Withdraw(id)
  {
    if cmds != [] {
      var n := |cmds| - 1;
      WithdrawnIff(cmds[..n], id);
      if !Submits(cmds[n], id) {
        if j :| LastSubmit(cmds[..n], id) <= j < n && cmds[..n][j] == Withdraw(id) {
          assert cmds[j] == Withdraw(id);
        }
        if j :| LastSubmit(cmds, id) <= j < n && cmds[j] == Withdraw(id) {
          assert cmds[..n][j] == Withdraw(id);
        }
      }
    }
  }

  lemma {:induction false} AbsorbOnly(k: Known, ns: seq<OrderView>, id: OrderId)
    requires id in Absorb(k, ns) && id !in k
    ensures Absorb(k, ns)[id] in ns
    decreases |ns|
  {
    var n := |ns| - 1;
    if ns[n].id != id {
      AbsorbOnly(k, ns[..n], id);
    }
  }

  /** What becomes of a LIMIT order, submitted as command i, under the id that it brought
      or else was given: until another is submitted under that id, it is filled, or a
      cancel for the id has come since, or it is live on its side as last reported, and
      in that last case neither of the others. */
  lemma WhatBecomes(cmds: seq<Command>, i: nat)
    requires ToldApart(cmds) && i < |cmds| && cmds[i].Submit? && cmds[i].order.kind == Limit
    requires forall j :: i < j < |cmds| ==> !Submits(cmds[j], GivenId(cmds[i]))
    ensures var id, h := GivenId(cmds[i]), Run(cmds); var k := Absorb(map[], h.notices);
            && id in k && IsOf(k[id], cmds[i])
            && (k[id] in h.book.On(cmds[i].order.side) <==>
                k[id].status != Filled && !exists j :: i < j < |cmds| && cmds[j] == Withdraw(id))
  {
    hide Absorb;
    hide Run;
    hide BookLive;
    hide BookSound;
    hide ToldApart;
    hide AccountsBalance;
    hide NotLive;
    hide Reported;
    hide Truthful;
    hide Pending;
    hide Submitted;
    hide WithdrawnSince;
    var id, h := GivenId(cmds[i]), Run(cmds);
    var k := Absorb(map[], h.notices);
    ApartIsLegal(cmds);
    LegalIsPlayable(cmds);
    LedgerBalances(cmds);
    SubmittedIn(cmds, i);
    LatestReports(cmds);
    LiveIff(cmds);
    WithdrawnIff(cmds, id);
    StatusesAgree(cmds);
    ReachableLive(cmds);
    AbsorbOnly(map[], h.notices, id);
    assert LastSubmit(cmds, id) == i + 1;
    LiveOnItsSide(k, h.book, id);
    PendingIff(k[id]);
  }

  lemma PendingIff(o: OrderView)
    requires Truthful(o) && o.kind == Limit
    ensures Pending(o) <==> o.status != Filled
  {
  }

  lemma {:induction false} SubmittedIn(cmds: seq<Command>, i: nat)
    requires i < |cmds| && cmds[i].Submit?
    ensures GivenId(cmds[i]) in Submitted(cmds)
  {
    var n := |cmds| - 1;
    if i < n {
      SubmittedIn(cmds[..n], i);
    }
  }

  lemma LiveOnItsSide(k: Known, b: Book, id: OrderId)
    requires BookLive(b) && Reported(k, b.bids) && Reported(k, b.asks) && id in k && k[id].id == id
    ensures !NotLive(b, id) <==> k[id] in b.On(k[id].side)
  {
    if i :| 0 <= i < |b.bids| && b.bids[i].id == id {
      assert b.bids[i] in b.bids;
    }
    if i :| 0 <= i < |b.asks| && b.asks[i].id == id {
      assert b.asks[i] in b.asks;
    }
    AmongAt(b.On(k[id].side), k[id]);
  }
}
