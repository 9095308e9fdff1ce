/** Every order's account over a whole run: what it wanted is what it still wants
    plus what it traded. */
module Ledger {
  import opened Types
  import opened Sweeps
  import opened FlatBook
  import opened Books
  import opened Soundness
  import opened Priority
  import opened Runs
  import opened Statuses

  type Known = map<OrderId, OrderView>

  /** What the receiver of these notices knows of each order: its last notice. */
  function Absorb(k: Known, ns: seq<OrderView>): Known {
    if ns == [] then k
    else var n := |ns| - 1; Absorb(k, ns[..n])[ns[n].id := ns[n]]
  }

  function CrossingQty(ts: seq<Trade>, id: OrderId): nat {
    if ts == [] then 0 else (if ts[0].crossingId == id then ts[0].qty else 0) + CrossingQty(ts[1..], id)
  }

  /** All that these trades, naming it on either side, moved for the order id. */
  function Traded(ts: seq<Trade>, id: OrderId): nat {
    PassiveQty(ts, id) + CrossingQty(ts, id)
  }

  /** How much each order has traded since it was last submitted. */
  type Moved = OrderId -> nat

  function AfterSubmit(t: Moved, id: OrderId, ts: seq<Trade>): Moved {
    i => (if i == id then 0 else t(i)) + Traded(ts, i)
  }

  ghost predicate Account(o: OrderView, id: OrderId, traded: nat) {
    o.id == id && o.qty == o.remaining + traded
  }

  ghost predicate AccountsBalance(k: Known, t: Moved) {
    forall id :: if id in k then Account(k[id], id, t(id)) else t(id) == 0
  }

  /** Every one of these orders is as last reported. */
  ghost predicate Reported(k: Known, os: seq<OrderView>) {
    forall i :: 0 <= i < |os| ==> os[i].id in k && k[os[i].id] == os[i]
  }

  /** Every account is balanced, and every live order is as last reported. */
  ghost predicate Balanced(k: Known, t: Moved, b: Book) {
    AccountsBalance(k, t) && Reported(k, b.bids) && Reported(k, b.asks)
  }

  lemma {:induction false} AbsorbAppend(k: Known, ms: seq<OrderView>, ns: seq<OrderView>)
    ensures Absorb(k, ms + ns) == Absorb(Absorb(k, ms), ns)
    decreases |ns|
  {
    if ns == [] {
      assert ms + ns == ms;
    } else {
      assert (ms + ns)[..|ms + ns| - 1] == ms + ns[..|ns| - 1];
      AbsorbAppend(k, ms, ns[..|ns| - 1]);
    }
  }

  lemma {:induction false} TradedAppend(ts: seq<Trade>, us: seq<Trade>, id: OrderId)
    ensures Traded(ts + us, id) == Traded(ts, id) + Traded(us, id)
  {
    if ts == [] {
      assert ts + us == us;
    } else {
      assert (ts + us)[1..] == ts[1..] + us;
      TradedAppend(ts[1..], us, id);
    }
  }

  lemma {:induction false} AbsorbOnce(k: Known, ns: seq<OrderView>)
    requires Unique(ns)
    ensures var k' := Absorb(k, ns);
            && (forall i :: 0 <= i < |ns| ==> ns[i].id in k' && k'[ns[i].id] == ns[i])
            && (forall id :: (forall i :: 0 <= i < |ns| ==> ns[i].id != id) ==>
                  (id in k' <==> id in k) && (id in k ==> k'[id] == k[id]))
    decreases |ns|
  {
    if ns != [] {
      AbsorbOnce(k, ns[..|ns| - 1]);
    }
  }

  ghost predicate DistinctPassive(ts: seq<Trade>) {
    forall i, j :: 0 <= i < j < |ts| ==> ts[i].passiveId != ts[j].passiveId
  }

  lemma {:induction false} PassiveOnce(ts: seq<Trade>)
    requires DistinctPassive(ts)
    ensures forall i :: 0 <= i < |ts| ==> PassiveQty(ts, ts[i].passiveId) == ts[i].qty
    ensures forall id :: (forall i :: 0 <= i < |ts| ==> ts[i].passiveId != id) ==> PassiveQty(ts, id) == 0
  {
    if ts != [] {
      PassiveOnce(ts[1..]);
      forall id | forall i :: 0 <= i < |ts| ==> ts[i].passiveId != id ensures PassiveQty(ts, id) == 0 {
        assert forall i :: 0 <= i < |ts[1..]| ==> ts[1..][i] == ts[i + 1];
      }
      forall i | 0 <= i < |ts| ensures PassiveQty(ts, ts[i].passiveId) == ts[i].qty {
        assert forall j :: 0 <= j < |ts[1..]| ==> ts[1..][j] == ts[j + 1];
        if i > 0 {
          assert ts[i] == ts[1..][i - 1];
        }
      }
    }
  }

  lemma {:induction false} OneCrosser(ts: seq<Trade>, id: OrderId)
    requires forall t :: t in ts ==> t.crossingId == id
    ensures CrossingQty(ts, id) == TradeSum(ts)
    ensures forall other :: other != id ==> CrossingQty(ts, other) == 0
  {
    if ts != [] {
      assert ts[0] in ts;
      OneCrosser(ts[1..], id);
    }
  }

  ghost predicate NotAmong(os: seq<OrderView>, id: OrderId) {
    forall i :: 0 <= i < |os| ==> os[i].id != id
  }

  /** Trade i of a sweep names order i of the queue and the crosser, with their accounts,
      at the price of order i and on the side of the crosser. */
  lemma SweepNames(os: seq<OrderView>, c: OrderView)
    requires AllLive(os)
    ensures var r := Sweep(os, c);
            && |r.trades| == |r.touched| <= |os|
            && (forall i :: 0 <= i < |r.trades| ==>
                  && r.trades[i].passiveId == os[i].id == r.touched[i].id
                  && r.trades[i].crossingId == c.id
                  && r.trades[i].passiveAccount == os[i].account && r.trades[i].crossingAccount == c.account
                  && r.trades[i].crossingSide == c.side && r.trades[i].price == os[i].price
                  && r.trades[i].qty == Allotted(os, c.remaining, i) > 0
                  && r.trades[i].qty <= os[i].remaining
                  && r.touched[i] == Settle(os[i], r.trades[i].qty))
            && (forall i :: |r.trades| <= i < |os| ==> Allotted(os, c.remaining, i) == 0)
  {
    hide Sweep;
    hide Allotted;
    hide LeftOver;
    var r := Sweep(os, c);
    PriceTimePriority(os, c);
    forall i | 0 <= i < |r.trades|
      ensures r.trades[i].passiveId == os[i].id == r.touched[i].id && r.trades[i].crossingId == c.id
      ensures r.trades[i].passiveAccount == os[i].account && r.trades[i].crossingAccount == c.account
      ensures r.trades[i].crossingSide == c.side && r.trades[i].price == os[i].price
      ensures r.trades[i].qty == Allotted(os, c.remaining, i) > 0 && r.trades[i].qty <= os[i].remaining
      ensures r.touched[i] == Settle(os[i], r.trades[i].qty)
    {
      ShareBound(os, c.remaining, i);
      assert Turn(os, c, i, r.trades[i], r.touched[i]);
    }
  }

  /** A sweep moves order i by its share and the crosser by the sum, and names nobody else. */
  lemma SweepQuantities(os: seq<OrderView>, c: OrderView)
    requires AllLive(os) && Unique(os) && NotAmong(os, c.id)
    ensures var ts := Sweep(os, c).trades;
            && (forall i :: 0 <= i < |os| ==> Traded(ts, os[i].id) == Allotted(os, c.remaining, i))
            && Traded(ts, c.id) == c.remaining - Sweep(os, c).crossing.remaining
            && (forall id :: id != c.id && NotAmong(os, id) ==> Traded(ts, id) == 0)
  {
    hide Sweep;
    hide PassiveQty;
    hide CrossingQty;
    hide Allotted;
    var ts := Sweep(os, c).trades;
    SweepNames(os, c);
    SweepConserves(os, c);
    PassiveOnce(ts);
    OneCrosser(ts, c.id);
    forall i | 0 <= i < |os| ensures Traded(ts, os[i].id) == Allotted(os, c.remaining, i) {
      if i < |ts| { assert PassiveQty(ts, ts[i].passiveId) == ts[i].qty; }
    }
  }

  /** A sweep reports order i with its share gone, and nothing of anybody else. */
  lemma SweepReports(os: seq<OrderView>, c: OrderView, k: Known)
    requires AllLive(os) && Unique(os)
    requires Reported(k, os)
    ensures var k' := Absorb(k, Sweep(os, c).touched);
            && k'.Keys == k.Keys
            && (forall i :: 0 <= i < |os| ==>
                  var a := Allotted(os, c.remaining, i);
                  a <= os[i].remaining && k'[os[i].id] == if a == 0 then os[i] else Settle(os[i], a))
            && (forall id :: id in k && NotAmong(os, id) ==> k'[id] == k[id])
  {
    hide Sweep;
    hide Absorb;
    hide Allotted;
    var touched := Sweep(os, c).touched;
    var k' := Absorb(k, touched);
    SweepNames(os, c);
    AbsorbOnce(k, touched);
    forall i | 0 <= i < |os|
      ensures var a := Allotted(os, c.remaining, i);
              os[i].id in k' && a <= os[i].remaining && k'[os[i].id] == if a == 0 then os[i] else Settle(os[i], a)
    {
      if i < |touched| { assert touched[i].id in k' && k'[touched[i].id] == touched[i]; }
    }
    forall id ensures id in k' <==> id in k {
    }
  }

  lemma ShareBound(os: seq<OrderView>, q: nat, i: nat)
    requires i < |os|
    ensures Allotted(os, q, i) <= os[i].remaining
  {
  }

  lemma AccountAfter(o: OrderView, a: nat, traded: nat)
    requires Account(o, o.id, traded) && a <= o.remaining
    ensures Account(if a == 0 then o else Settle(o, a), o.id, traded + a)
  {
  }

  /** The crosser's account opens with what it traded in the sweep. */
  lemma CrosserAccount(os: seq<OrderView>, o: OrderView)
    requires AllLive(os) && os != [] && 0 < o.remaining == o.qty
    ensures var c := Sweep(os, o).crossing;
            c.remaining <= o.remaining && Account(c, o.id, o.remaining - c.remaining)
  {
    assert os[0] in os;
    SweepCrossing(os, o);
  }

  lemma SweepBalances(k: Known, t: Moved, os: seq<OrderView>, o: OrderView)
    requires AllLive(os) && Unique(os) && os != [] && Reported(k, os) && AccountsBalance(k, t)
    requires NotAmong(os, o.id) && 0 < o.remaining == o.qty
    ensures var r := Sweep(os, o);
            AccountsBalance(Absorb(k, r.touched + [r.crossing]), AfterSubmit(t, o.id, r.trades))
  {
    hide Sweep;
    hide Absorb;
    hide Traded;
    hide Account;
    hide Allotted;
    hide Unique;
    hide AllLive;
    var r := Sweep(os, o);
    SweepQuantities(os, o);
    SweepReports(os, o, k);
    CrosserAccount(os, o);
    AbsorbLast(k, r.touched, r.crossing);
    CrosserId(os, o);
    var k' := Absorb(k, r.touched)[o.id := r.crossing];
    var t' := AfterSubmit(t, o.id, r.trades);
    forall id ensures if id in k' then Account(k'[id], id, t'(id)) else t'(id) == 0 {
      if i :| 0 <= i < |os| && os[i].id == id {
        AccountAfter(os[i], Allotted(os, o.remaining, i), t(id));
      } else {
        assert NotAmong(os, id);
      }
    }
  }

  lemma AbsorbLast(k: Known, ns: seq<OrderView>, n: OrderView)
    ensures Absorb(k, ns + [n]) == Absorb(k, ns)[n.id := n]
  {
  }

  lemma CrosserId(os: seq<OrderView>, o: OrderView)
    ensures Sweep(os, o).crossing.id == o.id
  {
  }

  /** What is left of the queue is as the sweep reported it. */
  lemma LeftReported(k: Known, os: seq<OrderView>, o: OrderView)
    requires AllLive(os) && Unique(os) && Reported(k, os)
    ensures Reported(Absorb(k, Sweep(os, o).touched), Sweep(os, o).rest)
  {
    hide Sweep;
    hide Absorb;
    hide Allotted;
    var r := Sweep(os, o);
    var n := |r.trades|;
    PriceTimePriority(os, o);
    SweepReports(os, o, k);
    if n > 0 { assert Turn(os, o, n - 1, r.trades[n - 1], r.touched[n - 1]); }
  }

  lemma OthersReported(k: Known, k': Known, os: seq<OrderView>)
    requires Reported(k, os)
    requires forall i :: 0 <= i < |os| ==> os[i].id in k' && k'[os[i].id] == k[os[i].id]
    ensures Reported(k', os)
  {
  }

  /** The two sides of a sound book share no id. */
  lemma SidesApart(b: Book, side: Side)
    requires BookSound(b)
    ensures forall i :: 0 <= i < |b.On(side)| ==> NotAmong(b.On(side.Opposite()), b.On(side)[i].id)
  {
  }

  /** What a sweep leaves goes by the same ids as the end of the queue did. */
  lemma LeftIds(os: seq<OrderView>, o: OrderView) returns (n: nat)
    requires AllLive(os)
    ensures n <= |Sweep(os, o).trades| && n + |Sweep(os, o).rest| == |os|
    ensures forall i :: n <= i < |os| ==> Sweep(os, o).rest[i - n].id == os[i].id
  {
    hide Sweep;
    n := SweepCuts(os, o);
    var rest := Sweep(os, o).rest;
    forall i | n < i < |os| ensures rest[i - n] == os[i] {
      assert rest[i - n] == rest[1..][i - n - 1] && os[i] == os[n + 1..][i - n - 1];
    }
  }

  lemma LeftNotAmong(os: seq<OrderView>, o: OrderView, id: OrderId)
    requires AllLive(os) && NotAmong(os, id)
    ensures NotAmong(Sweep(os, o).rest, id)
  {
    hide Sweep;
    var n := LeftIds(os, o);
    forall i | 0 <= i < |Sweep(os, o).rest| ensures Sweep(os, o).rest[i].id != id {
      assert os[n + i].id != id;
    }
  }

  ghost predicate NotLive(b: Book, id: OrderId) {
    NotAmong(b.bids, id) && NotAmong(b.asks, id)
  }

  lemma MatchBalanced(k: Known, t: Moved, b: Book, o: OrderView)
    requires BookSound(b) && Balanced(k, t, b)
    requires NotLive(b, o.id) && 0 < o.remaining == o.qty && b.On(o.side.Opposite()) != []
    ensures var out := Match(b, o);
            && Balanced(Absorb(k, out.notices), AfterSubmit(t, o.id, out.trades), out.book)
            && Absorb(k, out.notices).Keys == k.Keys + {o.id}
  {
    hide Sweep;
    hide Absorb;
    hide AccountsBalance;
    hide Allotted;
    var os, own := b.On(o.side.Opposite()), b.On(o.side);
    var r := Sweep(os, o);
    var k1 := Absorb(k, r.touched);
    LiveSide(b, o.side.Opposite());
    SidesApart(b, o.side);
    SweepBalances(k, t, os, o);
    LeftReported(k, os, o);
    SweepReports(os, o, k);
    AbsorbLast(k, r.touched, r.crossing);
    CrosserId(os, o);
    var k' := k1[o.id := r.crossing];
    LeftNotAmong(os, o, o.id);
    OthersReported(k, k', own);
    OthersReported(k1, k', r.rest);
  }

  lemma InsertReported(k: Known, side: Side, os: seq<OrderView>, o: OrderView)
    requires Reported(k, os) && o.id in k && k[o.id] == o
    ensures Reported(k, Insert(side, os, o))
  {
  }

  lemma RestBalanced(k: Known, t: Moved, b: Book, o: OrderView)
    requires Balanced(k, t, b) && o.id in k && k[o.id] == o
    ensures Balanced(k, t, Rest(b, o))
  {
    hide AccountsBalance;
    hide Reported;
    InsertReported(k, o.side, b.On(o.side), o);
  }

  /** An order that trades nothing opens an account of its own. */
  lemma OpenAccount(k: Known, t: Moved, b: Book, o: OrderView)
    requires Balanced(k, t, b) && NotLive(b, o.id) && o.remaining == o.qty
    ensures Balanced(Absorb(k, [o]), AfterSubmit(t, o.id, []), b)
    ensures Absorb(k, [o]).Keys == k.Keys + {o.id}
  {
    assert [o] == [] + [o];
    AbsorbLast(k, [], o);
  }

  lemma AddBalanced(k: Known, t: Moved, b: Book, o: OrderView)
    requires BookSound(b) && Balanced(k, t, b) && LegalOrder(b, o) && NotLive(b, o.id)
    ensures var out := Add(b, o);
            && Balanced(Absorb(k, out.notices), AfterSubmit(t, o.id, out.trades), out.book)
            && Absorb(k, out.notices).Keys == k.Keys + {o.id}
  {
    hide Balanced;
    hide Sweep;
    hide BookSound;
    hide Absorb;
    hide AfterSubmit;
    hide NotLive;
    hide Rest;
    if b.On(o.side.Opposite()) != [] && (o.kind == Market || Crosses(b, o)) {
      MatchBalanced(k, t, b, o);
    } else {
      OpenAccount(k, t, b, if o.kind == Limit then o else o.(status := Rejected));
    }
    if o.kind == Limit {
      var out := if Crosses(b, o) then Match(b, o) else Outcome(b, [], [], [o]);
      if Final(out).status != Filled {
        FinalIsKnown(k, out.notices);
        RestBalanced(Absorb(k, out.notices), AfterSubmit(t, o.id, out.trades), out.book, Final(out));
      }
    }
  }

  lemma {:induction false} PassiveAtLeast(ts: seq<Trade>, i: nat)
    requires i < |ts|
    ensures PassiveQty(ts, ts[i].passiveId) >= ts[i].qty
  {
    if i > 0 {
      PassiveAtLeast(ts[1..], i - 1);
    }
  }

  /** An order that a sweep took out of the queue has traded. */
  lemma GoneHasTraded(os: seq<OrderView>, o: OrderView, k: nat)
    requires AllLive(os) && k < |os| && NotAmong(Sweep(os, o).rest, os[k].id)
    ensures PassiveQty(Sweep(os, o).trades, os[k].id) > 0
  {
    hide Sweep;
    hide PassiveQty;
    hide Allotted;
    var n := LeftIds(os, o);
    assert k < n;
    SweepNames(os, o);
    PassiveAtLeast(Sweep(os, o).trades, k);
  }

  /** An order that does not rest, under the id of one that does: afterwards either that
      one is still live, and not as last reported, or both have traded under one id. */
  lemma SharedId(k: Known, t: Moved, b: Book, o: OrderView)
    requires BookSound(b) && BookTruthful(b) && o.kind != Limit && Whole(o) && !NotLive(b, o.id)
    ensures var out := Add(b, o); !Balanced(Absorb(k, out.notices), AfterSubmit(t, o.id, out.trades), out.book)
  {
    hide Absorb;
    hide Balanced;
    hide BookSound;
    hide BookTruthful;
    hide Match;
    hide NotLive;
    var out := Add(b, o);
    SoundIsLive(b);
    AddTruthful(b, o);
    FinalIsKnown(k, out.notices);
    LeftOfLimit(b, o);
    if !NotLive(out.book, o.id) {
      StillLive(Absorb(k, out.notices), AfterSubmit(t, o.id, out.trades), out.book, Final(out));
    } else {
      CountedTwice(Absorb(k, out.notices), t, b, o);
    }
  }

  /** One id on both sides of the trades. */
  lemma CountedTwice(k: Known, t: Moved, b: Book, o: OrderView)
    requires BookLive(b) && o.remaining == o.qty && !NotLive(b, o.id) && NotLive(Match(b, o).book, o.id)
    requires o.id in k && k[o.id] == Final(Match(b, o))
    ensures !Balanced(k, AfterSubmit(t, o.id, Match(b, o).trades), Match(b, o).book)
  {
    hide Sweep;
    hide BookLive;
    hide PassiveQty;
    hide CrossingQty;
    var out := Match(b, o);
    var os := b.On(o.side.Opposite());
    assert !NotAmong(os, o.id);
    LiveSide(b, o.side.Opposite());
    var j :| 0 <= j < |os| && os[j].id == o.id;
    GoneHasTraded(os, o, j);
    SweepNames(os, o);
    OneCrosser(out.trades, o.id);
    SweepConserves(os, o);
    SweepCrossing(os, o);
    assert !Account(k[o.id], o.id, AfterSubmit(t, o.id, out.trades)(o.id));
  }

  lemma StillLive(k: Known, t: Moved, b: Book, o: OrderView)
    requires BookTruthful(b) && o.kind != Limit && !NotLive(b, o.id) && o.id in k && k[o.id] == o
    ensures !Balanced(k, t, b)
  {
    hide Truthful;
    if i :| 0 <= i < |b.bids| && b.bids[i].id == o.id {
      assert b.bids[i] in b.bids;
    } else {
      var j :| 0 <= j < |b.asks| && b.asks[j].id == o.id;
      assert b.asks[j] in b.asks;
    }
  }

  /** Exactly when a legal order leaves the accounts balanced: when its id is not that of
      a live order. */
  lemma AddBalancedIff(k: Known, t: Moved, b: Book, o: OrderView)
    requires BookSound(b) && BookTruthful(b) && Balanced(k, t, b) && LegalOrder(b, o)
    ensures var out := Add(b, o);
            Balanced(Absorb(k, out.notices), AfterSubmit(t, o.id, out.trades), out.book) <==> NotLive(b, o.id)
  {
    if NotLive(b, o.id) {
      AddBalanced(k, t, b, o);
    } else {
      SharedId(k, t, b, o);
    }
  }

  lemma FinalIsKnown(k: Known, ns: seq<OrderView>)
    requires ns != []
    ensures var n := ns[|ns| - 1]; n.id in Absorb(k, ns) && Absorb(k, ns)[n.id] == n
  {
  }

  lemma CancelBalanced(k: Known, t: Moved, b: Book, id: OrderId)
    requires Balanced(k, t, b)
    ensures Balanced(k, t, Cancel(b, id).book)
  {
    hide AccountsBalance;
    hide DeleteAtPrice;
    if id in b.index {
      var h := b.index[id];
      var left := DeleteAtPrice(b.On(h.side), h.price, h.id);
      DeleteAtMembers(b.On(h.side), h.price, h.id);
      forall i | 0 <= i < |left| ensures left[i].id in k && k[left[i].id] == left[i] {
        assert left[i] in b.On(h.side);
      }
    }
  }

  function Submitted(cmds: seq<Command>): set<OrderId> {
    if cmds == [] then {}
    else
      var n := |cmds| - 1;
      Submitted(cmds[..n]) +
      if cmds[n].Submit? then {GivenId(cmds[n])} else {}
  }

  /** All that trades have moved for the order that was last submitted under this id. */
  function TradedSince(cmds: seq<Command>, id: OrderId): nat {
    if cmds == [] then 0
    else
      var n := |cmds| - 1;
      (if Submits(cmds[n], id) then 0 else TradedSince(cmds[..n], id)) +
      Traded(Next(Run(cmds[..n]).book, cmds[n]).trades, id)
  }

  /** A legal run in which no order is submitted under the id of a live one, of whatever
      kind it is: trades and notices name orders by id alone. */
  ghost predicate ToldApart(cmds: seq<Command>) {
    cmds == [] ||
    var n := |cmds| - 1;
    && ToldApart(cmds[..n])
    && Legal(Run(cmds[..n]).book, cmds[n])
    && (cmds[n].Submit? ==> NotLive(Run(cmds[..n]).book, GivenId(cmds[n])))
  }

  lemma {:induction false} ApartIsLegal(cmds: seq<Command>)
    requires ToldApart(cmds)
    ensures LegalRun(cmds)
  {
    if cmds != [] {
      ApartIsLegal(cmds[..|cmds| - 1]);
    }
  }

  lemma SameAccounts(k: Known, t: Moved, t': Moved, b: Book)
    requires Balanced(k, t, b) && forall id :: t'(id) == t(id)
    ensures Balanced(k, t', b)
  {
  }

  /** Over every such run: each order ever submitted still wants what it has not traded
      since, nobody else is named by a trade, and every live order is as its owner last
      heard. */
  lemma {:induction false} LedgerBalances(cmds: seq<Command>)
    requires ToldApart(cmds)
    ensures var h := Run(cmds);
            && Balanced(Absorb(map[], h.notices), id => TradedSince(cmds, id), h.book)
            && Absorb(map[], h.notices).Keys == Submitted(cmds)
  {
    hide Balanced;
    hide Absorb;
    hide Add;
    hide Cancel;
    hide BookSound;
    hide NotLive;
    hide Traded;
    if cmds == [] {
      NothingOwed();
    } else {
      var n := |cmds| - 1;
      var h, out := Run(cmds[..n]), Next(Run(cmds[..n]).book, cmds[n]);
      var k, t := Absorb(map[], h.notices), id => TradedSince(cmds[..n], id);
      LedgerBalances(cmds[..n]);
      ApartIsLegal(cmds[..n]);
      ReachableSound(cmds[..n]);
      AbsorbAppend(map[], h.notices, out.notices);
      match cmds[n] {
        case Submit(o, newId) =>
          var id := GivenId(cmds[n]);
          AddBalanced(k, t, h.book, Identified(o, newId));
          SameAccounts(Absorb(k, out.notices), AfterSubmit(t, id, out.trades), i => TradedSince(cmds, i), out.book);
        case Withdraw(id) =>
          CancelBalanced(k, t, h.book, id);
          CancelSilent(k, h.book, id);
          SameAccounts(k, t, i => TradedSince(cmds, i), out.book);
      }
    }
  }

  lemma NothingOwed()
    ensures Balanced(Absorb(map[], []), id => TradedSince([], id), EMPTY_BOOK) && Absorb(map[], []).Keys == {}
  {
  }

  lemma CancelSilent(k: Known, b: Book, id: OrderId)
    ensures Cancel(b, id).trades == [] && Absorb(k, Cancel(b, id).notices) == k
    ensures forall i :: Traded([], i) == 0
  {
  }

  /** A legal run that never gives two orders one id. */
  predicate FreshRun(cmds: seq<Command>) {
    cmds == [] ||
    var n := |cmds| - 1;
    && FreshRun(cmds[..n])
    && Legal(Run(cmds[..n]).book, cmds[n])
    && (cmds[n].Submit? ==> GivenId(cmds[n]) !in Submitted(cmds[..n]))
  }

  /** Then all trades count: each order's quantity is what it still wants and all that
      any trade of the run has moved for it. */
  lemma {:induction false} FreshLedger(cmds: seq<Command>)
    requires FreshRun(cmds)
    ensures ToldApart(cmds)
    ensures forall id :: TradedSince(cmds, id) == Traded(Run(cmds).trades, id)
  {
    hide Next;
    hide Traded;
    if cmds == [] {
      TradesNothing();
    } else {
      var n := |cmds| - 1;
      var h, out := Run(cmds[..n]), Next(Run(cmds[..n]).book, cmds[n]);
      FreshLedger(cmds[..n]);
      LedgerBalances(cmds[..n]);
      forall id ensures TradedSince(cmds, id) == Traded(Run(cmds).trades, id) {
        TradedAppend(h.trades, out.trades, id);
      }
    }
  }

  lemma TradesNothing()
    ensures forall id :: Traded([], id) == 0
  {
  }
}
