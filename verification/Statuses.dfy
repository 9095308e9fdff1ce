/** What every order's status says of its quantities, in every run. */
module Statuses {
  import opened Types
  import opened Sweeps
  import opened FlatBook
  import opened Books
  import opened Soundness
  import opened Runs

  predicate StatusAgrees(o: OrderView) {
    o.status == (if o.remaining == 0 then Filled
                 else if o.remaining < o.qty then Partial
                 else if o.kind == Limit then Open
                 else Rejected)
  }

  /** The order wants no more than it did at first, and its status says how much. */
  predicate Truthful(o: OrderView) {
    o.remaining <= o.qty && StatusAgrees(o)
  }

  ghost predicate AllTruthful(os: seq<OrderView>) {
    forall o :: o in os ==> Truthful(o)
  }

  /** Only LIMIT orders rest. */
  ghost predicate AllResting(os: seq<OrderView>) {
    forall o :: o in os ==> Truthful(o) && o.kind == Limit
  }

  lemma TruthfulAppend(os: seq<OrderView>, os': seq<OrderView>)
    requires AllTruthful(os) && AllTruthful(os')
    ensures AllTruthful(os + os')
  {
  }

  /** A sweep leaves, and reports, passive orders whose status agrees. */
  lemma {:induction false} SweepTruthful(os: seq<OrderView>, c: OrderView)
    requires AllLive(os) && AllResting(os)
    ensures AllResting(Sweep(os, c).rest) && AllTruthful(Sweep(os, c).touched)
    decreases |os|
  {
    if os != [] && c.remaining > 0 {
      var q := Min(os[0].remaining, c.remaining);
      assert os[0] in os;
      assert Truthful(Settle(os[0], q));
      if q == os[0].remaining {
        SweepTruthful(os[1..], Settle(c, q));
      }
    }
  }

  /** So does the order that crossed. */
  lemma CrosserTruthful(b: Book, o: OrderView)
    requires BookLive(b) && b.On(o.side.Opposite()) != [] && 0 < o.remaining <= o.qty
    ensures Truthful(Final(Match(b, o)))
  {
    MatchExhausts(b, o);
  }

  lemma InsertTruthful(side: Side, os: seq<OrderView>, o: OrderView)
    requires AllResting(os) && Truthful(o) && o.kind == Limit
    ensures AllResting(Insert(side, os, o))
  {
    hide Truthful;
    var k := InsertSplits(side, os, o);
  }

  ghost predicate BookTruthful(b: Book) {
    AllResting(b.bids) && AllResting(b.asks)
  }

  lemma MatchTruthful(b: Book, o: OrderView)
    requires BookLive(b) && BookTruthful(b) && b.On(o.side.Opposite()) != [] && 0 < o.remaining <= o.qty
    ensures BookTruthful(Match(b, o).book) && AllTruthful(Match(b, o).notices)
  {
    hide Truthful;
    hide Sweep;
    var os := b.On(o.side.Opposite());
    LiveSide(b, o.side.Opposite());
    SweepTruthful(os, o);
    CrosserTruthful(b, o);
  }

  lemma RestTruthful(b: Book, o: OrderView)
    requires BookTruthful(b) && Truthful(o) && o.kind == Limit
    ensures BookTruthful(Rest(b, o))
  {
    hide Truthful;
    InsertTruthful(o.side, b.On(o.side), o);
  }

  lemma AddTruthful(b: Book, o: OrderView)
    requires BookLive(b) && BookTruthful(b) && Whole(o)
    ensures BookTruthful(Add(b, o).book) && AllTruthful(Add(b, o).notices)
  {
    hide BookLive;
    hide BookTruthful;
    hide Match;
    hide Rest;
    var matched := b.On(o.side.Opposite()) != [] && (o.kind == Market || Crosses(b, o));
    if matched {
      MatchTruthful(b, o);
    }
    if o.kind == Limit {
      var out := if matched then Match(b, o) else Outcome(b, [], [], [o]);
      assert Final(out) in out.notices;
      if Final(out).status != Filled {
        LeftOfLimit(b, o);
        RestTruthful(out.book, Final(out));
      }
    }
  }

  lemma CancelTruthful(b: Book, id: OrderId)
    requires BookTruthful(b)
    ensures BookTruthful(Cancel(b, id).book) && Cancel(b, id).notices == []
  {
    hide DeleteAtPrice;
    hide Truthful;
    if id in b.index {
      var h := b.index[id];
      DeleteAtMembers(b.On(h.side), h.price, h.id);
    }
  }

  /** In every run, whatever ids the orders have: every order ever reported and every
      live order is FILLED, PARTIAL, OPEN or REJECTED exactly as its quantities say. */
  lemma {:induction false} StatusesAgree(cmds: seq<Command>)
    requires PlayableRun(cmds)
    ensures BookTruthful(Run(cmds).book) && AllTruthful(Run(cmds).notices)
  {
    hide Add;
    hide Cancel;
    hide Truthful;
    hide BookLive;
    if cmds != [] {
      var before := cmds[..|cmds| - 1];
      var h := Run(before);
      StatusesAgree(before);
      ReachableLive(before);
      match cmds[|cmds| - 1]
      case Submit(o, newId) =>
        AddTruthful(h.book, Identified(o, newId));
        TruthfulAppend(h.notices, Add(h.book, Identified(o, newId)).notices);
      case Withdraw(id) => CancelTruthful(h.book, id);
    }
  }
}
