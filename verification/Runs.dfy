/** Whole runs of the reference book, from an empty one. */
module Runs {
  import opened Types
  import opened Sweeps
  import opened FlatBook
  import opened Books
  import opened Soundness

  datatype Command =
    | Submit(order: OrderView, newId: OrderId)
    | Withdraw(id: OrderId)

  /** The book now, and everything the handlers have been given. */
  datatype History = History(book: Book, trades: seq<Trade>, updates: seq<LevelUpdate>, notices: seq<OrderView>)

  function Next(b: Book, cmd: Command): Outcome {
    match cmd
    case Submit(o, newId) => Add(b, Identified(o, newId))
    case Withdraw(id) => Cancel(b, id)
  }

  function Extend(h: History, out: Outcome): History {
    History(out.book, h.trades + out.trades, h.updates + out.updates, h.notices + out.notices)
  }

  function Run(cmds: seq<Command>): History {
    if cmds == [] then History(EMPTY_BOOK, [], [], [])
    else
      var h := Run(cmds[..|cmds| - 1]);
      Extend(h, Next(h.book, cmds[|cmds| - 1]))
  }

  /** What the engine can be fed: new orders that it has room for, with any ids. */
  predicate Playable(b: Book, cmd: Command) {
    cmd.Submit? ==> var o := Identified(cmd.order, cmd.newId); Admissible(b, o) && Whole(o)
  }

  predicate PlayableRun(cmds: seq<Command>) {
    cmds == [] ||
    (PlayableRun(cmds[..|cmds| - 1]) && Playable(Run(cmds[..|cmds| - 1]).book, cmds[|cmds| - 1]))
  }

  /** The same, where in addition no order may rest under an id that the index holds. */
  predicate Legal(b: Book, cmd: Command) {
    cmd.Submit? ==> LegalOrder(b, Identified(cmd.order, cmd.newId))
  }

  predicate LegalRun(cmds: seq<Command>) {
    cmds == [] ||
    (LegalRun(cmds[..|cmds| - 1]) && Legal(Run(cmds[..|cmds| - 1]).book, cmds[|cmds| - 1]))
  }

  lemma RunExtends(cmds: seq<Command>, cmd: Command)
    ensures Run(cmds + [cmd]) == Extend(Run(cmds), Next(Run(cmds).book, cmd))
    ensures PlayableRun(cmds + [cmd]) <==> PlayableRun(cmds) && Playable(Run(cmds).book, cmd)
    ensures LegalRun(cmds + [cmd]) <==> LegalRun(cmds) && Legal(Run(cmds).book, cmd)
  {
  }

  lemma {:induction false} LegalIsPlayable(cmds: seq<Command>)
    requires LegalRun(cmds)
    ensures PlayableRun(cmds)
  {
    if cmds != [] {
      LegalIsPlayable(cmds[..|cmds| - 1]);
    }
  }

  /** Whatever ids the orders have, every reachable side holds only live orders, in
      priority order, and the book is never crossed. */
  lemma {:induction false} ReachableLive(cmds: seq<Command>)
    requires PlayableRun(cmds)
    ensures BookLive(Run(cmds).book)
  {
    hide Add;
    hide Cancel;
    hide BookLive;
    if cmds == [] {
      EmptyBookSound();
      SoundIsLive(EMPTY_BOOK);
    } else {
      var before := cmds[..|cmds| - 1];
      ReachableLive(before);
      match cmds[|cmds| - 1]
      case Submit(o, newId) => AddLive(Run(before).book, Identified(o, newId));
      case Withdraw(id) => CancelKeepsLive(Run(before).book, id);
    }
  }

  /** Every book reachable by a legal run is sound: in particular it is never crossed, every id
      rests at most once, and the index gives every live order's side and price. */
  lemma {:induction false} ReachableSound(cmds: seq<Command>)
    requires LegalRun(cmds)
    ensures BookSound(Run(cmds).book)
  {
    if cmds == [] {
      EmptyBookSound();
    } else {
      var before := cmds[..|cmds| - 1];
      ReachableSound(before);
      match cmds[|cmds| - 1]
      case Submit(o, newId) => AddSound(Run(before).book, Identified(o, newId));
      case Withdraw(id) => CancelSound(Run(before).book, id);
    }
  }

  /** The id an order goes by: the one it brings, or else the one it is given. */
  function GivenId(cmd: Command): OrderId
    requires cmd.Submit?
  {
    if cmd.order.id == 0 then cmd.newId else cmd.order.id
  }

  predicate Submits(cmd: Command, id: OrderId) {
    cmd.Submit? && GivenId(cmd) == id
  }

  /** The command offers an order with this id that may rest. */
  predicate Offers(cmd: Command, id: OrderId) {
    Submits(cmd, id) && cmd.order.kind == Limit
  }

  /** The place in the run of the last submission of a LIMIT order with this id. */
  function Arrival(cmds: seq<Command>, id: OrderId): nat {
    if cmds == [] then 0
    else
      if Offers(cmds[|cmds| - 1], id) then |cmds|
      else Arrival(cmds[..|cmds| - 1], id)
  }

  lemma {:induction false} ArrivalBound(cmds: seq<Command>, id: OrderId)
    ensures Arrival(cmds, id) <= |cmds|
  {
    if cmds != [] {
      ArrivalBound(cmds[..|cmds| - 1], id);
    }
  }

  /** Among live orders at one price, the earlier submitted is ahead. */
  ghost predicate FirstComeFirst(cmds: seq<Command>, os: seq<OrderView>) {
    forall i, j :: 0 <= i < j < |os| && os[i].price == os[j].price ==>
      Arrival(cmds, os[i].id) < Arrival(cmds, os[j].id)
  }

  lemma CutKeepsTurns(cmds: seq<Command>, os: seq<OrderView>, rest: seq<OrderView>, n: nat)
    requires FirstComeFirst(cmds, os) && IsCut(os, rest, n)
    ensures FirstComeFirst(cmds, rest)
  {
  }

  /** Orders that have not just been submitted keep their arrival. */
  lemma SameArrivals(cmds: seq<Command>, cmd: Command, os: seq<OrderView>)
    requires FirstComeFirst(cmds, os)
    requires forall o :: o in os ==> !Offers(cmd, o.id)
    ensures FirstComeFirst(cmds + [cmd], os)
  {
  }

  lemma InsertKeepsTurns(cmds: seq<Command>, side: Side, os: seq<OrderView>, o: OrderView)
    requires FirstComeFirst(cmds, os) && Sorted(side, os)
    requires forall x :: x in os ==> Arrival(cmds, x.id) < Arrival(cmds, o.id)
    ensures FirstComeFirst(cmds, Insert(side, os, o))
  {
    hide Arrival;
    hide Insert;
    var k := InsertSplits(side, os, o);
    var os' := os[..k] + [o] + os[k..];
    forall i | 0 <= i < |os'| ensures os'[i] == if i < k then os[i] else if i == k then o else os[i - 1] {
    }
    forall i | k <= i < |os| ensures os[i].price != o.price {
      if i > k { assert !Before(side, os[i].price, os[k].price); }
    }
  }

  lemma WithoutKeepsTurns(cmds: seq<Command>, os: seq<OrderView>, k: nat)
    requires FirstComeFirst(cmds, os) && k < |os|
    ensures FirstComeFirst(cmds, os[..k] + os[k + 1..])
  {
  }

  lemma DeleteKeepsTurns(cmds: seq<Command>, side: Side, os: seq<OrderView>,
                         index: map<OrderId, FindOrderHelper>, id: OrderId)
    requires FirstComeFirst(cmds, os) && SideSound(side, os, index)
    ensures FirstComeFirst(cmds, Delete(os, id))
  {
    hide FirstComeFirst;
    hide Delete;
    DeleteOnce(side, os, index, id);
    if HasId(os, id) {
      var k :| 0 <= k < |os| && os[k].id == id && Delete(os, id) == os[..k] + os[k + 1..];
      WithoutKeepsTurns(cmds, os, k);
    }
  }

  ghost predicate TurnsKept(cmds: seq<Command>, b: Book) {
    FirstComeFirst(cmds, b.bids) && FirstComeFirst(cmds, b.asks)
  }

  ghost predicate ArrivesLast(cmds: seq<Command>, b: Book, id: OrderId) {
    forall x :: x in b.bids || x in b.asks ==> Arrival(cmds, x.id) < Arrival(cmds, id)
  }

  lemma MatchKeepsTurns(cmds: seq<Command>, b: Book, o: OrderView)
    requires BookSound(b) && TurnsKept(cmds, b)
    ensures TurnsKept(cmds, Match(b, o).book)
  {
    hide Arrival;
    hide FirstComeFirst;
    var os := b.On(o.side.Opposite());
    LiveSide(b, o.side.Opposite());
    var n := SweepCuts(os, o);
    CutKeepsTurns(cmds, os, Sweep(os, o).rest, n);
  }

  lemma RestKeepsTurns(cmds: seq<Command>, b: Book, o: OrderView)
    requires BookSound(b) && TurnsKept(cmds, b)
    requires forall x :: x in b.On(o.side) ==> Arrival(cmds, x.id) < Arrival(cmds, o.id)
    ensures TurnsKept(cmds, Rest(b, o))
  {
    hide Arrival;
    hide FirstComeFirst;
    InsertKeepsTurns(cmds, o.side, b.On(o.side), o);
  }

  lemma AddKeepsTurns(cmds: seq<Command>, b: Book, o: OrderView)
    requires BookSound(b) && LegalOrder(b, o) && TurnsKept(cmds, b)
    requires o.kind == Limit ==> ArrivesLast(cmds, b, o.id)
    ensures TurnsKept(cmds, Add(b, o).book)
  {
    hide Arrival;
    hide TurnsKept;
    hide BookSound;
    hide BookLive;
    hide Sweep;
    hide Rest;
    SoundIsLive(b);
    MatchSound(b, o);
    MatchKeepsTurns(cmds, b, o);
    if o.kind == Limit {
      if Crosses(b, o) {
        LimitLeft(b, o);
        var out := Match(b, o);
        if Final(out).status != Filled {
          RestKeepsTurns(cmds, out.book, Final(out));
        }
      } else {
        RestKeepsTurns(cmds, b, o);
      }
    }
  }

  /** In every reachable book, orders at one price stand in the order of submission. */
  lemma {:induction false} TimePriority(cmds: seq<Command>)
    requires LegalRun(cmds)
    ensures TurnsKept(cmds, Run(cmds).book)
  {
    hide BookSound;
    hide Add;
    if cmds != [] {
      var n := |cmds| - 1;
      var before, cmd := cmds[..n], cmds[n];
      var b := Run(before).book;
      assert cmds == before + [cmd];
      TimePriority(before);
      ReachableSound(before);
      match cmd
      case Submit(o, newId) =>
        JustSubmitted(before, cmd);
        AddKeepsTurns(cmds, b, Identified(o, newId));
      case Withdraw(id) =>
        SameArrivals(before, cmd, b.bids);
        SameArrivals(before, cmd, b.asks);
        CancelKeepsTurns(cmds, b, id);
    }
  }

  lemma CancelKeepsTurns(cmds: seq<Command>, b: Book, id: OrderId)
    requires BookSound(b) && TurnsKept(cmds, b)
    ensures TurnsKept(cmds, Cancel(b, id).book)
  {
    hide Arrival;
    hide FirstComeFirst;
    hide SideSound;
    if id in b.index {
      CancelById(b, id);
    }
    DeleteKeepsTurns(cmds, Buy, b.bids, b.index, id);
    DeleteKeepsTurns(cmds, Sell, b.asks, b.index, id);
  }

  /** A fresh order arrives after every live one, and disturbs no arrival. */
  lemma JustSubmitted(before: seq<Command>, cmd: Command)
    requires cmd.Submit? && LegalRun(before) && Legal(Run(before).book, cmd)
    requires BookSound(Run(before).book) && TurnsKept(before, Run(before).book)
    ensures TurnsKept(before + [cmd], Run(before).book)
    ensures cmd.order.kind == Limit ==>
      ArrivesLast(before + [cmd], Run(before).book, GivenId(cmd))
  {
    var b, o := Run(before).book, Identified(cmd.order, cmd.newId);
    var cmds := before + [cmd];
    assert cmds[..|before|] == before;
    forall x | x in b.bids || x in b.asks
      ensures !Offers(cmd, x.id)
      ensures o.kind == Limit ==> Arrival(cmds, x.id) < Arrival(cmds, o.id)
    {
      assert x.id in b.index;
      ArrivalBound(before, x.id);
    }
    SameArrivals(before, cmd, b.bids);
    SameArrivals(before, cmd, b.asks);
  }
}
