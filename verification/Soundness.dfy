/** What one sweep does to a sound side, and why every call keeps the reference
    book sound. */
module Soundness {
  import opened Types
  import opened Sweeps
  import opened FlatBook
  import opened SideSweeps
  import opened Books

  /** A sweep takes orders off the front, and may leave the next one smaller. */
  ghost predicate IsCut(os: seq<OrderView>, rest: seq<OrderView>, n: nat) {
    && n <= |os| && |rest| == |os| - n
    && (rest != [] ==>
          && rest[0] == os[n].(remaining := rest[0].remaining, status := rest[0].status)
          && 0 < rest[0].remaining <= os[n].remaining
          && (rest[0].remaining == os[n].remaining ==> rest[0] == os[n])
          && (rest[0].remaining < os[n].remaining ==> rest[0].status == Partial)
          && rest[1..] == os[n + 1..])
  }

  ghost predicate AllLive(os: seq<OrderView>) {
    forall o :: o in os ==> o.remaining > 0
  }

  lemma {:induction false} SweepCuts(os: seq<OrderView>, c: OrderView) returns (n: nat)
    requires AllLive(os)
    ensures IsCut(os, Sweep(os, c).rest, n)
    ensures n <= |Sweep(os, c).trades| <= n + 1
    decreases |os|
  {
    n := 0;
    if os != [] && c.remaining > 0 {
      var q := Min(os[0].remaining, c.remaining);
      assert os[0] in os;
      if q == os[0].remaining {
        var m := SweepCuts(os[1..], Settle(c, q));
        n := m + 1;
      }
    } else if os != [] {
      assert os[0] in os;
    }
  }

  /** The crossing order ends with what the passive orders could not give it. */
  lemma {:induction false} SweepCrossing(os: seq<OrderView>, c: OrderView)
    ensures var r := Sweep(os, c);
            && r.crossing.remaining == c.remaining - Min(c.remaining, Sum(os))
            && r.crossing == (if r.trades == [] then c else Settle(c, Min(c.remaining, Sum(os))))
    ensures os != [] && c.remaining > 0 ==> Sweep(os, c).trades != []
    decreases |os|
  {
    if os != [] && c.remaining > 0 {
      var q := Min(os[0].remaining, c.remaining);
      if q == os[0].remaining {
        SweepCrossing(os[1..], Settle(c, q));
      }
    }
  }

  lemma CutLive(side: Side, os: seq<OrderView>, rest: seq<OrderView>, n: nat)
    requires SideLive(side, os) && IsCut(os, rest, n)
    ensures SideLive(side, rest)
    ensures rest != [] ==> os != [] && !Before(side, rest[0].price, os[0].price)
  {
  }

  lemma CutSound(side: Side, os: seq<OrderView>, rest: seq<OrderView>, n: nat, index: map<OrderId, FindOrderHelper>)
    requires SideSound(side, os, index) && IsCut(os, rest, n)
    ensures SideSound(side, rest, index)
  {
    CutLive(side, os, rest, n);
  }

  /** Matching leaves the rest live, in order and uncrossed. */
  lemma MatchLive(b: Book, o: OrderView)
    requires BookLive(b)
    ensures BookLive(Match(b, o).book)
  {
    hide Sorted;
    var opposite := o.side.Opposite();
    var os := b.On(opposite);
    var n := SweepCuts(os, o);
    CutLive(opposite, os, Sweep(os, o).rest, n);
  }

  /** Matching keeps the book sound. */
  lemma MatchSound(b: Book, o: OrderView)
    requires BookSound(b)
    ensures BookSound(Match(b, o).book)
  {
    hide SideLive;
    MatchLive(b, o);
    var opposite := o.side.Opposite();
    var os := b.On(opposite);
    LiveSide(b, opposite);
    var n := SweepCuts(os, o);
    CutSound(opposite, os, Sweep(os, o).rest, n, b.index);
  }

  lemma {:induction false} InsertSplits(side: Side, os: seq<OrderView>, o: OrderView) returns (k: nat)
    ensures k <= |os| && Insert(side, os, o) == os[..k] + [o] + os[k..]
    ensures forall i :: 0 <= i < k ==> !Before(side, o.price, os[i].price)
    ensures k < |os| ==> Before(side, o.price, os[k].price)
  {
    if os == [] || Before(side, o.price, os[0].price) {
      k := 0;
      assert Insert(side, os, o) == os[..0] + [o] + os[0..];
    } else {
      var m := InsertSplits(side, os[1..], o);
      k := m + 1;
      assert os[..k] == [os[0]] + os[1..][..m] && os[k..] == os[1..][m..];
    }
  }

  lemma PlacedInOrder(side: Side, os: seq<OrderView>, o: OrderView, k: nat)
    requires Sorted(side, os) && k <= |os|
    requires forall i :: 0 <= i < k ==> !Before(side, o.price, os[i].price)
    requires k < |os| ==> Before(side, o.price, os[k].price)
    ensures Sorted(side, os[..k] + [o] + os[k..])
  {
  }

  lemma PlacedOnce(os: seq<OrderView>, o: OrderView, k: nat)
    requires Unique(os) && k <= |os|
    requires forall x :: x in os ==> x.id != o.id
    ensures Unique(os[..k] + [o] + os[k..])
  {
  }

  lemma InsertLive(side: Side, os: seq<OrderView>, o: OrderView)
    requires SideLive(side, os)
    requires o.id != 0 && o.side == side && 0 < o.remaining && o.status != Filled
    ensures SideLive(side, Insert(side, os, o))
    ensures Insert(side, os, o)[0] == if os == [] || Before(side, o.price, os[0].price) then o else os[0]
  {
    hide Sorted;
    var k := InsertSplits(side, os, o);
    PlacedInOrder(side, os, o, k);
  }

  lemma InsertSound(side: Side, os: seq<OrderView>, o: OrderView, index: map<OrderId, FindOrderHelper>)
    requires SideSound(side, os, index)
    requires o.id !in index && o.id != 0 && o.side == side && 0 < o.remaining && o.status != Filled
    ensures SideSound(side, Insert(side, os, o), index[o.id := FindOrderHelper(o.id, side, o.price)])
  {
    hide Sorted;
    hide Unique;
    InsertLive(side, os, o);
    var k := InsertSplits(side, os, o);
    forall x | x in os ensures x.id != o.id {
      assert x.id in index;
    }
    PlacedOnce(os, o, k);
  }

  lemma SideSoundExtends(side: Side, os: seq<OrderView>, index: map<OrderId, FindOrderHelper>,
                         id: OrderId, h: FindOrderHelper)
    requires SideSound(side, os, index) && id !in index
    ensures SideSound(side, os, index[id := h])
  {
  }

  /** A new id rests as its price says, and the index learns of it. */
  lemma RestNew(b: Book, o: OrderView)
    requires BookSound(b) && o.id !in b.index
    ensures Rest(b, o) == b.With(o.side, Insert(o.side, b.On(o.side), o))
                          .(index := b.index[o.id := FindOrderHelper(o.id, o.side, o.price)])
  {
  }

  /** An order that does not cross, or finds nothing opposite, can rest. */
  lemma RestLive(b: Book, o: OrderView)
    requires BookLive(b) && !Crosses(b, o)
    requires o.id != 0 && 0 < o.remaining && o.status != Filled
    ensures BookLive(Rest(b, o))
  {
    hide Sorted;
    InsertLive(o.side, b.On(o.side), o);
  }

  lemma RestSound(b: Book, o: OrderView)
    requires BookSound(b) && !Crosses(b, o)
    requires o.id !in b.index && o.id != 0 && 0 < o.remaining && o.status != Filled
    ensures BookSound(Rest(b, o))
  {
    hide SideLive;
    hide SideSound;
    hide Rest;
    RestNew(b, o);
    SoundIsLive(b);
    RestLive(b, o);
    var h := FindOrderHelper(o.id, o.side, o.price);
    InsertSound(o.side, b.On(o.side), o, b.index);
    SideSoundExtends(o.side.Opposite(), b.On(o.side.Opposite()), b.index, o.id, h);
  }

  lemma {:induction false} DeleteMembers(os: seq<OrderView>, id: OrderId)
    ensures forall o :: o in Delete(os, id) <==> o in os && o.id != id
  {
    if os != [] {
      assert os == [os[0]] + os[1..];
      DeleteMembers(os[1..], id);
    }
  }

  /** On a sound side an id is deleted from at most one place. */
  lemma DeleteOnce(side: Side, os: seq<OrderView>, index: map<OrderId, FindOrderHelper>, id: OrderId)
    requires SideSound(side, os, index)
    ensures !HasId(os, id) ==> Delete(os, id) == os
    ensures HasId(os, id) ==>
      exists k :: 0 <= k < |os| && os[k].id == id && Delete(os, id) == os[..k] + os[k + 1..]
  {
    if HasId(os, id) {
      var k :| 0 <= k < |os| && os[k].id == id;
      DeleteAt(os, k);
    } else {
      DeleteAbsent(os, id);
    }
  }

  /** Deleting from a side in order leaves it in order, whatever is deleted. */
  lemma {:induction false} DeleteLive(side: Side, os: seq<OrderView>, price: Price, id: OrderId)
    requires SideLive(side, os)
    ensures SideLive(side, DeleteAtPrice(os, price, id))
    ensures var os' := DeleteAtPrice(os, price, id);
            os' != [] ==> os != [] && !Before(side, os'[0].price, os[0].price)
  {
    if os != [] {
      var rest := DeleteAtPrice(os[1..], price, id);
      assert os == [os[0]] + os[1..];
      DeleteLive(side, os[1..], price, id);
      DeleteAtMembers(os[1..], price, id);
      forall i | 0 <= i < |rest| ensures !Before(side, rest[i].price, os[0].price) {
        assert rest[i] in os[1..];
      }
    }
  }

  lemma StillOnce(os: seq<OrderView>, k: nat)
    requires Unique(os) && k < |os|
    ensures Unique(os[..k] + os[k + 1..])
  {
  }

  lemma DeleteSound(side: Side, os: seq<OrderView>, index: map<OrderId, FindOrderHelper>, id: OrderId, price: Price)
    requires SideSound(side, os, index)
    requires forall o :: o in os && o.id == id ==> o.price == price
    ensures SideSound(side, Delete(os, id), index - {id})
  {
    hide SideLive;
    hide Unique;
    hide Delete;
    hide DeleteAtPrice;
    DeleteAtTruePrice(os, price, id);
    DeleteLive(side, os, price, id);
    DeleteMembers(os, id);
    DeleteOnce(side, os, index, id);
    if HasId(os, id) {
      var k :| 0 <= k < |os| && os[k].id == id && Delete(os, id) == os[..k] + os[k + 1..];
      StillOnce(os, k);
    }
  }

  /** A side that does not hold an id does not mind its index entry going. */
  lemma OtherSideSound(side: Side, os: seq<OrderView>, index: map<OrderId, FindOrderHelper>, id: OrderId)
    requires SideSound(side, os, index) && id in index && index[id].side != side
    ensures SideSound(side, os, index - {id})
  {
  }

  /** What the index says of a live order is where it rests. */
  lemma IndexedPrice(b: Book, id: OrderId)
    requires BookSound(b) && id in b.index
    ensures var h := b.index[id];
            && h.id == id
            && (forall o :: o in b.On(h.side) && o.id == id ==> o.price == h.price)
            && (forall o :: o in b.On(h.side.Opposite()) ==> o.id != id)
  {
  }

  /** So on a sound book a cancel at the indexed price is a cancel by id. */
  lemma CancelById(b: Book, id: OrderId)
    requires BookSound(b) && id in b.index
    ensures var h := b.index[id]; var os := Delete(b.On(h.side), id);
            Cancel(b, id) == Outcome(b.With(h.side, os).(index := b.index - {id}), [],
                                     [LevelUpdate(h.side, h.price, LevelTotal(os, h.price))], [])
  {
    var h := b.index[id];
    DeleteAtTruePrice(b.On(h.side), h.price, id);
  }

  lemma CancelKeepsLive(b: Book, id: OrderId)
    requires BookLive(b)
    ensures BookLive(Cancel(b, id).book)
  {
    hide SideLive;
    hide DeleteAtPrice;
    if id in b.index {
      var h := b.index[id];
      DeleteLive(h.side, b.On(h.side), h.price, h.id);
    }
  }

  lemma CancelSound(b: Book, id: OrderId)
    requires BookSound(b)
    ensures BookSound(Cancel(b, id).book)
  {
    hide SideSound;
    hide SideLive;
    hide Delete;
    hide DeleteAtPrice;
    SoundIsLive(b);
    CancelKeepsLive(b, id);
    if id in b.index {
      CancelById(b, id);
      var h := b.index[id];
      IndexedPrice(b, id);
      DeleteSound(h.side, b.On(h.side), b.index, id, h.price);
      OtherSideSound(h.side.Opposite(), b.On(h.side.Opposite()), b.index, id);
    }
  }

  lemma SoundIsLive(b: Book)
    requires BookSound(b)
    ensures BookLive(b)
  {
  }

  lemma LiveSide(b: Book, side: Side)
    requires BookLive(b) || BookSound(b)
    ensures AllLive(b.On(side))
  {
  }

  /** Something on the other side is within the order's price. */
  ghost predicate Meets(b: Book, o: OrderView) {
    exists x :: x in b.On(o.side.Opposite()) && Acceptable(o.side, o.price, x.price)
  }

  /** What an order meets on the other side: all of it if it is a MARKET order and there
      is any, all of it if something there is within its price, and else nothing. */
  ghost function Encounter(b: Book, o: OrderView): SweepResult {
    var os := b.On(o.side.Opposite());
    if (if o.kind == Market then os != [] else Meets(b, o)) then Sweep(os, o)
    else SweepResult(os, if o.kind == Limit then o else o.(status := Rejected), [], [])
  }

  /** An order's own side once it stands as left: only a LIMIT order rests, unless it is
      filled or its id rests at its price already. */
  function OwnSide(b: Book, left: OrderView): seq<OrderView> {
    var own := b.On(left.side);
    if left.kind != Limit || left.status == Filled || HasIdAt(own, left.price, left.id) then own
    else Insert(left.side, own, left)
  }

  lemma MatchSides(b: Book, o: OrderView)
    ensures var r, out := Sweep(b.On(o.side.Opposite()), o), Match(b, o);
            && Final(out) == r.crossing && out.trades == r.trades
            && out.book.On(o.side.Opposite()) == r.rest && out.book.On(o.side) == b.On(o.side)
            && r.crossing.side == o.side && r.crossing.kind == o.kind
            && r.crossing.id == o.id && r.crossing.price == o.price
  {
    SweepCrossing(b.On(o.side.Opposite()), o);
  }

  lemma RestSides(b: Book, o: OrderView)
    ensures Rest(b, o).On(o.side.Opposite()) == b.On(o.side.Opposite())
    ensures Rest(b, o).On(o.side) ==
            if HasIdAt(b.On(o.side), o.price, o.id) then b.On(o.side) else Insert(o.side, b.On(o.side), o)
  {
  }

  /** A LIMIT order in two steps: what it meets, and what rests. */
  lemma AddLimit(b: Book, o: OrderView)
    requires o.kind == Limit
    ensures var met := if Crosses(b, o) then Match(b, o) else Outcome(b, [], [], [o]);
            var left := Final(met); var rested := Rest(met.book, left);
            Add(b, o) ==
            if left.status == Filled then met
            else Outcome(rested, met.trades,
                         met.updates + [LevelUpdate(o.side, o.price, LevelTotal(rested.On(o.side), o.price))],
                         met.notices)
  {
  }

  /** Both sides, the order and the trades of a call, from what the order meets. */
  lemma AddSides(b: Book, o: OrderView)
    requires o.kind != Market ==> (Crosses(b, o) <==> Meets(b, o))
    ensures var r, out := Encounter(b, o), Add(b, o);
            && Final(out) == r.crossing && out.trades == r.trades
            && out.book.On(o.side.Opposite()) == r.rest
            && out.book.On(o.side) == OwnSide(b, r.crossing)
  {
    hide Insert;
    hide Meets;
    hide Crosses;
    hide Sweep;
    hide LevelTotal;
    hide HasIdAt;
    hide Match;
    hide Rest;
    MatchSides(b, o);
    var out := if Crosses(b, o) then Match(b, o) else Outcome(b, [], [], [o]);
    RestSides(out.book, Final(out));
  }

  /** On a side in order, looking at the best price is looking at all of them. */
  lemma CrossesIff(b: Book, o: OrderView)
    requires BookLive(b)
    ensures var os := b.On(o.side.Opposite());
            && (Crosses(b, o) <==> Meets(b, o))
            && (Crosses(b, o) ==> Acceptable(o.side, o.price, os[0].price))
  {
    var os := b.On(o.side.Opposite());
    if x :| x in os && Acceptable(o.side, o.price, x.price) {
      var i :| 0 <= i < |os| && os[i] == x;
      if i > 0 { assert !Before(o.side.Opposite(), os[i].price, os[0].price); }
    }
    if os != [] { assert os[0] in os; }
  }

  /** After a match the sender's order is filled or nothing is left to trade with. */
  lemma MatchExhausts(b: Book, o: OrderView)
    requires b.On(o.side.Opposite()) != [] && o.remaining > 0
    requires BookLive(b)
    ensures var out := Match(b, o); var left := Final(out);
            && out.trades != []
            && left.remaining < o.remaining && left == Settle(o, o.remaining - left.remaining)
            && (left.remaining == 0 || out.book.On(o.side.Opposite()) == [])
  {
    var os := b.On(o.side.Opposite());
    assert os[0] in os;
    SweepCrossing(os, o);
    SweepExhausts(os, o);
  }

  /** A limit order that is not filled at once meets nothing more to trade with. */
  lemma LimitLeft(b: Book, o: OrderView)
    requires BookLive(b) && o.remaining > 0 && o.status == Open && Crosses(b, o)
    ensures var out := Match(b, o); var left := Final(out);
            && BookLive(out.book) && out.book.index == b.index && out.book.On(o.side) == b.On(o.side)
            && left.id == o.id && left.price == o.price && left.side == o.side
            && left.remaining <= o.remaining
            && (left.status == Filled <==> left.remaining == 0)
            && (left.status != Filled ==> !Crosses(out.book, left))
  {
    MatchLive(b, o);
    MatchExhausts(b, o);
  }

  /** Every order leaves the book live, in order and uncrossed, whatever its id. */
  lemma AddLive(b: Book, o: OrderView)
    requires BookLive(b) && Admissible(b, o) && Whole(o)
    ensures BookLive(Add(b, o).book)
  {
    hide BookLive;
    hide Sweep;
    hide Rest;
    MatchLive(b, o);
    if o.kind == Limit {
      if Crosses(b, o) {
        LimitLeft(b, o);
        var left := Final(Match(b, o));
        if left.status != Filled {
          RestLive(Match(b, o).book, left);
        }
      } else {
        RestLive(b, o);
      }
    }
  }

  /** Every legal order leaves the book sound. */
  lemma AddSound(b: Book, o: OrderView)
    requires BookSound(b) && LegalOrder(b, o)
    ensures BookSound(Add(b, o).book)
  {
    hide BookSound;
    hide BookLive;
    hide Sweep;
    hide Rest;
    SoundIsLive(b);
    MatchSound(b, o);
    if o.kind == Limit {
      if Crosses(b, o) {
        LimitLeft(b, o);
        var left := Final(Match(b, o));
        if left.status != Filled {
          RestSound(Match(b, o).book, left);
        }
      } else {
        RestSound(b, o);
      }
    }
  }

  /** Exactly when an order can rest under an id that was used before: where the index
      has it for this side and price. */
  lemma RestSoundIff(b: Book, o: OrderView)
    requires BookSound(b) && !Crosses(b, o)
    requires o.id != 0 && 0 < o.remaining && o.status != Filled
    ensures var h := FindOrderHelper(o.id, o.side, o.price);
            BookSound(Rest(b, o)) <==> o.id !in b.index || b.index[o.id] == h
  {
    hide SideSound;
    hide SideLive;
    hide Insert;
    var os := b.On(o.side);
    SoundIsLive(b);
    RestLive(b, o);
    if o.id !in b.index {
      RestSound(b, o);
    } else if HasIdAt(os, o.price, o.id) {
      IndexedPrice(b, o.id);
    } else {
      InsertSoundIff(o.side, os, o, b.index);
    }
  }

  lemma InsertSoundIff(side: Side, os: seq<OrderView>, o: OrderView, index: map<OrderId, FindOrderHelper>)
    requires SideSound(side, os, index) && SideLive(side, Insert(side, os, o))
    requires o.id in index && !HasIdAt(os, o.price, o.id)
    ensures SideSound(side, Insert(side, os, o), index) <==> index[o.id] == FindOrderHelper(o.id, side, o.price)
  {
    hide SideLive;
    var k := InsertSplits(side, os, o);
    var os' := os[..k] + [o] + os[k..];
    assert os'[k] == o && o in os';
    if index[o.id] == FindOrderHelper(o.id, side, o.price) {
      forall x | x in os ensures x.id != o.id {
        assert index[x.id] == FindOrderHelper(x.id, side, x.price);
      }
      PlacedOnce(os, o, k);
    }
  }

  /** What is left of an order that wants something, on any book. */
  lemma LeftOfLimit(b: Book, o: OrderView)
    requires o.remaining > 0
    ensures var out := Match(b, o); var left := Final(out);
            && out.book.index == b.index && out.book.On(o.side) == b.On(o.side)
            && left.id == o.id && left.price == o.price && left.side == o.side && left.kind == o.kind
            && left.remaining <= o.remaining
            && (left.status != Filled ==> 0 < left.remaining)
  {
    SweepCrossing(b.On(o.side.Opposite()), o);
  }
}
