/** The reference book: two flat sides, the id index, and what one call does to
    them and reports. */
module Books {
  import opened Types
  import opened Sweeps
  import opened FlatBook

  datatype Book = Book(bids: seq<OrderView>, asks: seq<OrderView>, index: map<OrderId, FindOrderHelper>) {
    function On(side: Side): seq<OrderView> {
      if side == Buy then bids else asks
    }

    function With(side: Side, os: seq<OrderView>): Book {
      if side == Buy then this.(bids := os) else this.(asks := os)
    }
  }

  const EMPTY_BOOK := Book([], [], map[])

  /** What one call leaves and what the handlers are told. */
  datatype Outcome = Outcome(
    book: Book,
    trades: seq<Trade>,
    updates: seq<LevelUpdate>,     // public level feed
    notices: seq<OrderView>)       // private order feed; an added order's own notice is last

  /** The order once it surely has an id. */
  function Identified(o: OrderView, newId: OrderId): OrderView {
    if o.id == 0 then o.(id := newId) else o
  }

  function Reject(b: Book, o: OrderView): Outcome {
    Outcome(b, [], [], [o.(status := Rejected)])
  }

  /** The order as its sender finds it after the call. */
  function Final(out: Outcome): OrderView
    requires out.notices != []
  {
    out.notices[|out.notices| - 1]
  }

  /** Fill o greedily against the opposite side. */
  function Match(b: Book, o: OrderView): (out: Outcome)
    ensures out.notices != []
  {
    var opposite := o.side.Opposite();
    var r := Sweep(b.On(opposite), o);
    Outcome(b.With(opposite, r.rest), r.trades,
            LevelUpdates(opposite, TradedPrices(r.trades), r.rest), r.touched + [r.crossing])
  }

  /** The order's price reaches the best opposite price. */
  predicate Crosses(b: Book, o: OrderView) {
    var opposite := b.On(o.side.Opposite());
    opposite != [] && !Before(o.side, opposite[0].price, o.price)
  }

  /** o joins its own side unless its id rests at that price already, and the index
      learns where unless it has this id already. */
  function Rest(b: Book, o: OrderView): Book {
    var os := b.On(o.side);
    var b' := if HasIdAt(os, o.price, o.id) then b else b.With(o.side, Insert(o.side, os, o));
    if o.id in b.index then b' else b'.(index := b.index[o.id := FindOrderHelper(o.id, o.side, o.price)])
  }

  function Add(b: Book, o: OrderView): (out: Outcome)
    ensures out.notices != []
  {
    match o.kind
    case Market =>
      if b.On(o.side.Opposite()) == [] then Reject(b, o) else Match(b, o)
    case FillAndKill =>
      if Crosses(b, o) then Match(b, o) else Reject(b, o)
    case Limit =>
      var out := if Crosses(b, o) then Match(b, o) else Outcome(b, [], [], [o]);
      var left := Final(out);
      if left.status == Filled then out
      else
        var b' := Rest(out.book, left);
        out.(book := b',
             updates := out.updates + [LevelUpdate(o.side, o.price, LevelTotal(b'.On(o.side), o.price))])
  }

  function Cancel(b: Book, id: OrderId): Outcome {
    if id in b.index then
      var h := b.index[id];
      var os := DeleteAtPrice(b.On(h.side), h.price, h.id);
      Outcome(b.With(h.side, os).(index := b.index - {id}), [],
              [LevelUpdate(h.side, h.price, LevelTotal(os, h.price))], [])
    else
      Outcome(b, [], [], [])
  }

  /** What the engine demands of an order that may come to rest: it has an id, it wants
      something, and its level's uint64 total has room for it. */
  predicate Admissible(b: Book, o: OrderView) {
    o.kind == Limit ==> o.id != 0 && 0 < o.remaining && LevelTotal(b.On(o.side), o.price) + o.remaining < U64_LIMIT
  }

  /** An order of which nothing has happened yet. */
  predicate Whole(o: OrderView) {
    0 < o.remaining == o.qty && o.status == Open
  }

  /** A new order that, if it may come to rest, has an id that the index does not hold. */
  predicate LegalOrder(b: Book, o: OrderView) {
    Admissible(b, o) && Whole(o) && (o.kind == Limit ==> o.id !in b.index)
  }

  /** The index knows where every live order rests. */
  ghost predicate Covered(side: Side, os: seq<OrderView>, index: map<OrderId, FindOrderHelper>) {
    forall o :: o in os ==> o.id in index && index[o.id] == FindOrderHelper(o.id, side, o.price)
  }

  ghost predicate Unique(os: seq<OrderView>) {
    forall i, j :: 0 <= i < j < |os| ==> os[i].id != os[j].id
  }

  /** Never a better price behind a worse one. */
  ghost predicate Sorted(side: Side, os: seq<OrderView>) {
    forall i, j :: 0 <= i < j < |os| ==> !Before(side, os[j].price, os[i].price)
  }

  /** The orders of one side: really live, and in order. */
  ghost predicate SideLive(side: Side, os: seq<OrderView>) {
    && (forall o :: o in os ==> o.side == side && o.id != 0 && 0 < o.remaining && o.status != Filled)
    && Sorted(side, os)
  }

  /** And known to the index, each resting once. */
  ghost predicate SideSound(side: Side, os: seq<OrderView>, index: map<OrderId, FindOrderHelper>) {
    SideLive(side, os) && Covered(side, os, index) && Unique(os)
  }

  ghost predicate IndexSound(index: map<OrderId, FindOrderHelper>) {
    forall id :: id in index ==> index[id].id == id
  }

  /** Best bid below best ask. */
  predicate Uncrossed(b: Book) {
    b.bids != [] && b.asks != [] ==> b.bids[0].price < b.asks[0].price
  }

  /** What holds whatever ids the orders have. */
  ghost predicate BookLive(b: Book) {
    SideLive(Buy, b.bids) && SideLive(Sell, b.asks) && Uncrossed(b)
  }

  ghost predicate BookSound(b: Book) {
    && SideSound(Buy, b.bids, b.index)
    && SideSound(Sell, b.asks, b.index)
    && IndexSound(b.index)
    && Uncrossed(b)
  }

  lemma EmptyBookSound()
    ensures BookSound(EMPTY_BOOK)
  {
  }
}
