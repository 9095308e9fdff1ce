/** The price levels of one side, sorted by the side's comparator. */
module OrderBookData {
  import opened Types
  import opened Orders
  import opened SideViews
  import opened PriceLevels

  ghost function LevelViews(ls: seq<PriceLevel>): (vs: seq<LevelView>)
    reads ls
    ensures |vs| == |ls| && forall i :: 0 <= i < |ls| ==> vs[i] == ls[i].View()
  {
    seq(|ls|, i requires 0 <= i < |ls| reads ls => ls[i].View())
  }

  /** Levels that are sound and share no part of their state, all within R. */
  ghost predicate LevelsOk(ls: seq<PriceLevel>, side: Side, R: set<object>)
    reads R
  {
    && (forall i :: 0 <= i < |ls| ==> ls[i] in R && ls[i].Repr <= R && ls[i].Valid() && ls[i].side == side)
    && (forall i, j :: 0 <= i < j < |ls| ==> ls[i].Repr !! ls[j].Repr)
  }

  ghost predicate Ordered(side: Side, ls: seq<PriceLevel>) {
    forall i, j :: 0 <= i < j < |ls| ==> Before(side, ls[i].price, ls[j].price)
  }

  /** The place of the first level that is not better than price. */
  function LowerBound(side: Side, ls: seq<PriceLevel>, price: Price): (k: nat)
    ensures k <= |ls|
    ensures forall i :: 0 <= i < k ==> Before(side, ls[i].price, price)
    ensures k < |ls| ==> !Before(side, ls[k].price, price)
  {
    if ls == [] || !Before(side, ls[0].price, price) then 0
    else 1 + LowerBound(side, ls[1..], price)
  }

  lemma InsertOrdered(side: Side, ls: seq<PriceLevel>, k: nat, level: PriceLevel)
    requires Ordered(side, ls) && k == LowerBound(side, ls, level.price)
    requires k < |ls| ==> ls[k].price != level.price
    ensures Ordered(side, ls[..k] + [level] + ls[k..])
  {
  }

  lemma InsertOk(ls: seq<PriceLevel>, side: Side, R: set<object>, k: nat, level: PriceLevel)
    requires LevelsOk(ls, side, R) && k <= |ls|
    requires level.Valid() && level.side == side && level.Repr !! R
    ensures LevelsOk(ls[..k] + [level] + ls[k..], side, R + level.Repr)
  {
    hide PriceLevel.Valid;
    var ls' := ls[..k] + [level] + ls[k..];
    forall i | 0 <= i < |ls'| ensures ls'[i] == if i < k then ls[i] else if i == k then level else ls[i - 1] {
    }
  }

  lemma InsertViews(ls: seq<PriceLevel>, k: nat, level: PriceLevel)
    requires k <= |ls|
    ensures LevelViews(ls[..k] + [level] + ls[k..]) == LevelViews(ls)[..k] + [level.View()] + LevelViews(ls)[k..]
  {
  }

  lemma EraseOk(ls: seq<PriceLevel>, side: Side, R: set<object>, k: nat)
    requires LevelsOk(ls, side, R) && Ordered(side, ls) && k < |ls|
    ensures LevelsOk(ls[..k] + ls[k + 1..], side, R) && Ordered(side, ls[..k] + ls[k + 1..])
  {
    hide PriceLevel.Valid;
    var ls' := ls[..k] + ls[k + 1..];
    forall i | 0 <= i < |ls'| ensures ls'[i] == if i < k then ls[i] else ls[i + 1] {
    }
  }

  lemma LevelIn(ls: seq<PriceLevel>, side: Side, R: set<object>, k: nat)
    requires LevelsOk(ls, side, R) && k < |ls|
    ensures ls[k].Valid() && ls[k].Repr <= R && ls[k] in R && ls[k].side == side
    ensures LevelViews(ls)[k] == LevelView(ls[k].price, ls[k].Contents())
  {
  }

  lemma EraseViews(ls: seq<PriceLevel>, k: nat)
    requires k < |ls|
    ensures LevelViews(ls[..k] + ls[k + 1..]) == LevelViews(ls)[..k] + LevelViews(ls)[k + 1..]
  {
  }

  lemma SuffixViews(ls: seq<PriceLevel>, e: nat)
    requires e <= |ls|
    ensures LevelViews(ls[e..]) == LevelViews(ls)[e..]
  {
  }

  lemma DropFirst(ls: seq<PriceLevel>, j: nat)
    requires j < |ls|
    ensures ls[j..][..0] + ls[j..][1..] == ls[j + 1..]
    ensures ls[j..][0] == ls[j]
  {
  }

  lemma LowerBoundAt(side: Side, ls: seq<PriceLevel>, k: nat)
    requires Ordered(side, ls) && k < |ls|
    ensures LowerBound(side, ls, ls[k].price) == k
  {
  }

  /** Some levels of one side, and the objects that their state may live in. */
  datatype LevelGroup = LevelGroup(levels: seq<PriceLevel>, side: Side, repr: set<object>)

  /** What the levels are like when only the state of level k has changed. */
  twostate lemma OnlyOneChanged(g: LevelGroup, new k: nat)
    requires k < |g.levels|
    requires old(LevelsOk(g.levels, g.side, g.repr))
    requires g.levels[k].Valid() && fresh(g.levels[k].Repr - old(g.levels[k].Repr))
    requires forall o :: o in g.repr && o !in old(g.levels[k].Repr) ==> unchanged(o)
    ensures LevelsOk(g.levels, g.side, g.repr + g.levels[k].Repr)
    ensures LevelViews(g.levels) == old(LevelViews(g.levels))[k := g.levels[k].View()]
    ensures forall i :: 0 <= i < |g.levels| && i != k ==>
      g.levels[i].ordersToBeRemoved == old(g.levels[i].ordersToBeRemoved) && g.levels[i].Repr == old(g.levels[i].Repr)
  {
    hide PriceLevel.Valid;
    hide PriceLevel.View;
    var ls := g.levels;
    forall i | 0 <= i < |ls| && i != k
      ensures ls[i].Valid() && ls[i].Repr == old(ls[i].Repr) && ls[i].View() == old(ls[i].View())
      ensures ls[i].ordersToBeRemoved == old(ls[i].ordersToBeRemoved)
    {
      assert old(ls[i].Valid());
      assert old(ls[i].Repr !! ls[k].Repr);
      assert unchanged(ls[i]);
    }
  }

  lemma SuffixOk(ls: seq<PriceLevel>, side: Side, R: set<object>, e: nat)
    requires LevelsOk(ls, side, R) && Ordered(side, ls) && e <= |ls|
    ensures LevelsOk(ls[e..], side, R) && Ordered(side, ls[e..])
  {
  }

  /** None of these orders lives in a level from place k on. */
  ghost predicate NotInLevels(os: seq<Order>, ls: seq<PriceLevel>, k: nat)
    reads ls
  {
    forall i, o :: k <= i < |ls| && o in os ==> o !in ls[i].Repr
  }

  lemma NextLevelsApart(os: seq<Order>, os': seq<Order>, ls: seq<PriceLevel>, side: Side, R: set<object>, k: nat)
    requires LevelsOk(ls, side, R) && k < |ls| && NotInLevels(os, ls, k)
    requires forall o :: o in os' ==> o in os || o in ls[k].Repr
    ensures NotInLevels(os', ls, k + 1)
  {
  }

  /** A price has a level exactly when the lower bound stands at it. */
  lemma FoundAtLowerBound(side: Side, ls: seq<PriceLevel>, price: Price)
    requires Ordered(side, ls)
    ensures var k := LowerBound(side, ls, price);
            (exists l :: l in ls && l.price == price) <==> k < |ls| && ls[k].price == price
  {
  }

  class OrderBookDataMap {
    const symbol: Symbol
    const side: Side
    var bookCont: seq<PriceLevel>
    ghost var LevelRepr: set<object>

    ghost predicate Valid()
      reads this, LevelRepr
    {
      && this !in LevelRepr
      && LevelsOk(bookCont, side, LevelRepr)
      && Ordered(side, bookCont)
    }

    ghost function Views(): seq<LevelView>
      reads this, bookCont
    {
      LevelViews(bookCont)
    }

    /** No level has filled orders waiting to be unlinked. */
    ghost predicate Settled()
      reads this, bookCont
    {
      forall i :: 0 <= i < |bookCont| ==> bookCont[i].ordersToBeRemoved == []
    }

    constructor (symbol: Symbol, side: Side)
      ensures Valid() && this.side == side && bookCont == [] && fresh(LevelRepr)
    {
      this.symbol, this.side := symbol, side;
      bookCont, LevelRepr := [], {};
    }

    predicate Empty()
      reads this
    {
      bookCont == []
    }

    function BestPrice(): Price
      reads this
      requires !Empty()
    {
      bookCont[0].price
    }

    /** Find the level, or create it empty. */
    method GetBookLevel(price: Price) returns (level: PriceLevel, ghost k: nat)
      requires Valid() && Settled()
      modifies this
      ensures Valid() && Settled() && fresh(LevelRepr - old(LevelRepr)) && old(LevelRepr) <= LevelRepr
      ensures k < |bookCont| && bookCont[k] == level && level.price == price
      ensures LevelFound(old(Views()), Views(), k, price)
      ensures if exists l :: l in old(bookCont) && l.price == price then bookCont == old(bookCont)
              else k <= |old(bookCont)| && fresh(level) && bookCont == old(bookCont)[..k] + [level] + old(bookCont)[k..]
    {
      hide PriceLevel.Valid;
      hide LevelsOk;
      hide Ordered;
      FoundAtLowerBound(side, bookCont, price);
      var i := LowerBound(side, bookCont, price);
      if i < |bookCont| && bookCont[i].price == price {
        level, k := bookCont[i], i;
      } else {
        level, k := AddBookLevel(price);
      }
    }

    /** Create a level and emplace it: if the price has a level, that one is returned and
        the new one is not used. */
    method AddBookLevel(price: Price) returns (level: PriceLevel, ghost k: nat)
      requires Valid() && Settled()
      modifies this
      ensures Valid() && Settled() && fresh(LevelRepr - old(LevelRepr)) && old(LevelRepr) <= LevelRepr
      ensures k == LowerBound(side, old(bookCont), price)
      ensures k < |bookCont| && bookCont[k] == level && level.price == price
      ensures if k < |old(bookCont)| && old(bookCont)[k].price == price then
                bookCont == old(bookCont) && Views() == old(Views())
              else
                && fresh(level) && level.Contents() == []
                && bookCont == old(bookCont)[..k] + [level] + old(bookCont)[k..]
                && Views() == old(Views())[..k] + [level.View()] + old(Views())[k..]
    {
      hide PriceLevel.Valid;
      hide LevelsOk;
      hide LevelViews;
      hide Ordered;
      var created := new PriceLevel(symbol, price, side);
      var i := LowerBound(side, bookCont, price);
      k := i;
      if i < |bookCont| && bookCont[i].price == price {
        level := bookCont[i];
      } else {
        level := created;
        InsertOrdered(side, bookCont, i, level);
        InsertOk(bookCont, side, LevelRepr, i, level);
        InsertViews(bookCont, i, level);
        bookCont := bookCont[..i] + [level] + bookCont[i..];
        LevelRepr := LevelRepr + level.Repr;
      }
    }

    /** Erase the level at this price, if there is one. */
    method RemoveBookLevel(price: Price)
      requires Valid()
      modifies this`bookCont
      ensures Valid()
      ensures old(Settled()) ==> Settled()
      ensures var i := LowerBound(side, old(bookCont), price);
              bookCont == if i < |old(bookCont)| && old(bookCont)[i].price == price
                          then old(bookCont)[..i] + old(bookCont)[i + 1..] else old(bookCont)
    {
      hide PriceLevel.Valid;
      hide LevelsOk;
      hide Ordered;
      var i := LowerBound(side, bookCont, price);
      if i < |bookCont| && bookCont[i].price == price {
        EraseOk(bookCont, side, LevelRepr, i);
        EraseViews(bookCont, i);
        bookCont := bookCont[..i] + bookCont[i + 1..];
      }
    }
  }
}
