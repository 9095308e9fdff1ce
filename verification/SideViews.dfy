/** A side as a list of levels, and how operations on single levels appear on
    the flat list of its orders. */
module SideViews {
  import opened Types
  import opened Sweeps
  import opened FlatBook

  function Flatten(vs: seq<LevelView>): seq<OrderView> {
    if vs == [] then [] else vs[0].orders + Flatten(vs[1..])
  }

  ghost predicate LevelOk(side: Side, v: LevelView) {
    forall o :: o in v.orders ==> o.price == v.price && o.side == side && o.remaining > 0 && o.status != Filled
  }

  ghost predicate SideOk(side: Side, vs: seq<LevelView>) {
    && (forall i :: 0 <= i < |vs| ==> LevelOk(side, vs[i]))
    && (forall i, j :: 0 <= i < j < |vs| ==> Before(side, vs[i].price, vs[j].price))
  }

  ghost predicate NoneEmpty(vs: seq<LevelView>) {
    forall i :: 0 <= i < |vs| ==> vs[i].orders != []
  }

  lemma {:induction false} FlattenAppend(a: seq<LevelView>, b: seq<LevelView>)
    ensures Flatten(a + b) == Flatten(a) + Flatten(b)
  {
    if a == [] {
      assert a + b == b;
    } else {
      assert (a + b)[1..] == a[1..] + b;
      FlattenAppend(a[1..], b);
    }
  }

  lemma {:induction false} FlattenSplit(vs: seq<LevelView>, k: nat)
    requires k < |vs|
    ensures Flatten(vs) == Flatten(vs[..k]) + vs[k].orders + Flatten(vs[k + 1..])
  {
    assert vs == vs[..k] + ([vs[k]] + vs[k + 1..]);
    FlattenAppend(vs[..k], [vs[k]] + vs[k + 1..]);
    assert ([vs[k]] + vs[k + 1..])[1..] == vs[k + 1..];
  }

  lemma {:induction false} FlattenUpdate(vs: seq<LevelView>, k: nat, v: LevelView)
    requires k < |vs|
    ensures Flatten(vs[k := v]) == Flatten(vs[..k]) + v.orders + Flatten(vs[k + 1..])
  {
    FlattenSplit(vs[k := v], k);
    assert vs[k := v][..k] == vs[..k] && vs[k := v][k + 1..] == vs[k + 1..];
  }

  lemma {:induction false} FlattenEmpty(vs: seq<LevelView>)
    requires forall i :: 0 <= i < |vs| ==> vs[i].orders == []
    ensures Flatten(vs) == []
  {
    if vs != [] {
      FlattenEmpty(vs[1..]);
    }
  }

  /** An order of the flat list belongs to exactly the level with its price. */
  lemma {:induction false} FlattenMember(vs: seq<LevelView>, o: OrderView)
    requires o in Flatten(vs)
    ensures exists i :: 0 <= i < |vs| && o in vs[i].orders
  {
    if o in vs[0].orders {
    } else {
      FlattenMember(vs[1..], o);
      var i :| 0 <= i < |vs[1..]| && o in vs[1..][i].orders;
      assert o in vs[i + 1].orders;
    }
  }

  /** Everything before level k is strictly better than its price, everything after strictly worse. */
  lemma SplitAround(side: Side, vs: seq<LevelView>, k: nat)
    requires SideOk(side, vs) && k < |vs|
    ensures forall o :: o in Flatten(vs[..k]) ==> Before(side, o.price, vs[k].price)
    ensures forall o :: o in Flatten(vs[k + 1..]) ==> Before(side, vs[k].price, o.price)
  {
    forall o | o in Flatten(vs[..k]) ensures Before(side, o.price, vs[k].price) {
      FlattenMember(vs[..k], o);
    }
    forall o | o in Flatten(vs[k + 1..]) ensures Before(side, vs[k].price, o.price) {
      FlattenMember(vs[k + 1..], o);
      var i :| 0 <= i < |vs[k + 1..]| && o in vs[k + 1..][i].orders;
      assert vs[k + 1..][i] == vs[k + 1 + i];
    }
  }

  /** A level created empty changes nothing. */
  lemma InsertEmptyLevel(vs: seq<LevelView>, k: nat, price: Price)
    requires k <= |vs|
    ensures Flatten(vs[..k] + [LevelView(price, [])] + vs[k..]) == Flatten(vs)
  {
    hide Flatten;
    var vs' := vs[..k] + [LevelView(price, [])] + vs[k..];
    FlattenSplit(vs', k);
    assert vs'[..k] == vs[..k] && vs'[k + 1..] == vs[k..] && vs == vs[..k] + vs[k..];
    FlattenAppend(vs[..k], vs[k..]);
  }

  /** Appending to one level is insertion by priority. */
  lemma AppendIsInsert(side: Side, vs: seq<LevelView>, k: nat, o: OrderView)
    requires SideOk(side, vs) && k < |vs| && o.price == vs[k].price
    ensures Flatten(vs[k := LevelView(o.price, vs[k].orders + [o])]) == Insert(side, Flatten(vs), o)
  {
    var a, b := Flatten(vs[..k]) + vs[k].orders, Flatten(vs[k + 1..]);
    SplitAround(side, vs, k);
    FlattenSplit(vs, k);
    FlattenUpdate(vs, k, LevelView(o.price, vs[k].orders + [o]));
    assert LevelOk(side, vs[k]);
    assert b != [] ==> b[0] in b;
    InsertBetween(side, a, b, o);
    assert a + [o] + b == Flatten(vs[..k]) + (vs[k].orders + [o]) + b;
  }

  /** Deleting from one level is deleting from the flat list at that price. */
  lemma DeleteInLevel(side: Side, vs: seq<LevelView>, k: nat, id: OrderId)
    requires SideOk(side, vs) && k < |vs|
    ensures Flatten(vs[k := LevelView(vs[k].price, Delete(vs[k].orders, id))]) ==
            DeleteAtPrice(Flatten(vs), vs[k].price, id)
  {
    var a, b, p := Flatten(vs[..k]), Flatten(vs[k + 1..]), vs[k].price;
    SplitAround(side, vs, k);
    FlattenSplit(vs, k);
    FlattenUpdate(vs, k, LevelView(p, Delete(vs[k].orders, id)));
    DeleteAtPriceAppend(a + vs[k].orders, b, p, id);
    DeleteAtPriceAppend(a, vs[k].orders, p, id);
    assert LevelOk(side, vs[k]);
    DeleteAtTruePrice(vs[k].orders, p, id);
    DeleteAtOtherPrice(a, p, id);
    DeleteAtOtherPrice(b, p, id);
  }

  /** A level's own sum is the flat list's total at its price. */
  lemma LevelTotalIsSum(side: Side, vs: seq<LevelView>, k: nat)
    requires SideOk(side, vs) && k < |vs|
    ensures LevelTotal(Flatten(vs), vs[k].price) == Sum(vs[k].orders)
  {
    var a, b, p := Flatten(vs[..k]), Flatten(vs[k + 1..]), vs[k].price;
    SplitAround(side, vs, k);
    FlattenSplit(vs, k);
    LevelTotalAppend(a + vs[k].orders, b, p);
    LevelTotalAppend(a, vs[k].orders, p);
    assert LevelOk(side, vs[k]);
    LevelTotalHere(vs[k].orders, p);
    LevelTotalElsewhere(a, p);
    LevelTotalElsewhere(b, p);
  }

  /** An id is found at a price exactly when that price's level has it. */
  lemma HasIdInLevel(side: Side, vs: seq<LevelView>, k: nat, id: OrderId)
    requires SideOk(side, vs) && k < |vs|
    ensures HasIdAt(Flatten(vs), vs[k].price, id) <==> HasId(vs[k].orders, id)
  {
    var a, b, p := Flatten(vs[..k]), Flatten(vs[k + 1..]), vs[k].price;
    SplitAround(side, vs, k);
    FlattenSplit(vs, k);
    assert LevelOk(side, vs[k]);
    if i :| 0 <= i < |vs[k].orders| && vs[k].orders[i].id == id {
      assert vs[k].orders[i] in Flatten(vs);
    }
    if o :| o in Flatten(vs) && o.id == id && o.price == p {
      assert o in vs[k].orders;
    }
  }

  /** vs is vs0, or vs0 with an empty level at place k. */
  ghost predicate LevelFound(vs0: seq<LevelView>, vs: seq<LevelView>, k: nat, price: Price) {
    && k < |vs| && vs[k].price == price
    && (vs == vs0 || (k <= |vs0| && vs == vs0[..k] + [LevelView(price, [])] + vs0[k..]))
  }

  lemma LevelFoundFlat(vs0: seq<LevelView>, vs: seq<LevelView>, k: nat, price: Price)
    requires LevelFound(vs0, vs, k, price)
    ensures Flatten(vs) == Flatten(vs0)
    ensures NoneEmpty(vs0) ==> forall i :: 0 <= i < |vs| && i != k ==> vs[i].orders != []
  {
    hide Flatten;
    if vs != vs0 {
      InsertEmptyLevel(vs0, k, price);
      forall i | 0 <= i < |vs| && i != k ensures vs[i] == vs0[if i < k then i else i - 1] {
      }
    }
  }

  /** Adding to one level adds to the flat list, unless the id is already there. */
  lemma AddInLevel(side: Side, vs: seq<LevelView>, k: nat, o: OrderView)
    requires SideOk(side, vs) && k < |vs| && o.price == vs[k].price
    ensures var os := if HasId(vs[k].orders, o.id) then vs[k].orders else vs[k].orders + [o];
            os != [] &&
            Flatten(vs[k := LevelView(o.price, os)]) ==
            if HasIdAt(Flatten(vs), o.price, o.id) then Flatten(vs) else Insert(side, Flatten(vs), o)
  {
    hide Flatten;
    hide Insert;
    HasIdInLevel(side, vs, k, o.id);
    AppendIsInsert(side, vs, k, o);
    assert vs[k := LevelView(o.price, vs[k].orders)] == vs;
  }

  /** Erasing an empty level changes nothing. */
  lemma EraseEmptyLevel(side: Side, vs: seq<LevelView>, k: nat)
    requires k < |vs| && vs[k].orders == []
    requires SideOk(side, vs)
    ensures Flatten(vs[..k] + vs[k + 1..]) == Flatten(vs)
    ensures SideOk(side, vs[..k] + vs[k + 1..])
  {
    hide Flatten;
    var es := vs[..k] + vs[k + 1..];
    FlattenSplit(vs, k);
    FlattenAppend(vs[..k], vs[k + 1..]);
    assert Flatten(vs[..k]) + [] == Flatten(vs[..k]);
    forall i | 0 <= i < |es| ensures es[i] == vs[if i < k then i else i + 1] {
    }
  }

  lemma NoLiveTotal(side: Side, v: LevelView)
    requires LevelOk(side, v)
    ensures Sum(v.orders) == 0 <==> v.orders == []
  {
  }

  /** A level from which an id has gone, and which is erased if that emptied it. */
  lemma RemovedFromLevel(side: Side, vs0: seq<LevelView>, vs: seq<LevelView>, k: nat, id: OrderId)
    requires k < |vs| && LevelFound(vs0, vs, k, vs[k].price) && SideOk(side, vs) && NoneEmpty(vs0)
    ensures var vs' := vs[k := LevelView(vs[k].price, Delete(vs[k].orders, id))];
            SideOk(side, vs') ==>
            var vs'' := if Sum(vs'[k].orders) == 0 then vs'[..k] + vs'[k + 1..] else vs';
            && Flatten(vs'') == DeleteAtPrice(Flatten(vs0), vs[k].price, id)
            && NoneEmpty(vs'')
            && LevelTotal(Flatten(vs''), vs[k].price) == Sum(vs'[k].orders)
  {
    hide Flatten;
    hide Delete;
    hide Sum;
    hide LevelTotal;
    var vs' := vs[k := LevelView(vs[k].price, Delete(vs[k].orders, id))];
    LevelFoundFlat(vs0, vs, k, vs[k].price);
    DeleteInLevel(side, vs, k, id);
    if SideOk(side, vs') {
      LevelTotalIsSum(side, vs', k);
      NoLiveTotal(side, vs'[k]);
      if Sum(vs'[k].orders) == 0 {
        EraseEmptyLevel(side, vs', k);
        var es := vs'[..k] + vs'[k + 1..];
        forall i | 0 <= i < |es| ensures es[i] == vs[if i < k then i else i + 1] {
        }
      } else {
        assert vs'[k].orders != [];
      }
    }
  }
}
