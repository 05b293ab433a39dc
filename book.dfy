/** The limit order book of one instrument (src/order_book.cpp): two sides of
    handles into an arena of orders, each side kept in price-time priority,
    and an id index that is a multimap from order id to order, oldest entry
    first. */
module Book {
  import opened Orders
  import opened SeqUtil
  import opened Matching

  /** Every handle of `s` addresses an order of `side`, and `s` is in the
      priority order of that side. */
  predicate SideOk(arena: seq<Order>, s: seq<nat>, side: Side) {
    && InArena(arena, s)
    && (forall i :: 0 <= i < |s| ==> arena[s[i]].side == side)
    && SortedBy(arena, s, side)
  }

  /** Every index entry addresses an order that carries the entry's id. */
  predicate IndexOk(arena: seq<Order>, index: seq<(string, nat)>) {
    forall k :: 0 <= k < |index| ==> index[k].1 < |arena| && arena[index[k].1].id == index[k].0
  }

  /** The book invariant, stated for the side `own` of `side` and the side
      `opp` opposite it: no order is over-filled, both sides are in priority
      order, the index is accurate and holds each order at most once, and each
      order on a side has exactly one index entry. The converse, that every
      entry is on a side, is Indexed, part of a live book: add_order puts an
      order on its side and in the index together, and matching and
      cancelling take it out of both together. Only remove_filled_orders,
      which nothing in the book calls, drops orders from the sides alone. */
  ghost predicate InvSides(arena: seq<Order>, own: seq<nat>, opp: seq<nat>,
                           index: seq<(string, nat)>, side: Side) {
    && AllWellFormed(arena)
    && SideOk(arena, own, side) && SideOk(arena, opp, Opposite(side))
    && IndexOk(arena, index)
    && Distinct(Seconds(index))
    && multiset(own) + multiset(opp) <= multiset(Seconds(index))
  }

  /** The index holds exactly the orders on the two sides. */
  ghost predicate Indexed(bids: seq<nat>, asks: seq<nat>, index: seq<(string, nat)>) {
    multiset(Seconds(index)) == multiset(bids) + multiset(asks)
  }

  /** The book invariant over bids and asks. */
  ghost predicate Inv(arena: seq<Order>, bids: seq<nat>, asks: seq<nat>, index: seq<(string, nat)>) {
    InvSides(arena, bids, asks, index, Buy)
  }

  /** The invariant does not depend on which side is called `own`. */
  lemma InvSidesSwap(arena: seq<Order>, own: seq<nat>, opp: seq<nat>, index: seq<(string, nat)>, side: Side)
    requires InvSides(arena, own, opp, index, side)
    ensures InvSides(arena, opp, own, index, Opposite(side))
  {
    assert multiset(opp) + multiset(own) == multiset(own) + multiset(opp);
  }

  /** The invariant stated for the side of an order. */
  lemma InvForSide(arena: seq<Order>, bids: seq<nat>, asks: seq<nat>, index: seq<(string, nat)>, side: Side)
    requires Inv(arena, bids, asks, index)
    ensures side == Buy ==> InvSides(arena, bids, asks, index, side)
    ensures side == Sell ==> InvSides(arena, asks, bids, index, side)
  {
    if side == Sell {
      InvSidesSwap(arena, bids, asks, index, Buy);
    }
  }

  /** The converse: the invariant for an order's side gives the book invariant. */
  lemma InvFromSide(arena: seq<Order>, bids: seq<nat>, asks: seq<nat>, index: seq<(string, nat)>,
                                       own: seq<nat>, opp: seq<nat>, side: Side)
    requires InvSides(arena, own, opp, index, side)
    requires if side == Buy then bids == own && asks == opp else bids == opp && asks == own
    ensures Inv(arena, bids, asks, index)
  {
    if side == Sell {
      InvSidesSwap(arena, own, opp, index, Sell);
    }
  }

  /** No handle occurs twice on a side, nor on both sides. */
  lemma SidesDistinct(arena: seq<Order>, own: seq<nat>, opp: seq<nat>,
                                         index: seq<(string, nat)>, side: Side)
    requires InvSides(arena, own, opp, index, side)
    ensures Distinct(own) && Distinct(opp)
    ensures forall i :: 0 <= i < |opp| ==> opp[i] !in own
  {
    forall x ensures multiset(own)[x] <= 1 && multiset(opp)[x] <= 1 {
      assert multiset(Seconds(index))[x] <= 1;
    }
  }

  /** Removing the order at position `k` keeps a side in priority order. */
  lemma SideOkRemoveAt(arena: seq<Order>, s: seq<nat>, side: Side, k: nat)
    requires SideOk(arena, s, side) && k < |s|
    ensures SideOk(arena, RemoveAt(s, k), side)
  {
    var r := RemoveAt(s, k);
    forall i, j | 0 <= i < j < |r| ensures !SortBefore(side, arena[r[j]], arena[r[i]]) {
      var i' := if i < k then i else i + 1;
      var j' := if j < k then j else j + 1;
      assert r[i] == s[i'] && r[j] == s[j'];
    }
  }

  /** Changing the fill state of one order keeps a side in priority order. */
  lemma SideOkUpdate(arena: seq<Order>, s: seq<nat>, side: Side, h: nat, o: Order)
    requires SideOk(arena, s, side) && h < |arena| && SameIdentity(o, arena[h])
    ensures SideOk(arena[h := o], s, side)
  {
    var a := arena[h := o];
    forall i, j | 0 <= i < j < |s| ensures !SortBefore(side, a[s[j]], a[s[i]]) {
      assert SameKey(a[s[j]], arena[s[j]]) && SameKey(a[s[i]], arena[s[i]]);
      assert !SortBefore(side, arena[s[j]], arena[s[i]]);
    }
  }

  /** Adding an order to the arena leaves a side as it was. */
  lemma SideOkGrow(arena: seq<Order>, s: seq<nat>, side: Side, o: Order)
    requires SideOk(arena, s, side)
    ensures SideOk(arena + [o], s, side)
  {
    var a := arena + [o];
    forall i, j | 0 <= i < j < |s| ensures !SortBefore(side, a[s[j]], a[s[i]]) {
      assert a[s[j]] == arena[s[j]] && a[s[i]] == arena[s[i]];
    }
  }

  /** A rearrangement of a side's handles still addresses orders of that side. */
  lemma OnSidePerm(arena: seq<Order>, s: seq<nat>, t: seq<nat>, side: Side)
    requires InArena(arena, s) && (forall i :: 0 <= i < |s| ==> arena[s[i]].side == side)
    requires multiset(t) == multiset(s)
    ensures InArena(arena, t) && (forall i :: 0 <= i < |t| ==> arena[t[i]].side == side)
  {
    forall i | 0 <= i < |t| ensures t[i] < |arena| && arena[t[i]].side == side {
      assert t[i] in multiset(t);
      var j :| 0 <= j < |s| && s[j] == t[i];
    }
  }

  /** Removing the index entry at `k` keeps the index accurate and free of
      duplicates, and takes exactly its handle out of the index. */
  lemma {:induction false} IndexRemoveAt(arena: seq<Order>, index: seq<(string, nat)>, k: nat)
    requires IndexOk(arena, index) && Distinct(Seconds(index)) && k < |index|
    ensures IndexOk(arena, RemoveAt(index, k))
    ensures multiset(Seconds(RemoveAt(index, k))) == multiset(Seconds(index)) - multiset{index[k].1}
    ensures Distinct(Seconds(RemoveAt(index, k)))
  {
    var index' := RemoveAt(index, k);
    IndexOkRemoveAt(arena, index, k);
    assert multiset(Seconds(index')) == multiset(Seconds(index)) - multiset{index[k].1} by {
      SecondsRemoveAt(index, k);
      RemoveAtMultiset(Seconds(index), k);
    }
    forall x ensures multiset(Seconds(index'))[x] <= 1 {
      assert multiset(Seconds(index))[x] <= 1;
    }
  }

  /** Removing an entry keeps the rest of the index accurate. */
  lemma IndexOkRemoveAt(arena: seq<Order>, index: seq<(string, nat)>, k: nat)
    requires IndexOk(arena, index) && k < |index|
    ensures IndexOk(arena, RemoveAt(index, k))
  {
    var index' := RemoveAt(index, k);
    forall j | 0 <= j < |index'| ensures index'[j].1 < |arena| && arena[index'[j].1].id == index'[j].0 {
      assert index'[j] == index[if j < k then j else j + 1];
    }
  }

  /** Taking one handle out of both the sides and the index keeps every side
      handle covered by exactly one index entry. */
  lemma CoverRemove(own: multiset<nat>, opp: multiset<nat>, all: multiset<nat>, h: nat)
    requires own + opp <= all && opp[h] == 0
    ensures (own - multiset{h}) + opp <= all - multiset{h}
  {
    forall x ensures ((own - multiset{h}) + opp)[x] <= (all - multiset{h})[x] {
      assert (own + opp)[x] <= all[x];
    }
  }

  /** Removing the index entry at `k`, and its order from its side, keeps the invariant. */
  lemma RemoveHandle(arena: seq<Order>, own: seq<nat>, opp: seq<nat>,
                     index: seq<(string, nat)>, side: Side, k: nat)
    requires InvSides(arena, own, opp, index, side) && k < |index|
    requires arena[index[k].1].side == side
    ensures index[k].1 !in opp
    ensures InvSides(arena, RemoveFirst(own, index[k].1), opp, RemoveAt(index, k), side)
  {
    var h := index[k].1;
    if h in own {
      SideOkRemoveAt(arena, own, side, IndexOf(own, h));
    }
    RemoveFirstMultiset(own, h);
    IndexRemoveAt(arena, index, k);
    CoverRemove(multiset(own), multiset(opp), multiset(Seconds(index)), h);
  }

  /** The front order of the opposite side has its entry in the index. */
  lemma FrontIndexed(arena: seq<Order>, own: seq<nat>, opp: seq<nat>,
                     index: seq<(string, nat)>, side: Side)
    requires InvSides(arena, own, opp, index, side) && opp != []
    ensures (arena[opp[0]].id, opp[0]) in index
  {
    var h := opp[0];
    assert h in multiset(opp);
    assert h in multiset(Seconds(index));
    var j :| 0 <= j < |index| && Seconds(index)[j] == h;
    assert index[j] == (arena[h].id, h);
  }

  /** Taking the filled front order off the opposite side, together with its
      index entry, keeps the invariant. */
  lemma PopFront(arena: seq<Order>, own: seq<nat>, opp: seq<nat>,
                                    index: seq<(string, nat)>, side: Side)
    requires InvSides(arena, own, opp, index, side) && opp != []
    ensures (arena[opp[0]].id, opp[0]) in index
    ensures InvSides(arena, own, opp[1..], RemoveFirst(index, (arena[opp[0]].id, opp[0])), side)
  {
    var h := opp[0];
    FrontIndexed(arena, own, opp, index, side);
    var k := IndexOf(index, (arena[h].id, h));
    InvSidesSwap(arena, own, opp, index, side);
    RemoveHandle(arena, opp, own, index, Opposite(side), k);
    assert RemoveFirst(opp, h) == opp[1..];
    InvSidesSwap(arena, opp[1..], own, RemoveAt(index, k), Opposite(side));
  }

  /** Changing the fill state of one order, within its size, keeps the invariant. */
  lemma UpdateOrder(arena: seq<Order>, own: seq<nat>, opp: seq<nat>,
                    index: seq<(string, nat)>, side: Side, h: nat, o: Order)
    requires InvSides(arena, own, opp, index, side) && h < |arena|
    requires SameIdentity(o, arena[h]) && WellFormed(o)
    ensures InvSides(arena[h := o], own, opp, index, side)
  {
    SideOkUpdate(arena, own, side, h, o);
    SideOkUpdate(arena, opp, Opposite(side), h, o);
  }

  /** One round of the matching loop: the front resting order is filled by
      `q`, leaves its side and the index when that fills it, and the outcome
      of matching from the old state is the round's trade followed by the
      outcome of matching from the new one. The invariant is kept. */
  lemma MatchRound(arena: seq<Order>, own: seq<nat>, opp: seq<nat>, index: seq<(string, nat)>,
                                      side: Side, incoming: Order, now: nat, q: nat, t: Trade,
                                      arena': seq<Order>, opp': seq<nat>, index': seq<(string, nat)>, incoming': Order)
    requires InvSides(arena, own, opp, index, side) && WellFormed(incoming)
    requires opp != [] && !IsFilled(incoming) && Eligible(incoming, arena[opp[0]])
    requires q == Min(RemainingSize(incoming), RemainingSize(arena[opp[0]]))
    requires t == MakeTrade(incoming, arena[opp[0]], q, now)
    requires arena' == arena[opp[0] := Fill(arena[opp[0]], q)] && incoming' == Fill(incoming, q)
    requires opp' == if IsFilled(arena'[opp[0]]) then opp[1..] else opp
    requires index' == if IsFilled(arena'[opp[0]]) then RemoveFirst(index, (arena[opp[0]].id, opp[0])) else index
    ensures InvSides(arena', own, opp', index', side) && WellFormed(incoming')
    ensures Match(arena, opp, index, incoming, now) == Prepend([t], Match(arena', opp', index', incoming', now))
  {
    var h := opp[0];
    UpdateOrder(arena, own, opp, index, side, h, Fill(arena[h], q));
    if IsFilled(arena'[h]) {
      assert arena'[opp[0]].id == arena[opp[0]].id;
      PopFront(arena', own, opp, index, side);
    }
  }

  /** Matching erases from the index exactly the entries of the orders it
      consumed from the front of the opposite side. */
  lemma {:induction false} MatchIndex(arena: seq<Order>, own: seq<nat>, opp: seq<nat>, index: seq<(string, nat)>,
                                      side: Side, incoming: Order, now: nat)
    requires InvSides(arena, own, opp, index, side) && WellFormed(incoming)
    ensures var r := Match(arena, opp, index, incoming, now);
      multiset(Seconds(r.index)) == multiset(Seconds(index)) - multiset(opp[..|opp| - |r.opposite|])
    decreases |opp| + (if IsFilled(incoming) then 0 else 1)
  {
    var r := Match(arena, opp, index, incoming, now);
    if opp == [] || IsFilled(incoming) || !Eligible(incoming, arena[opp[0]]) {
      assert opp[..|opp| - |r.opposite|] == [];
    } else {
      var h := opp[0];
      var q := Min(RemainingSize(incoming), RemainingSize(arena[h]));
      var t := MakeTrade(incoming, arena[h], q, now);
      var arena' := arena[h := Fill(arena[h], q)];
      var filled := IsFilled(arena'[h]);
      var opp' := if filled then opp[1..] else opp;
      var index' := if filled then RemoveFirst(index, (arena[h].id, h)) else index;
      var incoming' := Fill(incoming, q);
      MatchRound(arena, own, opp, index, side, incoming, now, q, t, arena', opp', index', incoming');
      MatchIndex(arena', own, opp', index', side, incoming', now);
      var r' := Match(arena', opp', index', incoming', now);
      assert r.index == r'.index && r.opposite == r'.opposite;
      if filled {
        var n := |opp| - |r.opposite|;
        assert 0 < n <= |opp|;
        assert multiset(Seconds(index')) == multiset(Seconds(index)) - multiset{h} by {
          FrontIndexed(arena, own, opp, index, side);
          SecondsRemoveFirst(index, (arena[h].id, h));
        }
        DropFront(multiset(Seconds(index)), multiset(Seconds(index')), multiset(Seconds(r.index)), opp, n);
      }
    }
  }

  /** Removing the front of `opp` and then the next `n - 1` removes the
      first `n`. */
  lemma DropFront(ids: multiset<nat>, mid: multiset<nat>, fin: multiset<nat>, opp: seq<nat>, n: nat)
    requires 0 < n <= |opp|
    requires mid == ids - multiset{opp[0]}
    requires fin == mid - multiset(opp[1..][..n - 1])
    ensures fin == ids - multiset(opp[..n])
  {
    PrefixFront(opp, n);
    assert multiset(opp[..n]) == multiset{opp[0]} + multiset(opp[1..][..n - 1]);
    MinusTwice(ids, multiset{opp[0]}, multiset(opp[1..][..n - 1]));
  }

  /** Matching keeps the index exact: the consumed orders leave the
      opposite side and the index together. */
  lemma {:induction false} MatchKeepsIndexed(arena: seq<Order>, own: seq<nat>, opp: seq<nat>, index: seq<(string, nat)>,
                                             side: Side, incoming: Order, now: nat)
    requires InvSides(arena, own, opp, index, side) && WellFormed(incoming)
    requires multiset(Seconds(index)) == multiset(own) + multiset(opp)
    ensures var r := Match(arena, opp, index, incoming, now);
      multiset(Seconds(r.index)) == multiset(own) + multiset(r.opposite)
  {
    var r := Match(arena, opp, index, incoming, now);
    var n := |opp| - |r.opposite|;
    assert n <= |opp| && r.opposite == opp[n..]
        && multiset(Seconds(r.index)) == multiset(Seconds(index)) - multiset(opp[..n]) by {
      MatchIndex(arena, own, opp, index, side, incoming, now);
      MatchShape(arena, opp, index, incoming, now);
    }
    DropPrefix(Seconds(index), Seconds(r.index), own, opp, n, r.opposite);
  }

  /** Values that covered `own` and `opp` exactly, less the first `n` of
      `opp`, cover `own` and the rest of `opp` exactly. */
  lemma DropPrefix(ids: seq<nat>, ids': seq<nat>, own: seq<nat>, opp: seq<nat>, n: nat, rest: seq<nat>)
    requires n <= |opp| && rest == opp[n..]
    requires multiset(ids) == multiset(own) + multiset(opp)
    requires multiset(ids') == multiset(ids) - multiset(opp[..n])
    ensures multiset(ids') == multiset(own) + multiset(rest)
  {
    SplitAt(opp, n);
    var gone := multiset(opp[..n]);
    assert multiset(ids') == (multiset(own) + gone + multiset(rest)) - gone;
  }

  /** Matching against a live book leaves both sides resting and trades
      only positive sizes. */
  lemma MatchKeepsLive(arena: seq<Order>, bids: seq<nat>, asks: seq<nat>, index: seq<(string, nat)>,
                                          incoming: Order, now: nat, r: Outcome)
    requires Inv(arena, bids, asks, index) && WellFormed(incoming)
    requires AllResting(arena, bids) && AllResting(arena, asks)
    requires r == Match(arena, if incoming.side == Buy then asks else bids, index, incoming, now)
    ensures var own := if incoming.side == Buy then bids else asks;
      && InArena(r.arena, own) && AllResting(r.arena, own)
      && InArena(r.arena, r.opposite) && AllResting(r.arena, r.opposite)
    ensures forall t :: t in r.trades ==> t.size > 0
  {
    var side := incoming.side;
    var own := if side == Buy then bids else asks;
    var opp := if side == Buy then asks else bids;
    InvForSide(arena, bids, asks, index, side);
    SidesDistinct(arena, own, opp, index, side);
    MatchIdentity(arena, opp, index, incoming, now);
    MatchKeepsResting(arena, opp, index, incoming, now);
    MatchSizesPositive(arena, opp, index, incoming, now);
    MatchUntouched(arena, opp, index, incoming, now);
    UntouchedResting(arena, own, opp, |r.trades|, r.arena);
  }

  /** A side that shares no handle with the orders a match touched keeps
      resting in the arena the match left. */
  lemma UntouchedResting(arena: seq<Order>, own: seq<nat>, opp: seq<nat>, k: nat, arena': seq<Order>)
    requires InArena(arena, own) && AllResting(arena, own)
    requires forall i :: 0 <= i < |opp| ==> opp[i] !in own
    requires k <= |opp| && |arena| <= |arena'|
    requires forall x :: 0 <= x < |arena| && x !in opp[..k] ==> arena'[x] == arena[x]
    ensures InArena(arena', own) && AllResting(arena', own)
  {
    forall i | 0 <= i < |own| ensures own[i] < |arena'| && Resting(arena'[own[i]]) {
      assert own[i] !in opp[..k];
    }
  }

  /** Changing an order that is not on `s`, or that still rests, keeps `s` resting. */
  lemma RestingUpdate(arena: seq<Order>, s: seq<nat>, h: nat, o: Order)
    requires InArena(arena, s) && AllResting(arena, s) && h < |arena|
    requires h in s ==> Resting(o)
    ensures InArena(arena[h := o], s) && AllResting(arena[h := o], s)
  {
  }

  /** An order that keeps its handle out of a side stays off it once removed. */
  lemma RemoveFirstDistinct(s: seq<nat>, x: nat)
    requires Distinct(s)
    ensures x !in RemoveFirst(s, x)
    ensures forall y :: y in RemoveFirst(s, x) ==> y in s && y != x
  {
    RemoveFirstMultiset(s, x);
    assert multiset(s)[x] <= 1;
    forall y | y in RemoveFirst(s, x) ensures y in s && y != x {
      assert y in multiset(RemoveFirst(s, x));
    }
  }

  /** A side re-sorted after gaining the fresh handle `|arena|` of an order
      of that side is still a proper side. */
  lemma SideOkAdd(arena: seq<Order>, own: seq<nat>, side: Side, o: Order, own': seq<nat>)
    requires SideOk(arena, own, side) && o.side == side
    requires multiset(own') == multiset(own + [|arena|])
    requires InArena(arena + [o], own') && SortedBy(arena + [o], own', side)
    ensures SideOk(arena + [o], own', side)
  {
    var a := arena + [o];
    forall i | 0 <= i < |own'| ensures a[own'[i]].side == side {
      assert own'[i] in multiset(own');
      if own'[i] != |arena| {
        assert own'[i] in multiset(own);
        var j :| 0 <= j < |own| && own[j] == own'[i];
      }
    }
  }

  /** Indexing an order under the fresh handle `|arena|` keeps the index
      accurate. */
  lemma IndexOkGrow(arena: seq<Order>, index: seq<(string, nat)>, o: Order)
    requires IndexOk(arena, index)
    ensures IndexOk(arena + [o], index + [(o.id, |arena|)])
  {
    var a := arena + [o];
    var index' := index + [(o.id, |arena|)];
    forall k | 0 <= k < |index'| ensures index'[k].1 < |a| && a[index'[k].1].id == index'[k].0 {
      if k < |index| {
        assert index'[k] == index[k];
      }
    }
  }

  /** Indexing an order under the fresh handle `|arena|` keeps the index
      accurate and free of duplicate handles. */
  lemma IndexOkAdd(arena: seq<Order>, index: seq<(string, nat)>, o: Order)
    requires IndexOk(arena, index) && Distinct(Seconds(index))
    ensures IndexOk(arena + [o], index + [(o.id, |arena|)])
    ensures Distinct<nat>(Seconds<string, nat>(index + [(o.id, |arena|)]))
    ensures Seconds<string, nat>(index + [(o.id, |arena|)]) == Seconds(index) + [|arena|]
  {
    IndexOkGrow(arena, index, o);
    var h: nat := |arena|;
    SecondsAppend(index, (o.id, h));
    var ids := Seconds(index);
    forall j | 0 <= j < |ids| ensures ids[j] != h {
      assert index[j].1 < |arena|;
    }
    assert h !in ids;
    DistinctAppend(ids, h);
  }

  /** A side that gains a handle, and an index that gains the same handle,
      still cover each other. */
  lemma CoverAdd(own: seq<nat>, own': seq<nat>, opp: seq<nat>, ids: seq<nat>, h: nat, ids': seq<nat>)
    requires multiset(own) + multiset(opp) <= multiset(ids)
    requires multiset(own') == multiset(own + [h]) && ids' == ids + [h]
    ensures multiset(own') + multiset(opp) <= multiset(ids')
  {
    assert multiset(ids + [h]) == multiset(ids) + multiset([h]);
    assert multiset(own') == multiset(own) + multiset([h]);
  }

  /** Resting a new order under the fresh handle `|arena|`, with its side
      re-sorted into `own'`, keeps the invariant. */
  lemma AddHandle(arena: seq<Order>, own: seq<nat>, opp: seq<nat>, index: seq<(string, nat)>,
                                     side: Side, o: Order, own': seq<nat>)
    requires InvSides(arena, own, opp, index, side) && WellFormed(o) && o.side == side
    requires multiset(own') == multiset(own + [|arena|])
    requires InArena(arena + [o], own') && SortedBy(arena + [o], own', side)
    ensures InvSides(arena + [o], own', opp, index + [(o.id, |arena|)], side)
  {
    SideOkAdd(arena, own, side, o, own');
    SideOkGrow(arena, opp, Opposite(side), o);
    IndexOkAdd(arena, index, o);
    WellFormedAdd(arena, o);
    var h: nat := |arena|;
    CoverAdd(own, own', opp, Seconds(index), h, Seconds(index + [(o.id, h)]));
  }

  /** Appending a well-formed order keeps the arena well formed. */
  lemma WellFormedAdd(arena: seq<Order>, o: Order)
    requires AllWellFormed(arena) && WellFormed(o)
    ensures AllWellFormed(arena + [o])
  {
    var a := arena + [o];
    forall x | 0 <= x < |a| ensures WellFormed(a[x]) {
      if x < |arena| {
        assert a[x] == arena[x];
      }
    }
  }

  /** The state after cancelling the order of the index entry at `k`: the
      order is marked Cancelled, its handle leaves its side and the entry
      leaves the index. */
  ghost predicate CancelStep(arena: seq<Order>, bids: seq<nat>, asks: seq<nat>, index: seq<(string, nat)>, k: nat,
                             arena': seq<Order>, bids': seq<nat>, asks': seq<nat>, index': seq<(string, nat)>)
  {
    && k < |index| && index[k].1 < |arena|
    && var h := index[k].1;
    && var side := arena[h].side;
    && arena' == arena[h := arena[h].(status := Cancelled)]
    && bids' == (if side == Buy then RemoveFirst(bids, h) else bids)
    && asks' == (if side == Sell then RemoveFirst(asks, h) else asks)
    && index' == RemoveAt(index, k)
  }

  /** Cancelling keeps the invariant. */
  lemma CancelKeepsInv(arena: seq<Order>, bids: seq<nat>, asks: seq<nat>, index: seq<(string, nat)>, k: nat,
                                          arena': seq<Order>, bids': seq<nat>, asks': seq<nat>, index': seq<(string, nat)>)
    requires Inv(arena, bids, asks, index)
    requires CancelStep(arena, bids, asks, index, k, arena', bids', asks', index')
    ensures Inv(arena', bids', asks', index')
  {
    var h := index[k].1;
    var side := arena[h].side;
    var o := arena[h].(status := Cancelled);
    var own := if side == Buy then bids else asks;
    var opp := if side == Buy then asks else bids;
    InvForSide(arena, bids, asks, index, side);
    SidesDistinct(arena, own, opp, index, side);
    RemoveHandle(arena, own, opp, index, side, k);
    RemoveFirstDistinct(own, h);
    UpdateOrder(arena, RemoveFirst(own, h), opp, RemoveAt(index, k), side, h, o);
    if side == Sell {
      InvSidesSwap(arena[h := o], RemoveFirst(own, h), opp, RemoveAt(index, k), Sell);
    }
  }

  /** Cancelling keeps both sides resting: the cancelled order leaves its side. */
  lemma CancelKeepsResting(arena: seq<Order>, bids: seq<nat>, asks: seq<nat>, index: seq<(string, nat)>, k: nat,
                                              arena': seq<Order>, bids': seq<nat>, asks': seq<nat>, index': seq<(string, nat)>)
    requires Inv(arena, bids, asks, index)
    requires CancelStep(arena, bids, asks, index, k, arena', bids', asks', index')
    requires AllResting(arena, bids) && AllResting(arena, asks)
    ensures InArena(arena', bids') && InArena(arena', asks')
    ensures AllResting(arena', bids') && AllResting(arena', asks')
  {
    var h := index[k].1;
    var side := arena[h].side;
    var own := if side == Buy then bids else asks;
    var opp := if side == Buy then asks else bids;
    assert Distinct(own) && h !in opp by {
      InvForSide(arena, bids, asks, index, side);
      SidesDistinct(arena, own, opp, index, side);
      RemoveHandle(arena, own, opp, index, side, k);
    }
    CancelLeavesSide(arena, own, h, arena');
    CancelSparesSide(arena, opp, h, arena');
  }

  /** Cancelling order `h` and taking it off a side that holds it once
      leaves that side resting. */
  lemma CancelLeavesSide(arena: seq<Order>, s: seq<nat>, h: nat, arena': seq<Order>)
    requires InArena(arena, s) && AllResting(arena, s) && Distinct(s)
    requires h < |arena| && arena' == arena[h := arena[h].(status := Cancelled)]
    ensures InArena(arena', RemoveFirst(s, h)) && AllResting(arena', RemoveFirst(s, h))
  {
    RemoveFirstDistinct(s, h);
    var s' := RemoveFirst(s, h);
    forall i | 0 <= i < |s'| ensures s'[i] < |arena'| && Resting(arena'[s'[i]]) {
      var y := s'[i];
      assert y in s' && y in s && y != h;
      var j :| 0 <= j < |s| && s[j] == y;
    }
  }

  /** Cancelling order `h` leaves a side without it resting. */
  lemma CancelSparesSide(arena: seq<Order>, s: seq<nat>, h: nat, arena': seq<Order>)
    requires InArena(arena, s) && AllResting(arena, s) && h !in s
    requires h < |arena| && arena' == arena[h := arena[h].(status := Cancelled)]
    ensures InArena(arena', s) && AllResting(arena', s)
  {
    forall i | 0 <= i < |s| ensures s[i] < |arena'| && Resting(arena'[s[i]]) {
      assert s[i] != h;
    }
  }

  /** The effect of cancel_order on the state (arena, bids, asks, index),
      giving (arena', bids', asks', index'): with no index entry for `id`,
      nothing changes and the answer is false; otherwise the order of the
      oldest entry for `id` is marked Cancelled, taken off its side and that
      entry leaves the index, and the answer is true. */
  ghost predicate CancelResult(arena: seq<Order>, bids: seq<nat>, asks: seq<nat>, index: seq<(string, nat)>,
                               id: string, ok: bool,
                               arena': seq<Order>, bids': seq<nat>, asks': seq<nat>, index': seq<(string, nat)>)
  {
    && ok == (id in Firsts(index))
    && (!ok ==> arena' == arena && bids' == bids && asks' == asks && index' == index)
    && (ok ==>
          var k := IndexOf(Firsts(index), id);
          var h := index[k].1;
          && h < |arena|
          && var side := arena[h].side;
          && arena' == arena[h := arena[h].(status := Cancelled)]
          && index' == RemoveAt(index, k)
          && (if side == Buy then bids' else asks') == RemoveFirst(if side == Buy then bids else asks, h)
          && (if side == Buy then asks' else bids') == (if side == Buy then asks else bids))
    && multiset(Firsts(index'))[id] == multiset(Firsts(index))[id] - (if ok then 1 else 0)
  }

  /** A cancel step at the oldest index entry for `id` is the effect
      cancel_order promises. */
  lemma CancelStepResult(arena: seq<Order>, bids: seq<nat>, asks: seq<nat>, index: seq<(string, nat)>,
                                            id: string, k: nat,
                                            arena': seq<Order>, bids': seq<nat>, asks': seq<nat>, index': seq<(string, nat)>)
    requires k < |index| && k == IndexOf(Firsts(index), id)
    requires CancelStep(arena, bids, asks, index, k, arena', bids', asks', index')
    ensures CancelResult(arena, bids, asks, index, id, true, arena', bids', asks', index')
  {
    var h := index[k].1;
    var side := arena[h].side;
    assert Firsts(index)[k] == id;
    CountAfterRemoveAt(index, k, id);
    assert multiset(Firsts(index'))[id] == multiset(Firsts(index))[id] - 1;
    assert (if side == Buy then bids' else asks') == RemoveFirst(if side == Buy then bids else asks, h);
    assert (if side == Buy then asks' else bids') == (if side == Buy then asks else bids);
    assert true == (id in Firsts(index));
    assert k == IndexOf(Firsts(index), id) && h == index[k].1 && h < |arena|;
    assert arena' == arena[h := arena[h].(status := Cancelled)];
    assert index' == RemoveAt(index, k);
  }

  /** Cancelling the order of the oldest index entry for `id` is the effect
      cancel_order promises, keeps the invariant, and keeps both sides
      resting. */
  lemma CancelCorrect(arena: seq<Order>, bids: seq<nat>, asks: seq<nat>, index: seq<(string, nat)>,
                                         id: string, k: nat,
                                         arena': seq<Order>, bids': seq<nat>, asks': seq<nat>, index': seq<(string, nat)>)
    requires Inv(arena, bids, asks, index)
    requires k < |index| && k == IndexOf(Firsts(index), id)
    requires CancelStep(arena, bids, asks, index, k, arena', bids', asks', index')
    ensures Inv(arena', bids', asks', index')
    ensures CancelResult(arena, bids, asks, index, id, true, arena', bids', asks', index')
    ensures AllResting(arena, bids) && AllResting(arena, asks) ==>
      InArena(arena', bids') && InArena(arena', asks') && AllResting(arena', bids') && AllResting(arena', asks')
    ensures Indexed(bids, asks, index) ==> Indexed(bids', asks', index')
  {
    CancelStepResult(arena, bids, asks, index, id, k, arena', bids', asks', index');
    CancelKeepsInv(arena, bids, asks, index, k, arena', bids', asks', index');
    if AllResting(arena, bids) && AllResting(arena, asks) {
      CancelKeepsResting(arena, bids, asks, index, k, arena', bids', asks', index');
    }
    if Indexed(bids, asks, index) {
      CancelKeepsIndexed(arena, bids, asks, index, k, arena', bids', asks', index');
    }
  }

  /** Adding an order under the fresh handle `|arena|`, with its side
      re-sorted and the other side untouched, keeps the invariant, keeps the
      index exact, and keeps both sides resting when the order rests. */
  lemma AddCorrect(arena: seq<Order>, bids: seq<nat>, asks: seq<nat>, index: seq<(string, nat)>,
                   o: Order, bids': seq<nat>, asks': seq<nat>)
    requires Inv(arena, bids, asks, index) && WellFormed(o)
    requires o.side == Buy ==> && multiset(bids') == multiset(bids + [|arena|]) && asks' == asks
                               && InArena(arena + [o], bids') && SortedBy(arena + [o], bids', Buy)
    requires o.side == Sell ==> && multiset(asks') == multiset(asks + [|arena|]) && bids' == bids
                                && InArena(arena + [o], asks') && SortedBy(arena + [o], asks', Sell)
    ensures Inv(arena + [o], bids', asks', index + [(o.id, |arena|)])
    ensures Indexed(bids, asks, index) ==> Indexed(bids', asks', index + [(o.id, |arena|)])
    ensures AllResting(arena, bids) && AllResting(arena, asks) && Resting(o) ==>
      && InArena(arena + [o], bids') && AllResting(arena + [o], bids')
      && InArena(arena + [o], asks') && AllResting(arena + [o], asks')
  {
    if o.side == Buy {
      AddHandle(arena, bids, asks, index, Buy, o, bids');
    } else {
      InvSidesSwap(arena, bids, asks, index, Buy);
      AddHandle(arena, asks, bids, index, Sell, o, asks');
      InvSidesSwap(arena + [o], asks', bids', index + [(o.id, |arena|)], Sell);
    }
    if Indexed(bids, asks, index) {
      AddKeepsIndexed(bids, asks, index, o.side, o.id, |arena|, bids', asks');
    }
    if AllResting(arena, bids) && AllResting(arena, asks) && Resting(o) {
      AddKeepsResting(arena, bids, o, bids');
      AddKeepsResting(arena, asks, o, asks');
    }
  }

  /** A side that gains the resting order under the fresh handle `|arena|`
      (or nothing) still holds only resting orders. */
  lemma AddKeepsResting(arena: seq<Order>, s: seq<nat>, o: Order, s': seq<nat>)
    requires InArena(arena, s) && AllResting(arena, s) && Resting(o)
    requires multiset(s') == multiset(s + [|arena|]) || s' == s
    ensures InArena(arena + [o], s') && AllResting(arena + [o], s')
  {
    forall i | 0 <= i < |s'| ensures s'[i] < |arena| + 1 && Resting((arena + [o])[s'[i]]) {
      var x := s'[i];
      if x != |arena| {
        assert x in multiset(s');
        assert x in multiset(s);
        var j :| 0 <= j < |s| && s[j] == x;
      }
    }
  }

  /** Cancelling keeps the index exact: the cancelled order was on its own
      side, and it leaves that side and the index together. */
  lemma CancelKeepsIndexed(arena: seq<Order>, bids: seq<nat>, asks: seq<nat>, index: seq<(string, nat)>, k: nat,
                                              arena': seq<Order>, bids': seq<nat>, asks': seq<nat>, index': seq<(string, nat)>)
    requires Inv(arena, bids, asks, index) && Indexed(bids, asks, index)
    requires CancelStep(arena, bids, asks, index, k, arena', bids', asks', index')
    ensures Indexed(bids', asks', index')
  {
    var h := index[k].1;
    assert index' == RemoveAt(index, k);
    IndexRemoveAt(arena, index, k);
    assert Seconds(index)[k] == h;
    assert h in multiset(bids) + multiset(asks);
    var ids' := multiset(Seconds(index'));
    assert ids' == (multiset(bids) + multiset(asks)) - multiset{h};
    if arena[h].side == Buy {
      assert h !in asks;
      assert bids' == RemoveFirst(bids, h) && asks' == asks;
      RemoveFirstMultiset(bids, h);
      MinusFromLeft(multiset(bids), multiset(asks), h);
      assert ids' == multiset(bids') + multiset(asks');
    } else {
      assert h !in bids;
      assert asks' == RemoveFirst(asks, h) && bids' == bids;
      RemoveFirstMultiset(asks, h);
      MinusFromRight(multiset(bids), multiset(asks), h);
      assert ids' == multiset(bids') + multiset(asks');
    }
  }

  /** Resting a new order under the handle `h` keeps the index exact: the
      order joins its side and the index together. */
  lemma AddKeepsIndexed(bids: seq<nat>, asks: seq<nat>, index: seq<(string, nat)>, side: Side, id: string,
                                           h: nat, bids': seq<nat>, asks': seq<nat>)
    requires Indexed(bids, asks, index)
    requires side == Buy ==> multiset(bids') == multiset(bids + [h]) && asks' == asks
    requires side == Sell ==> multiset(asks') == multiset(asks + [h]) && bids' == bids
    ensures Indexed(bids', asks', index + [(id, h)])
  {
    SecondsAppend(index, (id, h));
    assert multiset(Seconds(index) + [h]) == multiset(Seconds(index)) + multiset{h};
    if side == Buy {
      assert multiset(bids + [h]) == multiset(bids) + multiset{h};
    } else {
      assert multiset(asks + [h]) == multiset(asks) + multiset{h};
    }
  }

  /** `order_map_.insert` on the `std::unordered_map` that order_book.hpp
      declares: an id already present keeps its entry and the new one is not
      stored. This is the compiled behaviour; the rest of the model keeps the
      multimap that add_order's comment intends (AddKeepsIndexed). */
  function MapInsert(index: seq<(string, nat)>, id: string, h: nat): (r: seq<(string, nat)>)
    ensures id in Firsts(index) ==> r == index
    ensures id !in Firsts(index) ==> Firsts(r) == Firsts(index) + [id] && Seconds(r) == Seconds(index) + [h]
  {
    FirstsAppend(index, (id, h));
    SecondsAppend(index, (id, h));
    if id in Firsts(index) then index else index + [(id, h)]
  }

  /** With the map as declared, adding a second order with an id already in
      the book puts it on its side but not in the index: the index no longer
      holds exactly the side orders, and no cancel can ever find the new
      order's handle. */
  lemma MapInsertLosesDuplicate(bids: seq<nat>, asks: seq<nat>, index: seq<(string, nat)>, side: Side,
                                id: string, h: nat, bids': seq<nat>, asks': seq<nat>)
    requires Indexed(bids, asks, index)
    requires id in Firsts(index) && h !in Seconds(index)
    requires side == Buy ==> multiset(bids') == multiset(bids + [h]) && asks' == asks
    requires side == Sell ==> multiset(asks') == multiset(asks + [h]) && bids' == bids
    ensures h !in Seconds(MapInsert(index, id, h))
    ensures h in bids' + asks'
    ensures !Indexed(bids', asks', MapInsert(index, id, h))
  {
    var r := MapInsert(index, id, h);
    assert multiset(bids') + multiset(asks') == multiset(Seconds(index)) + multiset{h} by {
      if side == Buy {
        assert multiset(bids + [h]) == multiset(bids) + multiset{h};
      } else {
        assert multiset(asks + [h]) == multiset(asks) + multiset{h};
      }
    }
    assert h in multiset(bids') + multiset(asks');
    assert multiset(bids' + asks') == multiset(bids') + multiset(asks');
  }

  /** "Not before" is transitive: the sort keys are a total preorder. */
  lemma NotBeforeTransitive(side: Side, a: Order, b: Order, c: Order)
    requires !SortBefore(side, a, b) && !SortBefore(side, b, c)
    ensures !SortBefore(side, a, c)
  {
  }

  /** Inserting `x` after every order that goes before or with it, and before
      every order it goes before, keeps a side sorted. */
  lemma InsertSorted(arena: seq<Order>, r: seq<nat>, j: nat, x: nat, side: Side)
    requires InArena(arena, r) && SortedBy(arena, r, side) && x < |arena| && j <= |r|
    requires j > 0 ==> !SortBefore(side, arena[x], arena[r[j - 1]])
    requires forall k :: j <= k < |r| ==> SortBefore(side, arena[x], arena[r[k]])
    ensures InArena(arena, r[..j] + [x] + r[j..])
    ensures SortedBy(arena, r[..j] + [x] + r[j..], side)
  {
    var t := r[..j] + [x] + r[j..];
    assert forall a :: 0 <= a < |t| ==> t[a] == if a < j then r[a] else if a == j then x else r[a - 1];
    forall a, b | 0 <= a < b < |t| ensures !SortBefore(side, arena[t[b]], arena[t[a]]) {
      if b == j && a < j - 1 {
        NotBeforeTransitive(side, arena[x], arena[r[j - 1]], arena[r[a]]);
      } else if a == j {
        SortBeforeIsStrictWeakOrder(side, arena[x], arena[r[b - 1]], arena[x]);
      }
    }
  }

  /** The re-sort of sort_buy_orders and sort_sell_orders (a std::sort by the
      side's price-time key), as an insertion sort over handles. std::sort is
      not stable, so only the order of equal keys may differ from it. */
  method SortHandles(arena: seq<Order>, s: seq<nat>, side: Side) returns (r: seq<nat>)
    requires InArena(arena, s)
    ensures multiset(r) == multiset(s)
    ensures InArena(arena, r) && SortedBy(arena, r, side)
  {
    r := [];
    var i := 0;
    while i < |s|
      invariant i <= |s|
      invariant InArena(arena, r) && SortedBy(arena, r, side)
      invariant multiset(r) == multiset(s[..i])
    {
      var x := s[i];
      var j := |r|;
      while j > 0 && SortBefore(side, arena[x], arena[r[j - 1]])
        invariant 0 <= j <= |r|
        invariant forall k :: j <= k < |r| ==> SortBefore(side, arena[x], arena[r[k]])
      {
        j := j - 1;
      }
      InsertSorted(arena, r, j, x, side);
      assert s[..i + 1] == s[..i] + [x];
      assert r == r[..j] + r[j..];
      r := r[..j] + [x] + r[j..];
      i := i + 1;
    }
    assert s[..i] == s;
  }

  /** What one order adds to the depth at `price`. */
  function VolumeOf(o: Order, price: int): nat
    requires WellFormed(o)
  {
    if o.price == price then RemainingSize(o) else 0
  }

  /** The depth of a side at exactly `price`: the remaining sizes of its
      orders at that price, summed in side order. */
  function Volume(arena: seq<Order>, s: seq<nat>, price: int): nat
    requires AllWellFormed(arena) && InArena(arena, s)
  {
    if s == [] then 0
    else Volume(arena, s[..|s| - 1], price) + VolumeOf(arena[s[|s| - 1]], price)
  }

  lemma {:induction false} VolumeConcat(arena: seq<Order>, a: seq<nat>, b: seq<nat>, price: int)
    requires AllWellFormed(arena) && InArena(arena, a) && InArena(arena, b)
    ensures InArena(arena, a + b)
    ensures Volume(arena, a + b, price) == Volume(arena, a, price) + Volume(arena, b, price)
    decreases |b|
  {
    if b == [] {
      assert a + b == a;
    } else {
      var b' := b[..|b| - 1];
      assert (a + b)[..|a + b| - 1] == a + b';
      VolumeConcat(arena, a, b', price);
    }
  }

  /** A rearrangement of handles into the arena stays in the arena. */
  lemma InArenaPerm(arena: seq<Order>, s: seq<nat>, t: seq<nat>)
    requires InArena(arena, s) && multiset(s) == multiset(t)
    ensures InArena(arena, t)
  {
    forall i | 0 <= i < |t| ensures t[i] < |arena| {
      assert t[i] in multiset(s);
      var j :| 0 <= j < |s| && s[j] == t[i];
    }
  }

  /** Taking one order out of a side lowers its depth by that order's share. */
  lemma VolumeRemoveAt(arena: seq<Order>, t: seq<nat>, k: nat, price: int)
    requires AllWellFormed(arena) && InArena(arena, t) && k < |t|
    ensures InArena(arena, RemoveAt(t, k))
    ensures Volume(arena, t, price) == Volume(arena, RemoveAt(t, k), price) + VolumeOf(arena[t[k]], price)
  {
    var x := t[k];
    assert t == t[..k] + [x] + t[k + 1..];
    assert [x][..0] == [];
    VolumeConcat(arena, t[..k] + [x], t[k + 1..], price);
    VolumeConcat(arena, t[..k], [x], price);
    VolumeConcat(arena, t[..k], t[k + 1..], price);
  }

  /** The depth does not depend on the order of the side. */
  lemma {:induction false} VolumePerm(arena: seq<Order>, s: seq<nat>, t: seq<nat>, price: int)
    requires AllWellFormed(arena) && InArena(arena, s) && multiset(s) == multiset(t)
    ensures InArena(arena, t) && Volume(arena, s, price) == Volume(arena, t, price)
    decreases |s|
  {
    InArenaPerm(arena, s, t);
    if s != [] {
      var x := s[|s| - 1];
      var s' := s[..|s| - 1];
      assert s == s' + [x];
      assert x in multiset(t);
      var k := IndexOf(t, x);
      var t' := RemoveAt(t, k);
      RemoveAtMultiset(t, k);
      assert multiset(s') == multiset(t');
      VolumePerm(arena, s', t', price);
      VolumeRemoveAt(arena, t, k, price);
    }
  }

  /** Appending an order to the arena leaves the depth of an existing side alone. */
  lemma {:induction false} VolumeGrow(arena: seq<Order>, s: seq<nat>, o: Order, price: int)
    requires AllWellFormed(arena) && InArena(arena, s) && WellFormed(o)
    ensures AllWellFormed(arena + [o]) && InArena(arena + [o], s)
    ensures Volume(arena + [o], s, price) == Volume(arena, s, price)
    decreases |s|
  {
    if s != [] {
      VolumeGrow(arena, s[..|s| - 1], o, price);
    }
  }

  /** Resting one more order raises the depth at its own price by its
      remaining size and leaves every other price's depth alone, whatever
      order the re-sort leaves the side in. */
  lemma VolumeAfterAdd(arena: seq<Order>, s: seq<nat>, o: Order, s': seq<nat>, price: int)
    requires AllWellFormed(arena) && WellFormed(o) && InArena(arena, s)
    requires multiset(s') == multiset(s + [|arena|])
    ensures AllWellFormed(arena + [o]) && InArena(arena + [o], s')
    ensures Volume(arena + [o], s', price) == Volume(arena, s, price) + VolumeOf(o, price)
  {
    var a := arena + [o];
    VolumeGrow(arena, s, o, price);
    var t := s + [|arena|];
    assert t[..|t| - 1] == s;
    assert multiset(t) == multiset(s');
    VolumePerm(a, t, s', price);
  }

  /** The survivors of remove_filled_orders: the orders of `s` that are
      neither filled nor cancelled, in their order on `s`. */
  function KeepResting(arena: seq<Order>, s: seq<nat>): (r: seq<nat>)
    requires InArena(arena, s)
    ensures |r| <= |s|
  {
    if s == [] then []
    else KeepResting(arena, s[..|s| - 1]) + (if Resting(arena[s[|s| - 1]]) then [s[|s| - 1]] else [])
  }

  /** Every survivor is a resting order of the side. */
  lemma {:induction false} KeepRestingIn(arena: seq<Order>, s: seq<nat>)
    requires InArena(arena, s)
    ensures forall i :: 0 <= i < |KeepResting(arena, s)| ==>
      && KeepResting(arena, s)[i] in s
      && KeepResting(arena, s)[i] < |arena|
      && Resting(arena[KeepResting(arena, s)[i]])
    decreases |s|
  {
    if s != [] {
      var s' := s[..|s| - 1];
      KeepRestingIn(arena, s');
      var r := KeepResting(arena, s);
      var r' := KeepResting(arena, s');
      var x := s[|s| - 1];
      assert s == s' + [x];
      assert r == r' + (if Resting(arena[x]) then [x] else []);
      forall i | 0 <= i < |r| ensures r[i] in s && r[i] < |arena| && Resting(arena[r[i]]) {
        if i < |r'| {
          assert r[i] == r'[i];
          assert r'[i] in s';
        } else {
          assert r[i] == x;
        }
      }
    }
  }

  /** The survivors are exactly the resting orders of the side, each kept as
      often as it occurs on the side. */
  lemma {:induction false} KeepRestingCount(arena: seq<Order>, s: seq<nat>)
    requires InArena(arena, s)
    ensures forall x :: multiset(KeepResting(arena, s))[x] == if x in s && Resting(arena[x]) then multiset(s)[x] else 0
    decreases |s|
  {
    if s != [] {
      var s' := s[..|s| - 1];
      var x := s[|s| - 1];
      var r := KeepResting(arena, s);
      assert s == s' + [x];
      KeepRestingCount(arena, s');
      forall y ensures multiset(r)[y] == if y in s && Resting(arena[y]) then multiset(s)[y] else 0 {
        if y in s && y !in s' {
          assert y == x;
        }
      }
    }
  }

  /** Filtering a side of resting orders keeps all of it. */
  lemma {:induction false} KeepRestingAll(arena: seq<Order>, s: seq<nat>)
    requires InArena(arena, s) && AllResting(arena, s)
    ensures KeepResting(arena, s) == s
    decreases |s|
  {
    if s != [] {
      var s' := s[..|s| - 1];
      assert AllResting(arena, s') by {
        forall i | 0 <= i < |s'| ensures Resting(arena[s'[i]]) {
          assert s'[i] == s[i];
        }
      }
      KeepRestingAll(arena, s');
      assert s == s' + [s[|s| - 1]];
    }
  }

  /** Filtering takes a sub-multiset of the side. */
  lemma KeepRestingSub(arena: seq<Order>, s: seq<nat>)
    requires InArena(arena, s)
    ensures multiset(KeepResting(arena, s)) <= multiset(s)
  {
    KeepRestingCount(arena, s);
    var r := KeepResting(arena, s);
    forall x ensures multiset(r)[x] <= multiset(s)[x] {
    }
  }

  /** Filtering a side keeps it in priority order. */
  lemma {:induction false} KeepRestingSorted(arena: seq<Order>, s: seq<nat>, side: Side)
    requires SideOk(arena, s, side)
    ensures SideOk(arena, KeepResting(arena, s), side)
    decreases |s|
  {
    if s != [] {
      var s' := s[..|s| - 1];
      var x := s[|s| - 1];
      var r' := KeepResting(arena, s');
      var r := KeepResting(arena, s);
      assert SideOk(arena, s', side);
      KeepRestingSorted(arena, s', side);
      KeepRestingIn(arena, s');
      if Resting(arena[x]) {
        assert r == r' + [x];
        forall a, b | 0 <= a < b < |r| ensures !SortBefore(side, arena[r[b]], arena[r[a]]) {
          if b == |r'| {
            assert r'[a] in s';
            var j :| 0 <= j < |s'| && s'[j] == r'[a];
            assert s[j] == r'[a];
          }
        }
      }
    }
  }

  /** The orders the handles of `s` address, in the order of `s`. */
  function OrdersOf(arena: seq<Order>, s: seq<nat>): (r: seq<Order>)
    requires InArena(arena, s)
    ensures |r| == |s| && forall i :: 0 <= i < |s| ==> r[i] == arena[s[i]]
  {
    seq(|s|, i requires 0 <= i < |s| => arena[s[i]])
  }

  /** The front of a side in priority order has the best price on it. */
  lemma SortedFront(arena: seq<Order>, s: seq<nat>, side: Side)
    requires InArena(arena, s) && SortedBy(arena, s, side) && s != []
    ensures side == Buy ==> forall i :: 0 <= i < |s| ==> arena[s[i]].price <= arena[s[0]].price
    ensures side == Sell ==> forall i :: 0 <= i < |s| ==> arena[s[0]].price <= arena[s[i]].price
  {
    forall i | 0 < i < |s| ensures !SortBefore(side, arena[s[i]], arena[s[0]]) {
    }
  }

  /** The orders of a side in priority order are in the order of that side's comparator. */
  lemma OrdersOfSorted(arena: seq<Order>, s: seq<nat>, side: Side)
    requires InArena(arena, s) && SortedBy(arena, s, side)
    ensures side == Buy ==> forall i, j :: 0 <= i < j < |s| ==> !BuySortBefore(OrdersOf(arena, s)[j], OrdersOf(arena, s)[i])
    ensures side == Sell ==> forall i, j :: 0 <= i < j < |s| ==> !SellSortBefore(OrdersOf(arena, s)[j], OrdersOf(arena, s)[i])
  {
    var r := OrdersOf(arena, s);
    forall i, j | 0 <= i < j < |s| ensures !SortBefore(side, r[j], r[i]) {
      assert !SortBefore(side, arena[s[j]], arena[s[i]]);
    }
  }

  /** Replacing both sides by sorted sub-multisets of themselves keeps the invariant. */
  lemma ShrinkSides(arena: seq<Order>, bids: seq<nat>, asks: seq<nat>, index: seq<(string, nat)>,
                                       bids': seq<nat>, asks': seq<nat>)
    requires Inv(arena, bids, asks, index)
    requires SideOk(arena, bids', Buy) && SideOk(arena, asks', Sell)
    requires multiset(bids') <= multiset(bids) && multiset(asks') <= multiset(asks)
    ensures Inv(arena, bids', asks', index)
  {
    assert multiset(bids') + multiset(asks') <= multiset(bids) + multiset(asks);
  }

  /** The loop of match_order, on the arena, the side `opposite` faces and
      the index: it computes exactly the outcome of Match and keeps the
      invariant. */
  method MatchLoop(arena: seq<Order>, own: seq<nat>, opposite: seq<nat>, index: seq<(string, nat)>,
                   side: Side, order: Order, now: nat)
    returns (trades: seq<Trade>, incoming: Order, a: seq<Order>, opp: seq<nat>, ix: seq<(string, nat)>)
    requires InvSides(arena, own, opposite, index, side) && WellFormed(order)
    ensures InvSides(a, own, opp, ix, side)
    ensures Outcome(a, opp, ix, incoming, trades) == Match(arena, opposite, index, order, now)
  {
    ghost var r := Match(arena, opposite, index, order, now);
    a, opp, ix := arena, opposite, index;
    trades := [];
    incoming := order;
    while opp != [] && !IsFilled(incoming)
      invariant InvSides(a, own, opp, ix, side)
      invariant WellFormed(incoming)
      invariant Prepend(trades, Match(a, opp, ix, incoming, now)) == r
      decreases |opp| + (if IsFilled(incoming) then 0 else 1)
    {
      var h := opp[0];
      var resting := a[h];
      if !Eligible(incoming, resting) {
        break;
      }
      var q := Min(RemainingSize(incoming), RemainingSize(resting));
      var t := MakeTrade(incoming, resting, q, now);
      ghost var a0, opp0, ix0, in0 := a, opp, ix, incoming;
      incoming := Fill(incoming, q);
      a := a[h := Fill(resting, q)];
      if IsFilled(a[h]) {
        var k := Find(ix, (resting.id, h));
        if k < |ix| {
          ix := RemoveAt(ix, k);
        }
        opp := opp[1..];
      }
      MatchRound(a0, own, opp0, ix0, side, in0, now, q, t, a, opp, ix, incoming);
      PrependTwice(trades, [t], Match(a, opp, ix, incoming, now));
      trades := trades + [t];
    }
    assert trades + [] == trades;
  }

  /** match_order on a whole book state: the loop of Match on the side
      opposite `order`, the order's own side untouched. */
  method MatchBook(arena: seq<Order>, bids: seq<nat>, asks: seq<nat>, index: seq<(string, nat)>,
                   order: Order, now: nat)
    returns (trades: seq<Trade>, incoming: Order, arena': seq<Order>, bids': seq<nat>, asks': seq<nat>,
             index': seq<(string, nat)>)
    requires Inv(arena, bids, asks, index) && WellFormed(order)
    ensures Inv(arena', bids', asks', index')
    ensures var r := Match(arena, if order.side == Buy then asks else bids, index, order, now);
      && trades == r.trades && incoming == r.incoming
      && arena' == r.arena && index' == r.index
      && (if order.side == Buy then asks' == r.opposite && bids' == bids else bids' == r.opposite && asks' == asks)
    ensures WellFormed(incoming) && (order.status != Cancelled ==> incoming.status != Cancelled)
    ensures AllResting(arena, bids) && AllResting(arena, asks) ==>
      && AllResting(arena', bids') && AllResting(arena', asks')
      && forall t :: t in trades ==> t.size > 0
    ensures Indexed(bids, asks, index) ==> Indexed(bids', asks', index')
  {
    var side := order.side;
    var own := if side == Buy then bids else asks;
    var opposite := if side == Buy then asks else bids;
    InvForSide(arena, bids, asks, index, side);
    ghost var r := Match(arena, opposite, index, order, now);
    trades, incoming, arena', opposite, index' := MatchLoop(arena, own, opposite, index, side, order, now);
    MatchIdentity(arena, if side == Buy then asks else bids, index, order, now);
    if side == Buy {
      bids', asks' := bids, opposite;
    } else {
      bids', asks' := opposite, asks;
    }
    InvFromSide(arena', bids', asks', index', own, opposite, side);
    if AllResting(arena, bids) && AllResting(arena, asks) {
      MatchKeepsLive(arena, bids, asks, index, order, now, r);
    }
    if Indexed(bids, asks, index) {
      ghost var opp0 := if side == Buy then asks else bids;
      assert multiset(Seconds(index)) == multiset(own) + multiset(opp0);
      MatchKeepsIndexed(arena, own, opp0, index, side, order, now);
    }
  }

  /** The book of one symbol. `arena` holds every order the book has seen,
      addressed by handle; `bids` and `asks` hold the handles of the resting
      orders in priority order; `index` is the id index, a multimap kept in
      insertion order. */
  class OrderBook {
    const symbol: string
    var arena: seq<Order>
    var bids: seq<nat>
    var asks: seq<nat>
    var index: seq<(string, nat)>

    ghost predicate Valid()
      reads this
    {
      Inv(arena, bids, asks, index)
    }

    /** No filled or cancelled order rests on either side, and the index
        holds exactly the orders on the sides. */
    ghost predicate Live()
      reads this
      requires Valid()
    {
      AllResting(arena, bids) && AllResting(arena, asks) && Indexed(bids, asks, index)
    }

    /** The whole state of the book, for saying that it did not change. */
    ghost function State(): (seq<Order>, seq<nat>, seq<nat>, seq<(string, nat)>)
      reads this
    {
      (arena, bids, asks, index)
    }

    /** The side that holds orders of `side`. */
    function SideOf(side: Side): seq<nat>
      reads this
    {
      if side == Buy then bids else asks
    }

    constructor(symbol: string)
      ensures Valid() && Live()
      ensures this.symbol == symbol && arena == [] && bids == [] && asks == [] && index == []
    {
      this.symbol := symbol;
      arena := [];
      bids := [];
      asks := [];
      index := [];
    }

    method SortBuyOrders()
      requires InArena(arena, bids)
      modifies this
      ensures multiset(bids) == multiset(old(bids)) && InArena(arena, bids) && SortedBy(arena, bids, Buy)
      ensures arena == old(arena) && asks == old(asks) && index == old(index)
    {
      bids := SortHandles(arena, bids, Buy);
    }

    method SortSellOrders()
      requires InArena(arena, asks)
      modifies this
      ensures multiset(asks) == multiset(old(asks)) && InArena(arena, asks) && SortedBy(arena, asks, Sell)
      ensures arena == old(arena) && bids == old(bids) && index == old(index)
    {
      asks := SortHandles(arena, asks, Sell);
    }

    /** add_order: index the order, append it to its side and re-sort that
        side. Duplicate ids are accepted: the index gains an entry and keeps
        the old ones. */
    method AddOrder(o: Order)
      requires Valid() && WellFormed(o)
      modifies this
      ensures Valid()
      ensures arena == old(arena) + [o]
      ensures index == old(index) + [(o.id, |old(arena)|)]
      ensures multiset(SideOf(o.side)) == multiset(old(SideOf(o.side)) + [|old(arena)|])
      ensures SideOf(Opposite(o.side)) == old(SideOf(Opposite(o.side)))
      ensures old(Indexed(bids, asks, index)) ==> Indexed(bids, asks, index)
      ensures old(Live()) && Resting(o) ==> Live()
    {
      ghost var a0, b0, s0, i0 := arena, bids, asks, index;
      var h: nat := |arena|;
      arena := arena + [o];
      index := index + [(o.id, h)];
      if o.side == Buy {
        bids := bids + [h];
        SortBuyOrders();
      } else {
        asks := asks + [h];
        SortSellOrders();
      }
      AddCorrect(a0, b0, s0, i0, o, bids, asks);
      assert arena == a0 + [o] && index == i0 + [(o.id, |a0|)];
    }

    /** The effect of cancel_order, CancelResult between the state before
        and the state after. */
    twostate predicate CancelEffect(id: string, ok: bool)
      reads this
    {
      CancelResult(old(arena), old(bids), old(asks), old(index), id, ok, arena, bids, asks, index)
    }

    /** cancel_order. */
    method CancelOrder(id: string) returns (ok: bool)
      requires Valid()
      modifies this
      ensures Valid()
      ensures CancelEffect(id, ok)
      ensures old(Indexed(bids, asks, index)) ==> Indexed(bids, asks, index)
      ensures old(Live()) ==> Live()
    {
      var k := FindKey(index, id);
      if k == |index| {
        return false;
      }
      CancelAt(id, k);
      ok := true;
    }

    /** The body of cancel_order once the oldest entry for `id`, at `k`, is
        found: mark its order Cancelled, erase it from its side, and erase
        the entry. */
    method CancelAt(id: string, k: nat)
      requires Valid() && k < |index| && k == IndexOf(Firsts(index), id)
      modifies this
      ensures Valid()
      ensures CancelEffect(id, true)
      ensures old(Indexed(bids, asks, index)) ==> Indexed(bids, asks, index)
      ensures old(Live()) ==> Live()
    {
      ghost var a0, b0, s0, i0 := arena, bids, asks, index;
      var h := index[k].1;
      var side := arena[h].side;
      var own := SideOf(side);
      var p := Find(own, h);
      if p < |own| {
        own := RemoveAt(own, p);
      }
      assert own == RemoveFirst(if side == Buy then bids else asks, h);
      var arena' := arena[h := arena[h].(status := Cancelled)];
      var bids' := if side == Buy then own else bids;
      var asks' := if side == Buy then asks else own;
      var index' := RemoveAt(index, k);
      assert CancelStep(a0, b0, s0, i0, k, arena', bids', asks', index');
      arena, bids, asks, index := arena', bids', asks', index';
      assert arena == arena' && bids == bids' && asks == asks' && index == index';
      CancelCorrect(a0, b0, s0, i0, id, k, arena, bids, asks, index);
    }

    /** match_order: the loop of Match, run in place on the opposite side and
        the index. The incoming order is passed by value and returned with
        its new fill state; it is never rested here. */
    method MatchOrder(order: Order, now: nat) returns (trades: seq<Trade>, incoming: Order)
      requires Valid() && WellFormed(order)
      modifies this
      ensures Valid()
      ensures var r := Match(old(arena), old(SideOf(Opposite(order.side))), old(index), order, now);
        && trades == r.trades && incoming == r.incoming
        && arena == r.arena && index == r.index
        && SideOf(Opposite(order.side)) == r.opposite
      ensures SideOf(order.side) == old(SideOf(order.side))
      ensures WellFormed(incoming) && (order.status != Cancelled ==> incoming.status != Cancelled)
      ensures old(Live()) ==> Live() && forall t :: t in trades ==> t.size > 0
    {
      var t, inc, a, b, s, ix := MatchBook(arena, bids, asks, index, order, now);
      trades, incoming := t, inc;
      arena, bids, asks, index := a, b, s, ix;
      assert Inv(arena, bids, asks, index);
    }

    /** remove_filled_orders: drop filled and cancelled orders from both
        sides, keeping the survivors in order; the index is left as it is,
        so their entries stay behind. On a live book it changes nothing. */
    method RemoveFilledOrders()
      requires Valid()
      modifies this
      ensures arena == old(arena) && index == old(index)
      ensures bids == KeepResting(arena, old(bids)) && asks == KeepResting(arena, old(asks))
      ensures Valid() && AllResting(arena, bids) && AllResting(arena, asks)
      ensures old(Live()) ==> bids == old(bids) && asks == old(asks) && Live()
    {
      ghost var a0, b0, s0, i0 := arena, bids, asks, index;
      var b := Filter(arena, bids);
      var s := Filter(arena, asks);
      bids, asks := b, s;
      assert arena == a0 && index == i0 && bids == KeepResting(a0, b0) && asks == KeepResting(a0, s0);
      KeepRestingSub(a0, b0);
      KeepRestingSub(a0, s0);
      KeepRestingIn(a0, b0);
      KeepRestingIn(a0, s0);
      KeepRestingSorted(a0, b0, Buy);
      KeepRestingSorted(a0, s0, Sell);
      ShrinkSides(a0, b0, s0, i0, KeepResting(a0, b0), KeepResting(a0, s0));
      if AllResting(a0, b0) && AllResting(a0, s0) {
        KeepRestingAll(a0, b0);
        KeepRestingAll(a0, s0);
      }
    }

    /** The loop of std::remove_if over one side. */
    static method Filter(arena: seq<Order>, s: seq<nat>) returns (r: seq<nat>)
      requires InArena(arena, s)
      ensures r == KeepResting(arena, s)
    {
      r := [];
      var i := 0;
      while i < |s|
        invariant i <= |s|
        invariant r == KeepResting(arena, s[..i])
      {
        assert s[..i + 1][..i] == s[..i];
        if Resting(arena[s[i]]) {
          r := r + [s[i]];
        }
        i := i + 1;
      }
      assert s[..i] == s;
    }

    /** best_bid: the price of the front bid, the highest on the side, or
        MinPrice (no bid) when there are none. */
    function BestBid(): (p: int)
      reads this
      requires Valid()
      ensures bids == [] ==> p == MinPrice
      ensures bids != [] ==> p == arena[bids[0]].price
      ensures forall i :: 0 <= i < |bids| ==> arena[bids[i]].price <= p
    {
      if bids == [] then MinPrice else SortedFront(arena, bids, Buy); arena[bids[0]].price
    }

    /** best_ask: the price of the front ask, the lowest on the side, or
        MaxPrice (no ask) when there are none. */
    function BestAsk(): (p: int)
      reads this
      requires Valid()
      ensures asks == [] ==> p == MaxPrice
      ensures asks != [] ==> p == arena[asks[0]].price
      ensures forall i :: 0 <= i < |asks| ==> p <= arena[asks[i]].price
    {
      if asks == [] then MaxPrice else SortedFront(arena, asks, Sell); arena[asks[0]].price
    }

    /** volume_at_price: the depth of one side at exactly `price`. */
    method VolumeAtPrice(side: Side, price: int) returns (v: nat)
      requires Valid()
      ensures v == Volume(arena, SideOf(side), price)
    {
      var orders := SideOf(side);
      v := 0;
      var i := 0;
      while i < |orders|
        invariant i <= |orders|
        invariant v == Volume(arena, orders[..i], price)
      {
        assert orders[..i + 1][..i] == orders[..i];
        var o := arena[orders[i]];
        if o.price == price {
          v := v + RemainingSize(o);
        }
        i := i + 1;
      }
      assert orders[..i] == orders;
    }

    /** get_all_orders: the resting bids and asks, each in priority order. */
    function GetAllOrders(): (r: (seq<Order>, seq<Order>))
      reads this
      requires Valid()
      ensures |r.0| == |bids| && |r.1| == |asks|
      ensures forall i :: 0 <= i < |bids| ==> r.0[i] == arena[bids[i]] && r.0[i].side == Buy
      ensures forall i :: 0 <= i < |asks| ==> r.1[i] == arena[asks[i]] && r.1[i].side == Sell
      ensures forall i, j :: 0 <= i < j < |r.0| ==> !BuySortBefore(r.0[j], r.0[i])
      ensures forall i, j :: 0 <= i < j < |r.1| ==> !SellSortBefore(r.1[j], r.1[i])
    {
      OrdersOfSorted(arena, bids, Buy);
      OrdersOfSorted(arena, asks, Sell);
      (OrdersOf(arena, bids), OrdersOf(arena, asks))
    }
  }
}

