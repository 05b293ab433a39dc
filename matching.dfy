/** The matching loop of OrderBook::match_order (src/order_book.cpp) as a
    function over the book's arena of orders, the opposite side (a sequence of
    handles into the arena, best first) and the id index; and what it
    guarantees: the pricing rule, fill conservation, consumption of the
    opposite side from the front, and the three ways the loop can end. */
module Matching {
  import opened Orders
  import opened SeqUtil

  /** Every order in the arena respects filledSize <= size. */
  predicate AllWellFormed(arena: seq<Order>) {
    forall h :: 0 <= h < |arena| ==> WellFormed(arena[h])
  }

  /** Every handle of `s` addresses an order of the arena. */
  predicate InArena(arena: seq<Order>, s: seq<nat>) {
    forall i :: 0 <= i < |s| ==> s[i] < |arena|
  }

  /** No order on `s` is filled or cancelled. */
  predicate AllResting(arena: seq<Order>, s: seq<nat>)
    requires InArena(arena, s)
  {
    forall i :: 0 <= i < |s| ==> Resting(arena[s[i]])
  }

  /** `s` is in the sort order of `side`: no later order should go before an earlier one. */
  predicate SortedBy(arena: seq<Order>, s: seq<nat>, side: Side)
    requires InArena(arena, s)
  {
    forall i, j :: 0 <= i < j < |s| ==> !SortBefore(side, arena[s[j]], arena[s[i]])
  }

  /** The price test of the loop; a market order skips it. */
  predicate Eligible(incoming: Order, resting: Order) {
    var priceMatches :=
      if incoming.side == Buy then incoming.price >= resting.price else incoming.price <= resting.price;
    incoming.kind == Market || priceMatches
  }

  function Min(a: nat, b: nat): nat {
    if a <= b then a else b
  }

  /** The trade of one iteration: at the resting order's price, with the
      buyer and seller ids assigned by the incoming order's side. */
  function MakeTrade(incoming: Order, resting: Order, q: nat, now: nat): (t: Trade)
    ensures t.size == q && t.price == resting.price && t.timestamp == now
    ensures incoming.side == Buy ==> t.buyId == incoming.id && t.sellId == resting.id
    ensures incoming.side == Sell ==> t.buyId == resting.id && t.sellId == incoming.id
  {
    if incoming.side == Buy then Trade(incoming.id, resting.id, q, resting.price, now)
    else Trade(resting.id, incoming.id, q, resting.price, now)
  }

  /** The state the loop leaves behind, and the trades it made in match order. */
  datatype Outcome = Outcome(
    arena: seq<Order>,
    opposite: seq<nat>,
    index: seq<(string, nat)>,
    incoming: Order,
    trades: seq<Trade>)

  /** `m` with `trades` made before it. */
  function Prepend(trades: seq<Trade>, m: Outcome): Outcome {
    m.(trades := trades + m.trades)
  }

  /** Prepending twice is prepending the concatenation. */
  lemma PrependTwice(ts: seq<Trade>, us: seq<Trade>, m: Outcome)
    ensures Prepend(ts, Prepend(us, m)) == Prepend(ts + us, m)
  {
    assert ts + (us + m.trades) == (ts + us) + m.trades;
  }

  /** The matching loop. Each round fills the incoming order and the front of
      the opposite side by the smaller of their remaining sizes; a front order
      that is now filled leaves the side and the index. */
  function Match(arena: seq<Order>, opposite: seq<nat>, index: seq<(string, nat)>,
                 incoming: Order, now: nat): (r: Outcome)
    requires AllWellFormed(arena) && InArena(arena, opposite) && WellFormed(incoming)
    ensures |r.arena| == |arena| && |r.opposite| <= |opposite|
    decreases |opposite| + (if IsFilled(incoming) then 0 else 1)
  {
    if opposite == [] || IsFilled(incoming) then
      Outcome(arena, opposite, index, incoming, [])
    else
      var h := opposite[0];
      var resting := arena[h];
      if !Eligible(incoming, resting) then
        Outcome(arena, opposite, index, incoming, [])
      else
        var q := Min(RemainingSize(incoming), RemainingSize(resting));
        var t := MakeTrade(incoming, resting, q, now);
        var arena' := arena[h := Fill(resting, q)];
        var r := if IsFilled(arena'[h])
                 then Match(arena', opposite[1..], RemoveFirst(index, (resting.id, h)), Fill(incoming, q), now)
                 else Match(arena', opposite, index, Fill(incoming, q), now);
        Prepend([t], r)
  }

  /** Fill state is the only thing that changes in any order, and no order
      is over-filled. */
  lemma {:induction false} MatchIdentity(arena: seq<Order>, opposite: seq<nat>, index: seq<(string, nat)>,
                                         incoming: Order, now: nat)
    requires AllWellFormed(arena) && InArena(arena, opposite) && WellFormed(incoming)
    ensures var r := Match(arena, opposite, index, incoming, now);
      && AllWellFormed(r.arena) && WellFormed(r.incoming)
      && (forall h :: 0 <= h < |arena| ==> SameIdentity(r.arena[h], arena[h]))
      && SameIdentity(r.incoming, incoming) && r.incoming.filledSize >= incoming.filledSize
      && (incoming.status != Cancelled ==> r.incoming.status != Cancelled)
    decreases |opposite| + (if IsFilled(incoming) then 0 else 1)
  {
    if opposite == [] || IsFilled(incoming) {
    } else {
      var h := opposite[0];
      var resting := arena[h];
      if Eligible(incoming, resting) {
        var q := Min(RemainingSize(incoming), RemainingSize(resting));
        var arena' := arena[h := Fill(resting, q)];
        if IsFilled(arena'[h]) {
          MatchIdentity(arena', opposite[1..], RemoveFirst(index, (resting.id, h)), Fill(incoming, q), now);
        } else {
          MatchIdentity(arena', opposite, index, Fill(incoming, q), now);
        }
      }
    }
  }

  /** The opposite side loses a prefix, and there is one trade per removed
      order plus at most one for a front order left partially filled (and
      then the incoming order is filled). Matching against an empty side, or
      with a filled incoming order, changes nothing. */
  lemma {:induction false} MatchShape(arena: seq<Order>, opposite: seq<nat>, index: seq<(string, nat)>,
                                      incoming: Order, now: nat)
    requires AllWellFormed(arena) && InArena(arena, opposite) && WellFormed(incoming)
    ensures var r := Match(arena, opposite, index, incoming, now);
      && r.opposite == opposite[|opposite| - |r.opposite|..]
      && InArena(r.arena, r.opposite)
      && |opposite| - |r.opposite| <= |r.trades| <= |opposite| - |r.opposite| + 1
      && |r.trades| <= |opposite|
      && (|r.trades| == |opposite| - |r.opposite| + 1 ==> r.opposite != [] && IsFilled(r.incoming))
      && (opposite == [] || IsFilled(incoming) ==> r == Outcome(arena, opposite, index, incoming, []))
    decreases |opposite| + (if IsFilled(incoming) then 0 else 1)
  {
    if opposite == [] || IsFilled(incoming) {
    } else {
      var h := opposite[0];
      var resting := arena[h];
      if Eligible(incoming, resting) {
        var q := Min(RemainingSize(incoming), RemainingSize(resting));
        var arena' := arena[h := Fill(resting, q)];
        var t := MakeTrade(incoming, resting, q, now);
        var r := Match(arena, opposite, index, incoming, now);
        if IsFilled(arena'[h]) {
          var index' := RemoveFirst(index, (resting.id, h));
          var r' := Match(arena', opposite[1..], index', Fill(incoming, q), now);
          MatchShape(arena', opposite[1..], index', Fill(incoming, q), now);
          assert r == Prepend([t], r');
          assert r.opposite == r'.opposite;
        } else {
          assert r.trades == [t];
        }
      }
    }
  }

  /** The total size of a list of trades. */
  function SumSizes(trades: seq<Trade>): nat {
    if trades == [] then 0 else trades[0].size + SumSizes(trades[1..])
  }

  /** The total filled size over an arena. */
  function SumFilled(arena: seq<Order>): nat {
    if arena == [] then 0 else arena[0].filledSize + SumFilled(arena[1..])
  }

  lemma {:induction false} SumFilledUpdate(arena: seq<Order>, h: nat, o: Order)
    requires h < |arena|
    ensures SumFilled(arena[h := o]) == SumFilled(arena) - arena[h].filledSize + o.filledSize
  {
    if h > 0 {
      SumFilledUpdate(arena[1..], h - 1, o);
      assert arena[h := o][1..] == arena[1..][h - 1 := o];
    }
  }

  /** Pricing rule and counterparties: the i-th trade is made against the
      i-th order of the opposite side, at that order's price. */
  lemma {:induction false} MatchTrades(arena: seq<Order>, opposite: seq<nat>, index: seq<(string, nat)>,
                                       incoming: Order, now: nat)
    requires AllWellFormed(arena) && InArena(arena, opposite) && WellFormed(incoming)
    ensures var r := Match(arena, opposite, index, incoming, now);
      |r.trades| <= |opposite| &&
      forall i :: 0 <= i < |r.trades| ==>
        var resting := arena[opposite[i]];
        && r.trades[i].price == resting.price
        && r.trades[i].timestamp == now
        && (incoming.side == Buy ==> r.trades[i].buyId == incoming.id && r.trades[i].sellId == resting.id)
        && (incoming.side == Sell ==> r.trades[i].buyId == resting.id && r.trades[i].sellId == incoming.id)
    decreases |opposite| + (if IsFilled(incoming) then 0 else 1)
  {
    if opposite == [] || IsFilled(incoming) {
    } else {
      var h := opposite[0];
      var resting := arena[h];
      if Eligible(incoming, resting) {
        var q := Min(RemainingSize(incoming), RemainingSize(resting));
        var arena' := arena[h := Fill(resting, q)];
        if IsFilled(arena'[h]) {
          MatchTrades(arena', opposite[1..], RemoveFirst(index, (resting.id, h)), Fill(incoming, q), now);
        } else {
          MatchTrades(arena', opposite, index, Fill(incoming, q), now);
        }
      }
    }
  }

  /** Fill conservation: the incoming order's fill grows by the total trade
      size, and so does the total fill of the resting orders. */
  lemma {:induction false} MatchConservation(arena: seq<Order>, opposite: seq<nat>, index: seq<(string, nat)>,
                                             incoming: Order, now: nat)
    requires AllWellFormed(arena) && InArena(arena, opposite) && WellFormed(incoming)
    ensures var r := Match(arena, opposite, index, incoming, now);
      && r.incoming.filledSize == incoming.filledSize + SumSizes(r.trades)
      && SumFilled(r.arena) == SumFilled(arena) + SumSizes(r.trades)
    decreases |opposite| + (if IsFilled(incoming) then 0 else 1)
  {
    if opposite == [] || IsFilled(incoming) {
    } else {
      var h := opposite[0];
      var resting := arena[h];
      if Eligible(incoming, resting) {
        var q := Min(RemainingSize(incoming), RemainingSize(resting));
        var arena' := arena[h := Fill(resting, q)];
        var t := MakeTrade(incoming, resting, q, now);
        SumFilledUpdate(arena, h, Fill(resting, q));
        var r' := if IsFilled(arena'[h])
                  then Match(arena', opposite[1..], RemoveFirst(index, (resting.id, h)), Fill(incoming, q), now)
                  else Match(arena', opposite, index, Fill(incoming, q), now);
        if IsFilled(arena'[h]) {
          MatchConservation(arena', opposite[1..], RemoveFirst(index, (resting.id, h)), Fill(incoming, q), now);
        } else {
          MatchConservation(arena', opposite, index, Fill(incoming, q), now);
        }
        assert ([t] + r'.trades)[1..] == r'.trades;
      }
    }
  }

  /** The loop ends only when the incoming order is filled, the opposite side
      is empty, or a limit order's price no longer crosses the front. A market
      order therefore runs until filled or until the side is exhausted. */
  lemma {:induction false} MatchExit(arena: seq<Order>, opposite: seq<nat>, index: seq<(string, nat)>,
                                     incoming: Order, now: nat)
    requires AllWellFormed(arena) && InArena(arena, opposite) && WellFormed(incoming)
    ensures var r := Match(arena, opposite, index, incoming, now);
      || IsFilled(r.incoming)
      || r.opposite == []
      || (incoming.kind == Limit && r.opposite[0] < |r.arena| && !Eligible(r.incoming, r.arena[r.opposite[0]]))
    ensures var r := Match(arena, opposite, index, incoming, now);
      incoming.kind == Market ==> IsFilled(r.incoming) || r.opposite == []
    decreases |opposite| + (if IsFilled(incoming) then 0 else 1)
  {
    MatchShape(arena, opposite, index, incoming, now);
    if opposite == [] || IsFilled(incoming) {
    } else {
      var h := opposite[0];
      var resting := arena[h];
      if Eligible(incoming, resting) {
        var q := Min(RemainingSize(incoming), RemainingSize(resting));
        var arena' := arena[h := Fill(resting, q)];
        if IsFilled(arena'[h]) {
          MatchExit(arena', opposite[1..], RemoveFirst(index, (resting.id, h)), Fill(incoming, q), now);
        } else {
          MatchExit(arena', opposite, index, Fill(incoming, q), now);
        }
      }
    }
  }

  /** Only the orders the trades were made against change: every other
      order of the arena is left as it was. */
  lemma {:induction false} MatchUntouched(arena: seq<Order>, opposite: seq<nat>, index: seq<(string, nat)>,
                                          incoming: Order, now: nat)
    requires AllWellFormed(arena) && InArena(arena, opposite) && WellFormed(incoming)
    ensures var r := Match(arena, opposite, index, incoming, now);
      && |r.trades| <= |opposite|
      && forall x :: 0 <= x < |arena| && x !in opposite[..|r.trades|] ==> r.arena[x] == arena[x]
    decreases |opposite| + (if IsFilled(incoming) then 0 else 1)
  {
    if opposite == [] || IsFilled(incoming) {
    } else {
      var h := opposite[0];
      var resting := arena[h];
      if Eligible(incoming, resting) {
        var q := Min(RemainingSize(incoming), RemainingSize(resting));
        var arena' := arena[h := Fill(resting, q)];
        var t := MakeTrade(incoming, resting, q, now);
        var r := Match(arena, opposite, index, incoming, now);
        if IsFilled(arena'[h]) {
          var index' := RemoveFirst(index, (resting.id, h));
          var r' := Match(arena', opposite[1..], index', Fill(incoming, q), now);
          MatchUntouched(arena', opposite[1..], index', Fill(incoming, q), now);
          assert r.arena == r'.arena && |r.trades| == |r'.trades| + 1;
          forall x | 0 <= x < |arena| && x !in opposite[..|r.trades|] ensures r.arena[x] == arena[x] {
            PrefixCons(opposite, |r.trades|, x);
          }
        } else {
          assert r.trades == [t] && r.arena == arena';
          forall x | 0 <= x < |arena| && x !in opposite[..|r.trades|] ensures r.arena[x] == arena[x] {
            PrefixCons(opposite, |r.trades|, x);
          }
        }
      }
    }
  }

  lemma PrefixCons(s: seq<nat>, n: nat, x: nat)
    requires 0 < n <= |s| && x !in s[..n]
    ensures x != s[0] && x !in s[1..][..n - 1]
  {
    assert s[..n] == [s[0]] + s[1..][..n - 1];
  }

  /** Consumption from the front: with distinct handles, the i-th resting order's
      fill grows by exactly the i-th trade's size. */
  lemma {:induction false} MatchFills(arena: seq<Order>, opposite: seq<nat>, index: seq<(string, nat)>,
                                      incoming: Order, now: nat)
    requires AllWellFormed(arena) && InArena(arena, opposite) && WellFormed(incoming)
    requires Distinct(opposite)
    ensures var r := Match(arena, opposite, index, incoming, now);
      && |r.trades| <= |opposite|
      && forall i :: 0 <= i < |r.trades| ==>
           r.arena[opposite[i]].filledSize == arena[opposite[i]].filledSize + r.trades[i].size
    decreases |opposite| + (if IsFilled(incoming) then 0 else 1)
  {
    if opposite == [] || IsFilled(incoming) {
    } else {
      var h := opposite[0];
      var resting := arena[h];
      if Eligible(incoming, resting) {
        var q := Min(RemainingSize(incoming), RemainingSize(resting));
        var arena' := arena[h := Fill(resting, q)];
        var t := MakeTrade(incoming, resting, q, now);
        var r := Match(arena, opposite, index, incoming, now);
        if IsFilled(arena'[h]) {
          var index' := RemoveFirst(index, (resting.id, h));
          var r' := Match(arena', opposite[1..], index', Fill(incoming, q), now);
          DistinctTail(opposite);
          MatchFills(arena', opposite[1..], index', Fill(incoming, q), now);
          MatchUntouched(arena', opposite[1..], index', Fill(incoming, q), now);
          assert r == Prepend([t], r');
          assert h !in opposite[1..][..|r'.trades|];
          forall i | 0 <= i < |r.trades|
            ensures r.arena[opposite[i]].filledSize == arena[opposite[i]].filledSize + r.trades[i].size
          {
            if i > 0 {
              assert opposite[i] == opposite[1..][i - 1];
              assert r.trades[i] == r'.trades[i - 1];
            }
          }
        } else {
          assert r.trades == [t];
        }
      }
    }
  }

  /** Every resting order that left the opposite side is filled. */
  lemma {:induction false} MatchConsumesFilled(arena: seq<Order>, opposite: seq<nat>, index: seq<(string, nat)>,
                                               incoming: Order, now: nat)
    requires AllWellFormed(arena) && InArena(arena, opposite) && WellFormed(incoming)
    requires Distinct(opposite)
    ensures var r := Match(arena, opposite, index, incoming, now);
      forall i :: 0 <= i < |opposite| - |r.opposite| ==> IsFilled(r.arena[opposite[i]])
    decreases |opposite| + (if IsFilled(incoming) then 0 else 1)
  {
    if opposite == [] || IsFilled(incoming) {
    } else {
      var h := opposite[0];
      var resting := arena[h];
      if Eligible(incoming, resting) {
        var q := Min(RemainingSize(incoming), RemainingSize(resting));
        var arena' := arena[h := Fill(resting, q)];
        var t := MakeTrade(incoming, resting, q, now);
        var r := Match(arena, opposite, index, incoming, now);
        if IsFilled(arena'[h]) {
          var index' := RemoveFirst(index, (resting.id, h));
          var r' := Match(arena', opposite[1..], index', Fill(incoming, q), now);
          DistinctTail(opposite);
          MatchConsumesFilled(arena', opposite[1..], index', Fill(incoming, q), now);
          MatchUntouched(arena', opposite[1..], index', Fill(incoming, q), now);
          assert r == Prepend([t], r');
          assert h !in opposite[1..][..|r'.trades|];
          forall i | 0 <= i < |opposite| - |r.opposite|
            ensures IsFilled(r.arena[opposite[i]])
          {
            if i > 0 {
              assert opposite[i] == opposite[1..][i - 1];
            }
          }
        }
      }
    }
  }

  /** Trade size: every trade is the smaller of the two remaining sizes.
      It never exceeds what its resting order had left; a resting order that
      left the side traded all it had left; and a trade that leaves its
      resting order on the side is the last one, taking all the incoming
      order had left. */
  lemma MatchTradeSizes(arena: seq<Order>, opposite: seq<nat>, index: seq<(string, nat)>,
                        incoming: Order, now: nat)
    requires AllWellFormed(arena) && InArena(arena, opposite) && WellFormed(incoming)
    requires Distinct(opposite)
    ensures var r := Match(arena, opposite, index, incoming, now);
      && |r.trades| <= |opposite|
      && SumSizes(r.trades) <= RemainingSize(incoming)
      && (forall i :: 0 <= i < |r.trades| ==> r.trades[i].size <= RemainingSize(arena[opposite[i]]))
      && (forall i :: 0 <= i < |opposite| - |r.opposite| ==>
            i < |r.trades| && r.trades[i].size == RemainingSize(arena[opposite[i]]))
      && (|r.trades| > |opposite| - |r.opposite| ==> SumSizes(r.trades) == RemainingSize(incoming))
  {
    var r := Match(arena, opposite, index, incoming, now);
    MatchIdentity(arena, opposite, index, incoming, now);
    MatchShape(arena, opposite, index, incoming, now);
    MatchConservation(arena, opposite, index, incoming, now);
    MatchFills(arena, opposite, index, incoming, now);
    MatchConsumesFilled(arena, opposite, index, incoming, now);
    forall i | 0 <= i < |r.trades| ensures r.trades[i].size <= RemainingSize(arena[opposite[i]]) {
      assert SameIdentity(r.arena[opposite[i]], arena[opposite[i]]);
    }
    forall i | 0 <= i < |opposite| - |r.opposite|
      ensures i < |r.trades| && r.trades[i].size == RemainingSize(arena[opposite[i]])
    {
      assert SameIdentity(r.arena[opposite[i]], arena[opposite[i]]);
      assert IsFilled(r.arena[opposite[i]]);
    }
  }

  lemma DistinctTail<T(!new)>(s: seq<T>)
    requires s != [] && Distinct(s)
    ensures Distinct(s[1..]) && s[0] !in s[1..]
  {
    assert s == [s[0]] + s[1..];
    assert multiset(s) == multiset{s[0]} + multiset(s[1..]);
    forall x ensures multiset(s[1..])[x] <= 1 {
      assert multiset(s)[x] <= 1;
    }
    assert multiset(s)[s[0]] <= 1;
  }

  /** Every trade has a positive size when the incoming order and the resting
      orders it meets are live (none is filled yet). */
  lemma {:induction false} MatchSizesPositive(arena: seq<Order>, opposite: seq<nat>, index: seq<(string, nat)>,
                                              incoming: Order, now: nat)
    requires AllWellFormed(arena) && InArena(arena, opposite) && WellFormed(incoming)
    requires Distinct(opposite)
    requires forall h :: h in opposite ==> !IsFilled(arena[h])
    ensures forall t :: t in Match(arena, opposite, index, incoming, now).trades ==> t.size > 0
    decreases |opposite| + (if IsFilled(incoming) then 0 else 1)
  {
    if opposite == [] || IsFilled(incoming) {
    } else {
      var h := opposite[0];
      var resting := arena[h];
      if Eligible(incoming, resting) {
        var q := Min(RemainingSize(incoming), RemainingSize(resting));
        var arena' := arena[h := Fill(resting, q)];
        var t := MakeTrade(incoming, resting, q, now);
        var r := Match(arena, opposite, index, incoming, now);
        DistinctTail(opposite);
        assert q > 0;
        if IsFilled(arena'[h]) {
          var index' := RemoveFirst(index, (resting.id, h));
          var r' := Match(arena', opposite[1..], index', Fill(incoming, q), now);
          forall x | x in opposite[1..] ensures !IsFilled(arena'[x]) {
            assert x != h;
          }
          MatchSizesPositive(arena', opposite[1..], index', Fill(incoming, q), now);
          assert r.trades == [t] + r'.trades;
        } else {
          assert r.trades == [t];
        }
      }
    }
  }

  /** Price priority: once the front of a sorted opposite side does not cross a
      limit order's price, no order behind it does. */
  lemma NoCrossBehindFront(arena: seq<Order>, opposite: seq<nat>, incoming: Order)
    requires InArena(arena, opposite) && SortedBy(arena, opposite, Opposite(incoming.side))
    requires opposite != [] && incoming.kind == Limit && !Eligible(incoming, arena[opposite[0]])
    ensures forall i :: 0 <= i < |opposite| ==> !Eligible(incoming, arena[opposite[i]])
  {
    forall i | 0 < i < |opposite| ensures !Eligible(incoming, arena[opposite[i]]) {
      assert !SortBefore(Opposite(incoming.side), arena[opposite[i]], arena[opposite[0]]);
    }
  }

  /** Resting orders stay resting: what is left of the opposite side after
      the loop holds no filled or cancelled order (a front order left
      partially filled is PartiallyFilled). */
  lemma {:induction false} MatchKeepsResting(arena: seq<Order>, opposite: seq<nat>, index: seq<(string, nat)>,
                                             incoming: Order, now: nat)
    requires AllWellFormed(arena) && InArena(arena, opposite) && WellFormed(incoming)
    requires Distinct(opposite) && AllResting(arena, opposite)
    ensures var r := Match(arena, opposite, index, incoming, now);
      InArena(r.arena, r.opposite) && AllResting(r.arena, r.opposite)
    decreases |opposite| + (if IsFilled(incoming) then 0 else 1)
  {
    MatchShape(arena, opposite, index, incoming, now);
    if opposite == [] || IsFilled(incoming) {
    } else {
      var h := opposite[0];
      var resting := arena[h];
      if Eligible(incoming, resting) {
        var q := Min(RemainingSize(incoming), RemainingSize(resting));
        var arena' := arena[h := Fill(resting, q)];
        DistinctTail(opposite);
        if IsFilled(arena'[h]) {
          forall i | 0 <= i < |opposite[1..]| ensures Resting(arena'[opposite[1..][i]]) {
            assert opposite[1..][i] == opposite[i + 1] && opposite[i + 1] != h;
          }
          MatchKeepsResting(arena', opposite[1..], RemoveFirst(index, (resting.id, h)), Fill(incoming, q), now);
        } else {
          forall i | 0 <= i < |opposite| ensures Resting(arena'[opposite[i]]) {
            if i > 0 {
              assert opposite[i] == opposite[1..][i - 1];
            }
          }
        }
      }
    }
  }
}
