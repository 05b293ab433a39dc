/** The matching engine (src/matching_engine.cpp): one order book per symbol,
    a routing multimap from order id to symbol used by cancel_order, and the
    trade observers. An observer is a handle; the notifications a call makes
    are returned as (observer, trade) entries in the order they are made.
    The two clock readings of a placed order, generate_timestamp for the order
    and the book's reading for its trades, are parameters. */
module Engine {
  import opened Orders
  import opened SeqUtil
  import opened Matching
  import opened Book

  /** One trade as every observer receives it, in registration order. */
  function Deliveries(observers: seq<nat>, t: Trade): (d: seq<(nat, Trade)>)
    ensures |d| == |observers|
    ensures forall j :: 0 <= j < |observers| ==> d[j] == (observers[j], t)
  {
    if observers == [] then [] else Deliveries(observers[..|observers| - 1], t) + [(observers[|observers| - 1], t)]
  }

  /** Trades notified one after another: each trade reaches every observer
      before the next trade is notified. */
  function Fanout(observers: seq<nat>, trades: seq<Trade>): seq<(nat, Trade)> {
    if trades == [] then [] else Fanout(observers, trades[..|trades| - 1]) + Deliveries(observers, trades[|trades| - 1])
  }

  lemma {:induction false} FanoutLength(observers: seq<nat>, trades: seq<Trade>)
    ensures |Fanout(observers, trades)| == |trades| * |observers|
    decreases |trades|
  {
    if trades != [] {
      FanoutLength(observers, trades[..|trades| - 1]);
      assert |trades| * |observers| == (|trades| - 1) * |observers| + |observers|;
    }
  }

  /** Observer `j` receives trade `i` at position i * |observers| + j: every
      observer sees every trade, in trade order, and no other entry is made. */
  lemma {:induction false} FanoutAt(observers: seq<nat>, trades: seq<Trade>, i: nat, j: nat)
    requires i < |trades| && j < |observers|
    ensures i * |observers| + j < |Fanout(observers, trades)|
    ensures Fanout(observers, trades)[i * |observers| + j] == (observers[j], trades[i])
    decreases |trades|
  {
    var n := |observers|;
    var init := trades[..|trades| - 1];
    FanoutLength(observers, trades);
    FanoutLength(observers, init);
    assert |Fanout(observers, init)| == (|trades| - 1) * n;
    if i < |trades| - 1 {
      FanoutAt(observers, init, i, j);
      assert trades[i] == init[i];
    } else {
      assert i * n + j == (|trades| - 1) * n + j;
    }
  }

  /** Notifying the trades of one call and then those of the next is
      notifying all of them in order. */
  lemma {:induction false} FanoutConcat(observers: seq<nat>, a: seq<Trade>, b: seq<Trade>)
    ensures Fanout(observers, a + b) == Fanout(observers, a) + Fanout(observers, b)
    decreases |b|
  {
    if b == [] {
      assert a + b == a;
    } else {
      var b' := b[..|b| - 1];
      assert (a + b)[..|a + b| - 1] == a + b';
      FanoutConcat(observers, a, b');
    }
  }

  /** notify_trade: the notifications of one trade, one per observer in
      registration order. */
  method NotifyTrade(observers: seq<nat>, t: Trade) returns (d: seq<(nat, Trade)>)
    ensures d == Deliveries(observers, t)
  {
    d := [];
    var i := 0;
    while i < |observers|
      invariant i <= |observers|
      invariant d == Deliveries(observers[..i], t)
    {
      assert observers[..i + 1][..i] == observers[..i];
      d := d + [(observers[i], t)];
      i := i + 1;
    }
    assert observers[..i] == observers;
  }

  /** The notification loop of place_limit_order and place_market_order:
      notify_trade for each trade in turn. */
  method NotifyTrades(observers: seq<nat>, trades: seq<Trade>) returns (d: seq<(nat, Trade)>)
    ensures d == Fanout(observers, trades)
  {
    d := [];
    var i := 0;
    while i < |trades|
      invariant i <= |trades|
      invariant d == Fanout(observers, trades[..i])
    {
      assert trades[..i + 1][..i] == trades[..i];
      var e := NotifyTrade(observers, trades[i]);
      d := d + e;
      i := i + 1;
    }
    assert trades[..i] == trades;
  }

  /** A book's state: its arena, bids, asks and id index. */
  type BookState = (seq<Order>, seq<nat>, seq<nat>, seq<(string, nat)>)

  /** The book step of placing `o` at time `now`: `o` is matched against the
      opposite side, giving `trades`, and what is left of it rests on its own
      side when `rest` holds and it is not filled; the own side is otherwise
      untouched. The state before is well formed. */
  ghost predicate Executes(before: BookState, after: BookState, o: Order, now: nat, rest: bool, trades: seq<Trade>)
  {
    var (arena, bids, asks, index) := before;
    var (arena', bids', asks', index') := after;
    && AllWellFormed(arena) && InArena(arena, bids) && InArena(arena, asks) && WellFormed(o)
    && var own := if o.side == Buy then bids else asks;
    var own' := if o.side == Buy then bids' else asks';
    var r := Match(arena, if o.side == Buy then asks else bids, index, o, now);
    && trades == r.trades
    && (if o.side == Buy then asks' else bids') == r.opposite
    && (if rest && !IsFilled(r.incoming) then
          && arena' == r.arena + [r.incoming]
          && index' == r.index + [(o.id, |r.arena|)]
          && multiset(own') == multiset(own + [|r.arena|])
        else
          arena' == r.arena && index' == r.index && own' == own)
  }

  /** The book work of place_limit_order (`rest` true) and of
      place_market_order (`rest` false): match_order, then add_order for
      what is left of a limit order. */
  method Execute(book: OrderBook, o: Order, now: nat, rest: bool) returns (trades: seq<Trade>)
    requires book.Valid() && book.Live() && WellFormed(o) && o.status == New
    modifies book
    ensures book.Valid() && book.Live()
    ensures Executes(old(book.State()), book.State(), o, now, rest, trades)
    ensures forall t :: t in trades ==> t.size > 0
  {
    ghost var r := Match(book.arena, book.SideOf(Opposite(o.side)), book.index, o, now);
    ghost var own := book.SideOf(o.side);
    var incoming;
    MatchIdentity(book.arena, book.SideOf(Opposite(o.side)), book.index, o, now);
    trades, incoming := book.MatchOrder(o, now);
    assert trades == r.trades && incoming == r.incoming;
    assert incoming.side == o.side && incoming.id == o.id;
    if rest && !IsFilled(incoming) {
      book.AddOrder(incoming);
    }
  }

  class MatchingEngine {
    /** order_books_: the book of each symbol. */
    var books: map<string, OrderBook>
    /** order_id_to_symbol_: (order id, symbol) entries, oldest first. */
    var routing: seq<(string, string)>
    /** trade_callbacks_, in registration order. */
    var observers: seq<nat>

    /** Each book is filed under its own symbol, is valid and live, and no
        two symbols share a book (nor is a book the engine itself). The
        per-book part is only unfolded where Sound is mentioned. */
    ghost predicate Valid()
      reads this`books, books.Values
    {
      && (forall s {:trigger Sound(books[s], s)} :: s in books ==> Sound(books[s], s))
      && (forall s :: s in books ==> (books[s] as object) != this)
      && (forall s, t :: s in books && t in books && s != t ==> books[s] != books[t])
    }

    /** The book `b` is filed under its own symbol `s`, valid and live. */
    static ghost predicate Sound(b: OrderBook, s: string)
      reads b
    {
      b.symbol == s && b.Valid() && b.Live()
    }

    constructor()
      ensures Valid()
      ensures books == map[] && routing == [] && observers == []
    {
      books := map[];
      routing := [];
      observers := [];
    }

    /** add_order_book: a new, empty book for a symbol not yet present; a
        present symbol keeps its book. */
    method AddOrderBook(symbol: string)
      requires Valid()
      modifies this
      ensures Valid() && symbol in books
      ensures symbol in old(books) ==> books == old(books)
      ensures symbol !in old(books) ==>
        && fresh(books[symbol])
        && books == old(books)[symbol := books[symbol]]
        && books[symbol].State() == ([], [], [], [])
      ensures routing == old(routing) && observers == old(observers)
    {
      if symbol in books {
        return;
      }
      var book := new OrderBook(symbol);
      books := books[symbol := book];
    }

    /** Changing one book, valid and live afterwards, and no other keeps the
        engine valid. */
    twostate lemma KeepsValid(symbol: string)
      requires old(Valid()) && books == old(books) && symbol in books
      requires Sound(books[symbol], symbol)
      requires forall s :: s in books && s != symbol ==> unchanged(books[s])
      ensures Valid()
    {
      forall s | s in books ensures Sound(books[s], s) {
        if s != symbol {
          assert old(Sound(books[s], s));
        }
      }
    }

    /** The book work of placing `o` on the book of a known symbol: Execute
        on that book, and no other book or engine field changes. */
    method ExecuteOn(symbol: string, o: Order, now: nat, rest: bool) returns (trades: seq<Trade>)
      requires Valid() && symbol in books && WellFormed(o) && o.status == New
      modifies books[symbol]
      ensures Valid() && books == old(books)
      ensures observers == old(observers) && routing == old(routing)
      ensures Executes(old(books[symbol].State()), books[symbol].State(), o, now, rest, trades)
      ensures forall t :: t in trades ==> t.size > 0
    {
      assert Sound(books[symbol], symbol);
      trades := Execute(books[symbol], o, now, rest);
      assert Sound(books[symbol], symbol);
      assert forall s :: s in books && s != symbol ==> books[s] != books[symbol];
      assert forall s :: s in books && s != symbol ==> unchanged(books[s]);
      KeepsValid(symbol);
    }

    /** place_limit_order: an unknown symbol gives no trades and no change.
        Otherwise the order, stamped `stamp`, is routed to its symbol, matched
        against the book at time `now`, rested there unless filled, and its
        trades are notified to every observer. */
    method PlaceLimitOrder(symbol: string, id: string, side: Side, size: nat, price: int, stamp: nat, now: nat)
      returns (trades: seq<Trade>, notes: seq<(nat, Trade)>)
      requires Valid()
      modifies this, if symbol in books then {books[symbol]} else {}
      ensures Valid() && books == old(books) && observers == old(observers)
      ensures symbol !in old(books) ==> trades == [] && notes == [] && routing == old(routing)
      ensures symbol in old(books) ==>
        && routing == old(routing) + [(id, symbol)]
        && notes == Fanout(observers, trades)
        && Executes(old(books[symbol].State()), books[symbol].State(),
                    LimitOrder(id, side, symbol, size, price, stamp), now, true, trades)
      ensures forall t :: t in trades ==> t.size > 0
    {
      if symbol !in books {
        return [], [];
      }
      routing := routing + [(id, symbol)];
      trades := ExecuteOn(symbol, LimitOrder(id, side, symbol, size, price, stamp), now, true);
      notes := NotifyTrades(observers, trades);
    }

    /** place_market_order: like a limit order at the best possible price,
        except that it is not routed and never rests: what the book cannot
        fill is dropped. */
    method PlaceMarketOrder(symbol: string, id: string, side: Side, size: nat, stamp: nat, now: nat)
      returns (trades: seq<Trade>, notes: seq<(nat, Trade)>)
      requires Valid()
      modifies if symbol in books then {books[symbol]} else {}
      ensures Valid() && books == old(books) && observers == old(observers) && routing == old(routing)
      ensures symbol !in old(books) ==> trades == [] && notes == []
      ensures symbol in old(books) ==>
        && notes == Fanout(observers, trades)
        && Executes(old(books[symbol].State()), books[symbol].State(),
                    MarketOrder(id, side, symbol, size, stamp), now, false, trades)
      ensures forall t :: t in trades ==> t.size > 0
    {
      if symbol !in books {
        return [], [];
      }
      trades := ExecuteOn(symbol, MarketOrder(id, side, symbol, size, stamp), now, false);
      notes := NotifyTrades(observers, trades);
    }

    /** The book work of cancel_order on the book of a known symbol. */
    method CancelOn(symbol: string, id: string) returns (ok: bool)
      requires Valid() && symbol in books
      modifies books[symbol]
      ensures Valid() && books == old(books)
      ensures observers == old(observers) && routing == old(routing)
      ensures books[symbol].CancelEffect(id, ok)
      ensures forall s :: s in books && (ok ==> s != symbol) ==> books[s].State() == old(books[s].State())
    {
      assert Sound(books[symbol], symbol);
      ok := books[symbol].CancelOrder(id);
      assert Sound(books[symbol], symbol);
      assert forall s :: s in books && s != symbol ==> books[s] != books[symbol];
      assert forall s :: s in books && s != symbol ==> unchanged(books[s]);
      KeepsValid(symbol);
    }

    /** The routing work of cancel_order: the entry at `k` is erased. */
    method Unroute(k: nat)
      requires Valid() && k < |routing|
      modifies this`routing
      ensures Valid() && books == old(books) && observers == old(observers)
      ensures routing == RemoveAt(old(routing), k)
    {
      routing := RemoveAt(routing, k);
    }

    /** cancel_order: the oldest routing entry for the id names the book to
        cancel in; the entry is dropped only when that book cancels. */
    method CancelOrder(id: string) returns (ok: bool)
      requires Valid()
      modifies this`routing, books.Values
      ensures Valid() && books == old(books) && observers == old(observers)
      ensures id !in Firsts(old(routing)) ==> !ok && routing == old(routing)
      ensures id in Firsts(old(routing)) ==>
        var k := IndexOf(Firsts(old(routing)), id);
        var symbol := old(routing)[k].1;
        && (symbol !in books ==> !ok)
        && (symbol in books ==> books[symbol].CancelEffect(id, ok))
        && routing == if ok then RemoveAt(old(routing), k) else old(routing)
      ensures !ok ==> forall s :: s in books ==> books[s].State() == old(books[s].State())
      ensures ok ==> forall s :: s in books && s != old(routing)[IndexOf(Firsts(old(routing)), id)].1 ==>
        books[s].State() == old(books[s].State())
    {
      var k := FindKey(routing, id);
      if k == |routing| {
        return false;
      }
      var symbol := routing[k].1;
      if symbol !in books {
        return false;
      }
      ok := CancelOn(symbol, id);
      if ok {
        Unroute(k);
      }
    }

    /** get_order_book: the book of the symbol, or null. */
    method GetOrderBook(symbol: string) returns (b: OrderBook?)
      requires Valid()
      ensures (b != null) == (symbol in books)
      ensures b != null ==> b == books[symbol] && b.symbol == symbol
    {
      if symbol in books {
        assert Sound(books[symbol], symbol);
        b := books[symbol];
      } else {
        b := null;
      }
    }

    /** get_all_order_books: every book once, in no particular order. */
    method GetAllOrderBooks() returns (r: seq<OrderBook>)
      requires Valid()
      ensures |r| == |books|
      ensures forall b :: b in r <==> b in books.Values
    {
      r := [];
      var left := books.Keys;
      while left != {}
        invariant left <= books.Keys
        invariant |r| + |left| == |books|
        invariant forall s :: s in books ==> (books[s] in r <==> s !in left)
        invariant forall b :: b in r ==> b in books.Values
        decreases |left|
      {
        var s :| s in left;
        r := r + [books[s]];
        left := left - {s};
      }
      forall b | b in books.Values ensures b in r {
        var s :| s in books && books[s] == b;
      }
    }

    /** register_trade_callback. */
    method RegisterTradeCallback(observer: nat)
      modifies this
      ensures observers == old(observers) + [observer]
      ensures books == old(books) && routing == old(routing)
    {
      observers := observers + [observer];
    }
  }
}
