/**
 * The ledger's tables as values: one user's holdings rows, their transaction history and the quote
 * source, with the functions that say what the handlers' SQL statements and loops compute. Money is in
 * integer cents.
 */
module Ledger {
  import opened Wrappers
  import opened Text

  /** What `lookup` returns for a symbol: the company name, its canonical ticker and the price in cents. */
  datatype Quote = Quote(name: string, symbol: string, price: nat)

  /** The quote source, fixed for the duration of one request. */
  type Quotes = map<string, Quote>

  function Lookup(quotes: Quotes, symbol: string): Option<Quote>
  {
    if symbol in quotes then Some(quotes[symbol]) else None
  }

  /** A row of the `stocks` table for the user. */
  datatype Holding = Holding(symbol: string, name: string, shares: int)

  datatype Kind = Buy | Sell

  /** A row of the `history` table for the user (the timestamp is not modelled). */
  datatype Record = Record(kind: Kind, symbol: string, name: string, shares: nat, price: nat)

  predicate HasRow(rows: seq<Holding>, symbol: string)
  {
    exists i :: 0 <= i < |rows| && rows[i].symbol == symbol
  }

  /** The `ownedShares` loops: the shares of the last row for `symbol`, or 0 when there is none. */
  function Owned(rows: seq<Holding>, symbol: string): int
  {
    if rows == [] then 0
    else if rows[|rows| - 1].symbol == symbol then rows[|rows| - 1].shares
    else Owned(rows[..|rows| - 1], symbol)
  }

  /** At most one row per symbol. */
  predicate Distinct(rows: seq<Holding>)
  {
    forall i, j :: 0 <= i < j < |rows| ==> rows[i].symbol != rows[j].symbol
  }

  predicate NonNegative(rows: seq<Holding>)
  {
    forall i :: 0 <= i < |rows| ==> rows[i].shares >= 0
  }

  /** `UPDATE stocks SET shares = v WHERE symbol = symbol`: every matching row gets `v`, nothing else moves. */
  function SetShares(rows: seq<Holding>, symbol: string, v: int): seq<Holding>
  {
    seq(|rows|, i requires 0 <= i < |rows| => if rows[i].symbol == symbol then rows[i].(shares := v) else rows[i])
  }

  /** What `buy` does to the holdings: add to the row of the ticker, or insert a new row for it. */
  function AddShares(rows: seq<Holding>, q: Quote, n: nat): seq<Holding>
  {
    if HasRow(rows, q.symbol) then SetShares(rows, q.symbol, Owned(rows, q.symbol) + n)
    else rows + [Holding(q.symbol, q.name, n)]
  }

  /** How one history record moves the share count of `symbol`. */
  function Delta(r: Record, symbol: string): int
  {
    if r.symbol != symbol then 0 else if r.kind == Buy then r.shares as int else -(r.shares as int)
  }

  /** Shares of `symbol` bought minus shares sold, over a history. */
  function Net(history: seq<Record>, symbol: string): int
  {
    if history == [] then 0 else Net(history[..|history| - 1], symbol) + Delta(history[|history| - 1], symbol)
  }

  /** Every symbol's holding equals its net bought-minus-sold count (0 for a symbol with no row). */
  ghost predicate Reconciled(rows: seq<Holding>, history: seq<Record>)
  {
    forall s :: Owned(rows, s) == Net(history, s)
  }

  /**
   * The ledger invariants: cash is never negative, there is one row per symbol, no row is negative,
   * every record moves a positive number of shares, and each symbol's holding is its bought-minus-sold
   * count over the history.
   */
  ghost predicate LedgerOk(cash: int, rows: seq<Holding>, history: seq<Record>)
  {
    && cash >= 0
    && Distinct(rows)
    && NonNegative(rows)
    && (forall i :: 0 <= i < |history| ==> history[i].shares >= 1)
    && Reconciled(rows, history)
  }

  /** `s` is a canonical ticker: it is its own `strip()` and the quote source maps it to itself. */
  predicate IsTicker(quotes: Quotes, s: string)
  {
    Strip(s) == s && s in quotes && quotes[s].symbol == s
  }

  /** Every ticker the quote source hands out is canonical. */
  ghost predicate CanonicalQuotes(quotes: Quotes)
  {
    forall k :: k in quotes ==> IsTicker(quotes, quotes[k].symbol)
  }

  /** Every row the user holds is for a canonical ticker. */
  ghost predicate SettledRows(rows: seq<Holding>, quotes: Quotes)
  {
    forall s :: HasRow(rows, s) ==> IsTicker(quotes, s)
  }

  /** `SELECT ... WHERE shares > 0`: the rows with a positive share count, in table order. */
  function Listed(rows: seq<Holding>): seq<Holding>
  {
    if rows == [] then []
    else Listed(rows[..|rows| - 1]) + (if rows[|rows| - 1].shares > 0 then [rows[|rows| - 1]] else [])
  }

  /** One line of the portfolio page. */
  datatype Entry = Entry(name: string, symbol: string, shares: int, price: nat, total: int)

  function SumTotals(entries: seq<Entry>): int
  {
    if entries == [] then 0 else SumTotals(entries[..|entries| - 1]) + entries[|entries| - 1].total
  }

  // ---------------------------------------------------------------- lemmas

  /** Under `Distinct`, `Owned` is the shares of the one row for the symbol. */
  lemma {:induction false} OwnedRow(rows: seq<Holding>, i: nat)
    requires Distinct(rows) && i < |rows|
    ensures Owned(rows, rows[i].symbol) == rows[i].shares
  {
    if i < |rows| - 1 {
      OwnedRow(rows[..|rows| - 1], i);
    }
  }

  /** A symbol with no row owns nothing. */
  lemma {:induction false} OwnedAbsent(rows: seq<Holding>, s: string)
    requires !HasRow(rows, s)
    ensures Owned(rows, s) == 0
  {
    if rows != [] {
      OwnedAbsent(rows[..|rows| - 1], s);
    }
  }

  /** With no negative row there is no negative holding. */
  lemma {:induction false} OwnedNonNegative(rows: seq<Holding>, s: string)
    requires NonNegative(rows)
    ensures Owned(rows, s) >= 0
  {
    if rows != [] {
      OwnedNonNegative(rows[..|rows| - 1], s);
    }
  }

  /** After the UPDATE the symbol holds `v` if it had a row, and every other symbol is unchanged. */
  lemma {:induction false} OwnedSetShares(rows: seq<Holding>, symbol: string, v: int, t: string)
    ensures Owned(SetShares(rows, symbol, v), t) == if t == symbol && HasRow(rows, symbol) then v else Owned(rows, t)
    ensures forall u :: HasRow(SetShares(rows, symbol, v), u) <==> HasRow(rows, u)
  {
    var r := SetShares(rows, symbol, v);
    assert forall i :: 0 <= i < |rows| ==> r[i].symbol == rows[i].symbol;
    if rows != [] {
      var init := rows[..|rows| - 1];
      assert r[..|r| - 1] == SetShares(init, symbol, v);
      OwnedSetShares(init, symbol, v, t);
      if t == symbol && !HasRow(init, symbol) && rows[|rows| - 1].symbol != symbol {
        assert !HasRow(rows, symbol);
      }
      if t == symbol && HasRow(rows, symbol) && rows[|rows| - 1].symbol != symbol {
        var i :| 0 <= i < |rows| && rows[i].symbol == symbol;
        assert init[i].symbol == symbol;
      }
    }
  }

  /** The UPDATE keeps one row per symbol. */
  lemma SetSharesDistinct(rows: seq<Holding>, symbol: string, v: int)
    requires Distinct(rows)
    ensures Distinct(SetShares(rows, symbol, v))
  {
    var r := SetShares(rows, symbol, v);
    assert forall i :: 0 <= i < |rows| ==> r[i].symbol == rows[i].symbol;
  }

  /** An appended row decides the holding of its own symbol. */
  lemma OwnedAppend(rows: seq<Holding>, h: Holding, t: string)
    ensures Owned(rows + [h], t) == if h.symbol == t then h.shares else Owned(rows, t)
  {
    assert (rows + [h])[..|rows|] == rows;
  }

  /**
   * The holdings after a buy: the ticker gains `n` shares (a new row if it had none), every other
   * symbol keeps its count, the rows stay one per symbol and non-negative, and the set of symbols
   * with a row grows by the ticker alone.
   */
  lemma AddSharesEffect(rows: seq<Holding>, q: Quote, n: nat)
    requires Distinct(rows)
    ensures Distinct(AddShares(rows, q, n))
    ensures forall t :: Owned(AddShares(rows, q, n), t) == Owned(rows, t) + (if t == q.symbol then n else 0)
    ensures NonNegative(rows) ==> NonNegative(AddShares(rows, q, n))
    ensures forall t :: HasRow(AddShares(rows, q, n), t) <==> HasRow(rows, t) || t == q.symbol
  {
    var r := AddShares(rows, q, n);
    if HasRow(rows, q.symbol) {
      var v := Owned(rows, q.symbol) + n;
      SetSharesDistinct(rows, q.symbol, v);
      forall t ensures Owned(r, t) == Owned(rows, t) + (if t == q.symbol then n else 0) {
        OwnedSetShares(rows, q.symbol, v, t);
      }
      if NonNegative(rows) {
        OwnedNonNegative(rows, q.symbol);
      }
      OwnedSetShares(rows, q.symbol, v, q.symbol);
    } else {
      var h := Holding(q.symbol, q.name, n);
      forall t ensures Owned(r, t) == Owned(rows, t) + (if t == q.symbol then n else 0) {
        OwnedAppend(rows, h, t);
        if t == q.symbol {
          OwnedAbsent(rows, t);
        }
      }
      forall t | HasRow(r, t) ensures HasRow(rows, t) || t == q.symbol {
        var i :| 0 <= i < |r| && r[i].symbol == t;
        if i < |rows| {
          assert rows[i] == r[i];
        }
      }
      forall t | HasRow(rows, t) ensures HasRow(r, t) {
        var i :| 0 <= i < |rows| && rows[i].symbol == t;
        assert r[i] == rows[i];
      }
      assert r[|rows|].symbol == q.symbol;
    }
  }

  /**
   * The holdings after a sell of `n <= Owned(rows, symbol)` shares of a held symbol: that symbol loses
   * `n` shares and keeps its row even at 0, every other symbol keeps its count, and the rows stay one
   * per symbol and non-negative.
   */
  lemma RemoveSharesEffect(rows: seq<Holding>, symbol: string, n: nat)
    requires Distinct(rows) && HasRow(rows, symbol) && n <= Owned(rows, symbol)
    ensures var r := SetShares(rows, symbol, Owned(rows, symbol) - n);
      && Distinct(r)
      && (forall t :: Owned(r, t) == Owned(rows, t) - (if t == symbol then n else 0))
      && (NonNegative(rows) ==> NonNegative(r))
      && (forall t :: HasRow(r, t) <==> HasRow(rows, t))
  {
    var v := Owned(rows, symbol) - n;
    SetSharesDistinct(rows, symbol, v);
    forall t ensures Owned(SetShares(rows, symbol, v), t) == Owned(rows, t) - (if t == symbol then n else 0) {
      OwnedSetShares(rows, symbol, v, t);
    }
    OwnedSetShares(rows, symbol, v, symbol);
  }

  /** Appending a record moves each symbol's net count by that record's delta. */
  lemma NetAppend(history: seq<Record>, r: Record)
    ensures forall s :: Net(history + [r], s) == Net(history, s) + Delta(r, s)
  {
    assert (history + [r])[..|history|] == history;
  }

  /** The empty ledger of a new user satisfies the invariants for any non-negative starting cash. */
  lemma EmptyLedgerOk(cash: nat)
    ensures LedgerOk(cash, [], [])
  {
  }

  /**
   * A buy of `n >= 1` shares whose cost the cash covers keeps the ledger invariants; cash may reach
   * exactly 0.
   */
  lemma BuyKeepsLedger(cash: int, rows: seq<Holding>, history: seq<Record>, q: Quote, n: nat)
    requires LedgerOk(cash, rows, history)
    requires n >= 1 && n * q.price <= cash
    ensures LedgerOk(cash - n * q.price, AddShares(rows, q, n), history + [Record(Buy, q.symbol, q.name, n, q.price)])
  {
    var record := Record(Buy, q.symbol, q.name, n, q.price);
    AddSharesEffect(rows, q, n);
    NetAppend(history, record);
  }

  /**
   * A sell of `1 <= n <= Owned(rows, symbol)` shares of a held symbol, recorded under that same symbol,
   * keeps the ledger invariants.
   */
  lemma SellKeepsLedger(cash: int, rows: seq<Holding>, history: seq<Record>, q: Quote, n: nat)
    requires LedgerOk(cash, rows, history)
    requires HasRow(rows, q.symbol) && 1 <= n <= Owned(rows, q.symbol)
    ensures LedgerOk(cash + n * q.price, SetShares(rows, q.symbol, Owned(rows, q.symbol) - n),
                     history + [Record(Sell, q.symbol, q.name, n, q.price)])
  {
    var record := Record(Sell, q.symbol, q.name, n, q.price);
    RemoveSharesEffect(rows, q.symbol, n);
    NetAppend(history, record);
  }

  /** With every row for a canonical ticker, a symbol that has a row resolves to a quote for itself. */
  lemma OwnedSymbolResolves(rows: seq<Holding>, quotes: Quotes, raw: string)
    requires SettledRows(rows, quotes) && HasRow(rows, raw)
    ensures Lookup(quotes, Strip(raw)) == Some(quotes[raw]) && quotes[raw].symbol == raw
  {
  }

  /**
   * What a sell's writes mean for a checked raw symbol and the quote its stripped form looks up. When
   * the quote's ticker is the raw symbol, the writes keep the ledger invariants and only that symbol
   * loses shares; with every row for a canonical ticker that is always the case, and the rows stay
   * canonical.
   */
  lemma SellOutcome(cash: int, rows: seq<Holding>, history: seq<Record>, quotes: Quotes, raw: string, q: Quote, n: nat)
    requires LedgerOk(cash, rows, history)
    requires Strip(raw) in quotes && q == quotes[Strip(raw)]
    requires HasRow(rows, raw) && 1 <= n <= Owned(rows, raw)
    ensures var after := SetShares(rows, q.symbol, Owned(rows, q.symbol) - n);
      q.symbol == raw ==>
        && LedgerOk(cash + n * q.price, after, history + [Record(Sell, q.symbol, q.name, n, q.price)])
        && (forall s :: Owned(after, s) == Owned(rows, s) - (if s == raw then n else 0))
    ensures SettledRows(rows, quotes) ==>
      q.symbol == raw && SettledRows(SetShares(rows, q.symbol, Owned(rows, q.symbol) - n), quotes)
  {
    if SettledRows(rows, quotes) {
      SettledSell(rows, quotes, raw, q, n);
    }
    if q.symbol == raw {
      RemoveSharesEffect(rows, raw, n);
      SellKeepsLedger(cash, rows, history, q, n);
    }
  }

  /** The UPDATE of a sell neither adds nor removes a row, so the rows stay canonical exactly when they were. */
  lemma SetSharesSettled(rows: seq<Holding>, quotes: Quotes, symbol: string, v: int)
    ensures SettledRows(SetShares(rows, symbol, v), quotes) <==> SettledRows(rows, quotes)
  {
    OwnedSetShares(rows, symbol, v, symbol);
  }

  /**
   * When every row is for a canonical ticker, a sell whose raw symbol passed the ownership check goes
   * through at the quote of that same symbol, so the UPDATE (made on the quote's ticker) hits the row
   * that was checked: the symbol loses `n` shares, every other symbol keeps its count, and the rows
   * stay canonical.
   */
  lemma SettledSell(rows: seq<Holding>, quotes: Quotes, raw: string, q: Quote, n: nat)
    requires Distinct(rows) && SettledRows(rows, quotes) && HasRow(rows, raw) && n <= Owned(rows, raw)
    requires Strip(raw) in quotes && q == quotes[Strip(raw)]
    ensures q.symbol == raw
    ensures var after := SetShares(rows, q.symbol, Owned(rows, q.symbol) - n);
      && (forall t :: Owned(after, t) == Owned(rows, t) - (if t == raw then n else 0))
      && SettledRows(after, quotes)
  {
    OwnedSymbolResolves(rows, quotes, raw);
    RemoveSharesEffect(rows, raw, n);
    SetSharesSettled(rows, quotes, raw, Owned(rows, raw) - n);
  }

  /** A buy keeps the rows canonical when the quote source hands out canonical tickers. */
  lemma AddSharesSettled(rows: seq<Holding>, quotes: Quotes, k: string, n: nat)
    requires Distinct(rows) && CanonicalQuotes(quotes) && SettledRows(rows, quotes) && k in quotes
    ensures SettledRows(AddShares(rows, quotes[k], n), quotes)
  {
    AddSharesEffect(rows, quotes[k], n);
  }

  /** The portfolio lists a row exactly when it is in the table with a positive share count. */
  lemma {:induction false} ListedSpec(rows: seq<Holding>)
    ensures forall x :: x in Listed(rows) <==> x in rows && x.shares > 0
    ensures |Listed(rows)| <= |rows|
  {
    if rows != [] {
      var init := rows[..|rows| - 1];
      ListedSpec(init);
      assert rows == init + [rows[|rows| - 1]];
    }
  }

  /** A table with no empty row is listed whole. */
  lemma {:induction false} ListedAllPositive(rows: seq<Holding>)
    requires forall i :: 0 <= i < |rows| ==> rows[i].shares > 0
    ensures Listed(rows) == rows
  {
    if rows != [] {
      ListedAllPositive(rows[..|rows| - 1]);
    }
  }
}
