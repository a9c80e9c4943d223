/**
 * One user's account as the `buy`, `sell` and `index` handlers see it: cash, the holdings rows and the
 * transaction history, updated in place. Each handler validates first and writes afterwards.
 */
module Accounts {
  import opened Wrappers
  import opened Text
  import opened ShareCount
  import opened Ledger

  datatype TradeError =
    | InvalidSymbol       // blank symbol, unknown to the quote source, or (sell) not held
    | InvalidShares       // the share-count field does not parse
    | InsufficientFunds   // buy: the cost exceeds the cash
    | InsufficientShares  // sell: more shares than held

  datatype Outcome = Accepted | Rejected(reason: TradeError)

  /** A trade that passed its checks: the quote it goes through at, and the share count. */
  datatype Order = Order(quote: Quote, shares: nat)

  /** The portfolio page: one entry per listed holding, the cash, and the grand total. */
  datatype View = View(entries: seq<Entry>, cash: int, grandTotal: int)

  /** The `ownedShares` loop of both handlers. */
  method OwnedShares(rows: seq<Holding>, symbol: string) returns (owned: int)
    ensures owned == Owned(rows, symbol)
    ensures !HasRow(rows, symbol) ==> owned == 0
    ensures Distinct(rows) ==> forall i :: 0 <= i < |rows| && rows[i].symbol == symbol ==> owned == rows[i].shares
  {
    owned := 0;
    var i := 0;
    while i < |rows|
      invariant 0 <= i <= |rows|
      invariant owned == Owned(rows[..i], symbol)
    {
      assert rows[..i + 1][..i] == rows[..i];
      if rows[i].symbol == symbol {
        owned := rows[i].shares;
      }
      i := i + 1;
    }
    assert rows[..i] == rows;
    if !HasRow(rows, symbol) {
      OwnedAbsent(rows, symbol);
    }
    if Distinct(rows) {
      forall i | 0 <= i < |rows| && rows[i].symbol == symbol ensures owned == rows[i].shares {
        OwnedRow(rows, i);
      }
    }
  }

  class Account {
    var cash: int
    var holdings: seq<Holding>
    var history: seq<Record>

    /** The ledger invariants, `Ledger.LedgerOk`, of this account. */
    ghost predicate Valid()
      reads this
    {
      LedgerOk(cash, holdings, history)
    }

    /** A freshly registered user: starting cash, no holdings, no history. */
    constructor (startingCash: nat)
      ensures Valid()
      ensures cash == startingCash && holdings == [] && history == []
    {
      cash, holdings, history := startingCash, [], [];
      EmptyLedgerOk(startingCash);
    }

    /**
     * The `buy` handler. The symbol field must be non-blank and its stripped form known to the quote
     * source, the share count must parse, and its cost must not exceed the cash; a rejected buy changes
     * nothing. An accepted one debits the cost, adds the shares to the ticker's row (inserting one if
     * needed) and appends one BUY record.
     */
    method Buy(quotes: Quotes, symbolField: string, sharesField: string) returns (outcome: Outcome)
      requires Valid()
      modifies this
      ensures Valid()
      ensures symbolField == "" || Strip(symbolField) !in quotes ==> outcome == Rejected(InvalidSymbol)
      ensures symbolField != "" && Strip(symbolField) in quotes && ParseShares(sharesField).None? ==>
        outcome == Rejected(InvalidShares)
      ensures symbolField != "" && Strip(symbolField) in quotes && ParseShares(sharesField).Some? ==>
        var q, n := quotes[Strip(symbolField)], ParseShares(sharesField).value;
        outcome == if n * q.price > old(cash) then Rejected(InsufficientFunds) else Accepted
      ensures outcome.Rejected? ==> cash == old(cash) && holdings == old(holdings) && history == old(history)
      ensures outcome.Accepted? ==>
        var q, n := quotes[Strip(symbolField)], ParseShares(sharesField).value;
        && cash == old(cash) - n * q.price
        && holdings == AddShares(old(holdings), q, n)
        && (forall s :: Owned(holdings, s) == Owned(old(holdings), s) + (if s == q.symbol then n else 0))
        && history == old(history) + [Record(Kind.Buy, q.symbol, q.name, n, q.price)]
      ensures CanonicalQuotes(quotes) && old(SettledRows(holdings, quotes)) ==> SettledRows(holdings, quotes)
    {
      var quote := Lookup(quotes, Strip(symbolField));
      if symbolField == "" || quote.None? {
        return Rejected(InvalidSymbol);
      }
      var shares := ParseShares(sharesField);
      if shares.None? {
        return Rejected(InvalidShares);
      }
      var q, n := quote.value, shares.value;
      var cost := n * q.price;
      if cost > cash {
        return Rejected(InsufficientFunds);
      }
      ghost var rows := holdings;
      if SettledRows(rows, quotes) && CanonicalQuotes(quotes) {
        AddSharesSettled(rows, quotes, Strip(symbolField), n);
      }
      AddSharesEffect(rows, q, n);
      RecordBuy(q, n);
      outcome := Accepted;
    }

    /**
     * The `sell` handler. The raw symbol field must be non-blank, its stripped form known to the quote
     * source, and the raw field itself must name a row the user has (a row at 0 shares passes); then
     * the count must parse and not exceed that row's shares. A rejected sell changes nothing. An
     * accepted one credits the proceeds, sets the row of the quote's ticker to that ticker's shares
     * minus the count (keeping the row at 0) and appends one SELL record. The ledger invariants are
     * kept whenever that ticker is the raw field itself, and then only the sold symbol's count moves.
     * When every row is for a canonical ticker, the two always coincide.
     */
    method Sell(quotes: Quotes, symbolField: string, sharesField: string) returns (outcome: Outcome)
      requires Valid()
      modifies this
      ensures symbolField == "" || Strip(symbolField) !in quotes || !HasRow(old(holdings), symbolField) ==>
        outcome == Rejected(InvalidSymbol)
      ensures symbolField != "" && Strip(symbolField) in quotes && HasRow(old(holdings), symbolField) ==>
        match ParseShares(sharesField)
        case None => outcome == Rejected(InvalidShares)
        case Some(n) => outcome == if n > Owned(old(holdings), symbolField) then Rejected(InsufficientShares) else Accepted
      ensures outcome.Rejected? ==> cash == old(cash) && holdings == old(holdings) && history == old(history)
      ensures outcome.Accepted? ==>
        var q, n := quotes[Strip(symbolField)], ParseShares(sharesField).value;
        && cash == old(cash) + n * q.price
        && holdings == SetShares(old(holdings), q.symbol, Owned(old(holdings), q.symbol) - n)
        && history == old(history) + [Record(Kind.Sell, q.symbol, q.name, n, q.price)]
      ensures outcome.Accepted? ==> Strip(symbolField) in quotes && HasRow(old(holdings), symbolField)
      ensures outcome.Rejected? || quotes[Strip(symbolField)].symbol == symbolField ==> Valid()
      ensures outcome.Accepted? && quotes[Strip(symbolField)].symbol == symbolField ==>
        var n := ParseShares(sharesField).value;
        forall s :: Owned(holdings, s) == Owned(old(holdings), s) - (if s == symbolField then n else 0)
      ensures old(SettledRows(holdings, quotes)) ==> SettledRows(holdings, quotes)
      ensures old(SettledRows(holdings, quotes)) && outcome.Accepted? ==>
        quotes[Strip(symbolField)].symbol == symbolField
    {
      var verdict := CheckSell(quotes, symbolField, sharesField);
      if verdict.Err? {
        return Rejected(verdict.error);
      }
      var order := verdict.value;
      assert order.quote == quotes[Strip(symbolField)] && order.shares == ParseShares(sharesField).value;
      AcceptSell(quotes, symbolField, holdings, order.quote, order.shares);
      outcome := Accepted;
    }

    /**
     * The checks of `sell`, in the handler's order, on the rows as they are: a non-blank symbol field
     * whose stripped form the quote source knows, a row for the raw field, a count that parses and
     * does not exceed the shares of that row (found by the `ownedShares` loop). Nothing is written.
     */
    method CheckSell(quotes: Quotes, symbolField: string, sharesField: string) returns (verdict: Result<Order, TradeError>)
      ensures symbolField == "" || Strip(symbolField) !in quotes || !HasRow(holdings, symbolField) ==>
        verdict == Err(InvalidSymbol)
      ensures symbolField != "" && Strip(symbolField) in quotes && HasRow(holdings, symbolField) ==>
        match ParseShares(sharesField)
        case None => verdict == Err(InvalidShares)
        case Some(n) =>
          verdict == if n > Owned(holdings, symbolField) then Err(InsufficientShares)
                     else Ok(Order(quotes[Strip(symbolField)], n))
      ensures verdict.Ok? ==>
        && symbolField != "" && Strip(symbolField) in quotes && HasRow(holdings, symbolField)
        && verdict.value == Order(quotes[Strip(symbolField)], ParseShares(sharesField).value)
        && 1 <= verdict.value.shares <= Owned(holdings, symbolField)
    {
      if symbolField == "" {
        return Err(InvalidSymbol);
      }
      var quote := Lookup(quotes, Strip(symbolField));
      if quote.None? {
        return Err(InvalidSymbol);
      }
      var userStocks := holdings;
      if !HasRow(userStocks, symbolField) {
        return Err(InvalidSymbol);
      }
      var shares := ParseShares(sharesField);
      if shares.None? {
        return Err(InvalidShares);
      }
      var sharesOwned := OwnedShares(userStocks, symbolField);
      if shares.value > sharesOwned {
        return Err(InsufficientShares);
      }
      verdict := Ok(Order(quote.value, shares.value));
    }

    /**
     * The accepted path of `sell`, once every check has passed: the writes. When the quote's ticker is
     * the raw field, the ledger invariants are kept and only that symbol's count moves; when every row
     * is for a canonical ticker, it is the raw field.
     */
    method AcceptSell(quotes: Quotes, symbolField: string, userStocks: seq<Holding>, q: Quote, n: nat)
      requires Valid() && userStocks == holdings
      requires Strip(symbolField) in quotes && q == quotes[Strip(symbolField)]
      requires HasRow(holdings, symbolField) && 1 <= n <= Owned(holdings, symbolField)
      modifies this
      ensures cash == old(cash) + n * q.price
      ensures holdings == SetShares(old(holdings), q.symbol, Owned(old(holdings), q.symbol) - n)
      ensures history == old(history) + [Record(Kind.Sell, q.symbol, q.name, n, q.price)]
      ensures q.symbol == symbolField ==>
        && Valid()
        && (forall s :: Owned(holdings, s) == Owned(old(holdings), s) - (if s == symbolField then n else 0))
      ensures old(SettledRows(holdings, quotes)) ==> q.symbol == symbolField && SettledRows(holdings, quotes)
    {
      ghost var rows, past, funds := holdings, history, cash;
      SellOutcome(funds, rows, past, quotes, symbolField, q, n);
      RecordSell(userStocks, q, n);
      if q.symbol == symbolField {
        assert LedgerOk(cash, holdings, history);
      }
    }

    /**
     * The writes of an accepted buy (the cash UPDATE, the holdings UPDATE or INSERT, the history
     * INSERT), which keep the ledger invariants.
     */
    method RecordBuy(q: Quote, n: nat)
      requires Valid()
      requires n >= 1 && n * q.price <= cash
      modifies this
      ensures Valid()
      ensures cash == old(cash) - n * q.price
      ensures holdings == AddShares(old(holdings), q, n)
      ensures history == old(history) + [Record(Kind.Buy, q.symbol, q.name, n, q.price)]
    {
      ghost var rows, past, funds := holdings, history, cash;
      BuyKeepsLedger(cash, holdings, history, q, n);
      cash := cash - n * q.price;
      var stocks := holdings;
      if HasRow(stocks, q.symbol) {
        var owned := OwnedShares(stocks, q.symbol);
        holdings := SetShares(holdings, q.symbol, owned + n);
      } else {
        holdings := holdings + [Holding(q.symbol, q.name, n)];
      }
      history := history + [Record(Kind.Buy, q.symbol, q.name, n, q.price)];
      assert holdings == AddShares(rows, q, n);
      assert cash == funds - n * q.price;
      assert history == past + [Record(Kind.Buy, q.symbol, q.name, n, q.price)];
    }

    /**
     * The writes of an accepted sell: credit the proceeds, set the row of the quote's ticker to that
     * ticker's shares (found by the `ownedShares` loop over the rows read before the writes) minus the
     * count, append the SELL record. When the ticker is a held symbol with at least `n` shares, the
     * ledger invariants are kept.
     */
    method RecordSell(userStocks: seq<Holding>, q: Quote, n: nat)
      requires userStocks == holdings
      modifies this
      ensures cash == old(cash) + n * q.price
      ensures holdings == SetShares(old(holdings), q.symbol, Owned(old(holdings), q.symbol) - n)
      ensures history == old(history) + [Record(Kind.Sell, q.symbol, q.name, n, q.price)]
      ensures old(Valid()) && HasRow(old(holdings), q.symbol) && 1 <= n <= Owned(old(holdings), q.symbol) ==> Valid()
    {
      ghost var rows, past, funds := holdings, history, cash;
      if Valid() && HasRow(rows, q.symbol) && 1 <= n <= Owned(rows, q.symbol) {
        SellKeepsLedger(cash, holdings, history, q, n);
      }
      cash := cash + n * q.price;
      var owned := OwnedShares(userStocks, q.symbol);
      holdings := SetShares(holdings, q.symbol, owned - n);
      history := history + [Record(Kind.Sell, q.symbol, q.name, n, q.price)];
      assert holdings == SetShares(rows, q.symbol, Owned(rows, q.symbol) - n);
      assert cash == funds + n * q.price;
      assert history == past + [Record(Kind.Sell, q.symbol, q.name, n, q.price)];
    }

    /**
     * The `index` handler. It lists the holdings with a positive count, in table order, each with the
     * quote's price and its value (shares times price), and totals them with the cash. A listed symbol
     * the quote source does not know makes the whole page fail.
     */
    method Portfolio(quotes: Quotes) returns (view: Option<View>)
      ensures view.None? <==> exists j :: 0 <= j < |Listed(holdings)| && Listed(holdings)[j].symbol !in quotes
      ensures view.Some? ==>
        && |view.value.entries| == |Listed(holdings)|
        && (forall j :: 0 <= j < |Listed(holdings)| ==>
              var s, e := Listed(holdings)[j], view.value.entries[j];
              && s.symbol in quotes
              && e == Entry(s.name, s.symbol, s.shares, quotes[s.symbol].price, s.shares * quotes[s.symbol].price))
        && view.value.cash == cash
        && view.value.grandTotal == cash + SumTotals(view.value.entries)
    {
      var stocks := Listed(holdings);
      var userStocks: seq<Entry> := [];
      var i := 0;
      while i < |stocks|
        invariant 0 <= i <= |stocks|
        invariant |userStocks| == i
        invariant forall j :: 0 <= j < i ==>
          && stocks[j].symbol in quotes
          && userStocks[j] == Entry(stocks[j].name, stocks[j].symbol, stocks[j].shares,
                                    quotes[stocks[j].symbol].price, stocks[j].shares * quotes[stocks[j].symbol].price)
      {
        var quote := Lookup(quotes, stocks[i].symbol);
        if quote.None? {
          assert Listed(holdings)[i].symbol !in quotes;
          return None;
        }
        var totalVal := quote.value.price * stocks[i].shares;
        userStocks := userStocks + [Entry(stocks[i].name, stocks[i].symbol, stocks[i].shares, quote.value.price, totalVal)];
        i := i + 1;
      }
      var grandTotal := 0;
      i := 0;
      while i < |userStocks|
        invariant 0 <= i <= |userStocks|
        invariant grandTotal == SumTotals(userStocks[..i])
      {
        assert userStocks[..i + 1][..i] == userStocks[..i];
        grandTotal := grandTotal + userStocks[i].total;
        i := i + 1;
      }
      assert userStocks[..i] == userStocks;
      grandTotal := grandTotal + cash;
      view := Some(View(userStocks, cash, grandTotal));
    }

    /** With no trade in between, two portfolio views over the same quotes are identical. */
    method PortfolioIsStable(quotes: Quotes) returns (same: bool)
      ensures same
    {
      var first := Portfolio(quotes);
      var second := Portfolio(quotes);
      if first.Some? && second.Some? {
        assert first.value.entries == second.value.entries;
      }
      same := first == second;
    }
  }

  /**
   * A user with 10000.00 buys 10 NFLX at 500.00 (the count field is any text that parses to 10, such as
   * "10"): 5000.00 is left, 10 shares are held, one BUY is logged.
   */
  method BuyScenario(account: Account, count: string) returns (outcome: Outcome)
    requires account.Valid() && account.cash == 1000000 && account.holdings == [] && account.history == []
    requires ParseShares(count) == Some(10)
    modifies account
    ensures outcome == Accepted && account.Valid()
    ensures account.cash == 500000
    ensures account.holdings == [Holding("NFLX", "Netflix", 10)]
    ensures account.history == [Record(Kind.Buy, "NFLX", "Netflix", 10, 50000)]
  {
    var quotes := map["NFLX" := Quote("Netflix", "NFLX", 50000)];
    StripNoop("NFLX");
    outcome := account.Buy(quotes, "NFLX", count);
  }

  /** Holding 10 NFLX, a sell of 15 (any count field that parses to 15) is refused and changes nothing. */
  method SellScenario(account: Account, count: string) returns (outcome: Outcome)
    requires account.Valid() && account.holdings == [Holding("NFLX", "Netflix", 10)]
    requires ParseShares(count) == Some(15)
    modifies account
    ensures outcome == Rejected(InsufficientShares) && account.Valid()
    ensures account.cash == old(account.cash) && account.history == old(account.history)
    ensures account.holdings == [Holding("NFLX", "Netflix", 10)]
  {
    var quotes := map["NFLX" := Quote("Netflix", "NFLX", 50000)];
    StripNoop("NFLX");
    assert account.holdings[0].symbol == "NFLX";
    assert HasRow(account.holdings, "NFLX") && Owned(account.holdings, "NFLX") == 10;
    outcome := account.Sell(quotes, "NFLX", count);
  }
}
