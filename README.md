# cs50finance ledger model

A Dafny model of the trading core of the cs50finance web application (`app.py`). A logged-in user buys and
sells shares at prices from a quote source, sees a portfolio page, and registers with a password
policy. With the web, SQL and session layers removed, three parts remain, and each is modelled and
proved here:

- **The account ledger** (`accounts.dfy`, `ledger.dfy`). This is one user's cash, holdings rows and
  transaction history, as a class `Accounts.Account` whose methods `Buy`, `Sell` and `Portfolio`
  model the `buy`, `sell` and `index` handlers. Each handler runs all of its checks before its first
  write, so a rejected request changes nothing. An accepted one changes the cash, at most one holdings
  row and the history, by exactly the amounts the contracts state. The ledger invariants are kept:
  - cash is never negative;
  - there is one row per symbol;
  - no row is negative;
  - every symbol's holding equals its shares bought minus its shares sold over the history.

  The `ownedShares` search loops and the portfolio's two loops are methods with loop invariants. The
  tables and statements they read and write are pure functions in `Ledger`.
- **The share-count parser** (`share_count.dfy`). Both trade handlers use the same text check:
  strip leading `'0'`s, then demand a non-empty digit string. `ParseShares` models it, and
  `ParseSharesSpec` proves exactly which fields it accepts.
- **Registration and the password policy** (`registration.dfy`, `password_policy.dfy`). These are
  the `register` checks in their order, and the password pattern read as character-class
  predicates. The pattern, and the handler with it, are modelled twice: as written with `re.search`,
  and anchored at the very end. Proving them against the policy exposed the finding below.

`text.dfy` holds the string primitives (`strip`, `lstrip`, `isdigit` over ASCII). `wrappers.dfy`
holds `Option` and `Result`.

Modelling choices:
- Money is integer cents. Prices are `nat`; cash is `int`, with `cash >= 0` as an invariant.
- The quote source (`lookup`) is a map from the text looked up to a quote. The quote holds the
  name, the canonical ticker and the price.
- A form field that is missing and one that is empty are both falsy in the handlers, so both are
  the empty string here.
- The `sell` handler checks ownership with the raw form field, but it updates and logs under the
  quote's ticker. The model keeps the two apart, exactly as the code does. The ledger invariants
  are proved for `sell` whenever every held row is for a canonical ticker (`Ledger.SettledRows`).
  A canonical ticker is its own `strip()`, and the quote source maps it to itself. Against one fixed
  quote source that hands out only canonical tickers, the condition holds from the empty ledger
  onwards: buys keep it (`Ledger.AddSharesSettled`) and so do sells. It holds for that source only.
  If the source later stops listing a held ticker, or maps it to another ticker, the rows are no
  longer canonical for it. `Sell` then still keeps the invariants whenever the quote's ticker equals
  the raw field. Otherwise it states the effect exactly and claims no invariants.

## Model

| member | source | states |
|---|---|---|
| Text.TrimLeft | app.py:98 | `lstrip(drop)` returns a suffix of its input. Everything it removed is in `drop`, and the result does not start with a character of `drop`. |
| Text.TrimRight | app.py:93 | The right half of `strip()` returns a prefix of its input. Everything it removed is in the set, and the result does not end with a character of the set. |
| Text.StripNoop | app.py:93 | A string with no whitespace at either end is its own `strip()`. |
| Text.StripNewline | app.py:276 | A string with no whitespace at either end, followed by one newline, strips back to itself. |
| Text.StripSpec | app.py:93 | `strip()` never grows a string, leaves no whitespace at either end, and is idempotent. |
| ShareCount.ParseShares | app.py:98-100 | The share-count check. Any count it accepts is at least 1, so the `int(shares) < 0` test never decides. |
| ShareCount.ParseSharesSpec | app.py:98-100 | A field is accepted exactly when it is all digits and not all of them are '0'. The count is then the decimal value of the whole field, leading zeros included. |
| ShareCount.AcceptedField | app.py:98-100 | An accepted field is all digits, its first digit after the zeros is not '0', and its count is its decimal value. |
| ShareCount.AcceptedDigits | app.py:98-100 | What the share-count check read from an accepted field is a non-empty digit string that does not start with '0', and the count is its value. |
| ShareCount.ZerosSplit | app.py:98 | A field is the '0' characters `lstrip("0")` removed, followed by what it kept. |
| ShareCount.AcceptingField | app.py:313-315 | A digit field with a digit other than '0' is accepted. |
| ShareCount.ZeroPrefixValue | app.py:98 | Leading '0's change neither digit-ness nor the value that `int()` reads. |
| ShareCount.AllZerosValue | app.py:98-99 | A run of '0's is a digit string of value 0. |
| ShareCount.PositiveValue | app.py:99 | A digit string that does not start with '0' has value at least 1. |
| ShareCount.DecimalSpec | app.py:99 | The decimal rendering of `n` is a digit string, has no leading '0' when `n >= 1`, and reads back as `n`. |
| ShareCount.ParseDecimal | app.py:98-100 | Round trip: any positive count written in decimal, with any number of leading zeros, parses back to itself. |
| ShareCount.AllZerosRejected | app.py:98-100 | A field made only of '0's, including the empty field, is rejected. |
| ShareCount.NonDigitRejected | app.py:99 | A field holding any non-digit character is rejected. |
| ShareCount.ZeroFieldExamples | app.py:98-100 | "", "0" and "000" are rejected. |
| ShareCount.NonDigitExamples | app.py:99 | "-3", "1.5" and " 7" are rejected. |
| ShareCount.LeadingZerosExample | app.py:98-100 | "007" parses to 7. |
| ShareCount.CountExamples | app.py:313-315 | "10" parses to 10 and "15" to 15, the counts of `Accounts.BuyScenario` and `Accounts.SellScenario`. |
| PasswordPolicy.LookaheadInAllowed | app.py:263 | Over allowed characters, each `(?=.*X)` lookahead holds exactly when a member of X occurs somewhere. |
| PasswordPolicy.FullMatchIsPolicy | app.py:261-266 | The end-anchored pattern accepts exactly the passwords of the stated policy: 8 to 20 allowed characters, with a lower-case letter, an upper-case letter, a digit and one of `@$!%*#?&`. |
| PasswordPolicy.LookaheadExtend | app.py:263-265 | A lookahead that succeeds on a string still succeeds once a newline is appended. |
| PasswordPolicy.LookaheadShrink | app.py:263-265 | A lookahead that succeeds on `q + "\n"` already succeeds on `q`. |
| PasswordPolicy.SearchMatchesSpec | app.py:263-266 | `re.search` with the pattern as written accepts exactly the policy passwords, plus each of them followed by one newline. |
| PasswordPolicy.AllowedNotSpace | app.py:263 | No character the pattern allows is whitespace. |
| PasswordPolicy.StrongPasswordStripped | app.py:261-276 | A policy password is its own `strip()`, so the intended handler hashes it unchanged. |
| PasswordPolicy.NewlineStripped | app.py:263-276 | A policy password followed by one newline strips to the policy password. |
| PasswordPolicy.PolicyExamples | app.py:261-263 | "Abcdef1!" meets the policy and "abc" does not. |
| PasswordPolicy.TrailingNewlineAccepted | app.py:263-266 | For every policy password q, `q + "\n"` passes the pattern as written, although it breaks the policy and the end-anchored pattern refuses it. |
| PasswordPolicy.TrailingNewlineExample | app.py:263-266 | "Abcdef1!\n" passes the pattern as written and fails the end-anchored one. |
| Registration.Register | app.py:248-279 | The handler as written, matching the password with `re.search`. On success, the stored name is the stripped username, which was not taken, and the password equals the confirmation. The hashed text is the stripped password. Either the password meets the policy and is hashed unchanged, or it is a policy password plus one newline and the hash is of the policy password. |
| Registration.AcceptedSecret | app.py:263-276 | A password the pattern as written accepts strips to the policy password it is built on. |
| Registration.RegisterErrorOrder | app.py:248-272 | For the handler as written, each of the six errors occurs exactly when every earlier check passed and its own check failed. Success occurs exactly when all checks pass, with the pattern matched by `re.search` (both directions). |
| Registration.RegisterIntended | app.py:248-279 | The handler as evidently intended, with the end-anchored pattern. On success, the stored name is the stripped username, which was not taken, and the password meets the policy, equals the confirmation and is hashed unchanged. |
| Registration.RegisterIntendedErrorOrder | app.py:248-272 | The same order, both directions, for the intended handler, with the policy in place of the pattern. |
| Registration.IntendedAgrees | app.py:248-279 | The two handlers give the same result for every password that does not end in a newline. |
| Registration.TrailingNewlineRegisters | app.py:263-279 | For every policy password q and free username, the handler as written registers `q + "\n"` and hashes q, while the intended handler refuses it as weak. |
| Registration.RegisterTwiceRefused | app.py:269-279 | Once a name has registered, the same request against the updated users table is refused as taken. |
| Registration.WeakPasswordExample | app.py:266-267 | "abc" is refused as a weak password for any non-empty username. |
| Registration.StrongPasswordExample | app.py:261-279 | "Abcdef1!" registers a fresh username that has no surrounding whitespace. |
| Ledger.OwnedRow | app.py:116-119 | With one row per symbol, the searched value is the shares of that symbol's row. |
| Ledger.OwnedAbsent | app.py:116-119 | A symbol with no row gets 0 from the search. |
| Ledger.OwnedNonNegative | app.py:330-334 | With no negative row, the searched holding is non-negative. |
| Ledger.OwnedSetShares | app.py:121-122 | After `UPDATE ... SET shares = v WHERE symbol = ...`, that symbol holds v if it had a row. Every other symbol keeps its holding, and the set of symbols with a row is unchanged. |
| Ledger.SetSharesDistinct | app.py:121-122 | The UPDATE keeps one row per symbol. |
| Ledger.OwnedAppend | app.py:125-126 | An inserted row decides the holding of its own symbol and leaves the others alone. |
| Ledger.AddSharesEffect | app.py:113-126 | A buy's UPDATE-or-INSERT is described fully. The ticker gains n shares and every other symbol keeps its count. Rows stay one per symbol and non-negative, and only the ticker can gain a row. |
| Ledger.RemoveSharesEffect | app.py:329-336 | A sell's UPDATE of a held symbol by at most its holding works this way. The symbol loses n shares and keeps its row even at 0. Every other symbol is unchanged, the rows stay one per symbol and non-negative, and no row appears or disappears. |
| Ledger.NetAppend | app.py:129-130 | Appending a history record moves each symbol's net bought-minus-sold by that record's delta. |
| Ledger.EmptyLedgerOk | app.py:279 | A new user's empty ledger satisfies the ledger invariants. |
| Ledger.BuyKeepsLedger | app.py:108-130 | A buy of n >= 1 shares whose cost the cash covers keeps the invariants: cash >= 0, one row per symbol, no negative row, positive records, holdings = bought minus sold. |
| Ledger.SellKeepsLedger | app.py:323-340 | A sell of 1 <= n <= holding of a held ticker, recorded under that ticker, keeps the same invariants. |
| Ledger.OwnedSymbolResolves | app.py:303-309 | When rows are for canonical tickers, a held symbol looks up to a quote for itself. |
| Ledger.SetSharesSettled | app.py:335-336 | The sell's UPDATE keeps the rows canonical exactly when they were. |
| Ledger.SettledSell | app.py:303-336 | When rows are for canonical tickers, the checked raw symbol is the quote's ticker. The UPDATE therefore hits the checked row: that symbol loses n shares, the others are unchanged, and the rows stay canonical. |
| Ledger.SellOutcome | app.py:303-340 | For a checked raw symbol and the quote its stripped form looks up: when the quote's ticker is the raw symbol, the sell's writes keep the ledger invariants and only that symbol loses n shares. With canonical rows the ticker is always the raw symbol, and the rows stay canonical. |
| Ledger.AddSharesSettled | app.py:113-126 | When the quote source hands out canonical tickers, a buy keeps the rows canonical. |
| Ledger.ListedSpec | app.py:57 | `WHERE shares > 0` lists a row exactly when it is in the table with a positive count, and never lists more rows than the table has. |
| Ledger.ListedAllPositive | app.py:57 | A table with no empty row is listed whole, in order. |
| Accounts.OwnedShares | app.py:116-119 | The `ownedShares` loop returns the holding of the symbol. That is 0 when there is no row, and with one row per symbol it is that row's shares. |
| Accounts.Account.constructor | app.py:279 | A new account has the starting cash, no holdings, no history, and satisfies the invariants. |
| Accounts.Account.Buy | app.py:92-130 | The three rejections (symbol, count, funds) in their order leave the state unchanged. An accepted buy debits n·price, adds n shares to the ticker (a new row if absent), leaves every other symbol's count unchanged and appends one BUY record. The invariants are kept, and so are canonical rows. |
| Accounts.Account.Sell | app.py:300-340 | The rejections (blank or unknown symbol, no row for the raw field, bad count, too many shares) in their order leave the state unchanged. An accepted sell credits n·price, sets the ticker's row to its holding minus n and appends one SELL record. A rejected sell keeps the invariants. An accepted one keeps them whenever the quote's ticker is the raw field, and then only the sold symbol's count changes, by exactly n. Canonical rows stay canonical, and with canonical rows the ticker is always the raw field. |
| Accounts.Account.CheckSell | app.py:300-321 | The `sell` checks on the current rows decide the error, or else the quote and count. An accepted count lies between 1 and the raw symbol's holding. |
| Accounts.Account.AcceptSell | app.py:323-340 | The accepted path of `sell` produces exactly the new cash, rows and history. When the ticker is the raw symbol, the invariants are kept and only that symbol's count changes. With canonical rows, the raw symbol is the ticker and the rows stay canonical. |
| Accounts.Account.RecordBuy | app.py:108-130 | The buy's writes: the cash UPDATE, the row UPDATE or INSERT, the history INSERT. They keep the invariants when 1 <= n and the cost is at most the cash. |
| Accounts.Account.RecordSell | app.py:323-340 | The sell's writes, using the `ownedShares` loop over the rows read before them. They keep the invariants for a held ticker and 1 <= n <= its holding. |
| Accounts.Account.Portfolio | app.py:52-78 | The page fails exactly when a listed symbol is unknown to the quote source. Otherwise it has one entry per row with shares > 0, in order, each entry's total is shares·price, and the grand total is cash plus the sum of the totals. |
| Accounts.Account.PortfolioIsStable | app.py:56-78 | With no trade in between, two portfolio views over the same quotes are identical. |
| Accounts.BuyScenario | app.py:92-130 | Worked example. With 10000.00 in cash and nothing held, buying 10 NFLX at 500.00 is accepted. It leaves 5000.00, one row of 10 NFLX and one BUY record, and the invariants hold. |
| Accounts.SellScenario | app.py:300-321 | Worked example. Holding 10 NFLX, a sell of 15 is refused for too many shares, and cash, rows and history are unchanged. |

## Left out

- Flask routing, templates, redirects, `apology` pages and the no-cache headers are presentation and I/O. Each rejection is an `Outcome` or error value instead.
- The SQL database is left out. Each user's tables are sequences held by one `Account`, and the users table is a set of names. Row order is table order. Atomicity across concurrent requests is a store concern and is not modelled.
- `lookup`, `login_required` and `usd` live in `helpers.py`, which is not part of this model. `lookup` is a network call, so it becomes a fixed map handed to each operation.
- Floating-point arithmetic (`float(int(shares)) * quote["price"]`) is replaced by exact integer cents, so rounding is not modelled.
- Password hashing (`generate_password_hash`, `check_password_hash`), `login`, `logout` and the session gate depend on library code and unseen helpers, so they are not modelled. `Register` returns the stored name and the text that would be hashed; the hash itself is not computed.
- The `history` and `quote` pages only read and format. Their `datetime` formatting and the timestamps of history records are not modelled.
- Crashes from a missing form field (`.strip()` on `None`) are left out. A missing field is treated as an empty one.
- Unicode `isdigit`, `\d` and `isspace` are not modelled: ASCII only.
- The starting cash of a new user comes from the database schema, which is not shown, so it is a constructor parameter.
- Accounts.OwnedShares: it returns the last row for the symbol, like the loops at lines 116-119 and 330-333. The `SELECT ... WHERE symbol = ?` at lines 318-320 takes the first row instead. The two agree because rows are one per symbol (`Ledger.OwnedRow`), so `Sell`'s count check uses the loop.
- Accounts.Account.Sell: it claims the ledger invariants after an accepted sell only when the quote's ticker is the raw field, which every canonical ledger guarantees (`Ledger.SettledRows`). Suppose the raw field names a row while its lookup returns a different ticker. The handler then credits the cash, updates the other ticker's row (possibly none) and logs under that ticker, and the invariants can break. The model states that effect exactly but does not claim the invariants for it.
- Accounts.Account.Buy: does not model Python's number limits. `float(int(shares))` at line 103 raises `OverflowError` for a count of about 309 digits or more, so the handler fails with an HTTP 500 before any write. The model instead returns `InsufficientFunds`, or `Accepted` when the price is 0.
- ShareCount.ParseShares: does not model Python's limit of 4300 digits on `int()` of a string. Past it, `int(shares)` at lines 99 and 314 raises `ValueError` and the request fails with an HTTP 500. The model accepts such a field. For `sell` this is the only such limit that matters, because the count check at line 320 stops any count above the 64-bit holding before the float at line 324.
- Ledger.AddSharesEffect: does not model SQLite's 64-bit `INTEGER`. A share count past 2^63 - 1 in the UPDATE or INSERT at lines 121-126 (or, for `sell`, line 335) fails in the store. The model's counts are unbounded.
- Accounts.Account.RecordSell: it promises the invariants only for a held ticker and 1 <= n <= its holding, the case `Sell` guarantees when rows are canonical.

## Findings

| source | as written | input that shows it | evidently intended | confidence | as-written member | corrected member |
|---|---|---|---|---|---|---|
| app.py:263-276 | The policy pattern ends in `$` and is tried with `re.search`. In Python, `$` also matches just before a final newline, so a policy password followed by `"\n"` is accepted, although a newline is not an allowed character. Line 276 then stores the hash of its stripped form, which is the policy password without the newline. | `"Abcdef1!\n"` as password and confirmation | Accept exactly the stated policy: 8 to 20 allowed characters with one of each class (as `re.fullmatch` or `\Z` would test it) | not executed | Registration.Register, Registration.TrailingNewlineRegisters | Registration.RegisterIntended |
