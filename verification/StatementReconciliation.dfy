/** Reconciliation of a broker statement with the internal books, from both sides. */
module StatementReconciliation {
  import opened Prelude
  import opened Sorting

  /** Exact decimals as scaled integers. */
  type Amount = int

  datatype CashRow = CashRow(currency: string, balance: string)

  datatype PositionRow = PositionRow(instrument: string, quantity: string)

  datatype Statement = Statement(cash: seq<CashRow>, positions: seq<PositionRow>)

  datatype Position = Position(instrument: string, quantity: Amount)

  /** Balances by account and currency. */
  type Ledger = map<(string, string), Amount>

  datatype Incident =
    | CashMismatch(currency: string, internal: Amount, broker: Amount)
    | PositionMismatch(instrument: string, internal: Amount, broker: Amount)

  datatype Error =
    | BadCurrency(text: string)
    | BadDecimal(text: string)
    | DuplicateCash(currency: string)
    | DuplicatePosition(instrument: string)

  /** `Currency::new` and `Decimal::from_str`. */
  datatype Parsers = Parsers(currency: string -> Option<string>, decimal: string -> Option<Amount>)

  function Balance(ledger: Ledger, account: string, currency: string): Amount {
    if (account, currency) in ledger then ledger[(account, currency)] else 0
  }

  function Listed(listed: map<string, Amount>, key: string): Amount {
    if key in listed then listed[key] else 0
  }

  // ----- The statement as two maps -----

  function AddCash(p: Parsers, cash: map<string, Amount>, row: CashRow): Result<map<string, Amount>, Error> {
    match (p.currency(row.currency), p.decimal(row.balance))
    case (None, _) => Failure(BadCurrency(row.currency))
    case (_, None) => Failure(BadDecimal(row.balance))
    case (Some(currency), Some(balance)) =>
      if currency in cash then Failure(DuplicateCash(currency)) else Success(cash[currency := balance])
  }

  function CashOf(p: Parsers, rows: seq<CashRow>): Result<map<string, Amount>, Error> {
    if rows == [] then Success(map[])
    else
      match CashOf(p, rows[..|rows| - 1])
      case Failure(error) => Failure(error)
      case Success(cash) => AddCash(p, cash, rows[|rows| - 1])
  }

  function AddPosition(p: Parsers, held: map<string, Amount>, row: PositionRow): Result<map<string, Amount>, Error> {
    match p.decimal(row.quantity)
    case None => Failure(BadDecimal(row.quantity))
    case Some(quantity) =>
      if row.instrument in held then Failure(DuplicatePosition(row.instrument))
      else Success(held[row.instrument := quantity])
  }

  function PositionsOf(p: Parsers, rows: seq<PositionRow>): Result<map<string, Amount>, Error> {
    if rows == [] then Success(map[])
    else
      match PositionsOf(p, rows[..|rows| - 1])
      case Failure(error) => Failure(error)
      case Success(held) => AddPosition(p, held, rows[|rows| - 1])
  }

  // ----- The incidents, in the order they are found -----

  function CashListed(ledger: Ledger, account: string, cash: map<string, Amount>, keys: seq<string>): seq<Incident>
    requires forall k :: k in keys ==> k in cash
  {
    if keys == [] then []
    else
      var front, last := keys[..|keys| - 1], keys[|keys| - 1];
      CashListed(ledger, account, cash, front)
      + (if Balance(ledger, account, last) != cash[last]
         then [CashMismatch(last, Balance(ledger, account, last), cash[last])] else [])
  }

  function CashUnlisted(ledger: Ledger, account: string, cash: map<string, Amount>, keys: seq<(string, string)>)
    : seq<Incident>
    requires forall k :: k in keys ==> k in ledger
  {
    if keys == [] then []
    else
      var front, last := keys[..|keys| - 1], keys[|keys| - 1];
      CashUnlisted(ledger, account, cash, front)
      + (if last.0 == account && last.1 !in cash && ledger[last] != 0
         then [CashMismatch(last.1, ledger[last], 0)] else [])
  }

  /** The internal positions against the broker's, and what the broker's side has left. */
  function PositionsHeld(positions: seq<Position>, held: map<string, Amount>): (seq<Incident>, map<string, Amount>) {
    if positions == [] then ([], held)
    else
      var (found, left) := PositionsHeld(positions[..|positions| - 1], held);
      var last := positions[|positions| - 1];
      var broker := Listed(left, last.instrument);
      (found + (if last.quantity != broker
                then [PositionMismatch(last.instrument, last.quantity, broker)] else []),
       left - {last.instrument})
  }

  function PositionsUnheld(left: map<string, Amount>, keys: seq<string>): seq<Incident>
    requires forall k :: k in keys ==> k in left
  {
    if keys == [] then []
    else
      var front, last := keys[..|keys| - 1], keys[|keys| - 1];
      PositionsUnheld(left, front) + (if left[last] != 0 then [PositionMismatch(last, 0, left[last])] else [])
  }

  predicate PairLess(a: (string, string), b: (string, string)) {
    Less(a.0, b.0) || (a.0 == b.0 && Less(a.1, b.1))
  }

  lemma PairLessIsStrictOrder()
    ensures IsStrictOrder(PairLess)
  {
    hide Less;
    forall a: (string, string), b: (string, string) ensures a == b || PairLess(a, b) || PairLess(b, a) {
      LessIsTotal(a.0, b.0);
      LessIsTotal(a.1, b.1);
    }
    forall a: (string, string) ensures !PairLess(a, a) {
      LessIsTotal(a.0, a.0);
      LessIsTotal(a.1, a.1);
    }
    forall a, b, c | PairLess(a, b) && PairLess(b, c) ensures PairLess(a, c) {
      PairsChain(a, b, c);
    }
  }

  lemma PairsChain(a: (string, string), b: (string, string), c: (string, string))
    requires PairLess(a, b) && PairLess(b, c)
    ensures PairLess(a, c)
  {
    hide Less;
    if Less(a.0, b.0) && Less(b.0, c.0) {
      LessIsTransitive(a.0, b.0, c.0);
    }
    if Less(a.1, b.1) && Less(b.1, c.1) {
      LessIsTransitive(a.1, b.1, c.1);
    }
  }

  ghost function Ordered(keys: set<string>): (list: seq<string>)
    ensures StrictlyAscending(list)
    ensures forall k :: k in list <==> k in keys
  {
    LessIsStrictOrder();
    Sorted(Less, keys)
  }

  ghost function OrderedPairs(keys: set<(string, string)>): (list: seq<(string, string)>)
    ensures Ascends(PairLess, list)
    ensures forall k :: k in list <==> k in keys
  {
    PairLessIsStrictOrder();
    Sorted(PairLess, keys)
  }

  /** All incidents of two books. */
  ghost function Incidents(
    ledger: Ledger, positions: seq<Position>, cash: map<string, Amount>, held: map<string, Amount>, account: string)
    : seq<Incident>
  {
    var (found, left) := PositionsHeld(positions, held);
    CashListed(ledger, account, cash, Ordered(cash.Keys))
    + CashUnlisted(ledger, account, cash, OrderedPairs(ledger.Keys))
    + found + PositionsUnheld(left, Ordered(left.Keys))
  }

  ghost function Reconciled(p: Parsers, ledger: Ledger, positions: seq<Position>, statement: Statement, account: string)
    : Result<seq<Incident>, Error>
  {
    match CashOf(p, statement.cash)
    case Failure(error) => Failure(error)
    case Success(cash) =>
      match PositionsOf(p, statement.positions)
      case Failure(error) => Failure(error)
      case Success(held) => Success(Incidents(ledger, positions, cash, held, account))
  }

  /** `reconcile_statement`. */
  method ReconcileStatement(p: Parsers, ledger: Ledger, positions: seq<Position>, statement: Statement, account: string)
    returns (r: Result<seq<Incident>, Error>)
    ensures r == Reconciled(p, ledger, positions, statement, account)
  {
    hide CashListed, CashUnlisted, PositionsHeld, PositionsUnheld, CashOf, PositionsOf, Incidents;
    var cash := ReadCash(p, statement.cash);
    if cash.Failure? {
      return Failure(cash.error);
    }
    var incidents := CompareCash(ledger, account, cash.value);
    var held := ReadPositions(p, statement.positions);
    if held.Failure? {
      return Failure(held.error);
    }
    var more := ComparePositions(positions, held.value);
    AllIncidents(ledger, positions, cash.value, held.value, account);
    r := Success(incidents + more);
  }

  lemma AllIncidents(
    ledger: Ledger, positions: seq<Position>, cash: map<string, Amount>, held: map<string, Amount>, account: string)
    ensures var (found, left) := PositionsHeld(positions, held);
            Incidents(ledger, positions, cash, held, account)
            == (CashListed(ledger, account, cash, Ordered(cash.Keys))
                + CashUnlisted(ledger, account, cash, OrderedPairs(ledger.Keys)))
               + (found + PositionsUnheld(left, Ordered(left.Keys)))
  {
    hide CashListed, CashUnlisted, PositionsHeld, PositionsUnheld, Ordered, OrderedPairs;
  }

  method ReadCash(p: Parsers, rows: seq<CashRow>) returns (r: Result<map<string, Amount>, Error>)
    ensures r == CashOf(p, rows)
  {
    hide AddCash;
    var cash: map<string, Amount> := map[];
    assert rows[..0] == [];
    for i := 0 to |rows|
      invariant CashOf(p, rows[..i]) == Success(cash)
    {
      assert rows[..i + 1][..i] == rows[..i];
      CashStays(p, rows, i + 1);
      var next := AddCash(p, cash, rows[i]);
      if next.Failure? {
        return next;
      }
      cash := next.value;
    }
    assert rows[..|rows|] == rows;
    r := Success(cash);
  }

  /** The first bad row decides. */
  lemma {:induction false} CashStays(p: Parsers, rows: seq<CashRow>, i: nat)
    requires i <= |rows|
    ensures CashOf(p, rows[..i]).Failure? ==> CashOf(p, rows) == CashOf(p, rows[..i])
    decreases |rows|
  {
    hide AddCash;
    if i < |rows| {
      CashStays(p, rows[..|rows| - 1], i);
      assert rows[..|rows| - 1][..i] == rows[..i];
    } else {
      assert rows[..i] == rows;
    }
  }

  method ReadPositions(p: Parsers, rows: seq<PositionRow>) returns (r: Result<map<string, Amount>, Error>)
    ensures r == PositionsOf(p, rows)
  {
    hide AddPosition;
    var held: map<string, Amount> := map[];
    assert rows[..0] == [];
    for i := 0 to |rows|
      invariant PositionsOf(p, rows[..i]) == Success(held)
    {
      assert rows[..i + 1][..i] == rows[..i];
      PositionsStay(p, rows, i + 1);
      var next := AddPosition(p, held, rows[i]);
      if next.Failure? {
        return next;
      }
      held := next.value;
    }
    assert rows[..|rows|] == rows;
    r := Success(held);
  }

  lemma {:induction false} PositionsStay(p: Parsers, rows: seq<PositionRow>, i: nat)
    requires i <= |rows|
    ensures PositionsOf(p, rows[..i]).Failure? ==> PositionsOf(p, rows) == PositionsOf(p, rows[..i])
    decreases |rows|
  {
    hide AddPosition;
    if i < |rows| {
      PositionsStay(p, rows[..|rows| - 1], i);
      assert rows[..|rows| - 1][..i] == rows[..i];
    } else {
      assert rows[..i] == rows;
    }
  }

  method CompareCash(ledger: Ledger, account: string, cash: map<string, Amount>) returns (incidents: seq<Incident>)
    ensures incidents == CashListed(ledger, account, cash, Ordered(cash.Keys))
                         + CashUnlisted(ledger, account, cash, OrderedPairs(ledger.Keys))
  {
    hide Less, IsStrictOrder, Ascends, PairLess, CashListed, CashUnlisted;
    LessIsStrictOrder();
    PairLessIsStrictOrder();
    var currencies := Sort(Less, cash.Keys);
    var listed := CompareListedCash(ledger, account, cash, currencies);
    var entries := Sort(PairLess, ledger.Keys);
    var unlisted := CompareUnlistedCash(ledger, account, cash, entries);
    incidents := listed + unlisted;
  }

  method CompareListedCash(ledger: Ledger, account: string, cash: map<string, Amount>, currencies: seq<string>)
    returns (incidents: seq<Incident>)
    requires forall k :: k in currencies ==> k in cash
    ensures incidents == CashListed(ledger, account, cash, currencies)
  {
    incidents := [];
    for i := 0 to |currencies|
      invariant incidents == CashListed(ledger, account, cash, currencies[..i])
    {
      assert currencies[..i + 1][..i] == currencies[..i];
      var currency := currencies[i];
      assert currency in currencies;
      var internal := Balance(ledger, account, currency);
      if internal != cash[currency] {
        incidents := incidents + [CashMismatch(currency, internal, cash[currency])];
      }
    }
    assert currencies[..|currencies|] == currencies;
  }

  method CompareUnlistedCash(ledger: Ledger, account: string, cash: map<string, Amount>, entries: seq<(string, string)>)
    returns (incidents: seq<Incident>)
    requires forall k :: k in entries ==> k in ledger
    ensures incidents == CashUnlisted(ledger, account, cash, entries)
  {
    incidents := [];
    for i := 0 to |entries|
      invariant incidents == CashUnlisted(ledger, account, cash, entries[..i])
    {
      assert entries[..i + 1][..i] == entries[..i];
      var (holder, currency) := entries[i];
      assert entries[i] in entries;
      if holder == account && currency !in cash && ledger[entries[i]] != 0 {
        incidents := incidents + [CashMismatch(currency, ledger[entries[i]], 0)];
      }
    }
    assert entries[..|entries|] == entries;
  }

  method ComparePositions(positions: seq<Position>, held: map<string, Amount>) returns (incidents: seq<Incident>)
    ensures var (found, left) := PositionsHeld(positions, held);
            incidents == found + PositionsUnheld(left, Ordered(left.Keys))
  {
    hide Less, IsStrictOrder, Ascends, PositionsHeld, PositionsUnheld;
    LessIsStrictOrder();
    incidents := [];
    var left := held;
    assert positions[..0] == [] && PositionsHeld([], held) == ([], held) by { HeldNothing(held); }
    for i := 0 to |positions|
      invariant (incidents, left) == PositionsHeld(positions[..i], held)
    {
      HeldOneMore(positions, held, i);
      var position := positions[i];
      var broker := Listed(left, position.instrument);
      left := left - {position.instrument};
      assert incidents + [] == incidents;
      if position.quantity != broker {
        incidents := incidents + [PositionMismatch(position.instrument, position.quantity, broker)];
      }
    }
    assert positions[..|positions|] == positions;
    var keys := Sort(Less, left.Keys);
    var more := CompareUnheld(left, keys);
    incidents := incidents + more;
  }

  method CompareUnheld(left: map<string, Amount>, keys: seq<string>) returns (incidents: seq<Incident>)
    requires forall k :: k in keys ==> k in left
    ensures incidents == PositionsUnheld(left, keys)
  {
    incidents := [];
    for i := 0 to |keys|
      invariant incidents == PositionsUnheld(left, keys[..i])
    {
      assert keys[..i + 1][..i] == keys[..i];
      assert keys[i] in keys;
      if left[keys[i]] != 0 {
        incidents := incidents + [PositionMismatch(keys[i], 0, left[keys[i]])];
      }
    }
    assert keys[..|keys|] == keys;
  }

  lemma HeldNothing(held: map<string, Amount>)
    ensures PositionsHeld([], held) == ([], held)
  {
  }

  lemma HeldOneMore(positions: seq<Position>, held: map<string, Amount>, i: nat)
    requires i < |positions|
    ensures var (found, left) := PositionsHeld(positions[..i], held);
            var broker := Listed(left, positions[i].instrument);
            PositionsHeld(positions[..i + 1], held)
            == (found + (if positions[i].quantity != broker
                         then [PositionMismatch(positions[i].instrument, positions[i].quantity, broker)] else []),
                left - {positions[i].instrument})
  {
    hide Listed;
    assert positions[..i + 1][..i] == positions[..i];
  }

  // ----- What the statement's maps are -----

  ghost predicate Has(m: map<string, Amount>, key: string, value: Amount) {
    key in m && m[key] == value
  }

  /** Some row says so. */
  ghost predicate CashSays(p: Parsers, rows: seq<CashRow>, currency: string, balance: Amount) {
    exists row :: row in rows && p.currency(row.currency) == Some(currency) && p.decimal(row.balance) == Some(balance)
  }

  ghost predicate PositionSays(p: Parsers, rows: seq<PositionRow>, instrument: string, quantity: Amount) {
    exists row :: row in rows && row.instrument == instrument && p.decimal(row.quantity) == Some(quantity)
  }

  /** Every row parses, and no currency has two. */
  ghost predicate CashIsClean(p: Parsers, rows: seq<CashRow>) {
    && (forall row :: row in rows ==> p.currency(row.currency).Some? && p.decimal(row.balance).Some?)
    && (forall i, j :: 0 <= i < j < |rows| ==> p.currency(rows[i].currency) != p.currency(rows[j].currency))
  }

  ghost predicate PositionsAreClean(p: Parsers, rows: seq<PositionRow>) {
    && (forall row :: row in rows ==> p.decimal(row.quantity).Some?)
    && (forall i, j :: 0 <= i < j < |rows| ==> rows[i].instrument != rows[j].instrument)
  }

  lemma CashMore(p: Parsers, front: seq<CashRow>, last: CashRow)
    ensures CashIsClean(p, front + [last]) <==>
              && CashIsClean(p, front) && p.currency(last.currency).Some? && p.decimal(last.balance).Some?
              && forall row :: row in front ==> p.currency(row.currency) != p.currency(last.currency)
    ensures forall c, b :: CashSays(p, front + [last], c, b) <==>
              CashSays(p, front, c, b) || (p.currency(last.currency) == Some(c) && p.decimal(last.balance) == Some(b))
  {
    var rows := front + [last];
    assert forall row :: row in rows <==> row in front || row == last;
    if CashIsClean(p, rows) {
      assert forall i :: 0 <= i < |front| ==> rows[i] == front[i];
      forall row | row in front ensures p.currency(row.currency) != p.currency(last.currency) {
        var i :| 0 <= i < |front| && front[i] == row;
        assert rows[i] == row && rows[|front|] == last;
      }
    }
  }

  /** Cash rows are accepted exactly when all parse and no currency repeats; then the map is the rows. */
  lemma {:induction false} CashIsExact(p: Parsers, rows: seq<CashRow>)
    ensures CashOf(p, rows).Success? <==> CashIsClean(p, rows)
    ensures CashOf(p, rows).Success? ==> forall c, b :: Has(CashOf(p, rows).value, c, b) <==> CashSays(p, rows, c, b)
  {
    if rows != [] {
      var front, last := rows[..|rows| - 1], rows[|rows| - 1];
      assert rows == front + [last];
      CashIsExact(p, front);
      CashMore(p, front, last);
      if CashOf(p, front).Success? && CashIsClean(p, front) {
        AddCashIsExact(p, front, CashOf(p, front).value, last);
      }
    }
  }

  lemma AddCashIsExact(p: Parsers, front: seq<CashRow>, cash: map<string, Amount>, last: CashRow)
    requires CashIsClean(p, front) && forall c, b :: Has(cash, c, b) <==> CashSays(p, front, c, b)
    ensures AddCash(p, cash, last).Success? <==>
              && p.currency(last.currency).Some? && p.decimal(last.balance).Some?
              && forall row :: row in front ==> p.currency(row.currency) != p.currency(last.currency)
    ensures AddCash(p, cash, last).Success? ==>
              forall c, b :: Has(AddCash(p, cash, last).value, c, b) <==>
                CashSays(p, front, c, b) || (p.currency(last.currency) == Some(c) && p.decimal(last.balance) == Some(b))
  {
    forall row | row in front ensures Has(cash, p.currency(row.currency).value, p.decimal(row.balance).value) {
      assert CashSays(p, front, p.currency(row.currency).value, p.decimal(row.balance).value);
    }
    if p.currency(last.currency).Some? && p.currency(last.currency).value in cash {
      var c := p.currency(last.currency).value;
      assert Has(cash, c, cash[c]);
    }
  }

  /** What is wrong with a row of cash behind rows that are clean: its currency, else its balance, else that it repeats one. */
  ghost predicate CashFailsAt(p: Parsers, rows: seq<CashRow>, k: nat, error: Error) {
    && k < |rows| && CashIsClean(p, rows[..k])
    && match error
       case BadCurrency(text) => text == rows[k].currency && p.currency(text).None?
       case BadDecimal(text) => p.currency(rows[k].currency).Some? && text == rows[k].balance && p.decimal(text).None?
       case DuplicateCash(c) =>
         && p.currency(rows[k].currency) == Some(c) && p.decimal(rows[k].balance).Some?
         && exists i :: 0 <= i < k && p.currency(rows[i].currency) == Some(c)
       case DuplicatePosition(_) => false
  }

  /** The error of the cash rows is that of the first row that has one. */
  lemma {:induction false} CashFails(p: Parsers, rows: seq<CashRow>) returns (k: nat)
    requires CashOf(p, rows).Failure?
    ensures CashFailsAt(p, rows, k, CashOf(p, rows).error)
  {
    hide CashIsClean, Has, CashSays;
    var front, last := rows[..|rows| - 1], rows[|rows| - 1];
    if CashOf(p, front).Failure? {
      k := CashFails(p, front);
      assert front[..k] == rows[..k];
    } else {
      k := |rows| - 1;
      CashIsExact(p, front);
      if p.currency(last.currency).Some? && p.currency(last.currency).value in CashOf(p, front).value {
        var i := CurrencyIsListed(p, front, p.currency(last.currency).value);
        assert rows[i] == front[i];
      }
    }
  }

  lemma CurrencyIsListed(p: Parsers, rows: seq<CashRow>, c: string) returns (i: nat)
    requires CashOf(p, rows).Success? && c in CashOf(p, rows).value
    ensures i < |rows| && p.currency(rows[i].currency) == Some(c)
  {
    CashIsExact(p, rows);
    assert Has(CashOf(p, rows).value, c, CashOf(p, rows).value[c]);
    assert CashSays(p, rows, c, CashOf(p, rows).value[c]);
    var row :| row in rows && p.currency(row.currency) == Some(c);
    i :| 0 <= i < |rows| && rows[i] == row;
  }

  /** What is wrong with a row of positions: its quantity, else that it repeats an instrument. */
  ghost predicate PositionFailsAt(p: Parsers, rows: seq<PositionRow>, k: nat, error: Error) {
    && k < |rows| && PositionsAreClean(p, rows[..k])
    && match error
       case BadDecimal(text) => text == rows[k].quantity && p.decimal(text).None?
       case DuplicatePosition(id) =>
         p.decimal(rows[k].quantity).Some? && id == rows[k].instrument && exists i :: 0 <= i < k && rows[i].instrument == id
       case _ => false
  }

  lemma {:induction false} PositionsFail(p: Parsers, rows: seq<PositionRow>) returns (k: nat)
    requires PositionsOf(p, rows).Failure?
    ensures PositionFailsAt(p, rows, k, PositionsOf(p, rows).error)
  {
    hide PositionsAreClean, Has, PositionSays;
    var front, last := rows[..|rows| - 1], rows[|rows| - 1];
    if PositionsOf(p, front).Failure? {
      k := PositionsFail(p, front);
      assert front[..k] == rows[..k];
    } else {
      k := |rows| - 1;
      PositionsAreExact(p, front);
      if last.instrument in PositionsOf(p, front).value {
        var i := InstrumentIsListed(p, front, last.instrument);
        assert rows[i] == front[i];
      }
    }
  }

  lemma InstrumentIsListed(p: Parsers, rows: seq<PositionRow>, id: string) returns (i: nat)
    requires PositionsOf(p, rows).Success? && id in PositionsOf(p, rows).value
    ensures i < |rows| && rows[i].instrument == id
  {
    PositionsAreExact(p, rows);
    assert Has(PositionsOf(p, rows).value, id, PositionsOf(p, rows).value[id]);
    assert PositionSays(p, rows, id, PositionsOf(p, rows).value[id]);
    var row :| row in rows && row.instrument == id;
    i :| 0 <= i < |rows| && rows[i] == row;
  }

  /** A statement is refused for the first row that something is wrong with, the cash rows before the positions. */
  lemma RefusedForFirstBadRow(p: Parsers, ledger: Ledger, positions: seq<Position>, statement: Statement, account: string)
    returns (k: nat)
    requires Reconciled(p, ledger, positions, statement, account).Failure?
    ensures var error := Reconciled(p, ledger, positions, statement, account).error;
            || CashFailsAt(p, statement.cash, k, error)
            || (CashIsClean(p, statement.cash) && PositionFailsAt(p, statement.positions, k, error))
  {
    hide CashIsClean, CashFailsAt, PositionFailsAt, Incidents;
    if CashOf(p, statement.cash).Failure? {
      k := CashFails(p, statement.cash);
    } else {
      CashIsExact(p, statement.cash);
      k := PositionsFail(p, statement.positions);
    }
  }

  lemma PositionMore(p: Parsers, front: seq<PositionRow>, last: PositionRow)
    ensures PositionsAreClean(p, front + [last]) <==>
              && PositionsAreClean(p, front) && p.decimal(last.quantity).Some?
              && forall row :: row in front ==> row.instrument != last.instrument
    ensures forall id, q :: PositionSays(p, front + [last], id, q) <==>
              PositionSays(p, front, id, q) || (last.instrument == id && p.decimal(last.quantity) == Some(q))
  {
    var rows := front + [last];
    assert forall row :: row in rows <==> row in front || row == last;
    if PositionsAreClean(p, rows) {
      assert forall i :: 0 <= i < |front| ==> rows[i] == front[i];
      forall row | row in front ensures row.instrument != last.instrument {
        var i :| 0 <= i < |front| && front[i] == row;
        assert rows[i] == row && rows[|front|] == last;
      }
    }
  }

  /** The same of position rows. */
  lemma {:induction false} PositionsAreExact(p: Parsers, rows: seq<PositionRow>)
    ensures PositionsOf(p, rows).Success? <==> PositionsAreClean(p, rows)
    ensures PositionsOf(p, rows).Success? ==>
              forall id, q :: Has(PositionsOf(p, rows).value, id, q) <==> PositionSays(p, rows, id, q)
  {
    if rows != [] {
      var front, last := rows[..|rows| - 1], rows[|rows| - 1];
      assert rows == front + [last];
      PositionsAreExact(p, front);
      PositionMore(p, front, last);
      if PositionsOf(p, front).Success? && PositionsAreClean(p, front) {
        AddPositionIsExact(p, front, PositionsOf(p, front).value, last);
      }
    }
  }

  lemma AddPositionIsExact(p: Parsers, front: seq<PositionRow>, held: map<string, Amount>, last: PositionRow)
    requires PositionsAreClean(p, front) && forall id, q :: Has(held, id, q) <==> PositionSays(p, front, id, q)
    ensures AddPosition(p, held, last).Success? <==>
              p.decimal(last.quantity).Some? && forall row :: row in front ==> row.instrument != last.instrument
    ensures AddPosition(p, held, last).Success? ==>
              forall id, q :: Has(AddPosition(p, held, last).value, id, q) <==>
                PositionSays(p, front, id, q) || (last.instrument == id && p.decimal(last.quantity) == Some(q))
  {
    forall row | row in front ensures Has(held, row.instrument, p.decimal(row.quantity).value) {
      assert PositionSays(p, front, row.instrument, p.decimal(row.quantity).value);
    }
    if last.instrument in held {
      assert Has(held, last.instrument, held[last.instrument]);
    }
  }

  // ----- The incidents are the differences -----

  datatype Subject = Cash(currency: string) | Holding(instrument: string)

  function SubjectOf(incident: Incident): Subject {
    match incident
    case CashMismatch(currency, _, _) => Cash(currency)
    case PositionMismatch(instrument, _, _) => Holding(instrument)
  }

  /** No two incidents are about the same currency or instrument. */
  ghost predicate OnePerSubject(incidents: seq<Incident>) {
    forall i, j :: 0 <= i < j < |incidents| ==> SubjectOf(incidents[i]) != SubjectOf(incidents[j])
  }

  ghost predicate Mentions(incidents: seq<Incident>, subject: Subject) {
    exists incident :: incident in incidents && SubjectOf(incident) == subject
  }

  lemma JoinSubjects(a: seq<Incident>, b: seq<Incident>)
    requires OnePerSubject(a) && OnePerSubject(b)
    requires forall s :: Mentions(a, s) ==> !Mentions(b, s)
    ensures OnePerSubject(a + b)
    ensures forall s :: Mentions(a + b, s) <==> Mentions(a, s) || Mentions(b, s)
  {
    assert forall x :: x in a + b <==> x in a || x in b;
    forall i, j | 0 <= i < j < |a + b| ensures SubjectOf((a + b)[i]) != SubjectOf((a + b)[j]) {
      if i < |a| <= j {
        assert (a + b)[i] in a && (a + b)[j] in b;
        assert Mentions(a, SubjectOf((a + b)[i])) && Mentions(b, SubjectOf((a + b)[j]));
      } else if i >= |a| {
        assert (a + b)[i] == b[i - |a|] && (a + b)[j] == b[j - |a|];
      }
    }
  }

  ghost predicate AreDistinct<T(!new)>(s: seq<T>) {
    forall i, j :: 0 <= i < j < |s| ==> s[i] != s[j]
  }

  lemma LastIsNew<T(!new)>(s: seq<T>)
    requires AreDistinct(s) && s != []
    ensures AreDistinct(s[..|s| - 1]) && s[|s| - 1] !in s[..|s| - 1]
    ensures forall x :: x in s <==> x in s[..|s| - 1] || x == s[|s| - 1]
  {
    assert s == s[..|s| - 1] + [s[|s| - 1]];
  }

  lemma AscendingIsDistinct<T(!new)>(less: Order<T>, s: seq<T>)
    requires IsStrictOrder(less) && Ascends(less, s)
    ensures AreDistinct(s)
  {
  }

  lemma {:induction false} CashListedIsExact(
    ledger: Ledger, account: string, cash: map<string, Amount>, keys: seq<string>)
    requires AreDistinct(keys) && forall k :: k in keys ==> k in cash
    ensures forall x :: x in CashListed(ledger, account, cash, keys) <==>
              && x.CashMismatch? && x.currency in keys && x.internal == Balance(ledger, account, x.currency)
              && x.broker == cash[x.currency] && x.internal != x.broker
    ensures OnePerSubject(CashListed(ledger, account, cash, keys))
  {
    if keys != [] {
      LastIsNew(keys);
      CashListedIsExact(ledger, account, cash, keys[..|keys| - 1]);
    }
  }

  lemma {:induction false} CashUnlistedIsExact(
    ledger: Ledger, account: string, cash: map<string, Amount>, keys: seq<(string, string)>)
    requires AreDistinct(keys) && forall k :: k in keys ==> k in ledger
    ensures forall x :: x in CashUnlisted(ledger, account, cash, keys) <==>
              && x.CashMismatch? && (account, x.currency) in keys && x.currency !in cash
              && x.internal == ledger[(account, x.currency)] && x.broker == 0 && x.internal != 0
    ensures OnePerSubject(CashUnlisted(ledger, account, cash, keys))
  {
    if keys != [] {
      LastIsNew(keys);
      CashUnlistedIsExact(ledger, account, cash, keys[..|keys| - 1]);
      var last := keys[|keys| - 1];
      assert last == (last.0, last.1);
    }
  }

  lemma {:induction false} UnheldIsExact(left: map<string, Amount>, keys: seq<string>)
    requires AreDistinct(keys) && forall k :: k in keys ==> k in left
    ensures forall x :: x in PositionsUnheld(left, keys) <==>
              && x.PositionMismatch? && x.instrument in keys && x.internal == 0 && x.broker == left[x.instrument]
              && x.broker != 0
    ensures OnePerSubject(PositionsUnheld(left, keys))
  {
    if keys != [] {
      LastIsNew(keys);
      UnheldIsExact(left, keys[..|keys| - 1]);
    }
  }

  ghost predicate IsInternal(positions: seq<Position>, id: string) {
    exists q :: q in positions && q.instrument == id
  }

  /** The broker's quantity that a position is compared with: zero after the first of its instrument. */
  ghost function BrokerFor(positions: seq<Position>, held: map<string, Amount>, k: nat): Amount
    requires k < |positions|
  {
    if IsInternal(positions[..k], positions[k].instrument) then 0 else Listed(held, positions[k].instrument)
  }

  /** Whether a position is reported, whatever the other positions are. */
  ghost predicate Reports(positions: seq<Position>, held: map<string, Amount>, k: nat, x: Incident) {
    && k < |positions|
    && x == PositionMismatch(positions[k].instrument, positions[k].quantity, BrokerFor(positions, held, k))
    && x.internal != x.broker
  }

  lemma IsInternalMore(front: seq<Position>, last: Position)
    ensures forall id :: IsInternal(front + [last], id) <==> IsInternal(front, id) || last.instrument == id
  {
    assert forall q :: q in front + [last] <==> q in front || q == last;
  }

  lemma BrokerForStays(front: seq<Position>, last: Position, held: map<string, Amount>, k: nat)
    requires k < |front|
    ensures BrokerFor(front + [last], held, k) == BrokerFor(front, held, k)
  {
    assert (front + [last])[..k] == front[..k];
  }

  /** The comparison from the internal side, for all lists of positions: each is compared with the broker's quantity the
      first time, and with zero after that. */
  lemma {:induction false} HeldIsExact(positions: seq<Position>, held: map<string, Amount>)
    ensures var (found, left) := PositionsHeld(positions, held);
            && (forall x :: x in found <==> exists k: nat :: Reports(positions, held, k, x))
            && (forall id :: id in left <==> id in held && !IsInternal(positions, id))
            && (forall id :: id in left ==> left[id] == held[id])
  {
    if positions != [] {
      var front, last := positions[..|positions| - 1], positions[|positions| - 1];
      assert positions == front + [last];
      HeldIsExact(front, held);
      IsInternalMore(front, last);
      var (found, left) := PositionsHeld(front, held);
      assert positions[..|front|] == front;
      assert Listed(left, last.instrument) == BrokerFor(positions, held, |front|);
      var now := PositionsHeld(positions, held).0;
      forall x ensures x in now <==> exists k: nat :: Reports(positions, held, k, x) {
        ReportsMore(front, last, held, x);
      }
    }
  }

  lemma ReportsMore(front: seq<Position>, last: Position, held: map<string, Amount>, x: Incident)
    ensures (exists k: nat :: Reports(front + [last], held, k, x))
            <==> (exists k: nat :: Reports(front, held, k, x)) || Reports(front + [last], held, |front|, x)
  {
    forall k: nat ensures k < |front| ==> (Reports(front + [last], held, k, x) <==> Reports(front, held, k, x)) {
      if k < |front| {
        BrokerForStays(front, last, held, k);
      }
    }
  }

  // ----- Soundness and completeness -----

  ghost predicate IdsAreDistinct(positions: seq<Position>) {
    forall i, j :: 0 <= i < j < |positions| ==> positions[i].instrument != positions[j].instrument
  }

  /** The internal quantity of an instrument, where it is held once. */
  function QuantityOf(positions: seq<Position>, id: string): Amount {
    if positions == [] then 0
    else if positions[|positions| - 1].instrument == id then positions[|positions| - 1].quantity
    else QuantityOf(positions[..|positions| - 1], id)
  }

  /** A difference between the two sides, with the two values. */
  ghost predicate IsDifference(
    ledger: Ledger, positions: seq<Position>, cash: map<string, Amount>, held: map<string, Amount>, account: string,
    x: Incident)
  {
    match x
    case CashMismatch(currency, internal, broker) =>
      internal == Balance(ledger, account, currency) && broker == Listed(cash, currency) && internal != broker
    case PositionMismatch(id, internal, broker) =>
      internal == QuantityOf(positions, id) && broker == Listed(held, id) && internal != broker
  }

  lemma LastIdIsNew(positions: seq<Position>)
    requires IdsAreDistinct(positions) && positions != []
    ensures var front, last := positions[..|positions| - 1], positions[|positions| - 1];
            IdsAreDistinct(front) && !IsInternal(front, last.instrument) && positions == front + [last]
  {
    var front := positions[..|positions| - 1];
    assert forall q :: q in front ==> exists i :: 0 <= i < |front| && front[i] == q;
  }

  /** With distinct instruments, the comparison from the internal side reports their differences, once each. */
  lemma {:induction false} DistinctHeld(positions: seq<Position>, held: map<string, Amount>)
    requires IdsAreDistinct(positions)
    ensures forall x :: x in PositionsHeld(positions, held).0 <==>
              && x.PositionMismatch? && IsInternal(positions, x.instrument)
              && x.internal == QuantityOf(positions, x.instrument) && x.broker == Listed(held, x.instrument)
              && x.internal != x.broker
    ensures OnePerSubject(PositionsHeld(positions, held).0)
  {
    hide IsInternal, IdsAreDistinct;
    if positions != [] {
      LastIdIsNew(positions);
      var front, last := positions[..|positions| - 1], positions[|positions| - 1];
      DistinctHeld(front, held);
      HeldIsExact(front, held);
      IsInternalMore(front, last);
      var (found, left) := PositionsHeld(front, held);
      assert Listed(left, last.instrument) == Listed(held, last.instrument);
      assert forall x :: x in found ==> x.instrument != last.instrument;
    } else {
      NoneInternal();
    }
  }

  lemma NoneInternal()
    ensures forall id :: !IsInternal([], id)
  {
  }

  lemma {:induction false} QuantityOfMissing(positions: seq<Position>, id: string)
    requires !IsInternal(positions, id)
    ensures QuantityOf(positions, id) == 0
  {
    if positions != [] {
      IsInternalMore(positions[..|positions| - 1], positions[|positions| - 1]);
      assert positions == positions[..|positions| - 1] + [positions[|positions| - 1]];
      QuantityOfMissing(positions[..|positions| - 1], id);
    }
  }

  lemma CashIsSound(ledger: Ledger, account: string, cash: map<string, Amount>)
    ensures var all := CashListed(ledger, account, cash, Ordered(cash.Keys))
                       + CashUnlisted(ledger, account, cash, OrderedPairs(ledger.Keys));
            && OnePerSubject(all)
            && forall x :: x in all <==>
                 && x.CashMismatch? && x.internal == Balance(ledger, account, x.currency)
                 && x.broker == Listed(cash, x.currency) && x.internal != x.broker
  {
    hide Less, PairLess, CashListed, CashUnlisted, OnePerSubject;
    LessIsStrictOrder();
    PairLessIsStrictOrder();
    AscendingIsDistinct(Less, Ordered(cash.Keys));
    AscendingIsDistinct(PairLess, OrderedPairs(ledger.Keys));
    CashListedIsExact(ledger, account, cash, Ordered(cash.Keys));
    CashUnlistedIsExact(ledger, account, cash, OrderedPairs(ledger.Keys));
    JoinSubjects(CashListed(ledger, account, cash, Ordered(cash.Keys)),
                 CashUnlisted(ledger, account, cash, OrderedPairs(ledger.Keys)));
  }

  lemma PositionsAreSound(positions: seq<Position>, held: map<string, Amount>)
    requires IdsAreDistinct(positions)
    ensures var (found, left) := PositionsHeld(positions, held);
            var all := found + PositionsUnheld(left, Ordered(left.Keys));
            && OnePerSubject(all)
            && forall x :: x in all <==>
                 && x.PositionMismatch? && x.internal == QuantityOf(positions, x.instrument)
                 && x.broker == Listed(held, x.instrument) && x.internal != x.broker
  {
    hide Less, PositionsHeld, PositionsUnheld, OnePerSubject, QuantityOf, IsInternal;
    LessIsStrictOrder();
    var (found, left) := PositionsHeld(positions, held);
    DistinctHeld(positions, held);
    HeldIsExact(positions, held);
    AscendingIsDistinct(Less, Ordered(left.Keys));
    UnheldIsExact(left, Ordered(left.Keys));
    JoinSubjects(found, PositionsUnheld(left, Ordered(left.Keys)));
    forall id | !IsInternal(positions, id) ensures QuantityOf(positions, id) == 0 {
      QuantityOfMissing(positions, id);
    }
  }

  /** With distinct internal instruments, the incidents are exactly the differences between the two sides, with the true pair
      of values, and each subject once. */
  lemma IncidentsAreExact(
    ledger: Ledger, positions: seq<Position>, cash: map<string, Amount>, held: map<string, Amount>, account: string)
    requires IdsAreDistinct(positions)
    ensures var all := Incidents(ledger, positions, cash, held, account);
            OnePerSubject(all) && forall x :: x in all <==> IsDifference(ledger, positions, cash, held, account, x)
  {
    hide CashListed, CashUnlisted, PositionsHeld, PositionsUnheld, OnePerSubject, QuantityOf, Balance, Listed;
    CashIsSound(ledger, account, cash);
    PositionsAreSound(positions, held);
    var (found, left) := PositionsHeld(positions, held);
    var a := CashListed(ledger, account, cash, Ordered(cash.Keys))
             + CashUnlisted(ledger, account, cash, OrderedPairs(ledger.Keys));
    var b := found + PositionsUnheld(left, Ordered(left.Keys));
    JoinSubjects(a, b);
    assert Incidents(ledger, positions, cash, held, account) == a + b;
  }

  /** The list is empty exactly when the books agree. */
  lemma EmptyExactlyWhenAgreed(
    ledger: Ledger, positions: seq<Position>, cash: map<string, Amount>, held: map<string, Amount>, account: string)
    requires IdsAreDistinct(positions)
    ensures Incidents(ledger, positions, cash, held, account) == [] <==>
              && (forall currency :: Balance(ledger, account, currency) == Listed(cash, currency))
              && (forall id :: QuantityOf(positions, id) == Listed(held, id))
  {
    hide Incidents, OnePerSubject, QuantityOf, Balance, Listed;
    IncidentsAreExact(ledger, positions, cash, held, account);
    var all := Incidents(ledger, positions, cash, held, account);
    forall currency | Balance(ledger, account, currency) != Listed(cash, currency) ensures all != [] {
      assert CashMismatch(currency, Balance(ledger, account, currency), Listed(cash, currency)) in all;
    }
    forall id | QuantityOf(positions, id) != Listed(held, id) ensures all != [] {
      assert PositionMismatch(id, QuantityOf(positions, id), Listed(held, id)) in all;
    }
    if all != [] {
      assert all[0] in all;
    }
  }

  lemma IsReported(positions: seq<Position>, held: map<string, Amount>, k: nat, x: Incident)
    requires Reports(positions, held, k, x)
    ensures x in PositionsHeld(positions, held).0
  {
    hide Reports, PositionsHeld;
    HeldIsExact(positions, held);
  }

  /** Without distinct instruments the positions pass exactly when the first of each instrument equals the broker's quantity,
      every later one is zero, and the broker holds nothing else: not when their sum does. */
  lemma PositionsPassExactlyWhen(positions: seq<Position>, held: map<string, Amount>)
    ensures var (found, left) := PositionsHeld(positions, held);
            found + PositionsUnheld(left, Ordered(left.Keys)) == [] <==>
              && (forall k: nat :: k < |positions| ==> positions[k].quantity == BrokerFor(positions, held, k))
              && (forall id :: id in held && !IsInternal(positions, id) ==> held[id] == 0)
  {
    hide Less, PositionsHeld, PositionsUnheld, OnePerSubject, IsInternal, BrokerFor;
    LessIsStrictOrder();
    var (found, left) := PositionsHeld(positions, held);
    HeldIsExact(positions, held);
    AscendingIsDistinct(Less, Ordered(left.Keys));
    UnheldIsExact(left, Ordered(left.Keys));
    var more := PositionsUnheld(left, Ordered(left.Keys));
    forall k: nat | k < |positions| && positions[k].quantity != BrokerFor(positions, held, k) ensures found != [] {
      var x := PositionMismatch(positions[k].instrument, positions[k].quantity, BrokerFor(positions, held, k));
      IsReported(positions, held, k, x);
    }
    forall id | id in left && left[id] != 0 ensures more != [] {
      assert PositionMismatch(id, 0, left[id]) in more;
    }
    assert found != [] ==> found[0] in found;
    assert more != [] ==> more[0] in more;
  }

  /** The internal quantity of an instrument over all its positions. */
  function Sum(positions: seq<Position>, id: string): Amount {
    if positions == [] then 0
    else
      var last := positions[|positions| - 1];
      Sum(positions[..|positions| - 1], id) + (if last.instrument == id then last.quantity else 0)
  }

  /** No position incident is reported. */
  ghost predicate Passes(positions: seq<Position>, held: map<string, Amount>) {
    var (found, left) := PositionsHeld(positions, held);
    found + PositionsUnheld(left, Ordered(left.Keys)) == []
  }

  /** The broker holds, of every instrument, what the internal positions add up to. */
  ghost predicate SumsAgree(positions: seq<Position>, held: map<string, Amount>) {
    forall id :: Sum(positions, id) == Listed(held, id)
  }

  /** Whatever follows the first position of an instrument is empty. */
  ghost predicate LaterAreEmpty(positions: seq<Position>) {
    forall k: nat :: k < |positions| && IsInternal(positions[..k], positions[k].instrument) ==> positions[k].quantity == 0
  }

  ghost predicate IsFirstOf(positions: seq<Position>, k: nat, id: string) {
    k < |positions| && positions[k].instrument == id && !IsInternal(positions[..k], id)
  }

  lemma {:induction false} SumOfMissing(positions: seq<Position>, id: string)
    requires !IsInternal(positions, id)
    ensures Sum(positions, id) == 0
  {
    if positions != [] {
      var front, last := positions[..|positions| - 1], positions[|positions| - 1];
      assert positions == front + [last];
      IsInternalMore(front, last);
      SumOfMissing(front, id);
    }
  }

  lemma LaterAreEmptyFront(positions: seq<Position>)
    requires LaterAreEmpty(positions) && positions != []
    ensures LaterAreEmpty(positions[..|positions| - 1])
  {
    var front := positions[..|positions| - 1];
    assert forall k: nat :: k < |front| ==> front[..k] == positions[..k] && front[k] == positions[k];
  }

  /** With later positions empty, the sum is the first position's quantity. */
  lemma {:induction false} SumIsFirst(positions: seq<Position>, k: nat, id: string)
    requires LaterAreEmpty(positions) && IsFirstOf(positions, k, id)
    ensures Sum(positions, id) == positions[k].quantity
    decreases |positions|
  {
    hide LaterAreEmpty;
    var front, last := positions[..|positions| - 1], positions[|positions| - 1];
    assert positions == front + [last];
    if k == |front| {
      assert positions[..k] == front;
      SumOfMissing(front, id);
    } else {
      assert front[..k] == positions[..k] && front[k] == positions[k];
      LaterAreEmptyFront(positions);
      SumIsFirst(front, k, id);
      LastAddsNothing(positions, k, id);
    }
  }

  lemma LastAddsNothing(positions: seq<Position>, k: nat, id: string)
    requires LaterAreEmpty(positions) && k < |positions| - 1 && positions[k].instrument == id
    ensures positions[|positions| - 1].instrument == id ==> positions[|positions| - 1].quantity == 0
  {
    var n := |positions| - 1;
    assert positions[..n][k] == positions[k] && positions[k] in positions[..n];
    assert positions[n].instrument == id ==> IsInternal(positions[..n], positions[n].instrument);
  }

  lemma {:induction false} HasFirstPosition(positions: seq<Position>, id: string) returns (k: nat)
    requires IsInternal(positions, id)
    ensures IsFirstOf(positions, k, id)
  {
    var front, last := positions[..|positions| - 1], positions[|positions| - 1];
    assert positions == front + [last];
    IsInternalMore(front, last);
    if IsInternal(front, id) {
      k := HasFirstPosition(front, id);
      assert front[..k] == positions[..k] && front[k] == positions[k];
    } else {
      k := |front|;
      assert positions[..k] == front;
    }
  }

  /** With later positions empty, the incidents see the sums. */
  lemma EmptyLotsPassByTheirSums(positions: seq<Position>, held: map<string, Amount>)
    requires LaterAreEmpty(positions)
    ensures Passes(positions, held) <==> SumsAgree(positions, held)
  {
    hide Sum, IsInternal, PositionsHeld, PositionsUnheld, LaterAreEmpty;
    PositionsPassExactlyWhen(positions, held);
    if Passes(positions, held) {
      forall id ensures Sum(positions, id) == Listed(held, id) {
        if IsInternal(positions, id) {
          var k := HasFirstPosition(positions, id);
          SumIsFirst(positions, k, id);
        } else {
          SumOfMissing(positions, id);
        }
      }
    }
    if SumsAgree(positions, held) {
      forall k: nat | k < |positions| ensures positions[k].quantity == BrokerFor(positions, held, k) {
        FirstOrEmpty(positions, held, k);
      }
      forall id | id in held && !IsInternal(positions, id) ensures held[id] == 0 {
        SumOfMissing(positions, id);
        assert Sum(positions, id) == Listed(held, id);
      }
    }
  }

  lemma FirstOrEmpty(positions: seq<Position>, held: map<string, Amount>, k: nat)
    requires LaterAreEmpty(positions) && SumsAgree(positions, held) && k < |positions|
    ensures positions[k].quantity == BrokerFor(positions, held, k)
  {
    var id := positions[k].instrument;
    if !IsInternal(positions[..k], id) {
      SumIsFirst(positions, k, id);
      assert Sum(positions, id) == Listed(held, id);
    }
  }

  /** The sums as the broker would list them. */
  function SumsOf(positions: seq<Position>): map<string, Amount> {
    map id | id in (set q | q in positions :: q.instrument) :: Sum(positions, id)
  }

  lemma SumsOfAgree(positions: seq<Position>)
    ensures SumsAgree(positions, SumsOf(positions))
  {
    hide Sum;
    forall id ensures Sum(positions, id) == Listed(SumsOf(positions), id) {
      if id !in SumsOf(positions) {
        assert !IsInternal(positions, id);
        SumOfMissing(positions, id);
      }
    }
  }

  /** For whatever the broker may list, no incident means that the sums agree, exactly when every later position of an instrument
      is empty: only then can lots be split without being misjudged. */
  lemma SumsDecideExactlyWhen(positions: seq<Position>)
    ensures (forall held :: Passes(positions, held) <==> SumsAgree(positions, held)) <==> LaterAreEmpty(positions)
  {
    hide Passes, SumsAgree, IsInternal;
    if LaterAreEmpty(positions) {
      forall held ensures Passes(positions, held) <==> SumsAgree(positions, held) {
        EmptyLotsPassByTheirSums(positions, held);
      }
    } else {
      var k: nat :| k < |positions| && IsInternal(positions[..k], positions[k].instrument) && positions[k].quantity != 0;
      var held := SumsOf(positions);
      SumsOfAgree(positions);
      LotIsReported(positions, held, k);
    }
  }

  lemma LotIsReported(positions: seq<Position>, held: map<string, Amount>, k: nat)
    requires k < |positions| && IsInternal(positions[..k], positions[k].instrument) && positions[k].quantity != 0
    ensures !Passes(positions, held)
  {
    hide PositionsHeld, PositionsUnheld, IsInternal;
    PositionsPassExactlyWhen(positions, held);
    assert BrokerFor(positions, held, k) == 0;
  }

  /** Two lots of one share against the broker's two shares: two false incidents. */
  lemma SplitLotsMislead(id: string)
    ensures PositionsHeld([Position(id, 1), Position(id, 1)], map[id := 2]).0
            == [PositionMismatch(id, 1, 2), PositionMismatch(id, 1, 0)]
  {
    var lots, held := [Position(id, 1), Position(id, 1)], map[id := 2];
    HeldNothing(held);
    HeldOneMore(lots, held, 0);
    HeldOneMore(lots, held, 1);
    assert lots[..0] == [] && lots[..2] == lots;
  }

  // ----- The order of the rows -----

  lemma {:induction false} NoRepeats<T>(s: seq<T>)
    ensures (forall i, j :: 0 <= i < j < |s| ==> s[i] != s[j]) <==> (forall x :: x in s ==> multiset(s)[x] == 1)
  {
    if s != [] {
      var front, last := s[..|s| - 1], s[|s| - 1];
      assert s == front + [last];
      NoRepeats(front);
      assert forall x :: x in front <==> x in multiset(front);
      assert forall x :: x in s <==> x in front || x == last;
      if last in front {
        var i :| 0 <= i < |front| && front[i] == last;
        assert s[i] == s[|front|];
      }
    }
  }

  lemma CleanByCounting(p: Parsers, rows: seq<CashRow>)
    ensures CashIsClean(p, rows) <==>
              && (forall row :: row in rows ==> p.currency(row.currency).Some? && p.decimal(row.balance).Some?)
              && (forall row :: row in rows ==> multiset(rows)[row] == 1)
              && (forall a, b :: a in rows && b in rows && a != b ==> p.currency(a.currency) != p.currency(b.currency))
  {
    NoRepeats(rows);
    forall a, b | CashIsClean(p, rows) && a in rows && b in rows && a != b
      ensures p.currency(a.currency) != p.currency(b.currency)
    {
      var i :| 0 <= i < |rows| && rows[i] == a;
      var j :| 0 <= j < |rows| && rows[j] == b;
      assert i < j || j < i;
    }
  }

  lemma PositionsCleanByCounting(p: Parsers, rows: seq<PositionRow>)
    ensures PositionsAreClean(p, rows) <==>
              && (forall row :: row in rows ==> p.decimal(row.quantity).Some?)
              && (forall row :: row in rows ==> multiset(rows)[row] == 1)
              && (forall a, b :: a in rows && b in rows && a != b ==> a.instrument != b.instrument)
  {
    NoRepeats(rows);
    forall a, b | PositionsAreClean(p, rows) && a in rows && b in rows && a != b ensures a.instrument != b.instrument {
      var i :| 0 <= i < |rows| && rows[i] == a;
      var j :| 0 <= j < |rows| && rows[j] == b;
      assert i < j || j < i;
    }
  }

  lemma SameMap(a: map<string, Amount>, b: map<string, Amount>)
    requires forall k, v :: Has(a, k, v) <==> Has(b, k, v)
    ensures a == b
  {
    assert forall k :: k in a ==> Has(a, k, a[k]);
    assert forall k :: k in b ==> Has(b, k, b[k]);
  }

  lemma SameCash(p: Parsers, one: seq<CashRow>, two: seq<CashRow>)
    requires multiset(one) == multiset(two)
    ensures CashOf(p, one).Success? == CashOf(p, two).Success?
    ensures CashOf(p, one).Success? ==> CashOf(p, one) == CashOf(p, two)
  {
    hide CashIsClean, CashOf;
    assert forall row :: row in one <==> row in multiset(one);
    assert forall row :: row in two <==> row in multiset(two);
    CleanByCounting(p, one);
    CleanByCounting(p, two);
    CashIsExact(p, one);
    CashIsExact(p, two);
    if CashOf(p, one).Success? {
      forall c, b ensures CashSays(p, one, c, b) <==> CashSays(p, two, c, b) {
      }
      SameMap(CashOf(p, one).value, CashOf(p, two).value);
    }
  }

  lemma SamePositions(p: Parsers, one: seq<PositionRow>, two: seq<PositionRow>)
    requires multiset(one) == multiset(two)
    ensures PositionsOf(p, one).Success? == PositionsOf(p, two).Success?
    ensures PositionsOf(p, one).Success? ==> PositionsOf(p, one) == PositionsOf(p, two)
  {
    hide PositionsAreClean, PositionsOf;
    assert forall row :: row in one <==> row in multiset(one);
    assert forall row :: row in two <==> row in multiset(two);
    PositionsCleanByCounting(p, one);
    PositionsCleanByCounting(p, two);
    PositionsAreExact(p, one);
    PositionsAreExact(p, two);
    if PositionsOf(p, one).Success? {
      forall id, q ensures PositionSays(p, one, id, q) <==> PositionSays(p, two, id, q) {
      }
      SameMap(PositionsOf(p, one).value, PositionsOf(p, two).value);
    }
  }

  /** Reconciliation is refused exactly when a row does not parse or a currency or instrument repeats, and permuting the rows
      changes neither that nor the incidents. */
  lemma RowOrderDoesNotMatter(
    p: Parsers, ledger: Ledger, positions: seq<Position>, one: Statement, two: Statement, account: string)
    requires multiset(one.cash) == multiset(two.cash) && multiset(one.positions) == multiset(two.positions)
    ensures var r, s := Reconciled(p, ledger, positions, one, account), Reconciled(p, ledger, positions, two, account);
            && (r.Success? <==> CashIsClean(p, one.cash) && PositionsAreClean(p, one.positions))
            && r.Success? == s.Success? && (r.Success? ==> r == s)
  {
    hide CashOf, PositionsOf, CashIsClean, PositionsAreClean, Incidents;
    CashIsExact(p, one.cash);
    PositionsAreExact(p, one.positions);
    SameCash(p, one.cash, two.cash);
    SamePositions(p, one.positions, two.positions);
  }

  // ----- The statement's CSV -----

  /** One CSV record added to the statement: at least three fields, of which the first says what it is. */
  function AddRecord(statement: Statement, record: seq<string>): Statement
    requires |record| >= 3
  {
    if record[0] == "CASH" then statement.(cash := statement.cash + [CashRow(record[1], record[2])])
    else if record[0] == "POSITION" then
      statement.(positions := statement.positions + [PositionRow(record[1], record[2])])
    else statement
  }

  /** The statement, or the position of the first record that is too short. */
  function StatementOf(records: seq<seq<string>>): Result<Statement, nat> {
    if records == [] then Success(Statement([], []))
    else
      match StatementOf(records[..|records| - 1])
      case Failure(at) => Failure(at)
      case Success(statement) =>
        if |records[|records| - 1]| < 3 then Failure(|records| - 1)
        else Success(AddRecord(statement, records[|records| - 1]))
  }

  /** `BrokerStatement::from_csv`, on the records the CSV library reads. */
  method FromRecords(records: seq<seq<string>>) returns (r: Result<Statement, nat>)
    ensures r == StatementOf(records)
  {
    hide AddRecord;
    var statement := Statement([], []);
    assert records[..0] == [];
    for i := 0 to |records|
      invariant StatementOf(records[..i]) == Success(statement)
    {
      assert records[..i + 1][..i] == records[..i];
      RecordsStay(records, i + 1);
      if |records[i]| < 3 {
        return Failure(i);
      }
      statement := AddRecord(statement, records[i]);
    }
    assert records[..|records|] == records;
    r := Success(statement);
  }

  lemma {:induction false} RecordsStay(records: seq<seq<string>>, i: nat)
    requires i <= |records|
    ensures StatementOf(records[..i]).Failure? ==> StatementOf(records) == StatementOf(records[..i])
    decreases |records|
  {
    hide AddRecord;
    if i < |records| {
      RecordsStay(records[..|records| - 1], i);
      assert records[..|records| - 1][..i] == records[..i];
    } else {
      assert records[..i] == records;
    }
  }

  /** How often a row occurs in a statement: as often as the records that spell it, whatever further fields they have. */
  function CountRecords(records: seq<seq<string>>, kind: string, key: string, value: string): nat {
    if records == [] then 0
    else
      var last := records[|records| - 1];
      CountRecords(records[..|records| - 1], kind, key, value)
      + (if |last| >= 3 && last[0] == kind && last[1] == key && last[2] == value then 1 else 0)
  }

  /** A statement is read exactly when no record is too short, and then holds each row as often as the records do. */
  lemma {:induction false} StatementIsExact(records: seq<seq<string>>, key: string, value: string)
    ensures StatementOf(records).Success? <==> forall record :: record in records ==> |record| >= 3
    ensures StatementOf(records).Success? ==>
              var s := StatementOf(records).value;
              && multiset(s.cash)[CashRow(key, value)] == CountRecords(records, "CASH", key, value)
              && multiset(s.positions)[PositionRow(key, value)] == CountRecords(records, "POSITION", key, value)
  {
    if records != [] {
      var front, last := records[..|records| - 1], records[|records| - 1];
      assert records == front + [last];
      StatementIsExact(front, key, value);
    }
  }

  /** A count is a sum over the records, so it does not depend on their order. */
  lemma {:induction false} CountByRemoving(records: seq<seq<string>>, i: nat, kind: string, key: string, value: string)
    requires i < |records|
    ensures CountRecords(records, kind, key, value)
            == CountRecords(records[..i] + records[i + 1..], kind, key, value)
               + CountRecords([records[i]], kind, key, value)
    decreases |records|
  {
    var front, last := records[..|records| - 1], records[|records| - 1];
    assert [records[i]][..0] == [];
    if i == |records| - 1 {
      assert records[..i] + records[i + 1..] == front;
    } else {
      CountByRemoving(front, i, kind, key, value);
      var rest := records[..i] + records[i + 1..];
      assert rest[..|rest| - 1] == front[..i] + front[i + 1..] && rest[|rest| - 1] == last;
    }
  }

  lemma {:induction false} CountIsOrderless(
    one: seq<seq<string>>, two: seq<seq<string>>, kind: string, key: string, value: string)
    requires multiset(one) == multiset(two)
    ensures CountRecords(one, kind, key, value) == CountRecords(two, kind, key, value)
    decreases |one|
  {
    hide CountRecords;
    SameLength(one, two);
    if one != [] {
      var last, front := one[|one| - 1], one[..|one| - 1];
      assert one == front + [last];
      var i := PlaceOf(two, last);
      var rest := two[..i] + two[i + 1..];
      RemoveAt(two, i);
      CountIsOrderless(front, rest, kind, key, value);
      CountByRemoving(two, i, kind, key, value);
      CountByRemoving(one, |one| - 1, kind, key, value);
      assert one[..|one| - 1] + one[|one|..] == front;
    }
  }

  lemma SameLength<T>(one: seq<T>, two: seq<T>)
    requires multiset(one) == multiset(two)
    ensures |one| == |two| && (one == [] ==> two == [])
  {
    assert |multiset(one)| == |one| && |multiset(two)| == |two|;
  }

  lemma PlaceOf<T>(s: seq<T>, x: T) returns (i: nat)
    requires multiset(s)[x] > 0
    ensures i < |s| && s[i] == x
  {
    assert x in multiset(s);
    i :| 0 <= i < |s| && s[i] == x;
  }

  lemma RemoveAt<T>(s: seq<T>, i: nat)
    requires i < |s|
    ensures multiset(s[..i] + s[i + 1..]) == multiset(s) - multiset{s[i]}
  {
    assert s == s[..i] + [s[i]] + s[i + 1..];
  }

  /** From the CSV to the incidents: permuting the records of a broker's file changes neither whether it is refused nor the
      incidents. */
  lemma RecordOrderDoesNotMatter(
    p: Parsers, ledger: Ledger, positions: seq<Position>, one: seq<seq<string>>, two: seq<seq<string>>, account: string)
    requires multiset(one) == multiset(two)
    ensures StatementOf(one).Success? <==> StatementOf(two).Success?
    ensures StatementOf(one).Success? ==>
              var r := Reconciled(p, ledger, positions, StatementOf(one).value, account);
              var s := Reconciled(p, ledger, positions, StatementOf(two).value, account);
              r.Success? == s.Success? && (r.Success? ==> r == s)
  {
    hide Reconciled, StatementOf, CountRecords;
    assert forall record :: record in one <==> record in multiset(one);
    assert forall record :: record in two <==> record in multiset(two);
    StatementIsExact(one, "", "");
    StatementIsExact(two, "", "");
    if StatementOf(one).Success? {
      var a, b := StatementOf(one).value, StatementOf(two).value;
      forall row: CashRow ensures multiset(a.cash)[row] == multiset(b.cash)[row] {
        StatementIsExact(one, row.currency, row.balance);
        StatementIsExact(two, row.currency, row.balance);
        CountIsOrderless(one, two, "CASH", row.currency, row.balance);
      }
      forall row: PositionRow ensures multiset(a.positions)[row] == multiset(b.positions)[row] {
        StatementIsExact(one, row.instrument, row.quantity);
        StatementIsExact(two, row.instrument, row.quantity);
        CountIsOrderless(one, two, "POSITION", row.instrument, row.quantity);
      }
      assert multiset(a.cash) == multiset(b.cash) && multiset(a.positions) == multiset(b.positions);
      RowOrderDoesNotMatter(p, ledger, positions, a, b, account);
    }
  }
}
