/** The Postgres-backed store's behaviour as functions on the contents of
    its two tables: `clients` (id -> limit, balance) and `transactions`
    (rows in insertion order). The `Postgres` module's class is proved to
    follow these functions. */
module PostgresLedger {
  import opened KotlinInt
  import opened Models

  /** A row of the clients table, keyed by the client id. */
  datatype ClientRow = ClientRow(limit: Int32, balance: Int32)

  /** A row of the transactions table; `date` is in epoch milliseconds. */
  datatype TransactionRow = TransactionRow(value: Int32, kind: string, description: string, date: int, clientId: Int32)

  /** The contents of both tables. */
  datatype Tables = Tables(clients: map<Int32, ClientRow>, transactions: seq<TransactionRow>)

  /** The tables after a call and what the call returns. */
  datatype Step = Step(tables: Tables, result: OperationResult)

  // ---------------------------------------------------------------------
  // Seeding

  /** `insertIgnore`: adds the row unless a row with that id exists. */
  function InsertIgnore(clients: map<Int32, ClientRow>, id: Int32, row: ClientRow): (r: map<Int32, ClientRow>)
    ensures r.Keys == clients.Keys + {id}
    ensures forall k :: k in clients ==> r[k] == clients[k]
    ensures id !in clients ==> r[id] == row
  {
    if id in clients then clients else clients[id := row]
  }

  /** The seed's limit for a seed id. */
  function SeedLimit(id: Int32): Int32
  {
    if id == 1 then 100000
    else if id == 2 then 80000
    else if id == 3 then 1000000
    else if id == 4 then 10000000
    else 500000
  }

  /** The five insertions `initialize` performs, in order. */
  function Seed(clients: map<Int32, ClientRow>): (r: map<Int32, ClientRow>)
  {
    var m1 := InsertIgnore(clients, 1, ClientRow(100000, 0));
    var m2 := InsertIgnore(m1, 2, ClientRow(80000, 0));
    var m3 := InsertIgnore(m2, 3, ClientRow(1000000, 0));
    var m4 := InsertIgnore(m3, 4, ClientRow(10000000, 0));
    InsertIgnore(m4, 5, ClientRow(500000, 0))
  }

  /** Seeding adds exactly the ids 1 to 5 that are missing, each with its
      seed limit and balance 0, and leaves every existing row untouched. */
  lemma {:induction false} SeedAddsMissingClients(clients: map<Int32, ClientRow>)
    ensures Seed(clients).Keys == clients.Keys + {1, 2, 3, 4, 5}
    ensures forall k :: k in clients ==> Seed(clients)[k] == clients[k]
    ensures forall k: Int32 :: 1 <= k <= 5 && k !in clients ==> Seed(clients)[k] == ClientRow(SeedLimit(k), 0)
  {
    forall k: Int32 | 1 <= k <= 5 && k !in clients
      ensures Seed(clients)[k] == ClientRow(SeedLimit(k), 0)
    {
      SeedNewRow(clients, k);
    }
  }

  /** A seed id that was missing gets its seed limit and balance 0. */
  lemma {:induction false} SeedNewRow(clients: map<Int32, ClientRow>, k: Int32)
    requires 1 <= k <= 5 && k !in clients
    ensures k in Seed(clients) && Seed(clients)[k] == ClientRow(SeedLimit(k), 0)
  {
  }

  /** Seeding an empty table gives exactly the five seed clients. */
  lemma SeedEmpty()
    ensures Seed(map[]) == map[1 := ClientRow(100000, 0), 2 := ClientRow(80000, 0), 3 := ClientRow(1000000, 0),
                               4 := ClientRow(10000000, 0), 5 := ClientRow(500000, 0)]
  {
  }

  /** Seeding twice is seeding once. */
  lemma {:induction false} SeedIdempotent(clients: map<Int32, ClientRow>)
    ensures Seed(Seed(clients)) == Seed(clients)
  {
    SeedAddsMissingClients(clients);
    SeedAddsMissingClients(Seed(clients));
  }

  // ---------------------------------------------------------------------
  // Transactions

  /** `createTransaction`: a debit is refused when `balance - value` is
      negative, a credit is always applied, any other type and any
      unknown id yield 404. The client's `limit` is never consulted. */
  function CreateTransaction(db: Tables, id: Int32, req: TransactionRequest, now: int): Step
  {
    if id !in db.clients then Step(db, WithoutData(NotFound))
    else
      var search := db.clients[id];
      if req.kind == "d" then
        var nextBalance := Wrap(search.balance - req.value);
        if nextBalance < 0 then Step(db, WithoutData(UnprocessableEntity))
        else Applied(db, id, req, now, nextBalance)
      else if req.kind == "c" then
        Applied(db, id, req, now, Wrap(search.balance + req.value))
      else Step(db, WithoutData(NotFound))
  }

  /** The accepted branch shared by debit and credit: update the
      balance, insert one row, reply with the limit and new balance. */
  function Applied(db: Tables, id: Int32, req: TransactionRequest, now: int, nextBalance: Int32): (s: Step)
    requires id in db.clients
  {
    var search := db.clients[id];
    Step(Tables(db.clients[id := search.(balance := nextBalance)],
                db.transactions + [TransactionRow(req.value, req.kind, req.description, now, id)]),
         OperationResult(OK, TransactionData(TransactionResponse(search.limit, nextBalance))))
  }

  /** What any call leaves alone: the set of clients, every limit, every
      other client's row, and the rows already in the transactions table;
      it appends at most one row, and only for the client it names. */
  lemma CreateTransactionFrame(db: Tables, id: Int32, req: TransactionRequest, now: int)
    ensures var s := CreateTransaction(db, id, req, now);
      && s.tables.clients.Keys == db.clients.Keys
      && (forall k :: k in db.clients ==> s.tables.clients[k].limit == db.clients[k].limit)
      && (forall k :: k in db.clients && k != id ==> s.tables.clients[k] == db.clients[k])
      && db.transactions <= s.tables.transactions && |s.tables.transactions| <= |db.transactions| + 1
      && forall i :: |db.transactions| <= i < |s.tables.transactions| ==> s.tables.transactions[i].clientId == id
  {
  }

  /** A call inserts a row exactly when it answers OK; any other answer
      leaves both tables as they were. */
  lemma InsertedIffAccepted(db: Tables, id: Int32, req: TransactionRequest, now: int)
    ensures var s := CreateTransaction(db, id, req, now);
      s.result.code == OK <==> |s.tables.transactions| == |db.transactions| + 1
    ensures var s := CreateTransaction(db, id, req, now);
      s.result.code != OK ==> s.tables == db
  {
  }

  /** An unknown id, or a type other than "c" and "d", yields 404 with
      the default payload and no change; every other call is answered
      with 200 or 422. */
  lemma NotFoundCases(db: Tables, id: Int32, req: TransactionRequest, now: int)
    ensures var s := CreateTransaction(db, id, req, now);
      s.result.code == NotFound <==> id !in db.clients || (req.kind != "c" && req.kind != "d")
    ensures var s := CreateTransaction(db, id, req, now);
      s.result.code == NotFound ==> s == Step(db, WithoutData(NotFound))
  {
  }

  /** A debit whose `balance - value` is negative gets 422: no balance
      update, no row inserted. */
  lemma DebitRejected(db: Tables, id: Int32, req: TransactionRequest, now: int)
    requires id in db.clients && req.kind == "d"
    requires Wrap(db.clients[id].balance - req.value) < 0
    ensures CreateTransaction(db, id, req, now) == Step(db, WithoutData(UnprocessableEntity))
  {
  }

  /** A debit whose `balance - value` is not negative sets the balance to
      it, inserts one row for the client, and replies with the limit and
      the new balance. */
  lemma DebitAccepted(db: Tables, id: Int32, req: TransactionRequest, now: int)
    requires id in db.clients && req.kind == "d"
    requires Wrap(db.clients[id].balance - req.value) >= 0
    ensures var s := CreateTransaction(db, id, req, now);
      var b := Wrap(db.clients[id].balance - req.value);
      && s.tables.clients == db.clients[id := ClientRow(db.clients[id].limit, b)]
      && s.tables.transactions == db.transactions + [TransactionRow(req.value, "d", req.description, now, id)]
      && s.result == OperationResult(OK, TransactionData(TransactionResponse(db.clients[id].limit, b)))
  {
  }

  /** A credit is always applied: the balance becomes `balance + value`,
      one row is inserted, and the reply carries the limit and the new
      balance. */
  lemma CreditAlwaysAccepted(db: Tables, id: Int32, req: TransactionRequest, now: int)
    requires id in db.clients && req.kind == "c"
    ensures var s := CreateTransaction(db, id, req, now);
      var b := Wrap(db.clients[id].balance + req.value);
      && s.result.code == OK
      && s.tables.clients == db.clients[id := ClientRow(db.clients[id].limit, b)]
      && s.tables.transactions == db.transactions + [TransactionRow(req.value, "c", req.description, now, id)]
      && s.result == OperationResult(OK, TransactionData(TransactionResponse(db.clients[id].limit, b)))
  {
  }

  /** With Kotlin's 32-bit `Int`, a credit to a large balance wraps
      around and leaves a negative balance. */
  lemma CreditCanWrapNegative(db: Tables, id: Int32, req: TransactionRequest, now: int)
    requires id in db.clients && db.clients[id].balance == MAX_INT
    requires req.kind == "c" && req.value == 1
    ensures CreateTransaction(db, id, req, now).tables.clients[id].balance == MIN_INT
  {
  }

  /** The decision and the new balance do not depend on the client's
      limit: two tables that differ only in that limit are treated alike. */
  lemma {:induction false} LimitNeverConsulted(db: Tables, id: Int32, req: TransactionRequest, now: int, limit: Int32)
    requires id in db.clients
    ensures var other := db.(clients := db.clients[id := db.clients[id].(limit := limit)]);
      var s1 := CreateTransaction(db, id, req, now);
      var s2 := CreateTransaction(other, id, req, now);
      && s1.result.code == s2.result.code
      && s1.tables.transactions == s2.tables.transactions
      && s1.tables.clients[id].balance == s2.tables.clients[id].balance
  {
  }

  // ---------------------------------------------------------------------
  // Sequences of calls and the balance equation

  /** The tables after one call. */
  function Apply(db: Tables, call: Call): Tables
  {
    CreateTransaction(db, call.id, call.request, call.now).tables
  }

  /** The tables after a sequence of calls, applied in order. */
  function Run(db: Tables, calls: seq<Call>): (r: Tables)
    decreases |calls|
  {
    if calls == [] then db else Run(Apply(db, calls[0]), calls[1..])
  }

  /** The signed amount of a row: `+value` for a credit, `-value` for a debit. */
  function Signed(row: TransactionRow): int
  {
    var v: int := row.value;
    if row.kind == "c" then v
    else if row.kind == "d" then -v
    else 0
  }

  /** The sum of the signed amounts of one client's rows. */
  function Net(rows: seq<TransactionRow>, id: Int32): int
  {
    if rows == [] then 0
    else
      var last := rows[|rows| - 1];
      Net(rows[..|rows| - 1], id) + (if last.clientId == id then Signed(last) else 0)
  }

  lemma {:induction false} NetConcat(a: seq<TransactionRow>, b: seq<TransactionRow>, id: Int32)
    ensures Net(a + b, id) == Net(a, id) + Net(b, id)
  {
    if b != [] {
      var last := b[|b| - 1];
      assert (a + b)[..|a + b| - 1] == a + b[..|b| - 1];
      NetConcat(a, b[..|b| - 1], id);
    } else {
      assert a + b == a;
    }
  }

  /** The balance equation between two states of the tables: the client
      is known in both, and its balance in `after` is its balance in
      `before` moved by the signed amounts of its rows added since,
      wrapped to 32 bits. */
  ghost predicate BalanceMoved(before: Tables, after: Tables, id: Int32)
  {
    && id in before.clients
    && id in after.clients
    && after.clients[id].balance
         == Wrap(before.clients[id].balance + (Net(after.transactions, id) - Net(before.transactions, id)))
  }

  /** One call moves a client's balance by the signed amount of the row
      it inserts for that client, in 32-bit arithmetic. */
  lemma {:induction false} StepBalance(db: Tables, call: Call, id: Int32)
    requires id in db.clients
    ensures BalanceMoved(db, Apply(db, call), id)
  {
    var t := Apply(db, call);
    if t.transactions != db.transactions {
      var row := t.transactions[|db.transactions|];
      assert t.transactions == db.transactions + [row];
      assert t.transactions[..|t.transactions| - 1] == db.transactions;
      if call.id == id {
        assert row.kind == call.request.kind && row.value == call.request.value;
      }
    }
  }

  /** Two consecutive stretches of 32-bit balance moves make one. */
  lemma {:induction false} ChainBalances(n0: int, n1: int, n2: int, b0: Int32, b1: Int32, b2: Int32)
    requires b1 == Wrap(b0 + (n1 - n0))
    requires b2 == Wrap(b1 + (n2 - n1))
    ensures b2 == Wrap(b0 + (n2 - n0))
  {
    WrapAddLeft(b0 + (n1 - n0), n2 - n1);
  }

  /** After any sequence of calls a known client is still known with
      the same limit, and the table of transactions has only grown. */
  lemma {:induction false} RunKeepsClient(db: Tables, calls: seq<Call>, id: Int32)
    requires id in db.clients
    ensures var r := Run(db, calls);
      id in r.clients && r.clients[id].limit == db.clients[id].limit && db.transactions <= r.transactions
    decreases |calls|
  {
    if calls != [] {
      CreateTransactionFrame(db, calls[0].id, calls[0].request, calls[0].now);
      RunKeepsClient(Apply(db, calls[0]), calls[1..], id);
    }
  }

  /** After any sequence of calls, a client's balance is its initial
      balance moved by the signed amounts of the rows added for it since,
      wrapped to 32 bits. */
  lemma {:induction false} BalanceEquation(db: Tables, calls: seq<Call>, id: Int32)
    requires id in db.clients
    ensures BalanceMoved(db, Run(db, calls), id)
    decreases |calls|
  {
    if calls != [] {
      var next := Apply(db, calls[0]);
      var rest := Run(next, calls[1..]);
      assert Run(db, calls) == rest;
      StepBalance(db, calls[0], id);
      BalanceEquation(next, calls[1..], id);
      ChainTables(db, next, rest, id);
    } else {
      assert Wrap(db.clients[id].balance + 0) == db.clients[id].balance;
    }
  }

  /** Two consecutive stretches of balance moves make one. */
  lemma {:induction false} ChainTables(db: Tables, mid: Tables, r: Tables, id: Int32)
    requires BalanceMoved(db, mid, id) && BalanceMoved(mid, r, id)
    ensures BalanceMoved(db, r, id)
  {
    ChainBalances(Net(db.transactions, id), Net(mid.transactions, id), Net(r.transactions, id),
                  db.clients[id].balance, mid.clients[id].balance, r.clients[id].balance);
  }

  /** The net of the rows appended after a prefix. */
  lemma {:induction false} NetSuffix(t0: seq<TransactionRow>, t: seq<TransactionRow>, id: Int32)
    requires t0 <= t
    ensures Net(t[|t0|..], id) == Net(t, id) - Net(t0, id)
  {
    assert t == t0 + t[|t0|..];
    NetConcat(t0, t[|t0|..], id);
  }

  /** The balance equation over the rows a run inserted: the initial
      balance plus the client's credits minus its debits among them. */
  lemma {:induction false} BalanceOfAddedRows(db: Tables, calls: seq<Call>, id: Int32)
    requires id in db.clients
    ensures var r := Run(db, calls);
      && id in r.clients
      && db.transactions <= r.transactions
      && r.clients[id].balance == Wrap(db.clients[id].balance + Net(r.transactions[|db.transactions|..], id))
  {
    RunKeepsClient(db, calls, id);
    BalanceEquation(db, calls, id);
    NetSuffix(db.transactions, Run(db, calls).transactions, id);
  }

  /** When no 32-bit overflow occurs, the balance equation holds exactly. */
  lemma {:induction false} BalanceEquationExact(db: Tables, calls: seq<Call>, id: Int32)
    requires id in db.clients
    requires db.transactions <= Run(db, calls).transactions
    requires MIN_INT <= db.clients[id].balance + Net(Run(db, calls).transactions[|db.transactions|..], id) <= MAX_INT
    ensures id in Run(db, calls).clients
    ensures Run(db, calls).clients[id].balance == db.clients[id].balance + Net(Run(db, calls).transactions[|db.transactions|..], id)
  {
    BalanceOfAddedRows(db, calls, id);
  }

  // ---------------------------------------------------------------------
  // Statements

  /** A client's rows (`where clientId = id`): every row of the client,
      as often as the table holds it, and no other row. The order the body
      gives them is the table's; no contract relies on it. */
  function ClientRows(rows: seq<TransactionRow>, id: Int32): (r: seq<TransactionRow>)
    ensures forall x :: x in r ==> x in rows && x.clientId == id
    ensures forall x :: multiset(r)[x] == (if x.clientId == id then multiset(rows)[x] else 0)
  {
    if rows == [] then []
    else
      var rest := ClientRows(rows[..|rows| - 1], id);
      var last := rows[|rows| - 1];
      assert rows == rows[..|rows| - 1] + [last];
      if last.clientId == id then rest + [last] else rest
  }

  ghost predicate SortedByDate(rows: seq<TransactionRow>) {
    forall i, j :: 0 <= i < j < |rows| ==> rows[i].date <= rows[j].date
  }

  ghost predicate StrictlyIncreasingDates(rows: seq<TransactionRow>) {
    forall i, j :: 0 <= i < j < |rows| ==> rows[i].date < rows[j].date
  }

  /** Places a row before the first row with a later date. */
  function Insert(x: TransactionRow, sorted: seq<TransactionRow>): seq<TransactionRow>
  {
    if sorted == [] || x.date <= sorted[0].date then [x] + sorted
    else [sorted[0]] + Insert(x, sorted[1..])
  }

  /** `orderBy(date)`: ascending by date, by insertion sort. The order of
      rows with equal dates is not stated by any contract. */
  function SortByDate(rows: seq<TransactionRow>): seq<TransactionRow>
  {
    if rows == [] then [] else Insert(rows[0], SortByDate(rows[1..]))
  }

  /** Inserting adds exactly one row. */
  lemma {:induction false} InsertMultiset(x: TransactionRow, s: seq<TransactionRow>)
    ensures multiset(Insert(x, s)) == multiset(s) + multiset{x}
  {
    if s != [] && x.date > s[0].date {
      InsertMultiset(x, s[1..]);
      assert s == [s[0]] + s[1..];
    }
  }

  /** Every row of `Insert(x, s)` is `x` or a row of `s`. */
  lemma {:induction false} InsertFrom(x: TransactionRow, s: seq<TransactionRow>)
    ensures forall y :: y in Insert(x, s) ==> y == x || y in s
  {
    InsertMultiset(x, s);
    forall y | y in Insert(x, s)
      ensures y == x || y in s
    {
      assert y in multiset(Insert(x, s));
    }
  }

  /** Inserting into a sorted sequence keeps it sorted. */
  lemma {:induction false} InsertSorted(x: TransactionRow, s: seq<TransactionRow>)
    requires SortedByDate(s)
    ensures SortedByDate(Insert(x, s))
  {
    if s != [] && x.date > s[0].date {
      var t := Insert(x, s[1..]);
      assert SortedByDate(s[1..]) by {
        forall i, j | 0 <= i < j < |s[1..]|
          ensures s[1..][i].date <= s[1..][j].date
        {
          assert s[1..][i] == s[i + 1] && s[1..][j] == s[j + 1];
        }
      }
      InsertSorted(x, s[1..]);
      InsertFrom(x, s[1..]);
      var u := [s[0]] + t;
      assert u == Insert(x, s);
      forall i, j | 0 <= i < j < |u|
        ensures u[i].date <= u[j].date
      {
        assert u[j] == t[j - 1];
        if i > 0 {
          assert u[i] == t[i - 1];
        } else {
          assert u[j] in t;
          if u[j] != x {
            var m :| 0 <= m < |s[1..]| && s[1..][m] == u[j];
            assert s[m + 1] == u[j];
          }
        }
      }
    }
  }

  /** Sorting yields the same rows, ascending by date. */
  lemma {:induction false} SortByDateSorts(rows: seq<TransactionRow>)
    ensures SortedByDate(SortByDate(rows))
    ensures multiset(SortByDate(rows)) == multiset(rows)
  {
    if rows != [] {
      SortByDateSorts(rows[1..]);
      InsertSorted(rows[0], SortByDate(rows[1..]));
      InsertMultiset(rows[0], SortByDate(rows[1..]));
      assert rows == [rows[0]] + rows[1..];
    }
  }

  /** Rows already in date order are left as they are. */
  lemma {:induction false} SortByDateOfSorted(rows: seq<TransactionRow>)
    requires SortedByDate(rows)
    ensures SortByDate(rows) == rows
  {
    if rows != [] {
      SortByDateOfSorted(rows[1..]);
      assert rows == [rows[0]] + rows[1..];
    }
  }

  /** `orderBy(date).limit(10)` over the client's rows. */
  function EarliestRows(rows: seq<TransactionRow>, id: Int32): seq<TransactionRow>
  {
    var sorted := SortByDate(ClientRows(rows, id));
    if |sorted| <= STATEMENT_SIZE then sorted else sorted[..STATEMENT_SIZE]
  }

  /** A row as a statement lists it, its date formatted. */
  function Present(row: TransactionRow, format: int -> string): Transaction
  {
    Transaction(row.value, row.kind, row.description, format(row.date))
  }

  /** `getBankStatement`: 404 for an unknown id; otherwise the client's
      balance and limit, the statement date, and its rows as the query
      returns them. */
  function Statement(db: Tables, id: Int32, now: int, format: int -> string): (r: OperationResult)
    ensures r.code == NotFound <==> id !in db.clients
    ensures r.code == NotFound ==> r == WithoutData(NotFound)
    ensures r.code != NotFound ==> r.code == OK && r.data.StatementData?
    ensures r.code == OK ==>
      && r.data.statement.balance == Balance(db.clients[id].balance, format(now), db.clients[id].limit)
      && |r.data.statement.lastTransactions| == |EarliestRows(db.transactions, id)|
      && forall i :: 0 <= i < |EarliestRows(db.transactions, id)| ==>
           r.data.statement.lastTransactions[i] == Present(EarliestRows(db.transactions, id)[i], format)
  {
    if id !in db.clients then WithoutData(NotFound)
    else
      var rows := EarliestRows(db.transactions, id);
      OperationResult(OK, StatementData(BankStatementResponse(
        Balance(db.clients[id].balance, format(now), db.clients[id].limit),
        seq(|rows|, i requires 0 <= i < |rows| => Present(rows[i], format)))))
  }

  /** A row of the client that the table holds more often than `picked`
      does is one that `ClientRows` holds more often too. */
  lemma LeftOutOfTable(rows: seq<TransactionRow>, id: Int32, picked: seq<TransactionRow>)
    ensures forall y :: y in multiset(rows) - multiset(picked) && y.clientId == id ==>
      y in multiset(ClientRows(rows, id)) - multiset(picked)
  {
  }

  /** Both parts of a date-sorted sequence are sorted, and no row of the
      second part is older than a row of the first. */
  lemma {:induction false} SortedPrefix(sorted: seq<TransactionRow>, n: nat)
    requires SortedByDate(sorted) && n <= |sorted|
    ensures SortedByDate(sorted[..n]) && SortedByDate(sorted[n..])
    ensures multiset(sorted) == multiset(sorted[..n]) + multiset(sorted[n..])
    ensures forall x, y :: x in sorted[..n] && y in sorted[n..] ==> x.date <= y.date
  {
    assert sorted == sorted[..n] + sorted[n..];
    forall x, y | x in sorted[..n] && y in sorted[n..]
      ensures x.date <= y.date
    {
      var i :| 0 <= i < n && sorted[..n][i] == x;
      var j :| 0 <= j < |sorted| - n && sorted[n..][j] == y;
      assert sorted[i] == x && sorted[n + j] == y;
    }
  }

  /** The statement's rows are only the client's, ascending by date, at
      most 10 of them (all of them when there are fewer), and they are
      the earliest: no row of the client left out is older than one taken. */
  lemma {:induction false} EarliestRowsSpec(rows: seq<TransactionRow>, id: Int32)
    ensures var picked := EarliestRows(rows, id);
      var mine := ClientRows(rows, id);
      && |picked| == (if |mine| < STATEMENT_SIZE then |mine| else STATEMENT_SIZE)
      && (forall x :: x in picked ==> x in rows && x.clientId == id)
      && SortedByDate(picked)
      && multiset(picked) <= multiset(mine)
      && forall x, y :: x in picked && y in multiset(mine) - multiset(picked) ==> x.date <= y.date
  {
    var mine := ClientRows(rows, id);
    var sorted := SortByDate(mine);
    SortByDateSorts(mine);
    var n := if |sorted| <= STATEMENT_SIZE then |sorted| else STATEMENT_SIZE;
    var picked := sorted[..n];
    assert picked == EarliestRows(rows, id);
    SortedPrefix(sorted, n);
    forall x | x in picked
      ensures x in rows && x.clientId == id
    {
      assert x in multiset(picked);
      assert x in multiset(mine);
    }
    forall x: TransactionRow, y: TransactionRow | x in picked && y in multiset(mine) - multiset(picked)
      ensures x.date <= y.date
    {
      assert y in multiset(sorted[n..]);
    }
  }

  /** Stated over the whole table: the statement lists only rows of the
      client, and no row of the client in the table that the statement
      leaves out is older than one it lists. */
  lemma {:induction false} EarliestInTable(rows: seq<TransactionRow>, id: Int32)
    ensures var picked := EarliestRows(rows, id);
      && (forall x :: x in picked ==> x in rows && x.clientId == id)
      && forall x, y :: x in picked && y in multiset(rows) - multiset(picked) && y.clientId == id ==> x.date <= y.date
  {
    EarliestRowsSpec(rows, id);
    LeftOutOfTable(rows, id, EarliestRows(rows, id));
  }

  /** What the query returns is the client's first rows, not its latest:
      when the client's rows have increasing dates and there are more
      than 10, the statement holds the first 10 inserted and leaves out
      the newest. */
  lemma {:induction false} StatementOmitsLatest(rows: seq<TransactionRow>, id: Int32)
    requires StrictlyIncreasingDates(ClientRows(rows, id))
    requires |ClientRows(rows, id)| > STATEMENT_SIZE
    ensures var mine := ClientRows(rows, id);
      EarliestRows(rows, id) == mine[..STATEMENT_SIZE] && mine[|mine| - 1] !in EarliestRows(rows, id)
  {
    var mine := ClientRows(rows, id);
    assert SortedByDate(mine);
    SortByDateOfSorted(mine);
    assert EarliestRows(rows, id) == mine[..STATEMENT_SIZE];
    var newest := mine[|mine| - 1];
    forall x | x in mine[..STATEMENT_SIZE]
      ensures x != newest
    {
      var i :| 0 <= i < STATEMENT_SIZE && mine[..STATEMENT_SIZE][i] == x;
      assert mine[i].date < newest.date;
    }
  }

  // ---------------------------------------------------------------------
  // The statement the query's comment describes

  /** The client's latest rows: the last 10 by date (all of them when
      there are fewer), still in ascending order. */
  function LatestRows(rows: seq<TransactionRow>, id: Int32): seq<TransactionRow>
  {
    var sorted := SortByDate(ClientRows(rows, id));
    if |sorted| <= STATEMENT_SIZE then sorted else sorted[|sorted| - STATEMENT_SIZE..]
  }

  /** The latest rows are only the client's, ascending by date, at most
      10 of them (all of them when there are fewer), and no row of the
      client left out is newer than one taken. */
  lemma {:induction false} LatestRowsSpec(rows: seq<TransactionRow>, id: Int32)
    ensures var picked := LatestRows(rows, id);
      var mine := ClientRows(rows, id);
      && |picked| == (if |mine| < STATEMENT_SIZE then |mine| else STATEMENT_SIZE)
      && (forall x :: x in picked ==> x in rows && x.clientId == id)
      && SortedByDate(picked)
      && multiset(picked) <= multiset(mine)
      && forall x, y :: x in picked && y in multiset(mine) - multiset(picked) ==> y.date <= x.date
  {
    var mine := ClientRows(rows, id);
    var sorted := SortByDate(mine);
    SortByDateSorts(mine);
    var m := if |sorted| <= STATEMENT_SIZE then 0 else |sorted| - STATEMENT_SIZE;
    var picked := sorted[m..];
    assert picked == LatestRows(rows, id);
    SortedPrefix(sorted, m);
    forall x | x in picked
      ensures x in rows && x.clientId == id
    {
      assert x in multiset(picked);
      assert x in multiset(mine);
    }
    forall x: TransactionRow, y: TransactionRow | x in picked && y in multiset(mine) - multiset(picked)
      ensures y.date <= x.date
    {
      assert y in multiset(sorted[..m]);
    }
  }

  /** When the client's rows are in date order (dates read from a clock
      that never goes back), the latest rows are the last `min(10, n)`
      inserted, so the newest row is listed. */
  lemma {:induction false} StatementListsLatest(rows: seq<TransactionRow>, id: Int32)
    requires SortedByDate(ClientRows(rows, id))
    requires ClientRows(rows, id) != []
    ensures var mine := ClientRows(rows, id);
      var n := if |mine| < STATEMENT_SIZE then |mine| else STATEMENT_SIZE;
      LatestRows(rows, id) == mine[|mine| - n..] && mine[|mine| - 1] in LatestRows(rows, id)
  {
    var mine := ClientRows(rows, id);
    SortByDateOfSorted(mine);
    if |mine| <= STATEMENT_SIZE {
      assert mine[0..] == mine;
      assert LatestRows(rows, id) == mine;
    } else {
      assert LatestRows(rows, id) == mine[|mine| - STATEMENT_SIZE..];
    }
  }

  /** Stated over the whole table: the latest rows are only rows of the
      client, and no row of the client in the table that they leave out
      is newer than one they list. */
  lemma {:induction false} LatestInTable(rows: seq<TransactionRow>, id: Int32)
    ensures var picked := LatestRows(rows, id);
      && (forall x :: x in picked ==> x in rows && x.clientId == id)
      && forall x, y :: x in picked && y in multiset(rows) - multiset(picked) && y.clientId == id ==> y.date <= x.date
  {
    LatestRowsSpec(rows, id);
    LeftOutOfTable(rows, id, LatestRows(rows, id));
  }
}
