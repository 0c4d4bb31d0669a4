/** The Postgres-backed store: the two tables it reads and writes, and the
    operations on them. Each operation is proved to do what the matching
    function of `PostgresLedger` describes. */
module Postgres {
  import opened KotlinInt
  import opened Models
  import opened PostgresLedger

  class PostgresDatabase {
    /** The clients table, keyed by id. */
    var clients: map<Int32, ClientRow>
    /** The transactions table, in insertion order. */
    var transactions: seq<TransactionRow>

    /** A connection to tables with these contents (the schema already
        exists; whatever rows a previous run left are still there). */
    constructor (clients: map<Int32, ClientRow>, transactions: seq<TransactionRow>)
      ensures this.clients == clients && this.transactions == transactions
    {
      this.clients, this.transactions := clients, transactions;
    }

    /** Both tables as one value. */
    function Contents(): Tables
      reads this
    {
      Tables(clients, transactions)
    }

    /** `initialize`: the five `insertIgnore` statements, in order. */
    method Initialize()
      modifies this
      ensures clients == Seed(old(clients))
      ensures clients.Keys == old(clients).Keys + {1, 2, 3, 4, 5}
      ensures forall k :: k in old(clients) ==> clients[k] == old(clients)[k]
      ensures transactions == old(transactions)
    {
      clients := InsertIgnore(clients, 1, ClientRow(100000, 0));
      clients := InsertIgnore(clients, 2, ClientRow(80000, 0));
      clients := InsertIgnore(clients, 3, ClientRow(1000000, 0));
      clients := InsertIgnore(clients, 4, ClientRow(10000000, 0));
      clients := InsertIgnore(clients, 5, ClientRow(500000, 0));
      SeedAddsMissingClients(old(clients));
    }

    /** `createTransaction`: looks the client up, then for a debit refuses
        a negative `balance - value` and otherwise updates the balance and
        inserts the row; for a credit always does so; for any other type or
        an unknown id answers 404. `now` is the clock reading. */
    method CreateTransaction(id: Int32, req: TransactionRequest, now: int) returns (r: OperationResult)
      modifies this
      ensures var s := PostgresLedger.CreateTransaction(old(Contents()), id, req, now);
        Contents() == s.tables && r == s.result
    {
      if id in clients {
        var search := clients[id];
        if req.kind == "d" {
          var nextBalance := Wrap(search.balance - req.value);
          if nextBalance < 0 {
            return WithoutData(UnprocessableEntity);
          }
          clients := clients[id := search.(balance := nextBalance)];
          transactions := transactions + [TransactionRow(req.value, req.kind, req.description, now, id)];
          return OperationResult(OK, TransactionData(TransactionResponse(search.limit, nextBalance)));
        } else if req.kind == "c" {
          var nextBalance := Wrap(search.balance + req.value);
          clients := clients[id := search.(balance := nextBalance)];
          transactions := transactions + [TransactionRow(req.value, req.kind, req.description, now, id)];
          return OperationResult(OK, TransactionData(TransactionResponse(search.limit, nextBalance)));
        }
      }
      return WithoutData(NotFound);
    }

    /** `getBankStatement`: the client's balance and limit, the date of
        the statement, and the rows the query selects; changes nothing. */
    method GetBankStatement(id: Int32, now: int, format: int -> string) returns (r: OperationResult)
      ensures r == Statement(Contents(), id, now, format)
    {
      if id in clients {
        var search := clients[id];
        var rows := EarliestRows(transactions, id);
        var listed := seq(|rows|, i requires 0 <= i < |rows| => Present(rows[i], format));
        return OperationResult(OK, StatementData(BankStatementResponse(
          Balance(search.balance, format(now), search.limit), listed)));
      }
      return WithoutData(NotFound);
    }
  }
}
