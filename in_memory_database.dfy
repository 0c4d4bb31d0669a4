/** The in-memory store: a fixed list of client objects whose balance and
    history are updated in place. Each operation is proved to do what the
    matching function of `InMemoryLedger` describes. */
module InMemory {
  import opened KotlinInt
  import opened Models
  import L = InMemoryLedger

  /** A client: a fixed id and limit, a balance and a history. */
  class Client {
    const id: Int32
    const limit: Int32
    var balance: Int32
    var transactions: seq<Transaction>

    constructor (id: Int32, limit: Int32, balance: Int32)
      ensures this.id == id && this.limit == limit && this.balance == balance
      ensures transactions == []
      ensures State() == L.ClientState(id, limit, balance, [])
    {
      this.id, this.limit, this.balance := id, limit, balance;
      transactions := [];
    }

    /** The client as a value. */
    ghost function State(): L.ClientState
      reads this
    {
      L.ClientState(id, limit, balance, transactions)
    }
  }

  class InMemoryDatabase {
    const clients: seq<Client>

    /** The clients as values, in list order. */
    ghost function Snapshot(): (s: seq<L.ClientState>)
      reads clients
      ensures |s| == |clients|
      ensures forall i :: 0 <= i < |clients| ==> s[i] == clients[i].State()
    {
      seq(|clients|, i requires 0 <= i < |clients| reads clients => clients[i].State())
    }

    /** Ids are distinct (so distinct list positions hold distinct
        objects) and no balance is negative. */
    ghost predicate Valid()
      reads clients
    {
      && (forall i, j :: 0 <= i < j < |clients| ==> clients[i].id != clients[j].id)
      && (forall i :: 0 <= i < |clients| ==> clients[i].balance >= 0)
    }

    /** The store starts with the five seed clients. */
    constructor ()
      ensures Snapshot() == L.SEED
      ensures Valid()
      ensures forall i :: 0 <= i < |clients| ==> fresh(clients[i])
    {
      var c1 := new Client(1, 100000, 0);
      var c2 := new Client(2, 80000, 0);
      var c3 := new Client(3, 1000000, 0);
      var c4 := new Client(4, 10000000, 0);
      var c5 := new Client(5, 500000, 0);
      clients := [c1, c2, c3, c4, c5];
      new;
      forall i | 0 <= i < |clients|
        ensures fresh(clients[i])
      {
        assert clients[i] in {c1, c2, c3, c4, c5};
      }
      assert Valid();
      forall i | 0 <= i < |clients|
        ensures clients[i].State() == L.SEED[i]
      {
        assert clients[i] == [c1, c2, c3, c4, c5][i];
      }
      SnapshotIs(L.SEED);
    }

    /** The snapshot is determined by the clients' states one by one. */
    lemma SnapshotIs(states: seq<L.ClientState>)
      requires |states| == |clients|
      requires forall i :: 0 <= i < |clients| ==> clients[i].State() == states[i]
      ensures Snapshot() == states
    {
    }

    /** `clients.find { it.id == id }`: the first client with this id,
        or null when there is none. */
    method Find(id: Int32) returns (c: Client?)
      ensures var r := L.FindIndex(Snapshot(), id);
        if r.None? then c == null else r.value < |clients| && c == clients[r.value]
    {
      var i := 0;
      while i < |clients|
        invariant 0 <= i <= |clients|
        invariant forall j :: 0 <= j < i ==> clients[j].id != id
      {
        if clients[i].id == id {
          return clients[i];
        }
        i := i + 1;
      }
      return null;
    }

    /** `createTransaction`: subtracts the value from the balance whatever
        the type, and applies it only when the result is not negative. */
    method CreateTransaction(id: Int32, req: TransactionRequest, now: int, format: int -> string) returns (r: OperationResult)
      requires Valid()
      modifies clients
      ensures Valid()
      ensures var s := L.CreateTransaction(old(Snapshot()), id, req, now, format);
        Snapshot() == s.clients && r == s.result
    {
      ghost var before := Snapshot();
      var c := Find(id);
      if c != null {
        ghost var k := L.FindIndex(before, id).value;
        var nextBalance := Wrap(c.balance - req.value);
        if nextBalance >= 0 {
          c.balance := nextBalance;
          c.transactions := c.transactions + [Transaction(req.value, req.kind, req.description, format(now))];
          L.Accepted(before, k, req, now, format);
          ghost var after := L.CreateTransaction(before, id, req, now, format).clients;
          forall i | 0 <= i < |clients|
            ensures Snapshot()[i] == after[i]
          {
            if i != k {
              assert clients[i].id != clients[k].id;
            }
          }
          r := OperationResult(OK, TransactionData(TransactionResponse(c.limit, c.balance)));
        } else {
          L.Rejected(before, k, req, now, format);
          r := WithoutData(UnprocessableEntity);
        }
      } else {
        L.UnknownIdNotFound(before, id, req, now, format);
        r := WithoutData(NotFound);
      }
    }

    /** `getBankStatement`: reads the client's balance, limit and latest
        transactions; changes nothing. */
    method GetBankStatement(id: Int32, now: int, format: int -> string) returns (r: OperationResult)
      ensures r == L.BankStatement(Snapshot(), id, now, format)
    {
      var c := Find(id);
      if c != null {
        return OperationResult(OK, StatementData(BankStatementResponse(
          Balance(c.balance, format(now), c.limit),
          L.LastTransactions(c.transactions))));
      }
      return WithoutData(NotFound);
    }
  }
}
