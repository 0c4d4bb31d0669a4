/** The in-memory store's behaviour as functions on the list of client
    states: the lookup, the transaction decision and the statement. The
    `InMemory` module's classes are proved to follow these functions. */
module InMemoryLedger {
  import opened KotlinInt
  import opened Models

  datatype Option<+T> = None | Some(value: T)

  /** The state of one client: a fixed id and limit, a balance and the
      history of accepted transactions, oldest first. */
  datatype ClientState = ClientState(id: Int32, limit: Int32, balance: Int32, transactions: seq<Transaction>)

  /** The five clients the store starts with. */
  const SEED: seq<ClientState> := [
    ClientState(1, 100000, 0, []),
    ClientState(2, 80000, 0, []),
    ClientState(3, 1000000, 0, []),
    ClientState(4, 10000000, 0, []),
    ClientState(5, 500000, 0, [])
  ]

  /** The position of the first client with this id, as a linear search
      from the front finds it. */
  function FindIndex(cs: seq<ClientState>, id: Int32): (r: Option<nat>)
    ensures r.None? <==> forall i :: 0 <= i < |cs| ==> cs[i].id != id
    ensures r.Some? ==> r.value < |cs| && cs[r.value].id == id
    ensures r.Some? ==> forall i :: 0 <= i < r.value ==> cs[i].id != id
  {
    if cs == [] then None
    else if cs[0].id == id then Some(0)
    else match FindIndex(cs[1..], id)
      case None => None
      case Some(k) => Some(k + 1)
  }

  /** The state after a call and what the call returns. */
  datatype Step = Step(clients: seq<ClientState>, result: OperationResult)

  /** `createTransaction`: the tentative balance is `balance - value`
      whatever the request's type; it is accepted when not negative. */
  function CreateTransaction(cs: seq<ClientState>, id: Int32, req: TransactionRequest, now: int, format: int -> string): (s: Step)
    ensures |s.clients| == |cs|
    ensures forall i :: 0 <= i < |cs| ==> s.clients[i].id == cs[i].id && s.clients[i].limit == cs[i].limit
  {
    match FindIndex(cs, id)
    case None => Step(cs, WithoutData(NotFound))
    case Some(k) =>
      var c := cs[k];
      var nextBalance := Wrap(c.balance - req.value);
      if nextBalance >= 0 then
        var entry := Transaction(req.value, req.kind, req.description, format(now));
        Step(cs[k := c.(balance := nextBalance, transactions := c.transactions + [entry])],
             OperationResult(OK, TransactionData(TransactionResponse(c.limit, nextBalance))))
      else
        Step(cs, WithoutData(UnprocessableEntity))
  }

  /** The last `STATEMENT_SIZE` entries of a history, in their order. */
  function LastTransactions(h: seq<Transaction>): (r: seq<Transaction>)
    ensures |r| == (if |h| < STATEMENT_SIZE then |h| else STATEMENT_SIZE)
    ensures h == h[..|h| - |r|] + r
  {
    if |h| <= STATEMENT_SIZE then h else h[|h| - STATEMENT_SIZE..]
  }

  /** `getBankStatement`: the balance, the limit and the latest entries. */
  function BankStatement(cs: seq<ClientState>, id: Int32, now: int, format: int -> string): (r: OperationResult)
  {
    match FindIndex(cs, id)
    case None => WithoutData(NotFound)
    case Some(k) =>
      OperationResult(OK, StatementData(BankStatementResponse(
        Balance(cs[k].balance, format(now), cs[k].limit),
        LastTransactions(cs[k].transactions))))
  }

  /** The list classes `takeLast` can hand back: Kotlin's shared
      read-only empty list, a one-element Java list, or a new array list. */
  datatype ListKind = ReadOnlyEmpty | JavaSingleton | ArrayBacked

  /** The class of the list `takeLast(n)` builds from a list of `size`
      elements. */
  function TakeLastKind(size: nat, n: nat): (k: ListKind)
    ensures k == ReadOnlyEmpty <==> n == 0 || size == 0
  {
    if n == 0 then ReadOnlyEmpty
    else if n >= size then
      (if size == 0 then ReadOnlyEmpty else if size == 1 then JavaSingleton else ArrayBacked)
    else if n == 1 then JavaSingleton
    else ArrayBacked
  }

  /** `getBankStatement` as written: the cast of the `takeLast` result to
      a mutable list throws on Kotlin's read-only empty list, so the call
      yields no result (None) where that happens. */
  function BankStatementAsWritten(cs: seq<ClientState>, id: Int32, now: int, format: int -> string): (r: Option<OperationResult>)
  {
    match FindIndex(cs, id)
    case None => Some(WithoutData(NotFound))
    case Some(k) =>
      if TakeLastKind(|cs[k].transactions|, STATEMENT_SIZE) == ReadOnlyEmpty then None
      else Some(BankStatement(cs, id, now, format))
  }

  /** The state after a sequence of calls, applied in order. */
  function Run(cs: seq<ClientState>, calls: seq<Call>, format: int -> string): (r: seq<ClientState>)
  {
    if calls == [] then cs
    else
      var last := calls[|calls| - 1];
      CreateTransaction(Run(cs, calls[..|calls| - 1], format), last.id, last.request, last.now, format).clients
  }

  /** Every balance is non-negative. */
  ghost predicate NonNegative(cs: seq<ClientState>) {
    forall i :: 0 <= i < |cs| ==> cs[i].balance >= 0
  }

  /** Every balance is zero. */
  ghost predicate AllZero(cs: seq<ClientState>) {
    forall i :: 0 <= i < |cs| ==> cs[i].balance == 0
  }

  // ---------------------------------------------------------------------
  // Properties of a single call

  /** The seed holds clients 1 to 5 with their limits, no balance and no history. */
  lemma SeedClients()
    ensures |SEED| == 5
    ensures forall i :: 0 <= i < 5 ==> SEED[i].id == i + 1 && SEED[i].balance == 0 && SEED[i].transactions == []
    ensures SEED[0].limit == 100000 && SEED[1].limit == 80000 && SEED[2].limit == 1000000
    ensures SEED[3].limit == 10000000 && SEED[4].limit == 500000
  {
  }

  /** An id no client has yields 404 with the default payload and
      changes nothing; an id some client has never yields 404. */
  lemma UnknownIdNotFound(cs: seq<ClientState>, id: Int32, req: TransactionRequest, now: int, format: int -> string)
    ensures var s := CreateTransaction(cs, id, req, now, format);
      s.result.code == NotFound <==> forall i :: 0 <= i < |cs| ==> cs[i].id != id
    ensures var s := CreateTransaction(cs, id, req, now, format);
      s.result.code == NotFound ==> s.clients == cs && s.result == WithoutData(NotFound)
  {
  }

  /** The decision never looks at the request's type: a credit and a
      debit of the same value get the same answer and the same new
      balance; in particular a credit lowers the balance. */
  lemma {:induction false} TypeIgnored(cs: seq<ClientState>, id: Int32, req: TransactionRequest, kind: string, now: int, format: int -> string)
    ensures var s1 := CreateTransaction(cs, id, req, now, format);
      var s2 := CreateTransaction(cs, id, req.(kind := kind), now, format);
      s1.result == s2.result
      && forall i :: 0 <= i < |cs| ==> s1.clients[i].balance == s2.clients[i].balance
  {
  }

  /** A credit of a positive value to a client whose balance is not
      negative is either refused or lowers that balance by the value. */
  lemma CreditLowersBalance(cs: seq<ClientState>, k: nat, req: TransactionRequest, now: int, format: int -> string)
    requires k < |cs| && FindIndex(cs, cs[k].id) == Some(k)
    requires cs[k].balance >= 0 && req.Valid() && req.kind == "c" && req.value > 0
    ensures var s := CreateTransaction(cs, cs[k].id, req, now, format);
      s.result.code == OK ==> s.clients[k].balance == cs[k].balance - req.value < cs[k].balance
  {
  }

  /** Accepted exactly when `balance - value` is not negative; then the
      balance becomes it, one entry with the request's value, type and
      description is appended, nothing else changes, and the reply
      carries the unchanged limit and the new balance. */
  lemma {:induction false} Accepted(cs: seq<ClientState>, k: nat, req: TransactionRequest, now: int, format: int -> string)
    requires k < |cs| && FindIndex(cs, cs[k].id) == Some(k)
    requires Wrap(cs[k].balance - req.value) >= 0
    ensures var s := CreateTransaction(cs, cs[k].id, req, now, format);
      && s.result == OperationResult(OK, TransactionData(TransactionResponse(cs[k].limit, Wrap(cs[k].balance - req.value))))
      && s.clients[k].balance == Wrap(cs[k].balance - req.value)
      && s.clients[k].transactions == cs[k].transactions + [Transaction(req.value, req.kind, req.description, format(now))]
      && forall i :: 0 <= i < |cs| && i != k ==> s.clients[i] == cs[i]
  {
  }

  /** Refused when `balance - value` is negative: 422 and no change at all. */
  lemma {:induction false} Rejected(cs: seq<ClientState>, k: nat, req: TransactionRequest, now: int, format: int -> string)
    requires k < |cs| && FindIndex(cs, cs[k].id) == Some(k)
    requires Wrap(cs[k].balance - req.value) < 0
    ensures var s := CreateTransaction(cs, cs[k].id, req, now, format);
      s.result == WithoutData(UnprocessableEntity) && s.clients == cs
  {
  }

  /** The statement reads the current balance and limit and the latest
      `min(10, n)` entries of the history, in their order; an unknown id
      yields 404. */
  lemma StatementIsLatestSuffix(cs: seq<ClientState>, id: Int32, now: int, format: int -> string)
    ensures var r := BankStatement(cs, id, now, format);
      r.code == NotFound <==> forall i :: 0 <= i < |cs| ==> cs[i].id != id
    ensures var r := BankStatement(cs, id, now, format);
      r.code == NotFound ==> r == WithoutData(NotFound)
    ensures var r := BankStatement(cs, id, now, format);
      r.code == OK ==>
        var c := cs[FindIndex(cs, id).value];
        var h := c.transactions;
        var n := if |h| < STATEMENT_SIZE then |h| else STATEMENT_SIZE;
        && r.data.StatementData?
        && r.data.statement.balance == Balance(c.balance, format(now), c.limit)
        && r.data.statement.lastTransactions == h[|h| - n..]
        && (h != [] ==> h[|h| - 1] in r.data.statement.lastTransactions)
    ensures var r := BankStatement(cs, id, now, format);
      r.code != NotFound ==> r.code == OK
  {
  }

  // ---------------------------------------------------------------------
  // Properties of sequences of calls

  /** The lookup depends only on the ids, in order. */
  lemma {:induction false} SameIdsSameIndex(a: seq<ClientState>, b: seq<ClientState>, id: Int32)
    requires |a| == |b| && forall i :: 0 <= i < |a| ==> a[i].id == b[i].id
    ensures FindIndex(a, id) == FindIndex(b, id)
  {
    if a != [] && a[0].id != id {
      SameIdsSameIndex(a[1..], b[1..], id);
    }
  }

  /** Limits and ids never change, and a balance reached from
      non-negative balances is never negative. */
  lemma {:induction false} RunKeepsInvariant(cs: seq<ClientState>, calls: seq<Call>, format: int -> string)
    requires NonNegative(cs)
    ensures var r := Run(cs, calls, format);
      && |r| == |cs|
      && (forall i :: 0 <= i < |cs| ==> r[i].id == cs[i].id && r[i].limit == cs[i].limit)
      && NonNegative(r)
  {
    if calls != [] {
      var before := calls[..|calls| - 1];
      RunKeepsInvariant(cs, before, format);
      var mid := Run(cs, before, format);
      var last := calls[|calls| - 1];
      var s := CreateTransaction(mid, last.id, last.request, last.now, format);
      match FindIndex(mid, last.id)
      case None =>
      case Some(k) =>
        assert forall i :: 0 <= i < |mid| && i != k ==> s.clients[i] == mid[i];
    }
  }

  /** From balances that are all zero, valid requests keep every balance
      at zero: only value-0 requests are ever accepted. */
  lemma {:induction false} ValidRunKeepsZero(cs: seq<ClientState>, calls: seq<Call>, format: int -> string)
    requires AllZero(cs)
    requires forall i :: 0 <= i < |calls| ==> calls[i].request.Valid()
    ensures AllZero(Run(cs, calls, format))
  {
    if calls != [] {
      var before := calls[..|calls| - 1];
      ValidRunKeepsZero(cs, before, format);
      var mid := Run(cs, before, format);
      var last := calls[|calls| - 1];
      assert last.request.Valid();
      var s := CreateTransaction(mid, last.id, last.request, last.now, format);
      match FindIndex(mid, last.id)
      case None =>
      case Some(k) =>
        assert forall i :: 0 <= i < |mid| && i != k ==> s.clients[i] == mid[i];
    }
  }

  /** After any sequence of valid requests from all-zero balances (as in
      the seed), a credit of a positive value to a known client is
      refused with 422. */
  lemma {:induction false} CreditNeverAccepted(cs: seq<ClientState>, calls: seq<Call>, k: nat, req: TransactionRequest, now: int, format: int -> string)
    requires AllZero(cs) && k < |cs| && FindIndex(cs, cs[k].id) == Some(k)
    requires forall i :: 0 <= i < |calls| ==> calls[i].request.Valid()
    requires req.Valid() && req.kind == "c" && req.value > 0
    ensures CreateTransaction(Run(cs, calls, format), cs[k].id, req, now, format).result == WithoutData(UnprocessableEntity)
  {
    var r := Run(cs, calls, format);
    RunKeepsInvariant(cs, calls, format);
    ValidRunKeepsZero(cs, calls, format);
    SameIdsSameIndex(cs, r, cs[k].id);
    Rejected(r, k, req, now, format);
  }

  // ---------------------------------------------------------------------
  // The statement of an empty history

  /** As written, the statement of a known client throws exactly when its
      history is empty; otherwise it is the statement `BankStatement`
      describes. */
  lemma StatementThrowsOnEmptyHistory(cs: seq<ClientState>, id: Int32, now: int, format: int -> string)
    ensures var r := BankStatementAsWritten(cs, id, now, format);
      r.None? <==> FindIndex(cs, id).Some? && cs[FindIndex(cs, id).value].transactions == []
    ensures var r := BankStatementAsWritten(cs, id, now, format);
      r.Some? ==> r.value == BankStatement(cs, id, now, format)
  {
  }

  /** Every seed client starts with no history, so asking for its
      statement before any transaction throws. */
  lemma {:induction false} SeedStatementThrows(k: nat, now: int, format: int -> string)
    requires k < |SEED|
    ensures BankStatementAsWritten(SEED, SEED[k].id, now, format).None?
  {
    SeedClients();
    assert FindIndex(SEED, SEED[k].id) == Some(k);
  }
}
