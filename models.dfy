/** The records exchanged with the ledger: the transaction request with
    the validation its construction performs, and the result records the
    two stores return. */
module Models {
  import opened KotlinInt

  datatype Result<+T, +E> = Success(value: T) | Failure(error: E)

  /** The body of a transaction request. `kind` is the request's `type`
      ("tipo"): "c" for a credit, "d" for a debit. */
  datatype TransactionRequest = TransactionRequest(value: Int32, kind: string, description: string)
  {
    /** The three checks the request's construction performs. */
    predicate Valid() {
      && value >= 0
      && (kind == "c" || kind == "d")
      && 1 <= |description| <= 10
    }
  }

  /** Which of the construction's checks failed first. */
  datatype ValidationError = NegativeValue | UnknownType | DescriptionLength

  /** Constructing a request: the checks run in order and the first one
      that fails aborts construction, so only valid requests exist. */
  function NewTransactionRequest(value: Int32, kind: string, description: string): (r: Result<TransactionRequest, ValidationError>)
    ensures r.Success? <==> value >= 0 && (kind == "c" || kind == "d") && 1 <= |description| <= 10
    ensures r.Success? ==> r.value.Valid() && r.value == TransactionRequest(value, kind, description)
    ensures value < 0 ==> r == Failure(NegativeValue)
    ensures value >= 0 && kind != "c" && kind != "d" ==> r == Failure(UnknownType)
    ensures value >= 0 && (kind == "c" || kind == "d") && !(1 <= |description| <= 10) ==> r == Failure(DescriptionLength)
  {
    if value < 0 then Failure(NegativeValue)
    else if kind != "c" && kind != "d" then Failure(UnknownType)
    else if |description| < 1 || |description| > 10 then Failure(DescriptionLength)
    else Success(TransactionRequest(value, kind, description))
  }

  /** The reply to an accepted transaction. */
  datatype TransactionResponse = TransactionResponse(limit: Int32, balance: Int32)

  /** The balance part of a statement. */
  datatype Balance = Balance(total: Int32, bankStatementDate: string, limit: Int32)

  /** A transaction as a statement lists it. */
  datatype Transaction = Transaction(value: Int32, kind: string, description: string, date: string)

  /** A statement: the balance and the listed transactions. */
  datatype BankStatementResponse = BankStatementResponse(balance: Balance, lastTransactions: seq<Transaction>)

  /** The three HTTP statuses the ledger produces: 200, 422 and 404. */
  datatype StatusCode = OK | UnprocessableEntity | NotFound

  /** What an operation result carries: a bare text or one of the two replies. */
  datatype Payload =
    | Text(text: string)
    | TransactionData(response: TransactionResponse)
    | StatementData(statement: BankStatementResponse)

  datatype OperationResult = OperationResult(code: StatusCode, data: Payload)

  const NO_DATA: string := "Sem dados"

  /** How many transactions a statement lists at most. */
  const STATEMENT_SIZE: nat := 10

  /** A result built from a status alone carries the default payload. */
  function WithoutData(code: StatusCode): (r: OperationResult)
    ensures r.code == code && r.data.Text? && r.data.text == NO_DATA
  {
    OperationResult(code, Text(NO_DATA))
  }

  /** One call of `createTransaction`: the client id from the path, the
      request body and the clock reading the store would take. */
  datatype Call = Call(id: Int32, request: TransactionRequest, now: int)
}
