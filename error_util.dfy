/**
 * Errors as the services throw them and the Express error handler that turns
 * them into an HTTP status and a JSON body.
 */
module ErrorUtil {
  import opened Wrappers

  /** One entry of a Sequelize error's `errors` list. */
  datatype ErrorItem = ErrorItem(message: string, path: string)

  /**
   * A thrown error, as the handler reads it: the `name` property, `message`,
   * `statusCode` (absent on errors the code did not create), the
   * `isOperational` flag and, on Sequelize errors, the `errors` list.
   */
  datatype Error = Error(
    name: string,
    message: string,
    statusCode: Option<int>,
    isOperational: bool,
    errors: seq<ErrorItem>)

  /** What a service call yields: a value, or the error it throws. */
  datatype Result<+T> = Ok(value: T) | Err(error: Error)

  /** The outcome of a check that yields no value (`canBorrowBook` returns `true` or throws). */
  datatype Outcome = Pass | Fail(error: Error)

  const ValidationErrorName := "SequelizeValidationError"
  const UniqueConstraintErrorName := "SequelizeUniqueConstraintError"
  const DefaultMessage := "Internal Server Error"
  const GenericMessage := "Internal server error"

  /**
   * `new AppError(message, statusCode)`. The class sets no `name` of its own,
   * so the inherited `Error.prototype.name`, "Error", is what the handler sees.
   */
  function AppError(message: string, statusCode: int): Error {
    Error("Error", message, Some(statusCode), true, [])
  }

  /** A Sequelize validation failure carrying one item per failed validator. */
  function ValidationError(items: seq<ErrorItem>): Error {
    Error(ValidationErrorName, "Validation error", None, false, items)
  }

  /** The item Sequelize reports for a `null` in a column declared `allowNull: false`. */
  function NotNullViolation(model: string, field: string): ErrorItem {
    ErrorItem(model + "." + field + " cannot be null", field)
  }

  /** The item Sequelize reports when the built-in validator `validator` rejects `field`. */
  function ValidatorViolation(validator: string, field: string): ErrorItem {
    ErrorItem("Validation " + validator + " on " + field + " failed", field)
  }

  /** A unique-index violation reported by the database for the column `path`. */
  function UniqueConstraintError(path: string): Error {
    Error(UniqueConstraintErrorName, "Validation error", None, false,
          [ErrorItem(path + " must be unique", path)])
  }

  /** The `TypeError` thrown when code reads property `prop` of a record a lookup did not find. */
  function NullDereference(prop: string): Error {
    Error("TypeError", "Cannot read properties of null (reading '" + prop + "')", None, false, [])
  }

  /** An error raised by PostgreSQL for a value it rejects (an unknown enum label). */
  function DatabaseError(message: string): Error {
    Error("SequelizeDatabaseError", message, None, false, [])
  }

  /** The JSON body: `{success: false, errors: [...]}` or `{success: false, error: ...}`. */
  datatype Body = Errors(errors: seq<string>) | Message(error: string)

  datatype Response = Response(status: int, success: bool, body: Body)

  /** `err.statusCode || 500`: an absent or zero status code becomes 500. */
  function NormalizedStatus(err: Error): (s: int)
    ensures s != 0
    ensures s == 500 || Some(s) == err.statusCode
  {
    if err.statusCode.None? || err.statusCode.value == 0 then 500 else err.statusCode.value
  }

  /** `err.message || 'Internal Server Error'`: an empty message is replaced. */
  function NormalizedMessage(err: Error): (m: string)
    ensures m != ""
    ensures err.message != "" ==> m == err.message
  {
    if err.message == "" then DefaultMessage else err.message
  }

  /** `err.errors.map(error => error.message)`. */
  function ItemMessages(items: seq<ErrorItem>): (r: seq<string>)
    ensures |r| == |items|
    ensures forall i :: 0 <= i < |items| ==> r[i] == items[i].message
  {
    if items == [] then [] else [items[0].message] + ItemMessages(items[1..])
  }

  /** `err.errors.map(error => `${error.path} must be unique`)`. */
  function UniqueMessages(items: seq<ErrorItem>): (r: seq<string>)
    ensures |r| == |items|
    ensures forall i :: 0 <= i < |items| ==> r[i] == items[i].path + " must be unique"
  {
    if items == [] then [] else [items[0].path + " must be unique"] + UniqueMessages(items[1..])
  }

  /**
   * The error handler: the two Sequelize cases first, then operational errors
   * with their own status and message, and everything else as a bare 500.
   */
  function ErrorHandler(err: Error): (r: Response)
    ensures !r.success
    ensures r.status == 400 || r.status == 500 || Some(r.status) == err.statusCode
    ensures r.body.Errors? <==> err.name == ValidationErrorName || err.name == UniqueConstraintErrorName
    ensures r.body.Errors? ==> r.status == 400 && |r.body.errors| == |err.errors|
    ensures r.body.Message? && r.body.error != GenericMessage ==> err.isOperational
  {
    if err.name == ValidationErrorName then
      Response(400, false, Errors(ItemMessages(err.errors)))
    else if err.name == UniqueConstraintErrorName then
      Response(400, false, Errors(UniqueMessages(err.errors)))
    else if err.isOperational then
      Response(NormalizedStatus(err), false, Message(NormalizedMessage(err)))
    else
      Response(500, false, Message(GenericMessage))
  }

  /** An AppError is answered with its own status code and message. */
  lemma AppErrorResponse(message: string, statusCode: int)
    requires message != "" && statusCode != 0
    ensures AppError(message, statusCode).isOperational
    ensures ErrorHandler(AppError(message, statusCode)) == Response(statusCode, false, Message(message))
  {
  }

  /** An AppError built without a status code or message gets the defaults. */
  lemma AppErrorDefaults()
    ensures ErrorHandler(AppError("", 0)) == Response(500, false, Message(DefaultMessage))
  {
  }

  /** A validation error becomes a 400 listing each validator's message in order. */
  lemma ValidationErrorResponse(items: seq<ErrorItem>)
    ensures var r := ErrorHandler(ValidationError(items));
      r.status == 400 && r.body.Errors? && |r.body.errors| == |items| &&
      forall i :: 0 <= i < |items| ==> r.body.errors[i] == items[i].message
  {
  }

  /** A unique-constraint error becomes a 400 saying which column must be unique. */
  lemma UniqueConstraintResponse(path: string)
    ensures ErrorHandler(UniqueConstraintError(path)) == Response(400, false, Errors([path + " must be unique"]))
  {
  }

  /** Errors the code did not create answer 500 and do not reveal their message. */
  lemma InternalErrorsHideDetails(e1: Error, e2: Error)
    requires !e1.isOperational && !e2.isOperational
    requires e1.name !in {ValidationErrorName, UniqueConstraintErrorName}
    requires e2.name !in {ValidationErrorName, UniqueConstraintErrorName}
    ensures ErrorHandler(e1) == ErrorHandler(e2) == Response(500, false, Message(GenericMessage))
  {
  }
}
