/** The Express error middleware: turns any error that reaches it into an
    HTTP status and a JSON body `{status: 'error', statusCode, message}`. */
module ErrorHandler {
  import opened JsValues

  const DefaultStatusCode: JsValue := Number(500.0)
  const DefaultMessage: string := "An unexpected internal server error occurred."

  /** What the handler sends: the status given to `res.status(...)` and the
      object given to `.json(...)`. */
  datatype ErrorResponse = ErrorResponse(httpStatus: JsValue, body: Record)

  /** `errorHandler(err, ...)` on an error object `err`: its `statusCode`
      unless that is falsy, then 500; its `message` unless that is falsy,
      then the default message. */
  function HandleError(err: Record): (r: ErrorResponse)
    ensures r.body.Keys == {"status", "statusCode", "message"}
    ensures r.body["status"] == Str("error")
    ensures r.body["statusCode"] == r.httpStatus
    ensures Truthy(r.httpStatus) && Truthy(r.body["message"])
    ensures r.httpStatus == if Truthy(Get(err, "statusCode")) then err["statusCode"] else DefaultStatusCode
    ensures r.body["message"] == if Truthy(Get(err, "message")) then err["message"] else Str(DefaultMessage)
  {
    var statusCode := if Truthy(Get(err, "statusCode")) then Get(err, "statusCode") else DefaultStatusCode;
    var message := if Truthy(Get(err, "message")) then Get(err, "message") else Str(DefaultMessage);
    ErrorResponse(statusCode, map["status" := Str("error"), "statusCode" := statusCode, "message" := message])
  }

  /** 500 is sent exactly when the error carries no truthy status code (it
      is absent, 0, null, ...) or carries 500 itself. */
  lemma StatusFallsBackTo500(err: Record)
    ensures HandleError(err).httpStatus == DefaultStatusCode <==>
      (!Truthy(Get(err, "statusCode")) || err["statusCode"] == DefaultStatusCode)
    ensures "statusCode" !in err ==> HandleError(err).httpStatus == DefaultStatusCode
    ensures Get(err, "statusCode") == Number(0.0) ==> HandleError(err).httpStatus == DefaultStatusCode
  {
  }

  /** The default message is sent exactly when the error's message is
      falsy (absent or empty) or is that same text. */
  lemma MessageFallsBackToDefault(err: Record)
    ensures HandleError(err).body["message"] == Str(DefaultMessage) <==>
      (!Truthy(Get(err, "message")) || err["message"] == Str(DefaultMessage))
    ensures "message" !in err ==> HandleError(err).body["message"] == Str(DefaultMessage)
    ensures Get(err, "message") == Str("") ==> HandleError(err).body["message"] == Str(DefaultMessage)
  {
  }
}
