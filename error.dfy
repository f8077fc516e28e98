/**
 * The error middleware of `middlewares/error.js`: the `APIError` class, and the handler
 * that turns whatever was thrown into a status code and a `{ error: <message> }` JSON body.
 */
module ErrorMiddleware {
  import opened Wrappers

  /**
   * An `APIError` instance. Its fields are set once by the constructor and never
   * written again, so an instance is a value. `message` is kept as supplied, `None`
   * standing for `undefined`.
   */
  datatype APIError = APIError(code: int, message: Option<string>)

  /**
   * `new APIError(code, message)`: `code || 500`, so a missing code (`None`, for
   * `undefined` or `null`) and the code 0 both become 500.
   */
  function NewAPIError(code: Option<int>, message: Option<string>): (e: APIError)
    ensures e.message == message
    ensures e.code != 0
    ensures code.Some? && code.value != 0 ==> e.code == code.value
    ensures code.None? || code.value == 0 ==> e.code == 500
  {
    APIError(if code.Some? && code.value != 0 then code.value else 500, message)
  }

  /** What reaches the handler as `err`. */
  datatype Thrown =
    | Api(error: APIError)
      /** `null`, `undefined` or any other falsy value. */
    | Falsy
      /** Any other truthy value: its `message` property (`None` if it has none) and what its `toString()` gives. */
    | Other(message: Option<string>, text: string)

  /** What the handler writes: a status code and a JSON object of string values. */
  datatype Reply = Reply(status: int, body: map<string, string>)

  /** JavaScript's `a || b` where `a` is a string property that may be missing. */
  function Or(a: Option<string>, b: string): (r: string)
    ensures a.Some? && a.value != "" ==> r == a.value
    ensures a.None? || a.value == "" ==> r == b
  {
    if a.Some? && a.value != "" then a.value else b
  }

  /** The fallback message, naming the URL of the request that failed. */
  function DefaultMessage(url: string): (m: string)
    ensures |m| > |url|
  {
    "Failed to process " + url
  }

  /**
   * The status and body `errorResponse` chooses: an `APIError` gets its own code and its
   * message, or the fallback; anything else gets 500 and the fallback for a falsy value,
   * otherwise its message, or failing that its string form. The body has the one key `error`.
   */
  function SelectReply(err: Thrown, url: string): (r: Reply)
    ensures r.body.Keys == {"error"}
    ensures err.Api? ==> r.status == err.error.code
    ensures !err.Api? ==> r.status == 500
    ensures err.Falsy? ==> r.body["error"] == DefaultMessage(url)
    ensures err.Api? ==> r.body["error"] == Or(err.error.message, DefaultMessage(url))
    ensures err.Other? ==> r.body["error"] == Or(err.message, err.text)
  {
    var defaultMsg := DefaultMessage(url);
    if err.Api? then Reply(err.error.code, map["error" := Or(err.error.message, defaultMsg)])
    else Reply(500, map["error" := if err.Falsy? then defaultMsg else Or(err.message, err.text)])
  }

  /** A constructed `APIError` never yields status 0: the status is the supplied truthy code, else 500. */
  lemma ConstructedStatus(code: Option<int>, message: Option<string>, url: string)
    ensures var s := SelectReply(Api(NewAPIError(code, message)), url).status;
      s != 0 && (s == 500 || (code.Some? && s == code.value))
  {
  }

  /**
   * The message written is empty only for a truthy non-`APIError` value with no message
   * whose string form is empty; in every other case the body names the error or the URL.
   */
  lemma ReplyMessageNonEmpty(err: Thrown, url: string)
    ensures SelectReply(err, url).body["error"] == "" ==>
      err.Other? && (err.message.None? || err.message.value == "") && err.text == ""
  {
  }

  /** An error that carries a non-empty message is reported the same way whatever the URL. */
  lemma ReplyIgnoresUrl(err: Thrown, url1: string, url2: string)
    requires err.Api? || err.Other?
    requires var m := if err.Api? then err.error.message else err.message; m.Some? && m.value != ""
    ensures SelectReply(err, url1) == SelectReply(err, url2)
  {
  }

  /** `new APIError(401, 'Unauthorized')` is answered with 401 and `{ error: 'Unauthorized' }`. */
  lemma UnauthorizedReply(url: string)
    ensures SelectReply(Api(NewAPIError(Some(401), Some("Unauthorized"))), url) == Reply(401, map["error" := "Unauthorized"])
  {
  }

  /** The part of an Express response the handler writes: the status code and the JSON body sent. */
  class Response {
    var statusCode: int
    /** The JSON body once one has been sent. */
    var body: Option<map<string, string>>
    /** How many times a body has been sent. */
    var sends: nat

    constructor ()
      ensures statusCode == 200 && body == None && sends == 0
    {
      statusCode := 200;
      body := None;
      sends := 0;
    }

    /** `res.status(code)`. */
    method Status(code: int)
      modifies this
      ensures statusCode == code && body == old(body) && sends == old(sends)
    {
      statusCode := code;
    }

    /** `res.json(obj)`: sends `obj` as the body. */
    method Json(obj: map<string, string>)
      modifies this
      ensures body == Some(obj) && sends == old(sends) + 1 && statusCode == old(statusCode)
    {
      body := Some(obj);
      sends := sends + 1;
    }
  }

  /**
   * `errorResponse(err, req, res, next)`: writes the reply `SelectReply` chooses, sending
   * exactly once, since the `APIError` branch returns before the generic one.
   */
  method ErrorResponse(err: Thrown, url: string, res: Response)
    modifies res
    ensures res.statusCode == SelectReply(err, url).status
    ensures res.body == Some(SelectReply(err, url).body)
    ensures res.sends == old(res.sends) + 1
  {
    var defaultMsg := DefaultMessage(url);
    if err.Api? {
      res.Status(err.error.code);
      res.Json(map["error" := Or(err.error.message, defaultMsg)]);
      return;
    }
    res.Status(500);
    res.Json(map["error" := if err.Falsy? then defaultMsg else Or(err.message, err.text)]);
  }
}
