/**
 * The Lambda handler `send_email` of handler.py: it validates an API Gateway event,
 * trims the three message fields, reads the sender address, asks Amazon SES to send the
 * message and turns every outcome into an HTTP-shaped response with fixed CORS headers.
 *
 * Python's exceptions become values: `Validate` ends in `Err(outcome)` for every early
 * return and every exception raised before the send, `Deliver` classifies what the SES
 * client replied, and `Respond` builds the response dictionary of each outcome.
 * `json.loads` and the SES client are parameters (`decode`, `ses`); the value of the
 * FROM_EMAIL environment variable is the parameter `fromEmail`.
 */
module Handler {
  import opened Wrappers
  import opened Json
  import opened PyStr

  /** The event dictionary Lambda passes in. */
  type Event = map<string, JsonValue>

  /** The headers every response carries. */
  const Headers: map<string, string> := map[
    "Content-Type" := "application/json",
    "Access-Control-Allow-Origin" := "*",
    "Access-Control-Allow-Methods" := "POST, OPTIONS",
    "Access-Control-Allow-Headers" := "Content-Type"]

  /** The fields the request body must hold, in the order they are checked and reported. */
  const RequiredFields: seq<string> := ["receiver_email", "subject", "body_text"]

  /** The message of a MessageRejected ClientError, written in two parts so that the
      verifier can read its characters. */
  const MessageRejectedText: string := "Email rejected - check" + " email addresses and content"

  /** The charset the handler declares for the subject and the text body. */
  const Charset: string := "UTF-8"

  /** Which runtime error of Python ends the handler in its catch-all `except Exception`. */
  datatype Fault =
    | MembershipUnsupported      // `field in body` on None, a bool or a number
    | KeyIndexUnsupported        // `body[field]` on a str or a list
    | NotAString(field: string)  // `.strip()` on a field whose value is not a str
    | SendRaised                 // the SES client raised something other than ClientError
    | NotADict                   // `event.get` on an event that is not a dict

  /** The arguments of `ses_client.send_email`. */
  datatype SendRequest = SendRequest(
    source: string,
    toAddresses: seq<string>,
    subjectData: string,
    subjectCharset: string,
    textData: string,
    textCharset: string)

  /** What the SES client does with a request: returns a MessageId, raises a ClientError
      with an error code and message, or raises any other exception. */
  datatype SendOutcome =
    | Delivered(messageId: string)
    | ClientError(code: string, message: string)
    | OtherException

  /** A request that passed every check: the sender and the three stripped fields. */
  datatype EmailRequest = EmailRequest(source: string, receiver: string, subject: string, bodyText: string)

  /** How one invocation ends, one constructor per return statement of the handler. */
  datatype Outcome =
    | Preflight
    | MissingBody
    | InvalidJson
    | MissingRequired(missing: seq<string>)
    | InvalidEmailFormat
    | ConfigurationError
    | Sent(messageId: string, receiver: string, subject: string)
    | ServiceError(code: string, message: string)
    | InternalError(fault: Fault)

  /** The returned dictionary; `body` is the object that json.dumps encodes. */
  datatype Response = Response(statusCode: int, headers: map<string, string>, body: map<string, JsonValue>)

  /** `event.get('httpMethod') == 'OPTIONS'`. */
  predicate IsPreflight(event: Event)
  {
    "httpMethod" in event && event["httpMethod"] == JString("OPTIONS")
  }

  /** `'body' not in event or not event['body']`. */
  predicate BodyMissing(event: Event)
  {
    "body" !in event || !Truthy(event["body"])
  }

  /** A body that is a str is decoded; any other value is used as it is. None stands for
      the JSONDecodeError of `json.loads`. */
  function ParseBody(raw: JsonValue, decode: string -> Option<JsonValue>): Option<JsonValue>
  {
    if raw.JString? then decode(raw.s) else Some(raw)
  }

  /** `field not in body or not body[field]` on a dict. */
  predicate Absent(fields: map<string, JsonValue>, field: string)
  {
    field !in fields || !Truthy(fields[field])
  }

  /** xs is ys with some elements left out, the order kept. */
  predicate IsSubsequence(xs: seq<string>, ys: seq<string>)
    decreases |ys|
  {
    || xs == []
    || (ys != [] && ((xs[0] == ys[0] && IsSubsequence(xs[1..], ys[1..])) || IsSubsequence(xs, ys[1..])))
  }

  /** The list comprehension that collects the missing fields, evaluated field by field:
      on a dict it keeps, in order, the fields that are absent or falsy; on a str or a list
      `in` finds no field (then every field is reported) or Python raises when it indexes
      the body by a str; on anything else `in` raises. */
  function MissingFields(body: JsonValue, fields: seq<string>): (r: Result<seq<string>, Fault>)
    ensures body.JObject? ==> r.Ok?
    ensures !body.JObject? ==> (r.Ok? <==> forall f :: f in fields ==> Contains(body, f) == Some(false))
    ensures !body.JObject? && r.Ok? ==> r.value == fields
    decreases |fields|
  {
    if fields == [] then Ok([])
    else
      var f := fields[0];
      match Contains(body, f)
      case None => Err(MembershipUnsupported)
      case Some(found) =>
        if found && !body.JObject? then Err(KeyIndexUnsupported)
        else
          match MissingFields(body, fields[1..])
          case Err(fault) => Err(fault)
          case Ok(rest) => if found && Truthy(body.fields[f]) then Ok(rest) else Ok([f] + rest)
  }

  /** On a dict the comprehension keeps, in order, exactly the fields that are absent or
      falsy. */
  lemma {:induction false} MissingFieldsOfObject(fields: map<string, JsonValue>, fs: seq<string>)
    ensures IsSubsequence(MissingFields(JObject(fields), fs).value, fs)
    ensures forall f :: f in MissingFields(JObject(fields), fs).value <==> f in fs && Absent(fields, f)
    decreases |fs|
  {
    if fs != [] {
      MissingFieldsOfObject(fields, fs[1..]);
    }
  }

  /** `body[field].strip()`. */
  function StripField(fields: map<string, JsonValue>, field: string): (r: Result<string, Fault>)
    requires field in fields
    ensures r.Ok? <==> fields[field].JString?
    ensures r.Ok? ==> Trimmed(r.value)
    ensures r.Err? ==> r.error == NotAString(field)
  {
    match fields[field]
    case JString(s) => Ok(Strip(s))
    case _ => Err(NotAString(field))
  }

  /** The basic email-shape check: some '@' and some '.'. */
  predicate LooksLikeEmail(address: string)
  {
    '@' in address && '.' in address
  }

  /** `not from_email` is false: the variable is set and not empty. */
  predicate Configured(fromEmail: Option<string>)
  {
    fromEmail.Some? && fromEmail.value != ""
  }

  /** What a request that reaches the send holds. */
  predicate WellFormed(req: EmailRequest)
  {
    && req.source != ""
    && LooksLikeEmail(req.receiver)
    && Trimmed(req.receiver) && Trimmed(req.subject) && Trimmed(req.bodyText)
  }

  /** Stripping, the email-shape check and the configuration check, on a dict that holds
      all three fields. */
  function CheckFields(fields: map<string, JsonValue>, fromEmail: Option<string>): (r: Result<EmailRequest, Outcome>)
    requires "receiver_email" in fields && "subject" in fields && "body_text" in fields
    ensures r.Ok? ==> WellFormed(r.value) && Some(r.value.source) == fromEmail
    ensures r.Err? ==> r.error.InvalidEmailFormat? || r.error.ConfigurationError? || r.error.InternalError?
  {
    match StripField(fields, "receiver_email")
    case Err(fault) => Err(InternalError(fault))
    case Ok(receiver) =>
      match StripField(fields, "subject")
      case Err(fault) => Err(InternalError(fault))
      case Ok(subject) =>
        match StripField(fields, "body_text")
        case Err(fault) => Err(InternalError(fault))
        case Ok(bodyText) =>
          if !LooksLikeEmail(receiver) then Err(InvalidEmailFormat)
          else if !Configured(fromEmail) then Err(ConfigurationError)
          else Ok(EmailRequest(fromEmail.value, receiver, subject, bodyText))
  }

  /** Everything the handler does before the send: `Err` carries the outcome of an early
      return (or of an exception raised on the way), `Ok` the request to send. */
  function Validate(event: Event, fromEmail: Option<string>, decode: string -> Option<JsonValue>): (r: Result<EmailRequest, Outcome>)
    ensures IsPreflight(event) ==> r == Err(Preflight)
    ensures r.Ok? ==> WellFormed(r.value) && Some(r.value.source) == fromEmail
    ensures r.Err? ==> !FromSend(r.error)
  {
    if IsPreflight(event) then Err(Preflight)
    else if BodyMissing(event) then Err(MissingBody)
    else
      match ParseBody(event["body"], decode)
      case None => Err(InvalidJson)
      case Some(body) =>
        match MissingFields(body, RequiredFields)
        case Err(fault) => Err(InternalError(fault))
        case Ok(missing) =>
          if missing != [] then Err(MissingRequired(missing))
          else
            assert body.JObject?;
            MissingFieldsOfObject(body.fields, RequiredFields);
            CheckFields(body.fields, fromEmail)
  }

  /** The arguments the handler gives `ses_client.send_email` for a request. */
  function SesCall(req: EmailRequest): SendRequest
  {
    SendRequest(req.source, [req.receiver], req.subject, Charset, req.bodyText, Charset)
  }

  /** The outcomes that only the SES call produces: a success, a ClientError, or any other
      exception raised by the client. */
  predicate FromSend(o: Outcome)
  {
    o.Sent? || o.ServiceError? || o == InternalError(SendRaised)
  }

  /** What the handler makes of the SES client's reply. */
  function Deliver(req: EmailRequest, reply: SendOutcome): (r: Outcome)
    ensures FromSend(r)
    ensures r.Sent? <==> reply.Delivered?
    ensures r.Sent? ==> r.receiver == req.receiver && r.subject == req.subject
  {
    match reply
    case Delivered(id) => Sent(id, req.receiver, req.subject)
    case ClientError(code, message) => ServiceError(code, message)
    case OtherException => InternalError(SendRaised)
  }

  /** The outcome of one invocation: the send happens only when validation succeeds. */
  function Decide(event: Event, fromEmail: Option<string>, decode: string -> Option<JsonValue>,
                  ses: SendRequest -> SendOutcome): (r: Outcome)
    ensures FromSend(r) <==> Validate(event, fromEmail, decode).Ok?
  {
    match Validate(event, fromEmail, decode)
    case Err(early) => early
    case Ok(req) => Deliver(req, ses(SesCall(req)))
  }

  /** The three ClientError codes the handler answers with a message of its own. */
  predicate NamedCode(code: string)
  {
    code == "MessageRejected" || code == "MailFromDomainNotVerifiedException"
    || code == "ConfigurationSetDoesNotExistException"
  }

  /** The status code and message for a ClientError code: the two codes that blame the
      request are 400, everything else is 500, and only an unknown code passes the
      provider's message on. */
  function ClientErrorStatus(code: string, providerMessage: string): (r: (int, string))
    ensures r.0 == 400 || r.0 == 500
    ensures r.0 == 400 <==> code == "MessageRejected" || code == "MailFromDomainNotVerifiedException"
    ensures r.1 == "SES error: " + providerMessage
        <== !NamedCode(code)
  {
    if code == "MessageRejected" then (400, MessageRejectedText)
    else if code == "MailFromDomainNotVerifiedException" then (400, "Sender email domain not verified in SES")
    else if code == "ConfigurationSetDoesNotExistException" then (500, "SES configuration error")
    else (500, "SES error: " + providerMessage)
  }

  // None of the three fixed ClientError messages starts with "SES error: ".

  lemma RejectedNotPassedOn(providerMessage: string)
    ensures MessageRejectedText != "SES error: " + providerMessage
  {
    assert MessageRejectedText[0] == 'E' != ("SES error: " + providerMessage)[0];
  }

  lemma DomainNotPassedOn(providerMessage: string)
    ensures "Sender email domain not verified in SES" != "SES error: " + providerMessage
  {
    assert "Sender email domain not verified in SES"[1] == 'e' != ("SES error: " + providerMessage)[1];
  }

  lemma ConfigurationSetNotPassedOn(providerMessage: string)
    ensures "SES configuration error" != "SES error: " + providerMessage
  {
    assert "SES configuration error"[4] == 'c' != ("SES error: " + providerMessage)[4];
  }

  /** The provider's message is passed on for an unknown code and for no other. */
  lemma ProviderMessageOnlyForUnknownCode(code: string, providerMessage: string)
    ensures ClientErrorStatus(code, providerMessage).1 == "SES error: " + providerMessage <==> !NamedCode(code)
  {
    RejectedNotPassedOn(providerMessage);
    DomainNotPassedOn(providerMessage);
    ConfigurationSetNotPassedOn(providerMessage);
  }

  /** The response of an SES ClientError. */
  function ServiceErrorResponse(status: int, message: string, code: string): Response
  {
    Response(status, Headers, map[
      "error" := JString("Email service error"),
      "message" := JString(message),
      "aws_error_code" := JString(code)])
  }

  /** The response dictionary of each outcome; every one has the same headers and one of
      three status codes. */
  function Respond(o: Outcome): (r: Response)
    ensures r.headers == Headers
    ensures r.statusCode == 200 || r.statusCode == 400 || r.statusCode == 500
    ensures r.statusCode == 200 <==> o.Preflight? || o.Sent?
  {
    match o
    case Preflight =>
      Response(200, Headers, map["message" := JString("CORS preflight successful")])
    case MissingBody =>
      Response(400, Headers, map[
        "error" := JString("Missing request body"),
        "message" := JString("Request body is required")])
    case InvalidJson =>
      Response(400, Headers, map[
        "error" := JString("Invalid JSON"),
        "message" := JString("Request body must be valid JSON")])
    case MissingRequired(missing) =>
      Response(400, Headers, map[
        "error" := JString("Missing required fields"),
        "missing_fields" := JArray(Strings(missing)),
        "required_fields" := JArray(Strings(RequiredFields))])
    case InvalidEmailFormat =>
      Response(400, Headers, map[
        "error" := JString("Invalid email format"),
        "message" := JString("Please provide a valid email address")])
    case ConfigurationError =>
      Response(500, Headers, map[
        "error" := JString("Configuration error"),
        "message" := JString("FROM_EMAIL environment variable not set")])
    case Sent(id, receiver, subject) =>
      Response(200, Headers, map[
        "message" := JString("Email sent successfully"),
        "messageId" := JString(id),
        "receiver_email" := JString(receiver),
        "subject" := JString(subject)])
    case ServiceError(code, providerMessage) =>
      var (status, message) := ClientErrorStatus(code, providerMessage);
      ServiceErrorResponse(status, message, code)
    case InternalError(_) =>
      Response(500, Headers, map["error" := JString("Internal server error")])
  }

  /** `send_email(event, context)`. */
  function Handle(event: Event, fromEmail: Option<string>, decode: string -> Option<JsonValue>,
                  ses: SendRequest -> SendOutcome): (r: Response)
    ensures r.headers == Headers
    ensures r.statusCode == 200 || r.statusCode == 400 || r.statusCode == 500
  {
    Respond(Decide(event, fromEmail, decode, ses))
  }

  /** `send_email` on any JSON value as event: one that is not a dict has no `get`, and the
      AttributeError ends in the catch-all. */
  function Invoke(event: JsonValue, fromEmail: Option<string>, decode: string -> Option<JsonValue>,
                  ses: SendRequest -> SendOutcome): (r: Response)
    ensures r.headers == Headers
    ensures r.statusCode == 200 || r.statusCode == 400 || r.statusCode == 500
    ensures !event.JObject? ==> r.statusCode == 500
  {
    match event
    case JObject(fields) => Handle(fields, fromEmail, decode, ses)
    case _ => Respond(InternalError(NotADict))
  }
}
