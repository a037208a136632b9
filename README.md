# serverless-email-api: a Dafny model of the `send_email` Lambda handler

`send_email` in handler.py is an AWS Lambda function. It sits behind API Gateway and relays
one email through Amazon SES. It answers a CORS preflight. It checks the request body and the
three required fields `receiver_email`, `subject` and `body_text`. It strips surrounding
whitespace from those fields and applies a minimal email-shape check. It reads the sender
address from the `FROM_EMAIL` environment variable and calls SES. Every outcome becomes a
response with a status code, four fixed CORS/content-type headers and a JSON body. That
includes JSON decode errors, SES `ClientError`s and any other exception.

The model is pure, like the handler:

- `Json` holds the values an event or `json.loads` can produce (`JsonValue`). It also holds
  the two Python operations the handler uses on them: truthiness (`Truthy`) and `key in v`
  (`Contains`). `in` is key membership on a dict, element equality on a list, substring
  search on a str, and a TypeError on None, a bool or a number.
- `PyStr` models `str.strip()` over Python 3's `str.isspace()` character set.
- `Handler` is the handler. `Invoke` takes any JSON value as the event: one that is not a
  dict fails at `event.get` and ends in the catch-all. On a dict,
  `Handle(event, fromEmail, decode, ses)` is `Respond(Decide(...))`:
  - `Validate` runs every check before the send. It returns `Err(outcome)` for each early
    return and for each exception raised on the way.
  - `Deliver` classifies the SES reply.
  - `Respond` builds the response dictionary of each `Outcome`.
  - Python's try/except flow becomes the `Result` and `Outcome` datatypes.
- The inputs the handler gets from outside are parameters:
  - `event` is the event dictionary.
  - `fromEmail` is `os.environ.get('FROM_EMAIL')`.
  - `decode` is `json.loads`, where `None` stands for `JSONDecodeError`.
  - `ses` is the SES client: it maps the call's arguments to a MessageId, a `ClientError`
    (code and message), or some other exception.
- `ses` is a parameter, so "the send is never called" can be stated as "the response is the
  same for every `ses`".
- `HandlerProperties` states the handler's promises over all events, all
  configurations, all decoders and all SES behaviours.

The model uses the handler's own message texts and key names, and its own notion of a
missing field:

- Among the ClientError messages are "Sender email domain not verified in SES", "SES
  configuration error" and "SES error: " + the provider's message.
- The ClientError body names the code under the key `aws_error_code`.
- A field that holds only whitespace is truthy. So it is not reported missing: a blank
  subject or text is sent as an empty string, and a blank address fails the email-shape
  check.

## Model

| member | source | states |
|---|---|---|
| `Handler.Handle` | handler.py:6-176 | every response carries exactly the four headers Content-Type, Access-Control-Allow-Origin, -Methods and -Headers, and its status is 200, 400 or 500 |
| `Handler.Invoke` | handler.py:26-28 | an event that is not a dict gets a 500; every response has the fixed headers and a status of 200, 400 or 500 |
| `Handler.Decide` | handler.py:26-176 | the outcome is one that only the SES call produces (a success, a ClientError, another client exception) exactly when validation passes; the lemmas `SesConsultedOnlyAtSesCall` and `EarlyResponseIgnoresSes` state the try/except structure for `Handle` |
| `Handler.Deliver` | handler.py:118-168 | every SES reply becomes a send outcome; it is a success exactly when SES returned a MessageId, and then it carries the request's address and subject (`SuccessEcho`, `ClientErrorMapping` state the responses) |
| `Handler.SesCall` | handler.py:99-116 | the send arguments of a request; `SendArguments` states them for a validated request: source FROM_EMAIL, the single destination [stripped receiver_email], stripped subject and text, charset UTF-8 |
| `Handler.ClientErrorStatus` | handler.py:144-156 | the status is 400 or 500, 400 exactly for MessageRejected and MailFromDomainNotVerifiedException, and an unknown code yields "SES error: " + the provider message; `ClientErrorMapping` states the full table for `Handle` |
| `Handler.ProviderMessageOnlyForUnknownCode` | handler.py:144-156 | the message is "SES error: " + the provider message exactly when the code is none of the three named codes |
| `Handler.Respond` | handler.py:28-176 | every outcome's response has the fixed headers and a status of 200, 400 or 500, and the status is 200 exactly for the preflight and for a successful send |
| `Handler.Validate` | handler.py:26-93 | an OPTIONS request ends in the preflight outcome; a request that reaches the send has a non-empty sender equal to FROM_EMAIL, an address containing '@' and '.', and three fields with no surrounding whitespace; no early exit looks like a send outcome |
| `Handler.CheckFields` | handler.py:67-93 | after stripping, the only ways out are the invalid-email, configuration and internal-error outcomes, or a well-formed request whose sender is FROM_EMAIL |
| `Handler.MissingFields` | handler.py:53-54 | on a dict the comprehension never raises; on anything else it succeeds only when `in` finds no field, and then it lists every field |
| `Handler.MissingFieldsOfObject` | handler.py:53-54 | on a dict the result is an in-order sublist of the fields checked, and it contains exactly the absent or falsy ones |
| `Handler.StripField` | handler.py:68-70 | `.strip()` succeeds exactly on a str value, gives a string with no surrounding whitespace, and otherwise reports which field was not a str |
| `PyStr.Strip` | handler.py:68-70 | the result has no leading or trailing whitespace, is the contiguous stretch of the input starting after its leading whitespace, and everything outside it is whitespace |
| `PyStr.StripIdempotent` | handler.py:68-70 | stripping twice equals stripping once |
| `PyStr.StripEmptyIff` | handler.py:68-73 | the stripped string is empty exactly when the input is whitespace only |
| `PyStr.StripKeepsNonSpace` | handler.py:68-73 | a non-whitespace character such as '@' or '.' occurs in the stripped string exactly when it occurs in the input |
| `PyStr.StripUnique` | handler.py:68-70 | a string without surrounding whitespace, padded by whitespace on both sides, strips back to itself |
| `HandlerProperties.PreflightShortCircuit` | handler.py:28-33 | an OPTIONS request gets 200 "CORS preflight successful", whatever the body, configuration, decoder or SES do |
| `HandlerProperties.PreflightIff` | handler.py:28-33 | the outcome is the preflight exactly when the request's httpMethod is OPTIONS |
| `HandlerProperties.MissingBodyIff` | handler.py:36-44 | the outcome is MissingBody exactly when the request is not a preflight and the body key is absent or its value falsy; the response is 400 "Missing request body" |
| `HandlerProperties.InvalidJsonIff` | handler.py:130-138 | the outcome is InvalidJson exactly when the body is a non-empty str that `json.loads` rejects; the response is 400 "Invalid JSON" |
| `HandlerProperties.MissingFieldsOfDict` | handler.py:53-54 | on a dict the comprehension yields exactly the absent or falsy fields among receiver_email, subject, body_text, in that order |
| `HandlerProperties.MissingFieldsReported` | handler.py:53-65 | for a dict body the outcome is MissingRequired exactly when that list is non-empty, and it carries that list; the 400 response holds `missing_fields` and the full `required_fields` |
| `HandlerProperties.BlankFieldIsPresent` | handler.py:54 | a whitespace-only str is truthy and so is never reported missing |
| `HandlerProperties.ScalarBodyIsInternalError` | handler.py:54 | a body that parses to None, a bool or a number makes `in` raise, and the catch-all answers 500 "Internal server error" |
| `HandlerProperties.SequenceBodyOutcome` | handler.py:53-65 | a body that parses to a str or a list gets 400 with all three fields missing when none occurs in it, and 500 when one does |
| `HandlerProperties.ValidateStrings` | handler.py:67-93 | with three non-empty str fields, validation gives invalid-email exactly when the unstripped address lacks '@' or '.', then configuration error exactly when FROM_EMAIL is unset or empty, else the request of the three stripped fields |
| `HandlerProperties.NonStrFieldIsInternalError` | handler.py:67-73 | when all three fields are present and truthy but one is not a str, `.strip()` raises on the first such field before the email-shape check, and the answer is 500 "Internal server error" whatever the address is |
| `HandlerProperties.InvalidEmailIff` | handler.py:72-81 | with three non-empty str fields the outcome is InvalidEmailFormat exactly when the address lacks '@' or '.' |
| `HandlerProperties.InvalidEmailResponse` | handler.py:72-81 | such a request gets 400 "Invalid email format" |
| `HandlerProperties.BlankReceiverIsInvalidEmail` | handler.py:67-81 | a whitespace-only address passes the missing-field check and gets 400 "Invalid email format" |
| `HandlerProperties.ConfigurationErrorBeforeSend` | handler.py:83-99 | a valid request with FROM_EMAIL unset or empty gets 500 "Configuration error" for every SES behaviour, so SES is not called |
| `HandlerProperties.ConfigurationErrorIff` | handler.py:83-93 | with three non-empty str fields the outcome is ConfigurationError exactly when the address has the right shape and FROM_EMAIL is unset or empty |
| `HandlerProperties.EarlyResponseIgnoresSes` | handler.py:26-99 | whenever validation ends early, the response does not depend on the SES client |
| `HandlerProperties.SendArguments` | handler.py:99-116 | a valid, configured request is sent with source FROM_EMAIL, the single destination [stripped receiver_email], and the stripped subject and body text, both with charset UTF-8 |
| `HandlerProperties.SesConsultedOnlyAtSesCall` | handler.py:96-176 | for a validated request, two SES clients that give the same reply to exactly the call built from the request give the same response |
| `HandlerProperties.SuccessEcho` | handler.py:118-128 | when SES returns a MessageId, the response is 200 "Email sent successfully" echoing the MessageId, the stripped receiver_email and the stripped subject |
| `HandlerProperties.ClientErrorMapping` | handler.py:140-176 | MessageRejected and MailFromDomainNotVerifiedException give 400, ConfigurationSetDoesNotExistException and every other code give 500, an unknown code yields "SES error: " + the provider message, every body has error "Email service error" and `aws_error_code` equal to the code; any other exception gives 500 "Internal server error" |
| `HandlerProperties.NonDictEventIsInternalError` | handler.py:26-28 | an event that is not a dict is answered with 500 "Internal server error" |
| `HandlerProperties.PaddedRequestScenario` | handler.py:67-128 | fields padded with a space on both sides reach SES trimmed, and the MessageId comes back in a 200 response |
| `HandlerProperties.ConcreteScenario` | handler.py:67-128 | " a@b.com ", " Hi ", " Hello " are sent as "a@b.com", "Hi", "Hello", and MessageId "X" gives a 200 echoing "X", "a@b.com" and "Hi" |

## Left out

- The boto3 client construction and the network call (handler.py:96-116) are the `ses` parameter. An exception raised while building the client is its `OtherException` reply. The default region string `'region: ap-south-1'` is configuration plumbing and is not modelled.
- `json.loads` is the `decode` parameter. Its only failure modelled is `JSONDecodeError`. Other exceptions it can raise, such as RecursionError on very deep input, would reach the catch-all; they are not modelled. `decode` returns the value Python holds after `json.loads`, whose numbers are Python ints and doubles. Python's non-standard literals NaN and Infinity are not represented in `JsonValue`, and neither is the infinity that `json.loads` makes of a standard literal too large for a double, such as 1e400. This handler uses a number only through its truthiness, and every non-zero number is truthy, so nothing here depends on that.
- `json.dumps` is not modelled. A response body is the structured map that would be encoded.
- `os.environ` is read only through the `fromEmail` parameter. The `AWS_REGION` variable is not modelled.
- The `message` of the catch-all response (handler.py:174) is `str(e)`, Python's own exception text. The model's body carries only `"error": "Internal server error"`. `Fault` records which runtime error it was.
- A Dafny `char` cannot hold a lone surrogate, which `json.loads('"\ud800"')` can produce inside a str. It is not represented; strip, `in` and `==` treat such a code point like any other non-whitespace character, so no outcome depends on it.
- `SendOutcome.ClientError` always carries a code and a message. If a ClientError's `e.response['Error']` lacked 'Code' or 'Message', the KeyError would be raised inside the `except ClientError` clause (handler.py:141-142), which the sibling `except Exception` does not catch, and the handler would end without a response. `Handler.Handle`'s guarantee of a status of 200, 400 or 500 rests on this.
- `test_send_email` and the `__main__` block (handler.py:179-194) are local print-driven I/O.
