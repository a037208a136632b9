/**
 * What `send_email` promises, stated over `Handle` for every event, every FROM_EMAIL
 * value, every behaviour of `json.loads` and every behaviour of the SES client.
 */
module HandlerProperties {
  import opened Wrappers
  import opened Json
  import opened PyStr
  import opened Handler

  /** The event gets past the preflight and body-presence checks and its body parses to
      the dict `fields`. */
  predicate ParsesTo(event: Event, decode: string -> Option<JsonValue>, fields: map<string, JsonValue>)
  {
    !IsPreflight(event) && !BodyMissing(event) && ParseBody(event["body"], decode) == Some(JObject(fields))
  }

  /** The three required fields of the dict hold the non-empty strs given. */
  predicate HoldsStrings(fields: map<string, JsonValue>, receiver: string, subject: string, text: string)
  {
    && "receiver_email" in fields && fields["receiver_email"] == JString(receiver)
    && "subject" in fields && fields["subject"] == JString(subject)
    && "body_text" in fields && fields["body_text"] == JString(text)
    && receiver != "" && subject != "" && text != ""
  }

  /** Reference definition of the missing-field list: the required fields that are absent
      or falsy, written out in their declared order. */
  function RequiredAbsent(fields: map<string, JsonValue>): seq<string>
  {
    (if Absent(fields, "receiver_email") then ["receiver_email"] else [])
    + (if Absent(fields, "subject") then ["subject"] else [])
    + (if Absent(fields, "body_text") then ["body_text"] else [])
  }

  // The next five lemmas unfold `Respond` on one outcome each. They restate its branches so
  // that the lemmas about `Handle` can name a response without unfolding validation and the
  // response dictionaries together.

  /** Unfolding: the response dictionaries of the outcomes that carry no data of the request. */
  lemma FixedResponses()
    ensures Respond(Preflight) == Response(200, Headers, map["message" := JString("CORS preflight successful")])
    ensures Respond(MissingBody)
         == Response(400, Headers, map[
              "error" := JString("Missing request body"),
              "message" := JString("Request body is required")])
    ensures Respond(InvalidJson)
         == Response(400, Headers, map[
              "error" := JString("Invalid JSON"),
              "message" := JString("Request body must be valid JSON")])
    ensures Respond(InvalidEmailFormat)
         == Response(400, Headers, map[
              "error" := JString("Invalid email format"),
              "message" := JString("Please provide a valid email address")])
    ensures Respond(ConfigurationError)
         == Response(500, Headers, map[
              "error" := JString("Configuration error"),
              "message" := JString("FROM_EMAIL environment variable not set")])
  {
  }

  /** Unfolding: the response of the missing-field check: the missing list and the full list of
      required fields. */
  lemma MissingRequiredResponse(missing: seq<string>)
    ensures Respond(MissingRequired(missing))
         == Response(400, Headers, map[
              "error" := JString("Missing required fields"),
              "missing_fields" := JArray(Strings(missing)),
              "required_fields" := JArray(Strings(["receiver_email", "subject", "body_text"]))])
  {
  }

  /** Unfolding: the response of a successful send echoes the MessageId, the address and the subject. */
  lemma SentResponse(id: string, receiver: string, subject: string)
    ensures Respond(Sent(id, receiver, subject))
         == Response(200, Headers, map[
              "message" := JString("Email sent successfully"),
              "messageId" := JString(id),
              "receiver_email" := JString(receiver),
              "subject" := JString(subject)])
  {
  }

  /** Unfolding: the ClientError table. Two codes are the caller's fault (400), a missing
      configuration set and every other code are the service's (500), an unknown code
      passes the provider's message on; every body names the code. */
  lemma ServiceErrorTable(code: string, providerMessage: string)
    ensures Respond(ServiceError(code, providerMessage))
         == if code == "MessageRejected" then
              ServiceErrorResponse(400, MessageRejectedText, code)
            else if code == "MailFromDomainNotVerifiedException" then
              ServiceErrorResponse(400, "Sender email domain not verified in SES", code)
            else if code == "ConfigurationSetDoesNotExistException" then
              ServiceErrorResponse(500, "SES configuration error", code)
            else
              ServiceErrorResponse(500, "SES error: " + providerMessage, code)
  {
  }

  /** Unfolding: what the catch-all answers, whichever runtime error reached it. */
  lemma InternalErrorResponse(fault: Fault)
    ensures Respond(InternalError(fault)) == Response(500, Headers, map["error" := JString("Internal server error")])
  {
  }

  /** An OPTIONS request is answered with the preflight acknowledgement whatever else the
      event holds. */
  lemma PreflightShortCircuit(event: Event, fromEmail: Option<string>, decode: string -> Option<JsonValue>,
                              ses: SendRequest -> SendOutcome)
    requires IsPreflight(event)
    ensures Handle(event, fromEmail, decode, ses)
         == Response(200, Headers, map["message" := JString("CORS preflight successful")])
  {
    assert Decide(event, fromEmail, decode, ses) == Preflight;
    FixedResponses();
  }

  /** The preflight outcome arises from an OPTIONS request and from nothing else. */
  lemma PreflightIff(event: Event, fromEmail: Option<string>, decode: string -> Option<JsonValue>,
                     ses: SendRequest -> SendOutcome)
    ensures Decide(event, fromEmail, decode, ses) == Preflight <==> IsPreflight(event)
  {
  }

  /** "Missing request body" is the outcome exactly when the request is not a preflight
      and its body key is absent or its value falsy; its response is a 400. */
  lemma MissingBodyIff(event: Event, fromEmail: Option<string>, decode: string -> Option<JsonValue>,
                       ses: SendRequest -> SendOutcome)
    ensures Decide(event, fromEmail, decode, ses) == MissingBody <==> !IsPreflight(event) && BodyMissing(event)
    ensures !IsPreflight(event) && BodyMissing(event) ==>
              Handle(event, fromEmail, decode, ses)
              == Response(400, Headers, map[
                   "error" := JString("Missing request body"),
                   "message" := JString("Request body is required")])
  {
    if !IsPreflight(event) && BodyMissing(event) {
      assert Decide(event, fromEmail, decode, ses) == MissingBody;
      FixedResponses();
    }
  }

  /** "Invalid JSON" is the outcome exactly when the body gets that far, is a str, and
      `json.loads` rejects it (a body that is already structured is never decoded); its
      response is a 400. */
  lemma InvalidJsonIff(event: Event, fromEmail: Option<string>, decode: string -> Option<JsonValue>,
                       ses: SendRequest -> SendOutcome)
    ensures Decide(event, fromEmail, decode, ses) == InvalidJson
        <==> !IsPreflight(event) && !BodyMissing(event) && event["body"].JString? && decode(event["body"].s) == None
    ensures Decide(event, fromEmail, decode, ses) == InvalidJson ==>
              Handle(event, fromEmail, decode, ses)
              == Response(400, Headers, map[
                   "error" := JString("Invalid JSON"),
                   "message" := JString("Request body must be valid JSON")])
  {
    if Decide(event, fromEmail, decode, ses) == InvalidJson {
      FixedResponses();
    }
  }

  /** One step of the comprehension on a dict: the first field is kept when it is absent
      or falsy, then the rest follow. */
  lemma MissingFieldsStep(fields: map<string, JsonValue>, fs: seq<string>)
    requires fs != []
    ensures MissingFields(JObject(fields), fs)
         == Ok((if Absent(fields, fs[0]) then [fs[0]] else []) + MissingFields(JObject(fields), fs[1..]).value)
  {
    var tail := MissingFields(JObject(fields), fs[1..]).value;
    assert [] + tail == tail;
  }

  /** The comprehension on a dict yields exactly the reference list. */
  lemma MissingFieldsOfDict(fields: map<string, JsonValue>)
    ensures MissingFields(JObject(fields), RequiredFields) == Ok(RequiredAbsent(fields))
  {
    var body := JObject(fields);
    var rf := RequiredFields;
    assert rf[0] == "receiver_email" && rf[1..][0] == "subject" && rf[2..][0] == "body_text";
    assert rf[1..][1..] == rf[2..] && rf[2..][1..] == [];
    MissingFieldsStep(fields, rf[2..]);
    MissingFieldsStep(fields, rf[1..]);
    MissingFieldsStep(fields, rf);
    var a := if Absent(fields, "receiver_email") then ["receiver_email"] else [];
    var b := if Absent(fields, "subject") then ["subject"] else [];
    var c := if Absent(fields, "body_text") then ["body_text"] else [];
    assert MissingFields(body, rf[2..]) == Ok(c + []);
    assert c + [] == c;
    assert a + (b + c) == a + b + c;
  }

  /** A parsed dict with absent or falsy required fields ends with exactly that list, in
      declared order, and only then; the 400 response carries it and the full list of
      required fields. */
  lemma MissingFieldsReported(event: Event, fromEmail: Option<string>, decode: string -> Option<JsonValue>,
                              ses: SendRequest -> SendOutcome, fields: map<string, JsonValue>)
    requires ParsesTo(event, decode, fields)
    ensures Decide(event, fromEmail, decode, ses).MissingRequired? <==> RequiredAbsent(fields) != []
    ensures Decide(event, fromEmail, decode, ses).MissingRequired? ==>
              Decide(event, fromEmail, decode, ses).missing == RequiredAbsent(fields)
    ensures RequiredAbsent(fields) != [] ==>
              Handle(event, fromEmail, decode, ses)
              == Response(400, Headers, map[
                   "error" := JString("Missing required fields"),
                   "missing_fields" := JArray(Strings(RequiredAbsent(fields))),
                   "required_fields" := JArray(Strings(["receiver_email", "subject", "body_text"]))])
  {
    MissingFieldsOfDict(fields);
    if RequiredAbsent(fields) != [] {
      assert Decide(event, fromEmail, decode, ses) == MissingRequired(RequiredAbsent(fields));
      MissingRequiredResponse(RequiredAbsent(fields));
    }
  }

  /** A field holding only whitespace is a non-empty str, so it is truthy and never reported
      missing. */
  lemma BlankFieldIsPresent(fields: map<string, JsonValue>, field: string)
    requires field in fields && fields[field].JString? && fields[field].s != "" && AllSpace(fields[field].s)
    ensures field !in RequiredAbsent(fields)
  {
  }

  /** A body that parses to None, a bool or a number fails in `field in body` and is
      answered by the catch-all with 500. */
  lemma ScalarBodyIsInternalError(event: Event, fromEmail: Option<string>, decode: string -> Option<JsonValue>,
                                  ses: SendRequest -> SendOutcome, body: JsonValue)
    requires !IsPreflight(event) && !BodyMissing(event) && ParseBody(event["body"], decode) == Some(body)
    requires body.JNull? || body.JBool? || body.JNumber?
    ensures Handle(event, fromEmail, decode, ses)
         == Response(500, Headers, map["error" := JString("Internal server error")])
  {
    assert Decide(event, fromEmail, decode, ses) == InternalError(MembershipUnsupported);
    InternalErrorResponse(MembershipUnsupported);
  }

  /** A body that parses to a str or a list is searched with `in`: when no required field
      occurs in it, all three are reported missing; when one does, indexing it by that
      field raises and the catch-all answers 500. */
  lemma SequenceBodyOutcome(event: Event, fromEmail: Option<string>, decode: string -> Option<JsonValue>,
                            ses: SendRequest -> SendOutcome, body: JsonValue)
    requires !IsPreflight(event) && !BodyMissing(event) && ParseBody(event["body"], decode) == Some(body)
    requires body.JString? || body.JArray?
    ensures (forall f :: f in RequiredFields ==> Contains(body, f) == Some(false)) ==>
              Handle(event, fromEmail, decode, ses) == Respond(MissingRequired(RequiredFields))
    ensures (exists f :: f in RequiredFields && Contains(body, f) == Some(true)) ==>
              Handle(event, fromEmail, decode, ses)
              == Response(500, Headers, map["error" := JString("Internal server error")])
  {
    var o := Decide(event, fromEmail, decode, ses);
    if o.InternalError? {
      InternalErrorResponse(o.fault);
    }
  }

  /** On three str fields, the checks after the missing-field check keep the stripped
      fields, and the email-shape check gives the same verdict on the address before
      stripping, since neither '@' nor '.' is whitespace. */
  lemma CheckStrings(fields: map<string, JsonValue>, fromEmail: Option<string>,
                     receiver: string, subject: string, text: string)
    requires HoldsStrings(fields, receiver, subject, text)
    ensures CheckFields(fields, fromEmail)
         == if !LooksLikeEmail(receiver) then Err(InvalidEmailFormat)
            else if !Configured(fromEmail) then Err(ConfigurationError)
            else Ok(EmailRequest(fromEmail.value, Strip(receiver), Strip(subject), Strip(text)))
  {
    StripKeepsNonSpace(receiver, '@');
    StripKeepsNonSpace(receiver, '.');
  }

  /** With three non-empty str fields, the stripped fields are what validation keeps, and
      the email-shape check gives the same verdict on the address before stripping, since
      neither '@' nor '.' is whitespace. */
  lemma ValidateStrings(event: Event, fromEmail: Option<string>, decode: string -> Option<JsonValue>,
                        fields: map<string, JsonValue>, receiver: string, subject: string, text: string)
    requires ParsesTo(event, decode, fields) && HoldsStrings(fields, receiver, subject, text)
    ensures Validate(event, fromEmail, decode)
         == if !LooksLikeEmail(receiver) then Err(InvalidEmailFormat)
            else if !Configured(fromEmail) then Err(ConfigurationError)
            else Ok(EmailRequest(fromEmail.value, Strip(receiver), Strip(subject), Strip(text)))
  {
    MissingFieldsOfDict(fields);
    assert Validate(event, fromEmail, decode) == CheckFields(fields, fromEmail);
    CheckStrings(fields, fromEmail, receiver, subject, text);
  }

  /** All three fields are present and truthy, but one is not a str: `.strip()` raises on the
      first such field in the order receiver_email, subject, body_text, before the email-shape
      check, and the catch-all answers 500 whatever the address looks like. */
  lemma NonStrFieldIsInternalError(event: Event, fromEmail: Option<string>, decode: string -> Option<JsonValue>,
                                   ses: SendRequest -> SendOutcome, fields: map<string, JsonValue>)
    requires ParsesTo(event, decode, fields) && RequiredAbsent(fields) == []
    requires "receiver_email" in fields && "subject" in fields && "body_text" in fields
    requires !fields["receiver_email"].JString? || !fields["subject"].JString? || !fields["body_text"].JString?
    ensures Decide(event, fromEmail, decode, ses)
         == InternalError(NotAString(
              if !fields["receiver_email"].JString? then "receiver_email"
              else if !fields["subject"].JString? then "subject"
              else "body_text"))
    ensures Handle(event, fromEmail, decode, ses)
         == Response(500, Headers, map["error" := JString("Internal server error")])
  {
    MissingFieldsOfDict(fields);
    assert Validate(event, fromEmail, decode) == CheckFields(fields, fromEmail);
    InternalErrorResponse(Decide(event, fromEmail, decode, ses).fault);
  }

  /** With three non-empty str fields, "Invalid email format" is the outcome exactly when
      the address lacks an '@' or a '.'. */
  lemma InvalidEmailIff(event: Event, fromEmail: Option<string>, decode: string -> Option<JsonValue>,
                        ses: SendRequest -> SendOutcome,
                        fields: map<string, JsonValue>, receiver: string, subject: string, text: string)
    requires ParsesTo(event, decode, fields) && HoldsStrings(fields, receiver, subject, text)
    ensures Decide(event, fromEmail, decode, ses) == InvalidEmailFormat <==> !LooksLikeEmail(receiver)
  {
    ValidateStrings(event, fromEmail, decode, fields, receiver, subject, text);
  }

  /** Such an address is answered with a 400 "Invalid email format". */
  lemma InvalidEmailResponse(event: Event, fromEmail: Option<string>, decode: string -> Option<JsonValue>,
                             ses: SendRequest -> SendOutcome,
                             fields: map<string, JsonValue>, receiver: string, subject: string, text: string)
    requires ParsesTo(event, decode, fields) && HoldsStrings(fields, receiver, subject, text)
    requires !LooksLikeEmail(receiver)
    ensures Handle(event, fromEmail, decode, ses)
         == Response(400, Headers, map[
              "error" := JString("Invalid email format"),
              "message" := JString("Please provide a valid email address")])
  {
    InvalidEmailIff(event, fromEmail, decode, ses, fields, receiver, subject, text);
    FixedResponses();
  }

  /** An address of whitespace only passes the missing-field check and fails the
      email-shape check, because stripping empties it. */
  lemma BlankReceiverIsInvalidEmail(event: Event, fromEmail: Option<string>, decode: string -> Option<JsonValue>,
                                    ses: SendRequest -> SendOutcome,
                                    fields: map<string, JsonValue>, receiver: string, subject: string, text: string)
    requires ParsesTo(event, decode, fields) && HoldsStrings(fields, receiver, subject, text)
    requires AllSpace(receiver)
    ensures Handle(event, fromEmail, decode, ses)
         == Response(400, Headers, map[
              "error" := JString("Invalid email format"),
              "message" := JString("Please provide a valid email address")])
  {
    StripEmptyIff(receiver);
    StripKeepsNonSpace(receiver, '@');
    InvalidEmailResponse(event, fromEmail, decode, ses, fields, receiver, subject, text);
  }

  /** A valid request without FROM_EMAIL (unset or empty) is answered with 500
      "Configuration error" whatever the SES client would do: it is never called. */
  lemma ConfigurationErrorBeforeSend(event: Event, fromEmail: Option<string>, decode: string -> Option<JsonValue>,
                                     ses: SendRequest -> SendOutcome,
                                     fields: map<string, JsonValue>, receiver: string, subject: string, text: string)
    requires ParsesTo(event, decode, fields) && HoldsStrings(fields, receiver, subject, text)
    requires LooksLikeEmail(receiver) && !Configured(fromEmail)
    ensures Handle(event, fromEmail, decode, ses)
         == Response(500, Headers, map[
              "error" := JString("Configuration error"),
              "message" := JString("FROM_EMAIL environment variable not set")])
  {
    ValidateStrings(event, fromEmail, decode, fields, receiver, subject, text);
    assert Decide(event, fromEmail, decode, ses) == ConfigurationError;
    FixedResponses();
  }

  /** With three non-empty str fields, "Configuration error" is the outcome exactly when
      the address has the right shape and FROM_EMAIL is unset or empty. */
  lemma ConfigurationErrorIff(event: Event, fromEmail: Option<string>, decode: string -> Option<JsonValue>,
                              ses: SendRequest -> SendOutcome,
                              fields: map<string, JsonValue>, receiver: string, subject: string, text: string)
    requires ParsesTo(event, decode, fields) && HoldsStrings(fields, receiver, subject, text)
    ensures Decide(event, fromEmail, decode, ses) == ConfigurationError
        <==> LooksLikeEmail(receiver) && !Configured(fromEmail)
  {
    ValidateStrings(event, fromEmail, decode, fields, receiver, subject, text);
  }

  /** Every response that does not come from a send is the same for every SES client. */
  lemma EarlyResponseIgnoresSes(event: Event, fromEmail: Option<string>, decode: string -> Option<JsonValue>,
                                ses1: SendRequest -> SendOutcome, ses2: SendRequest -> SendOutcome)
    requires Validate(event, fromEmail, decode).Err?
    ensures Handle(event, fromEmail, decode, ses1) == Handle(event, fromEmail, decode, ses2)
  {
  }

  /** A valid, configured request is sent from FROM_EMAIL to the single stripped address
      with the stripped subject and text, both declared UTF-8. */
  lemma SendArguments(event: Event, fromEmail: Option<string>, decode: string -> Option<JsonValue>,
                      fields: map<string, JsonValue>, receiver: string, subject: string, text: string)
    requires ParsesTo(event, decode, fields) && HoldsStrings(fields, receiver, subject, text)
    requires LooksLikeEmail(receiver) && Configured(fromEmail)
    ensures Validate(event, fromEmail, decode).Ok?
    ensures SesCall(Validate(event, fromEmail, decode).value)
         == SendRequest(fromEmail.value, [Strip(receiver)], Strip(subject), "UTF-8", Strip(text), "UTF-8")
  {
    ValidateStrings(event, fromEmail, decode, fields, receiver, subject, text);
  }

  /** A validated request ends in what the handler makes of the SES client's reply to
      exactly the arguments built from it. */
  lemma SendDecides(event: Event, fromEmail: Option<string>, decode: string -> Option<JsonValue>,
                    ses: SendRequest -> SendOutcome, req: EmailRequest)
    requires Validate(event, fromEmail, decode) == Ok(req)
    ensures Handle(event, fromEmail, decode, ses) == Respond(Deliver(req, ses(SesCall(req))))
  {
    assert Decide(event, fromEmail, decode, ses) == Deliver(req, ses(SesCall(req)));
  }

  /** For a validated request, SES is consulted only through its reply to exactly
      `SesCall(req)`: two clients that agree there give the same response. With
      `EarlyResponseIgnoresSes`, the response depends on SES through nothing else. */
  lemma SesConsultedOnlyAtSesCall(event: Event, fromEmail: Option<string>, decode: string -> Option<JsonValue>,
                                  ses1: SendRequest -> SendOutcome, ses2: SendRequest -> SendOutcome,
                                  req: EmailRequest)
    requires Validate(event, fromEmail, decode) == Ok(req)
    requires ses1(SesCall(req)) == ses2(SesCall(req))
    ensures Handle(event, fromEmail, decode, ses1) == Handle(event, fromEmail, decode, ses2)
  {
    SendDecides(event, fromEmail, decode, ses1, req);
    SendDecides(event, fromEmail, decode, ses2, req);
  }

  /** When SES returns a MessageId for the validated request, the answer is 200 and
      echoes the MessageId with the request's (stripped) address and subject. */
  lemma SuccessEcho(event: Event, fromEmail: Option<string>, decode: string -> Option<JsonValue>,
                    ses: SendRequest -> SendOutcome, req: EmailRequest, id: string)
    requires Validate(event, fromEmail, decode) == Ok(req)
    requires ses(SesCall(req)) == Delivered(id)
    ensures Handle(event, fromEmail, decode, ses)
         == Response(200, Headers, map[
              "message" := JString("Email sent successfully"),
              "messageId" := JString(id),
              "receiver_email" := JString(req.receiver),
              "subject" := JString(req.subject)])
  {
    SendDecides(event, fromEmail, decode, ses, req);
    SentResponse(id, req.receiver, req.subject);
  }

  /** A ClientError from SES for the validated request is answered by the ClientError
      table;
      any other exception from the client ends in the catch-all. */
  lemma ClientErrorMapping(event: Event, fromEmail: Option<string>, decode: string -> Option<JsonValue>,
                           ses: SendRequest -> SendOutcome, req: EmailRequest)
    requires Validate(event, fromEmail, decode) == Ok(req)
    ensures var reply := ses(SesCall(req));
            reply.ClientError? ==>
            Handle(event, fromEmail, decode, ses)
            == (if reply.code == "MessageRejected" then
                  ServiceErrorResponse(400, MessageRejectedText, reply.code)
                else if reply.code == "MailFromDomainNotVerifiedException" then
                  ServiceErrorResponse(400, "Sender email domain not verified in SES", reply.code)
                else if reply.code == "ConfigurationSetDoesNotExistException" then
                  ServiceErrorResponse(500, "SES configuration error", reply.code)
                else
                  ServiceErrorResponse(500, "SES error: " + reply.message, reply.code))
    ensures ses(SesCall(req)).OtherException? ==>
            Handle(event, fromEmail, decode, ses)
            == Response(500, Headers, map["error" := JString("Internal server error")])
  {
    SendDecides(event, fromEmail, decode, ses, req);
    var reply := ses(SesCall(req));
    if reply.ClientError? {
      ServiceErrorTable(reply.code, reply.message);
    } else if reply.OtherException? {
      InternalErrorResponse(SendRaised);
    }
  }

  /** One space on each side of a trimmed string is removed by stripping. */
  lemma StripSpacePadded(t: string, s: string)
    requires Trimmed(t) && s == " " + t + " "
    ensures Strip(s) == t
  {
    StripUnique(" ", t, " ");
  }

  /** The scenario of a padded JSON body: each field wrapped in one space on both sides
      reaches SES trimmed, and the MessageId SES returns comes back in a 200 response. */
  lemma PaddedRequestScenario(decode: string -> Option<JsonValue>, ses: SendRequest -> SendOutcome, raw: string,
                              receiver: string, subject: string, text: string, sender: string, id: string)
    requires raw != "" && sender != ""
    requires Trimmed(receiver) && Trimmed(subject) && Trimmed(text) && LooksLikeEmail(receiver)
    requires decode(raw) == Some(JObject(map[
      "receiver_email" := JString(" " + receiver + " "),
      "subject" := JString(" " + subject + " "),
      "body_text" := JString(" " + text + " ")]))
    requires ses(SendRequest(sender, [receiver], subject, "UTF-8", text, "UTF-8")) == Delivered(id)
    ensures Handle(map["body" := JString(raw)], Some(sender), decode, ses)
         == Response(200, Headers, map[
              "message" := JString("Email sent successfully"),
              "messageId" := JString(id),
              "receiver_email" := JString(receiver),
              "subject" := JString(subject)])
  {
    var event: Event := map["body" := JString(raw)];
    var fields := decode(raw).value.fields;
    var r, s, t := " " + receiver + " ", " " + subject + " ", " " + text + " ";
    assert ParsesTo(event, decode, fields);
    assert HoldsStrings(fields, r, s, t);
    assert LooksLikeEmail(r) by {
      assert forall c :: c in receiver ==> c in r;
    }
    StripSpacePadded(receiver, r);
    StripSpacePadded(subject, s);
    StripSpacePadded(text, t);
    SendArguments(event, Some(sender), decode, fields, r, s, t);
    var req := Validate(event, Some(sender), decode).value;
    assert SesCall(req) == SendRequest(sender, [receiver], subject, "UTF-8", text, "UTF-8");
    SuccessEcho(event, Some(sender), decode, ses, req, id);
  }

  /** The concrete instance: " a@b.com ", " Hi " and " Hello " are sent as "a@b.com",
      "Hi" and "Hello", and a MessageId "X" gives a 200 that echoes it. */
  lemma ConcreteScenario(decode: string -> Option<JsonValue>, ses: SendRequest -> SendOutcome, raw: string)
    requires raw != ""
    requires decode(raw) == Some(JObject(map[
      "receiver_email" := JString(" a@b.com "),
      "subject" := JString(" Hi "),
      "body_text" := JString(" Hello ")]))
    requires ses(SendRequest("sender@example.com", ["a@b.com"], "Hi", "UTF-8", "Hello", "UTF-8")) == Delivered("X")
    ensures Handle(map["body" := JString(raw)], Some("sender@example.com"), decode, ses)
         == Response(200, Headers, map[
              "message" := JString("Email sent successfully"),
              "messageId" := JString("X"),
              "receiver_email" := JString("a@b.com"),
              "subject" := JString("Hi")])
  {
    assert " " + "a@b.com" + " " == " a@b.com ";
    assert " " + "Hi" + " " == " Hi ";
    assert " " + "Hello" + " " == " Hello ";
    assert LooksLikeEmail("a@b.com") by { assert "a@b.com"[1] == '@' && "a@b.com"[3] == '.'; }
    PaddedRequestScenario(decode, ses, raw, "a@b.com", "Hi", "Hello", "sender@example.com", "X");
  }

  /** An event that is not a dict (a direct invocation may pass any JSON value) fails at
      `event.get` and is answered by the catch-all with 500. */
  lemma NonDictEventIsInternalError(event: JsonValue, fromEmail: Option<string>, decode: string -> Option<JsonValue>,
                                    ses: SendRequest -> SendOutcome)
    requires !event.JObject?
    ensures Invoke(event, fromEmail, decode, ses)
         == Response(500, Headers, map["error" := JString("Internal server error")])
  {
    InternalErrorResponse(NotADict);
  }
}
