/** The per-request handler that Validate wraps around the next handler: body check,
    decode, validate, then either an error response or a call to the next handler with
    the payload attached to the request context. */
module Middleware {
  import opened Wrappers
  import opened Violations
  import opened RequestContext

  const StatusBadRequest: int := 400
  const StatusUnprocessableEntity: int := 422

  /** The content type http.Error sets on its plain-text responses. */
  const TextPlain: string := "text/plain; charset=utf-8"
  const ApplicationJson: string := "application/json"
  const InvalidBody: string := "Invalid body."

  /** A response body: plain text, or the field-to-message object that is serialised as JSON. */
  datatype Body = Text(text: string) | JsonObject(fields: map<string, string>)

  /** What one request comes to: a response written by the middleware itself, or a single
      call of the next handler with the derived context. */
  datatype Outcome<P> =
    | Respond(status: int, contentType: string, body: Body)
    | Forward(ctx: Context<P>)

  /** What http.Error writes: the message and a newline, as plain text. */
  function PlainError<P>(msg: string, status: int): Outcome<P> {
    Respond(status, TextPlain, Text(msg + "\n"))
  }

  /** Handles one request. hasBody says whether the request carries a body stream at all;
      decoded is what the JSON decoder made of it; validate reports the violated rules of a
      decoded payload, none meaning valid; ctx is the request's context. */
  function Handle<P>(hasBody: bool, decoded: Result<P, string>, validate: P -> seq<Violation>,
                     ctx: Context<P>): (o: Outcome<P>)
    ensures !hasBody ==> o == Respond(StatusUnprocessableEntity, TextPlain, Text(InvalidBody + "\n"))
    ensures hasBody && decoded.Err? ==> o == Respond(StatusBadRequest, TextPlain, Text(decoded.error + "\n"))
    ensures hasBody && decoded.Ok? && validate(decoded.value) != [] ==>
              o == Respond(StatusUnprocessableEntity, ApplicationJson,
                           JsonObject(BuildErrors(validate(decoded.value))))
    ensures o.Forward? <==> hasBody && decoded.Ok? && validate(decoded.value) == []
    ensures o.Forward? ==> FromContext(o.ctx) == Some(decoded.value)
    ensures o.Forward? ==> forall k :: k != PayloadKey ==> Value(o.ctx, k) == Value(ctx, k)
  {
    if !hasBody then
      PlainError(InvalidBody, StatusUnprocessableEntity)
    else if decoded.Err? then
      PlainError(decoded.error, StatusBadRequest)
    else
      var violations := validate(decoded.value);
      if violations != [] then
        Respond(StatusUnprocessableEntity, ApplicationJson, JsonObject(BuildErrors(violations)))
      else
        Forward(NewContext(ctx, decoded.value))
  }

  /** The body check comes first: without a body, neither the decode result, the validator
      nor the context has any bearing on the response. */
  lemma MissingBodyPrecedes<P>(d1: Result<P, string>, d2: Result<P, string>,
                               f1: P -> seq<Violation>, f2: P -> seq<Violation>,
                               c1: Context<P>, c2: Context<P>)
    ensures Handle(false, d1, f1, c1) == Handle(false, d2, f2, c2)
    ensures Handle(false, d1, f1, c1).Respond?
  {
  }

  /** A decode failure is answered before validation: the validator has no bearing on it. */
  lemma DecodeFailurePrecedesValidation<P>(msg: string, f1: P -> seq<Violation>, f2: P -> seq<Violation>,
                                           c: Context<P>)
    ensures Handle(true, Err(msg), f1, c) == Handle(true, Err(msg), f2, c)
    ensures Handle(true, Err(msg), f1, c).Respond?
  {
  }

  /** The status tells the failures apart: 400 exactly for an undecodable body, 422 exactly
      for a missing body or a payload that breaks a rule. */
  lemma StatusClassifiesFailure<P>(hasBody: bool, decoded: Result<P, string>,
                                   validate: P -> seq<Violation>, ctx: Context<P>)
    ensures var o := Handle(hasBody, decoded, validate, ctx);
      o.Respond? ==>
        && (o.status == StatusBadRequest <==> hasBody && decoded.Err?)
        && (o.status == StatusUnprocessableEntity <==>
              !hasBody || (decoded.Ok? && validate(decoded.value) != []))
  {
  }

  /** A rejected payload's error object has one entry per lower-cased field that broke a
      rule, and at least one entry. */
  lemma RejectionNamesFailedFields<P>(payload: P, validate: P -> seq<Violation>, ctx: Context<P>)
    requires validate(payload) != []
    ensures var o := Handle(true, Ok(payload), validate, ctx);
      && o.Respond? && o.body.JsonObject?
      && o.body.fields.Keys == FieldKeys(validate(payload))
      && |o.body.fields| > 0
  {
    var vs := validate(payload);
    ErrorKeys(vs);
    assert Key(vs[0]) in FieldKeys(vs);
  }
}
