/** The repository's test cases, stated over the model. The validator's verdicts on the
    test structs are written out as the violation lists it reports for them. */
module Scenarios {
  import opened Wrappers
  import opened Violations
  import opened RequestContext
  import opened Middleware

  /** The test struct A: one int field Value with the rule min=5. */
  datatype A = A(value: int)

  /** The test struct B: Email with email,required and Value with min=5,max=10. */
  datatype B = B(email: string, value: int)

  /** The violations reported for A: only its min=5 rule can fail. */
  function ValidateA(a: A): (vs: seq<Violation>)
    ensures vs == [] <==> a.value >= 5
  {
    if a.value < 5 then [Violation("Value", "min", "5")] else []
  }

  /** No body at all: 422 with "Invalid body.". */
  lemma NoBodyProvided(ctx: Context<A>)
    ensures Handle(false, Err("unused"), ValidateA, ctx) == Respond(422, "text/plain; charset=utf-8", Text("Invalid body.\n"))
  {
    assert InvalidBody + "\n" == "Invalid body.\n";
  }

  /** A body that is not JSON: 400 with the decoder's message. */
  lemma BodyNotJson(ctx: Context<A>)
    ensures var msg := "invalid character 'd' looking for beginning of value";
      Handle(true, Err(msg), ValidateA, ctx) == Respond(400, "text/plain; charset=utf-8", Text(msg + "\n"))
  {
  }

  /** A{-2}, and a body with only an unknown key that decodes to A{0}: both break min=5,
      so both are answered with 422 and the value's message. */
  lemma BodyWithInvalidValue(ctx: Context<A>, value: int)
    requires value < 5
    ensures var o := Handle(true, Ok(A(value)), ValidateA, ctx);
      o == Respond(422, "application/json", JsonObject(map["value" := "Value is min 5"]))
  {
    var vs := [Violation("Value", "min", "5")];
    assert ValidateA(A(value)) == vs;
    assert Key(vs[0]) == "value";
    assert Message(vs[0]) == "Value is min 5";
    AppendOne([], vs[0]);
    assert vs == [] + [vs[0]];
  }

  /** A valid B is handed to the next handler, which reads back the same payload. */
  lemma ValidBodyForwarded(ctx: Context<B>)
    ensures var payload := B("email@example.com", 6);
      var o := Handle(true, Ok(payload), (_: B) => [], ctx);
      o.Forward? && FromContext(o.ctx) == Some(payload)
  {
  }

  /** B with a malformed email and value 0: the email message is the fixed sentence and the
      value message names the rule and its parameter. */
  lemma InvalidEmailMessage(ctx: Context<B>)
    ensures var reported := [Violation("Email", "email", ""), Violation("Value", "min", "5")];
      var o := Handle(true, Ok(B("notanemail", 0)), (_: B) => reported, ctx);
      o == Respond(422, "application/json",
                   JsonObject(map["email" := "Invalid email format.", "value" := "Value is min 5"]))
  {
    var e := Violation("Email", "email", "");
    var v := Violation("Value", "min", "5");
    assert Key(e) == "email";
    assert Key(v) == "value";
    assert Message(e) == "Invalid email format.";
    assert Message(v) == "Value is min 5";
    AppendOne([], e);
    AppendOne([e], v);
    assert [e] == [] + [e];
    assert [e, v] == [e] + [v];
  }
}
