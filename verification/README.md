# validation-request, modelled in Dafny

The repository is one HTTP middleware for Go. `Validate(rules)` wraps a handler. For
every request, the wrapper checks that a body stream exists. It then decodes the body
as JSON into a fresh value of the rules' type and runs the struct validator on that
value. If any step fails, the wrapper answers the request itself. Otherwise it calls
the next handler once, with the payload attached to the request context.
`NewContext` and `FromContext` attach and read that payload under a private key.
`buildError` turns the validator's list of failed rules into the object sent back
with a 422 response. That object maps each lower-cased field name to a message.

The model has these modules:

- `Wrappers`: `Option` and `Result`.
- `Ascii`: lower-casing of field names, compared with an independent case-insensitive
  equality.
- `Violations`: `buildError` as `BuildErrors`, a fold over the ordered violation list
  into a map, with lemmas about its keys, its messages, last-write-wins and its size.
- `RequestContext`: Go's `context.WithValue` chain, with the value lookup checked
  against a map view. It also holds the two payload accessors.
- `Middleware`: the per-request decision sequence as the pure function `Handle`.
  Its result is an `Outcome`: either a response (status, content type, body) or a
  single forward to the next handler with the derived context.
- `Scenarios`: the cases from the repository's tests, stated over the model.

The JSON decoder and the validator are inputs. The decoder becomes a
`Result<P, string>` that holds either the payload or the decoder's error text. The
validator becomes a function from a payload to its ordered list of violations; an
empty list means the payload is valid. Each violation is a (field, tag, param)
triple.

`http.Error` (validation.go:45, :49) writes its message followed by a newline as
`text/plain; charset=utf-8`. So the plain-text bodies here are `Invalid body.\n` and
the decoder's text plus `\n`.

The `r.Body == nil` test (validation.go:44) only fires for requests built in-process,
as the tests build them. Go's HTTP server gives every incoming request a non-nil body,
so there an empty body reaches the decoder and gets a 400. The model keeps this check
as the boolean `hasBody`.

## Model

| member | source | states |
|---|---|---|
| Ascii.ToLower | validation.go:30-33 | The key keeps the field's length. Every ASCII capital becomes its small letter, every other character is kept, and no capital remains. |
| Ascii.ToLowerEqualIff | validation.go:30-33 | Two field names land on the same key exactly when they differ only in ASCII letter case (both directions). |
| Ascii.ToLowerIdempotent | validation.go:30-33 | Keys are already lower case: lower-casing them again changes nothing. |
| Violations.Key | validation.go:30-33 | A violation's key is its field name up to ASCII letter case, and contains no capital letter. |
| Violations.Message | validation.go:29-33 | The message of one violation. Its meaning is stated by `EmailViolationMessage` and `OtherViolationMessage`. |
| Violations.BuildErrors | validation.go:26-37 | The error object is empty exactly when there are no violations. Its full meaning comes from `ErrorKeys` and `ErrorMessages`, which `ErrorsDetermined` shows to be a complete reference. |
| Violations.AppendOne | validation.go:28-34 | One loop iteration writes its violation's message under its own key and leaves every other entry as it was. |
| Violations.ErrorKeys | validation.go:27-34 | The error object's key set equals the set of lower-cased field names of the violations: no extra keys and none dropped. |
| Violations.ErrorMessages | validation.go:28-34 | Each key holds the message of the last violation filed under that key. |
| Violations.ErrorsDetermined | validation.go:27-34 | Any map whose keys are the lower-cased field names and which holds the last violation's message under each key equals the error object. `ErrorKeys` and `ErrorMessages` together are therefore a complete, independent reference for `buildError`. |
| Violations.LastWriteWins | validation.go:28-34 | A violation followed only by violations on other keys supplies the surviving message for its key, whatever came earlier under that key. |
| Violations.EmailViolationMessage | validation.go:29-31 | For the last violation on a key with tag `email`, the message is exactly `Invalid email format.`, whatever the field or parameter. |
| Violations.OtherViolationMessage | validation.go:33 | For the last violation on a key with any other tag, the message is the original-case field, ` is `, the tag, a space and the parameter. The trailing space stays when the parameter is empty. |
| Violations.SwapDistinctKeys | validation.go:28-34 | Reordering adjacent violations on different keys does not change the error object. |
| Violations.SwapSameKeyObservable | validation.go:28-34 | Reordering adjacent violations with the same key and different messages changes the error object when nothing later overwrites that key. The validator's report order therefore decides the message. |
| Violations.ErrorCount | validation.go:27-34 | The error object has at most as many entries as there are violations. It has exactly as many if and only if no two violations share a lower-cased field name. |
| RequestContext.Value | validation.go:70 | Looking a key up through the context chain finds the nearest binding. The result agrees with the map of visible bindings. |
| RequestContext.NewContext | validation.go:64-66 | The derived context yields the payload under the private key. Every other key reads as in the parent. The visible bindings are the parent's with the payload key overwritten. |
| RequestContext.FromContext | validation.go:69-71 | The accessor yields a payload exactly when the private key is among the visible bindings, and then yields the value bound to it. |
| RequestContext.AbsentIffNeverAttached | validation.go:69-71 | `FromContext` yields no payload exactly when no node of the context was made by `NewContext` (both directions). |
| RequestContext.NewContextShadows | validation.go:64-71 | After a second `NewContext`, the second payload is the one read back. |
| RequestContext.PayloadSurvivesForeignBindings | validation.go:64-71 | The payload stays readable after any number of later bindings under other keys. |
| Middleware.Handle | validation.go:42-59 | With no body stream the answer is 422 `Invalid body.\n` as plain text. With a decode error it is 400 and the decoder's text plus a newline. With violations it is 422 `application/json` and the `buildError` object of those violations. Otherwise the request is forwarded, and only then. The forwarded context yields the decoded payload and leaves every other key as in the request's context. |
| Middleware.MissingBodyPrecedes | validation.go:44-47 | Without a body, the response does not depend on the decode result, the validator or the context. Nothing is decoded or validated and nothing is forwarded. |
| Middleware.DecodeFailurePrecedesValidation | validation.go:48-51 | A decode failure is answered without consulting the validator and is never forwarded. |
| Middleware.StatusClassifiesFailure | validation.go:44-56 | Status 400 occurs exactly for a body that does not decode. Status 422 occurs exactly for a missing body or a payload that breaks a rule. |
| Middleware.RejectionNamesFailedFields | validation.go:52-56 | A rejected payload gets a non-empty JSON error object whose keys are exactly the lower-cased names of the failing fields. |
| Scenarios.ValidateA | validation_test.go:14-16 | The test struct A is reported invalid exactly when its value is below 5. |
| Scenarios.NoBodyProvided | validation_test.go:28-34 | A request without a body gets 422 and the plain-text body `Invalid body.\n`. |
| Scenarios.BodyNotJson | validation_test.go:42-48 | A body that is not JSON gets 400 and the decoder's message. |
| Scenarios.BodyWithInvalidValue | validation_test.go:35-55 | Any A with a value below 5 (A{-2}, or A{0} decoded from an unknown key) gets 422 with `{"value": "Value is min 5"}`. |
| Scenarios.ValidBodyForwarded | validation_test.go:79-111 | A valid B is forwarded, and the next handler reads back the same payload. |
| Scenarios.InvalidEmailMessage | validation_test.go:114-142 | B with a malformed email and value 0 gets 422 with `{"email": "Invalid email format.", "value": "Value is min 5"}`. |

## Left out

- JSON decoding (validation.go:48): the decoder is an input, either a payload or its error text. Trailing data after the first JSON value and the decoder's exact messages are not modelled.
- JSON serialisation of the error object (validation.go:35): the response body is the map itself. Key order and escaping in the written bytes are not modelled.
- The validation rule engine (validation.go:52): `email`, `required`, `min` and `max` are the library's rules. The model takes the validator as a function from payload to its ordered violation list.
- The global validator and `init` (validation.go:20-24): this is process-wide setup with no behaviour of its own.
- The reflection-based fresh instance per request (validation.go:43): payloads here are immutable values, so two requests cannot share state.
- A JSON `null` body: decoding sets the target to nil. The validator then returns an error that is not a list of violations, so the type assertion in `buildError` (validation.go:28) would fail. Outcomes other than a violation list are not modelled.
- Response plumbing: headers other than Content-Type are not modelled (for example `X-Content-Type-Options`, which `http.Error` sets). Neither is the order of header and status writes.
- RequestContext.AbsentIffNeverAttached: payloads are never nil in the model. Go's `context.WithValue` accepts a nil value, so `NewContext(c, nil)` adds a node yet `FromContext` returns nil, and it hides an earlier payload. The middleware itself only stores the non-nil pointer made at validation.go:43. A nil parent context, on which `WithValue` panics, is not modelled either.
- Context cancellation and deadlines: only the value chain of `context.Context` is modelled. All values in a context share one type parameter, where Go stores `interface{}`.
- Ascii.ToLower: lowers only the ASCII letters A-Z. Go's `strings.ToLower` also lowers non-ASCII letters, so field names outside ASCII may collide differently.
- Concurrency: each request is handled independently and the middleware keeps no shared mutable state, so there is nothing to model.
