/** The request context: a chain of key/value nodes, each derived from its parent, as
    Go's context.WithValue builds them, and the two accessors that attach and retrieve
    the validated payload under the package's private key. */
module RequestContext {
  import opened Wrappers

  /** Keys are compared by identity. The payload key is private to the middleware, so no
      other code can build it: every other key is a ForeignKey, whatever its name. */
  datatype ContextKey = PayloadKey | ForeignKey(name: string)

  /** Background is the empty root context; WithValue derives a child carrying one pair. */
  datatype Context<V> = Background | WithValue(parent: Context<V>, key: ContextKey, val: V)

  /** Looks k up from the newest node towards the root: the nearest binding wins, so the
      result is what the map of visible bindings holds for k. */
  function Value<V>(c: Context<V>, k: ContextKey): (r: Option<V>)
    ensures r == if k in Bindings(c) then Some(Bindings(c)[k]) else None
  {
    match c
    case Background => None
    case WithValue(parent, key, val) => if key == k then Some(val) else Value(parent, k)
  }

  /** The key/value pairs visible in c, as a map: a reference for what Value returns. */
  ghost function Bindings<V>(c: Context<V>): map<ContextKey, V> {
    match c
    case Background => map[]
    case WithValue(parent, key, val) => Bindings(parent)[key := val]
  }

  /** True iff some node of c carries the payload key. */
  ghost predicate Attached<V>(c: Context<V>) {
    match c
    case Background => false
    case WithValue(parent, key, _) => key == PayloadKey || Attached(parent)
  }

  /** Derives a context that carries payload under the private key. Reading it back
      yields payload, and every other key reads as it did in the parent. */
  function NewContext<V>(c: Context<V>, payload: V): (r: Context<V>)
    ensures FromContext(r) == Some(payload)
    ensures forall k :: k != PayloadKey ==> Value(r, k) == Value(c, k)
    ensures Bindings(r) == Bindings(c)[PayloadKey := payload]
  {
    WithValue(c, PayloadKey, payload)
  }

  /** The payload stored under the private key, or None when there is none: the value of
      the most recent NewContext on the way to the root. */
  function FromContext<V>(c: Context<V>): (r: Option<V>)
    ensures r.Some? <==> PayloadKey in Bindings(c)
    ensures r.Some? ==> r.value == Bindings(c)[PayloadKey]
  {
    Value(c, PayloadKey)
  }

  /** A context yields no payload exactly when it never went through NewContext. */
  lemma {:induction false} AbsentIffNeverAttached<V>(c: Context<V>)
    ensures FromContext(c) == None <==> !Attached(c)
  {
    match c
    case Background =>
    case WithValue(parent, key, _) =>
      if key != PayloadKey {
        AbsentIffNeverAttached(parent);
      }
  }

  /** A second NewContext shadows the first: the newest payload is the one read back,
      and the older one is no longer visible. */
  lemma NewContextShadows<V>(c: Context<V>, first: V, second: V)
    ensures FromContext(NewContext(NewContext(c, first), second)) == Some(second)
  {
  }

  /** The payload survives any number of foreign bindings added below it. */
  lemma {:induction false} PayloadSurvivesForeignBindings<V>(c: Context<V>, payload: V, later: seq<(string, V)>)
    ensures FromContext(Extend(NewContext(c, payload), later)) == Some(payload)
    decreases |later|
  {
    if later != [] {
      PayloadSurvivesForeignBindings(c, payload, later[..|later| - 1]);
    }
  }

  /** Derives one child per pair of later, in order, each under a foreign key. */
  function Extend<V>(c: Context<V>, later: seq<(string, V)>): Context<V>
    decreases |later|
  {
    if later == [] then c
    else
      var last := later[|later| - 1];
      WithValue(Extend(c, later[..|later| - 1]), ForeignKey(last.0), last.1)
  }
}
