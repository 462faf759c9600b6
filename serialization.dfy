/** The runtime objects that travel in messages and the JSON serializer that encodes them.
    The serializer and the reflection calls are not modelled in detail: a `Runtime` bundles them
    as functions, so every property below holds for any serializer and any type universe. */
module Serialization {
  import opened Outcomes

  /** A loaded runtime type, known by its full name (namespace and type name). */
  datatype RuntimeType = RuntimeType(fullName: string)

  /** The type of every string object. */
  const StringType := RuntimeType("System.String")

  /** A runtime object: a string, or an object of some other type in some state. */
  datatype Object = Str(text: string) | Other(runtimeType: RuntimeType, state: nat)

  /** Strings are sealed: no non-string object has the string type. */
  type Value = o: Object | o.Str? || o.runtimeType != StringType witness Str("")

  /** What `JsonSerializer.Deserialize(text, type)` does: return a value (or null), or reject the text. */
  datatype JsonOutcome = Decoded(result: Option<Value>) | Rejected

  /** The services the core borrows from the platform:
      `serialize` is `JsonSerializer.Serialize` with the library's options (total),
      `decode` is `JsonSerializer.Deserialize` with those options (partial),
      `getType` is `System.Type.GetType` on a type name (a partial lookup),
      `assignable(s, t)` says that an object of runtime type s passes the test `is t`. */
  datatype Runtime = Runtime(
    serialize: Value -> string,
    decode: (string, RuntimeType) -> JsonOutcome,
    getType: string -> Option<RuntimeType>,
    assignable: (RuntimeType, RuntimeType) -> bool)

  /** `obj.GetType()`. */
  function TypeOf(v: Value): RuntimeType
  {
    match v
    case Str(_) => StringType
    case Other(t, _) => t
  }

  /** `obj is t`. */
  predicate IsInstance(rt: Runtime, v: Value, t: RuntimeType)
  {
    rt.assignable(TypeOf(v), t)
  }

  /** `Serializer.Deserialize`: the serializer's decoding, with a null result turned into an error. */
  function Deserialize(rt: Runtime, json: string, t: RuntimeType): (r: Result<Value>)
    ensures r.Ok? <==> rt.decode(json, t).Decoded? && rt.decode(json, t).result.Some?
    ensures r.Ok? ==> rt.decode(json, t).result == Some(r.value)
    ensures rt.decode(json, t) == Decoded(None) ==> r == Err(NullPayload)
    ensures rt.decode(json, t).Rejected? ==> r == Err(MalformedPayload)
  {
    match rt.decode(json, t)
    case Rejected => Err(MalformedPayload)
    case Decoded(None) => Err(NullPayload)
    case Decoded(Some(v)) => Ok(v)
  }

  /** The serializer's decoding returns, when it returns a value at all, an instance of the type asked for,
      as `JsonSerializer.Deserialize(json, type)` and `Deserialize<T>` do. */
  ghost predicate DecodesToType(rt: Runtime)
  {
    forall json, t :: rt.decode(json, t).Decoded? && rt.decode(json, t).result.Some? ==>
                        IsInstance(rt, rt.decode(json, t).result.value, t)
  }

  /** The codec inverts itself on v, and v's type name resolves back to v's type: the two facts
      a value needs to survive being packed into a message parameter and unpacked again. */
  predicate RoundTrips(rt: Runtime, v: Value)
  {
    rt.getType(TypeOf(v).fullName) == Some(TypeOf(v)) &&
    rt.decode(rt.serialize(v), TypeOf(v)) == Decoded(Some(v))
  }
}
