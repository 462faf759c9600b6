# IPPC message protocol and dispatch core, modelled in Dafny

IPPC is a small inter-process call library. Two processes talk over one TCP connection. One is started as a
server with an `OnInvoke` handler; the other is started as a client and calls methods by name. This project
models the sequential core of the library:

- **Message envelope** (`Messages`, after `IPPC-Library/Message.cs`). An `IpcMessage` class holds an id,
  an optional name, an ordered parameter list and an optional result. Each `MessageParameter` is a
  (value text, type name) pair of optional strings. `SetParameters` packs values in place and
  `GetParameters` unpacks them. `ToValue` has a fixed error ladder: missing type, then missing value,
  then an unresolvable type, then the decoder's failure.
- **Dispatch and correlation** (`Dispatch`, after `IPPC-Library/ServerClient.cs`). A `ServerClient` class
  holds the started role, the `responses` registry (`map<string, IpcMessage>`), the optional handler and
  the sequence of messages handed to the transport. It models the start guards, `IsAlive`, routing of
  inbound messages, request handling, and consuming a response. The pure functions `ResponseFor` and
  `CoerceResult` state what `HandleRequest` and `SendRequest<T>` compute, and lemmas relate them
  end to end.
- **Pointer-width integer converter** (`IntPtrConversion`, after
  `IPPC-Library/Serialization/Converters/IntPtrConverter.cs`). A 64-bit `nint` is written as a JSON string
  holding its decimal text and parsed back with the rules of `NumberStyles.Integer`.

`Outcomes` holds `Option`, `Result` and one `Error` constructor per exception the core raises.
`Serialization` holds the runtime value universe. The platform services the core calls are one record of
functions (`Runtime`), so every property holds for any serializer and any type universe:
`JsonSerializer.Serialize` (total), `JsonSerializer.Deserialize` (partial), `System.Type.GetType` (a partial
lookup) and the `is T` test. A round trip is proved wherever the serializer inverts itself on the values
involved.

Three behaviours of the code are easy to miss:

- **Ids are not unique.** Both `IpcMessage` constructors assign `new Guid().ToString()`, which is the all-zero
  GUID. Every request therefore carries the id `ZeroGuid`. A second response that arrives before the first is
  consumed is rejected by `Dictionary.Add` (`Error.DuplicateId`); nothing is overwritten.
- **A message that decodes to null is not silently dropped.** `ServerClient.cs:135-136` returns on a null
  message. But `Serializer.Deserialize<T>` already throws on a null result (`Serializer.cs:36-37`), so that
  line is never reached. `OnDataReceived` therefore reports `NullPayload` (or `MalformedPayload` for text the
  serializer rejects). In every such case the registry is unchanged and nothing is sent.
- **Missing role.** `SendRequest` sends through `client` and `HandleRequest` through `server` without a null
  check. A missing endpoint is a null dereference, which the model reports as `NoClient` and `NoServer`.

## Model

| member | source | states |
|---|---|---|
| `Serialization.Deserialize` | IPPC-Library/Serialization/Serializer.cs:42-50 | succeeds exactly when the serializer returns a non-null value, which it then returns; a null result is `NullPayload`, rejected text `MalformedPayload` |
| `Messages.IpcMessage.constructor` | IPPC-Library/Message.cs:9-12 | a new message has the all-zero GUID as id, no name, no parameters and no result |
| `Messages.IpcMessage.Named` | IPPC-Library/Message.cs:14-18 | as the parameterless constructor, with the name set; the id is the same constant, so ids are not unique |
| `Messages.IpcMessage.Decoded` | IPPC-Library/Message.cs:20-23 | the object the deserializer builds holds exactly the envelope read from the wire |
| `Messages.ToValue` | IPPC-Library/Message.cs:58-72 | a missing type fails first (even when the value is also missing), then a missing value, then an unresolvable type name; success implies both fields present, the type resolved and the decoder returned that non-null value; once both fields are present and the type resolves, the outcome is the decoder's: the value it returns, `NullPayload` for null, `MalformedPayload` for rejected text |
| `Messages.FromObject` | IPPC-Library/Message.cs:50-56 | the parameter's type is the full name of v's runtime type and its value the serializer's text for v; `ToValue` gives v back from it whenever the codec inverts v and that name resolves |
| `Messages.PackAll` | IPPC-Library/Message.cs:25-31 | one packed parameter per value, same length, the i-th packed from the i-th value |
| `Messages.DecodeAll` | IPPC-Library/Message.cs:33-43 | succeeds iff every parameter decodes, then with the same length and element i the value of parameter i; otherwise fails with the error of the first parameter that fails |
| `Messages.IpcMessage.SetParameters` | IPPC-Library/Message.cs:25-31 | earlier parameters unchanged, exactly one new parameter per value, the i-th holding the serialized text and the full type name of value i; nothing else in the message changes |
| `Messages.IpcMessage.GetParameters` | IPPC-Library/Message.cs:33-43 | returns what `DecodeAll` gives for the message's parameters: all values in order, or the first failure |
| `Messages.ParametersRoundTrip` | IPPC-Library/Message.cs:25-43 | unpacking the parameters packed from a list of values gives that list back, when the codec inverts each value |
| `Dispatch.Awaited` | IPPC-Library/ServerClient.cs:156-172 | the handler's value after awaiting: a throwing handler or faulted task fails; null, a task without a `Result` property or a null `Result` give no value; a plain object or a task's non-null `Result` is the value |
| `Dispatch.ResponseFor` | IPPC-Library/ServerClient.cs:148-179 | a built response copies the request's id, has the sentinel name and no parameters; it has no result when there is no handler or no request name; it fails exactly when decoding the arguments fails or the handler fails; a result present is the packed return value |
| `Dispatch.NoResultCases` | IPPC-Library/ServerClient.cs:153-178 | no handler, no request name, a null return or a task without a `Result` property all give a response without a result |
| `Dispatch.ResultIsReturnValue` | IPPC-Library/ServerClient.cs:159-178 | a non-null return value, or the `Result` of the awaited task, is packed as the response's result |
| `Dispatch.CoerceResult` | IPPC-Library/ServerClient.cs:104-114 | no result is a type mismatch; a result that fails to decode fails with that error; a decoded value that is already a T is returned; a decoded string that is not a T is re-decoded as T; anything else is a type mismatch; when the serializer only ever decodes instances of the type asked for, a successful result is always an instance of T |
| `Dispatch.RequestFor` | IPPC-Library/ServerClient.cs:94-95 | a request carries the all-zero GUID, the method name and no result, and its parameters decode back to the arguments whenever the codec inverts each of them |
| `Dispatch.CallRoundTrip` | IPPC-Library/ServerClient.cs:91-183 | end to end: the handler receives exactly the caller's arguments, the response carries the request's id, and the typed caller gets exactly the handler's return value when it is an instance of the requested type |
| `Dispatch.TypedCallToVoidHandler` | IPPC-Library/ServerClient.cs:104-114 | a typed call to a handler that returns null or a task without a result fails with a type mismatch |
| `Dispatch.ServerClient.constructor` | IPPC-Library/ServerClient.cs:21-27 | no role started, empty registry, no handler, nothing sent |
| `Dispatch.ServerClient.IsAlive` | IPPC-Library/ServerClient.cs:29-41 | false when neither role exists; a server's state decides the answer whatever the client field holds; otherwise the client's state decides |
| `Dispatch.ServerClient.StartServer` | IPPC-Library/ServerClient.cs:43-58 | fails with `AlreadyRunning`, changing nothing, once a server or a client exists; otherwise creates the server and reports whether it runs; at most one role is started |
| `Dispatch.ServerClient.StartClient` | IPPC-Library/ServerClient.cs:60-70 | the same guard; otherwise creates the client, kept even when the connection fails, and reports whether it connected |
| `Dispatch.ServerClient.SendRequest` | IPPC-Library/ServerClient.cs:117-128 | with a client: sends the request, returns exactly the entry stored under its id and removes that key, all other entries unchanged; without a client: `NoClient`, nothing changes |
| `Dispatch.ServerClient.SendRequestTyped` | IPPC-Library/ServerClient.cs:99-115 | as `SendRequest`, returning the stored response's result read as the requested type (`CoerceResult`) |
| `Dispatch.ServerClient.Invoke` | IPPC-Library/ServerClient.cs:81-86 | sends one request with the zero GUID as id, the method name and the packed arguments, and consumes the response under that id |
| `Dispatch.ServerClient.InvokeTyped` | IPPC-Library/ServerClient.cs:91-97 | as `Invoke`, returning the consumed response's result read as the requested type (`CoerceResult`, so an instance of that type when the serializer decodes to the type asked for) |
| `Dispatch.ServerClient.HandleRequest` | IPPC-Library/ServerClient.cs:148-183 | broadcasts exactly the response `ResponseFor` builds when a server exists; sends nothing when building fails (that error is returned) or no server exists |
| `Dispatch.ServerClient.OnDataReceived` | IPPC-Library/ServerClient.cs:130-146 | an undecodable message fails and changes nothing; a response is stored under its id and nothing else changes, unless that id is already present (`DuplicateId`, registry unchanged); any other message leaves the registry alone and is handled as a request |
| `IntPtrConversion.Write` | IPPC-Library/Serialization/Converters/IntPtrConverter.cs:19-22 | emits a JSON string token, never a number, holding canonical decimal text |
| `IntPtrConversion.Read` | IPPC-Library/Serialization/Converters/IntPtrConverter.cs:9-17 | a null token fails, a token that is not a string fails, a string is parsed as an `nint` |
| `IntPtrConversion.IntText` | IPPC-Library/Serialization/Converters/IntPtrConverter.cs:21 | `ToString` of an integer is canonical decimal text, starting with a minus sign exactly for negative numbers |
| `IntPtrConversion.Parse` | IPPC-Library/Serialization/Converters/IntPtrConverter.cs:16 | a parsed value is denoted by the text under the independent `IntegerText` grammar (white space, optional sign, digits, white space); the only failures are a format error and an overflow, and an overflow only on integer text outside the 64-bit range |
| `IntPtrConversion.ParseComplete` | IPPC-Library/Serialization/Converters/IntPtrConverter.cs:16 | any integer text, leading zeros and `+` included, parses to its number inside the range and overflows outside it |
| `IntPtrConversion.ParseCharacterised` | IPPC-Library/Serialization/Converters/IntPtrConverter.cs:16 | `Parse(s) == Ok(n)` exactly when s is integer text denoting n |
| `IntPtrConversion.ParseOverflows` | IPPC-Library/Serialization/Converters/IntPtrConverter.cs:16 | `Parse` overflows exactly on integer text whose number lies outside the 64-bit range |
| `IntPtrConversion.ParseRejects` | IPPC-Library/Serialization/Converters/IntPtrConverter.cs:16 | `Parse` reports a format error exactly on text that is integer text for no number (a misplaced sign, inner white space, no digit) |
| `IntPtrConversion.ParseIntText` | IPPC-Library/Serialization/Converters/IntPtrConverter.cs:16 | the decimal text of any integer parses back to it inside the 64-bit range and overflows outside it |
| `IntPtrConversion.ReadWrite` | IPPC-Library/Serialization/Converters/IntPtrConverter.cs:9-22 | `Read(Write(v)) == v` for every 64-bit value, negatives included |
| `IntPtrConversion.WriteRead` | IPPC-Library/Serialization/Converters/IntPtrConverter.cs:9-22 | on canonical decimal text that parses, `Write(Read(s))` gives back the same text |
| `IntPtrConversion.ParseRejectsForeignChar` | IPPC-Library/Serialization/Converters/IntPtrConverter.cs:16 | text containing any character other than digits, a sign or white space is a format error |
| `IntPtrConversion.ParseRejectsNoDigits` | IPPC-Library/Serialization/Converters/IntPtrConverter.cs:16 | text without a digit (empty, a lone sign, only white space) is a format error |
| `IntPtrConversion.NatTextValue` | IPPC-Library/Serialization/Converters/IntPtrConverter.cs:21 | the digits `ToString` writes for a natural number denote that number |

## Left out

- Socket transport: the EasyTcp4 server and client, keep-alive, `Start(Port)`, `ConnectAsync`, `Send`, `SendAll`
  and connection events. This is I/O. A send is appended to the `transmitted` sequence. The socket's running or
  connected state is a flag the transport owns, passed to the start methods. The flag is fixed when
  `StartServer` or `StartClient` runs and no operation changes it afterwards, so `IsAlive` never sees a later
  disconnect or server stop that `server.IsRunning` and `client.IsConnected()` (`ServerClient.cs:34`, `:37`) report.
- Messages.IpcMessage.Snapshot stands for `Serializer.Serialize(msg)` (`ServerClient.cs:119`, `:181`): a message's
  JSON text is modelled as its four fields. The serializer leaves null fields out of the text (`WhenWritingNull`,
  `Serializer.cs:19`) and the decoder's defaults bring them back as null; the model does not spell that out.
- Exceptions from the socket layer (a port in use, a refused connection that throws) are not modelled.
- Concurrency: the registry is an unsynchronised `Dictionary` shared by receive callbacks and waiting callers.
  The model is sequential, and tasks returned by the handler are awaited at once.
- Dispatch.ServerClient.SendRequest: the polling wait (`ServerClient.cs:122-123`) is a precondition that the
  response is already stored. The model does not capture a caller that waits forever.
- Dispatch.ServerClient.SendRequestTyped, Invoke and InvokeTyped inherit that same precondition.
- The JSON serializer (`Serializer.cs` options, the enum converter) is abstract, as are the UTF-8 decoding of
  received bytes and the decoding of the envelope itself; `OnDataReceived` takes the decoding's outcome.
- Runtime type resolution (`System.Type.GetType`), the `is T` test and the reflection on a task's `Result`
  property are abstract lookups. Messages.ToValue and the rest assume `GetType().FullName` is never null.
- IntPtrConversion.Parse: the process's culture is taken to be the invariant culture (`-` and `+` signs). The
  trailing NUL characters that .NET also accepts are not modelled. `nint` is fixed at 64 bits.
- `Dispose`, the `LogError` and `LogMessage` callbacks, and the `Port` constant.
- IPPC-Plugin/IPPC.cs (plugin lifecycle and reflection into the host) and Test/Program.cs (a console demo) are
  not part of this model.
