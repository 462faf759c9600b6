/** Request/response dispatch and correlation (IPPC-Library/ServerClient.cs). */
module Dispatch {
  import opened Outcomes
  import opened Serialization
  import opened Messages

  /** The reserved name that marks a message as a response. */
  const ResponseName := "IPPCResponse"

  /** What a task returned by the handler yields once awaited: a task type without a public
      `Result` property, a `Task<T>` whose `Result` may be null, or a task that faults when awaited. */
  datatype TaskOutcome = VoidTask | ValueTask(result: Option<Value>) | FaultedTask

  /** What one call of the `OnInvoke` handler gives back. */
  datatype HandlerReturn =
    | ReturnedNull
    | ReturnedValue(value: Value)       // any object that is not a task
    | ReturnedTask(task: TaskOutcome)
    | HandlerThrew

  /** `OnInvoke`: a method name and its decoded arguments to a return value. */
  type Handler = (string, seq<Value>) -> HandlerReturn

  /** The handler's return value after awaiting a task (ServerClient.cs:159-172); None is null. */
  function Awaited(ret: HandlerReturn): (r: Result<Option<Value>>)
    ensures r.Err? <==> ret == HandlerThrew || ret == ReturnedTask(FaultedTask)
    ensures r == Ok(None) <==> ret in {ReturnedNull, ReturnedTask(VoidTask), ReturnedTask(ValueTask(None))}
    ensures forall v :: r == Ok(Some(v)) <==> ret in {ReturnedValue(v), ReturnedTask(ValueTask(Some(v)))}
  {
    match ret
    case ReturnedNull => Ok(None)
    case ReturnedValue(v) => Ok(Some(v))
    case ReturnedTask(VoidTask) => Ok(None)
    case ReturnedTask(ValueTask(res)) => Ok(res)
    case ReturnedTask(FaultedTask) => Err(HandlerFailed)
    case HandlerThrew => Err(HandlerFailed)
  }

  /** The response `HandleRequest` builds for a request, or the exception it raises on the way. */
  function ResponseFor(rt: Runtime, handler: Option<Handler>, req: Envelope): (r: Result<Envelope>)
    ensures r.Ok? ==> r.value.id == req.id && r.value.name == Some(ResponseName) && r.value.params == []
    ensures handler.None? || req.name.None? ==> r.Ok? && r.value.result.None?
    ensures r.Err? <==>
              handler.Some? && req.name.Some? &&
              (DecodeAll(rt, req.params).Err? ||
               Awaited(handler.value(req.name.value, DecodeAll(rt, req.params).value)).Err?)
    ensures DecodeAll(rt, req.params).Err? && handler.Some? && req.name.Some? ==>
              r == Err(DecodeAll(rt, req.params).error)
    ensures r.Ok? && r.value.result.Some? ==>
              handler.Some? && req.name.Some? && DecodeAll(rt, req.params).Ok? &&
              exists v :: Awaited(handler.value(req.name.value, DecodeAll(rt, req.params).value)) == Ok(Some(v)) &&
                          r.value.result == Some(FromObject(rt, v))
  {
    var response := Envelope(req.id, Some(ResponseName), [], None);
    if handler.None? || req.name.None? then Ok(response)
    else
      match DecodeAll(rt, req.params)
      case Err(e) => Err(e)
      case Ok(args) =>
        match Awaited(handler.value(req.name.value, args))
        case Err(e) => Err(e)
        case Ok(None) => Ok(response)
        case Ok(Some(v)) => Ok(response.(result := Some(FromObject(rt, v))))
  }

  /** `SendRequest<T>`'s reading of a response's result as a value of type t. */
  function CoerceResult(rt: Runtime, result: Option<MessageParameter>, t: RuntimeType): (r: Result<Value>)
    ensures DecodesToType(rt) && r.Ok? ==> IsInstance(rt, r.value, t)
    ensures result.None? ==> r == Err(TypeMismatch)
    ensures result.Some? && ToValue(rt, result.value).Err? ==> r == Err(ToValue(rt, result.value).error)
    ensures result.Some? && ToValue(rt, result.value).Ok? && IsInstance(rt, ToValue(rt, result.value).value, t) ==>
              r == Ok(ToValue(rt, result.value).value)
    ensures result.Some? && ToValue(rt, result.value).Ok? && !IsInstance(rt, ToValue(rt, result.value).value, t) ==>
              r == if ToValue(rt, result.value).value.Str?
                   then Deserialize(rt, ToValue(rt, result.value).value.text, t)
                   else Err(TypeMismatch)
  {
    match result
    case None => Err(TypeMismatch)
    case Some(p) =>
      match ToValue(rt, p)
      case Err(e) => Err(e)
      case Ok(v) =>
        if IsInstance(rt, v, t) then Ok(v)
        else if v.Str? then Deserialize(rt, v.text, t)
        else Err(TypeMismatch)
  }

  /** The request envelope `Invoke` sends for a method name and its arguments. */
  function RequestFor(rt: Runtime, name: string, args: seq<Value>): (req: Envelope)
    ensures req.id == ZeroGuid && req.name == Some(name) && req.result.None?
    ensures (forall i :: 0 <= i < |args| ==> RoundTrips(rt, args[i])) ==> DecodeAll(rt, req.params) == Ok(args)
  {
    PackedArgumentsDecode(rt, args);
    Envelope(ZeroGuid, Some(name), PackAll(rt, args), None)
  }

  /** `ParametersRoundTrip` with its precondition as a hypothesis, so that `RequestFor` can use it unconditionally. */
  lemma PackedArgumentsDecode(rt: Runtime, args: seq<Value>)
    ensures (forall i :: 0 <= i < |args| ==> RoundTrips(rt, args[i])) ==> DecodeAll(rt, PackAll(rt, args)) == Ok(args)
  {
    if forall i :: 0 <= i < |args| ==> RoundTrips(rt, args[i]) {
      ParametersRoundTrip(rt, args);
    }
  }

  /** The response carries no result when there is no handler, when the request has no name,
      and when the handler returns null or a task without a `Result` property. */
  lemma NoResultCases(rt: Runtime, handler: Option<Handler>, req: Envelope)
    requires handler.Some? && req.name.Some? ==>
               DecodeAll(rt, req.params).Ok? &&
               handler.value(req.name.value, DecodeAll(rt, req.params).value) in {ReturnedNull, ReturnedTask(VoidTask)}
    ensures ResponseFor(rt, handler, req).Ok?
    ensures ResponseFor(rt, handler, req).value.result.None?
  {
  }

  /** Otherwise the result is the packed return value, or the packed `Result` of the awaited task. */
  lemma ResultIsReturnValue(rt: Runtime, h: Handler, req: Envelope, v: Value)
    requires req.name.Some? && DecodeAll(rt, req.params).Ok?
    requires h(req.name.value, DecodeAll(rt, req.params).value) in {ReturnedValue(v), ReturnedTask(ValueTask(Some(v)))}
    ensures ResponseFor(rt, Some(h), req) == Ok(Envelope(req.id, Some(ResponseName), [], Some(FromObject(rt, v))))
  {
  }

  /** A whole typed call, end to end: the handler sees exactly the caller's arguments, and the
      caller gets back exactly the handler's return value, when the codec inverts every value
      involved and the returned value is an instance of the requested type. */
  lemma CallRoundTrip(rt: Runtime, h: Handler, name: string, args: seq<Value>, v: Value, t: RuntimeType)
    requires forall i :: 0 <= i < |args| ==> RoundTrips(rt, args[i])
    requires h(name, args) in {ReturnedValue(v), ReturnedTask(ValueTask(Some(v)))}
    requires RoundTrips(rt, v) && IsInstance(rt, v, t)
    ensures DecodeAll(rt, RequestFor(rt, name, args).params) == Ok(args)
    ensures ResponseFor(rt, Some(h), RequestFor(rt, name, args)).Ok?
    ensures ResponseFor(rt, Some(h), RequestFor(rt, name, args)).value.id == ZeroGuid
    ensures CoerceResult(rt, ResponseFor(rt, Some(h), RequestFor(rt, name, args)).value.result, t) == Ok(v)
  {
  }

  /** A typed call to a handler that returns nothing fails with a type mismatch on the caller's side. */
  lemma TypedCallToVoidHandler(rt: Runtime, h: Handler, name: string, args: seq<Value>, t: RuntimeType)
    requires forall i :: 0 <= i < |args| ==> RoundTrips(rt, args[i])
    requires h(name, args) in {ReturnedNull, ReturnedTask(VoidTask), ReturnedTask(ValueTask(None))}
    ensures ResponseFor(rt, Some(h), RequestFor(rt, name, args)).Ok?
    ensures CoerceResult(rt, ResponseFor(rt, Some(h), RequestFor(rt, name, args)).value.result, t) == Err(TypeMismatch)
  {
  }

  /** A socket endpoint, reduced to the one bit the core reads: `IsRunning` for a server,
      `IsConnected()` for a client. The transport owns it. */
  datatype Endpoint = Endpoint(up: bool)

  /** A message handed to the transport: a client's send to its server, or a server's send to every client. */
  datatype Transmission = ToServer(envelope: Envelope) | ToAllClients(envelope: Envelope)

  /** What the transport delivered once `Serializer.Deserialize<IpcMessage>` has run on it. */
  datatype Inbound = Received(envelope: Envelope) | NullMessage | Unparseable

  /** `ServerClient`: one end of the IPC channel, started as a server or as a client. */
  class ServerClient {
    var server: Option<Endpoint>
    var client: Option<Endpoint>
    var responses: map<string, IpcMessage>
    var onInvoke: Option<Handler>
    var transmitted: seq<Transmission>

    /** At most one role has been started. */
    ghost predicate SingleRole()
      reads this
    {
      server.None? || client.None?
    }

    constructor ()
      ensures server == None && client == None && responses == map[] && onInvoke == None && transmitted == []
      ensures SingleRole()
    {
      server := None;
      client := None;
      responses := map[];
      onInvoke := None;
      transmitted := [];
    }

    /** `IsAlive`: a server answers for itself whatever the client field holds; otherwise the client does. */
    function IsAlive(): (alive: bool)
      reads this
      ensures server.None? && client.None? ==> !alive
      ensures alive ==> server.Some? || client.Some?
      ensures server.Some? ==> (alive <==> server.value.up)
      ensures server.None? && client.Some? ==> (alive <==> client.value.up)
    {
      if server.Some? then server.value.up
      else if client.Some? then client.value.up
      else false
    }

    /** `StartServer`: refused once either role exists; otherwise the server is created and
        listens, and the call reports whether it is running (`listening`, decided by the socket). */
    method StartServer(listening: bool) returns (r: Result<bool>)
      modifies this`server
      ensures old(server.Some? || client.Some?) ==> r == Err(AlreadyRunning) && server == old(server)
      ensures old(server.None? && client.None?) ==> r == Ok(listening) && server == Some(Endpoint(listening))
      ensures old(SingleRole()) ==> SingleRole()
    {
      if client.Some? || server.Some? {
        return Err(AlreadyRunning);
      }
      server := Some(Endpoint(listening));
      r := Ok(listening);
    }

    /** `StartClient`: refused once either role exists; otherwise the client is created (and kept
        even when the connection fails) and the call reports whether it connected. */
    method StartClient(connected: bool) returns (r: Result<bool>)
      modifies this`client
      ensures old(server.Some? || client.Some?) ==> r == Err(AlreadyRunning) && client == old(client)
      ensures old(server.None? && client.None?) ==> r == Ok(connected) && client == Some(Endpoint(connected))
      ensures old(SingleRole()) ==> SingleRole()
    {
      if client.Some? || server.Some? {
        return Err(AlreadyRunning);
      }
      client := Some(Endpoint(connected));
      r := Ok(connected);
    }

    /** `SendRequest`: send the request to the server, then take the response stored under its id.
        The polling wait is modelled by requiring that the response has already been stored. */
    method SendRequest(msg: IpcMessage) returns (r: Result<IpcMessage>)
      requires client.Some? ==> msg.id in responses
      modifies this`responses, this`transmitted
      ensures client.None? ==> r == Err(NoClient) && responses == old(responses) && transmitted == old(transmitted)
      ensures client.Some? ==>
                r == Ok(old(responses)[msg.id]) &&
                responses == old(responses) - {msg.id} &&
                transmitted == old(transmitted) + [ToServer(msg.Snapshot())]
    {
      if client.None? {
        return Err(NoClient);
      }
      transmitted := transmitted + [ToServer(msg.Snapshot())];
      var response := responses[msg.id];
      responses := responses - {msg.id};
      r := Ok(response);
    }

    /** `SendRequest<T>`: as `SendRequest`, then read the response's result as a t. */
    method SendRequestTyped(rt: Runtime, msg: IpcMessage, t: RuntimeType) returns (r: Result<Value>)
      requires client.Some? ==> msg.id in responses
      modifies this`responses, this`transmitted
      ensures client.None? ==> r == Err(NoClient) && responses == old(responses) && transmitted == old(transmitted)
      ensures client.Some? ==>
                r == CoerceResult(rt, old(responses)[msg.id].result, t) &&
                responses == old(responses) - {msg.id} &&
                transmitted == old(transmitted) + [ToServer(msg.Snapshot())]
    {
      var response := SendRequest(msg);
      if response.Err? {
        return Err(response.error);
      }
      var obj := if response.value.result.Some? then Some(ToValue(rt, response.value.result.value)) else None;
      if obj.Some? && obj.value.Err? {
        return Err(obj.value.error);
      }
      if obj.Some? && IsInstance(rt, obj.value.value, t) {
        return Ok(obj.value.value);
      }
      if obj.Some? && obj.value.value.Str? {
        return Deserialize(rt, obj.value.value.text, t);
      }
      r := Err(TypeMismatch);
    }

    /** `Invoke(name, args)`: build a request, pack the arguments and wait for the response. */
    method Invoke(rt: Runtime, name: string, args: seq<Value>) returns (r: Result<()>)
      requires client.Some? ==> ZeroGuid in responses
      modifies this`responses, this`transmitted
      ensures client.None? ==> r == Err(NoClient) && responses == old(responses) && transmitted == old(transmitted)
      ensures client.Some? ==>
                r == Ok(()) &&
                responses == old(responses) - {ZeroGuid} &&
                transmitted == old(transmitted) + [ToServer(RequestFor(rt, name, args))]
    {
      var request := new IpcMessage.Named(name);
      request.SetParameters(rt, args);
      var response := SendRequest(request);
      r := if response.Ok? then Ok(()) else Err(response.error);
    }

    /** `Invoke<T>(name, args)`: as `Invoke`, returning the result read as a t. */
    method InvokeTyped(rt: Runtime, name: string, args: seq<Value>, t: RuntimeType) returns (r: Result<Value>)
      requires client.Some? ==> ZeroGuid in responses
      modifies this`responses, this`transmitted
      ensures client.None? ==> r == Err(NoClient) && responses == old(responses) && transmitted == old(transmitted)
      ensures client.Some? ==>
                r == CoerceResult(rt, old(responses)[ZeroGuid].result, t) &&
                responses == old(responses) - {ZeroGuid} &&
                transmitted == old(transmitted) + [ToServer(RequestFor(rt, name, args))]
    {
      var request := new IpcMessage.Named(name);
      request.SetParameters(rt, args);
      r := SendRequestTyped(rt, request, t);
    }

    /** `HandleRequest`: build the response to a request and broadcast it to every client. */
    method HandleRequest(rt: Runtime, msg: IpcMessage) returns (r: Result<()>)
      modifies this`transmitted
      ensures ResponseFor(rt, onInvoke, msg.Snapshot()).Err? ==>
                r == Err(ResponseFor(rt, onInvoke, msg.Snapshot()).error) && transmitted == old(transmitted)
      ensures ResponseFor(rt, onInvoke, msg.Snapshot()).Ok? && server.None? ==>
                r == Err(NoServer) && transmitted == old(transmitted)
      ensures ResponseFor(rt, onInvoke, msg.Snapshot()).Ok? && server.Some? ==>
                r == Ok(()) &&
                transmitted == old(transmitted) + [ToAllClients(ResponseFor(rt, onInvoke, msg.Snapshot()).value)]
    {
      var response := new IpcMessage.Named(ResponseName);
      response.id := msg.id;
      if onInvoke.Some? && msg.name.Some? {
        var args := msg.GetParameters(rt);
        if args.Err? {
          return Err(args.error);
        }
        var returned := Awaited(onInvoke.value(msg.name.value, args.value));
        if returned.Err? {
          return Err(returned.error);
        }
        if returned.value.Some? {
          response.result := Some(FromObject(rt, returned.value.value));
        }
      }
      if server.None? {
        return Err(NoServer);
      }
      transmitted := transmitted + [ToAllClients(response.Snapshot())];
      r := Ok(());
    }

    /** `OnDataReceived`: a message that fails to deserialize raises the serializer's error;
        a response is stored under its id; anything else is handled as a request. */
    method OnDataReceived(rt: Runtime, inbound: Inbound) returns (r: Result<()>)
      modifies this`responses, this`transmitted
      ensures inbound.NullMessage? ==> r == Err(NullPayload)
      ensures inbound.Unparseable? ==> r == Err(MalformedPayload)
      ensures !inbound.Received? ==> responses == old(responses) && transmitted == old(transmitted)
      ensures inbound.Received? && inbound.envelope.name == Some(ResponseName) ==>
                transmitted == old(transmitted) &&
                if inbound.envelope.id in old(responses) then
                  r == Err(DuplicateId(inbound.envelope.id)) && responses == old(responses)
                else
                  r == Ok(()) &&
                  inbound.envelope.id in responses &&
                  fresh(responses[inbound.envelope.id]) &&
                  responses[inbound.envelope.id].Snapshot() == inbound.envelope &&
                  responses == old(responses)[inbound.envelope.id := responses[inbound.envelope.id]]
      ensures inbound.Received? && inbound.envelope.name != Some(ResponseName) ==>
                responses == old(responses) &&
                match ResponseFor(rt, onInvoke, inbound.envelope)
                case Err(e) => r == Err(e) && transmitted == old(transmitted)
                case Ok(response) =>
                  if server.None? then r == Err(NoServer) && transmitted == old(transmitted)
                  else r == Ok(()) && transmitted == old(transmitted) + [ToAllClients(response)]
    {
      if inbound.NullMessage? {
        return Err(NullPayload);
      }
      if inbound.Unparseable? {
        return Err(MalformedPayload);
      }
      var msg := new IpcMessage.Decoded(inbound.envelope);
      if msg.name == Some(ResponseName) {
        if msg.id in responses {
          return Err(DuplicateId(msg.id));
        }
        responses := responses[msg.id := msg];
        r := Ok(());
      } else {
        r := HandleRequest(rt, msg);
      }
    }
  }
}
