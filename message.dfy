/** The IPC message envelope and the packing of typed parameters (IPPC-Library/Message.cs). */
module Messages {
  import opened Outcomes
  import opened Serialization

  /** `new Guid().ToString()`: the empty GUID, which is what both constructors assign. */
  const ZeroGuid := "00000000-0000-0000-0000-000000000000"

  /** A typed parameter: the serialized text of a value and the full name of its type,
      either of which may be null after deserialization. */
  datatype MessageParameter = MessageParameter(value: Option<string>, typeName: Option<string>)

  /** `MessageParameter.FromObject`: record the runtime type's full name and the serialized text;
      `ToValue` inverts it whenever the codec inverts v and v's type name resolves. */
  function FromObject(rt: Runtime, v: Value): (p: MessageParameter)
    ensures p.typeName == Some(TypeOf(v).fullName) && p.value == Some(rt.serialize(v))
    ensures RoundTrips(rt, v) ==> ToValue(rt, p) == Ok(v)
  {
    MessageParameter(Some(rt.serialize(v)), Some(TypeOf(v).fullName))
  }

  /** `MessageParameter.ToValue`: the type is checked before the value, then resolved, then decoded. */
  function ToValue(rt: Runtime, p: MessageParameter): (r: Result<Value>)
    ensures p.typeName.None? ==> r == Err(MissingType)
    ensures p.typeName.Some? && p.value.None? ==> r == Err(MissingValue)
    ensures p.typeName.Some? && p.value.Some? && rt.getType(p.typeName.value).None? ==>
              r == Err(UnknownType(p.typeName.value))
    ensures r.Ok? ==>
              p.typeName.Some? && p.value.Some? && rt.getType(p.typeName.value).Some? &&
              rt.decode(p.value.value, rt.getType(p.typeName.value).value) == Decoded(Some(r.value))
    ensures p.typeName.Some? && p.value.Some? && rt.getType(p.typeName.value).Some? ==>
              r == Deserialize(rt, p.value.value, rt.getType(p.typeName.value).value)
  {
    if p.typeName.None? then Err(MissingType)
    else if p.value.None? then Err(MissingValue)
    else match rt.getType(p.typeName.value)
      case None => Err(UnknownType(p.typeName.value))
      case Some(t) => Deserialize(rt, p.value.value, t)
  }

  /** One packed parameter per value, in order. */
  function PackAll(rt: Runtime, vs: seq<Value>): (ps: seq<MessageParameter>)
    ensures |ps| == |vs|
    ensures forall i :: 0 <= i < |vs| ==> ps[i] == FromObject(rt, vs[i])
  {
    if vs == [] then [] else [FromObject(rt, vs[0])] + PackAll(rt, vs[1..])
  }

  /** Every one of the first n parameters decodes. */
  predicate DecodesUpTo(rt: Runtime, ps: seq<MessageParameter>, n: nat)
    requires n <= |ps|
  {
    forall j :: 0 <= j < n ==> ToValue(rt, ps[j]).Ok?
  }

  /** The values of a parameter list, decoded front to back; the first failure aborts the whole list. */
  function DecodeAll(rt: Runtime, ps: seq<MessageParameter>): (r: Result<seq<Value>>)
    ensures r.Ok? <==> DecodesUpTo(rt, ps, |ps|)
    ensures r.Ok? ==> |r.value| == |ps| && forall i :: 0 <= i < |ps| ==> ToValue(rt, ps[i]) == Ok(r.value[i])
    ensures forall i :: 0 <= i < |ps| && DecodesUpTo(rt, ps, i) && ToValue(rt, ps[i]).Err? ==>
              r == Err(ToValue(rt, ps[i]).error)
  {
    if ps == [] then Ok([])
    else
      match ToValue(rt, ps[0])
      case Err(e) => Err(e)
      case Ok(v) =>
        match DecodeAll(rt, ps[1..])
        case Err(e) => Err(e)
        case Ok(vs) => Ok([v] + vs)
  }

  /** Unpacking what was packed gives back the values, when the codec inverts each of them. */
  lemma {:induction false} ParametersRoundTrip(rt: Runtime, vs: seq<Value>)
    requires forall i :: 0 <= i < |vs| ==> RoundTrips(rt, vs[i])
    ensures DecodeAll(rt, PackAll(rt, vs)) == Ok(vs)
  {
    var ps := PackAll(rt, vs);
    assert forall i :: 0 <= i < |vs| ==> ToValue(rt, ps[i]) == Ok(vs[i]);
    assert DecodesUpTo(rt, ps, |ps|);
    assert DecodeAll(rt, ps).value == vs;
  }

  /** A message as a value: what is serialized onto the wire and what a peer deserializes. */
  datatype Envelope = Envelope(
    id: string,
    name: Option<string>,
    params: seq<MessageParameter>,
    result: Option<MessageParameter>)

  /** `IpcMessage`: a mutable message object. */
  class IpcMessage {
    var id: string
    var name: Option<string>
    var params: seq<MessageParameter>
    var result: Option<MessageParameter>

    /** The message's current contents, standing for the JSON text the serializer writes. */
    function Snapshot(): (e: Envelope)
      reads this
    {
      Envelope(id, name, params, result)
    }

    /** `new IpcMessage()`: the empty GUID, no name, no parameters, no result. */
    constructor ()
      ensures id == ZeroGuid && name == None && params == [] && result == None
    {
      id := ZeroGuid;
      name := None;
      params := [];
      result := None;
    }

    /** `new IpcMessage(name)`: as above, with the name set. */
    constructor Named(name: string)
      ensures id == ZeroGuid && this.name == Some(name) && params == [] && result == None
    {
      id := ZeroGuid;
      this.name := Some(name);
      params := [];
      result := None;
    }

    /** The object the JSON serializer builds when it deserializes an envelope. */
    constructor Decoded(e: Envelope)
      ensures Snapshot() == e
    {
      id := e.id;
      name := e.name;
      params := e.params;
      result := e.result;
    }

    /** `SetParameters`: append one packed parameter per value, in order, keeping the earlier ones. */
    method SetParameters(rt: Runtime, vs: seq<Value>)
      modifies this`params
      ensures |params| == |old(params)| + |vs|
      ensures params[..|old(params)|] == old(params)
      ensures forall i :: 0 <= i < |vs| ==>
                params[|old(params)| + i] == MessageParameter(Some(rt.serialize(vs[i])), Some(TypeOf(vs[i]).fullName))
      ensures params == old(params) + PackAll(rt, vs)
    {
      var i := 0;
      while i < |vs|
        invariant 0 <= i <= |vs|
        invariant params == old(params) + PackAll(rt, vs[..i])
      {
        assert vs[..i + 1] == vs[..i] + [vs[i]];
        PackAllAppend(rt, vs[..i], vs[i]);
        params := params + [FromObject(rt, vs[i])];
        i := i + 1;
      }
      assert vs[..i] == vs;
    }

    /** `GetParameters`: decode every parameter in order; any failure is the call's failure. */
    method GetParameters(rt: Runtime) returns (r: Result<seq<Value>>)
      ensures r == DecodeAll(rt, params)
    {
      var values: seq<Value> := [];
      var i := 0;
      while i < |params|
        invariant 0 <= i <= |params|
        invariant |values| == i
        invariant forall k :: 0 <= k < i ==> ToValue(rt, params[k]) == Ok(values[k])
      {
        var v := ToValue(rt, params[i]);
        if v.Err? {
          assert DecodesUpTo(rt, params, i);
          return Err(v.error);
        }
        values := values + [v.value];
        i := i + 1;
      }
      assert DecodesUpTo(rt, params, |params|);
      assert DecodeAll(rt, params).value == values;
      r := Ok(values);
    }
  }

  lemma PackAllAppend(rt: Runtime, vs: seq<Value>, v: Value)
    ensures PackAll(rt, vs + [v]) == PackAll(rt, vs) + [FromObject(rt, v)]
  {
  }
}
