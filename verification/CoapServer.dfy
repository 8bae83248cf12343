/**
 The resources of the CoAP server and the translation of a request on one of them
 (main/CoapServer.cpp, and GenerateCoapResource of main/main.cpp).
 */
module CoapServer {
  import opened Common
  import opened Strings
  import opened Decimal
  import opened Uris
  import opened BiMaps
  import opened Bindings

  // ----- Registering resources -----

  datatype PutHandler = AttributePut | CommandPut

  /** The request handlers of a resource. */
  datatype Handlers = Handlers(attributeGet: bool, put: Option<PutHandler>)

  datatype Method = Get | Put

  datatype ResourceDefinition = ResourceDefinition(id: int32, valueType: string, operations: string)

  datatype ObjectDefinition = ObjectDefinition(id: int32, resources: seq<ResourceDefinition>)

  predicate IsAttribute(r: ResourceDefinition) {
    'R' in r.operations || 'W' in r.operations
  }

  predicate IsCommand(r: ResourceDefinition) {
    'E' in r.operations
  }

  /** The handlers a resource ends up with when its definition is the last to register its URI. */
  function HandlersFor(r: ResourceDefinition): Handlers {
    if IsCommand(r) then Handlers(false, Some(CommandPut))
    else Handlers('R' in r.operations, if 'W' in r.operations then Some(AttributePut) else None)
  }

  predicate Registers(r: ResourceDefinition, commands: bool) {
    IsAttribute(r) || (commands && IsCommand(r))
  }

  /** The last definition to register the URI, as an attribute or, if asked for, as a command. */
  function LastDefining(obj: int32, rs: seq<ResourceDefinition>, uri: string, commands: bool)
    : (r: Option<ResourceDefinition>)
    ensures r.Some? ==> r.value in rs && Uri(obj, r.value.id) == uri && Registers(r.value, commands)
    ensures r.None? ==> forall q :: q in rs && Registers(q, commands) ==> Uri(obj, q.id) != uri
  {
    if rs == [] then None
    else
      var r := rs[|rs| - 1];
      assert forall q :: q in rs ==> q == r || q in rs[..|rs| - 1];
      if Uri(obj, r.id) == uri && Registers(r, commands) then Some(r)
      else LastDefining(obj, rs[..|rs| - 1], uri, commands)
  }

  /** A definition that registers the URI, and after which none does, is the one that counts. */
  lemma {:induction false} LastDefiningIsLast(obj: int32, rs: seq<ResourceDefinition>, uri: string, commands: bool,
                                              i: nat)
    requires i < |rs| && Uri(obj, rs[i].id) == uri && Registers(rs[i], commands)
    requires forall j :: i < j < |rs| ==> !(Uri(obj, rs[j].id) == uri && Registers(rs[j], commands))
    ensures LastDefining(obj, rs, uri, commands) == Some(rs[i])
  {
    LastDefiningStep(obj, rs, uri, commands);
    if i < |rs| - 1 {
      LastDefiningIsLast(obj, rs[..|rs| - 1], uri, commands, i);
    }
  }

  lemma LastDefiningStep(obj: int32, rs: seq<ResourceDefinition>, uri: string, commands: bool)
    requires rs != []
    ensures var r := rs[|rs| - 1];
            LastDefining(obj, rs, uri, commands) ==
            if Uri(obj, r.id) == uri && Registers(r, commands) then Some(r)
            else LastDefining(obj, rs[..|rs| - 1], uri, commands)
  {
  }

  function LastRegistering(obj: int32, rs: seq<ResourceDefinition>, uri: string): Option<ResourceDefinition> {
    LastDefining(obj, rs, uri, true)
  }

  function LastAttribute(obj: int32, rs: seq<ResourceDefinition>, uri: string): Option<ResourceDefinition> {
    LastDefining(obj, rs, uri, false)
  }

  /** The entry of a table for a key. */
  function Lookup<K, V>(m: map<K, V>, k: K): Option<V> {
    if k in m then Some(m[k]) else None
  }

  /** What a path resolves to after an object has been registered over the given resources. */
  function HandlersAt(def: ObjectDefinition, uri: string, before: map<string, Handlers>): Option<Handlers> {
    var r := LastRegistering(def.id, def.resources, uri);
    if r.Some? then Some(HandlersFor(r.value)) else Lookup(before, uri)
  }

  function TypeAt(def: ObjectDefinition, uri: string, before: map<string, string>): Option<string> {
    var r := LastAttribute(def.id, def.resources, uri);
    if r.Some? then Some(r.value.valueType) else Lookup(before, uri)
  }

  // ----- What the registered resources offer -----

  predicate DistinctIds(rs: seq<ResourceDefinition>) {
    forall j, k :: 0 <= j < k < |rs| ==> rs[j].id != rs[k].id
  }

  /** The operations a definition declares are the ones the path offers. */
  predicate OffersDeclared(r: ResourceDefinition, h: Option<Handlers>) {
    && ((h.Some? && h.value.attributeGet) <==> 'R' in r.operations)
    && ((h.Some? && h.value.put == Some(AttributePut)) <==> 'W' in r.operations)
    && ((h.Some? && h.value.put == Some(CommandPut)) <==> 'E' in r.operations)
  }

  lemma LastIsOnly(obj: int32, rs: seq<ResourceDefinition>, k: nat, commands: bool)
    requires k < |rs| && DistinctIds(rs)
    ensures LastDefining(obj, rs, Uri(obj, rs[k].id), commands) ==
            if Registers(rs[k], commands) then Some(rs[k]) else None
  {
    var last := LastDefining(obj, rs, Uri(obj, rs[k].id), commands);
    if last.Some? {
      UriInjective(obj, last.value.id, obj, rs[k].id);
      var j :| 0 <= j < |rs| && rs[j] == last.value;
      assert j == k;
    } else {
      assert rs[k] in rs;
    }
  }

  /**
   In an object whose resource ids are distinct, a resource is offered with exactly its declared
   operations if and only if it does not combine execution with reading or writing: a combined one
   offers execution alone.
   */
  lemma DeclaredOperationsOffered(def: ObjectDefinition, k: nat)
    requires k < |def.resources| && DistinctIds(def.resources)
    ensures var r := def.resources[k];
            var h := HandlersAt(def, Uri(def.id, r.id), map[]);
            && (OffersDeclared(r, h) <==> !(IsCommand(r) && IsAttribute(r)))
            && (IsCommand(r) ==> h == Some(Handlers(false, Some(CommandPut))))
  {
    LastIsOnly(def.id, def.resources, k, true);
  }

  /** The type recorded for an attribute is the one its own definition declares. */
  lemma DeclaredTypeRecorded(def: ObjectDefinition, k: nat)
    requires k < |def.resources| && DistinctIds(def.resources)
    ensures var r := def.resources[k];
            TypeAt(def, Uri(def.id, r.id), map[]) == if IsAttribute(r) then Some(r.valueType) else None
  {
    LastIsOnly(def.id, def.resources, k, false);
  }

  lemma {:induction false} LastAttributeIsLast(obj: int32, rs: seq<ResourceDefinition>, uri: string)
    ensures var r := LastRegistering(obj, rs, uri);
            r.Some? && !IsCommand(r.value) ==> LastAttribute(obj, rs, uri) == r
  {
    if rs != [] {
      LastAttributeIsLast(obj, rs[..|rs| - 1], uri);
    }
  }

  predicate HasAttributeHandler(h: Option<Handlers>) {
    h.Some? && (h.value.attributeGet || h.value.put == Some(AttributePut))
  }

  predicate HasCommandHandler(h: Option<Handlers>) {
    h.Some? && h.value.put == Some(CommandPut)
  }

  /**
   Whatever the object, repeated ids included, a request an attribute handler can receive finds its
   type, the type of the very definition that installed the handler, and gives that definition's ids back.
   */
  lemma AttributeRequestsResolve(def: ObjectDefinition, uri: string)
    requires HasAttributeHandler(HandlersAt(def, uri, map[]))
    ensures var r := LastRegistering(def.id, def.resources, uri);
            && r.Some? && r.value in def.resources && HandlersAt(def, uri, map[]) == Some(HandlersFor(r.value))
            && TypeAt(def, uri, map[]) == Some(r.value.valueType) && ParseIds(uri) == Ok((def.id, r.value.id))
  {
    LastAttributeIsLast(def.id, def.resources, uri);
    ParseOfUri(def.id, LastRegistering(def.id, def.resources, uri).value.id);
  }

  /** The same for a request a command handler can receive, which needs no type. */
  lemma CommandRequestsResolve(def: ObjectDefinition, uri: string)
    requires HasCommandHandler(HandlersAt(def, uri, map[]))
    ensures var r := LastRegistering(def.id, def.resources, uri);
            && r.Some? && r.value in def.resources && HandlersAt(def, uri, map[]) == Some(HandlersFor(r.value))
            && IsCommand(r.value) && ParseIds(uri) == Ok((def.id, r.value.id))
  {
    ParseOfUri(def.id, LastRegistering(def.id, def.resources, uri).value.id);
  }

  // ----- Forwarding requests -----

  /** The variant a declared type is transferred as; only "Boolean" is a bool, and every unknown type is a uint16_t. */
  function KindOf(valueType: string): Kind {
    if valueType == "Boolean" then Boolean else Word
  }

  /** The bytes of a payload or a buffer, reinterpreted as either C++ type. */
  datatype Raw = Raw(flag: bool, word: uint16)

  /** The data of a work item: reinterpreted bytes for the two known types, a default uint16_t for all others. */
  function DataOf(valueType: string, raw: Raw): Value {
    if valueType == "Boolean" then Flag(raw.flag)
    else if valueType == "Unsigned Integer" then U16(raw.word)
    else U16(0)
  }

  /** The work item for a request on an attribute, or the exception the handler leaves through. */
  function AttributeCommand(types: map<string, string>, mapping: MatterIpsoMapping, uri: string, write: bool, raw: Raw)
    : Result<BindingCommandData>
    requires mapping.Valid()
    reads mapping.Repr
  {
    var ids :- ParseIds(uri);
    if uri !in types then Err(OutOfRange) else Ok(AttributeItem(types[uri], mapping, ids, write, raw))
  }

  /** The work item once the path has been read. */
  function AttributeItem(valueType: string, mapping: MatterIpsoMapping, ids: (int32, int32), write: bool, raw: Raw)
    : BindingCommandData
    requires mapping.Valid()
    reads mapping.Repr
  {
    BindingCommandData(ToUint32(mapping.clusterObject.GetMatterId(ids.0)),
                       ToUint32(mapping.attributeResource.GetMatterId(ids.1)),
                       0, DataOf(valueType, raw), !write, write, false)
  }

  /** The work item for a request on a command. */
  function CommandCommand(mapping: MatterIpsoMapping, uri: string): Result<BindingCommandData>
    requires mapping.Valid()
    reads mapping.Repr
  {
    var ids :- ParseIds(uri);
    Ok(BindingCommandData(ToUint32(mapping.clusterObject.GetMatterId(ids.0)), 0,
                          ToUint32(mapping.commandResource.GetMatterId(ids.1)), U16(0), false, false, false))
  }

  /**
   What a request on a resource of the given type, whose ids translate to the cluster and the attribute,
   sends on to them.
   */
  ghost predicate SendsOn(i: Interaction, cluster: uint32, attribute: uint32, valueType: string, write: bool,
                          raw: Raw)
  {
    && (write && valueType == "Boolean" ==> i == Write(cluster, attribute, Flag(raw.flag)))
    && (write && valueType == "Unsigned Integer" ==> i == Write(cluster, attribute, U16(raw.word)))
    && (write && valueType != "Boolean" && valueType != "Unsigned Integer" ==> i == Write(cluster, attribute, U16(0)))
    && (!write && valueType == "Boolean" ==> i == Read(cluster, attribute, Boolean))
    && (!write && valueType != "Boolean" ==> i == Read(cluster, attribute, Word))
  }

  /** What a request on an attribute sends over a binding, or the exception. */
  function Sent(types: map<string, string>, mapping: MatterIpsoMapping, uri: string, write: bool, raw: Raw,
                binding: Binding): Result<Interaction>
    requires mapping.Valid()
    reads mapping.Repr
  {
    var data :- AttributeCommand(types, mapping, uri, write, raw);
    Ok(Dispatch(data, binding))
  }

  /** The types recorded when the object is registered on a fresh server. */
  ghost predicate TypesOf(types: map<string, string>, def: ObjectDefinition) {
    forall uri :: Lookup(types, uri) == TypeAt(def, uri, map[])
  }

  /** With an object registered, what an attribute handler sends depends on the definition that installed it. */
  lemma RegisteredSends(types: map<string, string>, mapping: MatterIpsoMapping, def: ObjectDefinition, uri: string,
                        write: bool, raw: Raw, binding: Binding)
    requires mapping.Valid() && TypesOf(types, def) && HasAttributeHandler(HandlersAt(def, uri, map[]))
    ensures var r := LastRegistering(def.id, def.resources, uri);
            r.Some? && Sent(types, mapping, uri, write, raw, binding) ==
            Ok(Dispatch(AttributeItem(r.value.valueType, mapping, (def.id, r.value.id), write, raw), binding))
  {
    AttributeRequestsResolve(def, uri);
    assert Lookup(types, uri) == TypeAt(def, uri, map[]);
  }

  /**
   What a PUT on a registered path writes: a "Boolean" takes the payload as a bool, an "Unsigned Integer"
   as a uint16_t, and any other type writes 0 whatever the payload.
   */
  lemma RegisteredWrites(types: map<string, string>, mapping: MatterIpsoMapping, def: ObjectDefinition, uri: string,
                         raw: Raw, binding: Binding)
    requires mapping.Valid() && TypesOf(types, def) && HasAttributeHandler(HandlersAt(def, uri, map[]))
    ensures var r := LastRegistering(def.id, def.resources, uri);
            && r.Some?
            && var cluster := ToUint32(mapping.clusterObject.GetMatterId(def.id));
            && var attribute := ToUint32(mapping.attributeResource.GetMatterId(r.value.id));
            && var sent := Sent(types, mapping, uri, true, raw, binding);
            && (r.value.valueType == "Boolean" ==> sent == Ok(Write(cluster, attribute, Flag(raw.flag))))
            && (r.value.valueType == "Unsigned Integer" ==> sent == Ok(Write(cluster, attribute, U16(raw.word))))
            && (r.value.valueType != "Boolean" && r.value.valueType != "Unsigned Integer" ==>
                  sent == Ok(Write(cluster, attribute, U16(0))))
  {
    RegisteredSends(types, mapping, def, uri, true, raw, binding);
  }

  /**
   What a PUT on a registered path sends to the Matter device does not depend on its payload exactly
   when the definition that installed the handler has neither of the two known types.
   */
  lemma PayloadLostIff(types: map<string, string>, mapping: MatterIpsoMapping, def: ObjectDefinition, uri: string,
                       binding: Binding)
    requires mapping.Valid() && TypesOf(types, def) && HasAttributeHandler(HandlersAt(def, uri, map[]))
    ensures var r := LastRegistering(def.id, def.resources, uri);
            && r.Some?
            && ((forall raw, raw' ::
                   Sent(types, mapping, uri, true, raw, binding) == Sent(types, mapping, uri, true, raw', binding))
                <==> r.value.valueType != "Boolean" && r.value.valueType != "Unsigned Integer")
  {
    forall raw ensures var r := LastRegistering(def.id, def.resources, uri);
                       r.Some? && Sent(types, mapping, uri, true, raw, binding) ==
                       Ok(Dispatch(AttributeItem(r.value.valueType, mapping, (def.id, r.value.id), true, raw), binding))
    {
      RegisteredSends(types, mapping, def, uri, true, raw, binding);
    }
    var a := Sent(types, mapping, uri, true, Raw(false, 0), binding);
    var b := Sent(types, mapping, uri, true, Raw(true, 1), binding);
    assert a.Ok? && a.value.Write? && b.Ok? && b.value.Write?;
  }

  /** For all ids a path may stand for: what is invoked, and that nothing else is sent. */
  lemma CommandInvokesIff(mapping: MatterIpsoMapping, uri: string, binding: Binding, c: uint32)
    requires mapping.Valid() && ParseIds(uri).Ok?
    ensures var r := CommandCommand(mapping, uri);
            && r.Ok?
            && (Dispatch(r.value, binding) == Invoke(c)
                <==> binding == Unicast && (c == 0 || c == 1 || c == 2)
                     && ToUint32(mapping.clusterObject.GetMatterId(ParseIds(uri).value.0)) == 6
                     && ToUint32(mapping.commandResource.GetMatterId(ParseIds(uri).value.1)) == c)
            && (Dispatch(r.value, binding).Invoke? || Dispatch(r.value, binding) == Nothing)
  {
  }

  // ----- The server -----

  /** One more definition matters to its own path only, and only if it registers it. */
  lemma HandlersAtSnoc(obj: int32, rs: seq<ResourceDefinition>, r: ResourceDefinition, uri: string,
                       before: map<string, Handlers>)
    ensures HandlersAt(ObjectDefinition(obj, rs + [r]), uri, before) ==
            if Uri(obj, r.id) == uri && (IsAttribute(r) || IsCommand(r)) then Some(HandlersFor(r))
            else HandlersAt(ObjectDefinition(obj, rs), uri, before)
  {
    assert (rs + [r])[..|rs + [r]| - 1] == rs;
  }

  lemma TypeAtSnoc(obj: int32, rs: seq<ResourceDefinition>, r: ResourceDefinition, uri: string,
                   before: map<string, string>)
    ensures TypeAt(ObjectDefinition(obj, rs + [r]), uri, before) ==
            if Uri(obj, r.id) == uri && IsAttribute(r) then Some(r.valueType)
            else TypeAt(ObjectDefinition(obj, rs), uri, before)
  {
    assert (rs + [r])[..|rs + [r]| - 1] == rs;
  }

  class Server {
    var typeMap: map<string, string>
    // libcoap keeps one resource a path: adding a second one deletes the first
    var resources: map<string, Handlers>

    constructor ()
      ensures typeMap == map[] && resources == map[]
    {
      typeMap := map[];
      resources := map[];
    }

    method RegisterAttributeRWResource(uri: string, valueType: string)
      modifies this
      ensures typeMap == old(typeMap)[uri := valueType]
      ensures resources == old(resources)[uri := Handlers(true, Some(AttributePut))]
    {
      typeMap := typeMap[uri := valueType];
      resources := resources[uri := Handlers(true, Some(AttributePut))];
    }

    method RegisterAttributeResource(uri: string, verb: Method, valueType: string)
      modifies this
      ensures typeMap == old(typeMap)[uri := valueType]
      ensures verb == Get ==> resources == old(resources)[uri := Handlers(true, None)]
      ensures verb == Put ==> resources == old(resources)[uri := Handlers(false, Some(AttributePut))]
    {
      typeMap := typeMap[uri := valueType];
      var handlers := Handlers(false, None);
      if verb == Get {
        handlers := handlers.(attributeGet := true);
      } else if verb == Put {
        handlers := handlers.(put := Some(AttributePut));
      }
      resources := resources[uri := handlers];
    }

    method RegisterCommandResource(uri: string)
      modifies this
      ensures typeMap == old(typeMap)
      ensures resources == old(resources)[uri := Handlers(false, Some(CommandPut))]
    {
      resources := resources[uri := Handlers(false, Some(CommandPut))];
    }

    /** One turn of the loop of GenerateCoapResource: a later registration of a path replaces an earlier one. */
    method RegisterResource(obj: int32, r: ResourceDefinition)
      modifies this
      ensures resources == if IsAttribute(r) || IsCommand(r) then old(resources)[Uri(obj, r.id) := HandlersFor(r)]
                           else old(resources)
      ensures typeMap == if IsAttribute(r) then old(typeMap)[Uri(obj, r.id) := r.valueType] else old(typeMap)
    {
      var uri := Uri(obj, r.id);
      if 'R' in r.operations {
        if 'W' in r.operations {
          RegisterAttributeRWResource(uri, r.valueType);
        } else {
          RegisterAttributeResource(uri, Get, r.valueType);
        }
      } else if 'W' in r.operations {
        RegisterAttributeResource(uri, Put, r.valueType);
      }
      if 'E' in r.operations {
        RegisterCommandResource(uri);
      }
    }

    /**
     Afterwards every path has the handlers of the last definition that registered it, and every
     attribute path the type of the last definition that declared it readable or writable; paths the
     object does not define are as before.
     */
    method GenerateCoapResource(def: ObjectDefinition)
      modifies this
      ensures forall uri :: Lookup(resources, uri) == HandlersAt(def, uri, old(resources))
      ensures forall uri :: Lookup(typeMap, uri) == TypeAt(def, uri, old(typeMap))
    {
      var rs := def.resources;
      for i := 0 to |rs|
        invariant forall uri ::
                    Lookup(resources, uri) == HandlersAt(ObjectDefinition(def.id, rs[..i]), uri, old(resources))
        invariant forall uri :: Lookup(typeMap, uri) == TypeAt(ObjectDefinition(def.id, rs[..i]), uri, old(typeMap))
      {
        assert rs[..i + 1] == rs[..i] + [rs[i]];
        RegisterResource(def.id, rs[i]);
        forall uri
          ensures Lookup(resources, uri) == HandlersAt(ObjectDefinition(def.id, rs[..i + 1]), uri, old(resources))
        {
          HandlersAtSnoc(def.id, rs[..i], rs[i], uri, old(resources));
        }
        forall uri ensures Lookup(typeMap, uri) == TypeAt(ObjectDefinition(def.id, rs[..i + 1]), uri, old(typeMap)) {
          TypeAtSnoc(def.id, rs[..i], rs[i], uri, old(typeMap));
        }
      }
      assert ObjectDefinition(def.id, rs[..|rs|]) == def;
    }

    /** The common start of the three forwarding functions: the ids written in the path. */
    static method RequestIds(uri: string) returns (r: Result<(int32, int32)>)
      ensures r == ParseIds(uri)
    {
      var splitString := SplitString(uri, '/');
      var objectId :- Stoi(splitString[0]);
      if |splitString| <= 2 {
        return Err(OutOfRange);
      }
      var resourceId :- Stoi(splitString[2]);
      return Ok((objectId, resourceId));
    }

    /** The work item ForwardAttributeWriteMessage schedules. */
    method ForwardAttributeWriteMessage(uri: string, mapping: MatterIpsoMapping, payload: Raw)
      returns (r: Result<BindingCommandData>)
      requires mapping.Valid()
      ensures r == AttributeCommand(typeMap, mapping, uri, true, payload)
      ensures r.Ok? <==> ParseIds(uri).Ok? && uri in typeMap
      ensures r.Ok? ==> forall binding ::
                var ids := ParseIds(uri).value;
                var cluster := ToUint32(mapping.clusterObject.GetMatterId(ids.0));
                var attribute := ToUint32(mapping.attributeResource.GetMatterId(ids.1));
                Dispatch(r.value, binding) == Write(cluster, attribute,
                                                    if typeMap[uri] == "Boolean" then Flag(payload.flag)
                                                    else if typeMap[uri] == "Unsigned Integer" then U16(payload.word)
                                                    else U16(0))
    {
      var ids :- RequestIds(uri);
      var clusterId := mapping.clusterObject.GetMatterId(ids.0);
      var attributeId := mapping.attributeResource.GetMatterId(ids.1);
      var data := NO_COMMAND.(attributeId := ToUint32(attributeId), clusterId := ToUint32(clusterId),
                              writeAttribute := true);
      if uri !in typeMap {
        return Err(OutOfRange);
      }
      if typeMap[uri] == "Boolean" {
        data := data.(data := Flag(payload.flag));
      } else if typeMap[uri] == "Unsigned Integer" {
        data := data.(data := U16(payload.word));
      }
      return Ok(data);
    }

    /** The work item ForwardAttributeReadMessage schedules before it waits. */
    method ScheduleAttributeRead(uri: string, mapping: MatterIpsoMapping, buffer: Raw)
      returns (r: Result<BindingCommandData>)
      requires mapping.Valid()
      ensures r == AttributeCommand(typeMap, mapping, uri, false, buffer)
      ensures r.Ok? <==> ParseIds(uri).Ok? && uri in typeMap
      ensures r.Ok? ==> r.value.data.Kind() == KindOf(typeMap[uri]) && forall binding ::
                var ids := ParseIds(uri).value;
                Dispatch(r.value, binding) == Read(ToUint32(mapping.clusterObject.GetMatterId(ids.0)),
                                                   ToUint32(mapping.attributeResource.GetMatterId(ids.1)),
                                                   if typeMap[uri] == "Boolean" then Boolean else Word)
    {
      var ids :- RequestIds(uri);
      var clusterId := mapping.clusterObject.GetMatterId(ids.0);
      var attributeId := mapping.attributeResource.GetMatterId(ids.1);
      var data := NO_COMMAND.(attributeId := ToUint32(attributeId), clusterId := ToUint32(clusterId),
                              readAttribute := true);
      if uri !in typeMap {
        return Err(OutOfRange);
      }
      if typeMap[uri] == "Boolean" {
        data := data.(data := Flag(buffer.flag));
      } else if typeMap[uri] == "Unsigned Integer" {
        data := data.(data := U16(buffer.word));
      }
      return Ok(data);
    }

    /** The work item ForwardCommandMessage schedules. */
    method ForwardCommandMessage(uri: string, mapping: MatterIpsoMapping) returns (r: Result<BindingCommandData>)
      requires mapping.Valid()
      ensures r == CommandCommand(mapping, uri)
      ensures r.Ok? <==> ParseIds(uri).Ok?
      ensures r.Ok? ==>
                var cluster := ToUint32(mapping.clusterObject.GetMatterId(ParseIds(uri).value.0));
                var command := ToUint32(mapping.commandResource.GetMatterId(ParseIds(uri).value.1));
                && Dispatch(r.value, Multicast) == Nothing
                && Dispatch(r.value, Unicast) ==
                   if cluster == 6 && (command == 0 || command == 1 || command == 2) then Invoke(command)
                   else Nothing
    {
      var ids :- RequestIds(uri);
      var clusterId := mapping.clusterObject.GetMatterId(ids.0);
      var commandId := mapping.commandResource.GetMatterId(ids.1);
      return Ok(NO_COMMAND.(commandId := ToUint32(commandId), clusterId := ToUint32(clusterId)));
    }
  }
}
