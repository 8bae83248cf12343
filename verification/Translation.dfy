/**
 A Matter interaction carried over CoAP and back: the target built in main/main.cpp, read by the
 handlers of main/CoapServer.cpp and dispatched by main/BindingHandler.cpp.
 */
module Translation {
  import opened Common
  import opened Strings
  import opened Decimal
  import opened Uris
  import opened Matching
  import opened BiMaps
  import opened Bindings
  import opened CoapServer

  /** The target of an attribute read or write. */
  function AttributeTarget(m: MatterIpsoMapping, cluster: uint32, attribute: uint32): string
    requires m.Valid()
    reads m.Repr
  {
    Target(m.clusterObject.GetIpsoId(ToInt32(cluster)), m.attributeResource.GetIpsoId(ToInt32(attribute)))
  }

  /** The target of a command. */
  function CommandTarget(m: MatterIpsoMapping, cluster: uint32, command: uint32): string
    requires m.Valid()
    reads m.Repr
  {
    Target(m.clusterObject.GetIpsoId(ToInt32(cluster)), m.commandResource.GetIpsoId(ToInt32(command)))
  }

  lemma TargetText(o: string, r: string)
    ensures "coap://" + AUTHORITY + "/" + o + "/0/" + r == Address(AUTHORITY, o + "/0/" + r)
  {
    Regroup("coap://" + AUTHORITY + "/", o, "/0/", r);
  }

  lemma Regroup(a: string, b: string, c: string, d: string)
    ensures a + b + c + d == a + (b + c + d)
  {
  }

  method BuildAttributeTarget(m: MatterIpsoMapping, clusterId: uint32, attributeId: uint32) returns (target: string)
    requires m.Valid()
    ensures target == AttributeTarget(m, clusterId, attributeId)
    ensures ParseIds(PathOf(target)) == Ok((m.clusterObject.GetIpsoId(ToInt32(clusterId)),
                                            m.attributeResource.GetIpsoId(ToInt32(attributeId))))
  {
    var ipsoObjectId := m.clusterObject.GetIpsoId(ToInt32(clusterId));
    var ipsoResourceId := m.attributeResource.GetIpsoId(ToInt32(attributeId));
    target := "coap://" + AUTHORITY + "/";
    target := target + ToString(ipsoObjectId);
    target := target + "/0/";
    target := target + ToString(ipsoResourceId);
    TargetText(ToString(ipsoObjectId), ToString(ipsoResourceId));
    TargetIdsReturn(ipsoObjectId, ipsoResourceId);
  }

  method BuildCommandTarget(m: MatterIpsoMapping, clusterId: uint32, commandId: uint32) returns (target: string)
    requires m.Valid()
    ensures target == CommandTarget(m, clusterId, commandId)
    ensures ParseIds(PathOf(target)) == Ok((m.clusterObject.GetIpsoId(ToInt32(clusterId)),
                                            m.commandResource.GetIpsoId(ToInt32(commandId))))
  {
    var ipsoObjectId := m.clusterObject.GetIpsoId(ToInt32(clusterId));
    var ipsoResourceId := m.commandResource.GetIpsoId(ToInt32(commandId));
    target := "coap://" + AUTHORITY + "/";
    target := target + ToString(ipsoObjectId);
    target := target + "/0/";
    target := target + ToString(ipsoResourceId);
    TargetText(ToString(ipsoObjectId), ToString(ipsoResourceId));
    TargetIdsReturn(ipsoObjectId, ipsoResourceId);
  }

  /** The table has a pair for the Matter id. */
  ghost predicate Mapped(t: BiMap, id: uint32)
    reads t
  {
    ToInt32(id) in Lefts(t.Pairs())
  }

  /**
   The Matter id, as the receiving side sees it, that an id becomes when translated by one table and
   back by another.
   */
  function ThereAndBack(there: BiMap, back: BiMap, id: uint32): uint32
    requires there.Valid() && back.Valid()
    reads there, back
  {
    ToUint32(back.GetMatterId(there.GetIpsoId(ToInt32(id))))
  }

  lemma MappedIdReturns(there: BiMap, back: BiMap, id: uint32)
    requires there.Valid() && back.Valid() && there.Pairs() == back.Pairs() && Mapped(there, id)
    ensures ThereAndBack(there, back, id) == id
  {
    var p :| p in there.Pairs() && p.0 == ToInt32(id);
    assert (ToInt32(id), p.1) in there.Pairs();
  }

  /**
   An id the table does not have arrives as 2^32 - 1, the uint32_t of -1, exactly when no pair uses
   -1 as LwM2M id, or the one that does pairs it with -1.
   */
  lemma UnmappedIdIsMinusOne(there: BiMap, back: BiMap, id: uint32)
    requires there.Valid() && back.Valid() && there.Pairs() == back.Pairs() && !Mapped(there, id)
    ensures ThereAndBack(there, back, id) == 0xFFFF_FFFF <==> (forall p :: p in back.Pairs() && p.1 == -1 ==> p.0 == -1)
  {
    UnmappedGoesOut(there, ToInt32(id));
    MinusOneComesBack(back);
  }

  lemma UnmappedGoesOut(t: BiMap, id: int32)
    requires t.Valid() && id !in Lefts(t.Pairs())
    ensures t.GetIpsoId(id) == -1
  {
    assert forall p :: p in t.Pairs() ==> p.0 in Lefts(t.Pairs());
  }

  lemma MinusOneComesBack(t: BiMap)
    requires t.Valid()
    ensures t.GetMatterId(-1) == -1 <==> (forall p :: p in t.Pairs() && p.1 == -1 ==> p.0 == -1)
  {
    if p :| p in t.Pairs() && p.1 == -1 {
      assert (p.0, -1) in t.Pairs();
      assert t.GetMatterId(-1) == p.0;
      t.ValidIsMatching();
    }
  }

  /** Every path a target leads to is read by the handlers as the ids it was printed from. */
  lemma TargetIdsReturn(obj: int32, resource: int32)
    ensures PathOf(Target(obj, resource)) == Uri(obj, resource)
    ensures ParseIds(PathOf(Target(obj, resource))) == Ok((obj, resource))
  {
    PathOfTarget(obj, resource);
    ParseOfUri(obj, resource);
  }

  /**
   End to end, for a mapped cluster and attribute: the handler that receives the request sends the
   same read or write on, to the same cluster and attribute, over a binding of any type. The peer of
   the binding is assumed to be connected: the read and write branches of StateChangedHandler use it
   untested.
   */
  lemma AttributeRoundTrip(m: MatterIpsoMapping, c: MatterIpsoMapping, types: map<string, string>,
                           cluster: uint32, attribute: uint32, write: bool, raw: Raw, binding: Binding)
    requires m.Valid() && c.Valid()
    requires m.clusterObject.Pairs() == c.clusterObject.Pairs() && Mapped(m.clusterObject, cluster)
    requires m.attributeResource.Pairs() == c.attributeResource.Pairs() && Mapped(m.attributeResource, attribute)
    requires PathOf(AttributeTarget(m, cluster, attribute)) in types
    ensures var path := PathOf(AttributeTarget(m, cluster, attribute));
            var r := AttributeCommand(types, c, path, write, raw);
            && r.Ok?
            && SendsOn(Dispatch(r.value, binding), cluster, attribute, types[path], write, raw)
  {
    AttributeTargetIds(m, cluster, attribute);
    var path := PathOf(AttributeTarget(m, cluster, attribute));
    AttributeArrives(m, c, types[path], cluster, attribute, write, raw, binding);
  }

  lemma AttributeTargetIds(m: MatterIpsoMapping, cluster: uint32, attribute: uint32)
    requires m.Valid()
    ensures ParseIds(PathOf(AttributeTarget(m, cluster, attribute))) ==
            Ok((m.clusterObject.GetIpsoId(ToInt32(cluster)), m.attributeResource.GetIpsoId(ToInt32(attribute))))
  {
    TargetIdsReturn(m.clusterObject.GetIpsoId(ToInt32(cluster)), m.attributeResource.GetIpsoId(ToInt32(attribute)));
  }

  /** The receiving half, once the translated ids have been read from the path. */
  lemma AttributeArrives(m: MatterIpsoMapping, c: MatterIpsoMapping, valueType: string,
                         cluster: uint32, attribute: uint32, write: bool, raw: Raw, binding: Binding)
    requires m.Valid() && c.Valid()
    requires m.clusterObject.Pairs() == c.clusterObject.Pairs() && Mapped(m.clusterObject, cluster)
    requires m.attributeResource.Pairs() == c.attributeResource.Pairs() && Mapped(m.attributeResource, attribute)
    ensures var ids := (m.clusterObject.GetIpsoId(ToInt32(cluster)), m.attributeResource.GetIpsoId(ToInt32(attribute)));
            SendsOn(Dispatch(AttributeItem(valueType, c, ids, write, raw), binding),
                    cluster, attribute, valueType, write, raw)
  {
    MappedIdReturns(m.clusterObject, c.clusterObject, cluster);
    MappedIdReturns(m.attributeResource, c.attributeResource, attribute);
    var ids := (m.clusterObject.GetIpsoId(ToInt32(cluster)), m.attributeResource.GetIpsoId(ToInt32(attribute)));
    ItemSends(valueType, c, ids, write, raw, binding);
  }

  lemma ItemSends(valueType: string, c: MatterIpsoMapping, ids: (int32, int32), write: bool, raw: Raw, binding: Binding)
    requires c.Valid()
    ensures var cluster := ToUint32(c.clusterObject.GetMatterId(ids.0));
            var attribute := ToUint32(c.attributeResource.GetMatterId(ids.1));
            SendsOn(Dispatch(AttributeItem(valueType, c, ids, write, raw), binding),
                    cluster, attribute, valueType, write, raw)
  {
  }

  /**
   The same for a mapped cluster and command; but an interaction follows only for the commands Off,
   On and Toggle of the OnOff cluster, and only over a unicast binding.
   */
  lemma CommandRoundTrip(m: MatterIpsoMapping, c: MatterIpsoMapping, cluster: uint32, command: uint32, binding: Binding)
    requires m.Valid() && c.Valid()
    requires m.clusterObject.Pairs() == c.clusterObject.Pairs() && Mapped(m.clusterObject, cluster)
    requires m.commandResource.Pairs() == c.commandResource.Pairs() && Mapped(m.commandResource, command)
    ensures var r := CommandCommand(c, PathOf(CommandTarget(m, cluster, command)));
            && r.Ok? && r.value.clusterId == cluster && r.value.commandId == command
            && Dispatch(r.value, binding) ==
               if binding == Unicast && cluster == 6 && (command == 0 || command == 1 || command == 2)
               then Invoke(command) else Nothing
  {
    TargetIdsReturn(m.clusterObject.GetIpsoId(ToInt32(cluster)), m.commandResource.GetIpsoId(ToInt32(command)));
    MappedIdReturns(m.clusterObject, c.clusterObject, cluster);
    MappedIdReturns(m.commandResource, c.commandResource, command);
  }

  /**
   End to end with the resources of an object in place: a request that an installed attribute handler
   receives for a mapped cluster and attribute is sent on to them, as the type declared by the very
   definition that installed the handler.
   */
  lemma RegisteredAttributeRoundTrip(m: MatterIpsoMapping, c: MatterIpsoMapping, def: ObjectDefinition,
                                     types: map<string, string>, cluster: uint32, attribute: uint32,
                                     write: bool, raw: Raw, binding: Binding)
    requires m.Valid() && c.Valid() && TypesOf(types, def)
    requires m.clusterObject.Pairs() == c.clusterObject.Pairs() && Mapped(m.clusterObject, cluster)
    requires m.attributeResource.Pairs() == c.attributeResource.Pairs() && Mapped(m.attributeResource, attribute)
    requires HasAttributeHandler(HandlersAt(def, PathOf(AttributeTarget(m, cluster, attribute)), map[]))
    ensures var path := PathOf(AttributeTarget(m, cluster, attribute));
            var r := LastRegistering(def.id, def.resources, path);
            var sent := Sent(types, c, path, write, raw, binding);
            && r.Some?
            && sent.Ok? && SendsOn(sent.value, cluster, attribute, r.value.valueType, write, raw)
  {
    var path := PathOf(AttributeTarget(m, cluster, attribute));
    AttributeRequestsResolve(def, path);
    RegisteredSends(types, c, def, path, write, raw, binding);
    AttributeTargetIds(m, cluster, attribute);
    var r := LastRegistering(def.id, def.resources, path).value;
    AttributeArrives(m, c, r.valueType, cluster, attribute, write, raw, binding);
  }

  /** The section lists the entry, and the entry gives both of its ids. */
  ghost predicate Listed(e: Entry, es: seq<Entry>, section: string) {
    e in es && SectionName(e.key) == section && e.matterId.Some? && e.omaId.Some?
  }

  /** Two tables built from the same entries of a section, paired one to one, translate every listed id alike. */
  lemma ListedIsMapped(there: BiMap, back: BiMap, es: seq<Entry>, es': seq<Entry>, e: Entry, section: string)
    requires there.Valid() && there.Pairs() == Greedy(PairsOf(es, section))
    requires back.Valid() && back.Pairs() == Greedy(PairsOf(es', section))
    requires forall e :: e in es <==> e in es'
    requires Listed(e, es, section) && IsMatching(Elements(PairsOf(es, section)))
    ensures there.Pairs() == back.Pairs() && Mapped(there, ToUint32(e.matterId.value))
    ensures there.GetIpsoId(ToInt32(ToUint32(e.matterId.value))) == e.omaId.value
  {
    var p := (e.matterId.value, e.omaId.value);
    SectionOrderIrrelevant(es, es', section);
    PairsOfElements(es, section);
    assert p in PairsOf(es, section);
    assert p in there.Pairs();
    assert ToInt32(ToUint32(p.0)) == p.0;
  }

  /**
   From the sdf-mapping files to the dispatched interaction: when two files list the same entries, in
   any order and with any repetition, and their objects and properties are paired one to one, every
   listed cluster and attribute is addressed by its own LwM2M ids, and a request sent there comes back
   as a read or write of that cluster and attribute.
   */
  lemma ListedAttributeRoundTrip(m: MatterIpsoMapping, c: MatterIpsoMapping, es: seq<Entry>, es': seq<Entry>,
                                 obj: Entry, property: Entry, types: map<string, string>, write: bool, raw: Raw,
                                 binding: Binding)
    requires m.Holds(es) && c.Holds(es') && forall e :: e in es <==> e in es'
    requires IsMatching(Elements(PairsOf(es, "sdfObject"))) && Listed(obj, es, "sdfObject")
    requires IsMatching(Elements(PairsOf(es, "sdfProperty"))) && Listed(property, es, "sdfProperty")
    requires Uri(obj.omaId.value, property.omaId.value) in types
    ensures AttributeTarget(m, ToUint32(obj.matterId.value), ToUint32(property.matterId.value))
         == Target(obj.omaId.value, property.omaId.value)
    ensures var path := Uri(obj.omaId.value, property.omaId.value);
            var cluster, attribute := ToUint32(obj.matterId.value), ToUint32(property.matterId.value);
            var sent := Sent(types, c, path, write, raw, binding);
            sent.Ok? && SendsOn(sent.value, cluster, attribute, types[path], write, raw)
  {
    ListedIsMapped(m.clusterObject, c.clusterObject, es, es', obj, "sdfObject");
    ListedIsMapped(m.attributeResource, c.attributeResource, es, es', property, "sdfProperty");
    var path := Uri(obj.omaId.value, property.omaId.value);
    ParseOfUri(obj.omaId.value, property.omaId.value);
    var cluster, attribute := ToUint32(obj.matterId.value), ToUint32(property.matterId.value);
    AttributeArrives(m, c, types[path], cluster, attribute, write, raw, binding);
  }

  /** The same for a listed cluster and command. */
  lemma ListedCommandRoundTrip(m: MatterIpsoMapping, c: MatterIpsoMapping, es: seq<Entry>, es': seq<Entry>,
                               obj: Entry, action: Entry, binding: Binding)
    requires m.Holds(es) && c.Holds(es') && forall e :: e in es <==> e in es'
    requires IsMatching(Elements(PairsOf(es, "sdfObject"))) && Listed(obj, es, "sdfObject")
    requires IsMatching(Elements(PairsOf(es, "sdfAction"))) && Listed(action, es, "sdfAction")
    ensures CommandTarget(m, ToUint32(obj.matterId.value), ToUint32(action.matterId.value))
         == Target(obj.omaId.value, action.omaId.value)
    ensures var cluster, command := ToUint32(obj.matterId.value), ToUint32(action.matterId.value);
            var r := CommandCommand(c, Uri(obj.omaId.value, action.omaId.value));
            && r.Ok? && r.value.clusterId == cluster && r.value.commandId == command
            && Dispatch(r.value, binding) ==
               if binding == Unicast && cluster == 6 && (command == 0 || command == 1 || command == 2)
               then Invoke(command) else Nothing
  {
    ListedIsMapped(m.clusterObject, c.clusterObject, es, es', obj, "sdfObject");
    ListedIsMapped(m.commandResource, c.commandResource, es, es', action, "sdfAction");
    MappedIdReturns(m.clusterObject, c.clusterObject, ToUint32(obj.matterId.value));
    MappedIdReturns(m.commandResource, c.commandResource, ToUint32(action.matterId.value));
    ParseOfUri(obj.omaId.value, action.omaId.value);
  }

  /** From the entries to the light: a listed OnOff cluster and a listed Toggle arrive as that command. */
  lemma ListedToggleArrives(m: MatterIpsoMapping, c: MatterIpsoMapping, es: seq<Entry>, es': seq<Entry>,
                            obj: Entry, action: Entry)
    requires m.Holds(es) && c.Holds(es') && forall e :: e in es <==> e in es'
    requires IsMatching(Elements(PairsOf(es, "sdfObject"))) && Listed(obj, es, "sdfObject")
    requires IsMatching(Elements(PairsOf(es, "sdfAction"))) && Listed(action, es, "sdfAction")
    requires obj.matterId == Some(6) && action.matterId == Some(2)
    ensures var r := CommandCommand(c, PathOf(CommandTarget(m, 6, 2)));
            r.Ok? && Dispatch(r.value, Unicast) == Invoke(2) && Dispatch(r.value, Multicast) == Nothing
  {
    ListedCommandRoundTrip(m, c, es, es', obj, action, Unicast);
    ListedCommandRoundTrip(m, c, es, es', obj, action, Multicast);
    PathOfTarget(obj.omaId.value, action.omaId.value);
  }
}
