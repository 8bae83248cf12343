/** The id tables of main/include/BridgeUtils.h and their construction in main/main.cpp. */
module BiMaps {
  import opened Common
  import opened Strings
  import opened Matching

  class BiMap {
    var leftMap: map<int32, int32>
    var rightMap: map<int32, int32>

    /** The two maps are exact inverses of each other. */
    ghost predicate Valid()
      reads this
    {
      && (forall m :: m in leftMap ==> leftMap[m] in rightMap && rightMap[leftMap[m]] == m)
      && (forall i :: i in rightMap ==> rightMap[i] in leftMap && leftMap[rightMap[i]] == i)
    }

    /** The pairs the table holds. */
    ghost function Pairs(): (ps: set<Pair>)
      reads this
      ensures forall p :: p in ps <==> p.0 in leftMap && leftMap[p.0] == p.1
    {
      set m | m in leftMap :: (m, leftMap[m])
    }

    constructor ()
      ensures Valid() && Pairs() == {}
    {
      leftMap := map[];
      rightMap := map[];
    }

    method Insert(matterId: int32, ipsoId: int32)
      requires Valid()
      modifies this
      ensures Valid()
      ensures Pairs() == Accept(old(Pairs()), (matterId, ipsoId))
    {
      assert forall q :: q in Pairs() ==> q.0 in leftMap && q.1 in rightMap && rightMap[q.1] == q.0;
      if matterId in leftMap {
        assert (matterId, leftMap[matterId]) in Pairs() && Conflict((matterId, ipsoId), (matterId, leftMap[matterId]));
      } else if ipsoId in rightMap {
        assert (rightMap[ipsoId], ipsoId) in Pairs() && Conflict((matterId, ipsoId), (rightMap[ipsoId], ipsoId));
      } else {
        leftMap := leftMap[matterId := ipsoId];
        rightMap := rightMap[ipsoId := matterId];
        assert Pairs() == old(Pairs()) + {(matterId, ipsoId)};
      }
    }

    /** The LwM2M id paired with a Matter id, or -1. */
    function GetIpsoId(matterId: int32): (r: int32)
      requires Valid()
      reads this
      ensures forall i :: (matterId, i) in Pairs() ==> r == i
      ensures (forall i :: (matterId, i) !in Pairs()) ==> r == -1
    {
      if matterId in leftMap then
        assert (matterId, leftMap[matterId]) in Pairs();
        leftMap[matterId]
      else -1
    }

    /** The Matter id paired with an LwM2M id, or -1. */
    function GetMatterId(ipsoId: int32): (r: int32)
      requires Valid()
      reads this
      ensures forall m :: (m, ipsoId) in Pairs() ==> r == m
      ensures (forall m :: (m, ipsoId) !in Pairs()) ==> r == -1
    {
      if ipsoId in rightMap then
        assert (rightMap[ipsoId], ipsoId) in Pairs();
        rightMap[ipsoId]
      else -1
    }

    /** A valid table is a partial bijection, and both of its maps have one entry a pair. */
    lemma ValidIsMatching()
      requires Valid()
      ensures IsMatching(Pairs())
      ensures leftMap.Keys == Lefts(Pairs()) && rightMap.Keys == Rights(Pairs())
      ensures |leftMap| == |rightMap| == |Pairs()|
    {
      var ps := Pairs();
      forall m | m in leftMap ensures m in Lefts(ps) {
        assert (m, leftMap[m]) in ps;
      }
      forall i | i in rightMap ensures i in Rights(ps) {
        assert (rightMap[i], i) in ps;
      }
      MatchingSize(ps);
    }
  }

  /** The four tables of a mapping. */
  class MatterIpsoMapping {
    const clusterObject: BiMap
    const attributeResource: BiMap
    const commandResource: BiMap
    const eventResource: BiMap

    ghost const Repr: set<object> := {clusterObject, attributeResource, commandResource, eventResource}

    ghost predicate Valid()
      reads Repr
    {
      && clusterObject.Valid() && attributeResource.Valid() && commandResource.Valid() && eventResource.Valid()
      && clusterObject != attributeResource && clusterObject != commandResource && clusterObject != eventResource
      && attributeResource != commandResource && attributeResource != eventResource
      && commandResource != eventResource
    }

    constructor ()
      ensures Valid() && fresh(Repr)
      ensures clusterObject.Pairs() == {} && attributeResource.Pairs() == {}
      ensures commandResource.Pairs() == {} && eventResource.Pairs() == {}
    {
      clusterObject := new BiMap();
      attributeResource := new BiMap();
      commandResource := new BiMap();
      eventResource := new BiMap();
    }

    /** Each table holds what serving the pairs of its own section first come, first served leaves. */
    ghost predicate Holds(es: seq<Entry>)
      reads Repr
    {
      && Valid()
      && clusterObject.Pairs() == Greedy(PairsOf(es, "sdfObject"))
      && attributeResource.Pairs() == Greedy(PairsOf(es, "sdfProperty"))
      && commandResource.Pairs() == Greedy(PairsOf(es, "sdfAction"))
      && eventResource.Pairs() == Greedy(PairsOf(es, "sdfEvent"))
    }

    /** The loop over the entries. */
    method EnterAll(es: seq<Entry>)
      requires Holds([])
      modifies Repr
      ensures Holds(es)
    {
      var i := 0;
      ghost var entered: seq<Entry> := [];
      while i < |es|
        invariant 0 <= i == |entered| <= |es| && forall k :: 0 <= k < i ==> entered[k] == es[k]
        invariant Holds(entered)
      {
        entered := Enter(entered, es[i]);
        i := i + 1;
      }
      assert entered == es;
    }

    /** One turn of the loop: at most one table changes, and only for an entry with both ids. */
    method Enter(ghost before: seq<Entry>, e: Entry) returns (ghost es: seq<Entry>)
      requires Holds(before)
      modifies Repr
      ensures es == before + [e] && Holds(es)
    {
      es := before + [e];
      PairsOfSnoc(before, e, "sdfObject");
      PairsOfSnoc(before, e, "sdfProperty");
      PairsOfSnoc(before, e, "sdfAction");
      PairsOfSnoc(before, e, "sdfEvent");
      if e.matterId.Some? && e.omaId.Some? {
        ExtractIsSectionName(e.key);
        var section := ExtractBetweenSlashes(e.key);
        if section == "sdfThing" {
          // sdfThing has no equivalent in LwM2M
        } else if section == "sdfObject" {
          clusterObject.Insert(e.matterId.value, e.omaId.value);
        } else if section == "sdfProperty" {
          attributeResource.Insert(e.matterId.value, e.omaId.value);
        } else if section == "sdfAction" {
          commandResource.Insert(e.matterId.value, e.omaId.value);
        } else if section == "sdfEvent" {
          eventResource.Insert(e.matterId.value, e.omaId.value);
        }
      }
    }
  }

  /** One member of the "map" object of an sdf-mapping. */
  datatype Entry = Entry(key: cstring, matterId: Option<int32>, omaId: Option<int32>)

  /** The id pairs of the entries under the named section that give both ids, in order. */
  function PairsOf(es: seq<Entry>, section: string): seq<Pair> {
    if es == [] then []
    else
      var e := es[|es| - 1];
      var before := PairsOf(es[..|es| - 1], section);
      if SectionName(e.key) == section && e.matterId.Some? && e.omaId.Some?
      then before + [(e.matterId.value, e.omaId.value)]
      else before
  }

  /** The effect of one more entry on the pairs of a section. */
  lemma PairsOfSnoc(es: seq<Entry>, e: Entry, section: string)
    ensures PairsOf(es + [e], section) ==
            if SectionName(e.key) == section && e.matterId.Some? && e.omaId.Some?
            then PairsOf(es, section) + [(e.matterId.value, e.omaId.value)]
            else PairsOf(es, section)
    ensures SectionName(e.key) == section && e.matterId.Some? && e.omaId.Some? ==>
            Greedy(PairsOf(es + [e], section))
            == Accept(Greedy(PairsOf(es, section)), (e.matterId.value, e.omaId.value))
  {
    assert (es + [e])[..|es + [e]| - 1] == es;
    var ps := PairsOf(es + [e], section);
    if ps != [] {
      assert SectionName(e.key) == section && e.matterId.Some? && e.omaId.Some? ==>
               ps[..|ps| - 1] == PairsOf(es, section);
    }
  }

  /** The pair an entry contributes to a section, if any. */
  lemma PairsOfOne(e: Entry, section: string)
    ensures PairsOf([e], section) ==
            if SectionName(e.key) == section && e.matterId.Some? && e.omaId.Some?
            then [(e.matterId.value, e.omaId.value)] else []
  {
    assert [] + [e] == [e];
    PairsOfSnoc([], e, section);
  }

  lemma PairsOfLast(es: seq<Entry>, e: Entry, section: string)
    ensures PairsOf(es + [e], section) == PairsOf(es, section) + PairsOf([e], section)
  {
    PairsOfSnoc(es, e, section);
    PairsOfOne(e, section);
  }

  /** Entries contribute in the order in which they are listed. */
  lemma {:induction false} PairsOfConcat(es: seq<Entry>, fs: seq<Entry>, section: string)
    ensures PairsOf(es + fs, section) == PairsOf(es, section) + PairsOf(fs, section)
  {
    if fs == [] {
      assert es + fs == es;
    } else {
      var before, last := fs[..|fs| - 1], fs[|fs| - 1];
      PairsOfConcat(es, before, section);
      assert fs == before + [last];
      assert es + fs == (es + before) + [last];
      PairsOfLast(es + before, last, section);
      PairsOfLast(before, last, section);
      AppendAssoc(PairsOf(es, section), PairsOf(before, section), PairsOf([last], section));
    }
  }

  lemma {:induction false} PairsOfElements(es: seq<Entry>, section: string)
    ensures forall p :: p in PairsOf(es, section) <==>
              exists e :: e in es && SectionName(e.key) == section && e.matterId == Some(p.0) && e.omaId == Some(p.1)
  {
    if es != [] {
      var before, last := es[..|es| - 1], es[|es| - 1];
      assert es == before + [last];
      PairsOfElements(before, section);
      PairsOfSnoc(before, last, section);
    }
  }

  /**
   If the pairs of a section form a partial bijection, its table is exactly those pairs, in whatever
   order and however often the entries are listed.
   */
  lemma SectionOrderIrrelevant(es: seq<Entry>, es': seq<Entry>, section: string)
    requires forall e :: e in es <==> e in es'
    requires IsMatching(Elements(PairsOf(es, section)))
    ensures Greedy(PairsOf(es, section)) == Greedy(PairsOf(es', section)) == Elements(PairsOf(es, section))
  {
    PairsOfElements(es, section);
    PairsOfElements(es', section);
    assert Elements(PairsOf(es, section)) == Elements(PairsOf(es', section));
    OrderIrrelevant(PairsOf(es, section));
  }

  method GenerateMatterIpsoMapping(json: Option<seq<Entry>>) returns (mapping: MatterIpsoMapping)
    ensures fresh(mapping) && fresh(mapping.Repr)
    ensures mapping.Holds(if json.Some? then json.value else [])
  {
    mapping := new MatterIpsoMapping();
    if json.Some? {
      mapping.EnterAll(json.value);
    }
  }
}
