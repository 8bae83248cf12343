/**
 The table of dynamic endpoints as a state machine: device slots, the SDK's registry of endpoint
 ids, the id counter, and the id each device reports.
 */
module EndpointTable {
  import opened Common
  import opened EndpointIds
  import opened Sets

  const SLOTS := 16

  datatype Table<D(==)> = Table(
    first: EndpointId,                // gFirstDynamicEndpointId
    fixed: set<EndpointId>,           // ids the SDK uses for other endpoints
    slots: seq<Option<D>>,            // gDevices
    registry: map<nat, EndpointId>,   // slot index to endpoint id, inside the SDK
    counter: EndpointId,              // gCurrentEndpointId
    reported: map<D, EndpointId>)     // Device::GetEndpointId

  /**
   refusals are the ids at which the SDK, asked during this event, answers with an error other than
   "duplicate"; an id is asked about at most once a call.
   */
  datatype Event<D> = Add(dev: D, refusals: set<EndpointId>) | Remove(dev: D)

  datatype Outcome =
    | Added(slot: nat)     // registered: returns the index
    | Refused(slot: nat)   // another SDK error: returns -1, the slot stays occupied
    | Full                 // no free slot: returns -1
    | Hangs                // every dynamic id is in use: never returns
    | Removed(slot: nat)
    | NotFound             // CHIP_ERROR_INTERNAL

  function Used<D>(t: Table<D>): set<EndpointId> {
    t.fixed + t.registry.Values
  }

  /** The lowest slot holding x. */
  function SlotOf<D(==)>(slots: seq<Option<D>>, x: Option<D>): (r: Option<nat>)
    ensures r.None? ==> x !in slots
    ensures r.Some? ==> r.value < |slots| && slots[r.value] == x && x !in slots[..r.value]
  {
    if slots == [] then None
    else if slots[0] == x then Some(0)
    else
      var r := SlotOf(slots[1..], x);
      assert r.Some? ==> slots[..r.value + 1] == [slots[0]] + slots[1..][..r.value];
      if r.None? then None else Some(r.value + 1)
  }

  lemma {:induction false} SlotOfIs<D>(slots: seq<Option<D>>, x: Option<D>, i: nat)
    requires i < |slots| && slots[i] == x && x !in slots[..i]
    ensures SlotOf(slots, x) == Some(i)
  {
    if i > 0 {
      assert slots[0] in slots[..i];
      assert slots[..i] == [slots[0]] + slots[1..][..i - 1];
      SlotOfIs(slots[1..], x, i - 1);
    }
  }

  predicate SearchEnds<D>(t: Table<D>)
    requires t.first <= t.counter
  {
    FirstFree(t.first, t.counter, Used(t), 0).Some?
  }

  /** The id the search stops at. */
  function NewId<D>(t: Table<D>): EndpointId
    requires t.first <= t.counter && SearchEnds(t)
  {
    FirstFreeFinds(t.first, t.counter, Used(t), 0);
    At(t.first, t.counter, FirstFree(t.first, t.counter, Used(t), 0).value)
  }

  function OutcomeOf<D(==)>(t: Table<D>, e: Event<D>): Outcome
    requires t.first <= t.counter
  {
    match e
    case Add(_, refusals) =>
      var slot := SlotOf(t.slots, None);
      if slot.None? then Full
      else if !SearchEnds(t) then Hangs
      else if NewId(t) in refusals then Refused(slot.value)
      else Added(slot.value)
    case Remove(dev) =>
      var slot := SlotOf(t.slots, Some(dev));
      if slot.None? then NotFound else Removed(slot.value)
  }

  /** The table after a device has been put into a slot and given an id. */
  function Occupy<D(==)>(t: Table<D>, i: nat, dev: D, id: EndpointId): Table<D>
    requires i < |t.slots|
  {
    t.(slots := t.slots[i := Some(dev)], counter := id, reported := t.reported[dev := id])
  }

  /** The table after an event that returns. */
  function Step<D(==)>(t: Table<D>, e: Event<D>): (t': Table<D>)
    requires t.first <= t.counter
    ensures t'.first == t.first <= t'.counter && t'.fixed == t.fixed
  {
    match OutcomeOf(t, e)
    case Added(i) => Occupy(t, i, e.dev, NewId(t)).(registry := t.registry[i := NewId(t)])
    case Refused(i) => Occupy(t, i, e.dev, NewId(t))
    case Removed(i) =>
      t.(slots := t.slots[i := None], registry := t.registry - {i})
    case _ => t
  }

  function Start<D>(first: EndpointId, fixed: set<EndpointId>): Table<D> {
    Table(first, fixed, seq(SLOTS, _ => None), map[], first, map[])
  }

  /** The table after a run of events; None when one of them never returns. */
  function Exec<D(==)>(first: EndpointId, fixed: set<EndpointId>, es: seq<Event<D>>): (r: Option<Table<D>>)
    ensures r.Some? ==> r.value.first == first <= r.value.counter && r.value.fixed == fixed
  {
    if es == [] then Some(Start(first, fixed))
    else
      var before := Exec(first, fixed, es[..|es| - 1]);
      if before.None? || OutcomeOf(before.value, es[|es| - 1]).Hangs? then None
      else Some(Step(before.value, es[|es| - 1]))
  }

  // ----- What every run keeps -----

  ghost predicate Injective(m: map<nat, EndpointId>) {
    forall i, j :: i in m && j in m && m[i] == m[j] ==> i == j
  }

  ghost predicate Inv<D>(t: Table<D>) {
    && |t.slots| == SLOTS
    && t.first <= t.counter
    // only occupied slots are registered
    && (forall i :: i in t.registry ==> i < SLOTS && t.slots[i].Some?)
    // registered ids are dynamic, free of other use, and pairwise distinct
    && (forall i :: i in t.registry ==> t.registry[i] in Range(t.first) - t.fixed)
    && Injective(t.registry)
    // every device in a slot has been given an id
    && (forall i :: 0 <= i < SLOTS && t.slots[i].Some? ==> t.slots[i].value in t.reported)
  }

  lemma NewIdIsFree<D>(t: Table<D>)
    requires t.first <= t.counter && SearchEnds(t)
    ensures NewId(t) in Range(t.first) - Used(t)
    ensures forall i :: i in t.registry ==> t.registry[i] != NewId(t)
  {
    SearchTakesNearestFree(t.first, t.counter, Used(t));
    assert forall i :: i in t.registry ==> t.registry[i] in t.registry.Values;
  }

  lemma OccupyKeepsInv<D>(t: Table<D>, i: nat, dev: D, id: EndpointId)
    requires Inv(t) && i < SLOTS && t.first <= id
    ensures Inv(Occupy(t, i, dev, id))
  {
  }

  lemma RegisterKeepsInv<D>(t: Table<D>, i: nat, id: EndpointId)
    requires Inv(t) && i < SLOTS && t.slots[i].Some? && i !in t.registry
    requires id in Range(t.first) - t.fixed && forall j :: j in t.registry ==> t.registry[j] != id
    ensures Inv(t.(registry := t.registry[i := id]))
  {
  }

  lemma ClearKeepsInv<D>(t: Table<D>, i: nat)
    requires Inv(t) && i < SLOTS
    ensures Inv(t.(slots := t.slots[i := None], registry := t.registry - {i}))
  {
  }

  lemma StepKeepsInv<D>(t: Table<D>, e: Event<D>)
    requires Inv(t)
    ensures Inv(Step(t, e))
  {
    match OutcomeOf(t, e)
    case Added(i) =>
      NewIdIsFree(t);
      OccupyKeepsInv(t, i, e.dev, NewId(t));
      RegisterKeepsInv(Occupy(t, i, e.dev, NewId(t)), i, NewId(t));
    case Refused(i) =>
      NewIdIsFree(t);
      OccupyKeepsInv(t, i, e.dev, NewId(t));
    case Removed(i) =>
      ClearKeepsInv(t, i);
    case _ =>
  }

  lemma {:induction false} RunsKeepInv<D>(first: EndpointId, fixed: set<EndpointId>, es: seq<Event<D>>)
    ensures Exec(first, fixed, es).Some? ==> Inv(Exec(first, fixed, es).value)
  {
    if es != [] {
      RunsKeepInv(first, fixed, es[..|es| - 1]);
      var before := Exec(first, fixed, es[..|es| - 1]);
      if before.Some? {
        StepKeepsInv(before.value, es[|es| - 1]);
      }
    }
  }

  // ----- The state of a slot and the history of the run -----

  /** What the last event to touch a slot did to it. */
  datatype Touch<D> = Untouched | Registered(dev: D, id: EndpointId) | LeftBehind(dev: D) | Cleared

  function TouchOf<D(==)>(t: Table<D>, e: Event<D>, i: nat): Touch<D>
    requires t.first <= t.counter
  {
    match OutcomeOf(t, e)
    case Added(j) => if i == j then Registered(e.dev, NewId(t)) else Untouched
    case Refused(j) => if i == j then LeftBehind(e.dev) else Untouched
    case Removed(j) => if i == j then Cleared else Untouched
    case _ => Untouched
  }

  function LastTouch<D(==)>(first: EndpointId, fixed: set<EndpointId>, es: seq<Event<D>>, i: nat): Touch<D>
    requires Exec(first, fixed, es).Some?
  {
    if es == [] then Untouched
    else
      var before := es[..|es| - 1];
      var touch := TouchOf(Exec(first, fixed, before).value, es[|es| - 1], i);
      if touch != Untouched then touch else LastTouch(first, fixed, before, i)
  }

  /**
   In every run, a slot holds a device exactly when the last event to touch it was an add, whether
   or not the SDK refused it; it is registered exactly when that add succeeded, and then under the id
   that add was given. So the slots that hold a device without being registered are those whose last
   add left through the error return.
   */
  lemma {:induction false} SlotsTellHistory<D>(first: EndpointId, fixed: set<EndpointId>, es: seq<Event<D>>, i: nat)
    requires Exec(first, fixed, es).Some? && i < SLOTS
    ensures var t := Exec(first, fixed, es).value;
            |t.slots| == SLOTS &&
            match LastTouch(first, fixed, es, i)
            case Registered(d, id) => t.slots[i] == Some(d) && i in t.registry && t.registry[i] == id
            case LeftBehind(d) => t.slots[i] == Some(d) && i !in t.registry
            case _ => t.slots[i] == None && i !in t.registry
  {
    if es != [] {
      var before := es[..|es| - 1];
      SlotsTellHistory(first, fixed, before, i);
      RunsKeepInv(first, fixed, before);
      TouchTells(Exec(first, fixed, before).value, es[|es| - 1], i);
    }
  }

  lemma TouchTells<D>(t: Table<D>, e: Event<D>, i: nat)
    requires Inv(t) && i < SLOTS && !OutcomeOf(t, e).Hangs?
    ensures var t' := Step(t, e);
            |t'.slots| == SLOTS &&
            match TouchOf(t, e, i)
            case Registered(d, id) => t'.slots[i] == Some(d) && i in t'.registry && t'.registry[i] == id
            case LeftBehind(d) => t'.slots[i] == Some(d) && i !in t'.registry
            case Cleared => t'.slots[i] == None && i !in t'.registry
            case Untouched =>
              && t'.slots[i] == t.slots[i] && (i in t'.registry <==> i in t.registry)
              && (i in t.registry ==> t'.registry[i] == t.registry[i])
  {
  }

  // ----- The ids given in the run -----

  /** An add that finds a free slot; it is given an id, whether or not the SDK then refuses it. */
  predicate TakesSlot<D(==)>(t: Table<D>, e: Event<D>) {
    e.Add? && SlotOf(t.slots, None).Some?
  }

  /** The id given by the last event of the run to take a slot, and the first dynamic id if there was none. */
  function LastGiven<D(==)>(first: EndpointId, fixed: set<EndpointId>, es: seq<Event<D>>): EndpointId
    requires Exec(first, fixed, es).Some?
  {
    if es == [] then first
    else
      var before := es[..|es| - 1];
      var t := Exec(first, fixed, before).value;
      if TakesSlot(t, es[|es| - 1]) then NewId(t) else LastGiven(first, fixed, before)
  }

  /** The id given by the last event of the run to take a slot for the device. */
  function LastGivenTo<D(==)>(first: EndpointId, fixed: set<EndpointId>, es: seq<Event<D>>, d: D): Option<EndpointId>
    requires Exec(first, fixed, es).Some?
  {
    if es == [] then None
    else
      var before, e := es[..|es| - 1], es[|es| - 1];
      var t := Exec(first, fixed, before).value;
      if TakesSlot(t, e) && e.dev == d then Some(NewId(t)) else LastGivenTo(first, fixed, before, d)
  }

  /**
   In every run the counter stands on the id given last, registered or refused, and every device
   reports the id it was given last: removals, adds to a full table and removals of a device that
   holds no slot change neither.
   */
  lemma {:induction false} IdsTellHistory<D>(first: EndpointId, fixed: set<EndpointId>, es: seq<Event<D>>, d: D)
    requires Exec(first, fixed, es).Some?
    ensures var t := Exec(first, fixed, es).value;
            && t.counter == LastGiven(first, fixed, es)
            && LastGivenTo(first, fixed, es, d) == if d in t.reported then Some(t.reported[d]) else None
  {
    if es != [] {
      var before := es[..|es| - 1];
      IdsTellHistory(first, fixed, before, d);
      StepGives(Exec(first, fixed, before).value, es[|es| - 1], d);
    }
  }

  lemma StepGives<D>(t: Table<D>, e: Event<D>, d: D)
    requires t.first <= t.counter && !OutcomeOf(t, e).Hangs?
    ensures TakesSlot(t, e) ==> SearchEnds(t) && Step(t, e).counter == NewId(t)
    ensures !TakesSlot(t, e) ==> Step(t, e).counter == t.counter
    ensures var r, r' := t.reported, Step(t, e).reported;
            if TakesSlot(t, e) && e.dev == d then d in r' && r'[d] == NewId(t)
            else (d in r' <==> d in r) && (d in r ==> r'[d] == r[d])
  {
  }

  // ----- What the devices report -----

  /** Every registered slot's device reports the id registered for the slot. */
  ghost predicate ReportsTruly<D>(t: Table<D>) {
    forall i :: i in t.registry ==>
      i < |t.slots| && t.slots[i].Some? && t.slots[i].value in t.reported
      && t.reported[t.slots[i].value] == t.registry[i]
  }

  predicate HoldsRegistered<D(==)>(t: Table<D>, d: D) {
    exists i :: 0 <= i < |t.slots| && t.slots[i] == Some(d) && i in t.registry
  }

  /** The event adds a device that holds a registered slot while a slot is free. */
  predicate Doubles<D(==)>(t: Table<D>, e: Event<D>) {
    e.Add? && HoldsRegistered(t, e.dev) && SlotOf(t.slots, None).Some?
  }

  /**
   An event that returns keeps the reports true exactly when it does not double a device. This is so
   even when the SDK refuses the new id, because the device's id has been changed by then.
   */
  lemma EventKeepsReports<D>(t: Table<D>, e: Event<D>)
    requires Inv(t) && ReportsTruly(t) && !OutcomeOf(t, e).Hangs?
    ensures ReportsTruly(Step(t, e)) <==> !Doubles(t, e)
  {
    if OutcomeOf(t, e).Added? || OutcomeOf(t, e).Refused? {
      NewIdIsFree(t);
      if Doubles(t, e) {
        DoublingMisreports(t, e);
      } else {
        FreshAddReports(t, e);
      }
    }
  }

  lemma DoublingMisreports<D>(t: Table<D>, e: Event<D>)
    requires Inv(t) && (OutcomeOf(t, e).Added? || OutcomeOf(t, e).Refused?) && HoldsRegistered(t, e.dev)
    ensures !ReportsTruly(Step(t, e))
  {
    NewIdIsFree(t);
    var t' := Step(t, e);
    var i :| 0 <= i < |t.slots| && t.slots[i] == Some(e.dev) && i in t.registry;
    assert t'.slots[i] == Some(e.dev) && i in t'.registry && t'.registry[i] == t.registry[i];
  }

  lemma FreshAddReports<D>(t: Table<D>, e: Event<D>)
    requires Inv(t) && ReportsTruly(t)
    requires (OutcomeOf(t, e).Added? || OutcomeOf(t, e).Refused?) && !HoldsRegistered(t, e.dev)
    ensures ReportsTruly(Step(t, e))
  {
  }

  /** The first n events of the run leave every report true. */
  ghost predicate TruthfulAfter<D>(first: EndpointId, fixed: set<EndpointId>, es: seq<Event<D>>, n: nat)
    requires n <= |es|
  {
    var r := Exec(first, fixed, es[..n]);
    r.Some? && ReportsTruly(r.value)
  }

  /** Event n of the run doubles a device. */
  ghost predicate DoublesAt<D>(first: EndpointId, fixed: set<EndpointId>, es: seq<Event<D>>, n: nat)
    requires n < |es|
  {
    var r := Exec(first, fixed, es[..n]);
    r.Some? && Doubles(r.value, es[n])
  }

  lemma {:induction false} PrefixRuns<D>(first: EndpointId, fixed: set<EndpointId>, es: seq<Event<D>>, n: nat)
    requires Exec(first, fixed, es).Some? && n <= |es|
    ensures Exec(first, fixed, es[..n]).Some?
    decreases |es|
  {
    if n == |es| {
      assert es[..n] == es;
    } else {
      PrefixRuns(first, fixed, es[..|es| - 1], n);
      assert es[..|es| - 1][..n] == es[..n];
    }
  }

  /** One event of a run that returns. */
  lemma PrefixStep<D>(first: EndpointId, fixed: set<EndpointId>, es: seq<Event<D>>, n: nat)
    requires Exec(first, fixed, es).Some? && n < |es|
    ensures Exec(first, fixed, es[..n]).Some?
    ensures var t := Exec(first, fixed, es[..n]).value;
            Inv(t) && !OutcomeOf(t, es[n]).Hangs? && Exec(first, fixed, es[..n + 1]) == Some(Step(t, es[n]))
  {
    PrefixRuns(first, fixed, es, n + 1);
    ExecNext(first, fixed, es, n);
    RunsKeepInv(first, fixed, es[..n]);
  }

  lemma ExecNext<D>(first: EndpointId, fixed: set<EndpointId>, es: seq<Event<D>>, n: nat)
    requires n < |es|
    ensures Exec(first, fixed, es[..n + 1]) ==
            var before := Exec(first, fixed, es[..n]);
            if before.None? || OutcomeOf(before.value, es[n]).Hangs? then None else Some(Step(before.value, es[n]))
  {
    assert es[..n + 1] == es[..n] + [es[n]];
    ExecSnoc(first, fixed, es[..n], es[n]);
  }

  lemma TruthNext<D>(first: EndpointId, fixed: set<EndpointId>, es: seq<Event<D>>, n: nat)
    requires Exec(first, fixed, es).Some? && n < |es| && TruthfulAfter(first, fixed, es, n)
    ensures TruthfulAfter(first, fixed, es, n + 1) <==> !DoublesAt(first, fixed, es, n)
  {
    PrefixStep(first, fixed, es, n);
    EventKeepsReports(Exec(first, fixed, es[..n]).value, es[n]);
  }

  lemma {:induction false} TruthUpTo<D>(first: EndpointId, fixed: set<EndpointId>, es: seq<Event<D>>, n: nat)
    requires Exec(first, fixed, es).Some? && n <= |es|
    requires forall k :: 0 <= k < |es| ==> !DoublesAt(first, fixed, es, k)
    ensures TruthfulAfter(first, fixed, es, n)
  {
    if n == 0 {
      assert es[..0] == [];
    } else {
      TruthUpTo(first, fixed, es, n - 1);
      TruthNext(first, fixed, es, n - 1);
    }
  }

  /**
   Throughout a run every registered slot's device reports its id exactly when no event of the run
   doubles a device.
   */
  lemma RunsReportTrulyIff<D>(first: EndpointId, fixed: set<EndpointId>, es: seq<Event<D>>)
    requires Exec(first, fixed, es).Some?
    ensures (forall n :: 0 <= n <= |es| ==> TruthfulAfter(first, fixed, es, n))
            <==> (forall n :: 0 <= n < |es| ==> !DoublesAt(first, fixed, es, n))
  {
    if forall n :: 0 <= n < |es| ==> !DoublesAt(first, fixed, es, n) {
      forall n | 0 <= n <= |es| ensures TruthfulAfter(first, fixed, es, n) {
        TruthUpTo(first, fixed, es, n);
      }
    } else {
      var n :| 0 <= n < |es| && DoublesAt(first, fixed, es, n);
      if TruthfulAfter(first, fixed, es, n) {
        TruthNext(first, fixed, es, n);
        assert !TruthfulAfter(first, fixed, es, n + 1);
      }
    }
  }

  /** From the start, with two ids to give, adding a device twice already makes it misreport. */
  lemma AddedTwiceMisreports<D>(first: EndpointId, fixed: set<EndpointId>, d: D)
    requires |Range(first) - fixed| >= 2
    ensures Exec(first, fixed, Adds(d, 2)).Some?
    ensures !ReportsTruly(Exec(first, fixed, Adds(d, 2)).value)
  {
    AddsFill(first, fixed, d, 1);
    AddsHold(first, fixed, d);
    var t := Exec(first, fixed, Adds(d, 1)).value;
    AddToFree(t, d, 1);
    DoublingMisreports(t, Add(d, {}));
    AddsNext(first, fixed, d, 1);
  }

  lemma AddsHold<D>(first: EndpointId, fixed: set<EndpointId>, d: D)
    requires |Range(first) - fixed| >= 1
    ensures Exec(first, fixed, Adds(d, 1)).Some?
    ensures HoldsRegistered(Exec(first, fixed, Adds(d, 1)).value, d)
  {
    var t := Start<D>(first, fixed);
    AddToFree(t, d, 0);
    assert Adds(d, 1) == [] + [Add(d, {})];
    ExecSnoc(first, fixed, [], Add(d, {}));
    var t' := Step(t, Add(d, {}));
    assert t'.slots[0] == Some(d) && 0 in t'.registry;
  }

  // ----- Adding and removing -----

  lemma {:induction false} SlotOfAtMost<D>(slots: seq<Option<D>>, x: Option<D>, k: nat)
    requires k < |slots| && slots[k] == x
    ensures SlotOf(slots, x).Some? && SlotOf(slots, x).value <= k
  {
    if slots[0] != x {
      SlotOfAtMost(slots[1..], x, k - 1);
    }
  }

  /** The slot that removing a device frees after it has been put into slot i. */
  lemma SlotAfterAdd<D>(slots: seq<Option<D>>, i: nat, dev: D)
    requires i < |slots|
    ensures var j := SlotOf(slots[i := Some(dev)], Some(dev));
            j.Some? && if Some(dev) in slots[..i] then j.value < i && slots[j.value] == Some(dev) else j.value == i
  {
    var slots' := slots[i := Some(dev)];
    assert slots'[..i] == slots[..i];
    if Some(dev) in slots[..i] {
      var k :| 0 <= k < i && slots[k] == Some(dev);
      SlotOfAtMost(slots', Some(dev), k);
    } else {
      SlotOfIs(slots', Some(dev), i);
    }
  }

  /**
   Removing a device right after adding it restores the slots and the registry, whether or not the
   SDK refused the id, exactly when the device held no slot below the one it was given.
   */
  lemma AddThenRemove<D>(t: Table<D>, dev: D, refusals: set<EndpointId>)
    requires Inv(t)
    requires OutcomeOf(t, Add(dev, refusals)).Added? || OutcomeOf(t, Add(dev, refusals)).Refused?
    ensures var t'' := Step(Step(t, Add(dev, refusals)), Remove(dev));
            t''.slots == t.slots && t''.registry == t.registry
            <==> Some(dev) !in t.slots[..SlotOf(t.slots, None).value]
  {
    var i := SlotOf(t.slots, None).value;
    AddChanges(t, dev, refusals);
    SlotAfterAdd(t.slots, i, dev);
    var t' := Step(t, Add(dev, refusals));
    RemoveChanges(t', dev);
    assert t.slots[i := Some(dev)][i := None] == t.slots;
  }

  lemma AddChanges<D>(t: Table<D>, dev: D, refusals: set<EndpointId>)
    requires Inv(t)
    requires OutcomeOf(t, Add(dev, refusals)).Added? || OutcomeOf(t, Add(dev, refusals)).Refused?
    ensures var t', i := Step(t, Add(dev, refusals)), SlotOf(t.slots, None).value;
            t'.slots == t.slots[i := Some(dev)] && t'.registry - {i} == t.registry
  {
    assert SlotOf(t.slots, None).value !in t.registry;
  }

  lemma RemoveChanges<D>(t: Table<D>, dev: D)
    requires t.first <= t.counter && SlotOf(t.slots, Some(dev)).Some?
    ensures var t', j := Step(t, Remove(dev)), SlotOf(t.slots, Some(dev)).value;
            t'.slots == t.slots[j := None] && t'.registry == t.registry - {j}
  {
  }

  /** A successful add takes the lowest free slot; no other slot and no other registration changes. */
  lemma AddTakesLowestSlot<D>(t: Table<D>, e: Event<D>)
    requires Inv(t) && OutcomeOf(t, e).Added?
    ensures var t', i := Step(t, e), OutcomeOf(t, e).slot;
            && i < SLOTS && t.slots[i].None? && (forall j :: 0 <= j < i ==> t.slots[j].Some?)
            && t'.slots[i] == Some(e.dev) && (forall j :: 0 <= j < SLOTS && j != i ==> t'.slots[j] == t.slots[j])
            && i !in t.registry && t'.registry.Keys == t.registry.Keys + {i}
            && (forall j :: j in t.registry ==> t'.registry[j] == t.registry[j])
  {
    var i := SlotOf(t.slots, None).value;
    forall j | 0 <= j < i ensures t.slots[j].Some? {
      assert t.slots[j] in t.slots[..i];
    }
  }

  /**
   An add that takes a slot gives the lowest free dynamic id from the old counter on, or the lowest of
   all when none is free there; the counter and the device then show it, and it is registered for the
   slot unless the SDK refuses it.
   */
  lemma AddTakesNearestId<D>(t: Table<D>, e: Event<D>)
    requires Inv(t) && TakesSlot(t, e) && !OutcomeOf(t, e).Hangs?
    ensures var t' := Step(t, e);
            var id := t'.counter;
            && e.dev in t'.reported && t'.reported[e.dev] == id
            && (if id in e.refusals then OutcomeOf(t, e).Refused? && t'.registry == t.registry
                else OutcomeOf(t, e).Added? && t'.registry == t.registry[OutcomeOf(t, e).slot := id])
            && t.first <= id && id !in Used(t)
            && forall other: EndpointId :: t.first <= other && other !in Used(t) ==>
                 if t.counter <= id then t.counter <= other ==> id <= other else id <= other < t.counter
  {
    SearchTakesNearestFree(t.first, t.counter, Used(t));
    forall other: EndpointId | t.first <= other && other !in Used(t)
      ensures if t.counter <= NewId(t) then t.counter <= other ==> NewId(t) <= other else NewId(t) <= other < t.counter
    {
      assert other in Range(t.first) - Used(t);
    }
  }

  // ----- When an add can hang -----

  lemma MapWithout(m: map<nat, EndpointId>, i: nat)
    requires i in m
    ensures |m| == |m - {i}| + 1 && m.Values == (m - {i}).Values + {m[i]}
  {
    var m' := m - {i};
    assert m == m'[i := m[i]];
    assert m.Keys == m'.Keys + {i} && |m| == |m.Keys| && |m'| == |m'.Keys|;
  }

  lemma {:induction false} ValuesSize(m: map<nat, EndpointId>)
    requires Injective(m)
    ensures |m.Values| == |m|
  {
    if m != map[] {
      var i :| i in m;
      MapWithout(m, i);
      ValuesSize(m - {i});
      NewValue(m, i);
    }
  }

  lemma NewValue(m: map<nat, EndpointId>, i: nat)
    requires Injective(m) && i in m
    ensures Injective(m - {i}) && m[i] !in (m - {i}).Values
  {
  }

  /**
   In every reachable table, the search ends exactly when fewer ids are registered than there are
   dynamic ids not fixed.
   */
  lemma SearchEndsIff<D>(t: Table<D>)
    requires Inv(t)
    ensures SearchEnds(t) <==> |t.registry| < |Range(t.first) - t.fixed|
  {
    var ids := t.registry.Values;
    SearchTakesNearestFree(t.first, t.counter, Used(t));
    ValuesSize(t.registry);
    assert ids <= Range(t.first) - t.fixed;
    SubsetSize(ids, Range(t.first) - t.fixed);
    if Range(t.first) <= Used(t) {
      SubsetSize(Range(t.first) - t.fixed, ids);
    } else {
      assert ids != Range(t.first) - t.fixed;
    }
  }

  /** The first n slots are taken and registered, the others are free. */
  ghost predicate Filled<D>(t: Table<D>, n: nat) {
    && Inv(t)
    && |t.registry| == n <= SLOTS
    && forall i :: 0 <= i < SLOTS ==> (t.slots[i].Some? <==> i < n)
  }

  /** An add to a table with a free slot: whether it hangs, and which slot it takes. */
  lemma AddToFree<D>(t: Table<D>, d: D, n: nat)
    requires Filled(t, n) && n < SLOTS
    ensures OutcomeOf(t, Add(d, {})) == if n < |Range(t.first) - t.fixed| then Added(n) else Hangs
  {
    SearchEndsIff(t);
    SlotOfIs(t.slots, None, n);
  }

  lemma FillOne<D>(t: Table<D>, d: D, n: nat)
    requires Filled(t, n) && n < SLOTS && n < |Range(t.first) - t.fixed|
    ensures !OutcomeOf(t, Add(d, {})).Hangs? && Filled(Step(t, Add(d, {})), n + 1)
  {
    AddToFree(t, d, n);
    var t' := Step(t, Add(d, {}));
    assert Inv(t') by {
      StepKeepsInv(t, Add(d, {}));
    }
    RegistrySize(t.registry, n, NewId(t));
  }

  lemma RegistrySize(m: map<nat, EndpointId>, n: nat, id: EndpointId)
    requires n !in m
    ensures |m[n := id]| == |m| + 1
  {
    assert m[n := id].Keys == m.Keys + {n};
    assert |m[n := id]| == |m[n := id].Keys| && |m| == |m.Keys|;
  }

  function Adds<D>(d: D, n: nat): seq<Event<D>> {
    seq(n, _ => Add(d, {}))
  }

  lemma ExecSnoc<D>(first: EndpointId, fixed: set<EndpointId>, es: seq<Event<D>>, e: Event<D>)
    ensures Exec(first, fixed, es + [e]) ==
            var before := Exec(first, fixed, es);
            if before.None? || OutcomeOf(before.value, e).Hangs? then None else Some(Step(before.value, e))
  {
    assert (es + [e])[..|es + [e]| - 1] == es;
  }

  lemma ExecLast<D>(first: EndpointId, fixed: set<EndpointId>, es: seq<Event<D>>, fs: seq<Event<D>>)
    requires fs != []
    ensures var e := fs[|fs| - 1];
            var before := Exec(first, fixed, es + fs[..|fs| - 1]);
            Exec(first, fixed, es + fs) ==
            if before.None? || OutcomeOf(before.value, e).Hangs? then None else Some(Step(before.value, e))
  {
    assert es + fs == (es + fs[..|fs| - 1]) + [fs[|fs| - 1]];
    ExecSnoc(first, fixed, es + fs[..|fs| - 1], fs[|fs| - 1]);
  }

  ghost predicate FilledBy<D>(r: Option<Table<D>>, n: nat) {
    r.Some? && Filled(r.value, n)
  }

  /** Adding n devices that the SDK never refuses fills the first n slots. */
  lemma {:induction false} AddsFill<D>(first: EndpointId, fixed: set<EndpointId>, d: D, n: nat)
    requires n <= SLOTS && n <= |Range(first) - fixed|
    ensures FilledBy(Exec(first, fixed, Adds(d, n)), n)
  {
    if n == 0 {
      assert Adds(d, 0) == [];
    } else {
      AddsFill(first, fixed, d, n - 1);
      AddsNext(first, fixed, d, n - 1);
      FillNext(Exec(first, fixed, Adds(d, n - 1)), d, n - 1, |Range(first) - fixed|);
    }
  }

  lemma FillNext<D>(r: Option<Table<D>>, d: D, n: nat, ids: nat)
    requires FilledBy(r, n) && n < SLOTS && n < ids == |Range(r.value.first) - r.value.fixed|
    ensures !OutcomeOf(r.value, Add(d, {})).Hangs? && FilledBy(Some(Step(r.value, Add(d, {}))), n + 1)
  {
    FillOne(r.value, d, n);
  }

  lemma AddsNext<D>(first: EndpointId, fixed: set<EndpointId>, d: D, n: nat)
    ensures Exec(first, fixed, Adds(d, n + 1)) ==
            var before := Exec(first, fixed, Adds(d, n));
            if before.None? || OutcomeOf(before.value, Add(d, {})).Hangs? then None
            else Some(Step(before.value, Add(d, {})))
  {
    assert Adds(d, n + 1) == Adds(d, n) + [Add(d, {})];
    ExecSnoc(first, fixed, Adds(d, n), Add(d, {}));
  }

  /** Once all dynamic ids are registered and a slot is still free, the next add hangs. */
  lemma TooFewIdsHang<D>(first: EndpointId, fixed: set<EndpointId>, d: D)
    requires |Range(first) - fixed| < SLOTS
    ensures Exec(first, fixed, Adds(d, |Range(first) - fixed| + 1)).None?
  {
    var n := |Range(first) - fixed|;
    AddsFill(first, fixed, d, n);
    AddsNext(first, fixed, d, n);
    AddToFree(Exec(first, fixed, Adds(d, n)).value, d, n);
  }

  lemma {:induction false} EnoughIdsNeverHang<D>(first: EndpointId, fixed: set<EndpointId>, es: seq<Event<D>>)
    requires |Range(first) - fixed| >= SLOTS
    ensures Exec(first, fixed, es).Some?
  {
    if es != [] {
      var before := es[..|es| - 1];
      EnoughIdsNeverHang(first, fixed, before);
      RunsKeepInv(first, fixed, before);
      var t := Exec(first, fixed, before).value;
      if SlotOf(t.slots, None).Some? {
        FreeSlotMeansFewIds(t);
        SearchEndsIff(t);
      }
    }
  }

  lemma FreeSlotMeansFewIds<D>(t: Table<D>)
    requires Inv(t) && SlotOf(t.slots, None).Some?
    ensures |t.registry| < SLOTS
  {
    var free := SlotOf(t.slots, None).value;
    BelowSize(t.registry.Keys + {free}, SLOTS);
    assert free !in t.registry.Keys && |t.registry| == |t.registry.Keys|;
  }

  /** Every add in every run returns exactly when at least sixteen dynamic ids are not fixed. */
  lemma NoRunHangsIff<D>(first: EndpointId, fixed: set<EndpointId>, d: D)
    ensures (forall es: seq<Event<D>> :: Exec(first, fixed, es).Some?) <==> |Range(first) - fixed| >= 16
  {
    if |Range(first) - fixed| >= SLOTS {
      forall es: seq<Event<D>> ensures Exec(first, fixed, es).Some? {
        EnoughIdsNeverHang(first, fixed, es);
      }
    } else {
      TooFewIdsHang(first, fixed, d);
    }
  }

  // ----- What a refusal leaves behind -----

  /** The counter stands on an unused id. */
  ghost predicate Waiting<D>(t: Table<D>, id: EndpointId) {
    Inv(t) && t.counter == id && id !in Used(t)
  }

  ghost predicate Refuse<D>(es: seq<Event<D>>, id: EndpointId) {
    forall e :: e in es && e.Add? ==> id in e.refusals
  }

  lemma RefusalWaits<D>(t: Table<D>, e: Event<D>)
    requires Inv(t) && OutcomeOf(t, e).Refused?
    ensures Waiting(Step(t, e), NewId(t)) && NewId(t) in e.refusals
  {
    NewIdIsFree(t);
    StepKeepsInv(t, e);
  }

  /** An add then asks the SDK about the waiting id first, and makes no second attempt. */
  lemma WaitingAdd<D>(t: Table<D>, e: Event<D>, id: EndpointId)
    requires Waiting(t, id) && e.Add?
    ensures SearchEnds(t) && NewId(t) == id
    ensures OutcomeOf(t, e) == var slot := SlotOf(t.slots, None);
                               if slot.None? then Full
                               else if id in e.refusals then Refused(slot.value) else Added(slot.value)
  {
    assert At(t.first, t.counter, 0) == id;
  }

  /**
   While the SDK refuses the id under the counter, an add fails at once: it burns the lowest free
   slot, if there is one.
   */
  lemma WaitingAddFails<D>(t: Table<D>, e: Event<D>, id: EndpointId)
    requires Waiting(t, id) && e.Add? && id in e.refusals
    ensures OutcomeOf(t, e) == var slot := SlotOf(t.slots, None); if slot.Some? then Refused(slot.value) else Full
    ensures Waiting(Step(t, e), id) && Step(t, e).registry == t.registry
  {
    WaitingAdd(t, e, id);
    StepKeepsInv(t, e);
  }

  lemma StartWaits<D>(first: EndpointId, fixed: set<EndpointId>)
    requires first !in fixed
    ensures Waiting(Start<D>(first, fixed), first)
  {
    assert Used(Start<D>(first, fixed)) == fixed;
  }

  lemma FirstAddFails<D>(first: EndpointId, fixed: set<EndpointId>, e: Event<D>)
    requires first !in fixed && e.Add? && first in e.refusals
    ensures var t := Start<D>(first, fixed); OutcomeOf(t, e) == Refused(0) && Waiting(Step(t, e), first)
  {
    var t := Start<D>(first, fixed);
    StartWaits<D>(first, fixed);
    WaitingAddFails(t, e, first);
    SlotOfIs(t.slots, None, 0);
  }

  /** From the start, if its first dynamic id is free, a first add can be refused, and then that id waits. */
  lemma FirstAddRefused<D>(first: EndpointId, fixed: set<EndpointId>, d: D)
    requires first !in fixed
    ensures OutcomeOf(Start(first, fixed), Add(d, {first})) == Refused(0)
    ensures var r := Exec(first, fixed, [Add(d, {first})]);
            r.Some? && Waiting(r.value, first) && first in Range(first) - Used(r.value)
  {
    assert [] + [Add(d, {first})] == [Add(d, {first})];
    ExecSnoc(first, fixed, [], Add(d, {first}));
    FirstAddFails(first, fixed, Add(d, {first}));
  }

  /** The event is an add that finds a free slot, and the SDK does not refuse it the given id. */
  predicate Accepts<D(==)>(t: Table<D>, e: Event<D>, id: EndpointId) {
    e.Add? && id !in e.refusals && SlotOf(t.slots, None).Some?
  }

  /** While an id waits, an event registers a slot exactly when it is accepted at that id; else the id waits on. */
  lemma WaitingEvent<D>(t: Table<D>, e: Event<D>, id: EndpointId)
    requires Waiting(t, id)
    ensures OutcomeOf(t, e).Added? <==> Accepts(t, e, id)
    ensures !OutcomeOf(t, e).Hangs?
    ensures !Accepts(t, e, id) ==> Waiting(Step(t, e), id) && Step(t, e).registry.Keys <= t.registry.Keys
  {
    StepKeepsInv(t, e);
    if e.Add? {
      WaitingAdd(t, e, id);
    } else {
      assert Step(t, e).registry.Values <= t.registry.Values;
    }
  }

  /** Event n of the continuation registers a slot. */
  ghost predicate RegistersAt<D>(first: EndpointId, fixed: set<EndpointId>, es: seq<Event<D>>, fs: seq<Event<D>>,
                                 n: nat)
    requires n < |fs|
  {
    var r := Exec(first, fixed, es + fs[..n]);
    r.Some? && OutcomeOf(r.value, fs[n]).Added?
  }

  /** Event n of the continuation is accepted at the given id. */
  ghost predicate AcceptedAt<D>(first: EndpointId, fixed: set<EndpointId>, es: seq<Event<D>>, fs: seq<Event<D>>,
                                id: EndpointId, n: nat)
    requires n < |fs|
  {
    var r := Exec(first, fixed, es + fs[..n]);
    r.Some? && Accepts(r.value, fs[n], id)
  }

  /** Since table t the id has waited, and nothing has been registered. */
  ghost predicate Waited<D>(t: Table<D>, r: Option<Table<D>>, id: EndpointId) {
    r.Some? && Waiting(r.value, id) && r.value.registry.Keys <= t.registry.Keys
  }

  /** The id still waits after n events of the continuation. */
  ghost predicate WaitsAfter<D>(first: EndpointId, fixed: set<EndpointId>, es: seq<Event<D>>, fs: seq<Event<D>>,
                                id: EndpointId, n: nat)
    requires Exec(first, fixed, es).Some? && n <= |fs|
  {
    Waited(Exec(first, fixed, es).value, Exec(first, fixed, es + fs[..n]), id)
  }

  lemma WaitedOn<D>(t: Table<D>, r: Option<Table<D>>, e: Event<D>, id: EndpointId)
    requires Waited(t, r, id)
    ensures OutcomeOf(r.value, e).Added? <==> Accepts(r.value, e, id)
    ensures !OutcomeOf(r.value, e).Hangs?
    ensures !Accepts(r.value, e, id) ==> Waited(t, Some(Step(r.value, e)), id)
  {
    WaitingEvent(r.value, e, id);
  }

  lemma ExecOn<D>(first: EndpointId, fixed: set<EndpointId>, es: seq<Event<D>>, fs: seq<Event<D>>, n: nat)
    requires n < |fs|
    ensures Exec(first, fixed, es + fs[..n + 1]) ==
            var before := Exec(first, fixed, es + fs[..n]);
            if before.None? || OutcomeOf(before.value, fs[n]).Hangs? then None else Some(Step(before.value, fs[n]))
  {
    assert es + fs[..n + 1] == (es + fs[..n]) + [fs[n]];
    ExecSnoc(first, fixed, es + fs[..n], fs[n]);
  }

  lemma WaitsNext<D>(first: EndpointId, fixed: set<EndpointId>, es: seq<Event<D>>, fs: seq<Event<D>>,
                     id: EndpointId, n: nat)
    requires Exec(first, fixed, es).Some? && n < |fs| && WaitsAfter(first, fixed, es, fs, id, n)
    ensures RegistersAt(first, fixed, es, fs, n) <==> AcceptedAt(first, fixed, es, fs, id, n)
    ensures !AcceptedAt(first, fixed, es, fs, id, n) ==> WaitsAfter(first, fixed, es, fs, id, n + 1)
  {
    ExecOn(first, fixed, es, fs, n);
    WaitedOn(Exec(first, fixed, es).value, Exec(first, fixed, es + fs[..n]), fs[n], id);
  }

  lemma WaitsUnlessBoth<D>(first: EndpointId, fixed: set<EndpointId>, es: seq<Event<D>>, fs: seq<Event<D>>,
                           id: EndpointId, n: nat, next: nat)
    requires Exec(first, fixed, es).Some? && n < |fs| && next == n + 1 && WaitsAfter(first, fixed, es, fs, id, n)
    requires !AcceptedAt(first, fixed, es, fs, id, n) || !RegistersAt(first, fixed, es, fs, n)
    ensures WaitsAfter(first, fixed, es, fs, id, next)
  {
    WaitsNext(first, fixed, es, fs, id, n);
  }

  lemma WaitsAtFirst<D>(first: EndpointId, fixed: set<EndpointId>, es: seq<Event<D>>, fs: seq<Event<D>>,
                        id: EndpointId)
    requires Exec(first, fixed, es).Some? && Waiting(Exec(first, fixed, es).value, id)
    ensures WaitsAfter(first, fixed, es, fs, id, 0)
  {
    assert es + fs[..0] == es;
  }

  lemma {:induction false} WaitsOn<D>(first: EndpointId, fixed: set<EndpointId>, es: seq<Event<D>>,
                                      fs: seq<Event<D>>, id: EndpointId, n: nat)
    requires Exec(first, fixed, es).Some? && Waiting(Exec(first, fixed, es).value, id) && n <= |fs|
    requires forall k :: 0 <= k < n ==>
               !AcceptedAt(first, fixed, es, fs, id, k) || !RegistersAt(first, fixed, es, fs, k)
    ensures WaitsAfter(first, fixed, es, fs, id, n)
  {
    if n == 0 {
      WaitsAtFirst(first, fixed, es, fs, id);
    } else {
      WaitsOn(first, fixed, es, fs, id, n - 1);
      WaitsUnlessBoth(first, fixed, es, fs, id, n - 1, n);
    }
  }

  /**
   Once an id waits, the continuation of the run registers nothing exactly when the SDK accepts none
   of its adds that find a free slot at that very id, whatever other ids are free and whatever is
   removed; until then no add hangs and the id waits on.
   */
  lemma RefusedIdBlocks<D>(first: EndpointId, fixed: set<EndpointId>, es: seq<Event<D>>, fs: seq<Event<D>>,
                           id: EndpointId)
    requires Exec(first, fixed, es).Some? && Waiting(Exec(first, fixed, es).value, id)
    ensures (forall n :: 0 <= n < |fs| ==> !RegistersAt(first, fixed, es, fs, n))
            <==> (forall n :: 0 <= n < |fs| ==> !AcceptedAt(first, fixed, es, fs, id, n))
    ensures forall n :: 0 <= n <= |fs| && (forall k :: 0 <= k < n ==> !AcceptedAt(first, fixed, es, fs, id, k)) ==>
              WaitsAfter(first, fixed, es, fs, id, n)
  {
    forall n | 0 <= n <= |fs| && (forall k :: 0 <= k < n ==> !AcceptedAt(first, fixed, es, fs, id, k))
      ensures WaitsAfter(first, fixed, es, fs, id, n)
      ensures n < |fs| ==> (RegistersAt(first, fixed, es, fs, n) <==> AcceptedAt(first, fixed, es, fs, id, n))
    {
      WaitsOn(first, fixed, es, fs, id, n);
      if n < |fs| {
        WaitsNext(first, fixed, es, fs, id, n);
      }
    }
    if forall n :: 0 <= n < |fs| ==> !RegistersAt(first, fixed, es, fs, n) {
      forall n | 0 <= n < |fs| ensures !AcceptedAt(first, fixed, es, fs, id, n) {
        WaitsOn(first, fixed, es, fs, id, n);
        WaitsNext(first, fixed, es, fs, id, n);
      }
    }
  }

  function FreeSlots<D>(slots: seq<Option<D>>): nat {
    if slots == [] then 0 else (if slots[0].None? then 1 else 0) + FreeSlots(slots[1..])
  }

  lemma {:induction false} TakeSlot<D>(slots: seq<Option<D>>, d: D)
    ensures SlotOf(slots, None).Some? <==> FreeSlots(slots) > 0
    ensures SlotOf(slots, None).Some? ==> FreeSlots(slots[SlotOf(slots, None).value := Some(d)]) == FreeSlots(slots) - 1
  {
    if slots != [] {
      var i := SlotOf(slots, None);
      if slots[0].Some? {
        TakeSlot(slots[1..], d);
        if i.Some? {
          assert slots[i.value := Some(d)][1..] == slots[1..][i.value - 1 := Some(d)];
        }
      } else {
        assert slots[0 := Some(d)][1..] == slots[1..];
      }
    }
  }

  lemma WaitingAddBurnsSlot<D>(t: Table<D>, e: Event<D>, id: EndpointId)
    requires Waiting(t, id) && e.Add? && id in e.refusals
    ensures !OutcomeOf(t, e).Hangs? && Waiting(Step(t, e), id) && Step(t, e).registry == t.registry
    ensures FreeSlots(Step(t, e).slots) == if FreeSlots(t.slots) > 0 then FreeSlots(t.slots) - 1 else 0
  {
    WaitingAddFails(t, e, id);
    TakeSlot(t.slots, e.dev);
  }

  /** Each add after a refusal burns a slot, until the table is full; the registry does not change. */
  lemma {:induction false} RefusedAddsFillTable<D>(first: EndpointId, fixed: set<EndpointId>, es: seq<Event<D>>,
                                                   fs: seq<Event<D>>, id: EndpointId)
    requires Exec(first, fixed, es).Some? && Waiting(Exec(first, fixed, es).value, id) && Refuse(fs, id)
    requires forall e :: e in fs ==> e.Add?
    ensures Exec(first, fixed, es + fs).Some?
    ensures var t, t' := Exec(first, fixed, es).value, Exec(first, fixed, es + fs).value;
            && Waiting(t', id) && t'.registry == t.registry
            && FreeSlots(t'.slots) == if |fs| < FreeSlots(t.slots) then FreeSlots(t.slots) - |fs| else 0
  {
    if fs == [] {
      assert es + fs == es;
    } else {
      var before, e := fs[..|fs| - 1], fs[|fs| - 1];
      RefusedAddsFillTable(first, fixed, es, before, id);
      assert e in fs;
      ExecLast(first, fixed, es, fs);
      WaitingAddBurnsSlot(Exec(first, fixed, es + before).value, e, id);
    }
  }
}
