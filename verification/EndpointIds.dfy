/** The circular search for an unused dynamic endpoint id (main/main.cpp, AddDeviceEndpoint). */
module EndpointIds {
  import opened Common

  type EndpointId = uint16

  /** The counter after an increment: it wraps at 16 bits and never stays below the first dynamic id. */
  function Next(first: EndpointId, id: EndpointId): EndpointId {
    var incremented := if id == 0xFFFF then 0 else id + 1;
    if incremented < first then first else incremented
  }

  /** The ids a dynamic endpoint can get. */
  function Range(first: EndpointId): set<EndpointId> {
    set id: EndpointId | first <= id <= 0xFFFF && IsDynamic(first, id)
  }

  predicate IsDynamic(first: EndpointId, id: EndpointId) {
    first <= id
  }

  function Size(first: EndpointId): nat {
    0x1_0000 - first
  }

  /** The id reached from cur in k steps around the circle of dynamic ids. */
  function At(first: EndpointId, cur: EndpointId, k: nat): (id: EndpointId)
    requires first <= cur && k <= Size(first)
  {
    if cur + k <= 0xFFFF then cur + k else cur + k - Size(first)
  }

  /** The number of steps from cur to id. */
  function Distance(first: EndpointId, cur: EndpointId, id: EndpointId): nat
    requires first <= cur && first <= id
  {
    if cur <= id then id - cur else id - cur + Size(first)
  }

  lemma NextIsNextAt(first: EndpointId, cur: EndpointId, k: nat)
    requires first <= cur && k < Size(first)
    ensures Next(first, At(first, cur, k)) == At(first, cur, k + 1)
  {
  }

  lemma AtDistance(first: EndpointId, cur: EndpointId, id: EndpointId)
    requires first <= cur && first <= id
    ensures Distance(first, cur, id) < Size(first) && At(first, cur, Distance(first, cur, id)) == id
  {
  }

  /**
   The number of used ids the search passes, starting after k steps, before a free one; None if it
   goes round forever.
   */
  function FirstFree(first: EndpointId, cur: EndpointId, used: set<EndpointId>, k: nat): Option<nat>
    requires first <= cur && k <= Size(first)
    decreases Size(first) - k
  {
    if k == Size(first) then None
    else if At(first, cur, k) !in used then Some(k)
    else FirstFree(first, cur, used, k + 1)
  }

  lemma {:induction false} FirstFreeFinds(first: EndpointId, cur: EndpointId, used: set<EndpointId>, k: nat)
    requires first <= cur && k <= Size(first)
    ensures var r := FirstFree(first, cur, used, k);
            if r.None? then forall j :: k <= j < Size(first) ==> At(first, cur, j) in used
            else k <= r.value < Size(first) && At(first, cur, r.value) !in used
                 && forall j :: k <= j < r.value ==> At(first, cur, j) in used
    decreases Size(first) - k
  {
    if k < Size(first) && At(first, cur, k) in used {
      FirstFreeFinds(first, cur, used, k + 1);
    }
  }

  /** The ids the search tries in its first n attempts are n different ids. */
  lemma {:induction false} AttemptsAreDistinct(first: EndpointId, cur: EndpointId, n: nat, tried: set<EndpointId>)
    requires first <= cur && n <= Size(first)
    requires forall j :: 0 <= j < n ==> At(first, cur, j) in tried
    ensures n <= |tried|
  {
    if n > 0 {
      var last := At(first, cur, n - 1);
      forall j | 0 <= j < n - 1 ensures At(first, cur, j) in tried - {last} {
        assert At(first, cur, j) != last;
      }
      AttemptsAreDistinct(first, cur, n - 1, tried - {last});
    }
  }

  /**
   The search ends exactly when some dynamic id is free. It then stops at the free id nearest to the
   counter in circular order, after at most one attempt more than there are used dynamic ids.
   */
  lemma SearchTakesNearestFree(first: EndpointId, cur: EndpointId, used: set<EndpointId>)
    requires first <= cur
    ensures FirstFree(first, cur, used, 0).Some? <==> !(Range(first) <= used)
    ensures var r := FirstFree(first, cur, used, 0);
            r.Some? ==>
              && r.value < Size(first)
              && var id := At(first, cur, r.value);
              && id in Range(first) - used
              && (forall other :: other in Range(first) - used ==>
                    Distance(first, cur, id) <= Distance(first, cur, other))
              && r.value + 1 <= |used * Range(first)| + 1
  {
    FirstFreeFinds(first, cur, used, 0);
    var r := FirstFree(first, cur, used, 0);
    forall other | other in Range(first) - used
      ensures r.Some? && r.value <= Distance(first, cur, other)
    {
      AtDistance(first, cur, other);
    }
    if r.None? {
      forall other | other in Range(first) ensures other in used {
        assert other in used || other in Range(first) - used;
      }
    } else {
      var id := At(first, cur, r.value);
      assert id in Range(first) - used;
      assert Distance(first, cur, id) == r.value;
      AttemptsAreDistinct(first, cur, r.value, used * Range(first));
    }
  }

  /** The k-th counter value of the loop, when every attempt before it found its id in use. */
  function Iterate(first: EndpointId, cur: EndpointId, k: nat): EndpointId {
    if k == 0 then cur else Next(first, Iterate(first, cur, k - 1))
  }

  /** With every dynamic id in use the loop never ends: each of its attempts, however many, finds a used id. */
  lemma {:induction false} FullRangeNeverEnds(first: EndpointId, cur: EndpointId, used: set<EndpointId>, k: nat)
    requires first <= cur && Range(first) <= used
    ensures Iterate(first, cur, k) in Range(first) && Iterate(first, cur, k) in used
  {
    if k > 0 {
      FullRangeNeverEnds(first, cur, used, k - 1);
    }
  }
}
