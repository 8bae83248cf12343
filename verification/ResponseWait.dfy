/** The loop in which the CoAP client waits for a response (main/CoapClient.cpp). */
module ResponseWait {
  import opened Common

  /** One call of coap_io_process: what it returns, and whether the response handler ran during it. */
  datatype IoCall = IoCall(res: int32, responded: bool)

  function Call(io: nat -> IoCall, k: nat): IoCall {
    io(k)
  }

  /** The time the first n calls have used up; negative returns are ignored. */
  function Spent(io: nat -> IoCall, n: nat): int {
    if n == 0 then 0 else Spent(io, n - 1) + if Call(io, n - 1).res >= 0 then Call(io, n - 1).res else 0
  }

  /** The first n calls bring no response and leave some of the budget. */
  predicate Quiet(io: nat -> IoCall, budget: nat, n: nat) {
    n > 0 ==> Quiet(io, budget, n - 1) && Spent(io, n) < budget && !Call(io, n - 1).responded
  }

  /** Call n is the first at which the budget is used up or a response is in. */
  ghost predicate EndsAt(io: nat -> IoCall, budget: nat, n: nat) {
    (Spent(io, n + 1) >= budget || Call(io, n).responded) && Quiet(io, budget, n)
  }

  ghost predicate Ends(io: nat -> IoCall, budget: nat) {
    exists n: nat :: EndsAt(io, budget, n)
  }

  lemma {:induction false} QuietBefore(io: nat -> IoCall, budget: nat, n: nat, k: nat)
    requires Quiet(io, budget, n) && k < n
    ensures Spent(io, k + 1) < budget && !Call(io, k).responded
  {
    if k < n - 1 {
      QuietBefore(io, budget, n - 1, k);
    }
  }

  lemma QuietEndsLater(io: nat -> IoCall, budget: nat, n: nat, last: nat)
    requires Quiet(io, budget, n) && EndsAt(io, budget, last)
    ensures n <= last
  {
    if last < n {
      QuietBefore(io, budget, n, last);
    }
  }

  /** The waiting time: the session's default leisure, in seconds, plus one. */
  function Budget(leisure: uint16): (ms: nat)
    ensures 0 < ms < 0x1_0000_0000
  {
    var seconds: int := leisure;
    (seconds + 1) * 1000
  }

  /** Every call returns a second. */
  ghost predicate Seconds(io: nat -> IoCall) {
    forall k: nat :: Call(io, k).res == 1000
  }

  ghost predicate FirstResponse(io: nat -> IoCall, n: nat) {
    Call(io, n).responded && forall k :: 0 <= k < n ==> !Call(io, k).responded
  }

  /** Calls that all return the same use up that much each, or nothing if it is negative. */
  lemma {:induction false} ConstantCalls(io: nat -> IoCall, c: int, n: nat)
    requires forall k: nat :: Call(io, k).res == c
    ensures Spent(io, n) == if c >= 0 then n * c else 0
  {
    if n > 0 {
      ConstantCalls(io, c, n - 1);
    }
  }

  lemma SecondsWait(io: nat -> IoCall, leisure: uint16, n: nat)
    requires Seconds(io) && EndsAt(io, Budget(leisure), n)
    ensures if forall k :: 0 <= k < leisure ==> !Call(io, k).responded
            then Spent(io, n + 1) >= Budget(leisure) && n == leisure
            else Spent(io, n + 1) < Budget(leisure) && FirstResponse(io, n)
  {
    ConstantCalls(io, 1000, n + 1);
    forall k | 0 <= k < n ensures !Call(io, k).responded {
      QuietBefore(io, Budget(leisure), n, k);
    }
    if n > 0 {
      QuietBefore(io, Budget(leisure), n, n - 1);
      ConstantCalls(io, 1000, n);
    }
  }

  class Client {
    var haveResponse: bool

    /**
     Waits until a response is in or the budget is used up; n is the last call made. A call that uses
     up the budget counts as a timeout even when the response arrived during it. With calls of a second
     each, the response has as many calls to come in as the session's leisure has seconds, and the
     call after them is the last.
     */
    method WaitForResponse(leisure: uint16, io: nat -> IoCall) returns (timeout: bool, n: nat)
      requires !haveResponse && Ends(io, Budget(leisure))
      modifies this
      ensures EndsAt(io, Budget(leisure), n)
      ensures timeout <==> Spent(io, n + 1) >= Budget(leisure)
      ensures Seconds(io) ==> if forall k :: 0 <= k < leisure ==> !Call(io, k).responded
                              then timeout && n == leisure
                              else !timeout && FirstResponse(io, n)
      ensures !haveResponse
    {
      ghost var budget := Budget(leisure);
      ghost var last: nat :| EndsAt(io, budget, last);
      var waitMs: int := Budget(leisure);
      timeout := false;
      n := 0;
      var calls := 0;
      while !haveResponse
        invariant if haveResponse then EndsAt(io, budget, n) && calls == n + 1 else Quiet(io, budget, calls)
        invariant waitMs == budget - Spent(io, calls) > 0
        decreases !haveResponse, last - calls
      {
        QuietEndsLater(io, budget, calls, last);
        n := calls;
        var call := Call(io, n);
        haveResponse := call.responded;
        calls := calls + 1;
        if call.res >= 0 {
          if waitMs > 0 {
            if call.res >= waitMs {
              timeout := true;
              break;
            } else {
              waitMs := waitMs - call.res;
            }
          }
        }
      }
      haveResponse := false;
      if Seconds(io) {
        SecondsWait(io, leisure, n);
      }
    }
  }

  /**
   If every call without a response returns at least 1, the wait ends within as many calls as the
   budget has milliseconds.
   */
  lemma ProgressEnds(io: nat -> IoCall, budget: nat)
    requires budget > 0
    requires forall k: nat :: !Call(io, k).responded ==> Call(io, k).res >= 1
    ensures Ends(io, budget) && exists n: nat :: n < budget && EndsAt(io, budget, n)
  {
    var n := ProgressFrom(io, budget, 0);
  }

  lemma {:induction false} ProgressFrom(io: nat -> IoCall, budget: nat, n: nat) returns (last: nat)
    requires forall k: nat :: !Call(io, k).responded ==> Call(io, k).res >= 1
    requires n < budget && Quiet(io, budget, n) && Spent(io, n) >= n
    ensures n <= last < budget && EndsAt(io, budget, last)
    decreases budget - n
  {
    if Spent(io, n + 1) >= budget || Call(io, n).responded {
      last := n;
    } else {
      last := ProgressFrom(io, budget, n + 1);
    }
  }

  /** Without any response, the wait ends exactly when the time returned by the calls adds up to the budget. */
  lemma SilentWaitEndsIff(io: nat -> IoCall, budget: nat)
    requires budget > 0 && forall k: nat :: !Call(io, k).responded
    ensures Ends(io, budget) <==> exists n: nat :: Spent(io, n) >= budget
  {
    if n: nat :| Spent(io, n) >= budget {
      FirstOver(io, budget, n);
    }
    if n: nat :| EndsAt(io, budget, n) {
      assert Spent(io, n + 1) >= budget;
    }
  }

  lemma {:induction false} FirstOver(io: nat -> IoCall, budget: nat, n: nat)
    requires budget > 0 && Spent(io, n) >= budget && forall k: nat :: !Call(io, k).responded
    ensures Ends(io, budget)
  {
    if Spent(io, n - 1) >= budget {
      FirstOver(io, budget, n - 1);
    } else {
      UnderIsQuiet(io, budget, n - 1);
      assert EndsAt(io, budget, n - 1);
    }
  }

  lemma {:induction false} UnderIsQuiet(io: nat -> IoCall, budget: nat, n: nat)
    requires Spent(io, n) < budget && forall k: nat :: !Call(io, k).responded
    ensures Quiet(io, budget, n)
  {
    if n > 0 {
      UnderIsQuiet(io, budget, n - 1);
    }
  }
}
