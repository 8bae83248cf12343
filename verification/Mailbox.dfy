/**
 The read protocol as a state machine: the CoAP task starts a read, polls result_ptr and resets it
 (main/CoapServer.cpp); the Matter task stores responses there whenever they arrive
 (main/BindingHandler.cpp). Each access to result_ptr is one step of the CoAP task, so responses
 may arrive between any two of them.
 */
module Mailbox {
  import opened Common
  import opened Bindings

  const TRIES := 10

  /** A response, with the number of the read it answers; the program itself keeps only the value. */
  datatype Response = Response(read: nat, value: Value)

  /** Where the CoAP task is. A positive number of tries is left in the phases that carry one. */
  datatype Phase =
    | Idle
    | Sleeping(tries: nat)      // about to test result_ptr for null
    | Seen(tries: nat)          // not null: about to test for uint16_t
    | IsWord(tries: nat)        // about to get the uint16_t
    | NotWord(tries: nat)       // about to test for bool
    | IsBoolean(tries: nat)     // about to get the bool
    | Answered(from: Response)  // the buffer is filled: about to reset result_ptr
    | GaveUp                    // no tries left: about to reset result_ptr
    | Crashed                   // std::bad_variant_access

  /**
   kinds lists the types requested by the reads started so far; inFlight has one entry for each
   response still to come.
   */
  datatype State = State(phase: Phase, kinds: seq<Kind>, inFlight: multiset<nat>, mailbox: Option<Response>)

  datatype Event =
    | StartRead(kind: Kind, bindings: nat)  // a GET request; one response may come from each binding
    | Deliver(response: Response)           // the success callback
    | Drop(read: nat)                       // the failure callback, or no answer at all
    | Server                                // the next step of the CoAP task

  const START := State(Idle, [], multiset{}, None)

  predicate Enabled(s: State, e: Event) {
    match e
    case StartRead(_, _) => s.phase.Idle?
    case Deliver(r) => r.read in s.inFlight && r.read < |s.kinds| && r.value.Kind() == s.kinds[r.read]
    case Drop(read) => read in s.inFlight
    case Server => !s.phase.Idle? && !s.phase.Crashed?
  }

  /** The end of a turn of the polling loop that found nothing. */
  function NextTry(tries: nat): Phase {
    if tries > 1 then Sleeping(tries - 1) else GaveUp
  }

  function ServerStep(s: State): State {
    match s.phase
    case Sleeping(n) => s.(phase := if s.mailbox.Some? then Seen(n) else NextTry(n))
    case Seen(n) => s.(phase := if s.mailbox.Some? && s.mailbox.value.value.U16? then IsWord(n) else NotWord(n))
    case IsWord(n) =>
      s.(phase := if s.mailbox.Some? && s.mailbox.value.value.U16? then Answered(s.mailbox.value) else Crashed)
    case NotWord(n) => s.(phase := if s.mailbox.Some? && s.mailbox.value.value.Flag? then IsBoolean(n) else NextTry(n))
    case IsBoolean(n) =>
      s.(phase := if s.mailbox.Some? && s.mailbox.value.value.Flag? then Answered(s.mailbox.value) else Crashed)
    case Answered(_) => s.(phase := Idle, mailbox := None)
    case GaveUp => s.(phase := Idle, mailbox := None)
    case Idle => s
    case Crashed => s
  }

  function Apply(s: State, e: Event): State
    requires Enabled(s, e)
  {
    match e
    case StartRead(kind, bindings) =>
      s.(phase := Sleeping(TRIES), kinds := s.kinds + [kind], inFlight := s.inFlight[|s.kinds| := bindings])
    case Deliver(r) => s.(inFlight := s.inFlight - multiset{r.read}, mailbox := Some(r))
    case Drop(read) => s.(inFlight := s.inFlight - multiset{read})
    case Server => ServerStep(s)
  }

  /** The state after the events, if each is possible when its turn comes. */
  function Run(s: State, es: seq<Event>): Option<State> {
    if es == [] then Some(s)
    else
      var before := Run(s, es[..|es| - 1]);
      if before.Some? && Enabled(before.value, es[|es| - 1]) then Some(Apply(before.value, es[|es| - 1])) else None
  }

  lemma RunSnoc(s: State, es: seq<Event>, e: Event)
    ensures Run(s, es + [e]) ==
            var before := Run(s, es);
            if before.Some? && Enabled(before.value, e) then Some(Apply(before.value, e)) else None
  {
    assert (es + [e])[..|es + [e]| - 1] == es;
  }

  // ----- What every run keeps -----

  /**
   The value in the mailbox and the responses to come belong to reads that were started, and have
   their types; a response seen is still there when it is read.
   */
  ghost predicate Inv(s: State) {
    && (forall read :: read in s.inFlight ==> read < |s.kinds|)
    && (s.mailbox.Some? ==>
          s.mailbox.value.read < |s.kinds| && s.mailbox.value.value.Kind() == s.kinds[s.mailbox.value.read])
    && (s.phase.Seen? || s.phase.IsWord? || s.phase.NotWord? || s.phase.IsBoolean? ==> s.mailbox.Some?)
    && (s.phase.Sleeping? || s.phase.Seen? || s.phase.IsWord? || s.phase.NotWord? || s.phase.IsBoolean? ==>
          1 <= s.phase.tries <= TRIES)
    && (!s.phase.Idle? ==> s.kinds != [])
  }

  lemma ApplyKeepsInv(s: State, e: Event)
    requires Inv(s) && Enabled(s, e)
    ensures Inv(Apply(s, e))
  {
    match e
    case StartRead(kind, bindings) => StartKeepsInv(s, kind, bindings);
    case Deliver(r) => DeliverKeepsInv(s, r);
    case Drop(_) =>
    case Server => ServerKeepsInv(s);
  }

  lemma StartKeepsInv(s: State, kind: Kind, bindings: nat)
    requires Inv(s) && s.phase.Idle?
    ensures Inv(Apply(s, StartRead(kind, bindings)))
  {
  }

  lemma DeliverKeepsInv(s: State, r: Response)
    requires Inv(s) && Enabled(s, Deliver(r))
    ensures Inv(Apply(s, Deliver(r)))
  {
  }

  lemma ServerKeepsInv(s: State)
    requires Inv(s)
    ensures Inv(ServerStep(s))
  {
  }

  lemma {:induction false} RunsKeepInv(s: State, es: seq<Event>)
    requires Inv(s) && Run(s, es).Some?
    ensures Inv(Run(s, es).value)
  {
    if es != [] {
      RunsKeepInv(s, es[..|es| - 1]);
      ApplyKeepsInv(Run(s, es[..|es| - 1]).value, es[|es| - 1]);
    }
  }

  /** In every run from the start, whatever arrives when, the value of result_ptr is never taken while it is null. */
  lemma NeverReadsNull(es: seq<Event>)
    requires Run(START, es).Some?
    ensures var s := Run(START, es).value;
            s.phase.Seen? || s.phase.IsWord? || s.phase.NotWord? || s.phase.IsBoolean? ==> s.mailbox.Some?
  {
    RunsKeepInv(START, es);
  }

  // ----- Every read ends -----

  /** The most steps the CoAP task can still take before it is idle again. */
  function StepsLeft(p: Phase): nat {
    match p
    case Sleeping(n) => 3 * n + 2
    case Seen(n) => 3 * n + 1
    case IsWord(n) => 3 * n
    case NotWord(n) => 3 * n
    case IsBoolean(n) => 2
    case Answered(_) => 1
    case GaveUp => 1
    case Idle => 0
    case Crashed => 0
  }

  /** The number of tries that may still find the mailbox empty or take its value. */
  function PollsLeft(p: Phase): int {
    match p
    case Sleeping(n) => n
    case Seen(n) => n - 1
    case IsWord(n) => n - 1
    case NotWord(n) => n - 1
    case IsBoolean(n) => n - 1
    case _ => 0
  }

  ghost predicate NoStart(es: seq<Event>) {
    forall i :: 0 <= i < |es| ==> !es[i].StartRead?
  }

  function ServerSteps(es: seq<Event>): nat {
    if es == [] then 0 else ServerSteps(es[..|es| - 1]) + if es[|es| - 1].Server? then 1 else 0
  }

  /** The number of events of a run that test result_ptr for null. */
  function Polls(s: State, es: seq<Event>): nat
    requires Run(s, es).Some?
  {
    if es == [] then 0
    else
      var before := es[..|es| - 1];
      Polls(s, before) + if es[|es| - 1].Server? && Run(s, before).value.phase.Sleeping? then 1 else 0
  }

  lemma ApplyCounts(s: State, e: Event)
    requires Inv(s) && Enabled(s, e) && !e.StartRead?
    ensures var t := Apply(s, e);
            && StepsLeft(t.phase) + (if e.Server? then 1 else 0) <= StepsLeft(s.phase)
            && PollsLeft(t.phase) + (if e.Server? && s.phase.Sleeping? then 1 else 0) <= PollsLeft(s.phase)
            && (e.Server? && t.phase.Idle? ==> t.mailbox.None?)
  {
  }

  /**
   However the responses are timed, the CoAP task takes at most 32 steps and 10 polls in a read, as
   follows from where a read starts; and the step that ends the read leaves the mailbox empty.
   */
  lemma {:induction false} ReadEnds(s: State, es: seq<Event>)
    requires Inv(s) && Run(s, es).Some? && NoStart(es)
    ensures var t := Run(s, es).value;
            && ServerSteps(es) + StepsLeft(t.phase) <= StepsLeft(s.phase)
            && Polls(s, es) + PollsLeft(t.phase) <= PollsLeft(s.phase)
            && (es != [] && es[|es| - 1].Server? && t.phase.Idle? ==> t.mailbox.None?)
  {
    if es != [] {
      var before, e := es[..|es| - 1], es[|es| - 1];
      assert !e.StartRead?;
      ReadEnds(s, before);
      RunsKeepInv(s, before);
      ApplyCounts(Run(s, before).value, e);
    }
  }

  /** Whatever the read is doing, and when it has given up, each of its tries is still left or has been a poll. */
  lemma {:induction false} PollsAreExact(s: State, n: nat, es: seq<Event>)
    requires s.phase == Sleeping(n) && 1 <= n && Run(s, es).Some? && NoStart(es)
    ensures var p := Run(s, es).value.phase;
            && (p.Sleeping? ==> 1 <= p.tries && Polls(s, es) + p.tries == n)
            && (p.Seen? || p.IsWord? || p.NotWord? || p.IsBoolean? ==> 1 <= p.tries && Polls(s, es) + p.tries == n + 1)
            && (p.GaveUp? ==> Polls(s, es) == n)
  {
    if es != [] {
      var before, e := es[..|es| - 1], es[|es| - 1];
      assert !e.StartRead?;
      PollsAreExact(s, n, before);
      PollsLast(s, es);
    }
  }

  lemma PollsLast(s: State, es: seq<Event>)
    requires es != [] && Run(s, es).Some?
    ensures var before, e := es[..|es| - 1], es[|es| - 1];
            && Run(s, before).Some? && Enabled(Run(s, before).value, e)
            && Run(s, es).value == Apply(Run(s, before).value, e)
            && Polls(s, es) ==
               Polls(s, before) + if e.Server? && Run(s, before).value.phase.Sleeping? then 1 else 0
  {
  }

  /**
   A read of any type and number of bindings: after at most 32 steps of its own, 10 of them polls,
   the CoAP task is idle again or has crashed; it gives up after exactly 10 polls.
   */
  lemma EveryReadEnds(s: State, kind: Kind, bindings: nat, es: seq<Event>)
    requires Inv(s) && s.phase.Idle? && NoStart(es)
    requires Run(Apply(s, StartRead(kind, bindings)), es).Some?
    ensures var s' := Apply(s, StartRead(kind, bindings));
            && ServerSteps(es) <= 32 && Polls(s', es) <= 10
            && (ServerSteps(es) == 32 ==> Run(s', es).value.phase.Idle? || Run(s', es).value.phase.Crashed?)
            && (Run(s', es).value.phase.GaveUp? ==> Polls(s', es) == 10)
  {
    PollsAreExact(Apply(s, StartRead(kind, bindings)), 10, es);
    ReadEnds(Apply(s, StartRead(kind, bindings)), es);
    RunsKeepInv(Apply(s, StartRead(kind, bindings)), es);
  }

  // ----- Whose answer a read returns -----

  /** Nothing of an earlier read is left, neither in the mailbox nor on its way. */
  ghost predicate Clean(s: State) {
    s.mailbox.None? && s.inFlight == multiset{}
  }

  /** What holds from a clean start of the given read until the next one starts. */
  ghost predicate Own(s: State, read: nat, kind: Kind) {
    && |s.kinds| == read + 1 && s.kinds[read] == kind
    && (forall r :: r in s.inFlight ==> r == read)
    && (s.mailbox.Some? ==> s.mailbox.value.read == read && s.mailbox.value.value.Kind() == kind)
    && match s.phase {
         case Seen(_) => s.mailbox.Some?
         case IsWord(_) => s.mailbox.Some? && kind == Word
         case NotWord(_) => s.mailbox.Some? && kind == Boolean
         case IsBoolean(_) => s.mailbox.Some? && kind == Boolean
         case Answered(r) => r.read == read && r.value.Kind() == kind
         case Crashed => false
         case _ => true
       }
  }

  lemma ApplyKeepsOwn(s: State, e: Event, read: nat, kind: Kind)
    requires Own(s, read, kind) && Enabled(s, e) && !e.StartRead?
    ensures Own(Apply(s, e), read, kind)
  {
    match e
    case Deliver(r) => DeliverKeepsOwn(s, r, read, kind);
    case Drop(_) =>
    case Server => ServerKeepsOwn(s, read, kind);
  }

  lemma DeliverKeepsOwn(s: State, r: Response, read: nat, kind: Kind)
    requires Own(s, read, kind) && Enabled(s, Deliver(r))
    ensures Own(Apply(s, Deliver(r)), read, kind)
  {
  }

  lemma ServerKeepsOwn(s: State, read: nat, kind: Kind)
    requires Own(s, read, kind)
    ensures Own(ServerStep(s), read, kind)
  {
  }

  lemma {:induction false} StaysOwn(s: State, es: seq<Event>, read: nat, kind: Kind)
    requires Own(s, read, kind) && Run(s, es).Some? && NoStart(es)
    ensures Own(Run(s, es).value, read, kind)
  {
    if es != [] {
      var before, e := es[..|es| - 1], es[|es| - 1];
      assert !e.StartRead?;
      StaysOwn(s, before, read, kind);
      ApplyKeepsOwn(Run(s, before).value, e, read, kind);
    }
  }

  /** No run of the next read crashes or answers with the response to another read. */
  ghost predicate NextReadAnswersItself(s: State)
    requires s.phase.Idle?
  {
    forall kind, bindings, es | NoStart(es) && Run(Apply(s, StartRead(kind, bindings)), es).Some? ::
      var p := Run(Apply(s, StartRead(kind, bindings)), es).value.phase;
      !p.Crashed? && (p.Answered? ==> p.from.read == |s.kinds| && p.from.value.Kind() == kind)
  }

  /**
   Between reads, the next read is sure to answer with one of its own responses, of the type it asked
   for, exactly when nothing of an earlier read is in the mailbox or on its way.
   */
  lemma OwnAnswersIffClean(s: State)
    requires Inv(s) && s.phase.Idle?
    ensures NextReadAnswersItself(s) <==> Clean(s)
  {
    if Clean(s) {
      forall kind, bindings, es | NoStart(es) && Run(Apply(s, StartRead(kind, bindings)), es).Some?
        ensures var p := Run(Apply(s, StartRead(kind, bindings)), es).value.phase;
                !p.Crashed? && (p.Answered? ==> p.from.read == |s.kinds| && p.from.value.Kind() == kind)
      {
        StaysOwn(Apply(s, StartRead(kind, bindings)), es, |s.kinds|, kind);
      }
    } else {
      var s1 := Apply(s, StartRead(Word, 0));
      if s.mailbox.None? {
        var read :| read in s.inFlight;
        assert read in s1.inFlight && read < |s1.kinds| - 1;
      }
      var es := StaleAnswer(s1);
      assert Run(s1, es).value.phase.from.read != |s.kinds|;
    }
  }

  lemma {:induction false} RunConcat(s: State, es: seq<Event>, fs: seq<Event>)
    requires Run(s, es).Some?
    ensures Run(s, es + fs) == Run(Run(s, es).value, fs)
  {
    if fs == [] {
      assert es + fs == es;
    } else {
      var n := |fs| - 1;
      assert es + fs == (es + fs[..n]) + [fs[n]];
      RunSnoc(s, es + fs[..n], fs[n]);
      RunConcat(s, es, fs[..n]);
    }
  }

  lemma RunOne(s: State, e: Event)
    requires Enabled(s, e)
    ensures Run(s, [e]) == Some(Apply(s, e))
  {
    RunSnoc(s, [], e);
    assert [] + [e] == [e];
  }

  lemma RunTwo(s: State, e: Event, f: Event)
    requires Enabled(s, e) && Enabled(Apply(s, e), f)
    ensures Run(s, [e, f]) == Some(Apply(Apply(s, e), f))
  {
    RunOne(s, e);
    RunSnoc(s, [e], f);
    assert [e] + [f] == [e, f];
  }

  /** With a value in the mailbox and none arriving, the CoAP task comes to the point of getting it by its type. */
  lemma ReachUse(s: State) returns (es: seq<Event>)
    requires s.phase.Sleeping? && s.mailbox.Some?
    ensures NoStart(es)
    ensures var n := s.phase.tries;
            Run(s, es) == Some(s.(phase := if s.mailbox.value.value.U16? then IsWord(n) else IsBoolean(n)))
  {
    RunTwo(s, Server, Server);
    es := [Server, Server];
    if s.mailbox.value.value.Flag? {
      RunSnoc(s, es, Server);
      es := es + [Server];
    }
  }

  /** With a value in the mailbox and none arriving, the CoAP task answers with it. */
  lemma TakeValue(s: State) returns (es: seq<Event>)
    requires s.phase.Sleeping? && s.mailbox.Some?
    ensures NoStart(es) && Run(s, es) == Some(s.(phase := Answered(s.mailbox.value)))
  {
    es := ReachUse(s);
    UseOfOwnKind(Run(s, es).value);
    RunSnoc(s, es, Server);
    es := es + [Server];
  }

  lemma UseOfOwnKind(s: State)
    requires s.mailbox.Some? && (s.phase.IsWord? || s.phase.IsBoolean?)
    requires s.mailbox.value.value.U16? <==> s.phase.IsWord?
    ensures Enabled(s, Server) && Apply(s, Server) == s.(phase := Answered(s.mailbox.value))
  {
  }

  lemma DeliverAndTake(s: State, r: Response) returns (es: seq<Event>)
    requires s.phase.Sleeping? && Enabled(s, Deliver(r))
    ensures NoStart(es)
    ensures Run(s, es) == Some(Apply(s, Deliver(r)).(phase := Answered(r)))
  {
    RunOne(s, Deliver(r));
    es := TakeValue(Apply(s, Deliver(r)));
    RunConcat(s, [Deliver(r)], es);
    es := [Deliver(r)] + es;
  }

  function SomeValue(kind: Kind): Value {
    if kind.Word? then U16(0) else Flag(false)
  }

  /** A run in which a read answers with a response to an earlier one. */
  lemma StaleAnswer(s: State) returns (es: seq<Event>)
    requires Inv(s) && s.phase.Sleeping?
    requires || (s.mailbox.Some? && s.mailbox.value.read < |s.kinds| - 1)
             || exists read :: read in s.inFlight && read < |s.kinds| - 1
    ensures NoStart(es) && Run(s, es).Some?
    ensures var p := Run(s, es).value.phase;
            p.Answered? && p.from.read < |s.kinds| - 1
  {
    if s.mailbox.Some? && s.mailbox.value.read < |s.kinds| - 1 {
      es := TakeValue(s);
    } else {
      var read :| read in s.inFlight && read < |s.kinds| - 1;
      es := DeliverAndTake(s, Response(read, SomeValue(s.kinds[read])));
    }
  }

  // ----- When a read can crash -----

  /** Everything left of earlier reads has the given type. */
  ghost predicate LeftoversHaveKind(s: State, kind: Kind)
    requires Inv(s)
  {
    && (s.mailbox.Some? ==> s.mailbox.value.value.Kind() == kind)
    && (forall read :: read in s.inFlight ==> s.kinds[read] == kind)
  }

  /** What holds during a read when all the responses about have its type. */
  ghost predicate Uniform(s: State, kind: Kind) {
    && (forall r :: r in s.inFlight ==> r < |s.kinds| && s.kinds[r] == kind)
    && (s.mailbox.Some? ==> s.mailbox.value.value.Kind() == kind)
    && (s.phase.Seen? || s.phase.IsWord? || s.phase.NotWord? || s.phase.IsBoolean? ==> s.mailbox.Some?)
    && (s.phase.IsWord? ==> kind == Word) && (s.phase.NotWord? || s.phase.IsBoolean? ==> kind == Boolean)
    && !s.phase.Crashed?
  }

  lemma ApplyKeepsUniform(s: State, e: Event, kind: Kind)
    requires Uniform(s, kind) && Enabled(s, e) && !e.StartRead?
    ensures Uniform(Apply(s, e), kind)
  {
    match e
    case Deliver(r) => DeliverKeepsUniform(s, r, kind);
    case Drop(_) =>
    case Server => ServerKeepsUniform(s, kind);
  }

  lemma DeliverKeepsUniform(s: State, r: Response, kind: Kind)
    requires Uniform(s, kind) && Enabled(s, Deliver(r))
    ensures Uniform(Apply(s, Deliver(r)), kind)
  {
  }

  lemma ServerKeepsUniform(s: State, kind: Kind)
    requires Uniform(s, kind)
    ensures Uniform(ServerStep(s), kind)
  {
  }

  lemma {:induction false} StaysUniform(s: State, es: seq<Event>, kind: Kind)
    requires Uniform(s, kind) && Run(s, es).Some? && NoStart(es)
    ensures Uniform(Run(s, es).value, kind)
  {
    if es != [] {
      var before, e := es[..|es| - 1], es[|es| - 1];
      assert !e.StartRead?;
      StaysUniform(s, before, kind);
      ApplyKeepsUniform(Run(s, before).value, e, kind);
    }
  }

  /** Responses of one type only, and one of them is in the mailbox while the read still polls. */
  ghost predicate SureToAnswer(s: State, kind: Kind) {
    && Uniform(s, kind)
    && (s.phase.Sleeping? ==> s.mailbox.Some?)
    && !s.phase.GaveUp?
  }

  lemma ServerKeepsSure(s: State, kind: Kind)
    requires SureToAnswer(s, kind)
    ensures SureToAnswer(ServerStep(s), kind)
  {
    ServerKeepsUniform(s, kind);
  }

  lemma {:induction false} StaysSure(s: State, es: seq<Event>, kind: Kind)
    requires SureToAnswer(s, kind) && Run(s, es).Some? && NoStart(es)
    ensures SureToAnswer(Run(s, es).value, kind)
  {
    if es != [] {
      var before, e := es[..|es| - 1], es[|es| - 1];
      assert !e.StartRead?;
      StaysSure(s, before, kind);
      var t := Run(s, before).value;
      if e.Server? {
        ServerKeepsSure(t, kind);
      } else {
        ApplyKeepsUniform(t, e, kind);
      }
    }
  }

  /**
   In a read of one type, a response that is there before the tenth poll is not missed: however the
   read goes on, it does not give up and does not crash.
   */
  lemma EarlyResponseIsAnswered(s: State, kind: Kind, bindings: nat, es: seq<Event>, fs: seq<Event>)
    requires Inv(s) && s.phase.Idle? && LeftoversHaveKind(s, kind) && NoStart(es) && NoStart(fs)
    requires var s' := Apply(s, StartRead(kind, bindings));
             && Run(s', es).Some? && Run(s', es).value.mailbox.Some? && Polls(s', es) < 10
             && Run(Run(s', es).value, fs).Some?
    ensures var p := Run(Run(Apply(s, StartRead(kind, bindings)), es).value, fs).value.phase;
            !p.GaveUp? && !p.Crashed?
  {
    var s' := Apply(s, StartRead(kind, bindings));
    StaysUniform(s', es, kind);
    PollsAreExact(s', 10, es);
    StaysSure(Run(s', es).value, fs, kind);
  }

  ghost predicate NextReadCannotCrash(s: State, kind: Kind)
    requires s.phase.Idle?
  {
    forall bindings, es | NoStart(es) && Run(Apply(s, StartRead(kind, bindings)), es).Some? ::
      !Run(Apply(s, StartRead(kind, bindings)), es).value.phase.Crashed?
  }

  /**
   The next read, of the given type, can leave through std::bad_variant_access exactly when something
   of the other type is left from earlier reads: it may replace the value between its test and its use.
   */
  lemma CrashIffOtherKindLeft(s: State, kind: Kind)
    requires Inv(s) && s.phase.Idle?
    ensures NextReadCannotCrash(s, kind) <==> LeftoversHaveKind(s, kind)
  {
    if LeftoversHaveKind(s, kind) {
      forall bindings, es | NoStart(es) && Run(Apply(s, StartRead(kind, bindings)), es).Some?
        ensures !Run(Apply(s, StartRead(kind, bindings)), es).value.phase.Crashed?
      {
        StaysUniform(Apply(s, StartRead(kind, bindings)), es, kind);
      }
    } else {
      var es := CrashRun(s, kind);
    }
  }

  /** A run of a read with one binding that crashes. */
  lemma CrashRun(s: State, kind: Kind) returns (es: seq<Event>)
    requires Inv(s) && s.phase.Idle? && !LeftoversHaveKind(s, kind)
    ensures NoStart(es) && Run(Apply(s, StartRead(kind, 1)), es).Some?
    ensures Run(Apply(s, StartRead(kind, 1)), es).value.phase.Crashed?
  {
    var s1 := Apply(s, StartRead(kind, 1));
    var own := Response(|s.kinds|, SomeValue(kind));
    if s.mailbox.Some? && s.mailbox.value.value.Kind() != kind {
      es := CrashWith(s1, own);
    } else {
      var read :| read in s.inFlight && s.kinds[read] != kind;
      var s2 := Apply(s1, Deliver(own));
      es := CrashWith(s2, Response(read, SomeValue(s.kinds[read])));
      RunOne(s1, Deliver(own));
      RunConcat(s1, [Deliver(own)], es);
      es := [Deliver(own)] + es;
    }
  }

  /** A run in which a response of the other type arrives between the test of the value and its use. */
  lemma CrashWith(s: State, other: Response) returns (es: seq<Event>)
    requires s.phase.Sleeping? && s.mailbox.Some? && Enabled(s, Deliver(other))
    requires s.mailbox.value.value.Kind() != other.value.Kind()
    ensures NoStart(es) && Run(s, es).Some? && Run(s, es).value.phase.Crashed?
  {
    var use := ReachUse(s);
    UseOfOtherKind(Run(s, use).value, other);
    RunConcat(s, use, [Deliver(other), Server]);
    es := use + [Deliver(other), Server];
  }

  lemma UseOfOtherKind(s: State, other: Response)
    requires s.phase.IsWord? || s.phase.IsBoolean?
    requires Enabled(s, Deliver(other)) && (s.phase.IsWord? <==> other.value.Flag?)
    ensures Run(s, [Deliver(other), Server]).Some? && Run(s, [Deliver(other), Server]).value.phase.Crashed?
  {
    var t := Apply(s, Deliver(other));
    assert t.phase == s.phase && t.mailbox == Some(other);
    OtherKindCrashes(t);
    RunTwo(s, Deliver(other), Server);
  }

  lemma OtherKindCrashes(s: State)
    requires (s.phase.IsWord? || s.phase.IsBoolean?) && s.mailbox.Some?
    requires s.phase.IsWord? <==> s.mailbox.value.value.Flag?
    ensures Enabled(s, Server) && Apply(s, Server).phase.Crashed?
  {
  }

  // ----- How something is left behind -----

  /** Polls that find nothing, until no try is left. */
  lemma {:induction false} EmptyPolls(s: State) returns (es: seq<Event>)
    requires s.phase.Sleeping? && s.mailbox.None?
    ensures NoStart(es) && Run(s, es) == Some(s.(phase := GaveUp))
    decreases if s.phase.Sleeping? then s.phase.tries else 0
  {
    RunOne(s, Server);
    es := [Server];
    if s.phase.tries > 1 {
      var rest := EmptyPolls(Apply(s, Server));
      RunConcat(s, es, rest);
      es := es + rest;
    }
  }

  /** The read gives up and is reset. */
  lemma GiveUp(s: State) returns (es: seq<Event>)
    requires s.phase.Sleeping? && s.mailbox.None?
    ensures NoStart(es) && EndsWithoutAnswer(s, es) && Run(s, es) == Some(s.(phase := Idle))
  {
    es := EmptyPolls(s);
    ResetEnds(s, es);
    RunSnoc(s, es, Server);
    es := es + [Server];
  }

  /** The state after a first read whose responses are all late. */
  function AfterTimeout(kind: Kind, bindings: nat): State {
    State(Idle, [kind], multiset{}[0 := bindings], None)
  }

  lemma TimeoutRun(kind: Kind, bindings: nat) returns (es: seq<Event>)
    ensures Run(START, es) == Some(AfterTimeout(kind, bindings))
  {
    RunOne(START, StartRead(kind, bindings));
    var t := Apply(START, StartRead(kind, bindings));
    assert t.kinds == [kind];
    es := GiveUp(t);
    RunConcat(START, [StartRead(kind, bindings)], es);
    es := [StartRead(kind, bindings)] + es;
  }

  /** The state in which a second read starts after such a timeout. */
  function SecondRead(kind: Kind, late: nat, next: Kind, bindings: nat): State {
    Apply(AfterTimeout(kind, late), StartRead(next, bindings))
  }

  lemma SecondReadRun(kind: Kind, late: nat, next: Kind, bindings: nat) returns (es: seq<Event>)
    ensures Run(START, es) == Some(SecondRead(kind, late, next, bindings))
  {
    es := TimeoutRun(kind, late);
    RunSnoc(START, es, StartRead(next, bindings));
    es := es + [StartRead(next, bindings)];
  }

  lemma SecondReadStarts(kind: Kind, late: nat, next: Kind, bindings: nat)
    ensures var s := SecondRead(kind, late, next, bindings);
            && s.phase == Sleeping(TRIES) && s.kinds == [kind, next] && s.mailbox == None
            && s.inFlight == multiset{}[0 := late][1 := bindings]
  {
  }

  /** The read answers with the late response to the one before. */
  lemma LateAnswerRun(kind: Kind, next: Kind) returns (es: seq<Event>)
    ensures NoStart(es) && Run(SecondRead(kind, 1, next, 0), es).Some?
    ensures Run(SecondRead(kind, 1, next, 0), es).value.phase == Answered(Response(0, SomeValue(kind)))
  {
    SecondReadStarts(kind, 1, next, 0);
    es := DeliverAndTake(SecondRead(kind, 1, next, 0), Response(0, SomeValue(kind)));
  }

  /** From the start, whatever the types of two reads, the second can answer with the response to the first. */
  lemma LateAnswersHappen(kind: Kind, next: Kind)
    ensures exists es :: Run(START, es).Some?
                         && var t := Run(START, es).value;
                         t.kinds == [kind, next] && t.phase.Answered? && t.phase.from.read == 0
  {
    var es := SecondReadRun(kind, 1, next, 0);
    var late := LateAnswerRun(kind, next);
    SecondReadStarts(kind, 1, next, 0);
    KindsStay(SecondRead(kind, 1, next, 0), late);
    RunConcat(START, es, late);
    assert Run(START, es + late).value.phase == Answered(Response(0, SomeValue(kind)));
  }

  /** A response to the read comes first, the late one of the other type between its test and its use. */
  lemma LateCrashRun(kind: Kind, next: Kind) returns (es: seq<Event>)
    requires kind != next
    ensures NoStart(es) && Run(SecondRead(kind, 1, next, 1), es).Some?
    ensures Run(SecondRead(kind, 1, next, 1), es).value.phase.Crashed?
  {
    assert 0 in AfterTimeout(kind, 1).inFlight;
    es := CrashRun(AfterTimeout(kind, 1), next);
  }

  /** From the start, a second read of the other type can leave through std::bad_variant_access. */
  lemma CrashesHappen(kind: Kind, next: Kind)
    requires kind != next
    ensures exists es :: Run(START, es).Some?
                         && var t := Run(START, es).value; t.kinds == [kind, next] && t.phase.Crashed?
  {
    var es := SecondReadRun(kind, 1, next, 1);
    var crash := LateCrashRun(kind, next);
    SecondReadStarts(kind, 1, next, 1);
    KindsStay(SecondRead(kind, 1, next, 1), crash);
    RunConcat(START, es, crash);
    assert Run(START, es + crash).value.phase.Crashed?;
  }

  lemma {:induction false} KindsStay(s: State, es: seq<Event>)
    requires NoStart(es) && Run(s, es).Some?
    ensures Run(s, es).value.kinds == s.kinds
  {
    if es != [] {
      assert !es[|es| - 1].StartRead?;
      KindsStay(s, es[..|es| - 1]);
    }
  }

  // ----- How nothing is left behind -----

  /** Own, and the one response there can be is either still to come or has been seen. */
  ghost predicate Single(s: State, read: nat, kind: Kind) {
    && Own(s, read, kind)
    && s.inFlight <= multiset{read}
    && (s.mailbox.Some? || s.phase.Answered? ==> s.inFlight == multiset{})
  }

  lemma ApplyKeepsSingle(s: State, e: Event, read: nat, kind: Kind)
    requires Single(s, read, kind) && Enabled(s, e) && !e.StartRead?
    requires e.Server? ==> !s.phase.GaveUp?
    ensures Single(Apply(s, e), read, kind)
  {
    ApplyKeepsOwn(s, e, read, kind);
    match e
    case Deliver(r) => TakeOne(s.inFlight, r.read, read);
    case Drop(r) => TakeOne(s.inFlight, r, read);
    case Server => ServerKeepsInFlight(s);
  }

  lemma TakeOne(m: multiset<nat>, x: nat, read: nat)
    requires m <= multiset{read} && x in m
    ensures m - multiset{x} == multiset{}
  {
  }

  lemma ServerKeepsInFlight(s: State)
    ensures ServerStep(s).inFlight == s.inFlight
    ensures ServerStep(s).mailbox.Some? || ServerStep(s).phase.Answered? ==> s.mailbox.Some?
  {
  }

  /** Clean, and so it stays until the next read starts. */
  lemma {:induction false} StaysClean(s: State, es: seq<Event>)
    requires Clean(s) && Run(s, es).Some? && NoStart(es)
    ensures Clean(Run(s, es).value)
  {
    if es != [] {
      var before, e := es[..|es| - 1], es[|es| - 1];
      assert !e.StartRead?;
      StaysClean(s, before);
      ApplyKeepsClean(Run(s, before).value, e);
    }
  }

  lemma ApplyKeepsClean(s: State, e: Event)
    requires Clean(s) && Enabled(s, e) && !e.StartRead?
    ensures Clean(Apply(s, e))
  {
  }

  /** The number of bindings of the last read started; 0 if there is none. */
  function LastBindings(es: seq<Event>): nat {
    if es == [] then 0
    else if es[|es| - 1].StartRead? then es[|es| - 1].bindings
    else LastBindings(es[..|es| - 1])
  }

  /**
   What a caller can see to: no read has more than one binding, and no read but the last of the run
   has ended by giving up, unless it has no binding.
   */
  ghost predicate Careful(es: seq<Event>)
    requires Run(START, es).Some?
  {
    es != [] ==>
      var before, e := es[..|es| - 1], es[|es| - 1];
      && Careful(before)
      && (e.StartRead? ==> e.bindings <= 1)
      && (e.Server? && Run(START, before).value.phase.GaveUp? ==> LastBindings(before) == 0)
  }

  /** Between reads nothing is left; during a read only its own response can be about, if it has a binding. */
  ghost predicate Orderly(s: State, bindings: nat) {
    && (if s.phase.Idle? then Clean(s) else s.kinds != [] && Single(s, |s.kinds| - 1, s.kinds[|s.kinds| - 1]))
    && (bindings == 0 ==> Clean(s))
  }

  lemma StartIsOrderly(s: State, kind: Kind, bindings: nat)
    requires s.phase.Idle? && Clean(s) && bindings <= 1
    ensures Orderly(Apply(s, StartRead(kind, bindings)), bindings)
  {
    StartIsSingle(s, kind, bindings);
    if bindings == 0 {
      NoBindingIsClean(s, kind);
    }
  }

  lemma NoBindingIsClean(s: State, kind: Kind)
    requires s.phase.Idle? && Clean(s)
    ensures Clean(Apply(s, StartRead(kind, 0)))
  {
  }

  lemma ApplyKeepsOrderly(s: State, e: Event, bindings: nat)
    requires Orderly(s, bindings) && Enabled(s, e) && !e.StartRead?
    requires e.Server? && s.phase.GaveUp? ==> bindings == 0
    ensures Orderly(Apply(s, e), bindings)
  {
    if bindings == 0 {
      ApplyKeepsClean(s, e);
    }
    if s.phase.Answered? && e.Server? {
      ResetIsClean(s);
    } else if s.phase.GaveUp? && e.Server? {
    } else if !s.phase.Idle? {
      StepKeepsSingle(s, e, bindings);
    }
  }

  lemma ResetIsClean(s: State)
    requires s.phase.Answered? && s.inFlight == multiset{}
    ensures Apply(s, Server).phase.Idle? && Clean(Apply(s, Server))
  {
  }

  lemma StepKeepsSingle(s: State, e: Event, bindings: nat)
    requires !s.phase.Idle? && Orderly(s, bindings) && Enabled(s, e) && !e.StartRead?
    requires e.Server? ==> !s.phase.GaveUp? && !s.phase.Answered?
    requires bindings == 0 ==> Clean(Apply(s, e))
    ensures Orderly(Apply(s, e), bindings)
  {
    SingleStays(s, e, Apply(s, e), |s.kinds| - 1, s.kinds[|s.kinds| - 1], bindings);
  }

  lemma SingleStays(s: State, e: Event, t: State, read: nat, kind: Kind, bindings: nat)
    requires !s.phase.Idle? && Single(s, read, kind) && Enabled(s, e) && !e.StartRead? && t == Apply(s, e)
    requires e.Server? ==> !s.phase.GaveUp? && !s.phase.Answered?
    requires bindings == 0 ==> Clean(t)
    ensures Orderly(t, bindings)
  {
    StaysBusy(s, e);
    ApplyKeepsSingle(s, e, read, kind);
    BusyAndSingle(t, read, kind, bindings);
  }

  lemma BusyAndSingle(t: State, read: nat, kind: Kind, bindings: nat)
    requires !t.phase.Idle? && Single(t, read, kind)
    requires bindings == 0 ==> Clean(t)
    ensures Orderly(t, bindings)
  {
  }

  lemma StaysBusy(s: State, e: Event)
    requires !s.phase.Idle? && Enabled(s, e) && !e.StartRead?
    requires e.Server? ==> !s.phase.GaveUp? && !s.phase.Answered?
    ensures !Apply(s, e).phase.Idle? && Apply(s, e).kinds == s.kinds
  {
  }

  lemma StartIsSingle(s: State, kind: Kind, bindings: nat)
    requires s.phase.Idle? && Clean(s) && bindings <= 1
    ensures Single(Apply(s, StartRead(kind, bindings)), |s.kinds|, kind)
  {
    AtMostOne(Apply(s, StartRead(kind, bindings)).inFlight, |s.kinds|, bindings);
  }

  lemma AtMostOne(m: multiset<nat>, x: nat, n: nat)
    requires n <= 1 && m == multiset{}[x := n]
    ensures m <= multiset{x} && forall y :: y in m ==> y == x
  {
  }

  lemma {:induction false} CarefulRunsAreOrderly(es: seq<Event>)
    requires Run(START, es).Some? && Careful(es)
    ensures Orderly(Run(START, es).value, LastBindings(es))
  {
    if es != [] {
      var before, e := es[..|es| - 1], es[|es| - 1];
      CarefulRunsAreOrderly(before);
      if e.StartRead? {
        StartIsOrderly(Run(START, before).value, e.kind, e.bindings);
      } else {
        ApplyKeepsOrderly(Run(START, before).value, e, LastBindings(before));
      }
    }
  }

  /** A read in progress has not crashed and answers with its own response; between reads nothing is left. */
  ghost predicate AnswersItself(t: State) {
    && !t.phase.Crashed?
    && (t.phase.Answered? ==>
          t.kinds != [] && t.phase.from.read == |t.kinds| - 1
          && t.phase.from.value.Kind() == t.kinds[|t.kinds| - 1])
    && (t.phase.Idle? ==> Clean(t))
  }

  /**
   In every run from the start in which no read has more than one binding, and none with a binding
   but the last has given up, every read answers with its own response, and none crashes.
   */
  lemma CarefulRunsAnswerThemselves(es: seq<Event>)
    requires Run(START, es).Some? && Careful(es)
    ensures AnswersItself(Run(START, es).value)
  {
    CarefulRunsAreOrderly(es);
    OrderlyAnswers(Run(START, es).value, LastBindings(es));
  }

  lemma OrderlyAnswers(t: State, bindings: nat)
    requires Orderly(t, bindings)
    ensures AnswersItself(t)
  {
  }

  /** The last step of the run is a reset. */
  ghost predicate EndsWithReset(s: State, es: seq<Event>) {
    es != [] && es[|es| - 1].Server? && Run(s, es).Some?
  }

  /** The read is over: its last step was the reset that follows an answer. */
  ghost predicate EndsAnswered(s: State, es: seq<Event>) {
    EndsWithReset(s, es) && Run(s, es[..|es| - 1]).value.phase.Answered?
  }

  /** The read is over: its last step was the reset after it gave up. */
  ghost predicate EndsWithoutAnswer(s: State, es: seq<Event>) {
    EndsWithReset(s, es) && Run(s, es[..|es| - 1]).value.phase.GaveUp?
  }

  /** Whatever happens during the read, if it ends with an answer it leaves nothing behind. */
  ghost predicate AnswerLeavesClean(s: State) {
    forall es | NoStart(es) && EndsAnswered(s, es) :: Clean(Run(s, es).value)
  }

  /** Whatever happens during the read, if it gives up it leaves nothing behind. */
  ghost predicate TimeoutLeavesClean(s: State) {
    forall es | NoStart(es) && EndsWithoutAnswer(s, es) :: Clean(Run(s, es).value)
  }

  /**
   A read from a clean start that ends with an answer is sure to leave nothing behind exactly when it
   has at most one binding.
   */
  lemma AnswerLeavesCleanIff(s: State, kind: Kind, bindings: nat)
    requires Inv(s) && s.phase.Idle? && Clean(s)
    ensures AnswerLeavesClean(Apply(s, StartRead(kind, bindings))) <==> bindings <= 1
  {
    var s1 := Apply(s, StartRead(kind, bindings));
    if bindings <= 1 {
      StartIsSingle(s, kind, bindings);
      forall es | NoStart(es) && EndsAnswered(s1, es) ensures Clean(Run(s1, es).value) {
        StaysSingle(s1, es[..|es| - 1], |s.kinds|, kind);
      }
    } else {
      var own := Response(|s.kinds|, SomeValue(kind));
      var es := AnswerAndReset(s1, own);
      assert |s.kinds| in Run(s1, es).value.inFlight;
    }
  }

  /** A read from a clean start that gives up is sure to leave nothing behind exactly when it has no binding. */
  lemma TimeoutLeavesCleanIff(s: State, kind: Kind, bindings: nat)
    requires Inv(s) && s.phase.Idle? && Clean(s)
    ensures TimeoutLeavesClean(Apply(s, StartRead(kind, bindings))) <==> bindings == 0
  {
    var s1 := Apply(s, StartRead(kind, bindings));
    if bindings == 0 {
      NoBindingIsClean(s, kind);
      forall es | NoStart(es) && EndsWithoutAnswer(s1, es) ensures Clean(Run(s1, es).value) {
        StaysClean(s1, es);
      }
    } else {
      var es := GiveUp(s1);
      assert |s.kinds| in Run(s1, es).value.inFlight;
    }
  }

  lemma {:induction false} StaysSingle(s: State, es: seq<Event>, read: nat, kind: Kind)
    requires Single(s, read, kind) && Run(s, es).Some? && NoStart(es)
    ensures var t := Run(s, es).value; t.phase.Idle? || Single(t, read, kind)
  {
    if es != [] {
      var before, e := es[..|es| - 1], es[|es| - 1];
      assert !e.StartRead?;
      StaysSingle(s, before, read, kind);
      var t := Run(s, before).value;
      if !t.phase.Idle? && !t.phase.GaveUp? {
        ApplyKeepsSingle(t, e, read, kind);
      } else if t.phase.GaveUp? && !e.Server? {
        ApplyKeepsSingle(t, e, read, kind);
      }
    }
  }

  /** A run in which the given response is delivered, taken and reset. */
  lemma AnswerAndReset(s: State, r: Response) returns (es: seq<Event>)
    requires s.phase.Sleeping? && Enabled(s, Deliver(r))
    ensures NoStart(es) && EndsAnswered(s, es)
    ensures Run(s, es).value.inFlight == s.inFlight - multiset{r.read}
  {
    es := DeliverAndTake(s, r);
    ResetEnds(s, es);
    es := es + [Server];
  }

  lemma ResetEnds(s: State, es: seq<Event>)
    requires Run(s, es).Some? && (Run(s, es).value.phase.Answered? || Run(s, es).value.phase.GaveUp?)
    ensures EndsWithReset(s, es + [Server])
    ensures if Run(s, es).value.phase.GaveUp? then EndsWithoutAnswer(s, es + [Server])
            else EndsAnswered(s, es + [Server])
    ensures Run(s, es + [Server]).value.inFlight == Run(s, es).value.inFlight
  {
    RunSnoc(s, es, Server);
    DropLast(es, Server);
    ServerKeepsInFlight(Run(s, es).value);
  }

  lemma DropLast(es: seq<Event>, e: Event)
    ensures (es + [e])[..|es + [e]| - 1] == es && (es + [e])[|es + [e]| - 1] == e
  {
  }
}
