/**
 The handler's loop (ReadHandler) and the read protocol (Mailbox): each ends a read in the ways the
 other does.
 */
module ReadRuns {
  import opened Common
  import opened Bindings
  import opened Mailbox
  import opened ReadHandler

  // ----- The loop as runs of the protocol -----

  function ReadOf(r: Option<Response>): multiset<nat> {
    if r.Some? then multiset{r.value.read} else multiset{}
  }

  /** What arrives in the turn, look by look. */
  function Arrivals(t: Turn): seq<Option<Response>> {
    [t.sleep, t.second, t.third, t.fourth]
  }

  function ListReads(rs: seq<Option<Response>>): multiset<nat> {
    if rs == [] then multiset{} else ReadOf(rs[0]) + ListReads(rs[1..])
  }

  function TurnReads(t: Turn): multiset<nat> {
    ListReads(Arrivals(t))
  }

  lemma ListReadsCons(r: Option<Response>, rs: seq<Option<Response>>)
    ensures ListReads([r] + rs) == ReadOf(r) + ListReads(rs)
  {
    assert ([r] + rs)[1..] == rs;
  }

  lemma TwoReads(a: Option<Response>, b: Option<Response>)
    ensures ListReads([a, b]) == ReadOf(a) + ReadOf(b)
  {
    assert [a, b] == [a] + [b];
    ListReadsCons(a, [b]);
    assert [b] == [b] + [];
    ListReadsCons(b, []);
  }

  lemma ThreeReads(a: Option<Response>, b: Option<Response>, c: Option<Response>)
    ensures ListReads([a, b, c]) == ReadOf(a) + (ReadOf(b) + ReadOf(c))
  {
    assert [a, b, c] == [a] + [b, c];
    ListReadsCons(a, [b, c]);
    TwoReads(b, c);
  }

  lemma TurnReadsAre(t: Turn)
    ensures TurnReads(t) == ReadOf(t.sleep) + (ReadOf(t.second) + (ReadOf(t.third) + ReadOf(t.fourth)))
  {
    assert Arrivals(t) == [t.sleep] + [t.second, t.third, t.fourth];
    ListReadsCons(t.sleep, [t.second, t.third, t.fourth]);
    ThreeReads(t.second, t.third, t.fourth);
  }

  /** The reads the arrivals of the turns answer, one for each arrival. */
  function Reads(turns: seq<Turn>): multiset<nat> {
    if turns == [] then multiset{} else TurnReads(turns[0]) + Reads(turns[1..])
  }

  predicate Typed(kinds: seq<Kind>, r: Option<Response>) {
    r.Some? ==> r.value.read < |kinds| && r.value.value.Kind() == kinds[r.value.read]
  }

  predicate TurnTyped(kinds: seq<Kind>, turn: Turn) {
    Typed(kinds, turn.sleep) && Typed(kinds, turn.second) && Typed(kinds, turn.third) && Typed(kinds, turn.fourth)
  }

  /** The arrivals are responses on their way. */
  ghost predicate Deliverable(s: State, turns: seq<Turn>) {
    && Reads(turns) <= s.inFlight
    && forall t :: t in turns ==> TurnTyped(s.kinds, t)
  }

  /** One part of a read after another. */
  lemma Then(s: State, es: seq<Event>, t: State, fs: seq<Event>, u: State)
    requires NoStart(es) && Run(s, es) == Some(t) && NoStart(fs) && Run(t, fs) == Some(u)
    ensures NoStart(es + fs) && Run(s, es + fs) == Some(u) && u.kinds == s.kinds
  {
    RunConcat(s, es, fs);
    KindsStay(s, es);
    KindsStay(t, fs);
  }

  lemma Arrive(s: State, r: Option<Response>) returns (es: seq<Event>, t: State)
    requires Typed(s.kinds, r) && ReadOf(r) <= s.inFlight
    ensures NoStart(es) && Run(s, es) == Some(t)
    ensures t == s.(mailbox := Stored(s.mailbox, r), inFlight := s.inFlight - ReadOf(r))
  {
    if r.Some? {
      RunOne(s, Deliver(r.value));
      es, t := [Deliver(r.value)], Apply(s, Deliver(r.value));
    } else {
      es, t := [], s;
    }
  }

  /** An arrival, and then a step of the CoAP task. */
  lemma ArriveAndStep(s: State, r: Option<Response>) returns (es: seq<Event>, t: State)
    requires Typed(s.kinds, r) && ReadOf(r) <= s.inFlight && Enabled(s, Server)
    ensures NoStart(es) && Run(s, es) == Some(t)
    ensures t == ServerStep(s.(mailbox := Stored(s.mailbox, r), inFlight := s.inFlight - ReadOf(r)))
  {
    es, t := Arrive(s, r);
    RunSnoc(s, es, Server);
    es, t := es + [Server], Apply(t, Server);
  }

  /** The look that gets the value by the type it was found to have. */
  lemma UseRun(s: State, r: Option<Response>) returns (es: seq<Event>, t: State)
    requires (s.phase.IsWord? || s.phase.IsBoolean?) && s.mailbox.Some?
    requires s.mailbox.value.value.U16? <==> s.phase.IsWord?
    requires Typed(s.kinds, r) && ReadOf(r) <= s.inFlight
    ensures NoStart(es) && Run(s, es) == Some(t)
    ensures t.phase == PhaseOf(Use(s.mailbox.value, Stored(s.mailbox, r).value))
  {
    es, t := ArriveAndStep(s, r);
    UsePhase(s.(mailbox := Stored(s.mailbox, r), inFlight := s.inFlight - ReadOf(r)), s.mailbox.value);
  }

  lemma UsePhase(s: State, p: Response)
    requires (s.phase.IsWord? || s.phase.IsBoolean?) && s.mailbox.Some? && (p.value.U16? <==> s.phase.IsWord?)
    ensures ServerStep(s).phase == PhaseOf(Use(p, s.mailbox.value))
  {
  }

  function PhaseOf(ending: Ending): Phase {
    match ending
    case Answer(r) => Answered(r)
    case NoAnswer => GaveUp
    case Thrown(_) => Crashed
  }

  lemma TakeFirst(m: multiset<nat>, a: multiset<nat>, b: multiset<nat>, c: multiset<nat>)
    requires a + b + c <= m
    ensures a <= m && b + c <= m - a && b <= m - a
  {
  }

  /** The rest of a turn in which the response was not a uint16_t at the second look. */
  lemma NotWordRun(s: State, third: Option<Response>, fourth: Option<Response>) returns (es: seq<Event>, t: State)
    requires s.phase.NotWord? && s.mailbox.Some?
    requires Typed(s.kinds, third) && Typed(s.kinds, fourth) && ReadOf(third) + ReadOf(fourth) <= s.inFlight
    ensures NoStart(es) && Run(s, es) == Some(t)
    ensures var p := Stored(s.mailbox, third);
            if p.value.value.Flag? then t.phase == PhaseOf(Use(p.value, Stored(p, fourth).value))
            else t.phase == NextTry(s.phase.tries) && t.mailbox == p && t.inFlight == s.inFlight - ReadOf(third)
  {
    var t1;
    es, t1 := ArriveAndStep(s, third);
    t := t1;
    if t1.phase.IsBoolean? {
      var more;
      more, t := UseRun(t1, fourth);
      Then(s, es, t1, more, t);
      es := es + more;
    }
  }

  /** The responses that arrive later in the turn are on their way. */
  ghost predicate RestArrives(s: State, turn: Turn) {
    && Typed(s.kinds, turn.second) && Typed(s.kinds, turn.third) && Typed(s.kinds, turn.fourth)
    && ReadOf(turn.second) + ReadOf(turn.third) + ReadOf(turn.fourth) <= s.inFlight
  }

  /** The part of a turn that follows when its first look has found a response. */
  lemma SeenRun(s: State, turn: Turn) returns (es: seq<Event>, t: State)
    requires s.phase.Seen? && s.mailbox.Some?
    requires RestArrives(s, turn)
    ensures NoStart(es) && Run(s, es) == Some(t)
    ensures var ending := SeenEnding(s.mailbox.value, turn);
            if ending.Some? then t.phase == PhaseOf(ending.value)
            else t.phase == NextTry(s.phase.tries) && t.mailbox == Stored(Stored(s.mailbox, turn.second), turn.third)
                 && t.inFlight == s.inFlight - ReadOf(turn.second) - ReadOf(turn.third)
  {
    TakeFirst(s.inFlight, ReadOf(turn.second), ReadOf(turn.third), ReadOf(turn.fourth));
    var t1, more;
    es, t1 := ArriveAndStep(s, turn.second);
    if t1.phase.IsWord? {
      more, t := UseRun(t1, turn.third);
    } else {
      more, t := NotWordRun(t1, turn.third, turn.fourth);
    }
    Then(s, es, t1, more, t);
    es := es + more;
  }

  /** What a turn leads to. */
  ghost predicate TurnLeadsTo(s: State, turn: Turn, t: State) {
    var ending := TurnEnding(s.mailbox, turn);
    && s.phase.Sleeping?
    && t.kinds == s.kinds
    && if ending.Some? then t.phase == PhaseOf(ending.value)
       else t.phase == NextTry(s.phase.tries) && t.mailbox == TurnPointer(s.mailbox, turn)
            && s.inFlight - TurnReads(turn) <= t.inFlight
  }

  lemma TurnReadsSplit(turn: Turn, m: multiset<nat>)
    requires TurnReads(turn) <= m
    ensures ReadOf(turn.sleep) <= m
    ensures ReadOf(turn.second) + ReadOf(turn.third) + ReadOf(turn.fourth) <= m - ReadOf(turn.sleep)
    ensures m - TurnReads(turn) <= m - ReadOf(turn.sleep)
    ensures m - TurnReads(turn) <= m - ReadOf(turn.sleep) - ReadOf(turn.second) - ReadOf(turn.third)
  {
    TurnReadsAre(turn);
    SumSplit(m, ReadOf(turn.sleep), ReadOf(turn.second), ReadOf(turn.third), ReadOf(turn.fourth));
  }

  lemma SumSplit(m: multiset<nat>, a: multiset<nat>, b: multiset<nat>, c: multiset<nat>, d: multiset<nat>)
    requires a + (b + (c + d)) <= m
    ensures a <= m && b + c + d <= m - a
    ensures m - (a + (b + (c + d))) <= m - a && m - (a + (b + (c + d))) <= m - a - b - c
  {
  }

  /** The part of a turn up to its first look. */
  lemma FirstLook(s: State, turn: Turn) returns (es: seq<Event>, t: State)
    requires s.phase.Sleeping? && TurnReads(turn) <= s.inFlight && TurnTyped(s.kinds, turn)
    ensures NoStart(es) && Run(s, es) == Some(t) && t.kinds == s.kinds
    ensures t.mailbox == Stored(s.mailbox, turn.sleep) && t.inFlight == s.inFlight - ReadOf(turn.sleep)
    ensures t.phase == if t.mailbox.Some? then Seen(s.phase.tries) else NextTry(s.phase.tries)
    ensures RestArrives(t, turn)
  {
    TurnReadsSplit(turn, s.inFlight);
    es, t := ArriveAndStep(s, turn.sleep);
  }

  lemma TurnRun(s: State, turn: Turn) returns (es: seq<Event>, t: State)
    requires s.phase.Sleeping? && TurnReads(turn) <= s.inFlight && TurnTyped(s.kinds, turn)
    ensures NoStart(es) && Run(s, es) == Some(t) && TurnLeadsTo(s, turn, t)
  {
    var t1;
    es, t1 := FirstLook(s, turn);
    if t1.phase.Seen? {
      var more;
      more, t := SeenRun(t1, turn);
      Then(s, es, t1, more, t);
      SeenTurn(s, turn, t1, t);
      es := es + more;
    } else {
      t := t1;
      UnseenTurn(s, turn, t);
    }
  }

  lemma UnseenTurn(s: State, turn: Turn, t: State)
    requires s.phase.Sleeping? && t.kinds == s.kinds && Stored(s.mailbox, turn.sleep).None?
    requires t.phase == NextTry(s.phase.tries) && t.mailbox == None && t.inFlight == s.inFlight - ReadOf(turn.sleep)
    requires TurnReads(turn) <= s.inFlight
    ensures TurnLeadsTo(s, turn, t)
  {
    TurnReadsSplit(turn, s.inFlight);
  }

  lemma SeenTurn(s: State, turn: Turn, t1: State, t: State)
    requires s.phase.Sleeping? && t.kinds == s.kinds && Stored(s.mailbox, turn.sleep).Some?
    requires t1.mailbox == Stored(s.mailbox, turn.sleep) && t1.inFlight == s.inFlight - ReadOf(turn.sleep)
    requires TurnReads(turn) <= s.inFlight
    requires var ending := SeenEnding(t1.mailbox.value, turn);
             if ending.Some? then t.phase == PhaseOf(ending.value)
             else t.phase == NextTry(s.phase.tries) && t.mailbox == Stored(Stored(t1.mailbox, turn.second), turn.third)
                  && t.inFlight == t1.inFlight - ReadOf(turn.second) - ReadOf(turn.third)
    ensures TurnLeadsTo(s, turn, t)
  {
    TurnReadsSplit(turn, s.inFlight);
  }

  lemma RestIsDeliverable(s: State, turns: seq<Turn>, t: State)
    requires turns != [] && Deliverable(s, turns)
    requires t.kinds == s.kinds && s.inFlight - TurnReads(turns[0]) <= t.inFlight
    ensures Deliverable(t, turns[1..])
  {
    assert forall u :: u in turns[1..] ==> u in turns;
  }

  lemma FirstIsDeliverable(s: State, turns: seq<Turn>)
    requires turns != [] && Deliverable(s, turns)
    ensures TurnReads(turns[0]) <= s.inFlight
    ensures TurnTyped(s.kinds, turns[0])
  {
    assert turns[0] in turns;
  }

  /** Some run of the read comes to the phase. */
  ghost predicate Reaches(s: State, p: Phase) {
    exists es :: NoStart(es) && Run(s, es).Some? && Run(s, es).value.phase == p
  }

  /** The loop, with responses on their way arriving in some way, ends as the phase says. */
  ghost predicate LoopCanEnd(s: State, n: nat, p: Phase) {
    exists turns :: |turns| == n && Deliverable(s, turns) && PhaseOf(EndingOf(s.mailbox, turns)) == p
  }

  /**
   What AwaitResponse does is an outcome of the read protocol: from a state in which the read has been
   scheduled, the arrivals lead a run of the protocol to the same answer, end without one, or exception.
   */
  lemma AwaitIsARun(s: State, turns: seq<Turn>)
    requires turns != [] && s.phase == Sleeping(|turns|) && Deliverable(s, turns)
    ensures Reaches(s, PhaseOf(EndingOf(s.mailbox, turns)))
  {
    var es, t := TurnsRun(s, turns);
  }

  lemma {:induction false} TurnsRun(s: State, turns: seq<Turn>) returns (es: seq<Event>, t: State)
    requires turns != [] && s.phase == Sleeping(|turns|) && Deliverable(s, turns)
    ensures NoStart(es) && Run(s, es) == Some(t) && t.phase == PhaseOf(EndingOf(s.mailbox, turns))
    decreases |turns|
  {
    FirstIsDeliverable(s, turns);
    es, t := TurnRun(s, turns[0]);
    if TurnEnding(s.mailbox, turns[0]).Some? {
      EndsNow(s.mailbox, turns);
    } else {
      EndsLater(s.mailbox, turns);
      if |turns| > 1 {
        var t1, more := t, [];
        RestIsDeliverable(s, turns, t1);
        more, t := TurnsRun(t1, turns[1..]);
        Then(s, es, t1, more, t);
        es := es + more;
      }
    }
  }

  lemma EndsNow(pointer: Option<Response>, turns: seq<Turn>)
    requires turns != [] && TurnEnding(pointer, turns[0]).Some?
    ensures EndingOf(pointer, turns) == TurnEnding(pointer, turns[0]).value
  {
  }

  lemma EndsLater(pointer: Option<Response>, turns: seq<Turn>)
    requires turns != [] && TurnEnding(pointer, turns[0]).None?
    ensures EndingOf(pointer, turns) == EndingOf(TurnPointer(pointer, turns[0]), turns[1..])
    ensures |turns| == 1 ==> EndingOf(pointer, turns) == NoAnswer
  {
  }

  // ----- Runs of the protocol as the loop -----

  const QUIET := Turn(None, None, None, None)

  /** The pointer after turns that do not end the loop. */
  function PointerAfter(pointer: Option<Response>, turns: seq<Turn>): Option<Response> {
    if turns == [] then pointer
    else TurnPointer(PointerAfter(pointer, turns[..|turns| - 1]), turns[|turns| - 1])
  }

  /** None of the turns ends the loop. */
  predicate GoesOn(pointer: Option<Response>, turns: seq<Turn>) {
    turns != [] ==>
      && GoesOn(pointer, turns[..|turns| - 1])
      && TurnEnding(PointerAfter(pointer, turns[..|turns| - 1]), turns[|turns| - 1]).None?
  }

  lemma OneMoreTurn(pointer: Option<Response>, turns: seq<Turn>, turn: Turn)
    ensures PointerAfter(pointer, turns + [turn]) == TurnPointer(PointerAfter(pointer, turns), turn)
    ensures GoesOn(pointer, turns + [turn]) <==>
            GoesOn(pointer, turns) && TurnEnding(PointerAfter(pointer, turns), turn).None?
  {
    assert (turns + [turn])[..|turns + [turn]| - 1] == turns;
  }

  /** What the loop does after such turns. */
  lemma {:induction false} EndingAfter(pointer: Option<Response>, turns: seq<Turn>, more: seq<Turn>)
    requires GoesOn(pointer, turns)
    ensures EndingOf(pointer, turns + more) == EndingOf(PointerAfter(pointer, turns), more)
  {
    if turns == [] {
      assert turns + more == more;
    } else {
      var before, last := turns[..|turns| - 1], turns[|turns| - 1];
      EndingAfter(pointer, before, [last] + more);
      EndsLater(PointerAfter(pointer, before), [last] + more);
      assert ([last] + more)[1..] == more;
      assert turns + more == before + ([last] + more);
    }
  }

  /** The state the CoAP task is in, when in its current turn the given responses have arrived so far. */
  ghost predicate InTurn(p: Option<Response>, turn: Turn, tries: nat, t: State) {
    var p1 := Stored(p, turn.sleep);
    var p2 := Stored(p1, turn.second);
    var p3 := Stored(p2, turn.third);
    match t.phase
    case Sleeping(n) =>
      n == tries && turn.second.None? && turn.third.None? && turn.fourth.None? && t.mailbox == p1
    case Seen(n) => n == tries && turn.third.None? && turn.fourth.None? && p1.Some? && t.mailbox == p2
    case IsWord(n) => n == tries && turn.fourth.None? && p1.Some? && p2.value.value.U16? && t.mailbox == p3
    case NotWord(n) => n == tries && turn.fourth.None? && p1.Some? && p2.value.value.Flag? && t.mailbox == p3
    case IsBoolean(n) =>
      && n == tries && p1.Some? && p2.value.value.Flag? && p3.value.value.Flag?
      && t.mailbox == Stored(p3, turn.fourth)
    case Answered(r) => TurnEnding(p, turn) == Some(Answer(r))
    case Crashed => TurnEnding(p, turn).Some? && TurnEnding(p, turn).value.Thrown?
    case GaveUp => TurnEnding(p, turn).None? && tries == 1
    case Idle => false
  }

  /** The responses of the turns and those still to come were on their way. */
  ghost predicate Accounted(s: State, done: seq<Turn>, turn: Turn, t: State) {
    && t.kinds == s.kinds
    && Reads(done + [turn]) + t.inFlight <= s.inFlight
    && (forall u :: u in done ==> TurnTyped(s.kinds, u))
    && TurnTyped(s.kinds, turn)
  }

  /** In state t the loop that began in s, with n tries, has done the given turns and is in another. */
  ghost predicate Follows(s: State, n: nat, done: seq<Turn>, turn: Turn, t: State) {
    && |done| < n
    && GoesOn(s.mailbox, done)
    && InTurn(PointerAfter(s.mailbox, done), turn, n - |done|, t)
    && Accounted(s, done, turn, t)
  }

  /** A response arrives: it is what the next look will find. */
  function Arrives(turn: Turn, p: Phase, r: Response): Turn {
    match p
    case Sleeping(_) => turn.(sleep := Some(r))
    case Seen(_) => turn.(second := Some(r))
    case IsWord(_) => turn.(third := Some(r))
    case NotWord(_) => turn.(third := Some(r))
    case IsBoolean(_) => turn.(fourth := Some(r))
    case _ => turn
  }

  lemma ArrivesInTurn(p: Option<Response>, turn: Turn, tries: nat, t: State, r: Response)
    requires InTurn(p, turn, tries, t) && Enabled(t, Deliver(r))
    ensures InTurn(p, Arrives(turn, t.phase, r), tries, Apply(t, Deliver(r)))
  {
  }

  lemma {:induction false} ReadsConcat(a: seq<Turn>, b: seq<Turn>)
    ensures Reads(a + b) == Reads(a) + Reads(b)
  {
    if a == [] {
      assert a + b == b;
    } else {
      assert (a + b)[1..] == a[1..] + b;
      ReadsConcat(a[1..], b);
    }
  }

  lemma OneTurnReads(turn: Turn)
    ensures Reads([turn]) == TurnReads(turn)
  {
  }

  lemma QuietTurnReads()
    ensures Reads([QUIET]) == multiset{} && TurnReads(QUIET) == multiset{}
  {
    TurnReadsAre(QUIET);
    OneTurnReads(QUIET);
  }

  /** At most one more of x. */
  ghost predicate OneMore(a': multiset<nat>, a: multiset<nat>, x: nat) {
    a' <= a + multiset{x}
  }

  lemma OneMoreLeft(a': multiset<nat>, a: multiset<nat>, b: multiset<nat>, x: nat)
    requires OneMore(a', a, x)
    ensures OneMore(a' + b, a + b, x)
  {
  }

  lemma OneMoreRight(a: multiset<nat>, b': multiset<nat>, b: multiset<nat>, x: nat)
    requires OneMore(b', b, x)
    ensures OneMore(a + b', a + b, x)
  {
  }

  lemma OneRead(o: Option<Response>, r: Response)
    ensures OneMore(ReadOf(Some(r)), ReadOf(o), r.read)
  {
  }

  lemma {:induction false} ListReplaced(rs: seq<Option<Response>>, i: nat, r: Response)
    requires i < |rs|
    ensures OneMore(ListReads(rs[i := Some(r)]), ListReads(rs), r.read)
  {
    if i == 0 {
      OneRead(rs[0], r);
      OneMoreLeft(ReadOf(Some(r)), ReadOf(rs[0]), ListReads(rs[1..]), r.read);
      assert rs[0 := Some(r)][1..] == rs[1..];
    } else {
      ListReplaced(rs[1..], i - 1, r);
      assert rs[i := Some(r)][1..] == rs[1..][i - 1 := Some(r)];
      OneMoreRight(ReadOf(rs[0]), ListReads(rs[1..][i - 1 := Some(r)]), ListReads(rs[1..]), r.read);
    }
  }

  /** The position of the response in the turn, if it comes during one. */
  function LookAt(p: Phase): Option<nat> {
    match p
    case Sleeping(_) => Some(0)
    case Seen(_) => Some(1)
    case IsWord(_) => Some(2)
    case NotWord(_) => Some(2)
    case IsBoolean(_) => Some(3)
    case _ => None
  }

  lemma ArrivesAt(turn: Turn, p: Phase, r: Response)
    ensures Arrivals(Arrives(turn, p, r)) ==
            if LookAt(p).Some? then Arrivals(turn)[LookAt(p).value := Some(r)] else Arrivals(turn)
  {
  }

  lemma ArrivesReads(turn: Turn, p: Phase, r: Response)
    ensures OneMore(TurnReads(Arrives(turn, p, r)), TurnReads(turn), r.read)
  {
    ArrivesAt(turn, p, r);
    if LookAt(p).Some? {
      ListReplaced(Arrivals(turn), LookAt(p).value, r);
    }
  }

  lemma OneTurnArrives(turn: Turn, p: Phase, r: Response)
    ensures OneMore(Reads([Arrives(turn, p, r)]), Reads([turn]), r.read)
  {
    ArrivesReads(turn, p, r);
    OneTurnReads(turn);
    OneTurnReads(Arrives(turn, p, r));
  }

  lemma LastTurnArrives(done: seq<Turn>, turn: Turn, p: Phase, r: Response)
    ensures OneMore(Reads(done + [Arrives(turn, p, r)]), Reads(done + [turn]), r.read)
  {
    OneTurnArrives(turn, p, r);
    ReadsConcat(done, [turn]);
    ReadsConcat(done, [Arrives(turn, p, r)]);
    OneMoreRight(Reads(done), Reads([Arrives(turn, p, r)]), Reads([turn]), r.read);
  }

  lemma ReadsReplaced(a: multiset<nat>, a': multiset<nat>, m: multiset<nat>, s: multiset<nat>, x: nat)
    requires a + m <= s && x in m && OneMore(a', a, x)
    ensures a' + (m - multiset{x}) <= s
  {
  }

  lemma ArrivesTyped(kinds: seq<Kind>, turn: Turn, p: Phase, r: Response)
    requires TurnTyped(kinds, turn) && Typed(kinds, Some(r))
    ensures TurnTyped(kinds, Arrives(turn, p, r))
  {
  }

  lemma ArrivesAccounted(s: State, done: seq<Turn>, turn: Turn, t: State, r: Response)
    requires Accounted(s, done, turn, t) && Enabled(t, Deliver(r))
    ensures Accounted(s, done, Arrives(turn, t.phase, r), Apply(t, Deliver(r)))
  {
    var turn' := Arrives(turn, t.phase, r);
    LastTurnArrives(done, turn, t.phase, r);
    ReadsReplaced(Reads(done + [turn]), Reads(done + [turn']), t.inFlight, s.inFlight, r.read);
    ArrivesTyped(s.kinds, turn, t.phase, r);
  }

  lemma OneFewer(a: multiset<nat>, m: multiset<nat>, s: multiset<nat>, x: nat)
    requires a + m <= s
    ensures a + (m - multiset{x}) <= s
  {
  }

  lemma DropAccounted(s: State, done: seq<Turn>, turn: Turn, t: State, read: nat)
    requires Accounted(s, done, turn, t) && read in t.inFlight
    ensures Accounted(s, done, turn, Apply(t, Drop(read)))
  {
    OneFewer(Reads(done + [turn]), t.inFlight, s.inFlight, read);
  }

  /** A step of the CoAP task that ends the turn without ending the loop. */
  predicate EndsTurn(t: State) {
    || (t.phase.Sleeping? && t.mailbox.None?)
    || (t.phase.NotWord? && t.mailbox.Some? && t.mailbox.value.value.U16?)
  }

  lemma StepInTurn(p: Option<Response>, turn: Turn, tries: nat, t: State)
    requires InTurn(p, turn, tries, t) && !EndsTurn(t) && !ServerStep(t).phase.Idle?
    ensures InTurn(p, turn, tries, ServerStep(t))
  {
  }

  lemma StepEndsTurn(p: Option<Response>, turn: Turn, tries: nat, t: State)
    requires InTurn(p, turn, tries, t) && EndsTurn(t)
    ensures TurnEnding(p, turn).None? && TurnPointer(p, turn) == t.mailbox
    ensures ServerStep(t) == t.(phase := NextTry(tries))
  {
  }

  lemma NextTurn(s: State, n: nat, done: seq<Turn>, turn: Turn, t: State)
    requires Follows(s, n, done, turn, t) && EndsTurn(t)
    ensures if |done| + 1 < n then Follows(s, n, done + [turn], QUIET, ServerStep(t))
            else Follows(s, n, done, turn, ServerStep(t))
  {
    StepEndsTurn(PointerAfter(s.mailbox, done), turn, n - |done|, t);
    if |done| + 1 < n {
      OneMoreTurn(s.mailbox, done, turn);
      NextAccounted(s, done, turn, t, ServerStep(t));
    }
  }

  lemma NextAccounted(s: State, done: seq<Turn>, turn: Turn, t: State, t': State)
    requires Accounted(s, done, turn, t) && t'.kinds == t.kinds && t'.inFlight == t.inFlight
    ensures Accounted(s, done + [turn], QUIET, t')
  {
    ReadsConcat(done + [turn], [QUIET]);
    QuietTurnReads();
  }

  lemma FollowsDeliver(s: State, n: nat, done: seq<Turn>, turn: Turn, t: State, r: Response)
    requires Follows(s, n, done, turn, t) && Enabled(t, Deliver(r))
    ensures Follows(s, n, done, Arrives(turn, t.phase, r), Apply(t, Deliver(r)))
  {
    ArrivesInTurn(PointerAfter(s.mailbox, done), turn, n - |done|, t, r);
    ArrivesAccounted(s, done, turn, t, r);
  }

  lemma FollowsDrop(s: State, n: nat, done: seq<Turn>, turn: Turn, t: State, read: nat)
    requires Follows(s, n, done, turn, t) && Enabled(t, Drop(read))
    ensures Follows(s, n, done, turn, Apply(t, Drop(read)))
  {
    DropAccounted(s, done, turn, t, read);
  }

  lemma FollowsStep(s: State, n: nat, done: seq<Turn>, turn: Turn, t: State)
    requires Follows(s, n, done, turn, t) && !EndsTurn(t) && !ServerStep(t).phase.Idle?
    ensures Follows(s, n, done, turn, ServerStep(t))
  {
    StepInTurn(PointerAfter(s.mailbox, done), turn, n - |done|, t);
  }

  /** Whatever happens next in the read, the loop follows. */
  lemma FollowsOn(s: State, n: nat, done: seq<Turn>, turn: Turn, t: State, e: Event)
    returns (done': seq<Turn>, turn': Turn)
    requires Follows(s, n, done, turn, t) && Enabled(t, e) && !e.StartRead? && !Apply(t, e).phase.Idle?
    ensures Follows(s, n, done', turn', Apply(t, e))
  {
    done', turn' := done, turn;
    match e
    case Deliver(r) =>
      turn' := Arrives(turn, t.phase, r);
      FollowsDeliver(s, n, done, turn, t, r);
    case Drop(read) =>
      FollowsDrop(s, n, done, turn, t, read);
    case Server =>
      if EndsTurn(t) {
        NextTurn(s, n, done, turn, t);
        if |done| + 1 < n {
          done', turn' := done + [turn], QUIET;
        }
      } else {
        FollowsStep(s, n, done, turn, t);
      }
  }

  lemma FollowsAtFirst(s: State, n: nat)
    requires n > 0 && s.phase == Sleeping(n)
    ensures Follows(s, n, [], QUIET, s)
  {
    assert [] + [QUIET] == [QUIET];
    QuietTurnReads();
  }

  lemma {:induction false} RunFollowed(s: State, n: nat, es: seq<Event>) returns (done: seq<Turn>, turn: Turn)
    requires n > 0 && s.phase == Sleeping(n) && NoStart(es)
    requires Run(s, es).Some? && !Run(s, es).value.phase.Idle?
    ensures Follows(s, n, done, turn, Run(s, es).value)
  {
    if es == [] {
      done, turn := [], QUIET;
      FollowsAtFirst(s, n);
    } else {
      var before, e := es[..|es| - 1], es[|es| - 1];
      assert !e.StartRead?;
      done, turn := RunFollowed(s, n, before);
      done, turn := FollowsOn(s, n, done, turn, Run(s, before).value, e);
    }
  }

  /** The read is over, but for the reset. */
  predicate Over(p: Phase) {
    p.Answered? || p.GaveUp? || p.Crashed?
  }

  function Quiet(n: nat): seq<Turn> {
    seq(n, _ => QUIET)
  }

  lemma {:induction false} QuietReads(n: nat)
    ensures Reads(Quiet(n)) == multiset{}
  {
    if n > 0 {
      assert Quiet(n)[1..] == Quiet(n - 1);
      QuietReads(n - 1);
      QuietTurnReads();
    }
  }

  /** When the read is over, nothing need arrive any more. */
  lemma FollowedToTheEnd(s: State, n: nat, done: seq<Turn>, turn: Turn, t: State)
    requires Follows(s, n, done, turn, t) && Over(t.phase)
    ensures LoopCanEnd(s, n, t.phase)
  {
    var k := n - |done| - 1;
    var turns := PaddedEnding(s, n, done, turn, t);
    PaddedReads(done + [turn], k);
    PaddedTyped(s.kinds, done, turn, k);
    CanEndSo(s, n, turns, t.phase);
  }

  lemma CanEndSo(s: State, n: nat, turns: seq<Turn>, p: Phase)
    requires |turns| == n && Reads(turns) <= s.inFlight && forall u :: u in turns ==> TurnTyped(s.kinds, u)
    requires PhaseOf(EndingOf(s.mailbox, turns)) == p
    ensures LoopCanEnd(s, n, p)
  {
    assert Deliverable(s, turns);
  }

  lemma PaddedEnding(s: State, n: nat, done: seq<Turn>, turn: Turn, t: State) returns (turns: seq<Turn>)
    requires Follows(s, n, done, turn, t) && Over(t.phase)
    ensures turns == done + [turn] + Quiet(n - |done| - 1) && |turns| == n
    ensures PhaseOf(EndingOf(s.mailbox, turns)) == t.phase
  {
    var rest := [turn] + Quiet(n - |done| - 1);
    EndingAfter(s.mailbox, done, rest);
    TurnEnds(PointerAfter(s.mailbox, done), turn, n - |done|, t, rest);
    turns := done + rest;
  }

  lemma PaddedReads(turns: seq<Turn>, k: nat)
    ensures Reads(turns + Quiet(k)) == Reads(turns)
  {
    ReadsConcat(turns, Quiet(k));
    QuietReads(k);
  }

  lemma PaddedTyped(kinds: seq<Kind>, done: seq<Turn>, turn: Turn, k: nat)
    requires (forall u :: u in done ==> TurnTyped(kinds, u)) && TurnTyped(kinds, turn)
    ensures forall u :: u in done + [turn] + Quiet(k) ==> TurnTyped(kinds, u)
  {
  }

  lemma TurnEnds(p: Option<Response>, turn: Turn, tries: nat, t: State, rest: seq<Turn>)
    requires InTurn(p, turn, tries, t) && Over(t.phase) && |rest| == tries > 0 && rest[0] == turn
    ensures PhaseOf(EndingOf(p, rest)) == t.phase
  {
    if t.phase.GaveUp? {
      EndsLater(p, rest);
    } else {
      EndsNow(p, rest);
    }
  }

  /**
   The two models agree: a read can end in an answer, without one, or in an exception exactly as the
   handler's loop can, with the same responses on their way.
   */
  lemma LoopIsProtocol(s: State, n: nat, p: Phase)
    requires n > 0 && s.phase == Sleeping(n) && Over(p)
    ensures Reaches(s, p) <==> LoopCanEnd(s, n, p)
  {
    if Reaches(s, p) {
      var es :| NoStart(es) && Run(s, es).Some? && Run(s, es).value.phase == p;
      var done, turn := RunFollowed(s, n, es);
      FollowedToTheEnd(s, n, done, turn, Run(s, es).value);
    }
    if LoopCanEnd(s, n, p) {
      var turns :| |turns| == n && Deliverable(s, turns) && PhaseOf(EndingOf(s.mailbox, turns)) == p;
      AwaitIsARun(s, turns);
    }
  }

  // ----- When the handler answers the right read -----

  /** The state in which the handler, having asked for a value of the given type, begins to wait. */
  function Asked(s: State, kind: Kind, bindings: nat): (t: State)
    requires s.phase.Idle?
    ensures t.phase == Sleeping(TRIES) && t.kinds == s.kinds + [kind]
  {
    Apply(s, StartRead(kind, bindings))
  }

  /** If with an answer, with one to the given read and of the given type. */
  ghost predicate EndsOwn(p: Phase, read: nat, kind: Kind) {
    !p.Crashed? && (p.Answered? ==> p.from.read == read && p.from.value.Kind() == kind)
  }

  /** Every wait of the next request ends with an answer to it, of the type asked for, or with none. */
  ghost predicate WaitAnswersItself(s: State)
    requires s.phase.Idle?
  {
    forall kind, bindings, p | Over(p) && LoopCanEnd(Asked(s, kind, bindings), TRIES, p) ::
      EndsOwn(p, |s.kinds|, kind)
  }

  lemma WaitEndsOwn(s: State, kind: Kind, bindings: nat, p: Phase)
    requires s.phase.Idle? && NextReadAnswersItself(s) && Over(p) && LoopCanEnd(Asked(s, kind, bindings), TRIES, p)
    ensures EndsOwn(p, |s.kinds|, kind)
  {
    LoopIsProtocol(Asked(s, kind, bindings), TRIES, p);
    var es :| NoStart(es) && Run(Asked(s, kind, bindings), es).Some?
              && Run(Asked(s, kind, bindings), es).value.phase == p;
    assert Run(Apply(s, StartRead(kind, bindings)), es).Some?;
  }

  lemma RunEndsOwn(s: State, kind: Kind, bindings: nat, es: seq<Event>)
    requires s.phase.Idle? && WaitAnswersItself(s) && NoStart(es) && Run(Asked(s, kind, bindings), es).Some?
    ensures EndsOwn(Run(Asked(s, kind, bindings), es).value.phase, |s.kinds|, kind)
  {
    var p := Run(Asked(s, kind, bindings), es).value.phase;
    if Over(p) {
      assert Reaches(Asked(s, kind, bindings), p);
      LoopIsProtocol(Asked(s, kind, bindings), TRIES, p);
    }
  }

  /** The handler's loop throws nothing and answers with its own responses exactly when nothing is left over. */
  lemma WaitAnswersItselfIffClean(s: State)
    requires Inv(s) && s.phase.Idle?
    ensures WaitAnswersItself(s) <==> Clean(s)
  {
    OwnAnswersIffClean(s);
    if NextReadAnswersItself(s) {
      forall kind, bindings, p | Over(p) && LoopCanEnd(Asked(s, kind, bindings), TRIES, p)
        ensures EndsOwn(p, |s.kinds|, kind)
      {
        WaitEndsOwn(s, kind, bindings, p);
      }
    } else if WaitAnswersItself(s) {
      WaitsDecide(s);
    }
  }

  lemma WaitsDecide(s: State)
    requires s.phase.Idle? && WaitAnswersItself(s)
    ensures NextReadAnswersItself(s)
  {
    forall kind, bindings, es | NoStart(es) && Run(Apply(s, StartRead(kind, bindings)), es).Some?
      ensures EndsOwn(Run(Apply(s, StartRead(kind, bindings)), es).value.phase, |s.kinds|, kind)
    {
      RunEndsOwn(s, kind, bindings, es);
    }
  }

  /** A wait for a value of the given type can throw exactly when something of the other type is left over. */
  lemma WaitThrowsIffOtherKindLeft(s: State, kind: Kind)
    requires Inv(s) && s.phase.Idle?
    ensures (exists bindings :: LoopCanEnd(Asked(s, kind, bindings), TRIES, Crashed)) <==> !LeftoversHaveKind(s, kind)
  {
    CrashIffOtherKindLeft(s, kind);
    if !LeftoversHaveKind(s, kind) {
      var bindings, es :| NoStart(es) && Run(Apply(s, StartRead(kind, bindings)), es).Some?
                          && Run(Apply(s, StartRead(kind, bindings)), es).value.phase.Crashed?;
      LoopIsProtocol(Asked(s, kind, bindings), TRIES, Crashed);
    }
    if bindings :| LoopCanEnd(Asked(s, kind, bindings), TRIES, Crashed) {
      LoopIsProtocol(Asked(s, kind, bindings), TRIES, Crashed);
    }
  }

  // ----- What the handler can do, from the start -----

  /** The run ends where a wait of the handler begins, and the turns are arrivals it may see. */
  ghost predicate Awaits(es: seq<Event>, kinds: seq<Kind>, turns: seq<Turn>) {
    && Run(START, es).Some?
    && var s := Run(START, es).value;
    && s.phase == Sleeping(TRIES) && s.kinds == kinds && |turns| == TRIES && Deliverable(s, turns)
  }

  function PointerAt(es: seq<Event>): Option<Response>
    requires Run(START, es).Some?
  {
    Run(START, es).value.mailbox
  }

  /** Whatever the types of two reads, the wait of the second can end with the response to the first. */
  lemma LateAnswersReachHandler(kind: Kind, next: Kind)
    ensures exists es, turns ::
              && Awaits(es, [kind, next], turns)
              && EndingOf(PointerAt(es), turns).Answer? && EndingOf(PointerAt(es), turns).from.read == 0
  {
    var es := SecondReadRun(kind, 1, next, 0);
    var late := LateAnswerRun(kind, next);
    var p := Answered(Response(0, SomeValue(kind)));
    var turns := TurnsOfRun(es, kind, 1, next, 0, late, p);
    assert EndingOf(PointerAt(es), turns) == Answer(Response(0, SomeValue(kind)));
  }

  /** The wait of a second read of the other type can end in std::bad_variant_access. */
  lemma CrashesReachHandler(kind: Kind, next: Kind)
    requires kind != next
    ensures exists es, turns :: Awaits(es, [kind, next], turns) && EndingOf(PointerAt(es), turns).Thrown?
  {
    var es := SecondReadRun(kind, 1, next, 1);
    var crash := LateCrashRun(kind, next);
    var turns := TurnsOfRun(es, kind, 1, next, 1, crash, Crashed);
    assert EndingOf(PointerAt(es), turns).Thrown?;
  }

  lemma TurnsOfRun(es: seq<Event>, kind: Kind, late: nat, next: Kind, bindings: nat, fs: seq<Event>, p: Phase)
    returns (turns: seq<Turn>)
    requires Run(START, es) == Some(SecondRead(kind, late, next, bindings)) && NoStart(fs) && Over(p)
    requires Run(SecondRead(kind, late, next, bindings), fs).Some?
    requires Run(SecondRead(kind, late, next, bindings), fs).value.phase == p
    ensures Awaits(es, [kind, next], turns) && PhaseOf(EndingOf(PointerAt(es), turns)) == p
  {
    var s := SecondRead(kind, late, next, bindings);
    SecondReadStarts(kind, late, next, bindings);
    LoopIsProtocol(s, TRIES, p);
    turns :| |turns| == TRIES && Deliverable(s, turns) && PhaseOf(EndingOf(s.mailbox, turns)) == p;
  }

  /** A turn that finds a response to one read at the second look and to another at the third. */
  function FlickeringTurn(boolean: nat, word: nat): Turn {
    Turn(Some(Response(boolean, Flag(true))), None, Some(Response(word, U16(0))), None)
  }

  function Flickering(boolean: nat, word: nat, n: nat): seq<Turn> {
    seq(n, _ => FlickeringTurn(boolean, word))
  }

  /** As many of both. */
  function Both(x: nat, y: nat, n: nat): multiset<nat> {
    if n == 0 then multiset{} else multiset{x, y} + Both(x, y, n - 1)
  }

  lemma {:induction false} BothCounts(x: nat, y: nat, n: nat)
    requires x != y
    ensures Both(x, y, n) == multiset{}[x := n][y := n]
  {
    if n > 0 {
      BothCounts(x, y, n - 1);
      OneMoreOfBoth(x, y, n);
    }
  }

  lemma OneMoreOfBoth(x: nat, y: nat, n: nat)
    requires x != y && n > 0
    ensures multiset{x, y} + multiset{}[x := n - 1][y := n - 1] == multiset{}[x := n][y := n]
  {
  }

  lemma FlickeringTurnReads(boolean: nat, word: nat)
    ensures TurnReads(FlickeringTurn(boolean, word)) == multiset{boolean, word}
  {
    TurnReadsAre(FlickeringTurn(boolean, word));
  }

  lemma {:induction false} FlickeringReads(turns: seq<Turn>, boolean: nat, word: nat)
    requires forall i :: 0 <= i < |turns| ==> turns[i] == FlickeringTurn(boolean, word)
    ensures Reads(turns) == Both(boolean, word, |turns|)
  {
    if turns != [] {
      FlickeringReads(turns[1..], boolean, word);
      FlickeringTurnReads(boolean, word);
      assert Reads(turns) == TurnReads(turns[0]) + Reads(turns[1..]);
    }
  }

  lemma FlickeringDeliverable(s: State, boolean: nat, word: nat, n: nat)
    requires boolean < |s.kinds| && s.kinds[boolean] == Boolean && word < |s.kinds| && s.kinds[word] == Word
    requires boolean != word && s.inFlight == multiset{}[boolean := n][word := n]
    ensures Deliverable(s, Flickering(boolean, word, n))
  {
    BothCounts(boolean, word, n);
    FlickeringReads(Flickering(boolean, word, n), boolean, word);
    FlickeringTyped(s.kinds, boolean, word, n);
  }

  lemma FlickeringTyped(kinds: seq<Kind>, boolean: nat, word: nat, n: nat)
    requires boolean < |kinds| && kinds[boolean] == Boolean && word < |kinds| && kinds[word] == Word
    ensures forall u :: u in Flickering(boolean, word, n) ==> TurnTyped(kinds, u)
  {
    assert TurnTyped(kinds, FlickeringTurn(boolean, word));
    forall u | u in Flickering(boolean, word, n) ensures u == FlickeringTurn(boolean, word) {
    }
  }

  lemma FlickeringMisses(boolean: nat, word: nat, n: nat)
    ensures EndingOf(None, Flickering(boolean, word, n)) == NoAnswer
  {
    var turns := Flickering(boolean, word, n);
    NoAnswerIff(None, turns);
    assert turns[0..] == turns;
    assert MissesFrom(None, turns, 0);
  }

  /** Which of two such reads is which. */
  lemma BooleanAndWord(kind: Kind, next: Kind, n: nat) returns (boolean: nat, word: nat)
    requires kind != next
    ensures var s := SecondRead(kind, n, next, n);
            && s.phase == Sleeping(TRIES) && s.mailbox == None && s.kinds == [kind, next]
            && boolean != word && s.inFlight == multiset{}[boolean := n][word := n]
            && boolean < 2 && s.kinds[boolean] == Boolean && word < 2 && s.kinds[word] == Word
  {
    SecondReadStarts(kind, n, next, n);
    boolean, word := if kind.Boolean? then 0 else 1, if kind.Boolean? then 1 else 0;
  }

  /** The wait begun at the end of the run misses every response, though every turn finds one. */
  ghost predicate MissesThough(es: seq<Event>, kinds: seq<Kind>, turns: seq<Turn>) {
    && Awaits(es, kinds, turns)
    && (forall i :: 0 <= i < |turns| ==> turns[i].sleep.Some?)
    && EndingOf(PointerAt(es), turns) == NoAnswer
    && Reaches(Run(START, es).value, GaveUp)
  }

  lemma MissesSo(es: seq<Event>, s: State, turns: seq<Turn>)
    requires Run(START, es) == Some(s) && s.phase == Sleeping(TRIES) && |turns| == TRIES && Deliverable(s, turns)
    requires forall i :: 0 <= i < |turns| ==> turns[i].sleep.Some?
    requires EndingOf(s.mailbox, turns) == NoAnswer
    ensures MissesThough(es, s.kinds, turns)
  {
    AwaitIsARun(s, turns);
  }

  lemma FlickeringWait(kind: Kind, next: Kind, s: State) returns (turns: seq<Turn>)
    requires kind != next && s == SecondRead(kind, TRIES, next, TRIES)
    ensures s.phase == Sleeping(TRIES) && s.kinds == [kind, next] && |turns| == TRIES && Deliverable(s, turns)
    ensures forall i :: 0 <= i < |turns| ==> turns[i].sleep.Some?
    ensures EndingOf(s.mailbox, turns) == NoAnswer
  {
    var boolean, word := BooleanAndWord(kind, next, TRIES);
    turns := Flickering(boolean, word, TRIES);
    FlickeringDeliverable(s, boolean, word, TRIES);
    FlickeringMisses(boolean, word, TRIES);
  }

  /**
   From the start, a read of ten bindings that times out and then one of the other type: the wait of
   the second can end without an answer, which the protocol calls giving up, though every one of its
   turns finds a response.
   */
  lemma MixedTypesCanMissAll(kind: Kind, next: Kind)
    requires kind != next
    ensures exists es, turns :: MissesThough(es, [kind, next], turns)
  {
    var es := SecondReadRun(kind, TRIES, next, TRIES);
    var s := SecondRead(kind, TRIES, next, TRIES);
    var turns := FlickeringWait(kind, next, s);
    MissesSo(es, s, turns);
  }
}
