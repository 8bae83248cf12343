/** The waiting half of ForwardAttributeReadMessage (main/CoapServer.cpp) and the text it answers with. */
module ReadHandler {
  import opened Common
  import opened Decimal
  import opened Bindings
  import opened Mailbox
  import opened BiMaps
  import CoapServer

  const BUFFER_SIZE := 40

  /** std::to_string of the value held; a bool prints as a number. */
  function Text(v: Value): string {
    match v
    case U16(n) => ToString(n)
    case Flag(b) => ToString(if b then 1 else 0)
  }

  /**
   The answer is the decimal writing of the value, in as few characters; it fits the handler's buffer
   with room to spare, and std::stoi reads the value back from it.
   */
  lemma TextFitsAndReadsBack(v: Value)
    ensures 1 <= |Text(v)| <= 5 < 40
    ensures Stoi(Text(v)) == Ok(match v case U16(n) => n case Flag(b) => if b then 1 else 0)
    ensures v.Flag? ==> Text(v) == if v.flag then "1" else "0"
    ensures v.U16? ==> IsDecimal(Text(v), v.word)
    ensures v.U16? ==> forall k :: k >= 1 ==> (|Text(v)| <= k <==> v.word < Power(10, k))
  {
    var n := match v case U16(n) => n case Flag(b) => if b then 1 else 0;
    StoiOfToString(n);
    DigitsText(n);
    assert Power(10, 2) == 100;
    assert Power(10, 5) == 10 * (10 * (10 * Power(10, 2))) == 100000;
    DigitsLength(n, 5, 100000);
    DigitsWriteIt(n);
    forall k | k >= 1 ensures |Digits(n)| <= k <==> n < Power(10, k) {
      DigitsLength(n, k, Power(10, k));
    }
  }

  /** snprintf of a text without conversions: stores what fits and a NUL, and returns the full length. */
  method Snprintf(buffer: array<char>, text: string) returns (size: nat)
    requires buffer.Length > 0
    modifies buffer
    ensures size == |text|
    ensures var n := if |text| < buffer.Length then |text| else buffer.Length - 1;
            buffer[..] == text[..n] + ['\0'] + old(buffer[n + 1..])
  {
    size := |text|;
    var n := if |text| < buffer.Length then |text| else buffer.Length - 1;
    for i := 0 to n
      invariant forall k :: 0 <= k < i ==> buffer[k] == text[k]
      invariant forall k :: i <= k < buffer.Length ==> buffer[k] == old(buffer[k])
    {
      buffer[i] := text[i];
    }
    buffer[n] := '\0';
    assert buffer[..n] == text[..n];
    assert buffer[n + 1..] == old(buffer[n + 1..]);
    assert buffer[..] == buffer[..n] + [buffer[n]] + buffer[n + 1..];
  }

  /**
   The responses the Matter task stores during one turn of the polling loop: during the sleep, and
   before the second, the third and the fourth look at the result pointer. One that comes before a
   look the turn does not take is not stored.
   */
  datatype Turn = Turn(
    sleep: Option<Response>,
    second: Option<Response>,
    third: Option<Response>,
    fourth: Option<Response>)

  /** How the loop is left. */
  datatype Ending =
    | Answer(from: Response)
    | NoAnswer               // all tries used up
    | Thrown(left: Response) // std::get met the other alternative, of the response left in the pointer

  function Stored(pointer: Option<Response>, arrival: Option<Response>): Option<Response> {
    if arrival.Some? then arrival else pointer
  }

  /** What get by the type of p does when the pointer holds q. */
  function Use(p: Response, q: Response): Ending {
    if p.value.Kind() == q.value.Kind() then Answer(q) else Thrown(q)
  }

  /** How the loop ends in a turn, if it does, given the pointer before the turn. */
  function TurnEnding(pointer: Option<Response>, t: Turn): Option<Ending> {
    var p1 := Stored(pointer, t.sleep);
    if p1.None? then None else SeenEnding(p1.value, t)
  }

  /** How the loop ends in a turn, if it does, once the first look has found a response. */
  function SeenEnding(p: Response, t: Turn): Option<Ending> {
    var p2 := Stored(Some(p), t.second);
    var p3 := Stored(p2, t.third);
    if p2.value.value.U16? then Some(Use(p2.value, p3.value))
    else if p3.value.value.Flag? then Some(Use(p3.value, Stored(p3, t.fourth).value))
    else None
  }

  /** The pointer after a turn that does not end the loop. */
  function TurnPointer(pointer: Option<Response>, t: Turn): Option<Response> {
    var p1 := Stored(pointer, t.sleep);
    if p1.None? then p1 else Stored(Stored(p1, t.second), t.third)
  }

  /** How the loop ends, given the pointer before its first sleep. */
  function EndingOf(pointer: Option<Response>, turns: seq<Turn>): Ending
    decreases |turns|
  {
    if turns == [] then NoAnswer
    else
      var ending := TurnEnding(pointer, turns[0]);
      if ending.Some? then ending.value else EndingOf(TurnPointer(pointer, turns[0]), turns[1..])
  }

  predicate HasKind(r: Option<Response>, kind: Kind) {
    r.Some? ==> r.value.value.Kind() == kind
  }

  /** All the responses about have the given type. */
  predicate AllHaveKind(pointer: Option<Response>, turns: seq<Turn>, kind: Kind) {
    && HasKind(pointer, kind)
    && forall t :: t in turns ==>
         HasKind(t.sleep, kind) && HasKind(t.second, kind) && HasKind(t.third, kind) && HasKind(t.fourth, kind)
  }

  /** No turn finds a response when it first looks. */
  predicate NoneSeen(pointer: Option<Response>, turns: seq<Turn>) {
    pointer.None? && forall i :: 0 <= i < |turns| ==> turns[i].sleep.None?
  }

  /**
   When all the responses about have one type, the loop throws nothing, answers with that type if it
   answers, and ends without an answer exactly when none arrives before the last sleep is over.
   */
  lemma {:induction false} EndingOfOneKind(pointer: Option<Response>, turns: seq<Turn>, kind: Kind)
    requires turns != [] && AllHaveKind(pointer, turns, kind)
    ensures !EndingOf(pointer, turns).Thrown?
    ensures EndingOf(pointer, turns).Answer? ==> EndingOf(pointer, turns).from.value.Kind() == kind
    ensures EndingOf(pointer, turns).NoAnswer? <==> NoneSeen(pointer, turns)
  {
    assert turns[0] in turns;
    if Stored(pointer, turns[0].sleep).None? && |turns| > 1 {
      EndingOfOneKind(None, turns[1..], kind);
      assert turns == [turns[0]] + turns[1..];
    }
  }

  /** Whatever the types, the loop ends without an answer when none arrives before the last sleep is over. */
  lemma {:induction false} NoneSeenNoAnswer(pointer: Option<Response>, turns: seq<Turn>)
    requires NoneSeen(pointer, turns)
    ensures EndingOf(pointer, turns) == NoAnswer
  {
    if turns != [] {
      NoneSeenNoAnswer(None, turns[1..]);
    }
  }

  /**
   With prev in the pointer, the turn finds a response, a bool at its second look, and a uint16_t just
   arrived at its third: it neither answers nor throws.
   */
  predicate Flickers(prev: Option<Response>, t: Turn) {
    && Stored(prev, t.sleep).Some?
    && Stored(Stored(prev, t.sleep), t.second).value.value.Flag?
    && t.third.Some? && t.third.value.value.U16?
  }

  /** Turn i flickers: the first one from the pointer, a later one from what arrived last in the turn before. */
  predicate FlickersAt(pointer: Option<Response>, turns: seq<Turn>, i: nat)
    requires i < |turns|
  {
    Flickers(if i == 0 then pointer else turns[i - 1].third, turns[i])
  }

  predicate AllFlicker(pointer: Option<Response>, turns: seq<Turn>) {
    forall i :: 0 <= i < |turns| ==> FlickersAt(pointer, turns, i)
  }

  /** Nothing is there for the first m turns; from then on every turn finds a response and flickers. */
  predicate MissesFrom(pointer: Option<Response>, turns: seq<Turn>, m: nat)
    requires m <= |turns|
  {
    (m > 0 ==> NoneSeen(pointer, turns[..m])) && AllFlicker(pointer, turns[m..])
  }

  ghost predicate MissesAll(pointer: Option<Response>, turns: seq<Turn>) {
    exists m :: 0 <= m <= |turns| && MissesFrom(pointer, turns, m)
  }

  lemma FlickersIff(p: Option<Response>, t: Turn)
    requires Stored(p, t.sleep).Some?
    ensures Flickers(p, t) <==> TurnEnding(p, t).None?
    ensures Flickers(p, t) ==> TurnPointer(p, t) == t.third && t.third.Some?
  {
  }

  lemma FlickersLater(p: Option<Response>, turns: seq<Turn>, i: nat)
    requires 0 < i < |turns|
    ensures FlickersAt(p, turns, i) <==> FlickersAt(turns[0].third, turns[1..], i - 1)
  {
  }

  lemma AllFlickerCons(p: Option<Response>, turns: seq<Turn>)
    requires turns != []
    ensures AllFlicker(p, turns) <==> Flickers(p, turns[0]) && AllFlicker(turns[0].third, turns[1..])
  {
    forall i | 0 < i < |turns|
      ensures FlickersAt(p, turns, i) <==> FlickersAt(turns[0].third, turns[1..], i - 1)
    {
      FlickersLater(p, turns, i);
    }
    assert FlickersAt(p, turns, 0) <==> Flickers(p, turns[0]);
    if AllFlicker(p, turns) {
      forall i | 0 <= i < |turns| - 1 ensures FlickersAt(turns[0].third, turns[1..], i) {
        assert FlickersAt(p, turns, i + 1);
      }
    }
  }

  lemma {:induction false} OnceSeen(p: Option<Response>, turns: seq<Turn>)
    requires p.Some?
    ensures EndingOf(p, turns).NoAnswer? <==> AllFlicker(p, turns)
    decreases |turns|
  {
    if turns != [] {
      AllFlickerCons(p, turns);
      FlickersIff(p, turns[0]);
      if Flickers(p, turns[0]) {
        OnceSeen(turns[0].third, turns[1..]);
      }
    }
  }

  lemma MissesSeen(p: Option<Response>, turns: seq<Turn>)
    requires turns != [] && Stored(p, turns[0].sleep).Some?
    ensures MissesAll(p, turns) <==> AllFlicker(p, turns)
  {
    assert turns[0..] == turns;
    assert MissesFrom(p, turns, 0) <==> AllFlicker(p, turns);
    forall m | 0 < m <= |turns| ensures !MissesFrom(p, turns, m) {
      assert turns[..m][0] == turns[0];
    }
  }

  /** The first turn finds nothing. */
  lemma MissesUnseen(turns: seq<Turn>)
    requires turns != [] && turns[0].sleep.None?
    ensures MissesAll(None, turns) <==> MissesAll(None, turns[1..])
  {
    if m :| 0 <= m <= |turns| && MissesFrom(None, turns, m) {
      SkipTurn(turns, m);
    }
    if m :| 0 <= m <= |turns| - 1 && MissesFrom(None, turns[1..], m) {
      SkipTurn(turns, m + 1);
    }
  }

  lemma SkipTurn(turns: seq<Turn>, m: nat)
    requires turns != [] && turns[0].sleep.None? && m <= |turns|
    ensures MissesFrom(None, turns, m) <==> m > 0 && MissesFrom(None, turns[1..], m - 1)
  {
    if m == 0 {
      assert turns[0..] == turns;
      assert !FlickersAt(None, turns, 0);
    } else {
      assert turns[1..][m - 1..] == turns[m..];
      NoneSeenCons(turns, m);
    }
  }

  lemma NoneSeenCons(turns: seq<Turn>, m: nat)
    requires 0 < m <= |turns| && turns[0].sleep.None?
    ensures NoneSeen(None, turns[..m]) <==> NoneSeen(None, turns[1..][..m - 1])
  {
    assert turns[..m] == [turns[0]] + turns[1..][..m - 1];
  }

  /**
   Whatever the types of the responses, the loop ends without an answer exactly when up to some turn
   none is there after the sleep, and from that turn on a bool found at the second look always gives
   way to a uint16_t before the third.
   */
  lemma {:induction false} NoAnswerIff(pointer: Option<Response>, turns: seq<Turn>)
    ensures EndingOf(pointer, turns).NoAnswer? <==> MissesAll(pointer, turns)
    decreases |turns|
  {
    if turns == [] {
      assert MissesFrom(pointer, turns, 0);
    } else if Stored(pointer, turns[0].sleep).Some? {
      MissesSeen(pointer, turns);
      AllFlickerCons(pointer, turns);
      FlickersIff(pointer, turns[0]);
      if Flickers(pointer, turns[0]) {
        OnceSeen(turns[0].third, turns[1..]);
      }
    } else {
      MissesUnseen(turns);
      NoAnswerIff(None, turns[1..]);
    }
  }

  /** What the buffer and the size come to. */
  ghost predicate Fills(ending: Ending, size: Option<nat>, was: seq<char>, now: seq<char>)
    requires |was| == BUFFER_SIZE
  {
    if ending.Answer? then
      var text := Text(ending.from.value);
      size == Some(|text|) && |text| < BUFFER_SIZE && now == text + ['\0'] + was[|text| + 1..]
    else size == None && now == was
  }

  class ReadTask {
    var resultPtr: Option<Response>

    /** What the Matter task stores between two looks at the pointer. */
    method Store(arrival: Option<Response>)
      modifies this
      ensures resultPtr == Stored(old(resultPtr), arrival)
    {
      if arrival.Some? {
        resultPtr := arrival;
      }
    }

    /** Writes the value into the buffer. */
    method Fill(buffer: array<char>, value: Value) returns (size: nat)
      requires buffer.Length == BUFFER_SIZE
      modifies buffer
      ensures size == |Text(value)| < BUFFER_SIZE
      ensures buffer[..] == Text(value) + ['\0'] + old(buffer[..])[|Text(value)| + 1..]
    {
      TextFitsAndReadsBack(value);
      var text := Text(value);
      assert text[..|text|] == text;
      assert old(buffer[|text| + 1..]) == old(buffer[..])[|text| + 1..];
      size := Snprintf(buffer, text);
    }

    /**
     One turn of the loop; None when it found nothing to answer with. What TurnEnding comes to over the
     turns of a wait is said by NoAnswerIff and EndingOfOneKind, and by the runs of the protocol.
     */
    method Poll(buffer: array<char>, turn: Turn) returns (ending: Option<Ending>, size: Option<nat>)
      requires buffer.Length == BUFFER_SIZE
      modifies this, buffer
      ensures ending == TurnEnding(old(resultPtr), turn)
      ensures ending.None? ==> resultPtr == TurnPointer(old(resultPtr), turn)
      ensures ending.Some? && ending.value.Thrown? ==> resultPtr == Some(ending.value.left)
      ensures Fills(if ending.Some? then ending.value else NoAnswer, size, old(buffer[..]), buffer[..])
    {
      ending, size := None, None;
      Store(turn.sleep);
      if resultPtr.Some? {
        Store(turn.second);
        if resultPtr.value.value.U16? {
          Store(turn.third);
          if !resultPtr.value.value.U16? {
            ending := Some(Thrown(resultPtr.value));
            return;
          }
          var n := Fill(buffer, resultPtr.value.value);
          ending, size := Some(Answer(resultPtr.value)), Some(n);
        } else {
          Store(turn.third);
          if resultPtr.value.value.Flag? {
            Store(turn.fourth);
            if !resultPtr.value.value.Flag? {
              ending := Some(Thrown(resultPtr.value));
              return;
            }
            var n := Fill(buffer, resultPtr.value.value);
            ending, size := Some(Answer(resultPtr.value)), Some(n);
          }
        }
      }
    }

    /**
     Waits for a response, and resets the pointer unless it leaves through an exception. The size
     stays unset exactly when every turn misses.
     */
    method AwaitResponse(buffer: array<char>, turns: seq<Turn>) returns (r: Result<Option<nat>>)
      requires buffer.Length == 40 && |turns| == 10
      modifies this, buffer
      ensures var ending := EndingOf(old(resultPtr), turns);
              if ending.Thrown? then
                r == Err(BadVariantAccess) && resultPtr == Some(ending.left) && buffer[..] == old(buffer[..])
              else
                r.Ok? && resultPtr == None && Fills(ending, r.value, old(buffer[..]), buffer[..])
      ensures r == Ok(None) <==> MissesAll(old(resultPtr), turns)
      ensures forall kind :: AllHaveKind(old(resultPtr), turns, kind) ==>
                r.Ok? && (r.value == None <==> NoneSeen(old(resultPtr), turns))
    {
      forall kind | AllHaveKind(resultPtr, turns, kind)
        ensures !EndingOf(resultPtr, turns).Thrown?
        ensures EndingOf(resultPtr, turns).NoAnswer? <==> NoneSeen(resultPtr, turns)
      {
        EndingOfOneKind(resultPtr, turns, kind);
      }
      NoAnswerIff(resultPtr, turns);
      var size: Option<nat> := None;
      var tries := TRIES;
      while tries > 0
        invariant 0 <= tries <= TRIES && size == None && buffer[..] == old(buffer[..])
        invariant EndingOf(resultPtr, turns[TRIES - tries..]) == EndingOf(old(resultPtr), turns)
      {
        assert turns[TRIES - tries..][1..] == turns[TRIES - tries + 1..];
        var ending;
        ending, size := Poll(buffer, turns[TRIES - tries]);
        if ending.Some? {
          if ending.value.Thrown? {
            return Err(BadVariantAccess);
          }
          break;
        }
        tries := tries - 1;
      }
      resultPtr := None;
      return Ok(size);
    }

    /**
     The whole handler: the work item it schedules, and the size it reports. When a lookup or a
     conversion of the path throws, it has neither waited nor touched the buffer or the pointer.
     While only responses of the type it asks for are about, it throws nothing after that, and leaves
     the size unset exactly when none arrives before the last sleep is over.
     */
    method ForwardAttributeReadMessage(server: CoapServer.Server, uri: string, mapping: MatterIpsoMapping,
                                       raw: CoapServer.Raw, buffer: array<char>, turns: seq<Turn>)
      returns (r: Result<(BindingCommandData, Option<nat>)>)
      requires mapping.Valid() && buffer.Length == 40 && |turns| == 10
      modifies this, buffer
      ensures match old(CoapServer.AttributeCommand(server.typeMap, mapping, uri, false, raw))
              case Err(e) => r == Err(e) && resultPtr == old(resultPtr) && buffer[..] == old(buffer[..])
              case Ok(data) =>
                && (EndingOf(old(resultPtr), turns).Thrown? ==> r == Err(BadVariantAccess))
                && (!EndingOf(old(resultPtr), turns).Thrown? ==>
                      && r.Ok? && r.value.0 == data && resultPtr == None
                      && Fills(EndingOf(old(resultPtr), turns), r.value.1, old(buffer[..]), buffer[..]))
                && (r.Ok? && r.value.1 == None <==> MissesAll(old(resultPtr), turns))
                && (AllHaveKind(old(resultPtr), turns, data.data.Kind()) ==>
                      r.Ok? && (r.value.1 == None <==> NoneSeen(old(resultPtr), turns)))
    {
      var data :- server.ScheduleAttributeRead(uri, mapping, raw);
      var size :- AwaitResponse(buffer, turns);
      return Ok((data, size));
    }
  }

  // ----- The type of the answer -----

  /** A read of a resource of the given type ends, if with an answer, with one of its own and of that type. */
  ghost predicate AnswersAs(p: Phase, read: nat, valueType: string) {
    && !p.Crashed?
    && (p.Answered? ==>
          && p.from.read == read
          && if valueType == "Boolean"
             then p.from.value.Flag? && Text(p.from.value) == if p.from.value.flag then "1" else "0"
             else p.from.value.U16? && IsDecimal(Text(p.from.value), p.from.value.word))
  }

  lemma TypedRead(s: State, valueType: string, bindings: nat, es: seq<Event>)
    requires Inv(s) && s.phase.Idle? && Clean(s) && NoStart(es)
    requires Run(Apply(s, StartRead(CoapServer.KindOf(valueType), bindings)), es).Some?
    ensures var t := Run(Apply(s, StartRead(CoapServer.KindOf(valueType), bindings)), es).value;
            AnswersAs(t.phase, |s.kinds|, valueType)
  {
    var kind := CoapServer.KindOf(valueType);
    StaysOwn(Apply(s, StartRead(kind, bindings)), es, |s.kinds|, kind);
    var p := Run(Apply(s, StartRead(kind, bindings)), es).value.phase;
    if p.Answered? {
      TextFitsAndReadsBack(p.from.value);
    }
  }

  /**
   A GET on a path of a registered object, when nothing of an earlier read is left: the read that the
   work item for the path asks for answers, if at all, with a response to itself; as "0" or "1" if the
   definition that installed the handler has type "Boolean", and otherwise as the decimal text of a
   uint16_t, which reads back as the value.
   */
  lemma RegisteredRead(types: map<string, string>, mapping: MatterIpsoMapping, def: CoapServer.ObjectDefinition,
                       uri: string, raw: CoapServer.Raw, binding: Binding, cluster: uint32, attribute: uint32,
                       kind: Kind, s: State, bindings: nat, es: seq<Event>)
    requires mapping.Valid() && CoapServer.TypesOf(types, def)
    requires CoapServer.HasAttributeHandler(CoapServer.HandlersAt(def, uri, map[]))
    requires CoapServer.Sent(types, mapping, uri, false, raw, binding) == Ok(Read(cluster, attribute, kind))
    requires Inv(s) && s.phase.Idle? && Clean(s) && NoStart(es)
    requires Run(Apply(s, StartRead(kind, bindings)), es).Some?
    ensures var r := CoapServer.LastRegistering(def.id, def.resources, uri);
            r.Some? && AnswersAs(Run(Apply(s, StartRead(kind, bindings)), es).value.phase, |s.kinds|, r.value.valueType)
  {
    CoapServer.RegisteredSends(types, mapping, def, uri, false, raw, binding);
    var r := CoapServer.LastRegistering(def.id, def.resources, uri).value;
    assert kind == CoapServer.KindOf(r.valueType);
    TypedRead(s, r.valueType, bindings, es);
  }
}
