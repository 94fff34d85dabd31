/** The open-call table behind fetch, secrets and file calls, and the host's queue of answers.
  * A run is any interleaving of call starts, host answers, takes by the pump, aborts and deadline cancels. */
module HostCalls {
  import opened Base64
  import opened Utf8
  import opened Wrappers

  /** A secret call reads a value or only writes or deletes one. */
  datatype Kind = Fetch | Secret(gets: bool) | File

  /** The host's answer: an error text, a value in the JSON, or a body that comes apart from it,
    * beside headers that `Response` accepts or throws at. */
  datatype Reply = Failed(error: int) | Value(value: int) | Body(base64: seq<Unit>, headersValid: bool)

  datatype Answer = Answer(id: nat, reply: Reply)

  /** A call of a promise's resolve or reject. */
  datatype Outcome = Resolved(value: Option<int>) | ResolvedBytes(bytes: seq<Byte>) | Rejected

  /** Where a host call of the pump may throw. */
  datatype Fault = NoFault | NextThrows | BodyThrows

  /** The host (its last id, its open count, its answers, the body `next` left for `body`), the table,
    * and the record of the run: the calls started, the answers given and taken, and the promises' outcomes. */
  datatype State = State(
    lastId: nat,
    hostOpen: int,
    queue: seq<Answer>,
    left: Option<seq<Unit>>,
    ioOpen: int,
    pending: map<nat, Kind>,
    refusing: bool,
    started: map<nat, Kind>,
    given: map<nat, Reply>,
    taken: seq<nat>,
    outcomes: map<nat, seq<Outcome>>)

  const INITIAL := State(0, 0, [], None, 0, map[], false, map[], map[], [], map[])

  datatype Event =
    | Start(kind: Kind, refuse: bool, hostThrows: bool)
    | Give(id: nat, reply: Reply)
    | Take(fault: Fault)
    | Abort(id: nat)
    | CancelAll
    | Resume

  /** What `settle` makes of an answer; None when it throws, which the pump only logs. */
  function Settled(kind: Kind, reply: Reply): Option<Outcome>
  {
    match (kind, reply)
    case (_, Failed(_)) => Some(Rejected)
    case (Fetch, Value(_)) => Some(Rejected)
    case (Fetch, Body(t, valid)) => Some(if valid && Whole(t) then ResolvedBytes(Decoded(t)) else Rejected)
    case (Secret(gets), Value(v)) => Some(Resolved(if gets then Some(v) else None))
    case (Secret(_), Body(_, _)) => Some(Resolved(None))
    case (File, Value(v)) => Some(Resolved(Some(v)))
    case (File, Body(t, _)) => if Whole(t) then Some(ResolvedBytes(Decoded(t))) else None
  }

  function Record(outcomes: map<nat, seq<Outcome>>, id: nat, outcome: Outcome): map<nat, seq<Outcome>>
  {
    outcomes[id := (if id in outcomes then outcomes[id] else []) + [outcome]]
  }

  /** A fetch and a file call can be cancelled; a secret call cannot. */
  predicate Cancellable(s: State, id: nat)
  {
    id in s.pending && !s.pending[id].Secret?
  }

  /** A fetch and a file call are always refused past the deadline, a secret call unless it is sync's. */
  predicate Refused(s: State, kind: Kind, refuse: bool)
  {
    s.refusing && (refuse || !kind.Secret?)
  }

  /** `netFetch`, `secretCall` or `fileCall`, and then `startIo`. */
  function Started(s: State, kind: Kind, refuse: bool, hostThrows: bool): State
  {
    if Refused(s, kind, refuse) || hostThrows then s
    else
      var id := s.lastId + 1;
      s.(lastId := id, hostOpen := s.hostOpen + 1, ioOpen := s.ioOpen + 1,
         pending := s.pending[id := kind], started := s.started[id := kind])
  }

  /** The host queues its one answer to a call it has open. */
  function Given(s: State, id: nat, reply: Reply): State
  {
    if id in s.started && id !in s.given then
      s.(queue := s.queue + [Answer(id, reply)], given := s.given[id := reply])
    else s
  }

  /** `ioNext`: the first answer leaves the queue, and its body waits for `ioBody`. */
  function Popped(s: State): State
    requires s.queue != []
  {
    var answer := s.queue[0];
    s.(queue := s.queue[1..], hostOpen := s.hostOpen - 1, ioOpen := s.ioOpen - 1, taken := s.taken + [answer.id],
       left := if answer.reply.Body? then Some(answer.reply.base64) else None)
  }

  /** The table entry goes and settles; an answer without an entry settles nothing. */
  function Delivered(s: State, id: nat, reply: Reply): State
  {
    if id !in s.pending then s
    else
      var t := s.(pending := s.pending - {id});
      match Settled(s.pending[id], reply)
      case None => t
      case Some(outcome) => t.(outcomes := Record(s.outcomes, id, outcome))
  }

  predicate Idle(s: State, fault: Fault)
  {
    s.ioOpen <= 0 || fault == NextThrows || s.queue == []
  }

  /** The pump throws out of its loop, leaving the table entry where it is. */
  predicate Throws(s: State, fault: Fault)
  {
    !Idle(s, fault) && fault == BodyThrows && s.queue[0].reply.Body?
  }

  /** One turn of the pump's loop. `ioBody` gives what the host has left, whichever answer that came with. */
  function Taken(s: State, fault: Fault): State
  {
    if Idle(s, fault) then s
    else
      var answer := s.queue[0];
      var t := Popped(s);
      if Throws(s, fault) then t
      else if answer.reply.Body? then
        Delivered(t.(left := None), answer.id, answer.reply.(base64 := if t.left.Some? then t.left.value else []))
      else Delivered(t, answer.id, answer.reply)
  }

  /** The whole pump: turns until it is idle or throws. */
  function Pumped(s: State, faults: seq<Fault>): State
    decreases |s.queue|
  {
    var fault := if faults == [] then NoFault else faults[0];
    if Idle(s, fault) then s
    else if Throws(s, fault) then Taken(s, fault)
    else Pumped(Taken(s, fault), if faults == [] then [] else faults[1..])
  }

  function Cancelled(s: State, id: nat): State
  {
    if Cancellable(s, id) then s.(pending := s.pending - {id}, outcomes := Record(s.outcomes, id, Rejected)) else s
  }

  function Remaining(pending: map<nat, Kind>, ids: set<nat>): map<nat, Kind>
  {
    map id | id in pending && (id !in ids || pending[id].Secret?) :: pending[id]
  }

  function Rejecting(pending: map<nat, Kind>, outcomes: map<nat, seq<Outcome>>, ids: set<nat>): map<nat, seq<Outcome>>
  {
    outcomes + map id | id in pending && id in ids && !pending[id].Secret? ::
      (if id in outcomes then outcomes[id] else []) + [Rejected]
  }

  /** The cancellable calls among [ids] are out of the table, each rejected once. */
  function CancelledAmong(s: State, ids: set<nat>): State
  {
    s.(pending := Remaining(s.pending, ids), outcomes := Rejecting(s.pending, s.outcomes, ids))
  }

  /** `__cancelHostCalls`. */
  function CancelledAll(s: State): State
  {
    CancelledAmong(s.(refusing := true), s.pending.Keys)
  }

  /** A signal's abort listener is a fetch's, and goes with its table entry. */
  function Aborted(s: State, id: nat): State
  {
    if id in s.pending && s.pending[id].Fetch? then Cancelled(s, id) else s
  }

  function Step(s: State, e: Event): State
  {
    match e
    case Start(kind, refuse, hostThrows) => Started(s, kind, refuse, hostThrows)
    case Give(id, reply) => Given(s, id, reply)
    case Take(fault) => Taken(s, fault)
    case Abort(id) => Aborted(s, id)
    case CancelAll => CancelledAll(s)
    case Resume => s.(refusing := false)
  }

  function Run(s: State, events: seq<Event>): State
    decreases |events|
  {
    if events == [] then s else Run(Step(s, events[0]), events[1..])
  }

  // ------------------------------------------------------------- invariant

  predicate Distinct(ids: seq<nat>)
  {
    forall i, j :: 0 <= i < j < |ids| ==> ids[i] != ids[j]
  }

  function QueuedIds(queue: seq<Answer>): (ids: seq<nat>)
    ensures |ids| == |queue| && forall i :: 0 <= i < |queue| ==> ids[i] == queue[i].id
  {
    seq(|queue|, i requires 0 <= i < |queue| => queue[i].id)
  }

  /** Calls are numbered as they start, the counts are the calls started and not yet taken, and a call
    * is answered at most once: its answer is taken, or queued, or not given yet. */
  ghost predicate Counted(s: State)
  {
    && (forall id :: id in s.started ==> 0 < id <= s.lastId)
    && s.ioOpen == s.hostOpen == |s.started| - |s.taken|
    && Distinct(s.taken + QueuedIds(s.queue))
    && (forall id :: id in s.given <==> id in s.taken + QueuedIds(s.queue))
    && s.given.Keys <= s.started.Keys
    && (forall i :: 0 <= i < |s.queue| ==> s.given[s.queue[i].id] == s.queue[i].reply)
  }

  /** A call in the table has no outcome. Out of it, it has one: its own answer, settled, or a cancelled
    * call's rejection; or none, when settling its answer threw. */
  ghost predicate CallKept(s: State, id: nat)
  {
    && id in s.started
    && (id in s.pending ==> s.pending[id] == s.started[id] && id !in s.outcomes)
    && (id in s.pending && id in s.taken ==> id in s.given && s.given[id].Body?)
    && (id in s.outcomes ==>
          && |s.outcomes[id]| == 1
          && ((id in s.taken && id in s.given && Settled(s.started[id], s.given[id]) == Some(s.outcomes[id][0])) ||
              (s.outcomes[id] == [Rejected] && !s.started[id].Secret?)))
    && (id !in s.pending && id !in s.outcomes ==>
          id in s.taken && id in s.given && Settled(s.started[id], s.given[id]) == None)
  }

  ghost predicate Settling(s: State)
  {
    forall id :: id in s.started || id in s.pending || id in s.outcomes ==> CallKept(s, id)
  }

  ghost predicate Invariant(s: State)
  {
    Counted(s) && Settling(s)
  }

  lemma DistinctSize(ids: seq<nat>, within: set<nat>)
    requires Distinct(ids) && forall id :: id in ids ==> id in within
    ensures |ids| <= |within|
  {
    if ids != [] {
      DistinctSize(ids[1..], within - {ids[0]});
    }
  }

  /** The answer at the head of the queue is the host's one answer to a call not taken yet. */
  lemma HeadIsNew(s: State)
    requires Counted(s) && s.queue != []
    ensures s.ioOpen > 0
    ensures var id := s.queue[0].id;
            id in s.given && id in s.started && id !in s.taken && s.given[id] == s.queue[0].reply
  {
    var ids := s.taken + QueuedIds(s.queue);
    assert ids[|s.taken|] == s.queue[0].id;
    assert forall i :: 0 <= i < |s.taken| ==> ids[i] == s.taken[i];
    DistinctSize(ids, s.started.Keys);
  }

  lemma StartedCounts(s: State, id: nat, kind: Kind)
    requires Counted(s) && id == s.lastId + 1
    ensures Counted(s.(lastId := id, hostOpen := s.hostOpen + 1, ioOpen := s.ioOpen + 1,
                       pending := s.pending[id := kind], started := s.started[id := kind]))
  {
    assert id !in s.started;
    assert |s.started[id := kind]| == |s.started| + 1;
  }

  lemma NewIsUnknown(s: State, id: nat)
    requires Invariant(s) && id > s.lastId
    ensures id !in s.started && id !in s.outcomes && id !in s.pending && id !in s.taken && id !in s.given
  {
    hide Settled;
    assert id in s.outcomes || id in s.pending ==> CallKept(s, id);
    assert forall other :: other in s.taken ==> other in s.taken + QueuedIds(s.queue);
  }

  lemma StartedKeeps(s: State, kind: Kind, refuse: bool, hostThrows: bool)
    requires Invariant(s)
    ensures Invariant(Started(s, kind, refuse, hostThrows))
  {
    hide Settled, Counted;
    if !(Refused(s, kind, refuse) || hostThrows) {
      var id := s.lastId + 1;
      StartedCounts(s, id, kind);
      var t := Started(s, kind, refuse, hostThrows);
      NewIsUnknown(s, id);
      forall other | other in t.started || other in t.pending || other in t.outcomes
        ensures CallKept(t, other)
      {
        assert other != id ==> CallKept(s, other);
      }
    }
  }

  lemma GivenCounts(s: State, id: nat, reply: Reply)
    requires Counted(s) && id in s.started && id !in s.given
    ensures Counted(Given(s, id, reply))
  {
    var t := Given(s, id, reply);
    var ids := s.taken + QueuedIds(s.queue);
    assert QueuedIds(t.queue) == QueuedIds(s.queue) + [id];
    assert t.taken + QueuedIds(t.queue) == ids + [id];
    assert id !in ids;
    forall i | 0 <= i < |s.queue| ensures s.queue[i].id in s.given && s.queue[i].id != id {
      assert ids[|s.taken| + i] == s.queue[i].id;
    }
  }

  lemma GivenKeeps(s: State, id: nat, reply: Reply)
    requires Invariant(s)
    ensures Invariant(Given(s, id, reply))
  {
    if id in s.started && id !in s.given {
      GivenCounts(s, id, reply);
      var t := Given(s, id, reply);
      forall other | other in t.started || other in t.pending || other in t.outcomes
        ensures CallKept(t, other)
      {
        assert CallKept(s, other);
      }
    }
  }

  lemma PoppedCounts(s: State)
    requires Counted(s) && s.queue != []
    ensures Counted(Popped(s))
  {
    var t := Popped(s);
    assert QueuedIds(t.queue) == QueuedIds(s.queue)[1..];
    assert t.taken + QueuedIds(t.queue) == s.taken + QueuedIds(s.queue);
  }

  lemma SameCounts(s: State, t: State)
    requires Counted(s)
    requires t.started == s.started && t.lastId == s.lastId && t.ioOpen == s.ioOpen && t.hostOpen == s.hostOpen
    requires t.taken == s.taken && t.queue == s.queue && t.given == s.given
    ensures Counted(t)
  {
  }

  /** The body the pump takes is the one its answer came with. */
  lemma TakesOwnBody(s: State, fault: Fault)
    requires !Idle(s, fault) && !Throws(s, fault)
    ensures exists left :: Taken(s, fault) == Delivered(Popped(s).(left := left), s.queue[0].id, s.queue[0].reply)
  {
    var reply := s.queue[0].reply;
    assert reply.Body? ==> reply.(base64 := Popped(s).left.value) == reply;
    assert Popped(s).(left := Popped(s).left) == Popped(s);
  }

  lemma IsKept(s: State, id: nat)
    requires Settling(s) && id in s.started
    ensures CallKept(s, id)
  {
  }

  /** Taking one answer leaves every other call as it was. */
  lemma OthersKept(s: State, t: State, id: nat)
    requires Settling(s) && CallKept(t, id)
    requires t.started == s.started && t.given == s.given && t.taken == s.taken + [id]
    requires t.pending - {id} == s.pending - {id} && t.outcomes - {id} == s.outcomes - {id}
    ensures Settling(t)
  {
    forall other | other in t.started || other in t.pending || other in t.outcomes
      ensures CallKept(t, other)
    {
      if other != id {
        assert other in t.pending <==> other in t.pending - {id};
        assert other in s.pending <==> other in s.pending - {id};
        assert other in t.outcomes <==> other in t.outcomes - {id};
        assert other in s.outcomes <==> other in s.outcomes - {id};
        assert other in s.pending ==> (s.pending - {id})[other] == s.pending[other];
        assert CallKept(s, other);
      }
    }
  }

  lemma DeliveredSettles(s: State, t: State, id: nat, reply: Reply)
    requires Settling(s) && id in s.given && id !in s.taken && s.given[id] == reply && id in s.started
    requires t.started == s.started && t.given == s.given && t.taken == s.taken + [id]
    requires t.pending == s.pending && t.outcomes == s.outcomes
    ensures Settling(Delivered(t, id, reply))
  {
    hide Settled;
    assert CallKept(s, id);
    OthersKept(s, Delivered(t, id, reply), id);
  }

  lemma TakenSettles(s: State, fault: Fault)
    requires Settling(s) && !Idle(s, fault)
    requires
      var id := s.queue[0].id;
      id in s.given && id !in s.taken && id in s.started && s.given[id] == s.queue[0].reply
    ensures Settling(Taken(s, fault))
  {
    hide Settled, Settling;
    var id := s.queue[0].id;
    if Throws(s, fault) {
      IsKept(s, id);
      OthersKept(s, Taken(s, fault), id);
    } else {
      TakesOwnBody(s, fault);
      var left :| Taken(s, fault) == Delivered(Popped(s).(left := left), id, s.queue[0].reply);
      DeliveredSettles(s, Popped(s).(left := left), id, s.queue[0].reply);
    }
  }

  lemma TakenCounts(s: State, fault: Fault)
    requires Counted(s) && !Idle(s, fault)
    ensures Counted(Taken(s, fault))
  {
    hide Counted, Settled, Record;
    PoppedCounts(s);
    SameCounts(Popped(s), Taken(s, fault));
  }

  lemma TakenKeeps(s: State, fault: Fault)
    requires Invariant(s)
    ensures Invariant(Taken(s, fault))
  {
    hide Counted, Settling, Delivered, Popped;
    if !Idle(s, fault) {
      HeadIsNew(s);
      TakenCounts(s, fault);
      TakenSettles(s, fault);
    }
  }

  lemma CancelledKeeps(s: State, id: nat)
    requires Invariant(s)
    ensures Invariant(Cancelled(s, id))
  {
    var t := Cancelled(s, id);
    SameCounts(s, t);
    forall other | other in t.started || other in t.pending || other in t.outcomes
      ensures CallKept(t, other)
    {
      assert CallKept(s, other);
    }
  }

  lemma CancelledAllKeeps(s: State)
    requires Invariant(s)
    ensures Invariant(CancelledAll(s))
  {
    var t := CancelledAll(s);
    SameCounts(s, t);
    forall other | other in t.started || other in t.pending || other in t.outcomes
      ensures CallKept(t, other)
    {
      assert CallKept(s, other);
    }
  }

  lemma StepKeeps(s: State, e: Event)
    requires Invariant(s)
    ensures Invariant(Step(s, e))
  {
    match e
    case Start(kind, refuse, hostThrows) => StartedKeeps(s, kind, refuse, hostThrows);
    case Give(id, reply) => GivenKeeps(s, id, reply);
    case Take(fault) => TakenKeeps(s, fault);
    case Abort(id) => CancelledKeeps(s, id);
    case CancelAll => CancelledAllKeeps(s);
    case Resume =>
      var t := s.(refusing := false);
      SameCounts(s, t);
      assert forall id :: CallKept(s, id) ==> CallKept(t, id);
  }

  // ------------------------------------------------------------ every run

  lemma {:induction false} RunKeeps(s: State, events: seq<Event>)
    requires Invariant(s)
    ensures Invariant(Run(s, events))
    decreases |events|
  {
    if events != [] {
      StepKeeps(s, events[0]);
      RunKeeps(Step(s, events[0]), events[1..]);
    }
  }

  lemma InitialKept()
    ensures Invariant(INITIAL)
  {
  }

  /** Over any interleaving: each promise settles at most once, and the open counts of both sides are
    * the calls started minus the answers taken. */
  lemma EveryRunCounts(events: seq<Event>)
    ensures var s := Run(INITIAL, events);
            && s.ioOpen == s.hostOpen == |s.started| - |s.taken| >= 0
            && (forall id :: id in s.outcomes ==> id in s.started && |s.outcomes[id]| == 1)
            && (forall id :: id in s.started && id !in s.taken && id !in s.pending ==>
                  id in s.outcomes && s.outcomes[id] == [Rejected])
  {
    InitialKept();
    RunKeeps(INITIAL, events);
    var s := Run(INITIAL, events);
    forall id | id in s.started || id in s.outcomes ensures CallKept(s, id) {}
    assert forall i :: 0 <= i < |s.taken| ==> (s.taken + QueuedIds(s.queue))[i] == s.taken[i];
    DistinctSize(s.taken, s.started.Keys);
  }

  /** Bytes reach a promise only from its own call's answer, whole, whatever bodies were skipped on the way. */
  lemma BodyIsOwn(events: seq<Event>, id: nat)
    requires var s := Run(INITIAL, events); id in s.outcomes && s.outcomes[id] != [] && s.outcomes[id][0].ResolvedBytes?
    ensures var s := Run(INITIAL, events);
            && id in s.given && s.given[id].Body? && Whole(s.given[id].base64)
            && s.outcomes[id] == [ResolvedBytes(Decoded(s.given[id].base64))]
  {
    InitialKept();
    RunKeeps(INITIAL, events);
    assert CallKept(Run(INITIAL, events), id);
  }

  ghost predicate Final(s: State, t: State, id: nat)
  {
    id in t.started && id !in t.pending && (id in s.outcomes <==> id in t.outcomes) &&
    (id in s.outcomes ==> t.outcomes[id] == s.outcomes[id])
  }

  lemma StepIsFinal(s: State, e: Event, id: nat)
    requires Invariant(s) && id in s.started && id !in s.pending
    ensures Final(s, Step(s, e), id)
  {
    hide Counted, Settled, CallKept;
    assert id <= s.lastId by { NumberedUpTo(s, id); }
    if e.Take? && !Idle(s, e.fault) && !Throws(s, e.fault) {
      TakesOwnBody(s, e.fault);
    }
  }

  lemma NumberedUpTo(s: State, id: nat)
    requires Counted(s)
    ensures id in s.started ==> id <= s.lastId
  {
  }

  /** A call out of the table keeps what it has for good: a late answer settles nothing. */
  lemma {:induction false} OutOfTheTableIsFinal(s: State, events: seq<Event>, id: nat)
    requires Invariant(s) && id in s.started && id !in s.pending
    ensures Final(s, Run(s, events), id)
    decreases |events|
  {
    if events != [] {
      StepIsFinal(s, events[0], id);
      StepKeeps(s, events[0]);
      OutOfTheTableIsFinal(Step(s, events[0]), events[1..], id);
    }
  }

  /** Whatever comes after a cancel, its late answer included, the promise has the one rejection. */
  lemma CancelledStaysRejected(before: seq<Event>, after: seq<Event>, id: nat)
    requires Cancellable(Run(INITIAL, before), id)
    ensures var s := Run(Cancelled(Run(INITIAL, before), id), after);
            id !in s.pending && id in s.outcomes && s.outcomes[id] == [Rejected]
  {
    InitialKept();
    RunKeeps(INITIAL, before);
    var s := Run(INITIAL, before);
    CancelledKeeps(s, id);
    assert CallKept(s, id);
    OutOfTheTableIsFinal(Cancelled(s, id), after, id);
  }

  /** A fault-free turn takes the head of the queue and settles its own entry with its own answer. */
  lemma TakenShape(s: State)
    requires !Idle(s, NoFault)
    ensures var t, id := Taken(s, NoFault), s.queue[0].id;
            && t.queue == s.queue[1..] && t.taken == s.taken + [id] && t.pending == s.pending - {id}
            && t.started == s.started && t.ioOpen == s.ioOpen - 1
            && t.outcomes == if id !in s.pending then s.outcomes
                             else match Settled(s.pending[id], s.queue[0].reply)
                               case None => s.outcomes
                               case Some(outcome) => Record(s.outcomes, id, outcome)
  {
    hide Settled, Record;
    TakesOwnBody(s, NoFault);
  }

  predicate Unreadable(kind: Kind, reply: Reply)
  {
    kind.File? && reply.Body? && !Whole(reply.base64)
  }

  /** An answer to a call still in the table settles it for good, and with its own outcome, exactly when
    * it is not a file call's unreadable body; that call's promise never settles. */
  lemma AnswerSettlesIff(s: State, after: seq<Event>)
    requires Invariant(s) && !Idle(s, NoFault) && s.queue[0].id in s.pending
    ensures var id := s.queue[0].id;
            var t := Run(Taken(s, NoFault), after);
            && (id in t.outcomes <==> !Unreadable(s.pending[id], s.queue[0].reply))
            && (id in t.outcomes ==>
                  |t.outcomes[id]| == 1 && Settled(s.pending[id], s.queue[0].reply) == Some(t.outcomes[id][0]))
  {
    hide Run, Step, Taken, Counted;
    var id := s.queue[0].id;
    var t := Taken(s, NoFault);
    assert id in s.started && id !in s.outcomes by { assert CallKept(s, id); }
    TakenShape(s);
    TakenKeeps(s, NoFault);
    OutOfTheTableIsFinal(t, after, id);
    assert Settled(s.pending[id], s.queue[0].reply) == None <==> Unreadable(s.pending[id], s.queue[0].reply);
  }

  /** What the promise of a call in the table has for good once its answer is taken, whatever comes after: an error
    * rejects it on every channel; a value resolves a file call, or a secret that is read, with that value, and a secret
    * that is written or deleted with none; a fetch resolves exactly on a whole body with headers that hold, with its
    * bytes; a file call's whole body resolves it with its bytes. */
  lemma AnswerOutcome(s: State, after: seq<Event>)
    requires Invariant(s) && !Idle(s, NoFault) && s.queue[0].id in s.pending
    ensures var id, kind, reply := s.queue[0].id, s.pending[s.queue[0].id], s.queue[0].reply;
            var outcomes := Run(Taken(s, NoFault), after).outcomes;
            && (reply.Failed? ==> id in outcomes && outcomes[id] == [Rejected])
            && (reply.Value? && (kind.File? || (kind.Secret? && kind.gets)) ==>
                  id in outcomes && outcomes[id] == [Resolved(Some(reply.value))])
            && (!reply.Failed? && kind.Secret? && !kind.gets ==> id in outcomes && outcomes[id] == [Resolved(None)])
            && (kind.Fetch? ==>
                  var resolves := reply.Body? && reply.headersValid && Whole(reply.base64);
                  && id in outcomes
                  && outcomes[id] == [if resolves then ResolvedBytes(Decoded(reply.base64)) else Rejected])
            && (kind.File? && reply.Body? ==>
                  if Whole(reply.base64) then id in outcomes && outcomes[id] == [ResolvedBytes(Decoded(reply.base64))]
                  else id !in outcomes)
  {
    hide Run, Taken, Invariant;
    AnswerSettlesIff(s, after);
    var t := Run(Taken(s, NoFault), after);
    if s.queue[0].id in t.outcomes {
      assert t.outcomes[s.queue[0].id] == [t.outcomes[s.queue[0].id][0]];
    }
  }

  /** A call starts exactly unless the host throws, or, past the deadline, it is a fetch, a file call, or a secret that
    * is not sync's; and then it is in the table under a new number, with one more call open on both sides. */
  lemma StartsIff(s: State, kind: Kind, refuse: bool, hostThrows: bool)
    requires Invariant(s)
    ensures var t := Step(s, Start(kind, refuse, hostThrows));
            var starts := !hostThrows && (!s.refusing || (kind.Secret? && !refuse));
            && (!starts ==> t == s)
            && (starts ==>
                  && t.lastId !in s.started && t.pending == s.pending[t.lastId := kind]
                  && t.started == s.started[t.lastId := kind]
                  && t.ioOpen == s.ioOpen + 1 && t.hostOpen == s.hostOpen + 1)
  {
  }

  const UNREADABLE_READ := [Start(File, true, false), Give(1, Body([65], true)), Take(NoFault)]

  /** One file call answered with a body that is not whole base64: its promise is out of the table and, whatever
    * comes after, never settles. */
  lemma UnreadableFileBodyNeverSettles(after: seq<Event>)
    ensures var t := Run(Run(INITIAL, UNREADABLE_READ), after);
            1 in t.taken && 1 !in t.pending && 1 !in t.outcomes
  {
    var reply := Body([65], true);
    var one := Step(INITIAL, UNREADABLE_READ[0]);
    var two := Step(one, UNREADABLE_READ[1]);
    var three := Step(two, UNREADABLE_READ[2]);
    assert one.pending == map[1 := File] && two.queue == [Answer(1, reply)];
    assert !Whole([65]) && Settled(File, reply) == None;
    assert three.pending == map[] && three.outcomes == map[] && three.taken == [1];
    UnrollThree(INITIAL, UNREADABLE_READ);
    InitialKept();
    RunKeeps(INITIAL, UNREADABLE_READ);
    OutOfTheTableIsFinal(three, after, 1);
    TakenStays(three, after, 1);
  }

  lemma UnrollThree(s: State, events: seq<Event>)
    requires |events| == 3
    ensures Run(s, events) == Step(Step(Step(s, events[0]), events[1]), events[2])
  {
    hide Step;
    var one, two := Step(s, events[0]), events[1..];
    assert Run(s, events) == Run(one, two);
    assert two[0] == events[1] && two[1..][0] == events[2] && two[1..][1..] == [];
    assert Run(one, two) == Run(Step(one, two[0]), two[1..]);
  }

  lemma {:induction false} TakenStays(s: State, events: seq<Event>, id: nat)
    requires id in s.taken
    ensures id in Run(s, events).taken
    decreases |events|
  {
    hide Settled, Record;
    if events != [] {
      TakenStays(Step(s, events[0]), events[1..], id);
    }
  }

  // ------------------------------------------------- the pump and the drain

  /** A pump is a run of turns. */
  lemma {:induction false} PumpIsRun(s: State, faults: seq<Fault>) returns (turns: seq<Event>)
    ensures Pumped(s, faults) == Run(s, turns)
    ensures forall i :: 0 <= i < |turns| ==> turns[i].Take?
    decreases |s.queue|
  {
    var fault := if faults == [] then NoFault else faults[0];
    if Idle(s, fault) {
      turns := [];
    } else if Throws(s, fault) {
      turns := [Take(fault)];
      assert Run(Taken(s, fault), turns[1..]) == Taken(s, fault);
    } else {
      var rest := PumpIsRun(Taken(s, fault), if faults == [] then [] else faults[1..]);
      turns := [Take(fault)] + rest;
      assert turns[1..] == rest;
    }
  }

  /** A pump the host does not fail takes every answer waiting, and no answered call stays in the table. */
  lemma {:induction false} PumpTakesEveryAnswer(s: State)
    requires Invariant(s)
    ensures var t := Pumped(s, []);
            && t.queue == [] && s.taken <= t.taken && t.pending.Keys <= s.pending.Keys
            && (forall i :: 0 <= i < |s.queue| ==> s.queue[i].id in t.taken && s.queue[i].id !in t.pending)
    decreases |s.queue|
  {
    hide Taken, Counted, Settling;
    if s.queue != [] {
      HeadIsNew(s);
      TakenShape(s);
      var t := Taken(s, NoFault);
      TakenKeeps(s, NoFault);
      PumpTakesEveryAnswer(t);
      forall i | 0 <= i < |s.queue|
        ensures s.queue[i].id in Pumped(s, []).taken && s.queue[i].id !in Pumped(s, []).pending
      {
        if i > 0 {
          assert t.queue[i - 1] == s.queue[i];
        } else {
          assert t.taken[|s.taken|] == s.queue[0].id;
        }
      }
    }
  }

  /** From a deadline's cancel to the resume only secret calls are open in the table, so the operation drains. */
  lemma {:induction false} OnlySecretsAfterCancel(s: State, events: seq<Event>)
    requires s.refusing && (forall id :: id in s.pending ==> s.pending[id].Secret?)
    requires Resume !in events
    ensures var t := Run(s, events); t.refusing && forall id :: id in t.pending ==> t.pending[id].Secret?
    decreases |events|
  {
    if events != [] {
      var t := Step(s, events[0]);
      if events[0].Take? && !Idle(s, events[0].fault) && !Throws(s, events[0].fault) {
        TakesOwnBody(s, events[0].fault);
      }
      OnlySecretsAfterCancel(t, events[1..]);
    }
  }

  lemma DeadlineDrains(before: seq<Event>, after: seq<Event>)
    requires Resume !in after
    ensures var t := Run(CancelledAll(Run(INITIAL, before)), after);
            t.refusing && forall id :: id in t.pending ==> t.pending[id].Secret?
  {
    OnlySecretsAfterCancel(CancelledAll(Run(INITIAL, before)), after);
  }

  lemma TakenShrinks(s: State, fault: Fault)
    ensures !Idle(s, fault) ==> |Taken(s, fault).queue| < |s.queue|
  {
  }

  lemma RejectingOneMore(pending: map<nat, Kind>, outcomes: map<nat, seq<Outcome>>, ids: set<nat>, id: nat)
    requires id in pending && id !in ids
    ensures Rejecting(pending, outcomes, ids + {id}) ==
            if pending[id].Secret? then Rejecting(pending, outcomes, ids)
            else Record(Rejecting(pending, outcomes, ids), id, Rejected)
    ensures Remaining(pending, ids + {id}) ==
            if pending[id].Secret? then Remaining(pending, ids) else Remaining(pending, ids) - {id}
  {
  }

  lemma CancelledOneMore(s: State, ids: set<nat>, id: nat)
    requires id in s.pending && id !in ids
    ensures CancelledAmong(s, ids + {id}) ==
            if s.pending[id].Secret? then CancelledAmong(s, ids) else Cancelled(CancelledAmong(s, ids), id)
  {
    hide Rejecting, Record;
    RejectingOneMore(s.pending, s.outcomes, ids, id);
  }

  lemma NoneCancelled(s: State)
    ensures CancelledAmong(s, {}) == s
  {
    assert CancelledAmong(s, {}).pending == s.pending;
    assert CancelledAmong(s, {}).outcomes == s.outcomes;
  }

  lemma StillPending(s: State, done: set<nat>, id: nat)
    requires id in s.pending && id !in done
    ensures var t := CancelledAmong(s, done);
            id in t.pending && t.pending[id] == s.pending[id] && (!s.pending[id].Secret? ==> Cancellable(t, id))
  {
  }

  // ------------------------------------------------------- the table itself

  /** The host's side: calls run off the engine thread and their answers wait in a queue. */
  class HostIo {
    var nextId: nat
    var open: int
    var answers: seq<Answer>
    var taken: Option<seq<Unit>>

    constructor ()
      ensures nextId == 0 && open == 0 && answers == [] && taken == None
    {
      nextId, open, answers, taken := 0, 0, [], None;
    }

    method Call() returns (id: nat)
      modifies this
      ensures id == nextId == old(nextId) + 1 && open == old(open) + 1
      ensures answers == old(answers) && taken == old(taken)
    {
      nextId := nextId + 1;
      open := open + 1;
      id := nextId;
    }

    method Next() returns (answer: Option<Answer>)
      modifies this
      ensures nextId == old(nextId)
      ensures old(answers) == [] ==>
                answer == None && open == old(open) && answers == [] && taken == old(taken)
      ensures old(answers) != [] ==>
                && answer == Some(old(answers)[0]) && open == old(open) - 1 && answers == old(answers)[1..]
                && taken == if answer.value.reply.Body? then Some(answer.value.reply.base64) else None
    {
      if answers == [] {
        return None;
      }
      answer := Some(answers[0]);
      answers := answers[1..];
      open := open - 1;
      taken := if answer.value.reply.Body? then Some(answer.value.reply.base64) else None;
    }

    method Body() returns (text: seq<Unit>)
      modifies this
      ensures nextId == old(nextId) && open == old(open) && answers == old(answers) && taken == None
      ensures text == if old(taken).Some? then old(taken).value else []
    {
      text := if taken.Some? then taken.value else [];
      taken := None;
    }
  }

  class Calls {
    const host: HostIo
    var ioPending: map<nat, Kind>
    var ioOpen: int
    var refusing: bool
    ghost var started: map<nat, Kind>
    ghost var given: map<nat, Reply>
    ghost var takenIds: seq<nat>
    ghost var outcomes: map<nat, seq<Outcome>>

    ghost function View(): State
      reads this, host
    {
      State(host.nextId, host.open, host.answers, host.taken, ioOpen, ioPending, refusing, started, given, takenIds,
          outcomes)
    }

    constructor ()
      ensures View() == INITIAL && fresh(host)
    {
      host := new HostIo();
      ioPending, ioOpen, refusing := map[], 0, false;
      started, given, takenIds, outcomes := map[], map[], [], map[];
    }

    /** A fetch, secret or file call up to its `startIo`; a refusal or a throwing host rejects it unstarted. */
    method Call(kind: Kind, refuse: bool, hostThrows: bool) returns (id: Option<nat>)
      modifies this, host
      ensures View() == Started(old(View()), kind, refuse, hostThrows)
      ensures id == if Refused(old(View()), kind, refuse) || hostThrows then None else Some(host.nextId)
    {
      if refusing && (refuse || !kind.Secret?) {
        return None;
      }
      if hostThrows {
        return None;
      }
      var given := host.Call();
      ioOpen := ioOpen + 1;
      ioPending := ioPending[given := kind];
      started := started[given := kind];
      id := Some(given);
    }

    /** An entry's `settle`: the promise's one outcome, or nothing when it throws. */
    method Settle(kind: Kind, id: nat, reply: Reply)
      modifies this`outcomes
      ensures outcomes == match Settled(kind, reply)
                          case None => old(outcomes)
                          case Some(outcome) => Record(old(outcomes), id, outcome)
      ensures reply.Failed? ==> outcomes == Record(old(outcomes), id, Rejected)
      ensures reply.Value? && !kind.Fetch? ==>
                outcomes == Record(old(outcomes), id,
                  Resolved(if kind.Secret? && !kind.gets then None else Some(reply.value)))
      ensures kind.Fetch? && !(reply.Body? && reply.headersValid && Whole(reply.base64)) ==>
                outcomes == Record(old(outcomes), id, Rejected)
      ensures !kind.Secret? && reply.Body? && Whole(reply.base64) && (kind.Fetch? ==> reply.headersValid) ==>
                outcomes == Record(old(outcomes), id, ResolvedBytes(Decoded(reply.base64)))
      ensures kind.File? && reply.Body? && !Whole(reply.base64) ==> outcomes == old(outcomes)
    {
      match reply
      case Failed(_) => outcomes := Record(outcomes, id, Rejected);
      case Value(v) =>
        match kind {
          case Fetch => outcomes := Record(outcomes, id, Rejected);
          case Secret(gets) => outcomes := Record(outcomes, id, Resolved(if gets then Some(v) else None));
          case File => outcomes := Record(outcomes, id, Resolved(Some(v)));
        }
      case Body(text, headersValid) =>
        match kind {
          case Fetch =>
            var bytes := FromBase64(text);
            var outcome := if headersValid && bytes.Ok? then ResolvedBytes(bytes.value) else Rejected;
            outcomes := Record(outcomes, id, outcome);
          case Secret(_) => outcomes := Record(outcomes, id, Resolved(None));
          case File =>
            var bytes := FromBase64(text);
            if bytes.Ok? {
              outcomes := Record(outcomes, id, ResolvedBytes(bytes.value));
            }
        }
    }

    /** An answer's table entry, if there is one, goes and settles. */
    method Deliver(id: nat, reply: Reply) returns (found: bool)
      modifies this`ioPending, this`outcomes
      ensures View() == Delivered(old(View()), id, reply)
      ensures |ioPending| == |old(ioPending)| - if found then 1 else 0
    {
      hide Settled, Record;
      found := id in ioPending;
      if found {
        var kind := ioPending[id];
        ioPending := ioPending - {id};
        Settle(kind, id, reply);
      }
    }

    /** One turn of the pump: no more when no answer was taken, or when `body` throws out of the pump. */
    method Turn(fault: Fault) returns (more: bool, threw: bool, found: bool)
      modifies this, host
      ensures View() == Taken(old(View()), fault)
      ensures more <==> !Idle(old(View()), fault) && !Throws(old(View()), fault)
      ensures threw <==> Throws(old(View()), fault)
      ensures |ioPending| == |old(ioPending)| - if found then 1 else 0
    {
      hide Delivered;
      more, threw, found := false, false, false;
      if ioOpen <= 0 || fault == NextThrows {
        return;
      }
      var next := host.Next();
      if next == None {
        return;
      }
      var reply := next.value.reply;
      ioOpen := ioOpen - 1;
      takenIds := takenIds + [next.value.id];
      assert View() == Popped(old(View()));
      if reply.Body? {
        if fault == BodyThrows {
          threw := true;
          return;
        }
        var text := host.Body();
        reply := reply.(base64 := text);
      }
      more := true;
      found := Deliver(next.value.id, reply);
    }

    /** Takes and settles answers until none is left, `next` throws, or `body` throws out of the pump;
      * turn i meets faults[i], and none past their end. Counts the table entries it settled. */
    method PumpIo(faults: seq<Fault>) returns (settled: nat, threw: bool)
      modifies this, host
      ensures View() == Pumped(old(View()), faults)
      ensures settled == |old(ioPending)| - |ioPending|
    {
      hide Settled, Record, Delivered, Popped;
      settled, threw := 0, false;
      var rest := faults;
      var more := true;
      while more
        invariant more ==> Pumped(old(View()), faults) == Pumped(View(), rest)
        invariant !more ==> View() == Pumped(old(View()), faults)
        invariant settled == |old(ioPending)| - |ioPending|
        decreases more, |host.answers|
      {
        ghost var s := View();
        var fault := if rest == [] then NoFault else rest[0];
        var found;
        more, threw, found := Turn(fault);
        settled := if found then settled + 1 else settled;
        rest := if rest == [] then [] else rest[1..];
        assert more ==> |View().queue| < |s.queue| by { TakenShrinks(s, fault); }
      }
    }

    /** A fetch's or file call's `cancel`: out of the table, aborted on the host, rejected. */
    method Cancel(id: nat)
      requires Cancellable(View(), id)
      modifies this`ioPending, this`outcomes
      ensures View() == Cancelled(old(View()), id)
    {
      ioPending := ioPending - {id};
      outcomes := Record(outcomes, id, Rejected);
    }

    /** A fetch's abort listener. */
    method Abort(id: nat)
      modifies this`ioPending, this`outcomes
      ensures View() == Aborted(old(View()), id)
      ensures var fetches := id in old(ioPending) && old(ioPending)[id].Fetch?;
              && (!fetches ==> View() == old(View()))
              && (fetches ==>
                    && ioPending == old(ioPending) - {id} && id in outcomes && outcomes[id] != []
                    && outcomes[id][|outcomes[id]| - 1] == Rejected)
    {
      if id in ioPending && ioPending[id].Fetch? {
        Cancel(id);
      }
    }

    /** The deadline passed: every cancellable call is cancelled, in any order, and new ones are refused. */
    method CancelHostCalls()
      modifies this`refusing, this`ioPending, this`outcomes
      ensures View() == CancelledAll(old(View()))
    {
      hide Cancelled, CancelledAmong, Cancellable;
      refusing := true;
      ghost var s := View();
      var rest := ioPending.Keys;
      ghost var done: set<nat> := {};
      NoneCancelled(s);
      while rest != {}
        invariant rest + done == s.pending.Keys && rest !! done
        invariant View() == CancelledAmong(s, done)
        decreases |rest|
      {
        var id :| id in rest;
        StillPending(s, done, id);
        CancelledOneMore(s, done, id);
        if !ioPending[id].Secret? {
          Cancel(id);
        }
        rest := rest - {id};
        done := done + {id};
      }
    }
  }
}
