/** The throttled publisher of the Android widgets: store changes coalesce into one timer, publications clear it. */
module WidgetPublisher {
  import opened Wrappers

  const PUBLISH_DELAY_MS := 1_000
  const FOREGROUND_MIN_INTERVAL_MS := 5 * 60_000

  /** What a publication meets: the sandbox or an unfinished boot, a payload that cannot be built, or a payload,
    * its stale flag and whether handing it over throws. */
  datatype Build = NotReady | CannotBuild | Payload(payload: int, stale: bool, throws: bool)

  /** The publisher's variables, the engine's live timers, and the record of the run: the first store change not
    * yet published, the times the timer fired, and the payloads handed over. */
  datatype State = State(
    last: Option<int>,
    timer: Option<nat>,
    due: int,
    storeChangePending: bool,
    lastStoreRefreshAt: int,
    live: set<nat>,
    nextTimer: nat,
    changedAt: Option<int>,
    firings: seq<int>,
    handed: seq<(int, bool)>)

  const INITIAL := State(None, None, 0, false, 0, {}, 1, None, [], [])

  /** A store change, the Focus setting's or an ordinary one, read by the clock at its delay and at its schedule;
    * a Focus filter change; a publication the host asks for; and a live timer that fires. */
  datatype Event =
    | Change(ordinary: bool, active: bool, now: int, later: int)
    | FocusFilter(now: int)
    | Publish(now: int, build: Build)
    | Fire(timer: nat, now: int, build: Build)

  function Max(a: int, b: int): int { if a < b then b else a }

  function Min(a: int, b: int): int { if a < b then a else b }

  function StoreChangeDelay(lastStoreRefreshAt: int, active: bool, now: int): int
  {
    if active then Min(Max(lastStoreRefreshAt + FOREGROUND_MIN_INTERVAL_MS - now, PUBLISH_DELAY_MS),
        FOREGROUND_MIN_INTERVAL_MS)
    else PUBLISH_DELAY_MS
  }

  function Live(timer: Option<nat>): set<nat>
  {
    if timer.Some? then {timer.value} else {}
  }

  /** In [delay], or sooner if a publication is due sooner. */
  function Scheduled(s: State, now: int, delay: int): State
  {
    if s.timer.Some? && now + delay >= s.due then s
    else
      s.(due := now + delay, timer := Some(s.nextTimer), nextTimer := s.nextTimer + 1,
          live := s.live - Live(s.timer) + {s.nextTimer})
  }

  function Handed(s: State, build: Build): State
  {
    match build
    case Payload(payload, stale, throws) =>
      if throws || (s.last == Some(payload) && !stale) then s
      else s.(last := Some(payload), handed := s.handed + [(payload, stale)])
    case _ => s
  }

  function Published(s: State, now: int, build: Build): State
  {
    var t := s.(live := s.live - Live(s.timer), timer := None, storeChangePending := false, changedAt := None,
                lastStoreRefreshAt := if s.storeChangePending then now else s.lastStoreRefreshAt);
    Handed(t, build)
  }

  function Changed(s: State, ordinary: bool, active: bool, now: int, later: int): State
  {
    var t := s.(storeChangePending := true, changedAt := if s.storeChangePending then s.changedAt else Some(later));
    Scheduled(t, later, if ordinary then StoreChangeDelay(s.lastStoreRefreshAt, active, now) else PUBLISH_DELAY_MS)
  }

  /** A timer fires once it is due; a cleared one never does. */
  function Fired(s: State, timer: nat, now: int, build: Build): State
  {
    if timer !in s.live || now < s.due then s
    else Published(s.(live := s.live - {timer}, timer := None, firings := s.firings + [now]), now, build)
  }

  function Step(s: State, e: Event): State
  {
    match e
    case Change(ordinary, active, now, later) => Changed(s, ordinary, active, now, later)
    case FocusFilter(now) => Scheduled(s, now, PUBLISH_DELAY_MS)
    case Publish(now, build) => Published(s, now, build)
    case Fire(timer, now, build) => Fired(s, timer, now, build)
  }

  function Run(events: seq<Event>): State
  {
    if events == [] then INITIAL else Step(Run(events[..|events| - 1]), events[|events| - 1])
  }

  // -------------------------------------------------------------- every state

  /** The one live timer is the publisher's own; a pending store change has it, due within five minutes of the
    * change; and the last payload handed over is the one remembered. */
  ghost predicate Invariant(s: State)
  {
    && s.live == Live(s.timer) && (s.timer.Some? ==> s.timer.value < s.nextTimer)
    && (s.storeChangePending <==> s.changedAt.Some?)
    && (s.storeChangePending ==> s.timer.Some? && s.due <= s.changedAt.value + FOREGROUND_MIN_INTERVAL_MS)
    && (s.last == if s.handed == [] then None else Some(s.handed[|s.handed| - 1].0))
    && (forall i :: 0 < i < |s.handed| && s.handed[i].0 == s.handed[i - 1].0 ==> s.handed[i].1)
  }

  lemma StepKeeps(s: State, e: Event)
    requires Invariant(s)
    ensures Invariant(Step(s, e))
  {
    match e
    case Change(ordinary, active, now, later) =>
    case FocusFilter(now) =>
    case Publish(now, build) =>
    case Fire(timer, now, build) =>
  }

  /** In every reachable state a pending store change has a timer, due within five minutes of it, no other timer
    * is live, and no payload was handed over twice in a row unless the widgets had lost it. */
  lemma {:induction false} RunKeeps(events: seq<Event>)
    ensures Invariant(Run(events))
  {
    if events != [] {
      RunKeeps(events[..|events| - 1]);
      StepKeeps(Run(events[..|events| - 1]), events[|events| - 1]);
    }
  }

  /** Between firings and publications the due time only moves earlier, and the timer stays. */
  lemma DueOnlyEarlier(s: State, e: Event)
    requires Invariant(s) && s.timer.Some? && (e.Change? || e.FocusFilter?)
    ensures Step(s, e).timer.Some? && Step(s, e).due <= s.due
  {
  }

  /** In the background, for the Focus setting, or five minutes after the last refresh, a change is due within a
    * second; in front it never waits more than five minutes. */
  lemma DueWithinASecond(s: State, ordinary: bool, active: bool, now: int, later: int)
    ensures var t := Changed(s, ordinary, active, now, later);
            && t.timer.Some? && t.due <= later + FOREGROUND_MIN_INTERVAL_MS
            && (!active || !ordinary || now >= s.lastStoreRefreshAt + FOREGROUND_MIN_INTERVAL_MS ==>
                t.due <= later + PUBLISH_DELAY_MS)
            && (s.timer.None? ==> t.due >= later + PUBLISH_DELAY_MS)
  {
    assert FOREGROUND_MIN_INTERVAL_MS == 300_000;
  }

  /** When a change is due, to the millisecond: after a second in the background, for the Focus setting, and once the
    * last refresh is 299 seconds old; in front, five minutes after that refresh, or after the change by a clock set
    * back; and never later than a publication already due. A Focus filter's change is due after a second. */
  lemma DueExactly(s: State, ordinary: bool, active: bool, now: int, later: int)
    ensures var wait := if !active || !ordinary || now - s.lastStoreRefreshAt >= 299_000 then 1_000
                        else if now < s.lastStoreRefreshAt then 300_000
                        else s.lastStoreRefreshAt + 300_000 - now;
            var t := Step(s, Change(ordinary, active, now, later));
            && t.storeChangePending && t.timer.Some? && t.handed == s.handed
            && t.due == if s.timer.Some? && s.due <= later + wait then s.due else later + wait
    ensures var t := Step(s, FocusFilter(now));
            && t.timer.Some? && t.handed == s.handed && t.storeChangePending == s.storeChangePending
            && t.due == if s.timer.Some? && s.due <= now + 1_000 then s.due else now + 1_000
  {
    assert FOREGROUND_MIN_INTERVAL_MS == 300_000;
  }

  /** What a publication hands over, in any reachable state: its payload, exactly when it is built and handing it over
    * does not throw, and it is not the last one handed over or the widgets have lost that. It clears the timer and the
    * pending change, and is the store's refresh exactly when a change was pending. */
  lemma HandsOverIff(events: seq<Event>, e: Event)
    requires e.Publish? || (e.Fire? && e.timer in Run(events).live && e.now >= Run(events).due)
    ensures var s, t := Run(events), Step(Run(events), e);
            var hands := && e.build.Payload? && !e.build.throws
                         && (e.build.stale || s.handed == [] || s.handed[|s.handed| - 1].0 != e.build.payload);
            && t.handed == s.handed + (if hands then [(e.build.payload, e.build.stale)] else [])
            && t.timer == None && t.live == {} && !t.storeChangePending
            && t.lastStoreRefreshAt == (if s.storeChangePending then e.now else s.lastStoreRefreshAt)
  {
    RunKeeps(events);
    assert Run(events).handed + [] == Run(events).handed;
  }

  // ----------------------------------------------------------- in the foreground

  function TimeOf(e: Event): int
  {
    match e
    case Change(_, _, _, later) => later
    case FocusFilter(now) => now
    case Publish(now, _) => now
    case Fire(_, now, _) => now
  }

  /** Ordinary store changes with the app in front, and firings, by a clock that never goes back. */
  predicate Foreground(events: seq<Event>)
  {
    && (forall i :: 0 <= i < |events| ==>
          match events[i]
          case Change(ordinary, active, now, later) => ordinary && active && now <= later
          case Fire(_, _, _) => true
          case _ => false)
    && (forall i, j :: 0 <= i < j < |events| ==>
          TimeOf(events[i]) <= match events[j] case Change(_, _, now, _) => now case _ => TimeOf(events[j]))
  }

  ghost predicate Throttled(s: State)
  {
    && (s.timer.Some? ==> s.storeChangePending)
    && (s.firings != [] ==>
          && s.lastStoreRefreshAt == s.firings[|s.firings| - 1]
          && (s.timer.Some? ==> s.due >= s.lastStoreRefreshAt + FOREGROUND_MIN_INTERVAL_MS))
    && (forall i :: 0 < i < |s.firings| ==> s.firings[i] - s.firings[i - 1] >= FOREGROUND_MIN_INTERVAL_MS)
  }

  /** Consecutive firings are at least five minutes apart. */
  lemma {:induction false} FiringsFiveMinutesApart(events: seq<Event>)
    requires Foreground(events)
    ensures Throttled(Run(events))
    ensures events != [] && Run(events).firings != [] ==> Run(events).lastStoreRefreshAt <= TimeOf(events[|events| - 1])
  {
    if events != [] {
      var before, e := events[..|events| - 1], events[|events| - 1];
      FiringsFiveMinutesApart(before);
      RunKeeps(before);
      var s := Run(before);
      if s.firings != [] {
        assert before != [];
        assert before[|before| - 1] == events[|events| - 2];
      }
      match e
      case Change(_, _, now, later) =>
      case Fire(timer, now, build) =>
    }
  }

  // ------------------------------------------------------------- the publisher

  class Publisher {
    var last: Option<int>
    var timer: Option<nat>
    var due: int
    var storeChangePending: bool
    var lastStoreRefreshAt: int
    var live: set<nat>
    var nextTimer: nat
    ghost var changedAt: Option<int>
    ghost var firings: seq<int>
    ghost var handed: seq<(int, bool)>

    ghost function View(): State
      reads this
    {
      State(last, timer, due, storeChangePending, lastStoreRefreshAt, live, nextTimer, changedAt, firings, handed)
    }

    constructor ()
      ensures View() == INITIAL
    {
      last, timer, due, storeChangePending, lastStoreRefreshAt := None, None, 0, false, 0;
      live, nextTimer, changedAt, firings, handed := {}, 1, None, [], [];
    }

    method Publish(now: int, build: Build) returns (sent: bool)
      modifies this
      ensures View() == Published(old(View()), now, build)
      ensures sent <==> handed != old(handed)
    {
      if timer.Some? {
        live := live - {timer.value};
      }
      timer := None;
      if storeChangePending {
        lastStoreRefreshAt := now;
      }
      storeChangePending := false;
      changedAt := None;
      if !build.Payload? || (last == Some(build.payload) && !build.stale) || build.throws {
        return false;
      }
      last := Some(build.payload);
      handed := handed + [(build.payload, build.stale)];
      sent := true;
    }

    method Schedule(now: int, delay: int)
      modifies this
      ensures View() == Scheduled(old(View()), now, delay)
    {
      var at := now + delay;
      if timer.Some? {
        if at >= due {
          return;
        }
        live := live - {timer.value};
      }
      due := at;
      live := live + {nextTimer};
      timer := Some(nextTimer);
      nextTimer := nextTimer + 1;
    }

    method OnStoreChange(ordinary: bool, active: bool, now: int, later: int)
      modifies this
      ensures View() == Changed(old(View()), ordinary, active, now, later)
    {
      var delay := if ordinary then StoreChangeDelay(lastStoreRefreshAt, active, now) else PUBLISH_DELAY_MS;
      changedAt := if storeChangePending then changedAt else Some(later);
      storeChangePending := true;
      Schedule(later, delay);
    }

    method OnTimer(fired: nat, now: int, build: Build)
      requires fired in live && now >= due
      modifies this
      ensures View() == Fired(old(View()), fired, now, build)
    {
      live := live - {fired};
      timer := None;
      firings := firings + [now];
      var _ := Publish(now, build);
    }
  }
}
