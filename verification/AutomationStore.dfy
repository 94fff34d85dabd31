/** The automation services' shared store: one process-wide store, save queue and adapter, handed from profile to
  * profile. */
module AutomationStore {
  import opened Wrappers

  type Profile = nat

  /** A profile's storage adapter; only one with `saveTask` can save a task by itself, at once. */
  datatype Adapter = Adapter(profile: Profile, saveTask: bool)

  const MAX_PENDING_SAVES := 100
  const MAX_SAVE_RETRY_ATTEMPTS := 5

  /** A queued snapshot, known by its version and by the profile its document was loaded from. */
  datatype Pending = Pending(version: nat, origin: Profile, attempts: nat)

  /** A task save in flight, and how it will settle. */
  datatype Immediate = Immediate(version: nat, origin: Profile, lands: bool)

  /** A save tried through [adapter] of a document loaded from [origin]; of its whole snapshot or of one task. */
  datatype Save = Save(adapter: Profile, origin: Profile, version: nat, whole: bool)

  /** A load of [profile] into a store that held [held], declared a replacement or not; [due] when a failure or a
    * change of profile came after the load before it. */
  datatype Load = Load(profile: Profile, held: Option<Profile>, due: bool, replacing: bool)

  /** Core's store, and the record of what was saved and loaded. */
  datatype State = State(
    adapter: Adapter,
    loaded: Option<Profile>,
    queue: seq<Pending>,
    immediate: seq<Immediate>,
    pendingVersion: nat,
    savedVersion: nat,
    replacementPending: bool,
    due: bool,
    saves: seq<Save>,
    loads: seq<Load>)

  /** How a save of a snapshot goes, and the edits queued while it is in flight. */
  datatype Try = Try(lands: bool, edits: nat)

  /** What an operation's body does to the store, one step at a time. */
  datatype Act =
    | Fetch(flush: seq<bool>, succeeds: bool, migrates: bool)
    | Edit(focused: bool, lands: bool)
    | Flush(flush: seq<bool>)
    | Timer(tries: seq<Try>)

  /** One run of a body: its steps up to the first that throws, its own error if none does, whether the error it
    * ends with can be retried, and the saves of the flush after it and of the flush after a failure. */
  datatype Attempt = Attempt(acts: seq<Act>, throws: bool, retryable: bool, flush: seq<bool>, cleanup: seq<bool>)

  // ------------------------------------------------------------- the save queue

  /** `enforcePendingSaveCap`: the oldest snapshots go. */
  function Capped(queue: seq<Pending>): (r: seq<Pending>)
    ensures forall item :: item in r ==> item in queue
    ensures queue != [] ==> r != [] && r[|r| - 1] == queue[|queue| - 1]
  {
    if |queue| <= MAX_PENDING_SAVES then queue else queue[|queue| - MAX_PENDING_SAVES..]
  }

  function Origin(s: State): Profile
  {
    if s.loaded.Some? then s.loaded.value else s.adapter.profile
  }

  /** `debouncedSave`: a snapshot of the store as it is, under a version of its own. */
  function Edited(s: State): State
  {
    var version := s.pendingVersion + 1;
    s.(pendingVersion := version, queue := Capped(s.queue + [Pending(version, Origin(s), 0)]))
  }

  function EditedTimes(s: State, n: nat): State
    decreases n
  {
    if n == 0 then s else EditedTimes(Edited(s), n - 1)
  }

  /** An edit of one task: saved by itself where the adapter can and no snapshot is queued. */
  function TaskEdited(s: State, lands: bool): State
  {
    if !s.adapter.saveTask || s.queue != [] then Edited(s)
    else
      var version := s.pendingVersion + 1;
      s.(pendingVersion := version, immediate := s.immediate + [Immediate(version, Origin(s), lands)],
         saves := s.saves + [Save(s.adapter.profile, Origin(s), version, false)])
  }

  predicate HasVersion(queue: seq<Pending>, version: nat)
  {
    exists i :: 0 <= i < |queue| && queue[i].version == version
  }

  predicate HasNewer(queue: seq<Pending>, version: nat)
  {
    exists i :: 0 <= i < |queue| && queue[i].version > version
  }

  /** A failed task save: its snapshot is queued for a retry unless a newer one is. */
  function RetryQueued(s: State, failed: Immediate): State
  {
    if HasNewer(s.queue, failed.version) then s
    else s.(queue := Capped(s.queue + [Pending(failed.version, failed.origin, 0)]))
  }

  function MostAttempts(queue: seq<Pending>): (n: nat)
    ensures forall item :: item in queue ==> item.attempts <= n
  {
    if queue == [] then 0
    else
      var n := MostAttempts(queue[1..]);
      if queue[0].attempts > n then queue[0].attempts else n
  }

  /** The whole queue is taken, and its newest snapshot tried. */
  function Tried(s: State): State
    requires s.queue != []
  {
    var latest := s.queue[|s.queue| - 1];
    s.(queue := [], saves := s.saves + [Save(s.adapter.profile, latest.origin, latest.version, true)])
  }

  /** A failed snapshot is queued again, up to its fifth attempt, unless a newer one was queued meanwhile. */
  function Retried(s: State, latest: Pending, attempts: nat): State
  {
    if !HasNewer(s.queue, latest.version) && attempts + 1 < MAX_SAVE_RETRY_ATTEMPTS
    then s.(queue := Capped([Pending(latest.version, latest.origin, attempts + 1)] + s.queue)) else s
  }

  /** One save of a flush, unless a newer snapshot was saved. False when the flush throws: the save failed, nothing
    * newer is queued, and neither is a retry. */
  function SavedLatest(s: State, go: Try): (State, bool)
    requires s.queue != []
  {
    var latest := s.queue[|s.queue| - 1];
    if latest.version <= s.savedVersion then (s.(queue := []), true)
    else
      var t := EditedTimes(Tried(s), go.edits);
      if go.lands then (t.(savedVersion := latest.version), true)
      else
        var again := Retried(t, latest, MostAttempts(s.queue));
        (again, HasNewer(again.queue, latest.version) || HasVersion(again.queue, latest.version))
  }

  function First(tries: seq<Try>): Try
  {
    if tries == [] then Try(true, 0) else tries[0]
  }

  function Rest(tries: seq<Try>): seq<Try>
  {
    if tries == [] then [] else tries[1..]
  }

  /** `flushPendingSave`: task saves in flight are awaited, the first to fail throwing, and then snapshots are saved
    * until none is queued. The saves go as [tries] says, and land past its end. False when it throws. */
  function Flushed(s: State, tries: seq<Try>): (State, bool)
    decreases |tries|, |s.immediate|, |s.queue|
  {
    if s.immediate != [] then
      var rest := s.(immediate := s.immediate[1..]);
      if s.immediate[0].lands then Flushed(rest, tries) else (RetryQueued(rest, s.immediate[0]), false)
    else if s.queue == [] then (s, true)
    else
      TriesEnd(s, tries);
      var (t, goesOn) := SavedLatest(s, First(tries));
      if goesOn then Flushed(t, Rest(tries)) else (t, false)
  }

  /** A save without edits leaves no more task saves, and nothing queued once it lands. */
  lemma TriesEnd(s: State, tries: seq<Try>)
    requires s.immediate == [] && s.queue != []
    ensures var t := SavedLatest(s, First(tries)).0;
            t.immediate == s.immediate && (tries == [] ==> t.queue == [])
  {
    EditsOnlyQueue(Tried(s), First(tries).edits);
  }

  lemma {:induction false} EditsOnlyQueue(s: State, n: nat)
    ensures EditedTimes(s, n) == s.(queue := EditedTimes(s, n).queue, pendingVersion := s.pendingVersion + n)
    decreases n
  {
    if n > 0 {
      EditsOnlyQueue(Edited(s), n - 1);
    }
  }

  function Quiet(lands: seq<bool>): (tries: seq<Try>)
    ensures |tries| == |lands| && forall i :: 0 <= i < |tries| ==> tries[i] == Try(lands[i], 0)
  {
    seq(|lands|, i requires 0 <= i < |lands| => Try(lands[i], 0))
  }

  // -------------------------------------------------------------- the operations

  /** `fetchData`: the mark is consumed at entry, pending saves are flushed, and the document is read. */
  function Fetched(s: State, flush: seq<bool>, succeeds: bool, migrates: bool): (State, bool)
  {
    var unmarked := s.(replacementPending := false);
    var (t, ok) := if s.queue != [] || s.immediate != [] then Flushed(unmarked, Quiet(flush)) else (unmarked, true);
    if !ok || !succeeds then (t, false)
    else
      var loaded := t.(loaded := Some(s.adapter.profile), due := false,
                       loads := t.loads + [Load(s.adapter.profile, t.loaded, t.due, s.replacementPending)]);
      (if migrates then Edited(loaded) else loaded, true)
  }

  function Done(s: State, act: Act): (State, bool)
  {
    match act
    case Fetch(flush, succeeds, migrates) => Fetched(s, flush, succeeds, migrates)
    case Edit(focused, lands) => (if focused then TaskEdited(s, lands) else Edited(s), true)
    case Flush(flush) => Flushed(s, Quiet(flush))
    // The queue's own timer flushes behind the body, which goes on editing; its failure is only logged.
    case Timer(tries) => (Flushed(s, tries).0, true)
  }

  /** The steps of a body, up to the first that throws. */
  function Steps(s: State, acts: seq<Act>): (State, bool)
    decreases |acts|
  {
    if acts == [] then (s, true)
    else
      var (t, ok) := Done(s, acts[0]);
      if ok then Steps(t, acts[1..]) else (t, false)
  }

  /** The store, and the profile its document is known to be. */
  datatype System = System(store: State, active: Option<Profile>)

  const INITIAL := System(State(Adapter(0, false), None, [], [], 0, 0, false, true, [], []), None)

  function Attempted(y: System, attempt: Attempt): (System, bool)
  {
    var profile := y.store.adapter.profile;
    var marked := if y.active != Some(profile) then y.store.(replacementPending := true) else y.store;
    var (body, ran) := Steps(marked, attempt.acts);
    var (flushed, ok) := if ran && !attempt.throws then Flushed(body, Quiet(attempt.flush)) else (body, false);
    if ok then (System(flushed, Some(profile)), true)
    else
      var settled := Flushed(flushed, Quiet(attempt.cleanup)).0;
      (System(settled.(due := true), None), false)
  }

  /** `runStoreOperation`: the adapter is set, and the body runs, a second time after a retryable error. A load is
    * due after a failure and for another profile. */
  function Operated(y: System, adapter: Adapter, first: Attempt, second: Attempt): (System, bool)
  {
    var due := y.store.due || y.active != Some(adapter.profile);
    var pointed := System(y.store.(adapter := adapter, due := due), y.active);
    var (one, ok) := Attempted(pointed, first);
    if ok || !first.retryable then (one, ok) else Attempted(one, second)
  }

  datatype Operation = Operation(adapter: Adapter, first: Attempt, second: Attempt)

  function Served(y: System, operations: seq<Operation>): System
    decreases |operations|
  {
    if operations == [] then y
    else Served(Operated(y, operations[0].adapter, operations[0].first, operations[0].second).0, operations[1..])
  }

  // ------------------------------------------------------------------ invariants

  predicate Own(saves: seq<Save>)
  {
    forall save :: save in saves ==> save.adapter == save.origin
  }

  predicate Replaced(loads: seq<Load>)
  {
    forall load :: load in loads && (load.due || load.held != Some(load.profile)) ==> load.replacing
  }

  /** What waits to be saved is the profile's. */
  predicate From(s: State, profile: Profile)
  {
    (forall item :: item in s.queue ==> item.origin == profile)
        && (forall one :: one in s.immediate ==> one.origin == profile)
  }

  predicate Settled(s: State)
  {
    s.queue == [] && s.immediate == []
  }

  /** How often the snapshot was tried. */
  function Tries(saves: seq<Save>, version: nat): nat
  {
    if saves == [] then 0
    else
      var last := saves[|saves| - 1];
      Tries(saves[..|saves| - 1], version) + if last.whole && last.version == version then 1 else 0
  }

  /** No snapshot is tried more than five times; one that is queued, no more often than it counts. */
  ghost predicate Few(s: State)
  {
    && (forall version: nat ::
          Tries(s.saves, version) <= MAX_SAVE_RETRY_ATTEMPTS
          && (version > s.pendingVersion ==> Tries(s.saves, version) == 0))
    && (forall item :: item in s.queue ==> Tries(s.saves, item.version) <= item.attempts)
    && (forall one :: one in s.immediate ==> Tries(s.saves, one.version) == 0)
    && (forall item, one :: item in s.queue && one in s.immediate ==> item.version != one.version)
    && (forall i, j :: 0 <= i < j < |s.immediate| ==> s.immediate[i].version != s.immediate[j].version)
  }

  /** Versions are drawn from the counter. */
  predicate Versioned(s: State)
  {
    && s.savedVersion <= s.pendingVersion
    && (forall item :: item in s.queue ==> item.version <= s.pendingVersion && item.attempts < MAX_SAVE_RETRY_ATTEMPTS)
    && (forall one :: one in s.immediate ==> one.version <= s.pendingVersion)
  }

  predicate Still(tries: seq<Try>)
  {
    forall t :: t in tries ==> t.edits == 0
  }

  lemma {:induction false} EditsKeep(s: State, n: nat, profile: Profile)
    requires Versioned(s)
    ensures var t := EditedTimes(s, n);
            && Versioned(t) && t.pendingVersion == s.pendingVersion + n
            && (forall item :: item in t.queue ==> item in s.queue || item.version > s.pendingVersion)
            && (From(s, profile) && (n == 0 || Origin(s) == profile) ==> From(t, profile))
    decreases n
  {
    hide Capped, Edited, Versioned, From;
    if n > 0 {
      OneEditKeeps(s, profile);
      EditsKeep(Edited(s), n - 1, profile);
    }
  }

  lemma OneEditKeeps(s: State, profile: Profile)
    requires Versioned(s)
    ensures var t := Edited(s);
            && Versioned(t) && t.pendingVersion == s.pendingVersion + 1 && Origin(t) == Origin(s)
            && (forall item :: item in t.queue ==> item in s.queue || item.version > s.pendingVersion)
            && (From(s, profile) && Origin(s) == profile ==> From(t, profile))
  {
  }

  lemma RetriedKeeps(s: State, latest: Pending, attempts: nat, profile: Profile)
    requires Versioned(s) && latest.version <= s.pendingVersion
    requires forall item :: item in s.queue ==> item.version > latest.version
    ensures var t := Retried(s, latest, attempts);
            && Versioned(t)
            && (From(s, profile) && latest.origin == profile ==> From(t, profile))
            && (!HasNewer(t.queue, latest.version) && !HasVersion(t.queue, latest.version) ==> t.queue == [])
  {
    var t := Retried(s, latest, attempts);
    if t.queue != [] {
      assert t.queue[0] in t.queue;
    }
  }

  /** A save takes the whole queue; what is queued after it is the retry, or newer. */
  lemma SaveKeeps(s: State, go: Try, profile: Profile)
    requires Versioned(s) && s.queue != [] && s.immediate == []
    ensures var (t, goesOn) := SavedLatest(s, go);
            && Versioned(t) && t.immediate == [] && (!goesOn ==> t.queue == [])
            && t == s.(queue := t.queue, pendingVersion := t.pendingVersion, savedVersion := t.savedVersion,
                saves := t.saves)
    ensures From(s, profile) && (go.edits == 0 || Origin(s) == profile) ==> From(SavedLatest(s, go).0, profile)
  {
    hide Capped, Retried, MostAttempts, HasNewer, HasVersion;
    var latest := s.queue[|s.queue| - 1];
    assert latest in s.queue;
    EditsKeep(Tried(s), go.edits, profile);
    EditsOnlyQueue(Tried(s), go.edits);
    RetriedKeeps(EditedTimes(Tried(s), go.edits), latest, MostAttempts(s.queue), profile);
    RetriedOnlyQueue(EditedTimes(Tried(s), go.edits), latest, MostAttempts(s.queue));
  }

  lemma RetriedOnlyQueue(s: State, latest: Pending, attempts: nat)
    ensures Retried(s, latest, attempts) == s.(queue := Retried(s, latest, attempts).queue)
  {
  }

  lemma SaveIsOwn(s: State, go: Try)
    requires Own(s.saves) && s.queue != [] && From(s, s.adapter.profile)
    ensures Own(SavedLatest(s, go).0.saves)
  {
    hide Capped, Retried, MostAttempts;
    var latest := s.queue[|s.queue| - 1];
    assert latest in s.queue;
    EditsOnlyQueue(Tried(s), go.edits);
    RetriedOnlyQueue(EditedTimes(Tried(s), go.edits), latest, MostAttempts(s.queue));
  }

  /** A flush that returns, and any flush with no task save in flight, has left nothing to be saved: a terminal
    * failure throws only once nothing is queued. */
  lemma {:induction false} FlushSettles(s: State, tries: seq<Try>)
    requires Versioned(s)
    ensures var (t, ok) := Flushed(s, tries);
            && Versioned(t) && (ok || s.immediate == [] ==> Settled(t))
            && t == s.(queue := t.queue, immediate := t.immediate, pendingVersion := t.pendingVersion,
                       savedVersion := t.savedVersion, saves := t.saves)
    decreases |tries|, |s.immediate|, |s.queue|
  {
    hide SavedLatest;
    if s.immediate != [] {
      var rest := s.(immediate := s.immediate[1..]);
      if s.immediate[0].lands {
        FlushSettles(rest, tries);
      } else {
        assert s.immediate[0] in s.immediate;
      }
    } else if s.queue != [] {
      SaveKeeps(s, First(tries), 0);
      TriesEnd(s, tries);
      var (t, goesOn) := SavedLatest(s, First(tries));
      if goesOn {
        FlushSettles(t, Rest(tries));
      }
    }
  }

  /** A flush saves what is the adapter's own, and leaves nothing else. */
  lemma {:induction false} FlushIsOwn(s: State, tries: seq<Try>)
    requires Versioned(s) && From(s, s.adapter.profile) && Own(s.saves)
    requires Still(tries) || Origin(s) == s.adapter.profile
    ensures var t := Flushed(s, tries).0; From(t, s.adapter.profile) && Own(t.saves)
    decreases |tries|, |s.immediate|, |s.queue|
  {
    hide SavedLatest;
    if s.immediate != [] {
      var rest := s.(immediate := s.immediate[1..]);
      if s.immediate[0].lands {
        FlushIsOwn(rest, tries);
      } else {
        assert s.immediate[0] in s.immediate;
      }
    } else if s.queue != [] {
      SaveKeeps(s, First(tries), s.adapter.profile);
      SaveIsOwn(s, First(tries));
      TriesEnd(s, tries);
      var (t, goesOn) := SavedLatest(s, First(tries));
      assert First(tries).edits == 0 || Origin(s) == s.adapter.profile by {
        assert tries != [] ==> tries[0] in tries;
      }
      assert Still(tries) ==> Still(Rest(tries));
      if goesOn {
        FlushIsOwn(t, Rest(tries));
      }
    }
  }

  /** A flush that returns has saved the newest snapshot that was waiting, or a newer one. */
  lemma {:induction false} FlushSavesNewest(s: State, tries: seq<Try>, version: nat)
    requires Versioned(s) && (version <= s.savedVersion || (s.queue != [] && version <= s.queue[|s.queue| - 1].version))
    requires Flushed(s, tries).1
    ensures version <= Flushed(s, tries).0.savedVersion
    decreases |tries|, |s.immediate|, |s.queue|
  {
    if s.immediate != [] {
      FlushSavesNewest(s.(immediate := s.immediate[1..]), tries, version);
    } else if s.queue != [] {
      SaveKeeps(s, First(tries), 0);
      TriesEnd(s, tries);
      SaveReaches(s, First(tries), version);
      FlushSavesNewest(SavedLatest(s, First(tries)).0, Rest(tries), version);
    }
  }

  lemma SaveReaches(s: State, go: Try, version: nat)
    requires Versioned(s) && s.queue != [] && s.immediate == [] && SavedLatest(s, go).1
    requires version <= s.savedVersion || version <= s.queue[|s.queue| - 1].version
    ensures var t := SavedLatest(s, go).0;
            version <= t.savedVersion || (t.queue != [] && version <= t.queue[|t.queue| - 1].version)
  {
    hide Capped, MostAttempts;
    var latest := s.queue[|s.queue| - 1];
    assert latest in s.queue;
    EditsKeep(Tried(s), go.edits, 0);
    EditsOnlyQueue(Tried(s), go.edits);
    var t := SavedLatest(s, go).0;
    RetriedOnlyQueue(EditedTimes(Tried(s), go.edits), latest, MostAttempts(s.queue));
    if latest.version > s.savedVersion && !go.lands {
      assert t.queue != [];
      var last := t.queue[|t.queue| - 1];
      assert last in t.queue;
    }
  }

  // --------------------------------------------------------------- five attempts

  lemma OneMoreTry(saves: seq<Save>, save: Save, version: nat)
    ensures Tries(saves + [save], version)
         == Tries(saves, version) + if save.whole && save.version == version then 1 else 0
  {
    assert (saves + [save])[..|saves|] == saves;
  }

  lemma EditIsFew(s: State, lands: bool)
    requires Few(s) && Versioned(s)
    ensures Few(Edited(s)) && Few(TaskEdited(s, lands))
  {
    hide Tries;
    var version := s.pendingVersion + 1;
    forall v: nat
      ensures Tries(s.saves + [Save(s.adapter.profile, Origin(s), version, false)], v) == Tries(s.saves, v)
    {
      OneMoreTry(s.saves, Save(s.adapter.profile, Origin(s), version, false), v);
    }
  }

  lemma {:induction false} EditsAreFew(s: State, n: nat)
    requires Few(s) && Versioned(s)
    ensures Few(EditedTimes(s, n))
    decreases n
  {
    hide Edited, Few, Versioned;
    if n > 0 {
      EditIsFew(s, true);
      OneEditKeeps(s, 0);
      EditsAreFew(Edited(s), n - 1);
    }
  }

  /** Trying the newest snapshot once more leaves it within what its retry will count. */
  lemma TriedIsFew(s: State)
    requires Few(s) && Versioned(s) && s.queue != [] && s.immediate == []
    ensures var latest := s.queue[|s.queue| - 1];
            && Few(Tried(s)) && Versioned(Tried(s))
            && Tries(Tried(s).saves, latest.version) <= latest.attempts + 1
  {
    hide Tries;
    var latest := s.queue[|s.queue| - 1];
    assert latest in s.queue;
    forall v: nat ensures Tries(Tried(s).saves, v) == Tries(s.saves, v) + if latest.version == v then 1 else 0 {
      OneMoreTry(s.saves, Save(s.adapter.profile, latest.origin, latest.version, true), v);
    }
  }

  lemma RetriedIsFew(s: State, latest: Pending, attempts: nat)
    requires Few(s) && s.immediate == [] && Tries(s.saves, latest.version) <= attempts + 1
    ensures Few(Retried(s, latest, attempts))
  {
    hide Tries;
  }

  lemma SaveIsFew(s: State, go: Try)
    requires Few(s) && Versioned(s) && s.queue != [] && s.immediate == []
    ensures Few(SavedLatest(s, go).0)
  {
    hide Tries, Few, Retried, Versioned, MostAttempts;
    var latest := s.queue[|s.queue| - 1];
    assert latest in s.queue;
    TriedIsFew(s);
    EditsAreFew(Tried(s), go.edits);
    EditsOnlyQueue(Tried(s), go.edits);
    var t := EditedTimes(Tried(s), go.edits);
    RetriedIsFew(t, latest, MostAttempts(s.queue));
    FewUnlessQueued(s);
    SavedVersionIsFew(t, latest.version);
  }

  lemma FewUnlessQueued(s: State)
    requires Few(s)
    ensures Few(s.(queue := []))
  {
    hide Tries;
  }

  lemma SavedVersionIsFew(s: State, version: nat)
    requires Few(s)
    ensures Few(s.(savedVersion := version))
  {
    hide Tries;
  }

  lemma SettledOneIsFew(s: State)
    requires Few(s) && Versioned(s) && s.immediate != []
    ensures var rest := s.(immediate := s.immediate[1..]);
            Few(rest) && Few(RetryQueued(rest, s.immediate[0]))
  {
    hide Tries;
    assert s.immediate[0] in s.immediate;
    assert forall one :: one in s.immediate[1..] ==> one.version != s.immediate[0].version;
  }

  /** No flush tries a snapshot a sixth time, counting the flushes before it. */
  lemma {:induction false} FlushIsFew(s: State, tries: seq<Try>)
    requires Few(s) && Versioned(s)
    ensures Few(Flushed(s, tries).0)
    decreases |tries|, |s.immediate|, |s.queue|
  {
    hide Tries, Few, SavedLatest, RetryQueued;
    if s.immediate != [] {
      SettledOneIsFew(s);
      if s.immediate[0].lands {
        FlushIsFew(s.(immediate := s.immediate[1..]), tries);
      }
    } else if s.queue != [] {
      SaveKeeps(s, First(tries), 0);
      SaveIsFew(s, First(tries));
      TriesEnd(s, tries);
      if SavedLatest(s, First(tries)).1 {
        FlushIsFew(SavedLatest(s, First(tries)).0, Rest(tries));
      }
    }
  }

  // ---------------------------------------------------------------- operations

  /** A body reloads the store before anything else. */
  predicate Reloads(attempt: Attempt)
  {
    attempt.acts != [] && attempt.acts[0].Fetch?
  }

  /** The store is the adapter's: whatever it saved was saved through its own profile's adapter, whatever waits is
    * this profile's, no snapshot was tried a sixth time, and every load that had to replace the document did. */
  ghost predicate Kept(s: State)
  {
    Versioned(s) && Few(s) && From(s, s.adapter.profile) && Own(s.saves) && Replaced(s.loads)
  }

  predicate Loaded(s: State)
  {
    s.loaded == Some(s.adapter.profile) && !s.due && !s.replacementPending
  }

  predicate Plain(s: State)
  {
    !s.adapter.saveTask && s.immediate == []
  }

  lemma FlushKeeps(s: State, tries: seq<Try>)
    requires Kept(s) && (Still(tries) || Origin(s) == s.adapter.profile)
    ensures var (t, ok) := Flushed(s, tries);
            && Kept(t) && t.adapter == s.adapter && t.loaded == s.loaded && t.due == s.due
            && t.replacementPending == s.replacementPending && t.loads == s.loads
            && (ok ==> Settled(t)) && (Plain(s) ==> Settled(t))
  {
    hide Flushed, Few;
    FlushSettles(s, tries);
    FlushIsOwn(s, tries);
    FlushIsFew(s, tries);
  }

  lemma EditKeeps(s: State, lands: bool)
    requires Kept(s) && Loaded(s)
    ensures forall t :: t == Edited(s) || t == TaskEdited(s, lands) ==>
              Kept(t) && Loaded(t) && t.adapter == s.adapter && (Plain(s) ==> t.immediate == [])
  {
    hide Few;
    EditIsFew(s, lands);
  }

  lemma QuietIsStill(lands: seq<bool>)
    ensures Still(Quiet(lands))
  {
  }

  lemma DoneKeeps(s: State, act: Act)
    requires Kept(s)
    requires Loaded(s)
          || (act.Fetch? && (s.replacementPending || (!s.due && s.loaded == Some(s.adapter.profile))))
    ensures var (t, ok) := Done(s, act);
            Kept(t) && t.adapter == s.adapter && (ok ==> Loaded(t)) && (Plain(s) ==> t.immediate == [])
  {
    hide Flushed, Versioned, Few, Own, From, Edited, TaskEdited;
    match act
    case Fetch(flush, succeeds, migrates) =>
      var unmarked := s.(replacementPending := false);
      Unmarked(s);
      QuietIsStill(flush);
      FlushKeeps(unmarked, Quiet(flush));
      var (t, ok) := if s.queue != [] || s.immediate != [] then Flushed(unmarked, Quiet(flush)) else (unmarked, true);
      if ok && succeeds {
        var loaded := t.(loaded := Some(s.adapter.profile), due := false,
                         loads := t.loads + [Load(s.adapter.profile, t.loaded, t.due, s.replacementPending)]);
        LoadKeeps(t, loaded);
        EditKeeps(loaded, true);
      }
    case Edit(focused, lands) => EditKeeps(s, lands);
    case Flush(flush) =>
      QuietIsStill(flush);
      FlushKeeps(s, Quiet(flush));
    case Timer(tries) => FlushKeeps(s, tries);
  }

  lemma Unmarked(s: State)
    requires Kept(s)
    ensures Kept(s.(replacementPending := false))
  {
  }

  lemma LoadKeeps(s: State, t: State)
    requires Kept(s) && t == s.(loaded := t.loaded, due := false, loads := t.loads) && Replaced(t.loads)
    ensures Kept(t)
  {
  }

  lemma {:induction false} StepsKeep(s: State, acts: seq<Act>)
    requires Kept(s)
    requires Loaded(s)
          || (acts != [] && acts[0].Fetch?
              && (s.replacementPending || (!s.due && s.loaded == Some(s.adapter.profile))))
    ensures var (t, ok) := Steps(s, acts);
            Kept(t) && t.adapter == s.adapter && (ok ==> Loaded(t)) && (Plain(s) ==> t.immediate == [])
    decreases |acts|
  {
    hide Done, Kept;
    if acts != [] {
      DoneKeeps(s, acts[0]);
      var (t, ok) := Done(s, acts[0]);
      if ok {
        StepsKeep(t, acts[1..]);
      }
    }
  }

  /** The profile the document is known to be: loaded through it, with no failure since. */
  predicate Known(y: System)
  {
    if y.active == Some(y.store.adapter.profile) then y.store.loaded == y.active && !y.store.due else y.store.due
  }

  lemma AttemptKeeps(y: System, attempt: Attempt)
    requires Kept(y.store) && Known(y) && Reloads(attempt)
    ensures var (z, ok) := Attempted(y, attempt);
            && Kept(z.store) && Known(z) && z.store.adapter == y.store.adapter
            && z.active == (if ok then Some(y.store.adapter.profile) else None)
            && (ok || Plain(y.store) ==> Settled(z.store))
  {
    hide Flushed, Steps, Versioned, Few, Own, From, Replaced;
    var marked := if y.active != Some(y.store.adapter.profile) then y.store.(replacementPending := true) else y.store;
    Marked(y.store);
    StepsKeep(marked, attempt.acts);
    var (body, ran) := Steps(marked, attempt.acts);
    QuietIsStill(attempt.flush);
    QuietIsStill(attempt.cleanup);
    FlushKeeps(body, Quiet(attempt.flush));
    var (flushed, ok) := if ran && !attempt.throws then Flushed(body, Quiet(attempt.flush)) else (body, false);
    if !ok {
      FlushKeeps(flushed, Quiet(attempt.cleanup));
      Marked(Flushed(flushed, Quiet(attempt.cleanup)).0);
    }
  }

  lemma Marked(s: State)
    requires Kept(s)
    ensures Kept(s.(replacementPending := true)) && Kept(s.(due := true))
  {
  }

  /** Every load and save so far was as it should be, and a document known to be a profile's is. */
  ghost predicate Sound(y: System)
  {
    && Versioned(y.store) && Few(y.store) && Own(y.store.saves) && Replaced(y.store.loads)
    && (y.active.Some? ==> y.store.loaded == y.active && !y.store.due)
  }

  /** One operation, failing and retried anywhere, once nothing of another profile's is waiting: every save went
    * through its own profile's adapter, every load that had to replace the document did, and it leaves nothing
    * waiting when it succeeds, and whatever happens when the adapter has no `saveTask`. */
  lemma OperationKeeps(y: System, adapter: Adapter, first: Attempt, second: Attempt)
    requires Sound(y) && From(y.store, adapter.profile) && Reloads(first) && Reloads(second)
    ensures var (z, ok) := Operated(y, adapter, first, second);
            && Sound(z) && From(z.store, adapter.profile) && z.store.adapter == adapter
            && z.active == (if ok then Some(adapter.profile) else None)
            && (ok || (!adapter.saveTask && y.store.immediate == []) ==> Settled(z.store))
  {
    hide Attempted, Versioned, Few, Own, From, Replaced;
    var due := y.store.due || y.active != Some(adapter.profile);
    var pointed := System(y.store.(adapter := adapter, due := due), y.active);
    Pointed(y.store, adapter, pointed.store.due);
    AttemptKeeps(pointed, first);
    var (one, ok) := Attempted(pointed, first);
    if !ok && first.retryable {
      AttemptKeeps(one, second);
    }
  }

  lemma Pointed(s: State, adapter: Adapter, due: bool)
    ensures var t := s.(adapter := adapter, due := due);
            (Versioned(s) <==> Versioned(t)) && (Few(s) <==> Few(t)) && (forall p :: From(s, p) <==> From(t, p))
  {
  }

  lemma TriedFew(s: State)
    requires Few(s)
    ensures forall version: nat :: Tries(s.saves, version) <= MAX_SAVE_RETRY_ATTEMPTS
  {
  }

  /** For any sequence of operations of services on any profiles, failing and retried anywhere: no snapshot is
    * saved but through the adapter of the profile it was loaded from, nor tried more than five times, a load after a
    * failure or from another profile replaces the document, and nothing waits between operations. Their adapters
    * have no `saveTask`. */
  lemma {:induction false} ServicesKeep(y: System, operations: seq<Operation>)
    requires Sound(y) && Settled(y.store)
    requires forall op :: op in operations ==> Reloads(op.first) && Reloads(op.second) && !op.adapter.saveTask
    ensures var z := Served(y, operations);
            Own(z.store.saves) && Replaced(z.store.loads) && Settled(z.store) && Sound(z)
    ensures forall version: nat :: Tries(Served(y, operations).store.saves, version) <= MAX_SAVE_RETRY_ATTEMPTS
    decreases |operations|
  {
    hide Operated, Versioned, Few, Own, Replaced;
    if operations != [] {
      var op := operations[0];
      OperationKeeps(y, op.adapter, op.first, op.second);
      ServicesKeep(Operated(y, op.adapter, op.first, op.second).0, operations[1..]);
    } else {
      TriedFew(y.store);
    }
  }

  lemma InitialIsSound()
    ensures Sound(INITIAL) && Settled(INITIAL.store)
  {
  }

  // ---------------------------------------------------------------- what is saved

  /** An edit's snapshot is the newest one queued; of more than a hundred the oldest goes, and nothing else changes. */
  lemma EditIsQueued(s: State)
    ensures var t := Edited(s);
            var origin := if s.loaded.Some? then s.loaded.value else s.adapter.profile;
            var queued := s.queue + [Pending(s.pendingVersion + 1, origin, 0)];
            && t == s.(pendingVersion := s.pendingVersion + 1, queue := t.queue)
            && |t.queue| == (if |queued| <= 100 then |queued| else 100)
            && t.queue == queued[|queued| - |t.queue|..]
  {
  }

  function Fails(k: nat): (tries: seq<Try>)
    ensures |tries| == k && forall i :: 0 <= i < k ==> tries[i] == Try(false, 0)
  {
    seq(k, i => Try(false, 0))
  }

  /** One save without edits: it lands; or its snapshot is queued again, alone, unless this was its fifth attempt. */
  lemma OneTry(s: State, lands: bool)
    requires s.queue != [] && s.queue[|s.queue| - 1].version > s.savedVersion && MostAttempts(s.queue) < 5
    ensures var latest, n := s.queue[|s.queue| - 1], MostAttempts(s.queue);
            SavedLatest(s, Try(lands, 0)) ==
            if lands then (Tried(s).(savedVersion := latest.version), true)
            else if n < 4 then (Tried(s).(queue := [Pending(latest.version, latest.origin, n + 1)]), true)
            else (Tried(s), false)
  {
    hide MostAttempts;
    var latest, n := s.queue[|s.queue| - 1], MostAttempts(s.queue);
    assert EditedTimes(Tried(s), 0) == Tried(s);
    RetryIsLast(Tried(s), latest, n);
    assert [Pending(latest.version, latest.origin, n + 1)] + [] == [Pending(latest.version, latest.origin, n + 1)];
  }

  /** A flush tries its newest snapshot until its fifth attempt: fewer failures in a row and it is saved; as many and
    * the flush throws, with the snapshot dropped. */
  lemma {:induction false} TriesFiveTimes(s: State, k: nat)
    requires s.immediate == [] && s.queue != [] && s.queue[|s.queue| - 1].version > s.savedVersion
    requires MostAttempts(s.queue) < 5
    ensures var (t, ok) := Flushed(s, Fails(k));
            && t.queue == [] && (ok <==> MostAttempts(s.queue) + k < 5)
            && t.savedVersion == (if ok then s.queue[|s.queue| - 1].version else s.savedVersion)
            && |t.saves| == |s.saves| + (if ok then k + 1 else 5 - MostAttempts(s.queue))
            && (var latest := s.queue[|s.queue| - 1];
                t.saves[|t.saves| - 1] == Save(s.adapter.profile, latest.origin, latest.version, true))
    decreases k
  {
    hide MostAttempts, SavedLatest;
    TriesEnd(s, Fails(k));
    OneTry(s, k == 0);
    var t := SavedLatest(s, Try(k == 0, 0)).0;
    if k == 0 {
      NothingFlushed(t, Fails(0));
      assert Rest(Fails(0)) == Fails(0);
    } else {
      assert Rest(Fails(k)) == Fails(k - 1);
      if MostAttempts(s.queue) < 4 {
        MostOfOne(t.queue[0]);
        TriesFiveTimes(t, k - 1);
      }
    }
  }

  lemma MostOfOne(item: Pending)
    ensures MostAttempts([item]) == item.attempts
  {
    assert [item][1..] == [] && MostAttempts([]) == 0;
  }

  /** A load that succeeds is of the adapter's profile, is the replacement it was declared, and has flushed what
    * waited. */
  lemma LoadIsRecorded(s: State, flush: seq<bool>, migrates: bool)
    requires Versioned(s) && Done(s, Fetch(flush, true, migrates)).1
    ensures var t := Done(s, Fetch(flush, true, migrates)).0;
            && t.loads == s.loads + [Load(s.adapter.profile, s.loaded, s.due, s.replacementPending)]
            && t.loaded == Some(s.adapter.profile) && !t.due && !t.replacementPending
            && (!migrates ==> Settled(t))
  {
    hide Flushed;
    var unmarked := s.(replacementPending := false);
    UnmarkedVersions(s);
    FlushSettles(unmarked, Quiet(flush));
  }

  /** Of the snapshots drawn since [v], the newest is queued; or, with none queued, saved. */
  predicate Newest(s: State, v: nat)
  {
    s.pendingVersion > v ==>
      s.pendingVersion == (if s.queue == [] then s.savedVersion else s.queue[|s.queue| - 1].version)
  }

  /** The newest since [v] is neither: it was given up. */
  predicate GivenUp(s: State, v: nat)
  {
    s.pendingVersion > v && s.queue == [] && s.savedVersion < s.pendingVersion
  }

  lemma {:induction false} EditsAreNewest(s: State, n: nat, v: nat)
    requires Versioned(s) && v <= s.pendingVersion && n > 0
    ensures var t := EditedTimes(s, n); t.queue != [] && Newest(t, v) && !GivenUp(t, v)
    decreases n
  {
    hide Versioned;
    EditIsQueued(s);
    OneEditKeeps(s, 0);
    if n > 1 {
      EditsAreNewest(Edited(s), n - 1, v);
    }
  }

  lemma OneEditIsNewest(s: State, v: nat)
    requires Versioned(s) && v <= s.pendingVersion
    ensures var t := Edited(s);
            && Versioned(t) && Newest(t, v) && !GivenUp(t, v) && t.queue != []
            && t == s.(pendingVersion := s.pendingVersion + 1, queue := t.queue)
  {
    hide Versioned;
    EditIsQueued(s);
    OneEditKeeps(s, 0);
  }

  lemma SaveIsNewest(s: State, go: Try, v: nat)
    requires Versioned(s) && s.immediate == [] && s.queue != [] && Newest(s, v) && v < s.pendingVersion
    ensures var (t, goesOn) := SavedLatest(s, go);
            if goesOn then Newest(t, v) && v < t.pendingVersion else GivenUp(t, v)
  {
    hide Capped, MostAttempts;
    var latest := s.queue[|s.queue| - 1];
    assert latest in s.queue;
    EditsOnlyQueue(Tried(s), go.edits);
    EditsKeep(Tried(s), go.edits, 0);
    if latest.version > s.savedVersion {
      if go.edits > 0 {
        EditsAreNewest(Tried(s), go.edits, v);
        var e := EditedTimes(Tried(s), go.edits);
        assert e.queue[|e.queue| - 1] in e.queue && HasNewer(e.queue, latest.version);
      } else {
        RetryIsLast(Tried(s), latest, MostAttempts(s.queue));
      }
    }
  }

  lemma RetryIsLast(s: State, latest: Pending, attempts: nat)
    requires s.queue == []
    ensures var t := Retried(s, latest, attempts);
            t.queue == []
            || (t.queue == [Pending(latest.version, latest.origin, attempts + 1)]
                && HasVersion(t.queue, latest.version))
  {
    assert [Pending(latest.version, latest.origin, attempts + 1)] + [] ==
           [Pending(latest.version, latest.origin, attempts + 1)];
  }

  /** A flush saves the newest snapshot when it returns, and gives it up when it throws. */
  lemma {:induction false} FlushIsNewest(s: State, tries: seq<Try>, v: nat)
    requires Versioned(s) && s.immediate == [] && v <= s.pendingVersion
    requires Newest(s, v) && (s.pendingVersion == v ==> s.queue == [])
    ensures var (t, ok) := Flushed(s, tries); if ok then Newest(t, v) && t.queue == [] else GivenUp(t, v)
    decreases |tries|, |s.queue|
  {
    hide SavedLatest, Versioned;
    if s.queue != [] {
      SaveKeeps(s, First(tries), 0);
      SaveIsNewest(s, First(tries), v);
      TriesEnd(s, tries);
      var (t, goesOn) := SavedLatest(s, First(tries));
      if goesOn {
        FlushIsNewest(t, Rest(tries), v);
      }
    }
  }

  /** The body's last edit is before a flush of the queue's timer that throws, an error only logged. */
  predicate TimerGivesUp(s: State, acts: seq<Act>, sofar: bool)
    decreases |acts|
  {
    if acts == [] then sofar
    else
      var (t, ok) := Done(s, acts[0]);
      var now := match acts[0]
        case Fetch(_, _, migrates) => sofar && !migrates
        case Edit(_, _) => false
        case Flush(_) => sofar
        case Timer(tries) => sofar || !Flushed(s, tries).1;
      ok && TimerGivesUp(t, acts[1..], now)
  }

  lemma DoneIsNewest(s: State, act: Act, v: nat)
    requires Versioned(s) && Plain(s) && v <= s.pendingVersion
    requires Newest(s, v) && (s.pendingVersion == v ==> s.queue == []) && Done(s, act).1
    ensures var t := Done(s, act).0;
            && Versioned(t) && Plain(t) && v <= t.pendingVersion && (t.pendingVersion == v ==> t.queue == [])
            && if act.Timer? && !Flushed(s, act.tries).1 then GivenUp(t, v) else Newest(t, v)
  {
    hide Flushed, Versioned, Edited, TaskEdited;
    match act
    case Fetch(flush, succeeds, migrates) =>
      var unmarked := s.(replacementPending := false);
      UnmarkedVersions(s);
      FlushSettles(unmarked, Quiet(flush));
      FlushIsNewest(unmarked, Quiet(flush), v);
      FlushOnlyCounts(unmarked, Quiet(flush));
      var t := Done(s, act).0;
      var read := if s.queue != [] || s.immediate != [] then Flushed(unmarked, Quiet(flush)).0 else unmarked;
      var loaded := read.(loaded := Some(s.adapter.profile), due := false,
                          loads := read.loads + [Load(s.adapter.profile, read.loaded, read.due, s.replacementPending)]);
      LoadedVersions(read, loaded);
      OneEditIsNewest(loaded, v);
    case Edit(focused, lands) =>
      OneEditIsNewest(s, v);
      PlainTaskEdit(s, lands);
    case Flush(flush) =>
      FlushSettles(s, Quiet(flush));
      FlushIsNewest(s, Quiet(flush), v);
      FlushOnlyCounts(s, Quiet(flush));
    case Timer(tries) =>
      FlushSettles(s, tries);
      FlushIsNewest(s, tries, v);
      FlushOnlyCounts(s, tries);
  }

  lemma PlainTaskEdit(s: State, lands: bool)
    requires Plain(s)
    ensures TaskEdited(s, lands) == Edited(s)
  {
  }

  lemma UnmarkedVersions(s: State)
    requires Versioned(s)
    ensures Versioned(s.(replacementPending := false))
  {
  }

  lemma LoadedVersions(s: State, t: State)
    requires Versioned(s) && t == s.(loaded := t.loaded, due := false, loads := t.loads)
    ensures Versioned(t)
  {
  }

  /** Versions are only drawn, never given back. */
  lemma {:induction false} FlushOnlyCounts(s: State, tries: seq<Try>)
    requires Versioned(s)
    ensures Flushed(s, tries).0.pendingVersion >= s.pendingVersion
    ensures Flushed(s, tries).0.pendingVersion == s.pendingVersion && s.queue == [] && s.immediate == [] ==>
              Flushed(s, tries).0.queue == []
    decreases |tries|, |s.immediate|, |s.queue|
  {
    hide SavedLatest;
    if s.immediate != [] {
      var rest := s.(immediate := s.immediate[1..]);
      if s.immediate[0].lands {
        FlushOnlyCounts(rest, tries);
      }
    } else if s.queue != [] {
      SaveOnlyCounts(s, First(tries));
      SaveKeeps(s, First(tries), 0);
      TriesEnd(s, tries);
      if SavedLatest(s, First(tries)).1 {
        FlushOnlyCounts(SavedLatest(s, First(tries)).0, Rest(tries));
      }
    }
  }

  lemma SaveOnlyCounts(s: State, go: Try)
    requires s.queue != []
    ensures SavedLatest(s, go).0.pendingVersion >= s.pendingVersion
  {
    hide Capped, MostAttempts;
    EditsOnlyQueue(Tried(s), go.edits);
  }

  lemma {:induction false} StepsAreNewest(s: State, acts: seq<Act>, v: nat, sofar: bool)
    requires Versioned(s) && Plain(s) && v <= s.pendingVersion && (s.pendingVersion == v ==> s.queue == [])
    requires if sofar then GivenUp(s, v) else Newest(s, v)
    requires Steps(s, acts).1
    ensures var t := Steps(s, acts).0;
            && Versioned(t) && Plain(t) && v <= t.pendingVersion && (t.pendingVersion == v ==> t.queue == [])
            && if TimerGivesUp(s, acts, sofar) then GivenUp(t, v) else Newest(t, v)
    decreases |acts|
  {
    hide Done, Flushed, Versioned;
    if acts != [] {
      var t := Done(s, acts[0]).0;
      var now := match acts[0]
        case Fetch(_, _, migrates) => sofar && !migrates
        case Edit(_, _) => false
        case Flush(_) => sofar
        case Timer(tries) => sofar || !Flushed(s, tries).1;
      if sofar {
        GivenUpGoesOn(s, acts[0], v);
      } else {
        DoneIsNewest(s, acts[0], v);
      }
      StepsAreNewest(t, acts[1..], v, now);
    }
  }

  /** With nothing queued a flush does nothing, so what was given up stays so until the next edit. */
  lemma GivenUpGoesOn(s: State, act: Act, v: nat)
    requires Versioned(s) && Plain(s) && GivenUp(s, v) && Done(s, act).1
    ensures var t := Done(s, act).0;
            && Versioned(t) && Plain(t) && v <= t.pendingVersion
            && (if act.Edit? || (act.Fetch? && act.migrates) then Newest(t, v) && t.pendingVersion > v
                else GivenUp(t, v))
            && (act.Timer? ==> Flushed(s, act.tries).1)
  {
    hide Versioned, Edited, TaskEdited;
    match act
    case Fetch(flush, succeeds, migrates) =>
      var loaded := s.(replacementPending := false, loaded := Some(s.adapter.profile), due := false,
                       loads := s.loads + [Load(s.adapter.profile, s.loaded, s.due, s.replacementPending)]);
      UnmarkedVersions(s);
      LoadedVersions(s.(replacementPending := false), loaded);
      OneEditIsNewest(loaded, v);
    case Edit(focused, lands) =>
      OneEditIsNewest(s, v);
      PlainTaskEdit(s, lands);
    case Flush(flush) =>
    case Timer(tries) =>
  }

  /** An attempt that succeeds, of an adapter without `saveTask` and with nothing waiting before it, has saved its
    * newest edit, which holds all the others, exactly unless the queue's timer gave it up before: by a fifth failure
    * after the last edit and before the attempt's own flush. */
  lemma SuccessSavesIff(y: System, attempt: Attempt)
    requires Versioned(y.store) && Plain(y.store) && Settled(y.store) && Attempted(y, attempt).1
    ensures var t, v := Attempted(y, attempt).0.store, y.store.pendingVersion;
            var marked := if y.active != Some(y.store.adapter.profile) then y.store.(replacementPending := true)
                          else y.store;
            && !attempt.throws && Steps(marked, attempt.acts).1 && Settled(t)
            && (t.pendingVersion > v ==>
                  (t.savedVersion == t.pendingVersion <==> !TimerGivesUp(marked, attempt.acts, false)))
            && (TimerGivesUp(marked, attempt.acts, false) ==> t.pendingVersion > v)
  {
    hide Steps, Flushed, Versioned, TimerGivesUp;
    var v := y.store.pendingVersion;
    var marked := if y.active != Some(y.store.adapter.profile) then y.store.(replacementPending := true) else y.store;
    MarkedVersions(y.store);
    StepsAreNewest(marked, attempt.acts, v, false);
    var body := Steps(marked, attempt.acts).0;
    FlushSettles(body, Quiet(attempt.flush));
    if TimerGivesUp(marked, attempt.acts, false) {
      NothingFlushed(body, Quiet(attempt.flush));
    } else {
      FlushIsNewest(body, Quiet(attempt.flush), v);
    }
  }

  lemma MarkedVersions(s: State)
    requires Versioned(s)
    ensures Versioned(s.(replacementPending := true))
  {
  }

  lemma NothingFlushed(s: State, tries: seq<Try>)
    requires Settled(s)
    ensures Flushed(s, tries) == (s, true)
  {
  }

  const RELOAD := Fetch([], true, false)

  /** An edit that the queue's timer fails to save five times while the body goes on. */
  const TIMED_OUT := Attempt([RELOAD, Edit(false, true), Timer(Fails(5))], false, false, [], [])

  /** The operation succeeds, and its edit is neither saved nor queued. */
  lemma TimerLosesEdit(profile: Profile)
    ensures var (z, ok) := Operated(INITIAL, Adapter(profile, false), TIMED_OUT, TIMED_OUT);
            && ok && z.active == Some(profile) && Settled(z.store)
            && z.store.pendingVersion >= 1 && z.store.savedVersion == 0
  {
    hide Flushed, Fails;
    var adapter := Adapter(profile, false);
    var marked := INITIAL.store.(adapter := adapter, replacementPending := true);
    var reloaded := Done(marked, RELOAD).0;
    var edited := Edited(reloaded);
    assert edited.queue == [Pending(1, profile, 0)] by {
      assert [] + [Pending(1, profile, 0)] == [Pending(1, profile, 0)];
    }
    MostOfOne(edited.queue[0]);
    TriesFiveTimes(edited, 5);
    var lost := Flushed(edited, Fails(5)).0;
    FlushKeepsTheRest(edited, Fails(5));
    NothingFlushed(lost, Quiet([]));
    var acts := TIMED_OUT.acts;
    assert acts[1..] == [Edit(false, true), Timer(Fails(5))] && acts[1..][1..] == [Timer(Fails(5))];
    assert acts[1..][1..][1..] == [];
    assert Steps(lost, acts[1..][1..][1..]) == (lost, true);
    assert Steps(edited, acts[1..][1..]) == (lost, true);
    assert Steps(reloaded, acts[1..]) == (lost, true);
    assert Steps(marked, acts) == (lost, true);
  }

  lemma FlushKeepsTheRest(s: State, tries: seq<Try>)
    requires Versioned(s) && s.immediate == []
    ensures var t := Flushed(s, tries).0;
            t.pendingVersion >= s.pendingVersion && Settled(t) && t.adapter == s.adapter
  {
    FlushSettles(s, tries);
    FlushOnlyCounts(s, tries);
  }

  /** An operation, from a sound system with nothing waiting, always leaves nothing waiting. */
  ghost predicate AlwaysSettles(adapter: Adapter)
  {
    forall y, first, second :: Sound(y) && Settled(y.store) && Reloads(first) && Reloads(second) ==>
      Settled(Operated(y, adapter, first, second).0.store)
  }

  /** Two task saves that fail one after the other, the first out of the flush, the second out of the one after. */
  const TWO_FAILING_TASK_SAVES := Attempt([RELOAD, Edit(true, false), Edit(true, false)], false, false, [], [])

  lemma FailingTaskSavesStayQueued(profile: Profile)
    ensures var (z, ok) := Operated(INITIAL, Adapter(profile, true), TWO_FAILING_TASK_SAVES, TWO_FAILING_TASK_SAVES);
            !ok && z.active == None && z.store.adapter == Adapter(profile, true) && z.store.immediate == []
            && z.store.queue == [Pending(1, profile, 0), Pending(2, profile, 0)] && z.store.savedVersion == 0
  {
    var adapter, edit := Adapter(profile, true), Edit(true, false);
    var reloaded := State(adapter, Some(profile), [], [], 0, 0, false, false, [], [Load(profile, None, true, true)]);
    var marked := INITIAL.store.(adapter := adapter, replacementPending := true);
    assert marked.loads + [Load(profile, None, true, true)] == reloaded.loads;
    assert Fetched(marked, [], true, false) == (reloaded, true);
    assert Done(marked, RELOAD) == (reloaded, true);
    var one := TaskEdited(reloaded, false);
    var two := TaskEdited(one, false);
    assert [RELOAD, edit, edit][1..] == [edit, edit] && [edit, edit][1..] == [edit];
    assert Steps(two, [edit][1..]) == (two, true);
    assert Steps(one, [edit]) == (two, true);
    assert Steps(reloaded, [edit, edit]) == (two, true);
    assert Steps(marked, [RELOAD, edit, edit]) == (two, true);
    assert two.immediate == [Immediate(1, profile, false), Immediate(2, profile, false)] && two.queue == [];
    var three := two.(immediate := two.immediate[1..], queue := [Pending(1, profile, 0)]);
    assert two.queue + [Pending(1, profile, 0)] == three.queue;
    assert RetryQueued(two.(immediate := two.immediate[1..]), two.immediate[0]) == three;
    assert Flushed(two, Quiet([])) == (three, false);
    var four := three.(immediate := [], queue := [Pending(1, profile, 0), Pending(2, profile, 0)]);
    assert three.immediate == [Immediate(2, profile, false)] && three.immediate[1..] == [];
    assert three.queue + [Pending(2, profile, 0)] == four.queue;
    assert RetryQueued(three.(immediate := []), three.immediate[0]) == four;
    assert Flushed(three, Quiet([])) == (four, false);
  }

  /** Nothing of one profile's can wait for the next exactly when the adapter has no `saveTask`. */
  lemma SettlesIffNoTaskSaves(adapter: Adapter)
    ensures AlwaysSettles(adapter) <==> !adapter.saveTask
  {
    if adapter.saveTask {
      InitialIsSound();
      FailingTaskSavesStayQueued(adapter.profile);
      assert !Settled(Operated(INITIAL, adapter, TWO_FAILING_TASK_SAVES, TWO_FAILING_TASK_SAVES).0.store);
    } else {
      forall y, first, second | Sound(y) && Settled(y.store) && Reloads(first) && Reloads(second)
        ensures Settled(Operated(y, adapter, first, second).0.store)
      {
        OperationKeeps(y, adapter, first, second);
      }
    }
  }

  /** With an adapter that has one, the next profile's operation then saves the first profile's snapshot. */
  lemma TaskSavesCross(a: Profile, b: Profile)
    requires a != b
    ensures var one := Operation(Adapter(a, true), TWO_FAILING_TASK_SAVES, TWO_FAILING_TASK_SAVES);
            var two := Operation(Adapter(b, true), Attempt([RELOAD], false, false, [], []), TWO_FAILING_TASK_SAVES);
            Save(b, a, 2, true) in Served(INITIAL, [one, two]).store.saves
  {
    var one := Operation(Adapter(a, true), TWO_FAILING_TASK_SAVES, TWO_FAILING_TASK_SAVES);
    var two := Operation(Adapter(b, true), Attempt([RELOAD], false, false, [], []), TWO_FAILING_TASK_SAVES);
    FailingTaskSavesStayQueued(a);
    var y := Operated(INITIAL, one.adapter, one.first, one.second).0;
    var s := y.store.(adapter := two.adapter, due := true, replacementPending := false);
    var saved := Tried(s).(savedVersion := 2);
    assert EditedTimes(Tried(s), 0) == Tried(s);
    assert SavedLatest(s, Try(true, 0)) == (saved, true);
    assert Flushed(saved, []) == (saved, true);
    assert Quiet([]) == [];
    assert Flushed(s, Quiet([])) == (saved, true);
    var loaded := saved.(loaded := Some(b), due := false, loads := saved.loads + [Load(b, saved.loaded, true, true)]);
    assert Done(s.(replacementPending := true), RELOAD) == (loaded, true);
    assert Steps(s.(replacementPending := true), [RELOAD]) == (loaded, true) by {
      assert [RELOAD][1..] == [];
    }
    assert Flushed(loaded, Quiet([])) == (loaded, true);
    assert Operated(y, two.adapter, two.first, two.second).0.store == loaded;
    assert [one, two][1..] == [two] && [two][1..] == [];
    assert Served(INITIAL, [one, two]) == Served(y, [two]);
    assert Served(y, [two]).store == loaded;
    assert Tried(s).saves[|s.saves|] == Save(b, a, 2, true);
  }

  // ------------------------------------------------------------------- the code

  /** Core's store, its save queue and its adapter, all of the module. */
  class Store {
    var adapter: Adapter
    var loaded: Option<Profile>
    var queue: seq<Pending>
    var immediate: seq<Immediate>
    var pendingVersion: nat
    var savedVersion: nat
    var replacementPending: bool
    ghost var due: bool
    ghost var saves: seq<Save>
    ghost var loads: seq<Load>

    ghost function View(): State
      reads this
    {
      State(adapter, loaded, queue, immediate, pendingVersion, savedVersion, replacementPending, due, saves, loads)
    }

    constructor ()
      ensures View() == INITIAL.store
    {
      adapter, loaded, queue, immediate := Adapter(0, false), None, [], [];
      pendingVersion, savedVersion, replacementPending := 0, 0, false;
      due, saves, loads := true, [], [];
    }

    method DebouncedSave()
      modifies this`pendingVersion, this`queue
      ensures View() == Edited(old(View()))
    {
      hide Capped;
      pendingVersion := pendingVersion + 1;
      queue := Capped(queue + [Pending(pendingVersion, if loaded.Some? then loaded.value else adapter.profile, 0)]);
    }

    method SaveTask(lands: bool)
      modifies this`pendingVersion, this`queue, this`immediate, this`saves
      ensures View() == TaskEdited(old(View()), lands)
    {
      if !adapter.saveTask || queue != [] {
        DebouncedSave();
        return;
      }
      pendingVersion := pendingVersion + 1;
      var origin := if loaded.Some? then loaded.value else adapter.profile;
      immediate := immediate + [Immediate(pendingVersion, origin, lands)];
      saves := saves + [Save(adapter.profile, origin, pendingVersion, false)];
    }

    method EditTimes(n: nat)
      modifies this`pendingVersion, this`queue
      ensures View() == EditedTimes(old(View()), n)
    {
      hide Edited;
      for edit := 0 to n
        invariant EditedTimes(old(View()), n) == EditedTimes(View(), n - edit)
      {
        DebouncedSave();
      }
    }

    /** One turn of a flush. */
    method SaveLatest(go: Try) returns (goesOn: bool)
      requires queue != []
      modifies this`pendingVersion, this`savedVersion, this`queue, this`saves
      ensures (View(), goesOn) == SavedLatest(old(View()), go)
    {
      hide Capped, MostAttempts, EditedTimes;
      var latest, attempts := queue[|queue| - 1], MostAttempts(queue);
      queue := [];
      if latest.version <= savedVersion {
        return true;
      }
      saves := saves + [Save(adapter.profile, latest.origin, latest.version, true)];
      EditTimes(go.edits);
      EditsOnlyQueue(Tried(old(View())), go.edits);
      if go.lands {
        savedVersion := latest.version;
        return true;
      }
      var hasNewer := exists i :: 0 <= i < |queue| && queue[i].version > latest.version;
      if !hasNewer && attempts + 1 < MAX_SAVE_RETRY_ATTEMPTS {
        queue := Capped([Pending(latest.version, latest.origin, attempts + 1)] + queue);
      }
      goesOn := HasNewer(queue, latest.version) || HasVersion(queue, latest.version);
    }

    /** Task saves in flight first, then snapshots until none is queued; false when it throws. */
    method FlushPendingSave(tries: seq<Try>) returns (ok: bool)
      modifies this`pendingVersion, this`savedVersion, this`queue, this`immediate, this`saves
      ensures (View(), ok) == Flushed(old(View()), tries)
    {
      hide SavedLatest, RetryQueued;
      var rest := tries;
      while true
        invariant Flushed(old(View()), tries) == Flushed(View(), rest)
        decreases |rest|, |immediate|, |queue|
      {
        if immediate != [] {
          var one := immediate[0];
          immediate := immediate[1..];
          if !one.lands {
            QueueRetry(one);
            return false;
          }
        } else if queue == [] {
          return true;
        } else {
          TriesEnd(View(), rest);
          var goesOn := SaveLatest(First(rest));
          if !goesOn {
            return false;
          }
          rest := Rest(rest);
        }
      }
    }

    method QueueRetry(failed: Immediate)
      modifies this`queue
      ensures View() == RetryQueued(old(View()), failed)
    {
      if !HasNewer(queue, failed.version) {
        queue := Capped(queue + [Pending(failed.version, failed.origin, 0)]);
      }
    }

    method FetchData(flush: seq<bool>, succeeds: bool, migrates: bool) returns (ok: bool)
      modifies this
      ensures (View(), ok) == Fetched(old(View()), flush, succeeds, migrates)
    {
      hide Flushed;
      var isDocumentReplacement := replacementPending;
      replacementPending := false;
      if queue != [] || immediate != [] {
        ghost var unmarked := View();
        ok := FlushPendingSave(Quiet(flush));
        if !ok {
          return;
        }
      }
      if !succeeds {
        return false;
      }
      loads := loads + [Load(adapter.profile, loaded, due, isDocumentReplacement)];
      loaded := Some(adapter.profile);
      due := false;
      if migrates {
        DebouncedSave();
      }
      ok := true;
    }

    method Do(act: Act) returns (ok: bool)
      modifies this
      ensures (View(), ok) == Done(old(View()), act)
    {
      hide Fetched, Flushed, Edited, TaskEdited;
      ok := true;
      match act
      case Fetch(flush, succeeds, migrates) => ok := FetchData(flush, succeeds, migrates);
      case Edit(focused, lands) =>
        if focused {
          SaveTask(lands);
        } else {
          DebouncedSave();
        }
      case Flush(flush) => ok := FlushPendingSave(Quiet(flush));
      case Timer(tries) => var _ := FlushPendingSave(tries);
    }

    /** The steps of a body, up to the first that throws. */
    method Body(acts: seq<Act>) returns (ok: bool)
      modifies this
      ensures (View(), ok) == Steps(old(View()), acts)
    {
      hide Done;
      for i := 0 to |acts|
        invariant Steps(old(View()), acts) == Steps(View(), acts[i..])
      {
        assert acts[i..][0] == acts[i] && acts[i..][1..] == acts[i + 1..];
        ok := Do(acts[i]);
        if !ok {
          return;
        }
      }
      ok := true;
    }
  }

  /** The module's singletons: the store, and the profile its document is known to be. */
  class Automation {
    const store: Store
    var activeStorageIdentity: Option<Profile>

    ghost function View(): System
      reads this, store
    {
      System(store.View(), activeStorageIdentity)
    }

    constructor ()
      ensures View() == INITIAL && fresh(store)
    {
      store := new Store();
      activeStorageIdentity := None;
    }

    method RunAttempt(attempt: Attempt) returns (ok: bool)
      modifies this, store
      ensures (View(), ok) == Attempted(old(View()), attempt)
    {
      hide Steps, Flushed;
      var storageIdentity := store.adapter.profile;
      if activeStorageIdentity != Some(storageIdentity) {
        store.replacementPending := true;
      }
      ok := store.Body(attempt.acts);
      ok := ok && !attempt.throws;
      if ok {
        ok := store.FlushPendingSave(Quiet(attempt.flush));
      }
      if ok {
        activeStorageIdentity := Some(storageIdentity);
      } else {
        var settled := store.FlushPendingSave(Quiet(attempt.cleanup));
        activeStorageIdentity := None;
        store.due := true;
      }
    }

    /** `runStoreOperation`: the body runs at most twice, and again only after a retryable error. */
    method RunStoreOperation(adapter: Adapter, first: Attempt, second: Attempt) returns (ok: bool, runs: nat)
      modifies this, store
      ensures (View(), ok) == Operated(old(View()), adapter, first, second)
      ensures 1 <= runs <= 2 && (runs == 2 ==> first.retryable) && (!ok && runs == 1 ==> !first.retryable)
    {
      hide Attempted;
      store.adapter := adapter;
      store.due := store.due || activeStorageIdentity != Some(adapter.profile);
      ok := RunAttempt(first);
      runs := 1;
      while !ok && runs < 2 && first.retryable
        invariant 1 <= runs <= 2 && (runs == 2 ==>
            first.retryable && (View(), ok) == Operated(old(View()), adapter, first, second))
        invariant runs == 1 ==>
          Operated(old(View()), adapter, first, second) ==
          (if ok || !first.retryable then (View(), ok) else Attempted(View(), second))
      {
        ok := RunAttempt(second);
        runs := 2;
      }
    }
  }

  /** The services, one operation after another: no condition on what fails where, but that their adapters have no
    * `saveTask`, as the one they install has not. */
  method RunServices(automation: Automation, operations: seq<Operation>)
    requires automation.View() == INITIAL
    requires forall op :: op in operations ==> Reloads(op.first) && Reloads(op.second) && !op.adapter.saveTask
    modifies automation, automation.store
    ensures automation.View() == Served(INITIAL, operations)
    ensures Own(automation.store.saves) && Replaced(automation.store.loads) && Settled(automation.store.View())
  {
    hide Operated, Own, Replaced;
    for i := 0 to |operations|
      invariant Served(INITIAL, operations) == Served(automation.View(), operations[i..])
    {
      assert operations[i..][0] == operations[i] && operations[i..][1..] == operations[i + 1..];
      var op := operations[i];
      var ok, runs := automation.RunStoreOperation(op.adapter, op.first, op.second);
    }
    InitialIsSound();
    ServicesKeep(INITIAL, operations);
  }
}
