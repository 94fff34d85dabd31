/** The production track over any run of publications and rollout actions. */
module PlaySafety {
  import opened PlayServer
  import opened PlayRollout
  import opened PlayPublish
  import opened Wrappers

  datatype Op = Publish(plan: Plan) | Control(code: Option<int>, action: Action, percentage: Option<real>)

  /** What one run of a script may leave committed: the store it found, or the one change it decided on. */
  ghost predicate Next(s: Store, op: Op, t: Store)
  {
    t == s ||
    match op
    case Publish(plan) => Admissible(s, plan) && Published(s, plan, plan.expected, t)
    case Control(code, action, percentage) =>
      var d := Decide(Production(s), code, action, percentage);
      d.Change? && t == PutTrack(s, "production", d.release)
  }

  ghost predicate IsRun(states: seq<Store>, ops: seq<Op>)
  {
    && |states| == |ops| + 1 && Production(states[0]) == []
    && (forall k :: 0 <= k < |ops| ==>
        (ops[k].Publish? ==> Built(ops[k].plan.tracks)) && Next(states[k], ops[k], states[k + 1]))
  }

  predicate WellKept(release: Release)
  {
    && |release.codes| == 1 && ValidCode(release.codes[0])
    && match release.status
       case Completed => release.fraction == None
       case InProgress => ValidFraction(release.fraction)
       case Halted => ValidFraction(release.fraction)
       case _ => false
  }

  predicate IsNewest(releases: seq<Release>, at: nat)
    requires at < |releases| && forall i :: 0 <= i < |releases| ==> |releases[i].codes| == 1
  {
    forall i :: 0 <= i < |releases| ==> releases[i].codes[0] <= releases[at].codes[0]
  }

  /** Each release holds one code of its own, completed or at a fraction strictly between 0 and 1; at most one
    * is in progress, and none while the newest is halted. */
  ghost predicate Sound(releases: seq<Release>)
  {
    && (forall i :: 0 <= i < |releases| ==> WellKept(releases[i]))
    && (forall i, j :: 0 <= i < j < |releases| ==> releases[i].codes != releases[j].codes)
    && (forall i, j ::
          0 <= i < |releases| && 0 <= j < |releases| && releases[i].status == releases[j].status == InProgress ==>
          i == j)
    && (forall i: nat, j ::
          i < |releases| && 0 <= j < |releases| && releases[i].status == Halted && IsNewest(releases, i) ==>
          releases[j].status != InProgress)
  }

  /** A release's rollout only moves on: its users never fewer, and completed for good. */
  predicate Onward(was: Release, now: Release)
  {
    && now.name == was.name && now.codes == was.codes
    && (was.status == Completed ==> now == was)
    && (now.status != Completed ==>
        was.fraction.Some? && now.fraction.Some? && was.fraction.value <= now.fraction.value)
  }

  ghost predicate Advances(before: seq<Release>, after: seq<Release>)
  {
    |before| <= |after| && forall i :: 0 <= i < |before| ==> Onward(before[i], after[i])
  }

  /** A committed rollout change puts one release, the only one holding exactly the track's highest code, in
    * its old place; an automatic one was in progress. */
  lemma ChangeTargetsHighest(releases: seq<Release>, code: Option<int>, action: Action, percentage: Option<real>)
    returns (at: nat)
    requires Decide(releases, code, action, percentage).Change?
    ensures var release := Decide(releases, code, action, percentage).release;
            && at < |releases| && |releases[at].codes| == 1 && release.codes == releases[at].codes
            && IsTarget(releases, at, releases[at].codes[0]) && IsMax(releases, releases[at].codes[0])
            && (code.Some? ==> releases[at].codes == [code.value]) && (code.None? <==> action == Auto)
            && (percentage.Some? <==> action == Increase) && (percentage.Some? ==> 0.0 < percentage.value < 100.0)
            && Put(releases, release) == releases[at := release]
            && (action == Auto ==> releases[at].status == InProgress)
            && (releases[at].status in {InProgress, Halted} && ValidFraction(releases[at].fraction))
            && Onward(releases[at], release)
                && (release.status == InProgress ==> action == Resume || releases[at].status == InProgress)
            && (action == Resume ==> releases[at].status == Halted)
            && release.status in {InProgress, Halted, Completed}
            && (if release.status == Completed then release.fraction == None else ValidFraction(release.fraction))
  {
    hide IsTarget, IsMax;
    assert exists b: nat :: Chosen(releases, code, b);
    at :| Chosen(releases, code, at);
    DecideChosen(releases, code, action, percentage, at);
    AskedArguments(code, action, percentage);
    var release := Decide(releases, code, action, percentage).release;
    AloneBefore(releases, at, releases[at].codes[0]);
    PutKeepsOthers(releases, release, at);
  }

  lemma AloneBefore(releases: seq<Release>, at: nat, code: int)
    requires IsTarget(releases, at, code)
    ensures forall i :: 0 <= i < at ==> releases[i].codes != [code]
  {
    assert code in [code];
  }

  lemma ControlKeeps(releases: seq<Release>, code: Option<int>, action: Action, percentage: Option<real>)
    requires Sound(releases) && Decide(releases, code, action, percentage).Change?
    ensures var after := Put(releases, Decide(releases, code, action, percentage).release);
            Sound(after) && Advances(releases, after)
  {
    hide Decide, Put;
    var at := ChangeTargetsHighest(releases, code, action, percentage);
    var release := Decide(releases, code, action, percentage).release;
    var after := releases[at := release];
    MaxIsNewest(releases, at);
    assert forall i :: 0 <= i < |releases| ==> after[i].codes == releases[i].codes;
    forall i: nat, j | i < |after| && 0 <= j < |after| && after[i].status == Halted && IsNewest(after, i)
      ensures after[j].status != InProgress
    {
      assert i == at by { assert after[i].codes[0] == after[at].codes[0]; }
    }
  }

  lemma MaxIsNewest(releases: seq<Release>, at: nat)
    requires at < |releases| && (forall i :: 0 <= i < |releases| ==> |releases[i].codes| == 1)
    requires IsMax(releases, releases[at].codes[0])
    ensures IsNewest(releases, at)
  {
  }

  lemma PublishKeeps(s: Store, plan: Plan, t: Store)
    requires Built(plan.tracks) && Admissible(s, plan) && Published(s, plan, plan.expected, t)
    requires Sound(Production(s))
    ensures Sound(Production(t)) && Advances(Production(s), Production(t))
  {
    hide ImagesPut, TextsPut, Put;
    var releases := Production(s);
    if i :| 0 <= i < |plan.tracks| && plan.tracks[i].track == "production" {
      var release := ReleaseOf(plan.tracks[i], plan.expected);
      NotUsedBefore(s, "production", plan.expected);
      PutAdds(releases, release);
      if release.status == InProgress {
        assert IsStaged(plan.tracks);
      }
      Added(releases, release);
    }
  }

  lemma NotUsedBefore(s: Store, track: string, code: int)
    requires !Used(s, code)
    ensures forall i :: 0 <= i < |TrackOf(s, track)| ==>
        code !in TrackOf(s, track)[i].codes && TrackOf(s, track)[i].codes != [code]
  {
    assert code in [code];
  }

  lemma Added(releases: seq<Release>, release: Release)
    requires Sound(releases) && WellKept(release) && release.status != Halted
    requires forall i :: 0 <= i < |releases| ==> releases[i].codes != release.codes
    requires release.status == InProgress ==> Clear(releases, release.codes[0])
    ensures Sound(releases + [release]) && Advances(releases, releases + [release])
  {
    var after := releases + [release];
    assert forall i :: 0 <= i < |releases| ==> after[i] == releases[i];
    forall i: nat, j | i < |after| && 0 <= j < |after| && after[i].status == Halted && IsNewest(after, i)
      ensures after[j].status != InProgress
    {
      assert after[|releases|].codes[0] <= after[i].codes[0];
      assert IsNewest(releases, i);
    }
  }

  lemma NextKeeps(s: Store, op: Op, t: Store)
    requires Next(s, op, t) && (op.Publish? ==> Built(op.plan.tracks)) && Sound(Production(s))
    ensures Sound(Production(t)) && Advances(Production(s), Production(t))
  {
    hide Decide, Put, Admissible, Published;
    if t == s {
    } else if op.Publish? {
      PublishKeeps(s, op.plan, t);
    } else {
      ControlKeeps(Production(s), op.code, op.action, op.percentage);
    }
  }

  /** From an empty production track, over every run of built plans and rollout actions: the track is sound
    * in every state, and between any two states every release has only moved on. */
  lemma {:induction false} RunIsSafe(states: seq<Store>, ops: seq<Op>, i: nat, j: nat)
    requires IsRun(states, ops) && i <= j < |states|
    ensures Sound(Production(states[i])) && Sound(Production(states[j]))
    ensures Advances(Production(states[i]), Production(states[j]))
    decreases j
  {
    hide Next, Production;
    if j == 0 {
      EmptyIsSound(states[0]);
    } else if i == j {
      RunIsSafe(states, ops, j - 1, j - 1);
      NextKeeps(states[j - 1], ops[j - 1], states[j]);
      SoundAdvances(Production(states[j]));
    } else {
      RunIsSafe(states, ops, i, j - 1);
      NextKeeps(states[j - 1], ops[j - 1], states[j]);
    }
  }

  lemma EmptyIsSound(s: Store)
    requires Production(s) == []
    ensures Sound(Production(s)) && Advances(Production(s), Production(s))
  {
  }

  lemma SoundAdvances(releases: seq<Release>)
    requires Sound(releases)
    ensures Advances(releases, releases)
  {
  }

  // ------------------------------------------------------- single actions

  /** What a call for the newest release decides, whatever else the track holds. */
  lemma NewestDecides(releases: seq<Release>, at: nat, code: int, action: Action, percentage: Option<real>)
    requires Sound(releases) && at < |releases| && IsNewest(releases, at) && releases[at].codes[0] == code
    requires Asked(Some(code), action, percentage)
    ensures Decide(releases, Some(code), action, percentage) == Acted(releases[at], code, action, percentage)
  {
    hide Acted, Asked, Sound, IsTarget, IsMax;
    NewestIsChosen(releases, at);
    DecideChosen(releases, Some(code), action, percentage, at);
  }

  lemma PutInPlace(releases: seq<Release>, at: nat, release: Release)
    requires Sound(releases) && at < |releases| && release.codes == releases[at].codes
    ensures Put(releases, release) == releases[at := release]
  {
    hide WellKept;
    PutKeepsOthers(releases, release, at);
  }

  /** Only the newest release's code is answered at all, and a status call reports just that release, with its
    * percentage while its rollout is unfinished. */
  lemma StatusReports(releases: seq<Release>, at: nat, code: Option<int>)
    requires Sound(releases) && at < |releases| && IsNewest(releases, at) && (code.Some? ==> ValidCode(code.value))
    ensures Decide(releases, code, Status, None) ==
            if code.Some? && [code.value] != releases[at].codes then Refuse
            else Report(Some(releases[at].codes[0]), releases[at].status,
                        if releases[at].status == Completed then None
                        else Some(releases[at].fraction.value * 100.0))
  {
    hide Decide, IsTarget, IsMax;
    NewestIsChosen(releases, at);
    if code.None? || code.value == releases[at].codes[0] {
      DecideChosen(releases, code, Status, None, at);
    } else {
      OthersAreRefused(releases, at, code.value, Status, None);
    }
  }

  lemma OthersAreRefused(releases: seq<Release>, at: nat, code: int, action: Action, percentage: Option<real>)
    requires Newest(releases, at) && releases[at].codes != [code]
    ensures Decide(releases, Some(code), action, percentage) == Refuse
  {
    forall b: nat ensures !Chosen(releases, Some(code), b) {
      if Chosen(releases, Some(code), b) {
        ChosenIsUnique(releases, None, at, b);
      }
    }
  }

  /** An action on the newest release that changes it puts the changed release in its place, still the newest. */
  lemma NewestMoves(releases: seq<Release>, at: nat, code: int, action: Action, moved: Release)
    requires Sound(releases) && at < |releases| && IsNewest(releases, at) && releases[at].codes[0] == code
    requires Asked(Some(code), action, None) && Acted(releases[at], code, action, None) == Change(code, moved)
    requires moved.codes == releases[at].codes
    ensures Decide(releases, Some(code), action, None) == Change(code, moved)
    ensures Put(releases, moved) == releases[at := moved]
    ensures Sound(releases[at := moved]) && IsNewest(releases[at := moved], at)
  {
    hide Decide, Put, Acted, Asked;
    NewestDecides(releases, at, code, action, None);
    PutInPlace(releases, at, moved);
    ControlKeeps(releases, Some(code), action, None);
    assert forall i :: 0 <= i < |releases| ==> releases[at := moved][i].codes == releases[i].codes;
  }

  lemma ActedHalf(release: Release, code: int)
    requires WellKept(release) && release.status == InProgress && release.codes[0] == code
    ensures Asked(Some(code), Halt, None) && Asked(Some(code), Resume, None)
    ensures Acted(release, code, Halt, None) == Change(code, release.(status := Halted))
    ensures Acted(release.(status := Halted), code, Resume, None) == Change(code, release)
  {
  }

  lemma ActedFinalize(release: Release, code: int)
    requires WellKept(release) && release.status in {InProgress, Halted} && release.codes[0] == code
    ensures Asked(Some(code), Finalize, None)
    ensures Acted(release, code, Finalize, None) == Change(code, release.(status := Completed, fraction := None))
  {
  }

  /** A halt leaves the fraction, and a resume after it gives the track back as it was. */
  lemma HaltThenResume(releases: seq<Release>, at: nat, code: int)
    requires Sound(releases) && at < |releases| && IsNewest(releases, at) && releases[at].codes[0] == code
    requires releases[at].status == InProgress
    ensures var h := Decide(releases, Some(code), Halt, None);
            && h.Change?
            && var halted := Put(releases, h.release);
            && halted == releases[at := releases[at].(status := Halted)]
            && var r := Decide(halted, Some(code), Resume, None);
            r.Change? && Put(halted, r.release) == releases
  {
    hide Decide, Put, Sound, IsNewest, Acted;
    NewestIsWellKept(releases, at);
    var halted := releases[at].(status := Halted);
    ActedHalf(releases[at], code);
    NewestMoves(releases, at, code, Halt, halted);
    NewestMoves(releases[at := halted], at, code, Resume, releases[at]);
    assert releases[at := halted][at := releases[at]] == releases;
  }

  /** An increase commits exactly on a release in progress below the percentage, and sets just that fraction. */
  lemma IncreaseExactly(releases: seq<Release>, at: nat, code: int, percentage: real)
    requires Sound(releases) && at < |releases| && IsNewest(releases, at) && releases[at].codes[0] == code
    requires 0.0 < percentage < 100.0
    ensures var d := Decide(releases, Some(code), Increase, Some(percentage));
            && (d.Change? <==> releases[at].status == InProgress && percentage > releases[at].fraction.value * 100.0)
            && (d.Change? ==>
                  Put(releases, d.release) == releases[at := releases[at].(fraction := Some(percentage / 100.0))])
  {
    hide Decide, Put, Sound, IsNewest, Acted;
    NewestIsWellKept(releases, at);
    ActedIncrease(releases[at], code, percentage);
    NewestDecides(releases, at, code, Increase, Some(percentage));
    PutInPlace(releases, at, releases[at].(fraction := Some(percentage / 100.0)));
  }

  lemma NewestIsWellKept(releases: seq<Release>, at: nat)
    requires Sound(releases) && at < |releases|
    ensures WellKept(releases[at])
  {
  }

  lemma ActedIncrease(release: Release, code: int, percentage: real)
    requires WellKept(release) && 0.0 < percentage < 100.0
    ensures Acted(release, code, Increase, Some(percentage)) ==
            if release.status == InProgress && percentage > release.fraction.value * 100.0
            then Change(code, release.(fraction := Some(percentage / 100.0))) else Refuse
  {
    if release.status == InProgress {
      assert percentage / 100.0 > release.fraction.value <==> percentage > release.fraction.value * 100.0;
    }
  }

  /** Finalizing ends a rollout, in progress or halted, for good: no action changes the track after it. */
  lemma FinalizeEnds(releases: seq<Release>, at: nat, code: int, action: Action, percentage: Option<real>)
    requires Sound(releases) && at < |releases| && IsNewest(releases, at) && releases[at].codes[0] == code
    requires releases[at].status in {InProgress, Halted}
    ensures var f := Decide(releases, Some(code), Finalize, None);
            && f.Change?
            && var after := Put(releases, f.release);
            && after == releases[at := releases[at].(status := Completed, fraction := None)]
            && !Decide(after, Some(code), action, percentage).Change?
                && !Decide(after, None, action, percentage).Change?
  {
    hide Decide, Put, Sound, IsNewest, Acted;
    NewestIsWellKept(releases, at);
    var done := releases[at].(status := Completed, fraction := None);
    ActedFinalize(releases[at], code);
    NewestMoves(releases, at, code, Finalize, done);
    var after := releases[at := done];
    CompletedIsLeft(after, at, Some(code), action, percentage);
    CompletedIsLeft(after, at, None, action, percentage);
  }

  lemma CompletedIsLeft(releases: seq<Release>, at: nat, code: Option<int>, action: Action, percentage: Option<real>)
    requires Sound(releases) && at < |releases| && IsNewest(releases, at) && releases[at].status == Completed
    ensures !Decide(releases, code, action, percentage).Change?
  {
    if Decide(releases, code, action, percentage).Change? {
      var b := ChangeTargetsHighest(releases, code, action, percentage);
      MaxIsNewest(releases, b);
    }
  }

  // ------------------------------------------------- the automatic schedule

  /** The track after [n] automatic runs, each committing its change if it decides on one. */
  ghost function AutoRun(releases: seq<Release>, n: nat): seq<Release>
  {
    if n == 0 then releases
    else
      var before := AutoRun(releases, n - 1);
      var d := Decide(before, None, Auto, None);
      if d.Change? then Put(before, d.release) else before
  }

  ghost predicate Newest(releases: seq<Release>, at: nat)
  {
    CodesValid(releases) && Chosen(releases, None, at)
  }

  lemma AutoChanges(releases: seq<Release>, at: nat, fraction: real)
    requires Newest(releases, at) && releases[at].status == InProgress && releases[at].fraction == Some(fraction)
        && 0.0 < fraction < 1.0
    ensures match AutoStep(fraction)
            case None => Decide(releases, None, Auto, None) == Refuse
            case Some(step) =>
              var release := if step.0 == Increase then releases[at].(fraction := Some(step.1.value / 100.0))
                             else releases[at].(status := Completed, fraction := None);
              && Decide(releases, None, Auto, None) == Change(releases[at].codes[0], release)
              && Put(releases, release) == releases[at := release] && Newest(releases[at := release], at)
  {
    hide IsMax;
    DecideChosen(releases, None, Auto, None, at);
    match AutoStep(fraction)
    case None =>
    case Some(step) =>
      var release := Decide(releases, None, Auto, None).release;
      AloneBefore(releases, at, releases[at].codes[0]);
      PutKeepsOthers(releases, release, at);
      SameCodesNewest(releases, at, release);
  }

  lemma SameCodesNewest(releases: seq<Release>, at: nat, release: Release)
    requires Newest(releases, at) && release.codes == releases[at].codes
    ensures Newest(releases[at := release], at)
  {
    var after := releases[at := release];
    assert forall i :: 0 <= i < |releases| ==> after[i].codes == releases[i].codes;
    assert releases[at].codes[0] in after[at].codes;
  }

  lemma AutoIsDone(releases: seq<Release>, at: nat)
    requires Newest(releases, at) && releases[at].status in {Completed, Halted, Draft}
    ensures !Decide(releases, None, Auto, None).Change?
  {
    DecideChosen(releases, None, Auto, None, at);
  }

  /** Automatic runs alone take the newest release from 5% to exactly 20%, exactly 50% and completion, and
    * then never commit again. */
  lemma {:induction false} AutoSchedule(releases: seq<Release>, at: nat, n: nat)
    requires Newest(releases, at) && releases[at].status == InProgress
    requires releases[at].fraction.Some? && Close(releases[at].fraction.value * 100.0, 5.0)
    ensures AutoRun(releases, n) ==
            if n == 0 then releases
            else releases[at := if n == 1 then releases[at].(fraction := Some(0.2))
                                else if n == 2 then releases[at].(fraction := Some(0.5))
                                else releases[at].(status := Completed, fraction := None)]
    ensures Newest(AutoRun(releases, n), at)
    ensures n >= 3 ==> !Decide(AutoRun(releases, n), None, Auto, None).Change?
  {
    hide Decide, Newest, Put;
    if n > 0 {
      AutoSchedule(releases, at, n - 1);
      var before := AutoRun(releases, n - 1);
      assert at < |releases| by { NewestInRange(releases, at); }
      if n <= 3 {
        AutoChanges(before, at, before[at].fraction.value);
      } else {
        AutoIsDone(before, at);
      }
      if n >= 3 {
        AutoIsDone(AutoRun(releases, n), at);
      }
    }
  }

  lemma NewestInRange(releases: seq<Release>, at: nat)
    requires Newest(releases, at)
    ensures at < |releases|
  {
  }

  /** A sound track's automatic run commits exactly when its newest release is in progress at 5%, 20% or 50%;
    * a halted release is left alone. */
  lemma AutoCommitsIff(releases: seq<Release>, at: nat)
    requires Sound(releases) && at < |releases| && IsNewest(releases, at)
    ensures Decide(releases, None, Auto, None).Change? <==>
            && releases[at].status == InProgress
            && exists k :: 0 <= k < 3 && Close(releases[at].fraction.value * 100.0, AUTO_ROLLOUT_PERCENTAGES[k])
  {
    hide Decide;
    NewestIsChosen(releases, at);
    if releases[at].status == InProgress {
      AutoChanges(releases, at, releases[at].fraction.value);
      assert AUTO_ROLLOUT_PERCENTAGES[0] == 5.0 && AUTO_ROLLOUT_PERCENTAGES[1] == 20.0
          && AUTO_ROLLOUT_PERCENTAGES[2] == 50.0;
    } else {
      AutoIsDone(releases, at);
    }
  }

  lemma NewestIsChosen(releases: seq<Release>, at: nat)
    requires Sound(releases) && at < |releases| && IsNewest(releases, at)
    ensures Newest(releases, at)
  {
    assert forall i :: 0 <= i < |releases| ==> releases[i].codes == [releases[i].codes[0]];
  }

  // ------------------------------------------------------- the scripts' run

  method RunScript(play: Play, op: Op)
    modifies play
    ensures Next(old(play.committed), op, play.committed)
  {
    hide Decide, Admissible, Published, Put, PutTrack, AllAnswered, CommitAt, Production;
    match op {
      case Publish(plan) => var _ := PublishRelease(play, plan);
      case Control(code, action, percentage) => var _ := ControlRollout(play, code, action, percentage);
    }
  }

  /** Any sequence of script runs against Play, whatever their requests meet, keeps the track sound. */
  method RunScripts(play: Play, ops: seq<Op>) returns (ghost states: seq<Store>)
    requires Production(play.committed) == []
    requires forall k :: 0 <= k < |ops| && ops[k].Publish? ==> Built(ops[k].plan.tracks)
    modifies play
    ensures IsRun(states, ops) && states[|ops|] == play.committed && states[0] == old(play.committed)
    ensures Sound(Production(play.committed))
  {
    states := [play.committed];
    for k := 0 to |ops|
      invariant |states| == k + 1 && states[k] == play.committed && states[0] == old(play.committed)
      invariant forall l :: 0 <= l < k ==> Next(states[l], ops[l], states[l + 1])
    {
      hide Next, Production;
      RunScript(play, ops[k]);
      states := states + [play.committed];
    }
    RunIsSafe(states, ops, |ops|, |ops|);
  }
}
