/** Staged rollout control: one exact production release is inspected or moved along. */
module PlayRollout {
  import opened PlayServer
  import opened Wrappers

  datatype Action = Status | Increase | Halt | Resume | Finalize | Auto | UnknownAction

  /** What `control_rollout` decides of a production track: refuse it, report it, or put one changed release. */
  datatype Decision =
    | Refuse
    | Report(found: Option<int>, status: Status, percentage: Option<real>)
    | Change(code: int, release: Release)

  /** The automatic schedule, in percent, and the tolerance a percentage meets it within. */
  const AUTO_ROLLOUT_PERCENTAGES := [5.0, 20.0, 50.0]
  const TOLERANCE := 0.000001

  predicate Close(a: real, b: real)
  {
    -TOLERANCE <= a - b <= TOLERANCE
  }

  predicate ValidCode(code: int)
  {
    1 <= code <= MAX_VERSION_CODE
  }

  predicate CodesValid(releases: seq<Release>)
  {
    forall i, k :: 0 <= i < |releases| && 0 <= k < |releases[i].codes| ==> ValidCode(releases[i].codes[k])
  }

  /** The highest version code of the track, 0 when it has none. */
  ghost predicate IsMax(releases: seq<Release>, max: int)
  {
    && (forall i, k :: 0 <= i < |releases| && 0 <= k < |releases[i].codes| ==> releases[i].codes[k] <= max)
    && (max == 0 || exists i :: 0 <= i < |releases| && max in releases[i].codes)
  }

  /** The one release holding exactly [code]; no other release holds it. */
  ghost predicate IsTarget(releases: seq<Release>, at: nat, code: int)
  {
    && at < |releases| && releases[at].codes == [code]
    && forall i :: 0 <= i < |releases| && i != at ==> code !in releases[i].codes
  }

  predicate ValidFraction(fraction: Option<real>)
  {
    fraction.Some? && 0.0 < fraction.value < 1.0
  }

  /** The arguments `control_rollout` accepts: only increase takes a percentage, only status and auto no code. */
  predicate Asked(code: Option<int>, action: Action, percentage: Option<real>)
  {
    && action != UnknownAction
    && (action == Auto ==> code == None)
    && (code.None? ==> action == Auto || action == Status)
    && (code.Some? ==> ValidCode(code.value))
    && (if action == Increase then percentage.Some? && 0.0 < percentage.value < 100.0 else percentage == None)
  }

  /** The step an automatic run takes from a fraction, and its requested percentage; None off the schedule. */
  function AutoStep(fraction: real): Option<(Action, Option<real>)>
  {
    var current := fraction * 100.0;
    if Close(current, AUTO_ROLLOUT_PERCENTAGES[0]) then Some((Increase, Some(AUTO_ROLLOUT_PERCENTAGES[1])))
    else if Close(current, AUTO_ROLLOUT_PERCENTAGES[1]) then Some((Increase, Some(AUTO_ROLLOUT_PERCENTAGES[2])))
    else if Close(current, AUTO_ROLLOUT_PERCENTAGES[2]) then Some((Finalize, None))
    else None
  }

  /** The target after a mutating action, None when its state does not allow the action. */
  function Mutated(target: Release, action: Action, percentage: Option<real>): Option<Release>
    requires target.status in {InProgress, Halted} ==> ValidFraction(target.fraction)
    requires action == Increase ==> percentage.Some?
  {
    match action
    case Increase =>
      if target.status == InProgress && percentage.value / 100.0 > target.fraction.value
      then Some(target.(fraction := Some(percentage.value / 100.0))) else None
    case Halt => if target.status == InProgress then Some(target.(status := Halted)) else None
    case Resume => if target.status == Halted then Some(target.(status := InProgress)) else None
    case Finalize =>
      if target.status in {InProgress, Halted} then Some(target.(status := Completed, fraction := None)) else None
    case _ => None
  }

  function Percentage(target: Release): Option<real>
  {
    if target.status in {InProgress, Halted} && target.fraction.Some? then Some(target.fraction.value * 100.0) else None
  }

  /** What is decided of the target once it is found. */
  function Acted(target: Release, code: int, action: Action, percentage: Option<real>): Decision
    requires action == Increase ==> percentage.Some?
  {
    if target.status == NoStatus then Refuse
    else if target.status in {InProgress, Halted} && !ValidFraction(target.fraction) then Refuse
    else if action == Status || (action == Auto && target.status in {Draft, Completed, Halted}) then
      Report(Some(code), target.status, Percentage(target))
    else if target.status !in {InProgress, Halted, Completed} then Refuse
    else
      var step := if action == Auto then AutoStep(target.fraction.value) else Some((action, percentage));
      if step.None? then Refuse
      else match Mutated(target, step.value.0, step.value.1)
        case None => Refuse
        case Some(release) => Change(code, release)
  }

  /** The release an accepted call is about: the one asked for, or the newest; either way the single release
    * holding exactly the track's highest code. */
  ghost predicate Chosen(releases: seq<Release>, code: Option<int>, at: nat)
  {
    && at < |releases| && |releases[at].codes| == 1
    && IsTarget(releases, at, releases[at].codes[0]) && IsMax(releases, releases[at].codes[0])
    && (code.Some? ==> releases[at].codes[0] == code.value)
  }

  /** The whole decision, for any production track and any arguments. */
  ghost function Decide(releases: seq<Release>, code: Option<int>, action: Action, percentage: Option<real>): Decision
  {
    if !Asked(code, action, percentage) || !CodesValid(releases) then Refuse
    else if code.None? && releases == [] && action == Status then Report(None, NoStatus, None)
    else if at: nat :| Chosen(releases, code, at) then Acted(releases[at], releases[at].codes[0], action, percentage)
    else Refuse
  }

  lemma ChosenIsUnique(releases: seq<Release>, code: Option<int>, a: nat, b: nat)
    requires Chosen(releases, code, a) && Chosen(releases, code, b)
    ensures a == b
  {
    assert releases[a].codes[0] in releases[a].codes && releases[b].codes[0] in releases[b].codes;
  }

  // ------------------------------------------------------ control_rollout

  /** A release holds [code] beside other codes. */
  ghost predicate Ambiguous(releases: seq<Release>, code: int)
  {
    exists i :: 0 <= i < |releases| && code in releases[i].codes && releases[i].codes != [code]
  }

  datatype Survey = Survey(matching: seq<nat>, max: int)

  /** The scan of the track: its highest code, and where [wanted] stands; None when a code is out of range
    * or [wanted] shares a release. */
  method Scan(releases: seq<Release>, wanted: Option<int>) returns (r: Option<Survey>)
    ensures r.None? ==> !CodesValid(releases) || (wanted.Some? && Ambiguous(releases, wanted.value))
    ensures r.Some? ==> CodesValid(releases) && IsMax(releases, r.value.max) && r.value.max >= 0
    ensures r.Some? && wanted.Some? ==>
              !Ambiguous(releases, wanted.value) && IsMatching(releases, wanted.value, r.value.matching, |releases|)
  {
    hide CodesValid, IsMax, Ambiguous;
    var matching: seq<nat> := [];
    var max := 0;
    NothingScanned(releases);
    for i := 0 to |releases|
      invariant CodesValid(releases[..i]) && IsMax(releases[..i], max) && max >= 0
      invariant wanted.Some? ==>
          !Ambiguous(releases[..i], wanted.value) && IsMatching(releases, wanted.value, matching, i)
    {
      var codes := releases[i].codes;
      var high := ScanCodes(codes, max);
      if high.None? {
        InvalidCode(releases, i);
        return None;
      }
      ScannedOne(releases, i, max, high.value);
      max := high.value;
      if wanted.Some? {
        ScannedFor(releases, i, wanted.value);
        if wanted.value in codes {
          if codes != [wanted.value] {
            return None;
          }
          matching := matching + [i];
        }
      }
    }
    assert releases[..|releases|] == releases;
    r := Some(Survey(matching, max));
  }

  method ScanCodes(codes: seq<int>, max: int) returns (high: Option<int>)
    ensures high.None? <==> exists k :: 0 <= k < |codes| && !ValidCode(codes[k])
    ensures high.Some? ==> high.value >= max && (high.value == max || high.value in codes)
    ensures high.Some? ==> forall k :: 0 <= k < |codes| ==> codes[k] <= high.value
  {
    var top := max;
    for k := 0 to |codes|
      invariant forall l :: 0 <= l < k ==> ValidCode(codes[l]) && codes[l] <= top
      invariant top >= max && (top == max || top in codes)
    {
      if !ValidCode(codes[k]) {
        return None;
      }
      top := if codes[k] > top then codes[k] else top;
    }
    high := Some(top);
  }

  lemma NothingScanned(releases: seq<Release>)
    ensures CodesValid(releases[..0]) && IsMax(releases[..0], 0)
    ensures forall code :: !Ambiguous(releases[..0], code)
  {
  }

  lemma InvalidCode(releases: seq<Release>, i: nat)
    requires i < |releases| && exists k :: 0 <= k < |releases[i].codes| && !ValidCode(releases[i].codes[k])
    ensures !CodesValid(releases)
  {
  }

  lemma ScannedOne(releases: seq<Release>, i: nat, max: int, high: int)
    requires i < |releases| && CodesValid(releases[..i]) && IsMax(releases[..i], max) && max >= 0
    requires forall k :: 0 <= k < |releases[i].codes| ==>
        ValidCode(releases[i].codes[k]) && releases[i].codes[k] <= high
    requires high >= max && (high == max || high in releases[i].codes)
    ensures CodesValid(releases[..i + 1]) && IsMax(releases[..i + 1], high)
  {
    var before, after := releases[..i], releases[..i + 1];
    assert after[i] == releases[i];
    assert forall j :: 0 <= j < i ==> after[j] == before[j];
    if high == max && max != 0 {
      var j :| 0 <= j < i && max in before[j].codes;
      assert max in after[j].codes;
    }
  }

  lemma ScannedFor(releases: seq<Release>, i: nat, code: int)
    requires i < |releases| && !Ambiguous(releases[..i], code)
    ensures Ambiguous(releases[..i + 1], code) <==> code in releases[i].codes && releases[i].codes != [code]
    ensures code in releases[i].codes && releases[i].codes != [code] ==> Ambiguous(releases, code)
  {
    var before, after := releases[..i], releases[..i + 1];
    assert after[i] == releases[i];
    assert forall j :: 0 <= j < i ==> after[j] == before[j];
  }

  /** The positions before [end] of the releases holding [code], in order. */
  ghost predicate IsMatching(releases: seq<Release>, code: int, matching: seq<nat>, end: nat)
    requires end <= |releases|
  {
    && (forall k :: 0 <= k < |matching| ==> matching[k] < end && code in releases[matching[k]].codes)
    && (forall k, l :: 0 <= k < l < |matching| ==> matching[k] < matching[l])
    && (forall i: nat :: i < end && code in releases[i].codes ==> i in matching)
  }

  /** The target of the call, found as the script finds it: in one scan for a given code, in a second scan for
    * the highest. */
  method FindTarget(releases: seq<Release>, code: Option<int>, auto: bool) returns (r: Option<nat>)
    requires code.Some? ==> ValidCode(code.value) && !auto
    ensures r.Some? ==> CodesValid(releases) && Chosen(releases, code, r.value)
    ensures r.None? ==> !CodesValid(releases) || forall at: nat :: !Chosen(releases, code, at)
  {
    hide CodesValid;
    var survey := Scan(releases, code);
    if survey.None? {
      assert forall at: nat :: Chosen(releases, code, at) && code.Some? ==> !Ambiguous(releases, code.value);
      return None;
    }
    var max := survey.value.max;
    NoneChosenAtZero(releases, code, max);
    var wanted := if code.Some? then code.value else max;
    if code.None? {
      if max == 0 {
        return None;
      }
      survey := Scan(releases, Some(max));
      if survey.None? {
        ChosenHoldsMax(releases, code, max);
        return None;
      }
    }
    ChosenHoldsMax(releases, code, max);
    var matching := survey.value.matching;
    if |matching| != 1 {
      if |matching| > 1 {
        assert matching[0] < matching[1];
      }
      return None;
    }
    if !auto && max > wanted {
      return None;
    }
    r := Some(matching[0]);
    assert releases[matching[0]].codes == [wanted];
    assert releases[matching[0]].codes[0] <= max;
  }

  lemma NoneChosenAtZero(releases: seq<Release>, code: Option<int>, max: int)
    requires CodesValid(releases) && IsMax(releases, max)
    ensures max == 0 ==> forall at: nat :: !Chosen(releases, code, at)
  {
  }

  lemma ChosenHoldsMax(releases: seq<Release>, code: Option<int>, max: int)
    requires IsMax(releases, max)
    ensures forall at: nat :: Chosen(releases, code, at) && max > 0 ==>
        releases[at].codes == [max] && !Ambiguous(releases, max)
  {
    forall at: nat | Chosen(releases, code, at) && max > 0
      ensures releases[at].codes == [max] && !Ambiguous(releases, max)
    {
      assert releases[at].codes[0] in releases[at].codes;
      assert releases[at].codes[0] <= max;
    }
  }

  /** How a run of a release script ends; [ownEdit] when it failed with an edit of its own. */
  datatype Outcome = Done(decision: Decision) | Failed(ownEdit: bool) | CommitUnknown

  lemma DecideChosen(releases: seq<Release>, code: Option<int>, action: Action, percentage: Option<real>, at: nat)
    requires Asked(code, action, percentage) && CodesValid(releases) && Chosen(releases, code, at)
    ensures Decide(releases, code, action, percentage) == Acted(releases[at], releases[at].codes[0], action, percentage)
  {
    forall b: nat | Chosen(releases, code, b) ensures b == at { ChosenIsUnique(releases, code, at, b); }
  }

  lemma AskedArguments(code: Option<int>, action: Action, percentage: Option<real>)
    requires Asked(code, action, percentage)
    ensures code.Some? ==> ValidCode(code.value) && action != Auto
    ensures code.None? ==> action == Auto || action == Status
    ensures percentage.Some? <==> action == Increase
    ensures action == Increase ==> percentage.Some? && 0.0 < percentage.value < 100.0
  {
  }

  lemma EmptyIsValid()
    ensures CodesValid([])
  {
  }

  /** How a run that decided [d] ends, and its requests with it: the edit's opening, the track's reading, and then
    * the edit's deletion after a report, or the change and its commit. */
  function Ended(d: Decision, faults: seq<Fault>): Outcome
  {
    if FaultAt(faults, 0) != Answered then Failed(false)
    else if d == Refuse || !AllAnswered(faults, 3) then Failed(true)
    else if d.Report? then Done(d)
    else match AnswerTo(FaultAt(faults, 3))
      case Confirmed => Done(d)
      case Rejected => Failed(true)
      case Unknown => CommitUnknown
  }

  /** The commit is the fourth request; it is reached, and applied. */
  predicate Commits(d: Decision, faults: seq<Fault>)
  {
    d.Change? && AllAnswered(faults, 3) && Applies(FaultAt(faults, 3))
  }

  /** The work inside the edit. */
  method ControlEdit(play: Play, code: Option<int>, action: Action, percentage: Option<real>, ghost faults: seq<Fault>)
    returns (r: Outcome)
    requires Asked(code, action, percentage) && play.edit == Some(play.committed)
    requires AllAnswered(faults, 1) && play.faults == After(faults, 1)
    modifies play
    ensures var d := Decide(old(Production(play.committed)), code, action, percentage);
            && r == Ended(d, faults)
            && play.committed == (if Commits(d, faults) then PutTrack(old(play.committed), "production", d.release)
                                   else old(play.committed))
            && play.commitsAsked == old(play.commitsAsked) + (if d.Change? && AllAnswered(faults, 3) then 1 else 0)
            && play.deletesAsked == old(play.deletesAsked) + (if d.Report? && AllAnswered(faults, 2) then 1 else 0)
  {
    hide Acted, Asked, CodesValid, AllAnswered, After;
    Requests(faults);
    var releases := play.GetTrack("production");
    if releases.None? {
      return Failed(true);
    }
    var decision: Decision;
    if code.None? && releases.value == [] && action == Status {
      decision := Report(None, NoStatus, None);
      EmptyIsValid();
    } else {
      AskedArguments(code, action, percentage);
      var target := FindTarget(releases.value, code, action == Auto);
      if target.None? {
        return Failed(true);
      }
      DecideChosen(releases.value, code, action, percentage, target.value);
      var release := releases.value[target.value];
      decision := Acted(release, release.codes[0], action, percentage);
    }
    match decision
    case Refuse =>
      return Failed(true);
    case Report(_, _, _) =>
      var ok := play.DeleteEdit();
      return if ok then Done(decision) else Failed(true);
    case Change(_, release) =>
      r := CommitChange(play, decision);
  }

  /** The change's update and its commit. */
  method CommitChange(play: Play, d: Decision) returns (r: Outcome)
    requires d.Change? && play.edit == Some(play.committed)
    modifies play
    ensures var update, commit := Coming(old(play.faults)), Coming(After(old(play.faults), 1));
            && r == (if update != Answered then Failed(true)
                     else match AnswerTo(commit)
                       case Confirmed => Done(d)
                       case Rejected => Failed(true)
                       case Unknown => CommitUnknown)
            && play.committed == (if update == Answered && Applies(commit)
                                  then PutTrack(old(play.committed), "production", d.release)
                                  else old(play.committed))
            && play.commitsAsked == old(play.commitsAsked) + (if update == Answered then 1 else 0)
            && play.deletesAsked == old(play.deletesAsked)
  {
    hide After;
    var ok := play.UpdateTrack("production", d.release);
    if !ok {
      return Failed(true);
    }
    var answer := play.Commit();
    match answer
    case Confirmed => return Done(d);
    case Rejected => return Failed(true);
    case Unknown => return CommitUnknown;
  }

  /** The faults of the requests after the opening, one by one. */
  lemma Requests(faults: seq<Fault>)
    requires AllAnswered(faults, 1)
    ensures FaultAt(faults, 0) == Answered && Coming(After(faults, 1)) == FaultAt(faults, 1)
    ensures Coming(After(After(faults, 1), 1)) == FaultAt(faults, 2)
    ensures Coming(After(After(After(faults, 1), 1), 1)) == FaultAt(faults, 3)
    ensures AllAnswered(faults, 2) <==> FaultAt(faults, 1) == Answered
    ensures AllAnswered(faults, 3) <==> FaultAt(faults, 1) == Answered && FaultAt(faults, 2) == Answered
  {
    AfterMore(faults, 1, 0);
    AfterMore(faults, 1, 1);
    AfterMore(After(faults, 1), 1, 0);
    AfterMore(faults, 2, 1);
    assert FaultAt(faults, 0) == Answered;
  }

  lemma ChangeIsChange(s: Store, code: Option<int>, action: Action, percentage: Option<real>)
    requires Decide(Production(s), code, action, percentage).Change?
    ensures PutTrack(s, "production", Decide(Production(s), code, action, percentage).release) != s
  {
    var releases, d := Production(s), Decide(Production(s), code, action, percentage);
    assert exists b: nat :: Chosen(releases, code, b);
    var at: nat :| Chosen(releases, code, at);
    DecideChosen(releases, code, action, percentage, at);
    assert d.release.codes == releases[at].codes && d.release != releases[at];
    assert releases[at].codes[0] in d.release.codes;
    assert forall i :: 0 <= i < |releases| && releases[i] == d.release ==> i == at;
    assert d.release in Put(releases, d.release) && d.release !in releases;
    assert "production" in PutTrack(s, "production", d.release).tracks;
  }

  /** One run of `control_rollout`, from any arguments and whatever its requests meet. It commits the decided change
    * and nothing else, in its fourth request; it ends and leaves the store exactly as that request's fate says. So
    * it fails with a changed store exactly when it decides on a change, its first three requests are answered, and
    * Play applies the commit it answers with an error status. A failure asks for its own edit's deletion. */
  method ControlRollout(play: Play, code: Option<int>, action: Action, percentage: Option<real>) returns (r: Outcome)
    modifies play
    ensures var d, f := Decide(old(Production(play.committed)), code, action, percentage), old(play.faults);
            && r == (if Asked(code, action, percentage) then Ended(d, f) else Failed(false))
            && play.committed == (if Commits(d, f) then PutTrack(old(play.committed), "production", d.release)
                                   else old(play.committed))
            && (r.Failed? && play.committed != old(play.committed) <==>
                d.Change? && AllAnswered(f, 3) && FaultAt(f, 3) == Refused(true))
            && (r.Done? <==> (d.Change? && AllAnswered(f, 4)) || (d.Report? && AllAnswered(f, 3)))
            && (r.Done? ==>
                  && r.decision == d
                  && (d.Change? ==> play.committed == PutTrack(old(play.committed), "production", d.release)))
            && (r.CommitUnknown? <==>
                  d.Change? && AllAnswered(f, 3) && !FaultAt(f, 3).Answered? && !FaultAt(f, 3).Refused?)
            && play.commitsAsked == old(play.commitsAsked) + (if d.Change? && AllAnswered(f, 3) then 1 else 0)
            && (r == Failed(true) || r == CommitUnknown ==> play.deletesAsked > old(play.deletesAsked))
            && (r == Failed(false) ==> play.deletesAsked == old(play.deletesAsked))
  {
    hide Asked, Acted, Decide, AllAnswered, After;
    ghost var s, f := play.committed, play.faults;
    ghost var d := Decide(Production(s), code, action, percentage);
    OpeningFirst(f);
    if d.Change? {
      ChangeIsChange(s, code, action, percentage);
    }
    if !Asked(code, action, percentage) {
      RefusesUnasked(Production(s), code, action, percentage);
      assert d == Refuse;
      return Failed(false);
    }
    var isOpen := play.Open();
    if !isOpen {
      return Failed(false);
    }
    r := ControlEdit(play, code, action, percentage, f);
    if !r.Done? {
      var _ := play.DeleteEdit();
    }
  }

  lemma OpeningFirst(faults: seq<Fault>)
    ensures AllAnswered(faults, 1) <==> Coming(faults) == Answered
    ensures AllAnswered(faults, 3) ==> Coming(faults) == Answered
    ensures AllAnswered(faults, 4) <==> AllAnswered(faults, 3) && FaultAt(faults, 3) == Answered
  {
  }

  lemma RefusesUnasked(releases: seq<Release>, code: Option<int>, action: Action, percentage: Option<real>)
    requires !Asked(code, action, percentage)
    ensures Decide(releases, code, action, percentage) == Refuse
  {
  }

  // ----------------------------------------------- read_max_version_code

  /** No code in use is above [max], and [max] is in use unless there is none. */
  ghost predicate IsMaxInUse(s: Store, max: int)
  {
    (forall code :: Used(s, code) ==> code <= max) && (max == 0 || Used(s, max))
  }

  ghost predicate IsMaxOf(tracks: seq<seq<Release>>, max: int)
  {
    && (forall t, i, k :: 0 <= t < |tracks| && 0 <= i < |tracks[t]| && 0 <= k < |tracks[t][i].codes| ==>
        tracks[t][i].codes[k] <= max)
    && (max == 0 || exists t, i :: 0 <= t < |tracks| && 0 <= i < |tracks[t]| && max in tracks[t][i].codes)
  }

  method MaxOf(tracks: seq<seq<Release>>) returns (r: Option<int>)
    ensures r.Some? ==> IsMaxOf(tracks, r.value)
    ensures r.None? ==> exists t :: 0 <= t < |tracks| && !CodesValid(tracks[t])
  {
    var maximum := 0;
    for t := 0 to |tracks|
      invariant maximum >= 0 && IsMaxOf(tracks[..t], maximum)
    {
      var releases := tracks[t];
      ghost var before := maximum;
      for i := 0 to |releases|
        invariant maximum >= before
        invariant maximum == before || exists j :: 0 <= j < i && maximum in releases[j].codes
        invariant forall j, k :: 0 <= j < i && 0 <= k < |releases[j].codes| ==> releases[j].codes[k] <= maximum
      {
        var high := ScanCodes(releases[i].codes, maximum);
        if high.None? {
          assert !CodesValid(releases);
          return None;
        }
        maximum := high.value;
      }
      OneMoreTrack(tracks, t, before, maximum);
    }
    assert tracks[..|tracks|] == tracks;
    r := Some(maximum);
  }

  lemma OneMoreTrack(tracks: seq<seq<Release>>, t: nat, before: int, max: int)
    requires t < |tracks| && IsMaxOf(tracks[..t], before) && max >= before
    requires max == before || exists j :: 0 <= j < |tracks[t]| && max in tracks[t][j].codes
    requires forall j, k :: 0 <= j < |tracks[t]| && 0 <= k < |tracks[t][j].codes| ==> tracks[t][j].codes[k] <= max
    ensures IsMaxOf(tracks[..t + 1], max)
  {
    var some, more := tracks[..t], tracks[..t + 1];
    assert more[t] == tracks[t] && forall u :: 0 <= u < t ==> more[u] == some[u];
    if max != 0 {
      if max == before {
        var u, i :| 0 <= u < t && 0 <= i < |some[u]| && max in some[u][i].codes;
        assert max in more[u][i].codes;
      } else {
        var j :| 0 <= j < |tracks[t]| && max in tracks[t][j].codes;
        assert max in more[t][j].codes;
      }
    }
  }

  lemma MaxOfTracksIsMaxInUse(s: Store, tracks: seq<seq<Release>>, max: int)
    requires IsMaxOf(tracks, max) && forall releases :: releases in tracks <==> releases in s.tracks.Values
    ensures IsMaxInUse(s, max)
  {
    forall code | Used(s, code) ensures code <= max {
      var track, i :| track in s.tracks && 0 <= i < |s.tracks[track]| && code in s.tracks[track][i].codes;
      assert s.tracks[track] in tracks;
      var t :| 0 <= t < |tracks| && tracks[t] == s.tracks[track];
      assert code in tracks[t][i].codes;
    }
    if max != 0 {
      var t, i :| 0 <= t < |tracks| && 0 <= i < |tracks[t]| && max in tracks[t][i].codes;
      assert tracks[t] in s.tracks.Values;
      var track :| track in s.tracks && s.tracks[track] == tracks[t];
      assert max in s.tracks[track][i].codes;
    }
  }

  /** The highest code in use, read in an edit that is deleted again; nothing is ever committed. */
  method ReadMaxVersionCode(play: Play) returns (r: Option<int>)
    modifies play
    ensures r.Some? ==> IsMaxInUse(play.committed, r.value) && play.edit == None
    ensures play.committed == old(play.committed) && play.commitsAsked == old(play.commitsAsked)
    ensures Coming(old(play.faults)) == Answered ==> play.deletesAsked == old(play.deletesAsked) + 1
  {
    hide IsMaxOf, IsMaxInUse, CodesValid;
    var isOpen := play.Open();
    if !isOpen {
      return None;
    }
    var tracks := play.ListTracks();
    var maximum: Option<int> := None;
    if tracks.Some? {
      maximum := MaxOf(tracks.value);
    }
    var ok := play.DeleteEdit();
    if maximum.None? || !ok {
      return None;
    }
    MaxOfTracksIsMaxInUse(play.committed, tracks.value, maximum.value);
    r := maximum;
  }
}
