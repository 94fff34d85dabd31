/** Google Play as the release scripts see it: a committed store, at most one open edit, and requests that
  * may be refused, answered unreadably, or lost. The committed store changes only at a commit. */
module PlayServer {
  import opened Wrappers

  const MAX_VERSION_CODE := 2_100_000_000

  datatype Status = Draft | InProgress | Halted | Completed | Other | NoStatus

  datatype Release = Release(name: string, codes: seq<int>, status: Status, fraction: Option<real>)

  type Group = (string, string)

  /** Track releases, listing images by language and image type, and listing texts by language. */
  datatype Store = Store(
    tracks: map<string, seq<Release>>,
    images: map<Group, seq<string>>,
    listings: map<string, string>)

  const EMPTY := Store(map[], map[], map[])

  function TrackOf(s: Store, track: string): seq<Release>
  {
    if track in s.tracks then s.tracks[track] else []
  }

  function Production(s: Store): seq<Release>
  {
    TrackOf(s, "production")
  }

  /** A track update names one release: the one with its codes is replaced, or it is added; the others stay. */
  function Put(releases: seq<Release>, release: Release): (r: seq<Release>)
    ensures release in r
  {
    if releases == [] then [release]
    else if releases[0].codes == release.codes then [release] + releases[1..]
    else [releases[0]] + Put(releases[1..], release)
  }

  function PutTrack(s: Store, track: string, release: Release): Store
  {
    s.(tracks := s.tracks[track := Put(TrackOf(s, track), release)])
  }

  ghost predicate Used(s: Store, code: int)
  {
    exists track, i :: track in s.tracks && 0 <= i < |s.tracks[track]| && code in s.tracks[track][i].codes
  }

  /** Putting a release whose codes no other release has keeps the rest, in order. */
  lemma {:induction false} PutKeepsOthers(releases: seq<Release>, release: Release, at: nat)
    requires at < |releases| && releases[at].codes == release.codes
    requires forall i :: 0 <= i < at ==> releases[i].codes != release.codes
    ensures Put(releases, release) == releases[at := release]
  {
    if at > 0 {
      PutKeepsOthers(releases[1..], release, at - 1);
      assert [releases[0]] + releases[1..][at - 1 := release] == releases[at := release];
    }
  }

  lemma {:induction false} PutAdds(releases: seq<Release>, release: Release)
    requires forall i :: 0 <= i < |releases| ==> releases[i].codes != release.codes
    ensures Put(releases, release) == releases + [release]
  {
    if releases != [] {
      PutAdds(releases[1..], release);
      assert [releases[0]] + (releases[1..] + [release]) == releases + [release];
    }
  }

  /** How a request fares: answered; refused with an error status; answered with a body the client cannot
    * use; or lost. A refused or lost request may or may not have been applied. */
  datatype Fault = Answered | Refused(applied: bool) | Unreadable | Lost(applied: bool)

  predicate Applies(fault: Fault)
  {
    match fault
    case Answered => true
    case Unreadable => true
    case Refused(applied) => applied
    case Lost(applied) => applied
  }

  /** What the request [k] from now meets; those past the list's end are answered. */
  function FaultAt(faults: seq<Fault>, k: nat): Fault
  {
    if k < |faults| then faults[k] else Answered
  }

  function Coming(faults: seq<Fault>): Fault
  {
    FaultAt(faults, 0)
  }

  function After(faults: seq<Fault>, n: nat): seq<Fault>
  {
    if n < |faults| then faults[n..] else []
  }

  predicate AllAnswered(faults: seq<Fault>, n: nat)
  {
    forall k: nat :: k < n ==> FaultAt(faults, k) == Answered
  }

  lemma AfterMore(faults: seq<Fault>, a: nat, b: nat)
    ensures After(After(faults, a), b) == After(faults, a + b)
    ensures FaultAt(After(faults, a), b) == FaultAt(faults, a + b)
    ensures AllAnswered(faults, a + b) <==> AllAnswered(faults, a) && AllAnswered(After(faults, a), b)
  {
    forall k: nat ensures FaultAt(After(faults, a), k) == FaultAt(faults, a + k) {}
    if AllAnswered(faults, a) && AllAnswered(After(faults, a), b) {
      forall k: nat | k < a + b ensures FaultAt(faults, k) == Answered {
        if k >= a {
          assert FaultAt(After(faults, a), k - a) == FaultAt(faults, a + (k - a));
        }
      }
    }
  }

  datatype CommitAnswer = Confirmed | Rejected | Unknown

  function AnswerTo(fault: Fault): CommitAnswer
  {
    match fault
    case Answered => Confirmed
    case Refused(_) => Rejected
    case _ => Unknown
  }

  class Play {
    var committed: Store
    var edit: Option<Store>
    /** What the coming requests meet; those past its end are answered. */
    var faults: seq<Fault>
    var commitsAsked: nat
    var deletesAsked: nat

    constructor (faults: seq<Fault>)
      ensures committed == EMPTY && edit == None && this.faults == faults
      ensures commitsAsked == deletesAsked == 0
    {
      committed, edit, this.faults := EMPTY, None, faults;
      commitsAsked, deletesAsked := 0, 0;
    }

    method Fate() returns (fault: Fault)
      modifies this`faults
      ensures fault == Coming(old(faults)) && faults == After(old(faults), 1)
    {
      if faults == [] {
        return Answered;
      }
      fault := faults[0];
      faults := faults[1..];
    }

    method Open() returns (ok: bool)
      modifies this`faults, this`edit
      ensures faults == After(old(faults), 1)
      ensures ok <==> Coming(old(faults)) == Answered
      ensures edit == if Applies(Coming(old(faults))) then Some(committed) else old(edit)
    {
      var fault := Fate();
      if Applies(fault) {
        edit := Some(committed);
      }
      ok := fault == Answered;
    }

    method GetTrack(track: string) returns (r: Option<seq<Release>>)
      requires edit.Some?
      modifies this`faults
      ensures faults == After(old(faults), 1) && (r.Some? <==> Coming(old(faults)) == Answered)
      ensures r.Some? ==> r.value == TrackOf(edit.value, track)
    {
      var fault := Fate();
      r := if fault == Answered then Some(TrackOf(edit.value, track)) else None;
    }

    /** Every track's releases, in any order of the tracks. */
    method ListTracks() returns (r: Option<seq<seq<Release>>>)
      requires edit.Some?
      modifies this`faults
      ensures r.Some? ==> forall releases :: releases in r.value <==> releases in edit.value.tracks.Values
    {
      var fault := Fate();
      if fault != Answered {
        return None;
      }
      var listed: seq<seq<Release>> := [];
      var rest := edit.value.tracks.Keys;
      while rest != {}
        invariant rest <= edit.value.tracks.Keys
        invariant forall releases :: releases in listed <==>
                    exists track :: track in edit.value.tracks && track !in rest && edit.value.tracks[track] == releases
        decreases |rest|
      {
        var track :| track in rest;
        listed := listed + [edit.value.tracks[track]];
        rest := rest - {track};
      }
      r := Some(listed);
    }

    /** The bundle's own version code, unless a release holds it already: codes are never reused. */
    method Upload(bundle: int) returns (r: Option<int>)
      requires edit.Some?
      modifies this`faults
      ensures faults == After(old(faults), 1)
      ensures r == if Coming(old(faults)) == Answered && !Used(edit.value, bundle) then Some(bundle) else None
    {
      var fault := Fate();
      var used := CodeInUse(edit.value, bundle);
      r := if fault == Answered && !used then Some(bundle) else None;
    }

    method DeleteImages(group: Group) returns (ok: bool)
      requires edit.Some?
      modifies this`faults, this`edit
      ensures edit.Some? && faults == After(old(faults), 1) && (ok <==> Coming(old(faults)) == Answered)
      ensures ok ==> edit.value == old(edit.value).(images := old(edit.value).images[group := []])
    {
      var fault := Fate();
      if Applies(fault) {
        edit := Some(edit.value.(images := edit.value.images[group := []]));
      }
      ok := fault == Answered;
    }

    method UploadImage(group: Group, path: string) returns (ok: bool)
      requires edit.Some? && group in edit.value.images
      modifies this`faults, this`edit
      ensures edit.Some? && faults == After(old(faults), 1) && (ok <==> Coming(old(faults)) == Answered)
      ensures ok ==>
          var images := old(edit.value).images;
          edit.value == old(edit.value).(images := images[group := images[group] + [path]])
    {
      var fault := Fate();
      if Applies(fault) {
        edit := Some(edit.value.(images := edit.value.images[group := edit.value.images[group] + [path]]));
      }
      ok := fault == Answered;
    }

    method PutListing(language: string, text: string) returns (ok: bool)
      requires edit.Some?
      modifies this`faults, this`edit
      ensures edit.Some? && faults == After(old(faults), 1) && (ok <==> Coming(old(faults)) == Answered)
      ensures ok ==> edit.value == old(edit.value).(listings := old(edit.value).listings[language := text])
    {
      var fault := Fate();
      if Applies(fault) {
        edit := Some(edit.value.(listings := edit.value.listings[language := text]));
      }
      ok := fault == Answered;
    }

    method UpdateTrack(track: string, release: Release) returns (ok: bool)
      requires edit.Some?
      modifies this`faults, this`edit
      ensures edit.Some? && faults == After(old(faults), 1) && (ok <==> Coming(old(faults)) == Answered)
      ensures ok ==> edit.value == PutTrack(old(edit.value), track, release)
    {
      var fault := Fate();
      if Applies(fault) {
        edit := Some(PutTrack(edit.value, track, release));
      }
      ok := fault == Answered;
    }

    /** The commit and `_commit_edit`: an unreadable or lost answer leaves the outcome unknown. */
    method Commit() returns (answer: CommitAnswer)
      requires edit.Some?
      modifies this`faults, this`committed, this`commitsAsked
      ensures commitsAsked == old(commitsAsked) + 1
      ensures answer == AnswerTo(Coming(old(faults)))
      ensures committed == if Applies(Coming(old(faults))) then edit.value else old(committed)
      ensures answer == Confirmed ==> Coming(old(faults)) == Answered && committed == edit.value
      ensures answer == Rejected <==> Coming(old(faults)).Refused?
    {
      var fault := Fate();
      commitsAsked := commitsAsked + 1;
      if Applies(fault) {
        committed := edit.value;
      }
      answer := match fault
        case Answered => Confirmed
        case Refused(_) => Rejected
        case _ => Unknown;
    }

    /** The cleanup's DELETE: whatever its answer, the committed store stays. */
    method DeleteEdit() returns (ok: bool)
      modifies this`faults, this`edit, this`deletesAsked
      ensures deletesAsked == old(deletesAsked) + 1
      ensures faults == After(old(faults), 1) && (ok <==> Coming(old(faults)) == Answered)
      ensures ok ==> edit == None
    {
      var fault := Fate();
      deletesAsked := deletesAsked + 1;
      if Applies(fault) {
        edit := None;
      }
      ok := fault == Answered;
    }
  }

  method CodeInUse(s: Store, code: int) returns (used: bool)
    ensures used <==> Used(s, code)
  {
    used := exists track, i :: track in s.tracks && 0 <= i < |s.tracks[track]| && code in s.tracks[track][i].codes;
  }
}
