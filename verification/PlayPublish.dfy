/** The publication plan of one bundle, and its publication in one edit. */
module PlayPublish {
  import opened PlayServer
  import opened PlayRollout
  import opened Wrappers

  datatype TrackPlan = TrackPlan(track: string, name: string, status: Status, fraction: Option<real>)

  datatype Asset = Asset(language: string, imageType: string, path: string)

  datatype Listing = Listing(language: string, text: string)

  /** [bundle] is the version code inside the artifact, which only Play reads. */
  datatype Plan = Plan(expected: int, bundle: int, tracks: seq<TrackPlan>, assets: seq<Asset>, listings: seq<Listing>)

  const STABLE_TRACKS := ["production", "beta", "internal"]
  const IMAGE_TYPES := {"featureGraphic", "icon", "phoneScreenshots", "sevenInchScreenshots", "tenInchScreenshots",
                        "tvBanner", "tvScreenshots", "wearScreenshots"}

  datatype Mode = Staged | Immediate | UnknownMode

  /** The production rollout of a plan: staged at a fraction, or immediate. */
  function ResolveRollout(mode: Mode, percentage: real): Option<Option<real>>
  {
    match mode
    case UnknownMode => None
    case Immediate => Some(None)
    case Staged => if 0.0 < percentage < 100.0 then Some(Some(percentage / 100.0)) else None
  }

  /** The tracks once each, in the order they first appear. */
  function Unique(tracks: seq<string>): seq<string>
  {
    if tracks == [] then []
    else
      var rest := Unique(tracks[..|tracks| - 1]);
      if tracks[|tracks| - 1] in rest then rest else rest + [tracks[|tracks| - 1]]
  }

  predicate Nameable(names: seq<string>, nameable: string -> bool)
  {
    forall i :: 0 <= i < |names| && names[i] != "" ==> nameable(names[i])
  }

  /** Something is asked for, and none and production come alone. */
  predicate Coherent(tracks: seq<string>)
  {
    tracks != [] && ("none" in tracks ==> tracks == ["none"]) && ("production" in tracks ==> tracks == ["production"])
  }

  /** `resolve_tracks` of the comma-separated names, trimmed; [""] when the setting is empty. None where it raises.
    * Production comes alone, or, for a stable tag, as exactly the tracks a stable plan asks for. */
  method ResolveTracks(names: seq<string>, nameable: string -> bool, internalTest: bool, stableTag: bool)
    returns (r: Option<seq<string>>)
    ensures var asked := if names == [""] then ["production"] else names;
            var tracks := Unique(Named(asked));
            && (r.Some? <==> internalTest || (Nameable(asked, nameable) && Coherent(tracks)))
            && (r.Some? ==>
                  r.value == if internalTest then ["internal"]
                             else if tracks == ["none"] then []
                             else if tracks == ["production"] && stableTag then STABLE_TRACKS
                             else tracks)
    ensures r.Some? ==> "none" !in r.value && Unique(r.value) == r.value
  {
    hide Unique;
    if internalTest {
      UniqueOne("internal");
      return Some(["internal"]);
    }
    var requested := if names == [""] then ["production"] else names;
    var tracks: seq<string> := [];
    UniqueNothing();
    for i := 0 to |requested|
      invariant tracks == Unique(Named(requested[..i]))
      invariant forall k :: 0 <= k < i && requested[k] != "" ==> nameable(requested[k])
    {
      assert requested[..i + 1][..i] == requested[..i];
      ghost var before := Named(requested[..i]);
      if requested[i] == "" {
        assert Named(requested[..i + 1]) == before;
      } else {
        if !nameable(requested[i]) {
          return None;
        }
        assert Named(requested[..i + 1]) == before + [requested[i]];
        UniqueStep(before, requested[i]);
        if requested[i] !in tracks {
          tracks := tracks + [requested[i]];
        }
      }
    }
    assert requested[..|requested|] == requested;
    UniqueIsDistinct(Named(requested));
    NamedMembers(requested);
    UniqueOfDistinct(tracks);
    if tracks == [] {
      return None;
    }
    if "none" in tracks {
      UniqueNothing();
      return if tracks == ["none"] then Some([]) else None;
    }
    if "production" in tracks && tracks != ["production"] {
      return None;
    }
    if stableTag && tracks == ["production"] {
      UniqueOfDistinct(STABLE_TRACKS);
      return Some(STABLE_TRACKS);
    }
    r := Some(tracks);
  }

  function Named(names: seq<string>): seq<string>
  {
    if names == [] then []
    else Named(names[..|names| - 1]) + if names[|names| - 1] == "" then [] else [names[|names| - 1]]
  }

  lemma {:induction false} NamedMembers(names: seq<string>)
    ensures forall t :: t in Named(names) <==> t in names && t != ""
  {
    if names != [] {
      NamedMembers(names[..|names| - 1]);
      assert names == names[..|names| - 1] + [names[|names| - 1]];
    }
  }

  lemma UniqueNothing()
    ensures Unique([]) == [] && Named([]) == []
  {
  }

  lemma UniqueOne(track: string)
    ensures Unique([track]) == [track]
  {
    assert [track][..0] == [];
  }

  lemma UniqueStep(tracks: seq<string>, track: string)
    ensures Unique(tracks + [track]) == if track in Unique(tracks) then Unique(tracks) else Unique(tracks) + [track]
  {
    assert (tracks + [track])[..|tracks|] == tracks;
  }

  lemma {:induction false} UniqueOfDistinct(tracks: seq<string>)
    requires forall i, j :: 0 <= i < j < |tracks| ==> tracks[i] != tracks[j]
    ensures Unique(tracks) == tracks
  {
    if tracks != [] {
      UniqueOfDistinct(tracks[..|tracks| - 1]);
      assert tracks == tracks[..|tracks| - 1] + [tracks[|tracks| - 1]];
    }
  }

  /** What every built plan's tracks look like: production only in a stable plan, staged at its fraction or
    * complete; every other track complete; no track twice. */
  predicate Built(tracks: seq<TrackPlan>)
  {
    && tracks != []
    && (forall i, j :: 0 <= i < j < |tracks| ==> tracks[i].track != tracks[j].track)
    && (forall i :: 0 <= i < |tracks| ==>
          || (tracks[i].status == Completed && tracks[i].fraction == None)
          || (tracks[i].track == "production" && tracks[i].status == InProgress && ValidFraction(tracks[i].fraction)))
  }

  lemma {:induction false} UniqueIsDistinct(tracks: seq<string>)
    ensures forall i, j :: 0 <= i < j < |Unique(tracks)| ==> Unique(tracks)[i] != Unique(tracks)[j]
    ensures forall t :: t in tracks <==> t in Unique(tracks)
  {
    if tracks != [] {
      UniqueIsDistinct(tracks[..|tracks| - 1]);
      assert tracks == tracks[..|tracks| - 1] + [tracks[|tracks| - 1]];
    }
  }

  /** Each track comes where it is first asked for: before the later ones are asked for at all. */
  lemma {:induction false} UniqueInOrder(tracks: seq<string>, i: nat, j: nat) returns (k: nat)
    requires i < j < |Unique(tracks)|
    ensures k < |tracks| && tracks[k] == Unique(tracks)[i] && Unique(tracks)[j] !in tracks[..k + 1]
  {
    var but := tracks[..|tracks| - 1];
    UniqueIsDistinct(but);
    UniqueIsDistinct(tracks);
    if j < |Unique(but)| {
      k := UniqueInOrder(but, i, j);
      assert tracks[..k + 1] == but[..k + 1];
    } else {
      assert Unique(but)[i] in but;
      k :| 0 <= k < |but| && but[k] == Unique(but)[i];
      assert forall x :: x in tracks[..k + 1] ==> x in but;
    }
  }

  /** `build_plan`'s tracks; [nameable] is the track-name pattern. None where it raises. */
  method BuildTracks(version: string, tracks: seq<string>, nameable: string -> bool, stable: bool, mode: Mode,
      percentage: real)
    returns (r: Option<seq<TrackPlan>>)
    ensures r.Some? <==>
              && ResolveRollout(mode, percentage).Some? && tracks != []
              && (forall t :: t in tracks ==> nameable(t) && t != "none")
              && (if stable then Unique(tracks) == STABLE_TRACKS else "production" !in tracks)
    ensures r.Some? ==>
              && Built(r.value) && |r.value| == |Unique(tracks)|
              && (forall i :: 0 <= i < |r.value| ==>
                    && r.value[i].track == Unique(tracks)[i]
                    && (r.value[i].status == InProgress <==> r.value[i].track == "production" && mode == Staged)
                    && (r.value[i].status == InProgress ==> r.value[i].fraction == Some(percentage / 100.0))
                    && r.value[i].name == version + if !stable then " testing"
                                                    else if r.value[i].track == "production" then ""
                                                    else " stable " + r.value[i].track)
  {
    UniqueIsDistinct(tracks);
    var rollout := ResolveRollout(mode, percentage);
    if rollout.None? {
      return None;
    }
    var unique := Unique(tracks);
    if unique == [] {
      assert forall t :: t !in tracks;
      return None;
    }
    for i := 0 to |unique|
      invariant forall j :: 0 <= j < i ==> nameable(unique[j]) && unique[j] != "none"
    {
      if !nameable(unique[i]) || unique[i] == "none" {
        return None;
      }
    }
    assert forall t :: t in tracks ==> nameable(t) && t != "none";
    if stable {
      if unique != STABLE_TRACKS {
        return None;
      }
    } else if "production" in unique {
      return None;
    }
    var plans: seq<TrackPlan> := [];
    for i := 0 to |unique|
      invariant |plans| == i
      invariant forall j :: 0 <= j < i ==>
        && plans[j].track == unique[j]
        && plans[j].name == version + (if !stable then " testing" else if unique[j] == "production" then ""
                                       else " stable " + unique[j])
        && (if unique[j] == "production" && mode == Staged
            then plans[j].status == InProgress && plans[j].fraction == rollout.value
            else plans[j].status == Completed && plans[j].fraction == None)
    {
      var track := unique[i];
      var plan: TrackPlan;
      if stable {
        plan := TrackPlan(track, version + if track == "production" then "" else " stable " + track, Completed, None);
        if track == "production" && mode == Staged {
          plan := plan.(status := InProgress, fraction := rollout.value);
        }
      } else {
        plan := TrackPlan(track, version + " testing", Completed, None);
      }
      plans := plans + [plan];
    }
    r := Some(plans);
  }

  // ------------------------------------------------------- publish_release

  predicate TracksValid(tracks: seq<TrackPlan>)
  {
    && tracks != []
    && (forall i, j :: 0 <= i < j < |tracks| ==> tracks[i].track != tracks[j].track)
    && forall i :: 0 <= i < |tracks| ==>
         && tracks[i].track != "none" && tracks[i].status in {Completed, Draft, Halted, InProgress}
         && (if tracks[i].fraction.Some? then ValidFraction(tracks[i].fraction) else tracks[i].status != InProgress)
  }

  /** `_validated_plan`; the patterns, lengths and files it checks are the caller's. */
  predicate PlanValid(plan: Plan)
  {
    && ValidCode(plan.expected) && TracksValid(plan.tracks)
    && (forall i :: 0 <= i < |plan.assets| ==> plan.assets[i].imageType in IMAGE_TYPES)
    && (forall i, j :: 0 <= i < j < |plan.listings| ==> plan.listings[i].language != plan.listings[j].language)
  }

  lemma BuiltIsValid(tracks: seq<TrackPlan>)
    requires Built(tracks) && forall i :: 0 <= i < |tracks| ==> tracks[i].track != "none"
    ensures TracksValid(tracks)
  {
  }

  predicate IsStaged(tracks: seq<TrackPlan>)
  {
    exists i :: 0 <= i < |tracks| && tracks[i].track == "production" && tracks[i].status == InProgress
  }

  /** A production track that accepts a staged release of [expected]: every code below it, nothing unfinished. */
  predicate Clear(releases: seq<Release>, expected: int)
  {
    CodesValid(releases) &&
    forall i :: 0 <= i < |releases| ==>
      releases[i].status in {Completed, Halted}
          && forall k :: 0 <= k < |releases[i].codes| ==> releases[i].codes[k] < expected
  }

  method ValidateStagedProduction(releases: seq<Release>, expected: int) returns (ok: bool)
    ensures ok <==> Clear(releases, expected)
  {
    for i := 0 to |releases|
      invariant Clear(releases[..i], expected)
    {
      var release := releases[i];
      assert releases[..i + 1][i] == release && releases[..i + 1][..i] == releases[..i];
      if release.status == NoStatus {
        return false;
      }
      for k := 0 to |release.codes|
        invariant forall l :: 0 <= l < k ==> ValidCode(release.codes[l])
      {
        if !ValidCode(release.codes[k]) {
          return false;
        }
      }
      for k := 0 to |release.codes|
        invariant forall l :: 0 <= l < k ==> release.codes[l] < expected
      {
        if release.codes[k] >= expected {
          return false;
        }
      }
      if release.status !in {Completed, Halted} {
        return false;
      }
    }
    assert releases[..|releases|] == releases;
    return true;
  }

  function GroupOf(asset: Asset): Group
  {
    (asset.language, asset.imageType)
  }

  /** The paths of a group's assets, in plan order. */
  function PathsOf(assets: seq<Asset>, group: Group): seq<string>
  {
    if assets == [] then []
    else
      var last := assets[|assets| - 1];
      PathsOf(assets[..|assets| - 1], group) + if GroupOf(last) == group then [last.path] else []
  }

  ghost function GroupsOf(assets: seq<Asset>): set<Group>
  {
    set asset | asset in assets :: GroupOf(asset)
  }

  function ReleaseOf(plan: TrackPlan, code: int): Release
  {
    Release(plan.name, [code], plan.status, plan.fraction)
  }

  /** The store [t] is [s] with the plan in it: each image group of the plan holds exactly the plan's assets
    * in plan order, each listing its text, each track the one release of [code]; everything else is as it was. */
  ghost predicate Published(s: Store, plan: Plan, code: int, t: Store)
  {
    ImagesPut(s, plan.assets, t) && TextsPut(s, plan.listings, t) && ReleasesPut(s, plan.tracks, code, t)
  }

  ghost predicate ImagesPut(s: Store, assets: seq<Asset>, t: Store)
  {
    && t.images.Keys == s.images.Keys + GroupsOf(assets)
    && (forall group :: group in t.images ==>
          t.images[group] == if group in GroupsOf(assets) then PathsOf(assets, group) else s.images[group])
  }

  ghost predicate TextsPut(s: Store, listings: seq<Listing>, t: Store)
  {
    && (forall i :: 0 <= i < |listings| ==>
        listings[i].language in t.listings && t.listings[listings[i].language] == listings[i].text)
    && (forall language :: language in s.listings ==> language in t.listings)
    && (forall language ::
          language in t.listings && (forall i :: 0 <= i < |listings| ==> listings[i].language != language) ==>
          language in s.listings && t.listings[language] == s.listings[language])
  }

  ghost predicate ReleasesPut(s: Store, tracks: seq<TrackPlan>, code: int, t: Store)
  {
    && (forall i :: 0 <= i < |tracks| ==>
          TrackOf(t, tracks[i].track) == Put(TrackOf(s, tracks[i].track), ReleaseOf(tracks[i], code)))
    && (forall track :: (forall i :: 0 <= i < |tracks| ==> tracks[i].track != track) ==>
        TrackOf(t, track) == TrackOf(s, track))
  }

  /** What a commit of the plan took: the bundle has the expected code, no release held it, and a staged
    * production release found the track clear. */
  ghost predicate Admissible(s: Store, plan: Plan)
  {
    && PlanValid(plan) && plan.bundle == plan.expected && !Used(s, plan.expected)
    && (IsStaged(plan.tracks) ==> Clear(Production(s), plan.expected))
  }

  /** How a publication ends; [ownEdit] when it failed with an edit of its own. */
  datatype Publication = Live(code: int, tracks: seq<string>) | Unpublished(ownEdit: bool) | OutcomeUnknown

  /** One asset: its group cleared first if it is to be, and its image put last in it. */
  method PublishAsset(play: Play, asset: Asset, clear: bool) returns (ok: bool)
    requires play.edit.Some? && (!clear ==> GroupOf(asset) in play.edit.value.images)
    modifies play`faults, play`edit
    ensures play.edit.Some?
    ensures ok <==> AllAnswered(old(play.faults), if clear then 2 else 1)
    ensures ok ==>
      var s, group := old(play.edit.value), GroupOf(asset);
      && play.faults == After(old(play.faults), if clear then 2 else 1)
      && play.edit.value == s.(images := s.images[group := (if clear then [] else s.images[group]) + [asset.path]])
  {
    hide AllAnswered, After;
    var group := GroupOf(asset);
    ghost var s, f := play.edit.value, play.faults;
    NoneAsked(f);
    OneMoreAsked(f, 0, if clear then 2 else 1);
    if clear {
      ok := play.DeleteImages(group);
      if !ok {
        return false;
      }
      OneMoreAsked(f, 1, 2);
    }
    ok := play.UploadImage(group, asset.path);
    assert ok ==> play.edit.value.images == s.images[group := (if clear then [] else s.images[group]) + [asset.path]];
  }

  method PublishAssets(play: Play, assets: seq<Asset>) returns (ok: bool)
    requires play.edit.Some?
    modifies play`faults, play`edit
    ensures play.edit.Some?
    ensures ok <==> AllAnswered(old(play.faults), |GroupsOf(assets)| + |assets|)
    ensures ok ==>
      && play.edit.value == old(play.edit.value).(images := play.edit.value.images)
      && ImagesPut(old(play.edit.value), assets, play.edit.value)
      && play.faults == After(old(play.faults), |GroupsOf(assets)| + |assets|)
  {
    hide ImagesPut, GroupsOf, PathsOf, AllAnswered, After;
    var cleared: set<Group> := {};
    ghost var s, f, asked := play.edit.value, play.faults, 0;
    NoImages(s);
    NoneAsked(f);
    for i := 0 to |assets|
      invariant play.edit.Some? && cleared == GroupsOf(assets[..i])
      invariant play.edit.value == s.(images := play.edit.value.images)
      invariant ImagesPut(s, assets[..i], play.edit.value)
      invariant asked == |cleared| + i && play.faults == After(f, asked) && AllAnswered(f, asked)
    {
      var group := GroupOf(assets[i]);
      ghost var t, n := play.edit.value, if group in cleared then 1 else 2;
      ImagePut(s, assets[..i], t, assets[i]);
      assert assets[..i + 1] == assets[..i] + [assets[i]];
      NextAsset(assets, i, f);
      ok := PublishAsset(play, assets[i], group !in cleared);
      if !ok {
        return false;
      }
      cleared := cleared + {group};
      asked := asked + n;
    }
    assert assets[..|assets|] == assets;
    ok := true;
  }

  lemma NoneAsked(faults: seq<Fault>)
    ensures After(faults, 0) == faults && AllAnswered(faults, 0)
  {
  }

  /** The next of [total] requests, the ones before it all answered. */
  lemma OneMoreAsked(faults: seq<Fault>, asked: nat, total: nat)
    requires AllAnswered(faults, asked) && asked < total
    ensures After(After(faults, asked), 1) == After(faults, asked + 1)
    ensures Coming(After(faults, asked)) == FaultAt(faults, asked)
    ensures AllAnswered(faults, asked + 1) <==> FaultAt(faults, asked) == Answered
    ensures FaultAt(faults, asked) != Answered ==> !AllAnswered(faults, total)
  {
    AfterMore(faults, asked, 0);
    AfterMore(faults, asked, 1);
  }

  /** The requests of one more asset, one or two, among those of all. */
  lemma NextAsset(assets: seq<Asset>, i: nat, faults: seq<Fault>)
    requires i < |assets|
    ensures var cleared, group := GroupsOf(assets[..i]), GroupOf(assets[i]);
            var n, asked := if group in cleared then 1 else 2, |cleared| + i;
            && GroupsOf(assets[..i + 1]) == cleared + {group} && |cleared + {group}| + i + 1 == asked + n
            && After(After(faults, asked), n) == After(faults, asked + n)
            && (AllAnswered(faults, asked + n) <==> AllAnswered(faults, asked) && AllAnswered(After(faults, asked), n))
            && (AllAnswered(faults, |GroupsOf(assets)| + |assets|) ==> AllAnswered(faults, asked + n))
  {
    hide GroupsOf, After, AllAnswered;
    var cleared, group := GroupsOf(assets[..i]), GroupOf(assets[i]);
    var n, asked := if group in cleared then 1 else 2, |cleared| + i;
    OneMoreGroup(assets[..i], assets[i]);
    assert assets[..i + 1] == assets[..i] + [assets[i]];
    GroupsWithin(assets, i + 1);
    OneMoreIn(cleared, group);
    AfterMore(faults, asked, n);
    AfterMore(faults, asked + n, |GroupsOf(assets)| + |assets| - (asked + n));
  }

  lemma OneMoreIn<T>(some: set<T>, x: T)
    ensures |some + {x}| == |some| + if x in some then 0 else 1
  {
    if x in some {
      assert some + {x} == some;
    }
  }

  lemma GroupsWithin(assets: seq<Asset>, n: nat)
    requires n <= |assets|
    ensures |GroupsOf(assets[..n])| <= |GroupsOf(assets)|
  {
    var some, all := GroupsOf(assets[..n]), GroupsOf(assets);
    assert some <= all by {
      assert forall asset :: asset in assets[..n] ==> asset in assets;
    }
    assert all == some + (all - some);
  }

  lemma NoImages(s: Store)
    ensures ImagesPut(s, [], s) && GroupsOf([]) == {}
  {
  }

  /** One more asset: its group starts empty at its first asset, and then its path comes last. */
  lemma ImagePut(s: Store, assets: seq<Asset>, t: Store, asset: Asset)
    requires ImagesPut(s, assets, t)
    ensures var group := GroupOf(asset);
            var held := if group in GroupsOf(assets) then t.images[group] else [];
            && (group in GroupsOf(assets) ==> group in t.images)
            && GroupsOf(assets + [asset]) == GroupsOf(assets) + {group}
            && ImagesPut(s, assets + [asset], t.(images := t.images[group := held + [asset.path]]))
  {
    hide PathsOf, GroupsOf;
    var group, all := GroupOf(asset), assets + [asset];
    OneMoreGroup(assets, asset);
    var already := if group in GroupsOf(assets) then t.images[group] else [];
    var u := t.(images := t.images[group := already + [asset.path]]);
    assert u.images.Keys == s.images.Keys + GroupsOf(all);
    forall g | g in u.images
      ensures u.images[g] == if g in GroupsOf(all) then PathsOf(all, g) else s.images[g]
    {
      OneMorePath(assets, asset, g);
      if group !in GroupsOf(assets) {
        NoPaths(assets, group);
      }
    }
  }

  lemma OneMoreGroup(assets: seq<Asset>, asset: Asset)
    ensures GroupsOf(assets + [asset]) == GroupsOf(assets) + {GroupOf(asset)}
  {
    var all := assets + [asset];
    assert asset in all && forall a :: a in all <==> a in assets || a == asset;
  }

  lemma OneMorePath(assets: seq<Asset>, asset: Asset, group: Group)
    ensures PathsOf(assets + [asset], group)
         == PathsOf(assets, group) + if GroupOf(asset) == group then [asset.path] else []
  {
    assert (assets + [asset])[..|assets|] == assets;
  }

  lemma {:induction false} NoPaths(assets: seq<Asset>, group: Group)
    requires group !in GroupsOf(assets)
    ensures PathsOf(assets, group) == []
  {
    if assets != [] {
      NoPaths(assets[..|assets| - 1], group);
    }
  }

  /** A group's paths are its assets' own, one after the other in plan order. */
  lemma {:induction false} PathsInOrder(a: seq<Asset>, b: seq<Asset>, group: Group)
    ensures PathsOf(a + b, group) == PathsOf(a, group) + PathsOf(b, group)
    decreases |b|
  {
    hide GroupOf;
    if b == [] {
      assert a + b == a && PathsOf(b, group) == [];
    } else {
      var but, last := b[..|b| - 1], b[|b| - 1];
      PathsInOrder(a, but, group);
      assert (a + b)[..|a + b| - 1] == a + but && (a + b)[|a + b| - 1] == last;
    }
  }

  lemma PathOfOne(asset: Asset, group: Group)
    ensures PathsOf([asset], group) == if (asset.language, asset.imageType) == group then [asset.path] else []
  {
    OneMorePath([], asset, group);
    assert [] + [asset] == [asset];
  }

  method PublishListings(play: Play, listings: seq<Listing>) returns (ok: bool)
    requires play.edit.Some?
    requires forall i, j :: 0 <= i < j < |listings| ==> listings[i].language != listings[j].language
    modifies play`faults, play`edit
    ensures play.edit.Some?
    ensures ok <==> AllAnswered(old(play.faults), |listings|)
    ensures ok ==>
      && play.edit.value == old(play.edit.value).(listings := play.edit.value.listings)
      && TextsPut(old(play.edit.value), listings, play.edit.value)
      && play.faults == After(old(play.faults), |listings|)
  {
    hide AllAnswered, After, TextsPut;
    ghost var s, f := play.edit.value, play.faults;
    NoneAsked(f);
    NoTexts(s);
    for i := 0 to |listings|
      invariant play.edit.Some?
      invariant play.edit.value == s.(listings := play.edit.value.listings)
      invariant TextsPut(s, listings[..i], play.edit.value)
      invariant play.faults == After(f, i) && AllAnswered(f, i)
    {
      ghost var before := play.edit.value;
      OneMoreAsked(f, i, |listings|);
      ok := play.PutListing(listings[i].language, listings[i].text);
      if !ok {
        return false;
      }
      assert listings[..i + 1] == listings[..i] + [listings[i]];
      TextPut(s, listings[..i], before, listings[i], play.edit.value);
    }
    assert listings[..|listings|] == listings;
    ok := true;
  }

  lemma NoTexts(s: Store)
    ensures TextsPut(s, [], s)
  {
  }

  lemma TextPut(s: Store, listings: seq<Listing>, t: Store, listing: Listing, u: Store)
    requires TextsPut(s, listings, t) && u == t.(listings := t.listings[listing.language := listing.text])
    requires forall i :: 0 <= i < |listings| ==> listings[i].language != listing.language
    ensures TextsPut(s, listings + [listing], u)
  {
    var all := listings + [listing];
    assert all[|listings|] == listing;
    forall language | language in u.listings && (forall i :: 0 <= i < |all| ==> all[i].language != language)
      ensures language in s.listings && u.listings[language] == s.listings[language]
    {
      assert forall i :: 0 <= i < |listings| ==> all[i] == listings[i];
      assert language != listing.language;
    }
  }

  lemma ReleasePut(s: Store, tracks: seq<TrackPlan>, code: int, t: Store, plan: TrackPlan, u: Store)
    requires ReleasesPut(s, tracks, code, t) && u == PutTrack(t, plan.track, ReleaseOf(plan, code))
    requires forall i :: 0 <= i < |tracks| ==> tracks[i].track != plan.track
    ensures ReleasesPut(s, tracks + [plan], code, u)
  {
    var all := tracks + [plan];
    assert all[|tracks|] == plan;
    assert forall track :: track != plan.track ==> TrackOf(u, track) == TrackOf(t, track);
    forall track | forall i :: 0 <= i < |all| ==> all[i].track != track
      ensures TrackOf(u, track) == TrackOf(s, track)
    {
      assert forall i :: 0 <= i < |tracks| ==> all[i] == tracks[i];
    }
  }

  method PublishTracks(play: Play, tracks: seq<TrackPlan>, code: int) returns (published: Option<seq<string>>)
    requires play.edit.Some?
    requires forall i, j :: 0 <= i < j < |tracks| ==> tracks[i].track != tracks[j].track
    modifies play`faults, play`edit
    ensures play.edit.Some?
    ensures published.Some? <==> AllAnswered(old(play.faults), |tracks|)
    ensures published.Some? ==>
      && play.faults == After(old(play.faults), |tracks|)
      && play.edit.value == old(play.edit.value).(tracks := play.edit.value.tracks)
      && ReleasesPut(old(play.edit.value), tracks, code, play.edit.value)
      && published.value == seq(|tracks|, i requires 0 <= i < |tracks| => tracks[i].track)
  {
    hide ReleasesPut, AllAnswered, After;
    ghost var f := play.faults;
    NoneAsked(f);
    var names: seq<string> := [];
    NothingPut(play.edit.value, code);
    for i := 0 to |tracks|
      invariant play.edit.Some?
      invariant play.edit.value == old(play.edit.value).(tracks := play.edit.value.tracks)
      invariant ReleasesPut(old(play.edit.value), tracks[..i], code, play.edit.value)
      invariant |names| == i && forall j :: 0 <= j < i ==> names[j] == tracks[j].track
      invariant play.faults == After(f, i) && AllAnswered(f, i)
    {
      ghost var before := play.edit.value;
      OneMoreAsked(f, i, |tracks|);
      var ok := play.UpdateTrack(tracks[i].track, ReleaseOf(tracks[i], code));
      if !ok {
        return None;
      }
      names := names + [tracks[i].track];
      ReleasePut(old(play.edit.value), tracks[..i], code, before, tracks[i], play.edit.value);
      assert tracks[..i + 1] == tracks[..i] + [tracks[i]];
    }
    assert tracks[..|tracks|] == tracks;
    published := Some(names);
  }

  lemma NothingPut(s: Store, code: int)
    ensures ReleasesPut(s, [], code, s)
  {
  }

  lemma PartsPublish(s: Store, a: Store, b: Store, t: Store, plan: Plan, code: int)
    requires a == s.(images := a.images) && ImagesPut(s, plan.assets, a)
    requires b == a.(listings := b.listings) && TextsPut(a, plan.listings, b)
    requires t == b.(tracks := t.tracks) && ReleasesPut(b, plan.tracks, code, t)
    ensures Published(s, plan, code, t)
  {
    hide PathsOf;
    assert TextsPut(s, plan.listings, t);
    assert ReleasesPut(s, plan.tracks, code, t);
  }

  lemma ValidPlanParts(plan: Plan)
    requires PlanValid(plan)
    ensures forall i, j :: 0 <= i < j < |plan.listings| ==> plan.listings[i].language != plan.listings[j].language
    ensures forall i, j :: 0 <= i < j < |plan.tracks| ==> plan.tracks[i].track != plan.tracks[j].track
  {
  }

  /** Which request of a publication the commit is: after the opening, the staged check's reading, the upload, each
    * group's clearing, and each asset, listing and track. */
  ghost function CommitAt(plan: Plan): nat
  {
    BeforeAssets(plan) + (|GroupsOf(plan.assets)| + |plan.assets|) + |plan.listings| + |plan.tracks|
  }

  function BeforeAssets(plan: Plan): nat
  {
    if IsStaged(plan.tracks) then 3 else 2
  }

  /** Everything before the commit goes well. */
  ghost predicate Ready(s: Store, plan: Plan, faults: seq<Fault>)
  {
    Admissible(s, plan) && AllAnswered(faults, CommitAt(plan))
  }

  /** How a publication ends. */
  ghost function EndOf(s: Store, plan: Plan, faults: seq<Fault>): Publication
  {
    if !PlanValid(plan) || Coming(faults) != Answered then Unpublished(false)
    else if !Ready(s, plan, faults) then Unpublished(true)
    else match AnswerTo(FaultAt(faults, CommitAt(plan)))
      case Confirmed =>
        Live(plan.expected, seq(|plan.tracks|, i requires 0 <= i < |plan.tracks| => plan.tracks[i].track))
      case Rejected => Unpublished(true)
      case Unknown => OutcomeUnknown
  }

  /** The requests before the assets: the staged check and the upload; true when the bundle is in. */
  method PublishBundle(play: Play, plan: Plan, ghost faults: seq<Fault>) returns (ok: bool)
    requires PlanValid(plan) && play.edit == Some(play.committed)
    requires AllAnswered(faults, 1) && play.faults == After(faults, 1)
    modifies play`faults
    ensures ok <==> Admissible(play.committed, plan) && AllAnswered(faults, BeforeAssets(plan))
    ensures ok ==> play.faults == After(faults, BeforeAssets(plan))
  {
    hide Clear, Used, After, AllAnswered, TracksValid;
    OneMoreAsked(faults, 1, BeforeAssets(plan));
    var staged := IsStaged(plan.tracks);
    if staged {
      var releases := play.GetTrack("production");
      if releases.None? {
        return false;
      }
      var clear := ValidateStagedProduction(releases.value, plan.expected);
      if !clear {
        return false;
      }
      OneMoreAsked(faults, 2, 3);
    }
    var code := play.Upload(plan.bundle);
    ok := code.Some? && ValidCode(code.value) && code.value == plan.expected;
  }

  /** The work inside the edit. */
  method PublishEdit(play: Play, plan: Plan, ghost faults: seq<Fault>) returns (r: Publication)
    requires PlanValid(plan) && play.edit == Some(play.committed)
    requires AllAnswered(faults, 1) && play.faults == After(faults, 1)
    modifies play
    ensures play.deletesAsked == old(play.deletesAsked) && r == EndOf(old(play.committed), plan, faults)
    ensures play.commitsAsked == old(play.commitsAsked) + if Ready(old(play.committed), plan, faults) then 1 else 0
    ensures if Ready(old(play.committed), plan, faults) && Applies(FaultAt(faults, CommitAt(plan)))
            then Published(old(play.committed), plan, plan.expected, play.committed)
            else play.committed == old(play.committed)
  {
    hide PlanValid, Admissible, ImagesPut, TextsPut, ReleasesPut, PathsOf, GroupsOf, AllAnswered, After, Published,
        BeforeAssets;
    ghost var s, n := play.committed, BeforeAssets(plan);
    OpeningFirst(faults);
    ValidPlanParts(plan);
    Parts(plan, faults);
    var ok := PublishBundle(play, plan, faults);
    if !ok {
      return Unpublished(true);
    }
    ok := PublishAssets(play, plan.assets);
    if !ok {
      return Unpublished(true);
    }
    ghost var a := play.edit.value;
    ok := PublishListings(play, plan.listings);
    if !ok {
      return Unpublished(true);
    }
    ghost var b := play.edit.value;
    var published := PublishTracks(play, plan.tracks, plan.expected);
    if published.None? {
      return Unpublished(true);
    }
    PartsPublish(s, a, b, play.edit.value, plan, plan.expected);
    var answer := play.Commit();
    match answer
    case Confirmed => return Live(plan.expected, published.value);
    case Rejected => return Unpublished(true);
    case Unknown => return OutcomeUnknown;
  }

  /** The faults of each part of a publication, and of its commit. */
  lemma Parts(plan: Plan, faults: seq<Fault>)
    ensures var n, g := BeforeAssets(plan), |GroupsOf(plan.assets)| + |plan.assets|;
            var one := After(faults, n);
            var two := After(one, g);
            var three := After(two, |plan.listings|);
            && (AllAnswered(faults, CommitAt(plan)) <==>
                  AllAnswered(faults, n) && AllAnswered(one, g) && AllAnswered(two, |plan.listings|)
                      && AllAnswered(three, |plan.tracks|))
            && Coming(After(three, |plan.tracks|)) == FaultAt(faults, CommitAt(plan))
  {
    hide GroupsOf, After, AllAnswered, BeforeAssets;
    var n, g := BeforeAssets(plan), |GroupsOf(plan.assets)| + |plan.assets|;
    var one := After(faults, n);
    var two := After(one, g);
    var three := After(two, |plan.listings|);
    AfterMore(faults, n, g);
    AfterMore(faults, n + g, |plan.listings|);
    AfterMore(faults, n + g + |plan.listings|, |plan.tracks|);
    AfterMore(three, |plan.tracks|, 0);
    AfterMore(faults, n + g + |plan.listings| + |plan.tracks|, 0);
  }

  /** A publication that lands changes the store: its code was in no release before. */
  lemma PublishedIsChange(s: Store, plan: Plan, t: Store)
    requires Admissible(s, plan) && Published(s, plan, plan.expected, t)
    ensures t != s
  {
    hide ImagesPut, TextsPut, Put, PathsOf;
    var first := plan.tracks[0];
    var release := ReleaseOf(first, plan.expected);
    assert release in TrackOf(t, first.track);
    forall i | 0 <= i < |TrackOf(s, first.track)| ensures TrackOf(s, first.track)[i] != release {
      assert plan.expected in release.codes;
    }
  }

  /** What a publication puts on a track: after the releases there, one of the uploaded code alone, with the plan's
    * own name, status and fraction. */
  lemma PublishedOnTrack(s: Store, plan: Plan, t: Store, i: nat)
    requires Admissible(s, plan) && Published(s, plan, plan.expected, t) && i < |plan.tracks|
    ensures var asked := plan.tracks[i];
            TrackOf(t, asked.track) ==
            TrackOf(s, asked.track) + [Release(asked.name, [plan.expected], asked.status, asked.fraction)]
  {
    hide ImagesPut, TextsPut, PlanValid, Clear;
    var asked := plan.tracks[i];
    assert plan.expected in [plan.expected];
    PutAdds(TrackOf(s, asked.track), ReleaseOf(asked, plan.expected));
  }

  /** One publication, of any plan and whatever its requests meet. It ends exactly as [EndOf] says: live, when the
    * plan is valid and admissible and every request is answered; with its outcome unknown, when the commit's answer
    * is unreadable or lost; else unpublished. The committed store has the whole plan exactly when everything before
    * the commit went well and the commit was applied, and is else as it was. So it is unpublished with a changed
    * store exactly when Play applies the commit it answers with an error status. It asks for one commit at most,
    * and for its own edit's deletion whenever it is not live; an opening that is not answered leaves nothing to
    * delete by, though Play may have an edit open. */
  method PublishRelease(play: Play, plan: Plan) returns (r: Publication)
    modifies play
    ensures var s, f := old(play.committed), old(play.faults);
            && r == EndOf(s, plan, f)
            && (if Ready(s, plan, f) && Applies(FaultAt(f, CommitAt(plan)))
                then Published(s, plan, plan.expected, play.committed)
                else play.committed == s)
            && (r.Unpublished? && play.committed != s <==>
                Ready(s, plan, f) && FaultAt(f, CommitAt(plan)) == Refused(true))
            && (play.committed != s ==>
                  && plan.bundle == plan.expected && ValidCode(plan.bundle) && !Used(s, plan.bundle)
                  && (IsStaged(plan.tracks) ==> Clear(Production(s), plan.expected)))
            && (r.Live? <==> Ready(s, plan, f) && FaultAt(f, CommitAt(plan)) == Answered)
            && (r.OutcomeUnknown? <==>
                  Ready(s, plan, f) && !FaultAt(f, CommitAt(plan)).Answered? && !FaultAt(f, CommitAt(plan)).Refused?)
            && (r.Live? ==>
                  && Published(s, plan, plan.expected, play.committed)
                  && r.code == plan.expected && |r.tracks| == |plan.tracks|
                  && forall i :: 0 <= i < |r.tracks| ==> r.tracks[i] == plan.tracks[i].track)
            && play.commitsAsked == old(play.commitsAsked) + (if Ready(s, plan, f) then 1 else 0)
            && play.deletesAsked == old(play.deletesAsked) + (if r.Live? || r == Unpublished(false) then 0 else 1)
            && (PlanValid(plan) && Coming(f) != Answered && Applies(Coming(f)) ==> play.edit == Some(s))
  {
    hide PlanValid, Published, AllAnswered, After, Admissible;
    ghost var s, f := play.committed, play.faults;
    OpeningAnswered(s, plan, f);
    if !PlanValid(plan) {
      return Unpublished(false);
    }
    var isOpen := play.Open();
    if !isOpen {
      return Unpublished(false);
    }
    r := PublishEdit(play, plan, f);
    if Ready(s, plan, f) && Applies(FaultAt(f, CommitAt(plan))) {
      PublishedIsChange(s, plan, play.committed);
    }
    if !r.Live? {
      var _ := play.DeleteEdit();
    }
  }

  /** A release's two scripts after each other: its plan built, and published. Once it is live each of its tracks has
    * one more release, of the uploaded code alone, completed; or, in production of a staged plan, in progress at the
    * percentage asked for. None when no plan is built. */
  method PublishBuilt(play: Play, version: string, tracks: seq<string>, nameable: string -> bool, stable: bool,
      mode: Mode, percentage: real, expected: int, bundle: int, assets: seq<Asset>, listings: seq<Listing>)
    returns (r: Option<Publication>)
    modifies play
    ensures r.None? ==> play.committed == old(play.committed)
    ensures r.Some? && r.value.Live? ==> forall track :: track in tracks ==>
              var name := version + if !stable then " testing" else if track == "production" then ""
                                    else " stable " + track;
              TrackOf(play.committed, track) == TrackOf(old(play.committed), track) +
                [if track == "production" && mode == Staged
                 then Release(name, [expected], InProgress, Some(percentage / 100.0))
                 else Release(name, [expected], Completed, None)]
    ensures r.Some? && !stable ==> "production" !in tracks
  {
    hide Admissible, Published, Unique, PlanValid, AllAnswered;
    UniqueIsDistinct(tracks);
    var built := BuildTracks(version, tracks, nameable, stable, mode, percentage);
    if built.None? {
      return None;
    }
    var plan := Plan(expected, bundle, built.value, assets, listings);
    ghost var s := play.committed;
    var publication := PublishRelease(play, plan);
    if publication.Live? {
      forall i: nat | i < |built.value|
        ensures TrackOf(play.committed, built.value[i].track) ==
                TrackOf(s, built.value[i].track)
                + [Release(built.value[i].name, [expected], built.value[i].status, built.value[i].fraction)]
      {
        PublishedOnTrack(s, plan, play.committed, i);
      }
      assert forall track :: track in tracks ==>
          exists i :: 0 <= i < |built.value| && built.value[i].track == track by {
        forall track | track in tracks ensures exists i :: 0 <= i < |built.value| && built.value[i].track == track {
          var i :| 0 <= i < |Unique(tracks)| && Unique(tracks)[i] == track;
          assert built.value[i].track == track;
        }
      }
    }
    r := Some(publication);
  }

  lemma OpeningAnswered(s: Store, plan: Plan, faults: seq<Fault>)
    ensures AllAnswered(faults, 1) <==> Coming(faults) == Answered
    ensures Ready(s, plan, faults) ==> PlanValid(plan) && Coming(faults) == Answered
    ensures Ready(s, plan, faults) ==>
              && plan.bundle == plan.expected && ValidCode(plan.bundle) && !Used(s, plan.bundle)
              && (IsStaged(plan.tracks) ==> Clear(Production(s), plan.expected))
  {
    hide TracksValid, Clear;
  }

  /** A release of one testing track whose commit, its fourth request, Play answers with an error status and
    * applies: it ends as unpublished, with the release live. */
  method RefusedCommitGoesLive() returns (r: Publication, live: bool)
    ensures r == Unpublished(true) && live
  {
    var play := new Play([Answered, Answered, Answered, Refused(true)]);
    var plan := Plan(1, 1, [TrackPlan("internal", "1.0 testing", Completed, None)], [], []);
    RefusedCommitPlan(plan);
    r := PublishRelease(play, plan);
    live := play.committed != EMPTY;
  }

  /** An opening whose answer is lost though Play opened the edit: it stays open, and its deletion is not asked for. */
  method LostOpeningLeavesEdit() returns (r: Publication, isOpen: bool, deletes: nat)
    ensures r == Unpublished(false) && isOpen && deletes == 0
  {
    var play := new Play([Lost(true)]);
    var plan := Plan(1, 1, [TrackPlan("internal", "1.0 testing", Completed, None)], [], []);
    RefusedCommitPlan(plan);
    r := PublishRelease(play, plan);
    isOpen, deletes := play.edit.Some?, play.deletesAsked;
  }

  lemma RefusedCommitPlan(plan: Plan)
    requires plan == Plan(1, 1, [TrackPlan("internal", "1.0 testing", Completed, None)], [], [])
    ensures var f := [Answered, Answered, Answered, Refused(true)];
            Ready(EMPTY, plan, f) && FaultAt(f, CommitAt(plan)) == Refused(true)
  {
    assert "internal" != "none" && "internal" != "production";
    assert GroupsOf([]) == {};
  }
}
