/** Captures: a posted recording stored as a file first and as a task's attachment after it, beside the orphan
  * collector and edits of the document. Every write may fail before or after it lands. */
module Capture {
  import opened AttachmentGc
  import opened AttachmentPaths
  import opened Utf8
  import opened UrlParams
  import opened Wrappers

  // ------------------------------------------------------------- capture ids

  function LowerChar(c: Unit): Unit
  {
    if 0x41 <= c <= 0x5A then c + 0x20 else c
  }

  function Lower(t: Text): (r: Text)
    ensures |r| == |t|
  {
    seq(|t|, i requires 0 <= i < |t| => LowerChar(t[i]))
  }

  predicate IsHex(c: Unit)
  {
    0x30 <= c <= 0x39 || 0x41 <= c <= 0x46 || 0x61 <= c <= 0x66
  }

  const HYPHEN: Unit := 0x2D

  /** Hexadecimal digits in groups of 8, 4, 4, 4 and 12, in either case. */
  predicate IsCaptureId(t: Text)
  {
    |t| == 36 && forall i :: 0 <= i < 36 ==> if i in {8, 13, 18, 23} then t[i] == HYPHEN else IsHex(t[i])
  }

  /** `parseCaptureId` of a trimmed field: none when empty, an error when malformed, else in lower case. */
  function ParseCaptureId(t: Text): Result<Option<Text>, string>
  {
    if t == [] then Ok(None) else if IsCaptureId(t) then Ok(Some(Lower(t))) else Err("Invalid captureId")
  }

  /** A retry that spells the id in another case is the same capture. */
  lemma CaptureIdIgnoresCase(t: Text, u: Text)
    requires Lower(t) == Lower(u)
    ensures ParseCaptureId(t) == ParseCaptureId(u)
    ensures ParseCaptureId(t).Ok? && t != [] ==> ParseCaptureId(ParseCaptureId(t).value.value) == ParseCaptureId(t)
    ensures ParseCaptureId(t).Ok? && t != [] ==>
              var id := ParseCaptureId(t).value.value;
              && |id| == |t|
              && forall i :: 0 <= i < |t| ==>
                   && !(0x41 <= id[i] <= 0x5A)
                   && (id[i] == t[i] || (0x41 <= t[i] <= 0x5A && id[i] == t[i] + 0x20))
  {
    assert |t| == |Lower(t)| == |u|;
    forall i | 0 <= i < |t| ensures LowerChar(t[i]) == LowerChar(u[i]) {
      assert Lower(t)[i] == Lower(u)[i];
    }
    assert Lower(Lower(t)) == Lower(t);
  }

  // ------------------------------------------------------------------- state

  /** The stored document, the files under the attachments root, and the record of what captures stored: each
    * one's cloud key and bytes. */
  datatype State = State(doc: Doc, files: map<Path, seq<Byte>>, put: map<Path, seq<Byte>>)

  datatype Audio = Audio(name: Text, bytes: seq<Byte>)

  /** A parsed capture: its id, given by the sender or generated, and the audio under its generated name. */
  datatype Request = Request(captureId: Option<Text>, generated: Text, audio: Option<Audio>)

  datatype WriteFate = Written | FailsBefore | FailsAfter

  /** What the capture meets: whether the document loads, what the shared finalize makes of it, how the audio
    * and document writes fare, and, for the cleanup, whether the storage authority holds, the canonical document
    * reads, and the removal lands. */
  datatype Fates = Fates(
    loads: bool, finalized: Option<Doc>, audioWrite: WriteFate, docWrite: WriteFate,
    authority: bool, readable: bool, removalLands: bool)

  datatype Response = Unloadable | Replayed(id: Text) | Refused | NotStored | Threw | Created

  function IdOf(request: Request): Text
  {
    if request.captureId.Some? then request.captureId.value else request.generated
  }

  function KeyOf(audio: Audio): Path
  {
    [ATTACHMENTS, audio.name]
  }

  function TaskOf(request: Request): Owner
  {
    Owner(IdOf(request), false,
          if request.audio.Some? then [Attachment(true, Slashed(KeyOf(request.audio.value)), false)] else [])
  }

  predicate HasTask(tasks: seq<Owner>, id: Text)
  {
    exists i :: 0 <= i < |tasks| && tasks[i].id == id
  }

  function Pushed(doc: Doc, request: Request): Doc
  {
    doc.(tasks := doc.tasks + [TaskOf(request)])
  }

  /** Any attachment at all with the cloud key, deleted or its owner purged included. */
  predicate Mentions(doc: Doc, cloudKey: Text)
  {
    exists o :: o in doc.tasks + doc.projects && exists a :: a in o.attachments && a.cloudKey == cloudKey
  }

  /** After a failed document write: the audio goes only when the document as it stands is read and does not
    * mention it. */
  function Cleaned(s: State, audio: Audio, fates: Fates): State
  {
    if fates.authority && fates.readable && !Mentions(s.doc, Slashed(KeyOf(audio))) && fates.removalLands
    then s.(files := s.files - {RootRelative(KeyOf(audio))}) else s
  }

  function AudioStored(s: State, audio: Audio, fate: WriteFate): State
  {
    s.(put := s.put[KeyOf(audio) := audio.bytes],
       files := if fate == FailsBefore then s.files else s.files[RootRelative(KeyOf(audio)) := audio.bytes])
  }

  /** The locked section of a capture. */
  function Captured(s: State, request: Request, fates: Fates): (State, Response)
  {
    if !fates.loads then (s, Unloadable)
    else if request.captureId.Some? && HasTask(s.doc.tasks, request.captureId.value) then
      (s, Replayed(request.captureId.value))
    else if fates.finalized.None? then (s, Refused)
    else
      var stored := if request.audio.Some? then AudioStored(s, request.audio.value, fates.audioWrite) else s;
      if request.audio.Some? && fates.audioWrite != Written then (stored, NotStored)
      else
        var landed := if fates.docWrite == FailsBefore then stored else stored.(doc := fates.finalized.value);
        if fates.docWrite == Written then (landed, Created)
        else (if request.audio.Some? then Cleaned(landed, request.audio.value, fates) else landed, Threw)
  }

  /** How a capture is answered: created exactly when the document loads, the id is new, the finalize passes, and the
    * audio and then the document are written; each failure is answered by the first thing that fails. */
  lemma AnswersExactly(s: State, request: Request, fates: Fates)
    ensures var r := Captured(s, request, fates).1;
            var replays := request.captureId.Some? && exists o :: o in s.doc.tasks && o.id == request.captureId.value;
            var passes := fates.loads && !replays && fates.finalized.Some?;
            var stores := request.audio.None? || fates.audioWrite == Written;
            && (r == Unloadable <==> !fates.loads)
            && (r.Replayed? <==> fates.loads && replays) && (r.Replayed? ==> Some(r.id) == request.captureId)
            && (r == Refused <==> fates.loads && !replays && fates.finalized.None?)
            && (r == NotStored <==> passes && !stores)
            && (r == Threw <==> passes && stores && fates.docWrite != Written)
            && (r == Created <==> passes && stores && fates.docWrite == Written)
  {
    var tasks := s.doc.tasks;
    assert forall id :: HasTask(tasks, id) <==> exists o :: o in tasks && o.id == id by {
      forall id | HasTask(tasks, id) ensures exists o :: o in tasks && o.id == id {
        var i :| 0 <= i < |tasks| && tasks[i].id == id;
        assert tasks[i] in tasks;
      }
    }
  }

  /** What each answer leaves: the document it was, or, once its write is on the disk, the finalized one; the audio at
    * its name under the root, from its write until a cleanup that the stored document does not forbid; every other
    * file as it was. */
  lemma LeavesExactly(s: State, request: Request, fates: Fates)
    ensures var (t, r) := Captured(s, request, fates);
            && (r.Unloadable? || r.Replayed? || r == Refused ==> t == s)
            && (r == NotStored || (r == Threw && fates.docWrite == FailsBefore) ==> t.doc == s.doc)
            && (r == Created || (r == Threw && fates.docWrite == FailsAfter) ==> Some(t.doc) == fates.finalized)
            && (request.audio.None? ==> t.files == s.files && t.put == s.put)
            && (request.audio.Some? ==>
                  var audio := request.audio.value;
                  var cleaned := r == Threw && fates.authority && fates.readable && fates.removalLands
                    && !Mentions(t.doc, ATTACHMENTS + [SLASH] + audio.name);
                  && t.files - {[audio.name]} == s.files - {[audio.name]}
                  && t.put == (if r == Created || r == Threw || r == NotStored
                               then s.put[[ATTACHMENTS, audio.name] := audio.bytes] else s.put)
                  && (r == Created || r == Threw || (r == NotStored && fates.audioWrite == FailsAfter) ==>
                        if cleaned then [audio.name] !in t.files
                        else [audio.name] in t.files && t.files[[audio.name]] == audio.bytes)
                  && (r == NotStored && fates.audioWrite == FailsBefore ==> t.files == s.files))
  {
    hide Mentions, HasTask;
    if request.audio.Some? {
      var audio := request.audio.value;
      assert RootRelative(KeyOf(audio)) == [audio.name];
      assert KeyOf(audio)[1..] == [audio.name];
      assert Slashed(KeyOf(audio)) == ATTACHMENTS + [SLASH] + Slashed([audio.name]);
    }
  }

  // --------------------------------------------------------------------- runs

  function Occurrences(tasks: seq<Owner>, id: Text): nat
  {
    if tasks == [] then 0 else Occurrences(tasks[..|tasks| - 1], id) + if tasks[|tasks| - 1].id == id then 1 else 0
  }

  ghost predicate LiveText(doc: Doc, cloudKey: Text)
  {
    exists o :: o in doc.tasks + doc.projects && !o.purged && LiveIn(o.attachments, cloudKey)
  }

  ghost predicate LiveIn(attachments: seq<Attachment>, cloudKey: Text)
  {
    exists a :: a in attachments && a.isFile && !a.deleted && a.cloudKey == cloudKey
  }

  /** [after] has no live cloud key that [before] has not, and no task id more often. */
  ghost predicate Drops(before: Doc, after: Doc)
  {
    && (forall cloudKey :: LiveText(after, cloudKey) ==> LiveText(before, cloudKey))
    && (forall id :: Occurrences(after.tasks, id) <= Occurrences(before.tasks, id))
  }

  datatype Step = Take(request: Request, fates: Fates) | Collect(referenced: set<Path>, root: Tree) | Edit(doc: Doc)

  function RemovedBy(referenced: set<Path>, root: Tree): set<Path>
    requires root.Folder?
  {
    set e | e in Visited(referenced, [], root, START).log && e.Unlinked? :: e.path
  }

  /** Names and ids are generated once; the finalize and edits only drop references; the collector guards what
    * the stored document references. */
  ghost predicate Permitted(s: State, step: Step)
  {
    match step
    case Take(request, fates) =>
      && (request.captureId.None? ==> Occurrences(s.doc.tasks, request.generated) == 0)
      && (request.audio.Some? ==>
            && var key := KeyOf(request.audio.value);
            && Storable(key) && key !in s.put
            && forall cloudKey :: LiveText(s.doc, cloudKey) ==> Normalized(cloudKey) != Some(key))
      && (fates.finalized.Some? ==> Drops(Pushed(s.doc, request), fates.finalized.value))
    case Collect(referenced, root) => root.Folder? && forall p :: p in referenced <==> Guarded(s.doc, p)
    case Edit(doc) => Drops(s.doc, doc)
  }

  ghost function Next(s: State, step: Step): State
    requires Permitted(s, step)
  {
    match step
    case Take(request, fates) => Captured(s, request, fates).0
    case Collect(referenced, root) => s.(files := s.files - RemovedBy(referenced, root))
    case Edit(doc) => s.(doc := doc)
  }

  ghost predicate IsRun(states: seq<State>, steps: seq<Step>)
  {
    && |states| == |steps| + 1 && states[0].put == map[]
    && forall k :: 0 <= k < |steps| ==> Permitted(states[k], steps[k]) && states[k + 1] == Next(states[k], steps[k])
  }

  // ---------------------------------------------------------------- invariant

  /** A capture's key is one generated name under `attachments/`. */
  predicate CaptureKey(key: Path)
  {
    |key| == 2 && key[0] == ATTACHMENTS && Storable(key)
  }

  ghost predicate Held(s: State, key: Path)
    requires key in s.put && |key| == 2
  {
    RootRelative(key) in s.files && s.files[RootRelative(key)] == s.put[key]
  }

  /** Every capture's key that a live attachment has is held by its bytes at its storage path. */
  ghost predicate Safe(s: State)
  {
    && (forall key :: key in s.put ==> CaptureKey(key))
    && (forall key, cloudKey ::
          key in s.put && LiveText(s.doc, cloudKey) && Normalized(cloudKey) == Some(key) ==> Held(s, key))
  }

  lemma PushedLive(doc: Doc, request: Request, cloudKey: Text)
    requires LiveText(Pushed(doc, request), cloudKey)
    ensures LiveText(doc, cloudKey) || (request.audio.Some? && cloudKey == Slashed(KeyOf(request.audio.value)))
  {
    var after := Pushed(doc, request);
    var o :| o in after.tasks + after.projects && !o.purged && LiveIn(o.attachments, cloudKey);
    assert o in doc.tasks + doc.projects || o == TaskOf(request);
  }

  lemma {:induction false} LiveIsMentioned(doc: Doc, cloudKey: Text)
    requires LiveText(doc, cloudKey)
    ensures Mentions(doc, cloudKey)
  {
    var o :| o in doc.tasks + doc.projects && !o.purged && LiveIn(o.attachments, cloudKey);
    var a :| a in o.attachments && a.isFile && !a.deleted && a.cloudKey == cloudKey;
  }

  lemma OwnPath(a: Path, b: Path)
    requires CaptureKey(a) && CaptureKey(b)
    ensures RootRelative(a) == RootRelative(b) ==> a == b
  {
    assert RootRelative(a) == [a[1]] && RootRelative(b) == [b[1]];
  }

  /** The audio is at its place before the document names it, and a failed write takes it away only when the
    * document does not. */
  lemma TakeKeeps(s: State, request: Request, fates: Fates)
    requires Safe(s) && Permitted(s, Take(request, fates))
    ensures Safe(Captured(s, request, fates).0)
  {
    hide Mentions, LiveText, Storable, Slashed, RootRelative, Normalized, Occurrences;
    var t := Captured(s, request, fates).0;
    forall key, cloudKey | key in t.put && LiveText(t.doc, cloudKey) && Normalized(cloudKey) == Some(key)
      ensures Held(t, key)
    {
      if t.doc != s.doc && !LiveText(s.doc, cloudKey) {
        PushedLive(s.doc, request, cloudKey);
        LiveIsMentioned(t.doc, cloudKey);
        KeyIsNormal(KeyOf(request.audio.value));
      } else if request.audio.Some? && key in s.put {
        OwnPath(key, KeyOf(request.audio.value));
      }
    }
  }

  lemma KeyIsNormal(key: Path)
    requires Storable(key)
    ensures Normalized(Slashed(key)) == Some(key)
  {
    StorableIsNormal(key);
  }

  /** The collector never removes a capture's live file, whatever tree and clock it meets. */
  lemma CollectKeeps(s: State, referenced: set<Path>, root: Tree)
    requires Safe(s) && Permitted(s, Collect(referenced, root))
    ensures Safe(s.(files := s.files - RemovedBy(referenced, root)))
  {
    hide Visited, Storable, Slashed, Normalized, FileAt;
    VisitedIsTrue(referenced, [], root, START);
    var log := Visited(referenced, [], root, START).log;
    forall key, cloudKey | key in s.put && LiveText(s.doc, cloudKey) && Normalized(cloudKey) == Some(key)
      ensures RootRelative(key) !in RemovedBy(referenced, root)
    {
      LiveIsReferenced(s.doc, cloudKey, key);
      RootRelativeIsStorable(key);
      StorableIsNormal(RootRelative(key));
    }
  }

  lemma LiveIsReferenced(doc: Doc, cloudKey: Text, key: Path)
    requires LiveText(doc, cloudKey) && Normalized(cloudKey) == Some(key) && CaptureKey(key)
    ensures Referenced(doc, key) && Guarded(doc, RootRelative(key))
  {
    NotEmptyText(cloudKey);
    var o :| o in doc.tasks + doc.projects && !o.purged && LiveIn(o.attachments, cloudKey);
    var a :| a in o.attachments && a.isFile && !a.deleted && a.cloudKey == cloudKey;
    assert Refers(a, key);
    assert OneRefers(o.attachments, key);
  }

  lemma NotEmptyText(cloudKey: Text)
    requires Normalized(cloudKey).Some?
    ensures cloudKey != []
  {
  }

  lemma NextKeeps(s: State, step: Step)
    requires Safe(s) && Permitted(s, step)
    ensures Safe(Next(s, step))
  {
    hide Captured, RemovedBy, Held, Normalized, LiveText, CaptureKey;
    match step
    case Take(request, fates) => TakeKeeps(s, request, fates);
    case Collect(referenced, root) => CollectKeeps(s, referenced, root);
    case Edit(doc) => EditKeeps(s, doc);
  }

  lemma EditKeeps(s: State, doc: Doc)
    requires Safe(s) && Drops(s.doc, doc)
    ensures Safe(s.(doc := doc))
  {
    hide Normalized, LiveText, CaptureKey;
    var t := s.(doc := doc);
    assert forall key :: key in s.put && CaptureKey(key) && Held(s, key) ==> Held(t, key) by {
      KeysArePairs(s);
    }
    KeysArePairs(s);
  }

  lemma KeysArePairs(s: State)
    requires Safe(s)
    ensures forall key :: key in s.put ==> |key| == 2
  {
  }

  /** Over any run of captures, collector passes and reference-dropping edits, every live attachment a capture
    * put in the stored document has its bytes at its storage path. */
  lemma {:induction false} RunIsSafe(states: seq<State>, steps: seq<Step>, k: nat)
    requires IsRun(states, steps) && k < |states|
    ensures Safe(states[k])
    decreases k
  {
    hide Next, Permitted, Held, LiveText, Normalized;
    if k > 0 {
      RunIsSafe(states, steps, k - 1);
      NextKeeps(states[k - 1], steps[k - 1]);
    }
  }

  // ------------------------------------------------------------------- replay

  lemma {:induction false} HasTaskOccurs(tasks: seq<Owner>, id: Text)
    ensures HasTask(tasks, id) <==> Occurrences(tasks, id) > 0
  {
    if tasks != [] {
      var but := tasks[..|tasks| - 1];
      HasTaskOccurs(but, id);
      assert HasTask(tasks, id) <==> HasTask(but, id) || tasks[|tasks| - 1].id == id by {
        assert tasks == but + [tasks[|tasks| - 1]];
      }
    }
  }

  /** No step gives a task id a second task, a retried capture's least of all. */
  lemma NextAddsNoSecond(s: State, step: Step, id: Text)
    requires Permitted(s, step)
    ensures var n := Occurrences(s.doc.tasks, id); Occurrences(Next(s, step).doc.tasks, id) <= if n == 0 then 1 else n
  {
    hide LiveText, Normalized, Storable, HasTask, RemovedBy;
    if step.Take? {
      var tasks := Pushed(s.doc, step.request).tasks;
      assert tasks[..|tasks| - 1] == s.doc.tasks;
      HasTaskOccurs(s.doc.tasks, IdOf(step.request));
    }
  }

  lemma {:induction false} RunAddsNoSecond(states: seq<State>, steps: seq<Step>, k: nat, id: Text)
    requires IsRun(states, steps) && k < |states|
    ensures
      var n := Occurrences(states[0].doc.tasks, id);
      Occurrences(states[k].doc.tasks, id) <= if n == 0 then 1 else n
    decreases k
  {
    hide Next, Permitted, Occurrences;
    if k > 0 {
      RunAddsNoSecond(states, steps, k - 1, id);
      NextAddsNoSecond(states[k - 1], steps[k - 1], id);
    }
  }

  /** A retry of a capture whose write landed, whatever it was answered, changes nothing and says so. */
  lemma RetryIsReplayed(s: State, request: Request, fates: Fates, again: Request, later: Fates)
    requires request.captureId.Some? && again.captureId == request.captureId && later.loads
    requires fates.loads && fates.finalized.Some? && fates.docWrite != FailsBefore
    requires request.audio.Some? ==> fates.audioWrite == Written
    requires HasTask(fates.finalized.value.tasks, request.captureId.value)
    ensures var t := Captured(s, request, fates).0; Captured(t, again, later) == (t, Replayed(request.captureId.value))
  {
  }

  // --------------------------------------------------------------- the server

  class Namespace {
    var doc: Doc
    var files: map<Path, seq<Byte>>
    ghost var put: map<Path, seq<Byte>>

    ghost function View(): State
      reads this
    {
      State(doc, files, put)
    }

    /** Publishes the audio bytes at the key without its prefix; false on any failure, landed or not. */
    method StoreCaptureAudio(audio: Audio, fate: WriteFate) returns (ok: bool)
      modifies this`files, this`put
      ensures View() == AudioStored(old(View()), audio, fate) && (ok <==> fate == Written)
    {
      put := put[KeyOf(audio) := audio.bytes];
      if fate != FailsBefore {
        files := files[RootRelative(KeyOf(audio)) := audio.bytes];
      }
      ok := fate == Written;
    }

    method RemoveOrphanedCaptureAudio(audio: Audio, fates: Fates)
      modifies this`files
      ensures View() == Cleaned(old(View()), audio, fates)
    {
      if !fates.authority || !fates.readable {
        return;
      }
      var isReferenced := false;
      var owners := doc.tasks + doc.projects;
      for i := 0 to |owners|
        invariant isReferenced <==> exists o :: o in owners[..i] && exists a ::
            a in o.attachments && a.cloudKey == Slashed(KeyOf(audio))
      {
        assert owners[..i + 1] == owners[..i] + [owners[i]];
        if exists a :: a in owners[i].attachments && a.cloudKey == Slashed(KeyOf(audio)) {
          isReferenced := true;
        }
      }
      assert owners[..|owners|] == owners;
      if isReferenced {
        return;
      }
      if fates.removalLands {
        files := files - {RootRelative(KeyOf(audio))};
      }
    }

    /** The locked section of `handleCaptureRequest`. */
    method HandleCapture(request: Request, fates: Fates) returns (response: Response)
      modifies this
      ensures (View(), response) == Captured(old(View()), request, fates)
    {
      hide Mentions, Slashed, RootRelative;
      if !fates.loads {
        return Unloadable;
      }
      if request.captureId.Some? {
        if exists i :: 0 <= i < |doc.tasks| && doc.tasks[i].id == request.captureId.value {
          return Replayed(request.captureId.value);
        }
      }
      if fates.finalized.None? {
        return Refused;
      }
      if request.audio.Some? {
        var ok := StoreCaptureAudio(request.audio.value, fates.audioWrite);
        if !ok {
          return NotStored;
        }
      }
      if fates.docWrite != FailsBefore {
        doc := fates.finalized.value;
      }
      if fates.docWrite == Written {
        return Created;
      }
      if request.audio.Some? {
        RemoveOrphanedCaptureAudio(request.audio.value, fates);
      }
      return Threw;
    }

    /** `handleOrphanAttachmentGcRequest`: nothing is removed when the document cannot be read. */
    method CollectOrphans(root: Tree, readable: bool)
      requires root.Folder?
      modifies this`files
      ensures !readable ==> View() == old(View())
      ensures readable ==>
        exists referenced ::
          Permitted(old(View()), Collect(referenced, root))
          && View() == Next(old(View()), Collect(referenced, root))
    {
      if !readable {
        return;
      }
      var gc, threw := GarbageCollect(doc, root);
      var removed := set e | e in gc.log && e.Unlinked? :: e.path;
      files := files - removed;
      assert removed == RemovedBy(gc.referenced, root);
      assert Permitted(old(View()), Collect(gc.referenced, root));
    }
  }
}
