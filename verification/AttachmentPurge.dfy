/** The remote deletes a project purge schedules: the project's keys no remaining owner still holds. */
module AttachmentPurge {
  import opened AttachmentGc
  import opened AttachmentPaths
  import opened UrlParams
  import opened Wrappers

  /** `getAttachmentCloudKey`: a deleted attachment still holds its key. */
  function HeldKey(a: Attachment): Option<Path>
  {
    if !a.isFile || a.cloudKey == [] then None else Normalized(a.cloudKey)
  }

  ghost predicate Holds(owner: Owner, key: Path)
  {
    exists a :: a in owner.attachments && HeldKey(a) == Some(key)
  }

  ghost predicate Retained(doc: Doc, purgedId: Text, key: Path)
  {
    || (exists o :: o in doc.projects && o.id != purgedId && !o.purged && Holds(o, key))
    || (exists o :: o in doc.tasks && !o.purged && Holds(o, key))
  }

  method HeldKeys(owner: Owner) returns (keys: set<Path>)
    ensures forall key :: key in keys <==> Holds(owner, key)
  {
    hide HeldKey;
    keys := {};
    for i := 0 to |owner.attachments|
      invariant forall key :: key in keys <==> exists a :: a in owner.attachments[..i] && HeldKey(a) == Some(key)
    {
      assert owner.attachments[..i + 1] == owner.attachments[..i] + [owner.attachments[i]];
      var cloudKey := HeldKey(owner.attachments[i]);
      if cloudKey.Some? {
        keys := keys + {cloudKey.value};
      }
    }
    assert owner.attachments[..|owner.attachments|] == owner.attachments;
  }

  method CollectRetained(doc: Doc, purgedId: Text) returns (keys: set<Path>)
    ensures forall key :: key in keys <==> Retained(doc, purgedId, key)
  {
    hide Holds;
    keys := {};
    for i := 0 to |doc.projects|
      invariant forall key :: key in keys <==> exists o ::
          o in doc.projects[..i] && o.id != purgedId && !o.purged && Holds(o, key)
    {
      assert doc.projects[..i + 1] == doc.projects[..i] + [doc.projects[i]];
      if doc.projects[i].id != purgedId && !doc.projects[i].purged {
        var held := HeldKeys(doc.projects[i]);
        keys := keys + held;
      }
    }
    assert doc.projects[..|doc.projects|] == doc.projects;
    ghost var fromProjects := keys;
    for i := 0 to |doc.tasks|
      invariant forall key :: key in keys <==>
                  key in fromProjects || exists o :: o in doc.tasks[..i] && !o.purged && Holds(o, key)
    {
      assert doc.tasks[..i + 1] == doc.tasks[..i] + [doc.tasks[i]];
      if !doc.tasks[i].purged {
        var held := HeldKeys(doc.tasks[i]);
        keys := keys + held;
      }
    }
    assert doc.tasks[..|doc.tasks|] == doc.tasks;
  }

  predicate Distinct(keys: seq<Path>)
  {
    forall i, j :: 0 <= i < j < |keys| ==> keys[i] != keys[j]
  }

  /** Exactly the project's keys that nothing else retains, each once. */
  method CollectPendingDeletes(project: Owner, doc: Doc) returns (keys: seq<Path>)
    ensures Distinct(keys)
    ensures forall key :: key in keys <==> Holds(project, key) && !Retained(doc, project.id, key)
  {
    hide HeldKey, Retained;
    var retained := CollectRetained(doc, project.id);
    keys := [];
    for i := 0 to |project.attachments|
      invariant Distinct(keys)
      invariant forall key :: key in keys <==>
                  key !in retained && exists a :: a in project.attachments[..i] && HeldKey(a) == Some(key)
    {
      assert project.attachments[..i + 1] == project.attachments[..i] + [project.attachments[i]];
      var cloudKey := HeldKey(project.attachments[i]);
      if cloudKey.Some? && cloudKey.value !in retained && cloudKey.value !in keys {
        keys := keys + [cloudKey.value];
      }
    }
    assert project.attachments[..|project.attachments|] == project.attachments;
  }

  function WithPurged(doc: Doc, id: Text): Doc
  {
    doc.(projects := seq(|doc.projects|, i requires 0 <= i < |doc.projects| =>
      if doc.projects[i].id == id then doc.projects[i].(purged := true) else doc.projects[i]))
  }

  lemma ReferenceIsHeld(owner: Owner, key: Path)
    requires OneRefers(owner.attachments, key)
    ensures Holds(owner, key)
  {
    hide Normalized;
    var a :| a in owner.attachments && Refers(a, key);
    assert HeldKey(a) == Some(key);
  }

  /** Once the project is purged the document references none of the keys scheduled for deletion; and each of
    * its keys is scheduled unless another owner that is not purged holds it. */
  lemma PurgeDeletesOnlyUnreferenced(doc: Doc, project: Owner, key: Path)
    requires project in doc.projects && Holds(project, key)
    ensures !Retained(doc, project.id, key) ==> !Referenced(WithPurged(doc, project.id), key)
    ensures Retained(doc, project.id, key) <==>
            exists o :: (o in doc.tasks || o in WithPurged(doc, project.id).projects) && !o.purged && Holds(o, key)
  {
    hide Holds, OneRefers;
    var after := WithPurged(doc, project.id);
    forall o | (o in doc.tasks || o in after.projects) && !o.purged && OneRefers(o.attachments, key)
      ensures Holds(o, key)
    {
      ReferenceIsHeld(o, key);
    }
    forall o | o in after.projects && !o.purged ensures o in doc.projects && o.id != project.id {
      var i :| 0 <= i < |after.projects| && after.projects[i] == o;
      assert doc.projects[i] == o;
    }
    forall o | o in doc.projects && o.id != project.id ensures o in after.projects {
      var i :| 0 <= i < |doc.projects| && doc.projects[i] == o;
      assert after.projects[i] == o;
    }
  }

  /** The owner with every attachment deleted. */
  function AllDeleted(owner: Owner): Owner
  {
    owner.(attachments := seq(|owner.attachments|, i requires 0 <= i < |owner.attachments| =>
      owner.attachments[i].(deleted := true)))
  }

  /** Deleting every attachment ends all the owner's references and frees none of its keys; what it references, it
    * holds. */
  lemma DeletionFreesNoKey(owner: Owner, key: Path)
    ensures Holds(AllDeleted(owner), key) <==> Holds(owner, key)
    ensures !OneRefers(AllDeleted(owner).attachments, key)
    ensures OneRefers(owner.attachments, key) ==> Holds(owner, key)
  {
    hide Normalized;
    var after := AllDeleted(owner).attachments;
    if Holds(owner, key) {
      var i :| 0 <= i < |after| && HeldKey(owner.attachments[i]) == Some(key);
      assert after[i] in after && HeldKey(after[i]) == Some(key);
    }
    if Holds(AllDeleted(owner), key) {
      var i :| 0 <= i < |after| && HeldKey(after[i]) == Some(key);
      assert owner.attachments[i] in owner.attachments && HeldKey(owner.attachments[i]) == Some(key);
    }
    if OneRefers(owner.attachments, key) {
      ReferenceIsHeld(owner, key);
    }
  }

  // --------------------------------------------------------------- appending

  datatype PendingDelete = PendingDelete(cloudKey: Text, attempts: nat)

  function IndexOfKey(deletes: seq<PendingDelete>, key: Text): (i: nat)
    ensures i <= |deletes| && (i < |deletes| ==> deletes[i].cloudKey == key)
    ensures forall j :: 0 <= j < i ==> deletes[j].cloudKey != key
  {
    if deletes == [] || deletes[0].cloudKey == key then 0 else 1 + IndexOfKey(deletes[1..], key)
  }

  /** A `Map` set: an entry keeps its place, a new one comes last. */
  function Set(deletes: seq<PendingDelete>, entry: PendingDelete): seq<PendingDelete>
  {
    var i := IndexOfKey(deletes, entry.cloudKey);
    if i < |deletes| then deletes[i := entry] else deletes + [entry]
  }

  ghost predicate OncePerKey(deletes: seq<PendingDelete>)
  {
    forall i, j :: 0 <= i < j < |deletes| ==> deletes[i].cloudKey != deletes[j].cloudKey
  }

  ghost predicate HasKey(deletes: seq<PendingDelete>, key: Text)
  {
    exists i :: 0 <= i < |deletes| && deletes[i].cloudKey == key
  }

  /** With something to append: no key twice, exactly the keys of both lists, and a list already without
    * repeats comes first and unchanged, its attempts kept; nothing to append changes nothing. */
  method AppendPendingDeletes(existing: seq<PendingDelete>, pending: seq<PendingDelete>) returns (r: seq<PendingDelete>)
    ensures pending == [] ==> r == existing
    ensures pending != [] ==> OncePerKey(r)
    ensures forall key :: HasKey(r, key) <==> HasKey(existing, key) || HasKey(pending, key)
    ensures OncePerKey(existing) ==> existing <= r
    ensures forall entry :: entry in r ==> entry in existing || entry in pending
  {
    if pending == [] {
      return existing;
    }
    r := [];
    for i := 0 to |existing|
      invariant OncePerKey(r) && |r| <= i
      invariant forall key :: HasKey(r, key) <==> HasKey(existing[..i], key)
      invariant OncePerKey(existing) ==> r == existing[..i]
      invariant forall entry :: entry in r ==> entry in existing
    {
      ghost var before := r;
      r := Set(r, existing[i]);
      SetKeys(before, existing[i]);
      OneMoreKey(existing[..i], existing[i]);
      assert existing[..i + 1] == existing[..i] + [existing[i]];
    }
    assert existing[..|existing|] == existing;
    for i := 0 to |pending|
      invariant OncePerKey(r)
      invariant forall key :: HasKey(r, key) <==> HasKey(existing, key) || HasKey(pending[..i], key)
      invariant OncePerKey(existing) ==> existing <= r
      invariant forall entry :: entry in r ==> entry in existing || entry in pending
    {
      assert pending[..i + 1] == pending[..i] + [pending[i]];
      OneMoreKey(pending[..i], pending[i]);
      if IndexOfKey(r, pending[i].cloudKey) == |r| {
        SetKeys(r, pending[i]);
        r := r + [pending[i]];
      }
    }
    assert pending[..|pending|] == pending;
  }

  lemma OneMoreKey(deletes: seq<PendingDelete>, entry: PendingDelete)
    ensures forall key :: HasKey(deletes + [entry], key) <==> HasKey(deletes, key) || key == entry.cloudKey
  {
    var more := deletes + [entry];
    assert more[|deletes|] == entry && forall i :: 0 <= i < |deletes| ==> more[i] == deletes[i];
  }

  lemma SetKeys(deletes: seq<PendingDelete>, entry: PendingDelete)
    requires OncePerKey(deletes)
    ensures OncePerKey(Set(deletes, entry))
    ensures forall key :: HasKey(Set(deletes, entry), key) <==> HasKey(deletes, key) || key == entry.cloudKey
  {
    var i, after := IndexOfKey(deletes, entry.cloudKey), Set(deletes, entry);
    if i < |deletes| {
      assert after[i] == entry && forall j :: 0 <= j < |deletes| ==> after[j].cloudKey == deletes[j].cloudKey;
    } else {
      OneMoreKey(deletes, entry);
    }
  }
}
