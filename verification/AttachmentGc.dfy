/** The collector of orphan attachment files: what the document references, and the walk that removes the rest. */
module AttachmentGc {
  import opened AttachmentPaths
  import opened UrlParams
  import opened Wrappers

  type Path = seq<Text>

  /** An attachment; its cloud key is empty when it has none. */
  datatype Attachment = Attachment(isFile: bool, cloudKey: Text, deleted: bool)

  /** A task or a project. */
  datatype Owner = Owner(id: Text, purged: bool, attachments: seq<Attachment>)

  datatype Doc = Doc(tasks: seq<Owner>, projects: seq<Owner>)

  // ------------------------------------------------------------ references

  /** A live file attachment whose cloud key normalizes to the key. */
  predicate Refers(a: Attachment, key: Path)
  {
    a.isFile && !a.deleted && a.cloudKey != [] && Normalized(a.cloudKey) == Some(key)
  }

  ghost predicate OneRefers(attachments: seq<Attachment>, key: Path)
  {
    exists a :: a in attachments && Refers(a, key)
  }

  ghost predicate ReferredBy(owners: seq<Owner>, key: Path)
  {
    exists o :: o in owners && !o.purged && OneRefers(o.attachments, key)
  }

  /** A live attachment of an owner that is not purged has the key. */
  ghost predicate Referenced(doc: Doc, key: Path)
  {
    ReferredBy(doc.tasks, key) || ReferredBy(doc.projects, key)
  }

  /** A path under the attachments root that a referenced key names: its current place, or a prefixed key's
    * historical one. */
  ghost predicate Guarded(doc: Doc, path: Path)
  {
    exists key :: Referenced(doc, key) && (path == RootRelative(key) || path == key)
  }

  /** A key is referenced exactly by a file attachment, not deleted, of a task or project that is not purged; its places
    * are the key itself and, under `attachments/`, the key without that. */
  lemma ReferencedIff(doc: Doc, key: Path)
    ensures Referenced(doc, key) <==>
            exists o, a ::
              && (o in doc.tasks || o in doc.projects) && !o.purged && a in o.attachments
              && a.isFile && !a.deleted && a.cloudKey != [] && Normalized(a.cloudKey) == Some(key)
    ensures RootRelative(key) == if |key| > 1 && key[0] == ATTACHMENTS then key[1..] else key
  {
    hide Normalized;
    forall o, a |
      && (o in doc.tasks || o in doc.projects) && !o.purged && a in o.attachments
      && a.isFile && !a.deleted && a.cloudKey != [] && Normalized(a.cloudKey) == Some(key)
      ensures Referenced(doc, key)
    {
      assert Refers(a, key);
    }
    if Referenced(doc, key) {
      var o :| (o in doc.tasks || o in doc.projects) && !o.purged && OneRefers(o.attachments, key);
      var a := ReferringOne(o.attachments, key);
    }
  }

  lemma ReferringOne(attachments: seq<Attachment>, key: Path) returns (a: Attachment)
    requires OneRefers(attachments, key)
    ensures a in attachments && Refers(a, key)
  {
    hide Refers;
    a :| a in attachments && Refers(a, key);
  }

  method CollectOf(attachments: seq<Attachment>) returns (keys: set<Path>)
    ensures forall key :: key in keys <==> OneRefers(attachments, key)
  {
    hide OneRefers, Normalized;
    keys := {};
    forall key ensures !OneRefers(attachments[..0], key) { NoneRefers(key); }
    for i := 0 to |attachments|
      invariant forall key :: key in keys <==> OneRefers(attachments[..i], key)
    {
      var a := attachments[i];
      assert attachments[..i + 1] == attachments[..i] + [a];
      forall key ensures OneRefers(attachments[..i + 1], key) <==> OneRefers(attachments[..i], key) || Refers(a, key) {
        OneMoreRefers(attachments[..i], a, key);
      }
      if a.isFile && !a.deleted && a.cloudKey != [] {
        var normalized := Normalized(a.cloudKey);
        if normalized.Some? {
          keys := keys + {normalized.value};
        }
      }
    }
    assert attachments[..|attachments|] == attachments;
  }

  method CollectFrom(owners: seq<Owner>) returns (keys: set<Path>)
    ensures forall key :: key in keys <==> ReferredBy(owners, key)
  {
    hide OneRefers;
    keys := {};
    for i := 0 to |owners|
      invariant forall key :: key in keys <==> ReferredBy(owners[..i], key)
    {
      assert owners[..i + 1] == owners[..i] + [owners[i]];
      if !owners[i].purged {
        var own := CollectOf(owners[i].attachments);
        keys := keys + own;
      }
    }
    assert owners[..|owners|] == owners;
  }

  /** The guarded paths, from the keys the document references. */
  method CollectReferences(doc: Doc) returns (referenced: set<Path>)
    ensures forall path :: path in referenced <==> Guarded(doc, path)
  {
    hide Normalized, ReferredBy, RootRelative, Slashed, Storable;
    var tasks := CollectFrom(doc.tasks);
    var projects := CollectFrom(doc.projects);
    var keys := tasks + projects;
    referenced := {};
    var rest := keys;
    ghost var done: set<Path> := {};
    while rest != {}
      invariant rest + done == keys
      invariant forall path :: path in referenced <==> exists key ::
          key in done && (path == RootRelative(key) || path == key)
      decreases |rest|
    {
      var key :| key in rest;
      var rootRelative := RootRelative(key);
      ReferencedIsNormal(doc, key);
      var canonical := Normalized(Slashed(rootRelative));
      if canonical.Some? {
        referenced := referenced + {canonical.value};
        if rootRelative != key {
          referenced := referenced + {key};
        }
      }
      rest := rest - {key};
      done := done + {key};
    }
    assert done == keys;
    assert forall key :: key in keys <==> Referenced(doc, key);
  }

  lemma OneRefersToStorable(attachments: seq<Attachment>, key: Path)
    requires OneRefers(attachments, key)
    ensures Storable(key)
  {
    var a :| a in attachments && Refers(a, key);
    NormalIsStorable(a.cloudKey);
  }

  lemma NoneRefers(key: Path)
    ensures !OneRefers([], key)
  {
  }

  lemma OneMoreRefers(attachments: seq<Attachment>, a: Attachment, key: Path)
    ensures OneRefers(attachments + [a], key) <==> OneRefers(attachments, key) || Refers(a, key)
  {
    hide Refers;
    if Refers(a, key) {
      assert a in attachments + [a];
    }
    if OneRefers(attachments, key) {
      var b :| b in attachments && Refers(b, key);
      assert b in attachments + [a];
    }
  }

  lemma KeyIsStorable(doc: Doc, key: Path)
    requires Referenced(doc, key)
    ensures Storable(key)
  {
    hide OneRefers, Storable;
    var o :| (o in doc.tasks || o in doc.projects) && OneRefers(o.attachments, key);
    OneRefersToStorable(o.attachments, key);
  }

  /** A referenced key's place under the root normalizes to itself, so the collector always guards it. */
  lemma ReferencedIsNormal(doc: Doc, key: Path)
    requires Referenced(doc, key)
    ensures Normalized(Slashed(RootRelative(key))) == Some(RootRelative(key))
  {
    KeyIsStorable(doc, key);
    RootRelativeIsStorable(key);
    StorableIsNormal(RootRelative(key));
  }

  // ---------------------------------------------------------------- the walk

  const GRACE_MS := 5 * 60 * 1000

  /** What becomes of a removal: done, nothing there, refused as not empty, or failing otherwise. */
  datatype Fate = Removed | Absent | NotEmpty | Failing

  /** The tree as the walk meets it. A file comes with the clock's reading when it is examined and the fate
    * of its removal; a folder with the answers to its reading, its removal and its sync. */
  datatype Tree =
    | File(mtime: int, now: int, fate: Fate)
    | Folder(readable: bool, children: seq<Entry>, removal: Fate, syncs: bool)

  datatype Entry = Entry(name: Text, stats: bool, tree: Tree)

  datatype Event =
    | Unlinked(path: Path)
    | Missed(path: Path)
    | Pruned(path: Path)
    | Synced(path: Path)
    | SyncFailed(path: Path)

  datatype Walk = Walk(deleted: nat, kept: nat, scanned: nat, errors: seq<Path>, log: seq<Event>, threw: bool)

  const START := Walk(0, 0, 0, [], [], false)

  predicate Removable(referenced: set<Path>, path: Path, file: Tree)
    requires file.File?
  {
    && Normalized(Scanned(path)).Some? && Normalized(Scanned(path)).value !in referenced
    && file.mtime <= file.now - GRACE_MS
  }

  function Examined(referenced: set<Path>, path: Path, file: Tree, w: Walk): Walk
    requires file.File?
  {
    var seen := w.(scanned := w.scanned + 1);
    if !Removable(referenced, path, file) then seen.(kept := w.kept + 1)
    else match file.fate
      case Removed => seen.(deleted := w.deleted + 1, log := w.log + [Unlinked(path)])
      case Absent => seen.(log := w.log + [Missed(path)])
      case _ => seen.(log := w.log + [Missed(path)], errors := w.errors + [path])
  }

  function Visited(referenced: set<Path>, dir: Path, folder: Tree, w: Walk): Walk
    requires folder.Folder?
    decreases folder, |folder.children| + 1
  {
    if !folder.readable then w.(threw := true)
    else
      var inside := VisitedFrom(referenced, dir, folder, 0, w);
      if inside.threw then inside
      else if folder.syncs then inside.(log := inside.log + [Synced(dir)])
      else inside.(log := inside.log + [SyncFailed(dir)], errors := inside.errors + [dir])
  }

  function VisitedFrom(referenced: set<Path>, dir: Path, folder: Tree, i: nat, w: Walk): Walk
    requires folder.Folder? && i <= |folder.children|
    decreases folder, |folder.children| - i
  {
    if i == |folder.children| || w.threw then w
    else VisitedFrom(referenced, dir, folder, i + 1,
        VisitedEntry(referenced, dir + [folder.children[i].name], folder.children[i], w))
  }

  function VisitedEntry(referenced: set<Path>, path: Path, entry: Entry, w: Walk): Walk
    decreases entry
  {
    if !entry.stats then w.(errors := w.errors + [path])
    else match entry.tree
      case File(_, _, _) => Examined(referenced, path, entry.tree, w)
      case Folder(_, _, removal, _) =>
        var inside := Visited(referenced, path, entry.tree, w);
        if inside.threw then inside
        else match removal
          case Removed => inside.(log := inside.log + [Pruned(path)])
          case Failing => inside.(errors := inside.errors + [path])
          case _ => inside
  }

  class Gc {
    const referenced: set<Path>
    var deleted: nat
    var kept: nat
    var scanned: nat
    var errors: seq<Path>
    /** What was asked of the file system and done, in order. */
    var log: seq<Event>

    constructor (referenced: set<Path>)
      ensures this.referenced == referenced && View(false) == START
    {
      this.referenced := referenced;
      deleted, kept, scanned, errors, log := 0, 0, 0, [], [];
    }

    ghost function View(threw: bool): Walk
      reads this
    {
      Walk(deleted, kept, scanned, errors, log, threw)
    }

    /** `visit`: true when an unreadable folder threw out of the walk. */
    method Visit(dir: Path, folder: Tree) returns (threw: bool)
      requires folder.Folder?
      modifies this
      ensures View(threw) == Visited(referenced, dir, folder, old(View(false)))
      decreases folder, |folder.children| + 1
    {
      if !folder.readable {
        return true;
      }
      threw := false;
      for i := 0 to |folder.children|
        invariant !threw
        invariant VisitedFrom(referenced, dir, folder, 0, old(View(false)))
            == VisitedFrom(referenced, dir, folder, i, View(false))
      {
        threw := VisitEntry(dir + [folder.children[i].name], folder.children[i]);
        if threw {
          return;
        }
      }
      if folder.syncs {
        log := log + [Synced(dir)];
      } else {
        errors := errors + [dir];
        log := log + [SyncFailed(dir)];
      }
    }

    method VisitEntry(path: Path, entry: Entry) returns (threw: bool)
      modifies this
      ensures View(threw) == VisitedEntry(referenced, path, entry, old(View(false)))
      decreases entry
    {
      hide Normalized, Scanned, VisitedFrom;
      threw := false;
      if !entry.stats {
        errors := errors + [path];
        return;
      }
      if entry.tree.Folder? {
        threw := Visit(path, entry.tree);
        if threw {
          return;
        }
        if entry.tree.removal == Removed {
          log := log + [Pruned(path)];
        } else if entry.tree.removal == Failing {
          errors := errors + [path];
        }
        return;
      }
      scanned := scanned + 1;
      var relativePath := Normalized(Scanned(path));
      if relativePath.None? || relativePath.value in referenced {
        kept := kept + 1;
        return;
      }
      if entry.tree.mtime > entry.tree.now - GRACE_MS {
        kept := kept + 1;
        return;
      }
      if entry.tree.fate == Removed {
        deleted := deleted + 1;
        log := log + [Unlinked(path)];
      } else {
        if entry.tree.fate != Absent {
          errors := errors + [path];
        }
        log := log + [Missed(path)];
      }
    }
  }

  // -------------------------------------------------------------- properties

  /** The walk can reach the file at the path: every entry above it answers its stat. */
  predicate FileAt(dir: Path, folder: Tree, path: Path, file: Tree)
    requires folder.Folder?
    decreases folder
  {
    exists i :: 0 <= i < |folder.children| && EntryAt(dir + [folder.children[i].name], folder.children[i], path, file)
  }

  predicate EntryAt(at: Path, entry: Entry, path: Path, file: Tree)
    decreases entry
  {
    entry.stats && if entry.tree.File? then path == at && file == entry.tree else FileAt(at, entry.tree, path, file)
  }

  function Count(log: seq<Event>): nat
  {
    if log == [] then 0 else Count(log[..|log| - 1]) + if log[|log| - 1].Missed? then 1 else 0
  }

  /** What a walk from [w] to [t] adds. */
  ghost predicate Extends(w: Walk, t: Walk)
  {
    && w.log <= t.log && w.errors <= t.errors
    && t.scanned - t.kept - t.deleted - Count(t.log) == w.scanned - w.kept - w.deleted - Count(w.log)
  }

  lemma CountOneMore(log: seq<Event>, e: Event)
    ensures Count(log + [e]) == Count(log) + if e.Missed? then 1 else 0
  {
    assert (log + [e])[..|log|] == log;
  }

  lemma {:induction false} VisitedExtends(referenced: set<Path>, dir: Path, folder: Tree, w: Walk)
    requires folder.Folder?
    ensures Extends(w, Visited(referenced, dir, folder, w))
    decreases folder, |folder.children| + 1
  {
    if folder.readable {
      FromExtends(referenced, dir, folder, 0, w);
      var inside := VisitedFrom(referenced, dir, folder, 0, w);
      CountOneMore(inside.log, Synced(dir));
      CountOneMore(inside.log, SyncFailed(dir));
    }
  }

  lemma {:induction false} FromExtends(referenced: set<Path>, dir: Path, folder: Tree, i: nat, w: Walk)
    requires folder.Folder? && i <= |folder.children|
    ensures Extends(w, VisitedFrom(referenced, dir, folder, i, w))
    decreases folder, |folder.children| - i
  {
    if i < |folder.children| && !w.threw {
      var path := dir + [folder.children[i].name];
      EntryExtends(referenced, path, folder.children[i], w);
      FromExtends(referenced, dir, folder, i + 1, VisitedEntry(referenced, path, folder.children[i], w));
    }
  }

  lemma {:induction false} EntryExtends(referenced: set<Path>, path: Path, entry: Entry, w: Walk)
    ensures Extends(w, VisitedEntry(referenced, path, entry, w))
    decreases entry
  {
    hide Visited, Removable, Count;
    if entry.stats {
      if entry.tree.Folder? {
        VisitedExtends(referenced, path, entry.tree, w);
        CountOneMore(Visited(referenced, path, entry.tree, w).log, Pruned(path));
      } else {
        CountOneMore(w.log, Unlinked(path));
        CountOneMore(w.log, Missed(path));
      }
    }
  }

  // ------------------------------------------------ what the walk removes

  /** The event is true of the file it is about: it is there, removable, and removed or not as it says. */
  ghost predicate True(referenced: set<Path>, dir: Path, folder: Tree, e: Event)
    requires folder.Folder?
  {
    e.Unlinked? || e.Missed? ==>
      exists file: Tree ::
          file.File? && FileAt(dir, folder, e.path, file) && Removable(referenced, e.path, file)
          && (file.fate == Removed <==> e.Unlinked?)
  }

  ghost predicate TrueEntry(referenced: set<Path>, path: Path, entry: Entry, e: Event)
  {
    e.Unlinked? || e.Missed? ==>
      exists file: Tree ::
          file.File? && EntryAt(path, entry, e.path, file) && Removable(referenced, e.path, file)
          && (file.fate == Removed <==> e.Unlinked?)
  }

  lemma {:induction false} VisitedIsTrue(referenced: set<Path>, dir: Path, folder: Tree, w: Walk)
    requires folder.Folder?
    ensures var t := Visited(referenced, dir, folder, w);
            |w.log| <= |t.log| && forall k :: |w.log| <= k < |t.log| ==> True(referenced, dir, folder, t.log[k])
    decreases folder, |folder.children| + 1
  {
    hide FileAt, Removable;
    if folder.readable {
      FromIsTrue(referenced, dir, folder, 0, w);
    }
  }

  lemma {:induction false} FromIsTrue(referenced: set<Path>, dir: Path, folder: Tree, i: nat, w: Walk)
    requires folder.Folder? && i <= |folder.children|
    ensures var t := VisitedFrom(referenced, dir, folder, i, w);
            |w.log| <= |t.log| && forall k :: |w.log| <= k < |t.log| ==> True(referenced, dir, folder, t.log[k])
    decreases folder, |folder.children| - i
  {
    hide EntryAt, Removable, VisitedEntry;
    if i < |folder.children| && !w.threw {
      var path, entry := dir + [folder.children[i].name], folder.children[i];
      var mid := VisitedEntry(referenced, path, entry, w);
      EntryIsTrue(referenced, path, entry, w);
      EntryExtends(referenced, path, entry, w);
      FromIsTrue(referenced, dir, folder, i + 1, mid);
      FromExtends(referenced, dir, folder, i + 1, mid);
      var t := VisitedFrom(referenced, dir, folder, i, w);
      forall k | |w.log| <= k < |t.log| ensures True(referenced, dir, folder, t.log[k]) {
        if k < |mid.log| {
          assert mid.log[k] == t.log[k] && TrueEntry(referenced, path, entry, mid.log[k]);
        }
      }
    }
  }

  lemma {:induction false} EntryIsTrue(referenced: set<Path>, path: Path, entry: Entry, w: Walk)
    ensures var t := VisitedEntry(referenced, path, entry, w);
            |w.log| <= |t.log| && forall k :: |w.log| <= k < |t.log| ==> TrueEntry(referenced, path, entry, t.log[k])
    decreases entry
  {
    hide Removable;
    if entry.stats && entry.tree.Folder? {
      VisitedIsTrue(referenced, path, entry.tree, w);
      var t := VisitedEntry(referenced, path, entry, w);
      var inside := Visited(referenced, path, entry.tree, w);
      forall k | |w.log| <= k < |t.log| ensures TrueEntry(referenced, path, entry, t.log[k]) {
        if k < |inside.log| {
          assert True(referenced, path, entry.tree, inside.log[k]);
        }
      }
    }
  }

  /** Every file the walk may remove, and whose removal succeeds, is removed unless the walk is thrown out. */
  lemma {:induction false} VisitedRemoves(referenced: set<Path>, dir: Path, folder: Tree, w: Walk, path: Path,
      file: Tree)
    requires folder.Folder? && FileAt(dir, folder, path, file) && file.File? && Removable(referenced, path, file)
        && file.fate == Removed
    requires !Visited(referenced, dir, folder, w).threw
    ensures Unlinked(path) in Visited(referenced, dir, folder, w).log
    decreases folder, |folder.children| + 1
  {
    hide EntryAt, Removable;
    var i :| 0 <= i < |folder.children| && EntryAt(dir + [folder.children[i].name], folder.children[i], path, file);
    FromRemoves(referenced, dir, folder, 0, w, path, file, i);
  }

  lemma {:induction false} FromRemoves(referenced: set<Path>, dir: Path, folder: Tree, i: nat, w: Walk, path: Path,
      file: Tree, at: nat)
    requires folder.Folder? && i <= at < |folder.children|
        && EntryAt(dir + [folder.children[at].name], folder.children[at], path, file)
    requires file.File? && Removable(referenced, path, file) && file.fate == Removed
    requires !VisitedFrom(referenced, dir, folder, i, w).threw
    ensures Unlinked(path) in VisitedFrom(referenced, dir, folder, i, w).log
    decreases folder, |folder.children| - i
  {
    hide EntryAt, Removable, VisitedEntry;
    var name, entry := dir + [folder.children[i].name], folder.children[i];
    var mid := VisitedEntry(referenced, name, entry, w);
    if i == at {
      EntryRemoves(referenced, name, entry, w, path, file);
      FromExtends(referenced, dir, folder, i + 1, mid);
    } else {
      FromRemoves(referenced, dir, folder, i + 1, mid, path, file, at);
    }
  }

  lemma {:induction false} EntryRemoves(referenced: set<Path>, at: Path, entry: Entry, w: Walk, path: Path, file: Tree)
    requires EntryAt(at, entry, path, file)
    requires file.File? && Removable(referenced, path, file) && file.fate == Removed
    requires !VisitedEntry(referenced, at, entry, w).threw
    ensures Unlinked(path) in VisitedEntry(referenced, at, entry, w).log
    decreases entry
  {
    hide Removable, FileAt;
    if entry.tree.Folder? {
      VisitedRemoves(referenced, at, entry.tree, w, path, file);
    }
  }

  // ------------------------------------------------------ what the walk syncs

  predicate IsRemoval(e: Event)
  {
    (e.Unlinked? || e.Pruned?) && e.path != []
  }

  function Parent(path: Path): Path
    requires path != []
  {
    path[..|path| - 1]
  }

  /** Each removal is followed by a sync of its parent, done or failed, except under the open folders; and a
    * failed sync is reported. */
  ghost predicate Pending(w: Walk, open: set<Path>)
  {
    && (forall i :: 0 <= i < |w.log| && IsRemoval(w.log[i]) ==>
          Parent(w.log[i].path) in open || exists j ::
              i < j < |w.log| && w.log[j] in {Synced(Parent(w.log[i].path)), SyncFailed(Parent(w.log[i].path))})
    && (forall i :: 0 <= i < |w.log| && w.log[i].SyncFailed? ==> w.log[i].path in w.errors)
  }

  lemma LogGrows(w: Walk, t: Walk, e: Event, open: set<Path>)
    requires Pending(w, open) && t.log == w.log + [e]
    requires IsRemoval(e) ==> Parent(e.path) in open
    requires w.errors <= t.errors && (e.SyncFailed? ==> e.path in t.errors)
    ensures Pending(t, if e.Synced? || e.SyncFailed? then open - {e.path} else open)
  {
    var closed := if e.Synced? || e.SyncFailed? then {e.path} else {};
    forall i | 0 <= i < |t.log| && IsRemoval(t.log[i]) && Parent(t.log[i].path) !in open - closed
      ensures exists j ::
          i < j < |t.log| && t.log[j] in {Synced(Parent(t.log[i].path)), SyncFailed(Parent(t.log[i].path))}
    {
      if i < |w.log| && Parent(w.log[i].path) !in open {
        var j :| i < j < |w.log| && w.log[j] in {Synced(Parent(w.log[i].path)), SyncFailed(Parent(w.log[i].path))};
        assert t.log[j] == w.log[j];
      } else {
        assert t.log[|w.log|] == e;
      }
    }
  }

  lemma ErrorsGrow(w: Walk, t: Walk, open: set<Path>)
    requires Pending(w, open) && t.log == w.log && w.errors <= t.errors
    ensures Pending(t, open)
  {
  }

  lemma OpensMore(w: Walk, open: set<Path>, more: set<Path>)
    requires Pending(w, open) && open <= more
    ensures Pending(w, more)
  {
  }

  lemma {:induction false} VisitedPends(referenced: set<Path>, dir: Path, folder: Tree, w: Walk, open: set<Path>)
    requires folder.Folder? && Pending(w, open)
    requires !Visited(referenced, dir, folder, w).threw
    ensures Pending(Visited(referenced, dir, folder, w), open - {dir})
    decreases folder, |folder.children| + 1
  {
    hide Pending, VisitedFrom;
    OpensMore(w, open, open + {dir});
    FromPends(referenced, dir, folder, 0, w, open + {dir});
    var inside, t := VisitedFrom(referenced, dir, folder, 0, w), Visited(referenced, dir, folder, w);
    var e := if folder.syncs then Synced(dir) else SyncFailed(dir);
    LogGrows(inside, t, e, open + {dir});
    assert open + {dir} - {dir} == open - {dir};
  }

  lemma {:induction false} FromPends(referenced: set<Path>, dir: Path, folder: Tree, i: nat, w: Walk, open: set<Path>)
    requires folder.Folder? && i <= |folder.children| && Pending(w, open) && dir in open
    requires !VisitedFrom(referenced, dir, folder, i, w).threw
    ensures Pending(VisitedFrom(referenced, dir, folder, i, w), open)
    decreases folder, |folder.children| - i
  {
    hide Pending, VisitedEntry;
    if i < |folder.children| && !w.threw {
      var path, entry := dir + [folder.children[i].name], folder.children[i];
      assert Parent(path) == dir;
      EntryPends(referenced, path, entry, w, open);
      FromPends(referenced, dir, folder, i + 1, VisitedEntry(referenced, path, entry, w), open);
    }
  }

  lemma {:induction false} EntryPends(referenced: set<Path>, path: Path, entry: Entry, w: Walk, open: set<Path>)
    requires Pending(w, open) && path != [] && Parent(path) in open
    requires !VisitedEntry(referenced, path, entry, w).threw
    ensures Pending(VisitedEntry(referenced, path, entry, w), open)
    decreases entry
  {
    hide Pending, Visited, Removable;
    var t := VisitedEntry(referenced, path, entry, w);
    if !entry.stats {
      ErrorsGrow(w, t, open);
    } else if entry.tree.Folder? {
      VisitedPends(referenced, path, entry.tree, w, open);
      var inside := Visited(referenced, path, entry.tree, w);
      OpensMore(inside, open - {path}, open);
      if entry.tree.removal == Removed {
        LogGrows(inside, t, Pruned(path), open);
      } else {
        ErrorsGrow(inside, t, open);
      }
    } else if !Removable(referenced, path, entry.tree) {
      ErrorsGrow(w, t, open);
    } else {
      LogGrows(w, t, if entry.tree.fate == Removed then Unlinked(path) else Missed(path), open);
    }
  }

  // ---------------------------------------------------------- the whole pass

  /** A folder the walk reaches cannot be read. */
  predicate Unreadable(folder: Tree)
    requires folder.Folder?
    decreases folder
  {
    !folder.readable || exists i :: 0 <= i < |folder.children| && UnreadableEntry(folder.children[i])
  }

  predicate UnreadableEntry(entry: Entry)
    decreases entry
  {
    entry.stats && entry.tree.Folder? && Unreadable(entry.tree)
  }

  lemma {:induction false} ThrewIffUnreadable(referenced: set<Path>, dir: Path, folder: Tree, w: Walk)
    requires folder.Folder? && !w.threw
    ensures Visited(referenced, dir, folder, w).threw <==> Unreadable(folder)
    decreases folder, |folder.children| + 1
  {
    hide VisitedFrom;
    if folder.readable {
      FromThrewIff(referenced, dir, folder, 0, w);
    }
  }

  lemma {:induction false} FromThrewIff(referenced: set<Path>, dir: Path, folder: Tree, i: nat, w: Walk)
    requires folder.Folder? && i <= |folder.children| && !w.threw
    ensures VisitedFrom(referenced, dir, folder, i, w).threw <==> exists k ::
        i <= k < |folder.children| && UnreadableEntry(folder.children[k])
    decreases folder, |folder.children| - i
  {
    hide Examined;
    if i < |folder.children| {
      var path, entry := dir + [folder.children[i].name], folder.children[i];
      var mid := VisitedEntry(referenced, path, entry, w);
      assert mid.threw <==> UnreadableEntry(entry) by {
        if entry.stats && entry.tree.Folder? {
          ThrewIffUnreadable(referenced, path, entry.tree, w);
        } else {
          ExaminedGoesOn(referenced, path, entry, w);
        }
      }
      if !mid.threw {
        FromThrewIff(referenced, dir, folder, i + 1, mid);
      }
    }
  }

  lemma ExaminedGoesOn(referenced: set<Path>, path: Path, entry: Entry, w: Walk)
    requires !(entry.stats && entry.tree.Folder?)
    ensures VisitedEntry(referenced, path, entry, w).threw == w.threw
  {
  }

  /** For every document, tree and clock, and a walk that throws too: what is removed is a file the walk reaches,
    * whose path normalizes to one no live reference guards, older than the grace period. Every such file whose
    * removal succeeds is removed when the walk ends by itself. */
  lemma RemovesExactly(doc: Doc, referenced: set<Path>, root: Tree, path: Path)
    requires root.Folder?
    requires forall p :: p in referenced <==> Guarded(doc, p)
    ensures Unlinked(path) in Visited(referenced, [], root, START).log ==> exists file ::
        RemovableAt(doc, root, path, file)
    ensures !Unreadable(root) && (exists file :: RemovableAt(doc, root, path, file)) ==>
              Unlinked(path) in Visited(referenced, [], root, START).log
  {
    hide Visited, FileAt, Normalized, Guarded, Unreadable;
    ThrewIffUnreadable(referenced, [], root, START);
    VisitedIsTrue(referenced, [], root, START);
    var t := Visited(referenced, [], root, START);
    if Unlinked(path) in t.log {
      var k :| 0 <= k < |t.log| && t.log[k] == Unlinked(path);
      assert True(referenced, [], root, t.log[k]);
      var file: Tree :| file.File? && FileAt([], root, path, file) && Removable(referenced, path, file)
          && file.fate == Removed;
      assert RemovableAt(doc, root, path, file);
    }
    if !Unreadable(root) {
      if file :| RemovableAt(doc, root, path, file) {
        VisitedRemoves(referenced, [], root, START, path, file);
      }
    }
  }

  /** The walk reaches the file at the path, may remove it, and can. */
  ghost predicate RemovableAt(doc: Doc, root: Tree, path: Path, file: Tree)
    requires root.Folder?
  {
    && file.File? && FileAt([], root, path, file) && file.fate == Removed
    && Normalized(Scanned(path)).Some? && !Guarded(doc, Normalized(Scanned(path)).value)
    && file.mtime <= file.now - GRACE_MS
  }

  /** A walk that ends by itself syncs, or reports it could not sync, the parent of everything it removed, after
    * removing it; so with no errors reported every removal is durable. What it scanned and neither kept nor
    * deleted are the removals that failed or found nothing; so are they when it throws. */
  lemma EndsSynced(referenced: set<Path>, root: Tree)
    requires root.Folder?
    ensures var t := Visited(referenced, [], root, START);
            && t.scanned - t.kept - t.deleted == Count(t.log)
            && (!Unreadable(root) ==> Pending(t, {}))
            && (!Unreadable(root) && t.errors == [] ==> forall i :: 0 <= i < |t.log| && IsRemoval(t.log[i]) ==>
                  exists j :: i < j < |t.log| && t.log[j] == Synced(Parent(t.log[i].path)))
  {
    hide Visited, Count, Unreadable;
    ThrewIffUnreadable(referenced, [], root, START);
    VisitedExtends(referenced, [], root, START);
    EmptyCount();
    if !Unreadable(root) {
      VisitedPends(referenced, [], root, START, {});
      var none: set<Path> := {};
      assert none - {[]} == none;
    }
  }

  // ---------------------------------------------------------- a walk that throws

  /** Each folder lists a name once. */
  predicate WellNamed(folder: Tree)
    requires folder.Folder?
    decreases folder
  {
    && (forall i, j :: 0 <= i < j < |folder.children| ==> folder.children[i].name != folder.children[j].name)
    && (forall i :: 0 <= i < |folder.children| ==> WellNamedEntry(folder.children[i]))
  }

  predicate WellNamedEntry(entry: Entry)
    decreases entry
  {
    entry.tree.Folder? ==> WellNamed(entry.tree)
  }

  /** The first child whose walk throws. */
  function FirstUnreadable(folder: Tree, i: nat): (at: nat)
    requires folder.Folder? && exists k :: i <= k < |folder.children| && UnreadableEntry(folder.children[k])
    ensures i <= at < |folder.children| && UnreadableEntry(folder.children[at])
    ensures forall k :: i <= k < at ==> !UnreadableEntry(folder.children[k])
    decreases |folder.children| - i
  {
    if UnreadableEntry(folder.children[i]) then i else FirstUnreadable(folder, i + 1)
  }

  /** The folder whose reading throws. */
  function ThrowsAt(dir: Path, folder: Tree): (at: Path)
    requires folder.Folder? && Unreadable(folder)
    ensures dir <= at
    decreases folder
  {
    if !folder.readable then dir
    else
      var child := folder.children[FirstUnreadable(folder, 0)];
      ThrowsAt(dir + [child.name], child.tree)
  }

  /** The folders above [at], from [dir] down: those still being walked. */
  function Above(dir: Path, at: Path): set<Path>
    requires dir <= at
  {
    set n | |dir| <= n < |at| :: at[..n]
  }

  lemma AboveStep(dir: Path, name: Text, at: Path)
    requires dir + [name] <= at
    ensures dir <= at && Above(dir, at) == {dir} + Above(dir + [name], at)
  {
    assert at[..|dir|] == dir;
    forall q ensures q in Above(dir, at) <==> q == dir || q in Above(dir + [name], at) {
      if q in Above(dir, at) && q != dir {
        var n :| |dir| <= n < |at| && q == at[..n];
        assert n != |dir|;
      }
    }
  }

  /** What is removed outside the folders still being walked is synced after it, or reported. */
  lemma {:induction false} ThrownPends(referenced: set<Path>, dir: Path, folder: Tree, w: Walk, open: set<Path>)
    requires folder.Folder? && Pending(w, open) && !w.threw && Unreadable(folder)
    ensures Pending(Visited(referenced, dir, folder, w), open + Above(dir, ThrowsAt(dir, folder)))
    decreases folder, |folder.children| + 1
  {
    hide Pending, VisitedFrom, Above;
    var at := ThrowsAt(dir, folder);
    if folder.readable {
      ThrewIffUnreadable(referenced, dir, folder, w);
      OpensMore(w, open, open + {dir});
      ThrownFromPends(referenced, dir, folder, 0, w, open + {dir});
      AboveStep(dir, folder.children[FirstUnreadable(folder, 0)].name, at);
      OpensMore(VisitedFrom(referenced, dir, folder, 0, w), open + {dir} + Above(dir, at), open + Above(dir, at));
    } else {
      ErrorsGrow(w, w.(threw := true), open);
      OpensMore(w.(threw := true), open, open + Above(dir, at));
    }
  }

  lemma {:induction false} ThrownFromPends(referenced: set<Path>, dir: Path, folder: Tree, i: nat, w: Walk,
      open: set<Path>)
    requires folder.Folder? && folder.readable && Unreadable(folder) && i <= FirstUnreadable(folder, 0)
    requires Pending(w, open) && dir in open && !w.threw
    ensures Pending(VisitedFrom(referenced, dir, folder, i, w), open + Above(dir, ThrowsAt(dir, folder)))
    decreases folder, |folder.children| - i
  {
    hide Pending, Visited, Above, Examined;
    var path, entry := dir + [folder.children[i].name], folder.children[i];
    var mid := VisitedEntry(referenced, path, entry, w);
    assert Parent(path) == dir;
    EntryThrewIff(referenced, path, entry, w);
    if i < FirstUnreadable(folder, 0) {
      EntryPends(referenced, path, entry, w, open);
      ThrownFromPends(referenced, dir, folder, i + 1, mid, open);
    } else {
      ThrownPends(referenced, path, entry.tree, w, open);
      AboveStep(dir, entry.name, ThrowsAt(dir, folder));
      OpensMore(mid, open + Above(path, ThrowsAt(dir, folder)), open + Above(dir, ThrowsAt(dir, folder)));
      assert VisitedFrom(referenced, dir, folder, i, w) == VisitedFrom(referenced, dir, folder, i + 1, mid) == mid;
    }
  }

  lemma EntryThrewIff(referenced: set<Path>, path: Path, entry: Entry, w: Walk)
    requires !w.threw
    ensures VisitedEntry(referenced, path, entry, w).threw <==> UnreadableEntry(entry)
    ensures UnreadableEntry(entry) ==>
        VisitedEntry(referenced, path, entry, w) == Visited(referenced, path, entry.tree, w)
  {
    hide Examined, Visited, Unreadable;
    if entry.stats && entry.tree.Folder? {
      ThrewIffUnreadable(referenced, path, entry.tree, w);
    } else {
      ExaminedGoesOn(referenced, path, entry, w);
    }
  }

  predicate Under(dir: Path, log: seq<Event>, from: nat)
  {
    forall k :: from <= k < |log| ==> dir <= log[k].path
  }

  /** Everything a walk of a folder does is under it. */
  lemma {:induction false} VisitedUnder(referenced: set<Path>, dir: Path, folder: Tree, w: Walk)
    requires folder.Folder?
    ensures w.log <= Visited(referenced, dir, folder, w).log
        && Under(dir, Visited(referenced, dir, folder, w).log, |w.log|)
    decreases folder, |folder.children| + 1
  {
    VisitedExtends(referenced, dir, folder, w);
    if folder.readable {
      FromUnder(referenced, dir, folder, 0, w);
    }
  }

  lemma {:induction false} FromUnder(referenced: set<Path>, dir: Path, folder: Tree, i: nat, w: Walk)
    requires folder.Folder? && i <= |folder.children|
    ensures w.log <= VisitedFrom(referenced, dir, folder, i, w).log
        && Under(dir, VisitedFrom(referenced, dir, folder, i, w).log, |w.log|)
    decreases folder, |folder.children| - i
  {
    hide VisitedEntry;
    if i < |folder.children| && !w.threw {
      var path, entry := dir + [folder.children[i].name], folder.children[i];
      var mid := VisitedEntry(referenced, path, entry, w);
      EntryUnder(referenced, path, entry, w);
      FromUnder(referenced, dir, folder, i + 1, mid);
      var log := VisitedFrom(referenced, dir, folder, i, w).log;
      assert forall k :: |w.log| <= k < |mid.log| ==> log[k] == mid.log[k] && path <= mid.log[k].path;
    }
  }

  lemma {:induction false} EntryUnder(referenced: set<Path>, path: Path, entry: Entry, w: Walk)
    ensures w.log <= VisitedEntry(referenced, path, entry, w).log
        && Under(path, VisitedEntry(referenced, path, entry, w).log, |w.log|)
    decreases entry
  {
    hide Visited, Removable;
    if entry.stats && entry.tree.Folder? {
      VisitedUnder(referenced, path, entry.tree, w);
    }
  }

  predicate Unsynced(dir: Path, at: Path, log: seq<Event>, from: nat)
    requires dir <= at
  {
    forall k :: from <= k < |log| && log[k].path in Above(dir, at) ==> !log[k].Synced? && !log[k].SyncFailed?
  }

  /** A folder still being walked when the walk throws is never synced. */
  lemma {:induction false} ThrownUnsynced(referenced: set<Path>, dir: Path, folder: Tree, w: Walk)
    requires folder.Folder? && WellNamed(folder) && !w.threw && Unreadable(folder)
    ensures Unsynced(dir, ThrowsAt(dir, folder), Visited(referenced, dir, folder, w).log, |w.log|)
    decreases folder, |folder.children| + 1
  {
    hide Above;
    if folder.readable {
      ThrewIffUnreadable(referenced, dir, folder, w);
      ThrownFromUnsynced(referenced, dir, folder, 0, w);
    }
  }

  lemma {:induction false} ThrownFromUnsynced(referenced: set<Path>, dir: Path, folder: Tree, i: nat, w: Walk)
    requires folder.Folder? && WellNamed(folder) && folder.readable && Unreadable(folder)
        && i <= FirstUnreadable(folder, 0) && !w.threw
    ensures Unsynced(dir, ThrowsAt(dir, folder), VisitedFrom(referenced, dir, folder, i, w).log, |w.log|)
    decreases folder, |folder.children| - i
  {
    hide Visited, VisitedEntry, Above;
    var first, at := FirstUnreadable(folder, 0), ThrowsAt(dir, folder);
    var path, entry := dir + [folder.children[i].name], folder.children[i];
    var mid := VisitedEntry(referenced, path, entry, w);
    EntryThrewIff(referenced, path, entry, w);
    EntryUnder(referenced, path, entry, w);
    AboveStep(dir, folder.children[first].name, at);
    if i < first {
      ThrownFromUnsynced(referenced, dir, folder, i + 1, mid);
      FromUnder(referenced, dir, folder, i + 1, mid);
      var log := VisitedFrom(referenced, dir, folder, i, w).log;
      forall k | |w.log| <= k < |mid.log| ensures log[k].path !in Above(dir, at) {
        assert log[k] == mid.log[k] && path <= log[k].path;
        Elsewhere(dir, folder.children[i].name, folder.children[first].name, log[k].path, at);
      }
    } else {
      assert WellNamedEntry(entry);
      ThrownUnsynced(referenced, path, entry.tree, w);
      assert VisitedFrom(referenced, dir, folder, i, w) == VisitedFrom(referenced, dir, folder, i + 1, mid) == mid;
      forall k | |w.log| <= k < |mid.log| ensures mid.log[k].path != dir {
        assert |path| <= |mid.log[k].path|;
      }
    }
  }

  lemma Elsewhere(dir: Path, name: Text, other: Text, path: Path, at: Path)
    requires dir + [name] <= path && dir + [other] <= at && name != other
    ensures path !in Above(dir, at)
  {
    assert path[|dir|] == name && at[|dir|] == other;
    forall n | |dir| <= n < |at| ensures at[..n] != path {
      if n > |dir| {
        assert at[..n][|dir|] == other;
      }
    }
  }

  /** A walk that throws leaves unsynced exactly what it removed from the folders above the one it could not read. */
  lemma ThrowLeavesUnsynced(referenced: set<Path>, root: Tree, i: nat)
    requires root.Folder? && WellNamed(root) && Unreadable(root)
    requires var log := Visited(referenced, [], root, START).log; i < |log| && IsRemoval(log[i])
    ensures var log := Visited(referenced, [], root, START).log;
            var parent := Parent(log[i].path);
            parent in Above([], ThrowsAt([], root)) <==> forall j :: i < j < |log| ==>
                log[j] !in {Synced(parent), SyncFailed(parent)}
  {
    hide Visited, Above, ThrowsAt, WellNamed, Unreadable;
    ThrownPends(referenced, [], root, START, {});
    ThrownUnsynced(referenced, [], root, START);
  }

  lemma EmptyCount()
    ensures Count([]) == 0
  {
  }

  /** An unreadable folder throws out of the whole walk, past the trailing sync of a folder that already lost a file. */
  lemma UnreadableFolderLosesSync(referenced: set<Path>, a: Text, b: Text, file: Tree, inner: Tree)
    requires file.File? && file.fate == Removed && Removable(referenced, [a], file)
    requires inner.Folder? && !inner.readable
    ensures var root := Folder(true, [Entry(a, true, file), Entry(b, true, inner)], Absent, true);
            var t := Visited(referenced, [], root, START);
            t.threw && t.log == [Unlinked([a])]
  {
    hide Removable;
    var root := Folder(true, [Entry(a, true, file), Entry(b, true, inner)], Absent, true);
    assert [] + [a] == [a] && [] + [b] == [b];
    var one := Examined(referenced, [a], file, START);
    var two := one.(threw := true);
    assert one.log == [Unlinked([a])];
    assert VisitedEntry(referenced, [a], root.children[0], START) == one;
    assert Visited(referenced, [b], inner, one) == two;
    assert VisitedEntry(referenced, [b], root.children[1], one) == two;
    assert VisitedFrom(referenced, [], root, 2, two) == two;
    assert VisitedFrom(referenced, [], root, 1, one) == two;
    assert VisitedFrom(referenced, [], root, 0, START) == two;
  }

  /** `garbageCollectOrphanAttachments` on an existing attachments folder. */
  method GarbageCollect(doc: Doc, root: Tree) returns (gc: Gc, threw: bool)
    requires root.Folder?
    ensures fresh(gc) && (forall p :: p in gc.referenced <==> Guarded(doc, p))
    ensures gc.View(threw) == Visited(gc.referenced, [], root, START)
  {
    var referenced := CollectReferences(doc);
    gc := new Gc(referenced);
    threw := gc.Visit([], root);
  }
}
