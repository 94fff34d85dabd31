/** What the orphan collector reports of its pass: how many files it met, kept and deleted, and what failed. */
module AttachmentGcReport {
  import opened AttachmentGc
  import opened AttachmentPaths
  import opened Wrappers

  /** A file the walk meets. */
  datatype Met = Met(path: Path, file: Tree)

  /** The files the walk meets, in order, up to the folder it cannot read. */
  function MetIn(dir: Path, folder: Tree): (met: seq<Met>)
    requires folder.Folder?
    ensures forall m :: m in met ==> m.file.File?
    decreases folder, |folder.children| + 1
  {
    if folder.readable then MetFrom(dir, folder, 0) else []
  }

  function MetFrom(dir: Path, folder: Tree, i: nat): (met: seq<Met>)
    requires folder.Folder? && i <= |folder.children|
    ensures forall m :: m in met ==> m.file.File?
    decreases folder, |folder.children| - i
  {
    if i == |folder.children| then []
    else
      var entry := folder.children[i];
      MetAt(dir + [entry.name], entry) + if UnreadableEntry(entry) then [] else MetFrom(dir, folder, i + 1)
  }

  function MetAt(path: Path, entry: Entry): (met: seq<Met>)
    ensures forall m :: m in met ==> m.file.File?
    decreases entry
  {
    if !entry.stats then [] else if entry.tree.File? then [Met(path, entry.tree)] else MetIn(path, entry.tree)
  }

  /** In a tree it can read, those are the files whose every entry above answers its stat. */
  lemma {:induction false} MetIsFileAt(dir: Path, folder: Tree, path: Path, file: Tree)
    requires folder.Folder? && !Unreadable(folder)
    ensures Met(path, file) in MetIn(dir, folder) <==> file.File? && FileAt(dir, folder, path, file)
    decreases folder, |folder.children| + 1
  {
    MetFromIs(dir, folder, 0, path, file);
  }

  lemma {:induction false} MetFromIs(dir: Path, folder: Tree, i: nat, path: Path, file: Tree)
    requires folder.Folder? && !Unreadable(folder) && i <= |folder.children|
    ensures Met(path, file) in MetFrom(dir, folder, i) <==>
            file.File? && exists k ::
              i <= k < |folder.children| && EntryAt(dir + [folder.children[k].name], folder.children[k], path, file)
    decreases folder, |folder.children| - i
  {
    hide EntryAt;
    if i < |folder.children| {
      var entry := folder.children[i];
      MetFromIs(dir, folder, i + 1, path, file);
      MetAtIs(dir + [entry.name], entry, path, file);
    }
  }

  lemma {:induction false} MetAtIs(at: Path, entry: Entry, path: Path, file: Tree)
    requires !UnreadableEntry(entry)
    ensures Met(path, file) in MetAt(at, entry) <==> file.File? && EntryAt(at, entry, path, file)
    decreases entry
  {
    if entry.stats && entry.tree.Folder? {
      MetIsFileAt(at, entry.tree, path, file);
    }
  }

  /** How many of the files met the walk must leave: guarded, not normal, or too recent. */
  function Left(referenced: set<Path>, met: seq<Met>): nat
    requires forall m :: m in met ==> m.file.File?
  {
    if met == [] then 0
    else
      var m := met[0];
      var normal := Normalized(Scanned(m.path));
      var rest := Left(referenced, met[1..]);
      if normal.Some? && normal.value !in referenced && m.file.mtime <= m.file.now - GRACE_MS then rest else rest + 1
  }

  lemma {:induction false} LeftOfBoth(referenced: set<Path>, a: seq<Met>, b: seq<Met>)
    requires (forall m :: m in a ==> m.file.File?) && (forall m :: m in b ==> m.file.File?)
    ensures Left(referenced, a + b) == Left(referenced, a) + Left(referenced, b)
  {
    hide Normalized, Scanned;
    if a == [] {
      assert a + b == b;
    } else {
      LeftOfBoth(referenced, a[1..], b);
      assert (a + b)[1..] == a[1..] + b;
    }
  }

  /** How many files the log says were removed. */
  function Removals(log: seq<Event>): nat
  {
    if log == [] then 0 else Removals(log[..|log| - 1]) + if log[|log| - 1].Unlinked? then 1 else 0
  }

  lemma OneMoreEvent(log: seq<Event>, e: Event)
    ensures Removals(log + [e]) == Removals(log) + if e.Unlinked? then 1 else 0
  {
    assert (log + [e])[..|log|] == log;
  }

  /** What a walk from [w] to [t] that met the files adds to the counts. */
  ghost predicate Counts(referenced: set<Path>, met: seq<Met>, w: Walk, t: Walk)
    requires forall m :: m in met ==> m.file.File?
  {
    && t.scanned == w.scanned + |met| && t.kept == w.kept + Left(referenced, met)
    && t.deleted - Removals(t.log) == w.deleted - Removals(w.log)
  }

  lemma {:induction false} VisitedCounts(referenced: set<Path>, dir: Path, folder: Tree, w: Walk)
    requires folder.Folder? && !w.threw
    ensures Counts(referenced, MetIn(dir, folder), w, Visited(referenced, dir, folder, w))
    decreases folder, |folder.children| + 1
  {
    hide Left;
    NoneLeft(referenced);
    if folder.readable {
      FromCounts(referenced, dir, folder, 0, w);
      var inside := VisitedFrom(referenced, dir, folder, 0, w);
      OneMoreEvent(inside.log, Synced(dir));
      OneMoreEvent(inside.log, SyncFailed(dir));
    }
  }

  lemma {:induction false} FromCounts(referenced: set<Path>, dir: Path, folder: Tree, i: nat, w: Walk)
    requires folder.Folder? && i <= |folder.children| && !w.threw
    ensures Counts(referenced, MetFrom(dir, folder, i), w, VisitedFrom(referenced, dir, folder, i, w))
    decreases folder, |folder.children| - i
  {
    hide Left, VisitedEntry, MetAt, Removals, UnreadableEntry;
    NoneLeft(referenced);
    if i < |folder.children| {
      var entry := folder.children[i];
      var path := dir + [entry.name];
      var mid := VisitedEntry(referenced, path, entry, w);
      EntryCounts(referenced, path, entry, w);
      EntryThrewIff(referenced, path, entry, w);
      if mid.threw {
        assert VisitedFrom(referenced, dir, folder, i + 1, mid) == mid;
        assert MetAt(path, entry) + [] == MetAt(path, entry);
      } else {
        FromCounts(referenced, dir, folder, i + 1, mid);
        LeftOfBoth(referenced, MetAt(path, entry), MetFrom(dir, folder, i + 1));
      }
    }
  }

  lemma {:induction false} EntryCounts(referenced: set<Path>, path: Path, entry: Entry, w: Walk)
    requires !w.threw
    ensures Counts(referenced, MetAt(path, entry), w, VisitedEntry(referenced, path, entry, w))
    decreases entry
  {
    hide Visited, MetIn, Removals, Normalized, Scanned;
    if entry.stats {
      if entry.tree.Folder? {
        VisitedCounts(referenced, path, entry.tree, w);
        OneMoreEvent(Visited(referenced, path, entry.tree, w).log, Pruned(path));
      } else {
        OneMoreEvent(w.log, Unlinked(path));
        OneMoreEvent(w.log, Missed(path));
        var met := [Met(path, entry.tree)];
        assert met[1..] == [] && MetAt(path, entry) == met;
        assert Left(referenced, met) == if Removable(referenced, path, entry.tree) then 0 else 1;
        assert VisitedEntry(referenced, path, entry, w) == Examined(referenced, path, entry.tree, w);
      }
    }
  }

  lemma NoneLeft(referenced: set<Path>)
    ensures Left(referenced, []) == 0
  {
  }

  lemma EntryThrewIff(referenced: set<Path>, path: Path, entry: Entry, w: Walk)
    requires !w.threw
    ensures VisitedEntry(referenced, path, entry, w).threw <==> UnreadableEntry(entry)
  {
    hide Visited, Unreadable;
    if entry.stats && entry.tree.Folder? {
      ThrewIffUnreadable(referenced, path, entry.tree, w);
    } else {
      ExaminedGoesOn(referenced, path, entry, w);
    }
  }

  // ----------------------------------------------------------------- failures

  /** Something at the path fails: an entry's stat; a removable file's removal, other than by its absence; a folder's
    * removal, other than by its being absent or not empty; a folder's sync. */
  ghost predicate FailsIn(referenced: set<Path>, dir: Path, folder: Tree, path: Path)
    requires folder.Folder?
    decreases folder
  {
    || (path == dir && !folder.syncs)
    || exists i :: 0 <= i < |folder.children|
         && FailsAt(referenced, dir + [folder.children[i].name], folder.children[i], path)
  }

  ghost predicate FailsAt(referenced: set<Path>, at: Path, entry: Entry, path: Path)
    decreases entry
  {
    if !entry.stats then path == at
    else match entry.tree
      case File(mtime, now, fate) =>
        && path == at && fate in {NotEmpty, Failing} && mtime <= now - GRACE_MS
        && Normalized(Scanned(path)).Some? && Normalized(Scanned(path)).value !in referenced
      case Folder(_, _, removal, _) =>
        (path == at && removal == Failing) || FailsIn(referenced, at, entry.tree, path)
  }

  lemma {:induction false} VisitedErrs(referenced: set<Path>, dir: Path, folder: Tree, w: Walk, path: Path)
    requires folder.Folder? && !w.threw
    ensures var t := Visited(referenced, dir, folder, w);
            && (path in t.errors ==> path in w.errors || FailsIn(referenced, dir, folder, path))
            && (!t.threw ==> (path in t.errors <==> path in w.errors || FailsIn(referenced, dir, folder, path)))
    decreases folder, |folder.children| + 1
  {
    hide FailsAt, VisitedFrom;
    if folder.readable {
      FromErrs(referenced, dir, folder, 0, w, path);
    }
  }

  lemma {:induction false} FromErrs(referenced: set<Path>, dir: Path, folder: Tree, i: nat, w: Walk, path: Path)
    requires folder.Folder? && i <= |folder.children| && !w.threw
    ensures var t := VisitedFrom(referenced, dir, folder, i, w);
            var fails := exists k ::
              i <= k < |folder.children|
              && FailsAt(referenced, dir + [folder.children[k].name], folder.children[k], path);
            && (path in t.errors ==> path in w.errors || fails)
            && (!t.threw ==> (path in t.errors <==> path in w.errors || fails))
    decreases folder, |folder.children| - i
  {
    hide FailsAt, VisitedEntry;
    if i < |folder.children| {
      var at, entry := dir + [folder.children[i].name], folder.children[i];
      var mid := VisitedEntry(referenced, at, entry, w);
      EntryErrs(referenced, at, entry, w, path);
      if !mid.threw {
        FromErrs(referenced, dir, folder, i + 1, mid, path);
      }
    }
  }

  lemma {:induction false} EntryErrs(referenced: set<Path>, at: Path, entry: Entry, w: Walk, path: Path)
    requires !w.threw
    ensures var t := VisitedEntry(referenced, at, entry, w);
            && (path in t.errors ==> path in w.errors || FailsAt(referenced, at, entry, path))
            && (!t.threw ==> (path in t.errors <==> path in w.errors || FailsAt(referenced, at, entry, path)))
    decreases entry
  {
    hide Visited, Normalized, Scanned;
    if entry.stats && entry.tree.Folder? {
      VisitedErrs(referenced, at, entry.tree, w, path);
    }
  }

  // ------------------------------------------------------------------ the log

  /** The event happens in a walk of the folder that goes through: a removable file's removal, done or not; a folder's
    * removal; and a sync of every folder, done or not. */
  ghost predicate HappensIn(referenced: set<Path>, dir: Path, folder: Tree, e: Event)
    requires folder.Folder?
    decreases folder
  {
    || e == (if folder.syncs then Synced(dir) else SyncFailed(dir))
    || exists i :: 0 <= i < |folder.children|
         && HappensAt(referenced, dir + [folder.children[i].name], folder.children[i], e)
  }

  ghost predicate HappensAt(referenced: set<Path>, at: Path, entry: Entry, e: Event)
    decreases entry
  {
    entry.stats &&
    match entry.tree
    case File(mtime, now, fate) =>
      && e == (if fate == Removed then Unlinked(at) else Missed(at)) && mtime <= now - GRACE_MS
      && Normalized(Scanned(at)).Some? && Normalized(Scanned(at)).value !in referenced
    case Folder(_, _, removal, _) =>
      (e == Pruned(at) && removal == Removed) || HappensIn(referenced, at, entry.tree, e)
  }

  lemma {:induction false} VisitedLogs(referenced: set<Path>, dir: Path, folder: Tree, w: Walk, e: Event)
    requires folder.Folder? && !w.threw && !Visited(referenced, dir, folder, w).threw
    ensures e in Visited(referenced, dir, folder, w).log <==> e in w.log || HappensIn(referenced, dir, folder, e)
    decreases folder, |folder.children| + 1
  {
    hide HappensAt, VisitedFrom;
    FromLogs(referenced, dir, folder, 0, w, e);
  }

  lemma {:induction false} FromLogs(referenced: set<Path>, dir: Path, folder: Tree, i: nat, w: Walk, e: Event)
    requires folder.Folder? && i <= |folder.children| && !w.threw && !VisitedFrom(referenced, dir, folder, i, w).threw
    ensures e in VisitedFrom(referenced, dir, folder, i, w).log <==>
            e in w.log || exists k ::
              i <= k < |folder.children|
              && HappensAt(referenced, dir + [folder.children[k].name], folder.children[k], e)
    decreases folder, |folder.children| - i
  {
    hide HappensAt, VisitedEntry;
    if i < |folder.children| {
      var at, entry := dir + [folder.children[i].name], folder.children[i];
      var mid := VisitedEntry(referenced, at, entry, w);
      EntryLogs(referenced, at, entry, w, e);
      FromLogs(referenced, dir, folder, i + 1, mid, e);
    }
  }

  lemma {:induction false} EntryLogs(referenced: set<Path>, at: Path, entry: Entry, w: Walk, e: Event)
    requires !w.threw
    ensures !VisitedEntry(referenced, at, entry, w).threw ==>
              (e in VisitedEntry(referenced, at, entry, w).log <==> e in w.log || HappensAt(referenced, at, entry, e))
    decreases entry
  {
    hide Visited, Normalized, Scanned;
    if entry.stats && entry.tree.Folder? && !Visited(referenced, at, entry.tree, w).threw {
      VisitedLogs(referenced, at, entry.tree, w, e);
    }
  }

  /** What a pass that ends by itself does to the file system: the removals of files and folders and the syncs that the
    * tree calls for, all of them and nothing else. */
  lemma DoesExactly(referenced: set<Path>, root: Tree, e: Event)
    requires root.Folder? && !Unreadable(root)
    ensures e in Visited(referenced, [], root, START).log <==> HappensIn(referenced, [], root, e)
  {
    hide Visited, HappensIn, Unreadable;
    ThrewIffUnreadable(referenced, [], root, START);
    VisitedLogs(referenced, [], root, START, e);
  }

  // --------------------------------------------------------------- the report

  /** The report of a pass, on every tree: it counts as scanned the files it met, as kept those it must leave, as
    * deleted those the log says were removed, and reports nothing that did not fail; when it ends by itself it reports
    * whatever failed, so it is answered as a success exactly when nothing did. */
  lemma ReportsExactly(referenced: set<Path>, root: Tree)
    requires root.Folder?
    ensures var t, met := Visited(referenced, [], root, START), MetIn([], root);
            && t.scanned == |met| && t.kept == Left(referenced, met) && t.deleted == Removals(t.log)
            && (forall path :: path in t.errors ==> FailsIn(referenced, [], root, path))
            && (!Unreadable(root) ==>
                  && (forall path :: path in t.errors <==> FailsIn(referenced, [], root, path))
                  && (t.errors == [] <==> forall path :: !FailsIn(referenced, [], root, path)))
  {
    hide Visited, FailsIn, MetIn, Unreadable;
    VisitedCounts(referenced, [], root, START);
    ThrewIffUnreadable(referenced, [], root, START);
    var t := Visited(referenced, [], root, START);
    forall path
      ensures path in t.errors ==> FailsIn(referenced, [], root, path)
      ensures !t.threw ==> (path in t.errors <==> FailsIn(referenced, [], root, path))
    {
      VisitedErrs(referenced, [], root, START, path);
    }
    if !t.threw && t.errors != [] {
      assert t.errors[0] in t.errors;
    }
  }

  /** `handleOrphanAttachmentGcRequest` on a document it can read: the counts, and whether it answers a success; None
    * when the pass throws. */
  method Report(doc: Doc, root: Tree) returns (ok: Option<bool>, deleted: nat, kept: nat, scanned: nat)
    requires root.Folder?
    ensures ok.None? <==> Unreadable(root)
    ensures exists referenced ::
              && (forall p :: p in referenced <==> Guarded(doc, p))
              && scanned == |MetIn([], root)| && kept == Left(referenced, MetIn([], root))
              && deleted == Removals(Visited(referenced, [], root, START).log)
              && (ok.Some? ==> (ok.value <==> forall path :: !FailsIn(referenced, [], root, path)))
  {
    hide Visited, FailsIn, MetIn, Unreadable, Guarded;
    var gc, threw := GarbageCollect(doc, root);
    ReportsExactly(gc.referenced, root);
    ThrewIffUnreadable(gc.referenced, [], root, START);
    ok := if threw then None else Some(gc.errors == []);
    deleted, kept, scanned := gc.deleted, gc.kept, gc.scanned;
    assert Visited(gc.referenced, [], root, START) == gc.View(threw);
  }
}
