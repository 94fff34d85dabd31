/** The cloud server's document caches: parsed documents, trusted files and metadata, each bounded, keyed by file and
  * believed only while the file's stat identity is the one remembered. */
module DataCache {
  import opened Lru
  import opened Wrappers

  datatype Identity = Identity(ino: int, size: int, mtimeMs: int, ctimeMs: int)

  /** A document's value. */
  type Content = seq<int>

  const DEFAULT: Content := []

  /** A stored file: its identity, and what its bytes parse to, None when they do not. */
  datatype File = File(identity: Identity, content: Option<Content>)

  /** A document in memory, which its holder may change. */
  class Document {
    var content: Content

    constructor (content: Content)
      ensures this.content == content
    {
      this.content := content;
    }
  }

  datatype Parsed = Parsed(identity: Identity, data: Document)

  /** What one call meets: whether the first stat, existsSync and the later stat answer truly, and whether the
    * clones on the way out and on the way in succeed. */
  datatype Luck = Luck(stat: bool, exist: bool, restat: bool, cloneOut: bool, cloneIn: bool)

  datatype WriteFate = Written | FailsBefore | FailsAfter

  class Server {
    const parsed: Cache<Parsed>
    const validated: Cache<Identity>
    const metadata: Cache<Identity>
    var disk: map<string, File>
    /** Every file that was ever on the disk, by path and identity. */
    var seen: map<(string, Identity), Option<Content>>
    /** The files remembered as validated. */
    ghost var vouched: set<(string, Identity)>

    ghost function Caches(): set<object>
    {
      {parsed as object, validated as object, metadata as object}
    }

    ghost function CachedDocs(): set<Document>
      reads parsed
    {
      set slot | slot in parsed.slots :: slot.entry.data
    }

    /** The caches are in order, and no identity of a path ever stood for two contents. */
    ghost predicate Valid()
      reads this, Caches()
    {
      && parsed.Valid() && validated.Valid() && metadata.Valid()
      && (validated as object) != (metadata as object)
      && "" !in disk
      && (forall path :: path in disk ==>
          (path, disk[path].identity) in seen && seen[(path, disk[path].identity)] == disk[path].content)
      && (forall path :: validated.At(path).Some? ==> (path, validated.At(path).value) in vouched)
      && (forall entry :: entry in vouched ==> entry in seen)
    }

    /** Every cached document is what its file held under the remembered identity. */
    ghost predicate Sound()
      reads this, parsed, CachedDocs()
    {
      forall path :: parsed.At(path).Some? ==> Backed(path, parsed.At(path).value.identity, parsed.At(path).value.data)
    }

    ghost predicate Backed(path: string, identity: Identity, data: Document)
      reads this, data
    {
      (path, identity) in seen && seen[(path, identity)] == Some(data.content)
    }

    ghost predicate Hit(path: string, luck: Luck)
      reads this, parsed
    {
      && luck.stat && path in disk && parsed.At(path).Some? && parsed.At(path).value.identity == disk[path].identity
      && luck.cloneOut
    }

    /** What an uncached read for a write finds: a missing document is a fresh one, a broken one is unreadable. */
    function Uncached(path: string, exist: bool): Option<Content>
      reads this
    {
      if path !in disk || !exist then Some(DEFAULT) else disk[path].content
    }

    /** The path's entry is of the file as it is, with the content; or, without an identity or a copy, there is none. */
    ghost predicate Remembered(path: string, content: Content, luck: Luck)
      reads this, parsed, CachedDocs()
    {
      if path in disk && luck.restat && luck.cloneIn
      then parsed.At(path).Some? && parsed.At(path).value.identity == disk[path].identity
          && HasContent(parsed.At(path).value.data, content)
      else parsed.At(path) == None
    }

    ghost predicate HasContent(data: Document, content: Content)
      reads data
    {
      data.content == content
    }

    /** Remembering [content] for the path would put under its file's identity what that file does not hold. */
    ghost predicate Poisons(path: string, content: Content, luck: Luck)
      reads this
    {
      path in disk && luck.restat && luck.cloneIn && disk[path].content != Some(content)
    }

    constructor ()
      ensures Valid() && Sound() && disk == map[] && seen == map[] && fresh(Caches()) && CachedDocs() == {}
    {
      parsed := new Cache<Parsed>();
      validated := new Cache<Identity>();
      metadata := new Cache<Identity>();
      disk, seen, vouched := map[], map[], {};
    }

    method GetIdentity(path: string, works: bool) returns (identity: Option<Identity>)
      ensures identity == if works && path in disk then Some(disk[path].identity) else None
    {
      identity := if works && path in disk then Some(disk[path].identity) else None;
    }

    method TryClone(data: Document, works: bool) returns (copy: Document?)
      ensures copy != null <==> works
      ensures copy != null ==> fresh(copy) && copy.content == data.content
    {
      if works {
        copy := new Document(data.content);
      } else {
        copy := null;
      }
    }

    method Forget(path: string)
      requires Valid()
      modifies parsed
      ensures Valid() && CachedDocs() <= old(CachedDocs())
      ensures forall other :: parsed.At(other) == if other == path then None else old(parsed.At(other))
    {
      parsed.Delete(path);
    }

    method Keep(path: string, entry: Parsed)
      requires Valid() && path != ""
      modifies parsed
      ensures Valid() && CachedDocs() <= old(CachedDocs()) + {entry.data}
      ensures parsed.At(path) == Some(entry)
      ensures forall other :: other == path || parsed.At(other) == old(parsed.At(other)) || parsed.At(other) == None
    {
      hide Find, Newest, Recency, Distinct;
      parsed.Insert(path, entry);
    }

    /** Caches a copy of the document under the file's identity, or forgets the file. */
    method RememberParsed(path: string, data: Document, luck: Luck)
      requires Valid()
      modifies parsed
      ensures Valid() && fresh(CachedDocs() - old(CachedDocs())) && Remembered(path, data.content, luck)
      ensures old(Sound()) ==> (Sound() <==> !Poisons(path, data.content, luck))
    {
      hide Find, Newest, Recency, Distinct;
      var identity := GetIdentity(path, luck.restat);
      if identity == None {
        Forget(path);
        return;
      }
      var copy := TryClone(data, luck.cloneIn);
      if copy == null {
        Forget(path);
        return;
      }
      Keep(path, Parsed(identity.value, copy));
      assert HasContent(copy, data.content);
      assert Sound() ==> Backed(path, identity.value, copy);
    }

    /** A hit: a copy of the cached document, when its identity is still the file's. */
    method LoadCached(path: string, luck: Luck) returns (data: Document?)
      requires Valid()
      modifies parsed
      ensures Valid() && (old(Sound()) ==> Sound()) && CachedDocs() <= old(CachedDocs())
      ensures data != null <==> old(Hit(path, luck))
      ensures data != null ==> fresh(data) && data.content == old(parsed.At(path).value.data.content)
      ensures data != null && old(Sound()) ==> Some(data.content) == disk[path].content
    {
      hide Find, Newest, Recency, Distinct;
      var identity := GetIdentity(path, luck.stat);
      var cached := parsed.Get(path);
      if cached.Some? && identity == Some(cached.value.identity) {
        assert Sound() ==> Backed(path, cached.value.identity, cached.value.data);
        data := TryClone(cached.value.data, luck.cloneOut);
        if data != null {
          Touch(path, cached.value);
        } else {
          Forget(path);
        }
        return;
      }
      data := null;
    }

    /** A hit puts its entry last. */
    method Touch(path: string, entry: Parsed)
      requires Valid() && path != "" && parsed.At(path) == Some(entry)
      modifies parsed
      ensures Valid() && CachedDocs() <= old(CachedDocs())
      ensures forall other :: parsed.At(other) == old(parsed.At(other))
    {
      FindIsSlot(parsed.slots, path);
      parsed.Promote(path, entry);
    }

    /** `loadAppDataForWrite`: null when the document is there and cannot be read. */
    method LoadForWrite(path: string, luck: Luck) returns (data: Document?)
      requires Valid()
      modifies parsed
      ensures Valid() && fresh(CachedDocs() - old(CachedDocs()))
      ensures data != null ==> fresh(data) && data !in CachedDocs()
      ensures var answer := if data == null then None else Some(data.content);
              answer == if old(Hit(path, luck)) then Some(old(parsed.At(path).value.data.content))
                        else old(Uncached(path, luck.exist))
      ensures old(Sound()) && old(Hit(path, luck)) ==> Some(data.content) == disk[path].content
      ensures old(Sound()) ==> (Sound() <==> old(Hit(path, luck)) || data == null || !Poisons(path, data.content, luck))
    {
      hide Find, Newest, Recency, Distinct;
      data := LoadCached(path, luck);
      if data != null {
        return;
      }
      var result := Uncached(path, luck.exist);
      if result.None? {
        return null;
      }
      data := new Document(result.value);
      RememberParsed(path, data, luck);
    }

    /** `loadAppData`: an unreadable document reads as a fresh one. */
    method Load(path: string, luck: Luck) returns (data: Document)
      requires Valid()
      modifies parsed
      ensures Valid() && fresh(CachedDocs() - old(CachedDocs())) && fresh(data) && data !in CachedDocs()
      ensures
        var answer := if old(Hit(path, luck)) then Some(old(parsed.At(path).value.data.content))
                      else old(Uncached(path, luck.exist));
        data.content == if answer.Some? then answer.value else DEFAULT
      ensures old(Hit(path, luck)) || Remembered(path, data.content, luck)
      ensures old(Sound()) ==> (Sound() <==> old(Hit(path, luck)) || !Poisons(path, data.content, luck))
    {
      hide Find, Newest, Recency, Distinct;
      var cached := LoadCached(path, luck);
      if cached != null {
        return cached;
      }
      var result := Uncached(path, luck.exist);
      data := new Document(if result.Some? then result.value else DEFAULT);
      RememberParsed(path, data, luck);
    }

    method RememberValidated(path: string, works: bool)
      requires Valid()
      modifies this`vouched, validated
      ensures Valid() && old(vouched) <= vouched
      ensures vouched == old(vouched) + if works && path in disk then {(path, disk[path].identity)} else {}
    {
      hide Find, Newest, Recency, Distinct;
      var identity := GetIdentity(path, works);
      if identity.Some? {
        vouched := vouched + {(path, identity.value)};
        validated.Insert(path, identity.value);
      } else {
        validated.Delete(path);
      }
    }

    /** Trusted files hold what was remembered as validated: the identity that was vouched for is the file's. */
    method IsTrusted(path: string, works: bool) returns (trusted: bool)
      requires Valid()
      modifies validated
      ensures Valid()
      ensures trusted ==>
          path in disk && (path, disk[path].identity) in vouched
          && disk[path].content == seen[(path, disk[path].identity)]
      ensures trusted <==> works && path in disk && old(validated.At(path)) == Some(disk[path].identity)
    {
      hide Find, Newest, Recency, Distinct;
      var cached := validated.Get(path);
      var identity := GetIdentity(path, works);
      if cached.Some? && identity == cached {
        FindIsSlot(validated.slots, path);
        validated.Promote(path, cached.value);
        return true;
      }
      if cached.Some? {
        validated.Delete(path);
      }
      trusted := false;
    }

    /** The metadata of the file as it is now, cached or not. */
    method GetMetadata(path: string) returns (r: Option<Identity>)
      requires Valid()
      modifies metadata
      ensures Valid()
      ensures r == if path in disk then Some(disk[path].identity) else None
    {
      hide Find, Newest, Recency, Distinct;
      var stat := GetIdentity(path, true);
      if stat.None? {
        return None;
      }
      var cached := metadata.Get(path);
      if cached == stat {
        FindIsSlot(metadata.slots, path);
        metadata.Promote(path, stat.value);
        return cached;
      }
      if cached.Some? {
        metadata.Delete(path);
      }
      metadata.Insert(path, stat.value);
      r := stat;
    }

    /** What the file system does: an identity of a path never stands for two contents. */
    predicate Renewable(path: string, file: File)
      reads this
    {
      path != "" && ((path, file.identity) in seen ==> seen[(path, file.identity)] == file.content)
    }

    /** Another file takes the path, here or from another process; its identity is new for other contents. */
    method Replace(path: string, file: File)
      requires Valid() && Sound() && Renewable(path, file)
      modifies this`disk, this`seen
      ensures Valid() && Sound() && disk == old(disk)[path := file]
          && seen == old(seen)[(path, file.identity) := file.content]
    {
      hide Find, Newest, Recency, Distinct;
      disk := disk[path := file];
      seen := seen[(path, file.identity) := file.content];
    }

    method Vanish(path: string)
      requires Valid() && Sound()
      modifies this`disk
      ensures Valid() && Sound() && disk == old(disk) - {path}
    {
      hide Find, Newest, Recency, Distinct;
      disk := disk - {path};
    }

    /** `writeCloudData`: the written document survives its serialization.
      * False when the write throws, landed or not.
      */
    method Write(path: string, data: Document, identity: Identity, fate: WriteFate, luck: Luck) returns (ok: bool)
      requires Valid() && Sound() && Renewable(path, File(identity, Some(data.content)))
      modifies this`disk, this`seen, this`vouched, parsed, validated
      ensures Valid() && Sound() && fresh(CachedDocs() - old(CachedDocs())) && (ok <==> fate == Written)
      ensures disk == if fate == FailsBefore then old(disk) else old(disk)[path := File(identity, Some(data.content))]
      ensures seen == if fate == FailsBefore then old(seen) else old(seen)[(path, identity) := Some(data.content)]
    {
      hide Find, Newest, Recency, Distinct;
      if fate != FailsBefore {
        Replace(path, File(identity, Some(data.content)));
      }
      if fate != Written {
        Forget(path);
        return false;
      }
      RememberParsed(path, data, luck);
      RememberValidated(path, luck.restat);
      ok := true;
    }
  }

  // ------------------------------------------------------------------- claims

  /** Whatever else fails, as long as existsSync is right, a load for a write from a sound cache answers as an
    * uncached read and leaves the cache sound. */
  method LoadsAsUncached(server: Server, path: string, luck: Luck) returns (answer: Option<Content>)
    requires server.Valid() && server.Sound() && luck.exist
    modifies server.parsed
    ensures server.Valid() && server.Sound()
    ensures answer == server.Uncached(path, true)
  {
    var data := server.LoadForWrite(path, luck);
    answer := if data == null then None else Some(data.content);
  }

  /** One event of a run: a load for a write; a change of a document some caller holds; a write of one; another
    * process's file; a file's removal; and the two other caches' reads. */
  datatype Step =
    | Load(path: string, luck: Luck)
    | Change(held: nat, content: Content)
    | Write(path: string, held: nat, identity: Identity, fate: WriteFate, luck: Luck)
    | Replace(path: string, file: File)
    | Vanish(path: string)
    | Trust(path: string, works: bool)
    | Metadata(path: string)

  datatype Reply = Loaded(content: Option<Content>) | Stat(identity: Option<Identity>)

  /** A server without caches: its files, every file that was ever there, and the documents its callers hold, which
    * are values and so nobody else's. */
  datatype Plain = Plain(disk: map<string, File>, seen: map<(string, Identity), Option<Content>>, held: seq<Content>)
  {
    predicate Renewable(path: string, file: File)
    {
      path != "" && ((path, file.identity) in seen ==> seen[(path, file.identity)] == file.content)
    }

    function Put(path: string, file: File): Plain
    {
      this.(disk := disk[path := file], seen := seen[(path, file.identity) := file.content])
    }

    function Read(path: string): Option<Content>
    {
      if path in disk then disk[path].content else Some(DEFAULT)
    }

    /** Steps that no file system or caller can take are skipped. */
    function After(step: Step): Plain
    {
      match step
      case Load(path, _) => if Read(path).Some? then this.(held := held + [Read(path).value]) else this
      case Change(k, content) => if k < |held| then this.(held := held[k := content]) else this
      case Write(path, k, identity, fate, _) =>
        if k < |held| && Renewable(path, File(identity, Some(held[k]))) && fate != FailsBefore then
          Put(path, File(identity, Some(held[k])))
        else
          this
      case Replace(path, file) => if Renewable(path, file) then Put(path, file) else this
      case Vanish(path) => this.(disk := disk - {path})
      case Trust(_, _) => this
      case Metadata(_) => this
    }

    function Replies(step: Step): seq<Reply>
    {
      match step
      case Load(path, _) => [Loaded(Read(path))]
      case Metadata(path) => [Stat(if path in disk then Some(disk[path].identity) else None)]
      case _ => []
    }

    function Served(steps: seq<Step>): (Plain, seq<Reply>)
      decreases |steps|
    {
      if steps == [] then (this, [])
      else
        var (end, replies) := After(steps[0]).Served(steps[1..]);
        (end, Replies(steps[0]) + replies)
    }
  }

  predicate Replaces(step: Step, path: string)
  {
    (step.Write? || step.Replace? || step.Vanish?) && step.path == path
  }

  lemma {:induction false} StaysUntilReplaced(w: Plain, steps: seq<Step>, path: string)
    requires forall step :: step in steps ==> !Replaces(step, path)
    ensures var t := w.Served(steps).0;
            (path in w.disk <==> path in t.disk) && (path in w.disk ==> t.disk[path] == w.disk[path])
    decreases |steps|
  {
    if steps != [] {
      assert !Replaces(steps[0], path);
      StaysUntilReplaced(w.After(steps[0]), steps[1..], path);
    }
  }

  /** What a write that landed stored, even one that then failed, every later load answers until the path is written,
    * replaced or removed; a write that failed before changes nothing. */
  lemma WrittenIsRead(w: Plain, write: Step, after: seq<Step>, luck: Luck)
    requires write.Write? && write.held < |w.held|
    requires w.Renewable(write.path, File(write.identity, Some(w.held[write.held])))
    requires forall step :: step in after ==> !Replaces(step, write.path)
    ensures write.fate == FailsBefore ==> w.After(write) == w
    ensures write.fate != FailsBefore ==>
              w.After(write).Served(after).0.Replies(Load(write.path, luck)) == [Loaded(Some(w.held[write.held]))]
  {
    hide Plain.Served;
    StaysUntilReplaced(w.After(write), after, write.path);
  }

  /** A removed document reads as an empty one, one that does not parse as unreadable, until the path is written. */
  lemma RemovedIsRead(w: Plain, path: string, file: File, after: seq<Step>, luck: Luck)
    requires w.Renewable(path, file) && forall step :: step in after ==> !Replaces(step, path)
    ensures w.After(Vanish(path)).Served(after).0.Replies(Load(path, luck)) == [Loaded(Some([]))]
    ensures file.content == None ==>
              w.After(Replace(path, file)).Served(after).0.Replies(Load(path, luck)) == [Loaded(None)]
  {
    hide Plain.Served;
    StaysUntilReplaced(w.After(Vanish(path)), after, path);
    StaysUntilReplaced(w.After(Replace(path, file)), after, path);
  }

  ghost function ViewOf(server: Server, held: seq<Document>): Plain
    reads server, held
  {
    Plain(server.disk, server.seen, ContentsOf(held))
  }

  ghost function ContentsOf(held: seq<Document>): (contents: seq<Content>)
    reads held
    ensures |contents| == |held| && forall i :: 0 <= i < |held| ==> contents[i] == held[i].content
  {
    seq(|held|, i requires 0 <= i < |held| reads held => held[i].content)
  }

  /** The documents are the callers' alone: no two are one, and no cache holds one. */
  ghost predicate Theirs(server: Server, held: seq<Document>)
    reads server, server.parsed
  {
    (forall d :: d in held ==> d !in server.CachedDocs()) && forall i, j :: 0 <= i < j < |held| ==> held[i] != held[j]
  }

  /** A caller holds what it was answered. */
  method Hold(server: Server, mine: seq<Document>, path: string, luck: Luck)
    returns (held: seq<Document>, content: Option<Content>)
    requires server.Valid() && server.Sound() && Theirs(server, mine) && luck.exist
    modifies server.parsed
    ensures server.Valid() && server.Sound() && Theirs(server, held)
    ensures forall k :: 0 <= k < |held| ==> held[k] in mine || fresh(held[k])
    ensures ViewOf(server, held) == old(ViewOf(server, mine)).After(Load(path, luck))
    ensures content == old(ViewOf(server, mine)).Read(path)
  {
    hide Find, Newest, Recency, Distinct, Server.Valid;
    held := mine;
    var data := server.LoadForWrite(path, luck);
    content := if data == null then None else Some(data.content);
    if data != null {
      held := held + [data];
    }
  }

  method ChangeHeld(server: Server, held: seq<Document>, k: nat, content: Content)
    requires server.Valid() && server.Sound() && Theirs(server, held) && k < |held|
    modifies held[k]
    ensures server.Valid() && server.Sound() && Theirs(server, held)
    ensures ContentsOf(held) == old(ContentsOf(held))[k := content]
  {
    hide Find, Newest, Recency, Distinct, Server.Backed;
    assert held[k] in held;
    held[k].content := content;
  }

  /** One step of a server with caches is that step of one without. */
  method Take(server: Server, mine: seq<Document>, step: Step) returns (held: seq<Document>, replies: seq<Reply>)
    requires server.Valid() && server.Sound() && Theirs(server, mine)
    requires step.Load? ==> step.luck.exist
    modifies server, server.parsed, server.validated, server.metadata, mine
    ensures server.Valid() && server.Sound() && Theirs(server, held)
    ensures forall k :: 0 <= k < |held| ==> held[k] in mine || fresh(held[k])
    ensures ViewOf(server, held) == old(ViewOf(server, mine)).After(step)
    ensures replies == old(ViewOf(server, mine)).Replies(step)
  {
    hide Find, Newest, Recency, Distinct, Server.Poisons;
    held, replies := mine, [];
    match step {
      case Load(path, luck) =>
        var content;
        held, content := Hold(server, mine, path, luck);
        replies := [Loaded(content)];
      case Change(k, content) =>
        if k < |held| {
          ChangeHeld(server, held, k, content);
        }
      case Write(path, k, identity, fate, luck) =>
        if k < |held| && server.Renewable(path, File(identity, Some(held[k].content))) {
          var ok := server.Write(path, held[k], identity, fate, luck);
        }
      case Replace(path, file) =>
        if server.Renewable(path, file) {
          server.Replace(path, file);
        }
      case Vanish(path) => server.Vanish(path);
      case Trust(path, works) => var trusted := server.IsTrusted(path, works);
      case Metadata(path) =>
        var identity := server.GetMetadata(path);
        replies := [Stat(identity)];
    }
  }

  /** Over any run of loads, writes that succeed or fail before or after they land, replacements, removals and the
    * evictions they cause, with callers changing any document they hold at any time: the server answers what one
    * without caches would, and leaves the same files and the same documents with its callers. existsSync answers
    * truly in the loads; stats and clones may fail. */
  method Run(server: Server, mine: seq<Document>, steps: seq<Step>) returns (held: seq<Document>, replies: seq<Reply>)
    requires server.Valid() && server.Sound() && Theirs(server, mine)
    requires forall step :: step in steps && step.Load? ==> step.luck.exist
    modifies server, server.parsed, server.validated, server.metadata, mine
    ensures server.Valid() && server.Sound() && Theirs(server, held)
    ensures (ViewOf(server, held), replies) == old(ViewOf(server, mine)).Served(steps)
  {
    hide Find, Newest, Recency, Distinct, Server.Sound, Server.Valid, Theirs, ViewOf, Plain.After, Plain.Replies;
    held, replies := mine, [];
    ghost var start := ViewOf(server, mine);
    assert steps[0..] == steps && [] + start.Served(steps).1 == start.Served(steps).1;
    for i := 0 to |steps|
      invariant server.Valid() && server.Sound() && Theirs(server, held)
      invariant forall k :: 0 <= k < |held| ==> held[k] in mine || fresh(held[k])
      invariant var (end, rest) := ViewOf(server, held).Served(steps[i..]); start.Served(steps) == (end, replies + rest)
    {
      assert steps[i] in steps;
      ServedOne(ViewOf(server, held), steps, i);
      var more;
      held, more := Take(server, held, steps[i]);
      ghost var rest := ViewOf(server, held).Served(steps[i + 1..]).1;
      assert replies + (more + rest) == (replies + more) + rest;
      replies := replies + more;
    }
    ServedNone(ViewOf(server, held), steps);
    assert replies + [] == replies;
  }

  lemma ServedOne(w: Plain, steps: seq<Step>, i: nat)
    requires i < |steps|
    ensures var (end, replies) := w.After(steps[i]).Served(steps[i + 1..]);
            w.Served(steps[i..]) == (end, w.Replies(steps[i]) + replies)
  {
    assert steps[i..][1..] == steps[i + 1..];
  }

  lemma ServedNone(w: Plain, steps: seq<Step>)
    ensures w.Served(steps[|steps|..]) == (w, [])
  {
  }

  /** The same from a new server, where nothing is cached and nothing is on the disk. */
  method RunFromStart(steps: seq<Step>) returns (replies: seq<Reply>)
    requires forall step :: step in steps && step.Load? ==> step.luck.exist
    ensures replies == Plain(map[], map[], []).Served(steps).1
  {
    hide Find, Newest, Recency, Distinct;
    var server := new Server();
    var held;
    held, replies := Run(server, [], steps);
  }

  /** An unreadable document, read once through `loadAppData`, is from then on answered to writers as an empty one,
    * where an uncached read says unreadable. */
  method UnreadableTurnsEmpty(path: string, identity: Identity)
    returns (uncached: Option<Content>, before: Option<Content>, after: Option<Content>)
    requires path != ""
    ensures uncached == before == None && after == Some(DEFAULT)
  {
    hide Find, Newest, Recency, Distinct;
    var server := new Server();
    server.Replace(path, File(identity, None));
    var luck := Luck(true, true, true, true, true);
    uncached := server.Uncached(path, true);
    before := LoadsAsUncached(server, path, luck);
    var read := server.Load(path, luck);
    var again := server.LoadForWrite(path, luck);
    after := if again == null then None else Some(again.content);
  }
}
