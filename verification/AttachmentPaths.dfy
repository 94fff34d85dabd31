/** Attachment cloud keys and paths: the server's normalization of a raw path, and where a key's bytes are stored. */
module AttachmentPaths {
  import opened Utf8
  import opened UrlParams
  import opened Wrappers

  const SLASH: Unit := 0x2F
  const BACKSLASH: Unit := 0x5C
  const DOT: Unit := 0x2E

  const MAX_LENGTH := 512
  const MAX_SEGMENTS := 16

  /** "attachments" */
  const ATTACHMENTS: Text := [0x61, 0x74, 0x74, 0x61, 0x63, 0x68, 0x6D, 0x65, 0x6E, 0x74, 0x73]

  /** Letters, digits and . _ - */
  predicate NameChar(c: Unit)
  {
    0x41 <= c <= 0x5A || 0x61 <= c <= 0x7A || 0x30 <= c <= 0x39 || c in {0x2E, 0x5F, 0x2D}
  }

  predicate Allowed(t: Text)
  {
    t != [] && forall i :: 0 <= i < |t| ==> NameChar(t[i]) || t[i] == SLASH
  }

  function NonEmpty(parts: seq<Text>): (r: seq<Text>)
    ensures [] !in r && forall p :: p in r ==> p in parts
  {
    if parts == [] then []
    else if parts[0] == [] then NonEmpty(parts[1..])
    else [parts[0]] + NonEmpty(parts[1..])
  }

  predicate DotName(name: Text)
  {
    name == [DOT] || name == [DOT, DOT]
  }

  /** `normalizeAttachmentRelativePath`, as the path's segments; None for the paths it refuses. */
  function Normalized(raw: Text): Option<seq<Text>>
  {
    match DecodeUriComponent(raw)
    case Err(_) => None
    case Ok(decoded) =>
      if PERCENT in decoded || |decoded| > MAX_LENGTH || !Allowed(decoded) then None
      else
        var segments := NonEmpty(Split(decoded, SLASH));
        if segments == [] || |segments| > MAX_SEGMENTS || exists s :: s in segments && DotName(s) then None
        else Some(segments)
  }

  /** The segments with slashes between them. */
  function Slashed(path: seq<Text>): Text
  {
    if path == [] then []
    else if |path| == 1 then path[0]
    else path[0] + [SLASH] + Slashed(path[1..])
  }

  /** A scanned path's text; a backslash in a name reads as a slash. */
  function Scanned(path: seq<Text>): Text
  {
    var t := Slashed(path);
    seq(|t|, i requires 0 <= i < |t| => if t[i] == BACKSLASH then SLASH else t[i])
  }

  /** A name the server could have stored under: a path segment that is not a dot name. */
  predicate Name(name: Text)
  {
    name != [] && !DotName(name) && forall i :: 0 <= i < |name| ==> NameChar(name[i])
  }

  /** Where a normalized key's bytes lie under the attachments root: without the key's own `attachments/`. */
  function RootRelative(key: seq<Text>): seq<Text>
  {
    if |key| > 1 && key[0] == ATTACHMENTS then key[1..] else key
  }

  // ------------------------------------------------------------ fixed points

  lemma {:induction false} DecodesPlain(t: Text)
    requires PERCENT !in t
    ensures DecodeUriComponent(t) == Ok(t)
  {
    if t != [] {
      assert t == [t[0]] + t[1..];
      DecodesPlain(t[1..]);
    }
  }

  predicate Storable(path: seq<Text>)
  {
    path != [] && |path| <= MAX_SEGMENTS && |Slashed(path)| <= MAX_LENGTH
        && forall i :: 0 <= i < |path| ==> Name(path[i])
  }

  lemma {:induction false} SlashedShape(path: seq<Text>)
    requires path != [] && forall i :: 0 <= i < |path| ==> Name(path[i])
    ensures Allowed(Slashed(path)) && PERCENT !in Slashed(path) && BACKSLASH !in Slashed(path)
  {
    if |path| > 1 {
      SlashedShape(path[1..]);
    }
  }

  lemma {:induction false} SlashedSplits(path: seq<Text>)
    requires path != [] && forall i :: 0 <= i < |path| ==> Name(path[i])
    ensures Split(Slashed(path), SLASH) == path && NonEmpty(path) == path
  {
    hide Split;
    var first := path[0];
    assert SLASH !in first && first != [];
    if |path| == 1 {
      SplitNone(first, SLASH);
      assert path == [first] && path[1..] == [];
    } else {
      SlashedSplits(path[1..]);
      SplitConcat(first, Slashed(path[1..]), SLASH);
      assert path == [first] + path[1..];
    }
  }

  /** A storable path, written as a key or read back from a scan, normalizes to itself. */
  lemma StorableIsNormal(path: seq<Text>)
    requires Storable(path)
    ensures Normalized(Slashed(path)) == Some(path) && Normalized(Scanned(path)) == Some(path)
  {
    hide Split, NonEmpty, DecodeUriComponent;
    SlashedShape(path);
    SlashedSplits(path);
    DecodesPlain(Slashed(path));
    assert Scanned(path) == Slashed(path);
  }

  lemma {:induction false} SplitParts(t: Text, c: Unit)
    ensures forall p, x :: p in Split(t, c) && x in p ==> x in t && x != c
    decreases |t|
  {
    var n := IndexOf(t, c);
    if n < |t| {
      SplitParts(t[n + 1..], c);
      assert forall x :: x in t[..n] ==> x in t;
      assert forall x :: x in t[n + 1..] ==> x in t;
    } else {
      assert t[..n] == t;
    }
  }

  /** What normalization accepts, it accepts as names. */
  lemma NormalizedNames(raw: Text)
    requires Normalized(raw).Some?
    ensures
      var path := Normalized(raw).value;
      path != [] && |path| <= MAX_SEGMENTS && forall i :: 0 <= i < |path| ==> Name(path[i])
  {
    var decoded := DecodeUriComponent(raw).value;
    var segments := NonEmpty(Split(decoded, SLASH));
    SplitParts(decoded, SLASH);
    forall i | 0 <= i < |segments| ensures Name(segments[i]) {
      assert segments[i] in segments;
      assert forall k :: 0 <= k < |segments[i]| ==> segments[i][k] in segments[i];
    }
  }

  lemma {:induction false} SlashedLength(parts: seq<Text>, t: Text)
    requires parts == Split(t, SLASH)
    ensures |Slashed(NonEmpty(parts))| <= |t|
    decreases |t|
  {
    var n := IndexOf(t, SLASH);
    if n == |t| {
      assert NonEmpty([t]) == (if t == [] then [] else [t]) + NonEmpty([]);
    } else {
      var rest := Split(t[n + 1..], SLASH);
      assert parts == [t[..n]] + rest && parts[1..] == rest;
      SlashedLength(rest, t[n + 1..]);
      if n > 0 {
        assert NonEmpty(parts) == [t[..n]] + NonEmpty(rest);
        assert NonEmpty(parts)[1..] == NonEmpty(rest);
      }
    }
  }

  /** Normalization is idempotent: a normal key, written out again, is that key. */
  lemma NormalIsStorable(raw: Text)
    requires Normalized(raw).Some?
    ensures Storable(Normalized(raw).value)
  {
    NormalizedNames(raw);
    var decoded := DecodeUriComponent(raw).value;
    SlashedLength(Split(decoded, SLASH), decoded);
  }

  /** So does its path under the root. */
  lemma RootRelativeIsStorable(key: seq<Text>)
    requires Storable(key)
    ensures Storable(RootRelative(key))
  {
    if |key| > 1 {
      assert Slashed(key) == key[0] + [SLASH] + Slashed(key[1..]);
    }
  }

  // ------------------------------------------------------- what normalizes

  /** The text is the path's segments, none empty, with slashes between them and any more slashes anywhere. */
  ghost predicate Slashes(t: Text, path: seq<Text>)
    decreases |t|
  {
    if t == [] then path == []
    else if t[0] == SLASH then Slashes(t[1..], path)
    else
      && path != [] && path[0] != [] && SLASH !in path[0] && path[0] <= t
      && (|path[0]| < |t| ==> t[|path[0]|] == SLASH)
      && Slashes(t[|path[0]|..], path[1..])
  }

  /** A segment in front of the rest: the text ends, or a slash follows. */
  lemma SlashesStep(first: Text, rest: Text, path: seq<Text>)
    requires first != [] && SLASH !in first && Slashes(rest, path) && (rest != [] ==> rest[0] == SLASH)
    ensures Slashes(first + rest, [first] + path)
  {
    var t := first + rest;
    assert t[0] == first[0] && t[|first|..] == rest && ([first] + path)[1..] == path;
  }

  lemma {:induction false} SegmentsOf(t: Text)
    ensures Slashes(t, NonEmpty(Split(t, SLASH)))
    decreases |t|
  {
    hide Slashes;
    var n, parts := IndexOf(t, SLASH), Split(t, SLASH);
    NoSlashes();
    if n == |t| {
      assert parts == [t] && parts[1..] == [] && t[..n] == t;
      if t != [] {
        assert NonEmpty(parts) == [t] + [];
        SlashesStep(t, [], []);
        assert t + [] == t;
      }
    } else {
      var rest := t[n + 1..];
      SegmentsOf(rest);
      SlashFirst(rest, NonEmpty(Split(rest, SLASH)));
      assert parts == [t[..n]] + Split(rest, SLASH) && parts[1..] == Split(rest, SLASH);
      assert t == t[..n] + ([SLASH] + rest);
      if n > 0 {
        SlashesStep(t[..n], [SLASH] + rest, NonEmpty(Split(rest, SLASH)));
      }
    }
  }

  lemma NoSlashes()
    ensures Slashes([], [])
  {
  }

  lemma SlashFirst(rest: Text, path: seq<Text>)
    ensures Slashes([SLASH] + rest, path) <==> Slashes(rest, path)
  {
    assert ([SLASH] + rest)[1..] == rest;
  }

  lemma FirstSegment(t: Text, path: seq<Text>)
    requires t != [] && t[0] != SLASH && Slashes(t, path)
    ensures path[0] == t[..IndexOf(t, SLASH)]
  {
    var first := path[0];
    if |first| < |t| {
      assert t == first + [SLASH] + t[|first| + 1..];
      IndexOfConcat(first, t[|first| + 1..], SLASH);
    } else {
      assert t == first;
    }
  }

  lemma {:induction false} OneSegmentation(t: Text, a: seq<Text>, b: seq<Text>)
    requires Slashes(t, a) && Slashes(t, b)
    ensures a == b
    decreases |t|
  {
    if t != [] {
      if t[0] == SLASH {
        OneSegmentation(t[1..], a, b);
      } else {
        FirstSegment(t, a);
        FirstSegment(t, b);
        OneSegmentation(t[|a[0]|..], a[1..], b[1..]);
        assert a == [a[0]] + a[1..] && b == [b[0]] + b[1..];
      }
    }
  }

  /** A raw path normalizes exactly when it decodes to at most 512 letters, digits, dots, underscores, hyphens and
    * slashes that are one to sixteen segments, none a dot or two; and then to those segments. */
  lemma NormalizedIff(raw: Text, path: seq<Text>)
    ensures Normalized(raw) == Some(path) <==>
            exists decoded ::
              && DecodeUriComponent(raw) == Ok(decoded) && |decoded| <= 512
              && (forall i :: 0 <= i < |decoded| ==> NameChar(decoded[i]) || decoded[i] == SLASH)
              && 1 <= |path| <= 16 && Slashes(decoded, path) && [DOT] !in path && [DOT, DOT] !in path
  {
    hide DecodeUriComponent, Split;
    match DecodeUriComponent(raw)
    case Err(_) =>
    case Ok(decoded) =>
      SegmentsOf(decoded);
      var segments := NonEmpty(Split(decoded, SLASH));
      if Slashes(decoded, path) {
        OneSegmentation(decoded, path, segments);
      }
      assert (forall i :: 0 <= i < |decoded| ==> NameChar(decoded[i]) || decoded[i] == SLASH) ==> PERCENT !in decoded;
      assert (exists s :: s in segments && DotName(s)) <==> [DOT] in segments || [DOT, DOT] in segments;
  }
}
