/** URLSearchParams of the native host: the form-urlencoded printer and parser of the WHATWG URL Standard
  * (sections 5.1 and 5.2), with encodeURIComponent and decodeURIComponent as ECMAScript defines them. */
module UrlParams {
  import opened Seqs
  import opened Utf8
  import opened Wrappers

  type Text = seq<Unit>

  datatype Pair = Pair(name: Text, value: Text)

  datatype UriError = UriError

  const SPACE: Unit := 0x20
  const PERCENT: Unit := 0x25
  const AMPERSAND: Unit := 0x26
  const PLUS: Unit := 0x2B
  const EQUALS: Unit := 0x3D
  const QUESTION: Unit := 0x3F

  // ------------------------------------------------------ percent encoding

  /** The characters encodeURIComponent leaves as they are: letters, digits and - _ . ! ~ * ' ( ). */
  predicate Unreserved(c: Unit)
  {
    || 0x41 <= c <= 0x5A || 0x61 <= c <= 0x7A || 0x30 <= c <= 0x39
    || c in {0x2D, 0x5F, 0x2E, 0x21, 0x7E, 0x2A, 0x27, 0x28, 0x29}
  }

  function HexDigit(n: int): (c: Unit)
    requires 0 <= n < 16
    ensures HexValue(c) == Some(n)
    ensures c == 0x30 <==> n == 0
    ensures c == 0x32 <==> n == 2
  {
    if n < 10 then 0x30 + n else 0x37 + n
  }

  function HexValue(c: Unit): Option<int>
  {
    if 0x30 <= c <= 0x39 then Some(c - 0x30)
    else if 0x41 <= c <= 0x46 then Some(c - 0x37)
    else if 0x61 <= c <= 0x66 then Some(c - 0x57)
    else None
  }

  function Escape(b: Byte): (t: Text)
    ensures |t| == 3
  {
    [PERCENT, HexDigit(b / 16), HexDigit(b % 16)]
  }

  /** The text of each byte in turn: itself when unreserved, `space` for a space, else its escape. */
  function Bytewise(bytes: seq<Byte>, space: Text): (t: Text)
  {
    if bytes == [] then [] else ByteText(bytes[0], space) + Bytewise(bytes[1..], space)
  }

  function ByteText(b: Byte, space: Text): Text
  {
    if Unreserved(b) then [b] else if b == SPACE then space else Escape(b)
  }

  /** A lone surrogate is a URIError. */
  function EncodeUriComponent(text: Text): Result<Text, UriError>
  {
    if forall i :: 0 <= i < |text| ==> !Lone(text, i) then Ok(Bytewise(ToUtf8(Scalars(text)), Escape(SPACE)))
    else Err(UriError)
  }

  /** The byte of the escape at the front. */
  function EscapedByte(t: Text): Option<Byte>
  {
    if |t| < 3 || t[0] != PERCENT then None
    else match (HexValue(t[1]), HexValue(t[2]))
      case (Some(h), Some(l)) => Some(ByteOf(h, l))
      case _ => None
  }

  function ByteOf(h: int, l: int): Byte
  {
    if 0 <= h < 16 && 0 <= l < 16 then h * 16 + l else 0
  }

  /** The bytes of the `n` escapes at the front. */
  function EscapedBytes(t: Text, n: nat): (r: Option<seq<Byte>>)
    ensures r.Some? ==> |r.value| == n && 3 * n <= |t|
  {
    if n == 0 then Some([])
    else match EscapedByte(t)
      case None => None
      case Some(b) =>
        match EscapedBytes(t[3..], n - 1)
        case None => None
        case Some(rest) => Some([b] + rest)
  }

  /** An escape stands for a byte; a byte above 0x7F starts a whole, well-formed UTF-8 sequence of escapes. */
  function DecodeUriComponent(t: Text): Result<Text, UriError>
    decreases |t|
  {
    if t == [] then Ok([])
    else if t[0] != PERCENT then Prefixed([t[0]], DecodeUriComponent(t[1..]))
    else match EscapedByte(t)
      case None => Err(UriError)
      case Some(b) =>
        match EscapedBytes(t, Need(b) + 1)
        case None => Err(UriError)
        case Some(bytes) =>
          if Utf8Char(bytes) then
            Prefixed(UnitsOf(ScalarOf(bytes)), DecodeUriComponent(t[3 * |bytes|..]))
          else Err(UriError)
  }

  function Prefixed(head: Text, rest: Result<Text, UriError>): Result<Text, UriError>
  {
    match rest
    case Ok(t) => Ok(head + t)
    case Err(e) => Err(e)
  }

  // ----------------------------------------------------------------- query

  /** `replace(/%20/g, '+')` */
  function SpacesToPlus(t: Text): Text
  {
    if |t| >= 3 && t[..3] == Escape(SPACE) then [PLUS] + SpacesToPlus(t[3..])
    else if t == [] then []
    else [t[0]] + SpacesToPlus(t[1..])
  }

  /** `replace(/\+/g, ' ')` */
  function PlusToSpaces(t: Text): Text
  {
    if t == [] then [] else [if t[0] == PLUS then SPACE else t[0]] + PlusToSpaces(t[1..])
  }

  function EncodeQuery(text: Text): Result<Text, UriError>
  {
    match EncodeUriComponent(text)
    case Ok(t) => Ok(SpacesToPlus(t))
    case Err(e) => Err(e)
  }

  function DecodeQuery(text: Text): Result<Text, UriError>
  {
    DecodeUriComponent(PlusToSpaces(text))
  }

  function PairText(pair: Pair): Result<Text, UriError>
  {
    match (EncodeQuery(pair.name), EncodeQuery(pair.value))
    case (Ok(n), Ok(v)) => Ok(n + [EQUALS] + v)
    case _ => Err(UriError)
  }

  /** `map(...).join('&')` */
  function ToString(pairs: seq<Pair>): Result<Text, UriError>
  {
    if pairs == [] then Ok([])
    else match (PairText(pairs[0]), ToString(pairs[1..]))
      case (Ok(first), Ok(rest)) => Ok(if |pairs| == 1 then first else first + [AMPERSAND] + rest)
      case _ => Err(UriError)
  }

  /** The position of the first `c`, or the length of the text. */
  function IndexOf(t: Text, c: Unit): (n: nat)
    ensures n <= |t| && c !in t[..n] && (n < |t| ==> t[n] == c)
  {
    if t == [] || t[0] == c then 0 else 1 + IndexOf(t[1..], c)
  }

  function Split(t: Text, c: Unit): (parts: seq<Text>)
    ensures |parts| > 0
    decreases |t|
  {
    var n := IndexOf(t, c);
    if n == |t| then [t] else [t[..n]] + Split(t[n + 1..], c)
  }

  function WithoutQuestion(init: Text): Text
  {
    if |init| > 0 && init[0] == QUESTION then init[1..] else init
  }

  function ParsedPair(part: Text): Result<Pair, UriError>
  {
    var at := IndexOf(part, EQUALS);
    if at == |part| then
      match DecodeQuery(part)
      case Ok(n) => Ok(Pair(n, []))
      case Err(e) => Err(e)
    else
      match (DecodeQuery(part[..at]), DecodeQuery(part[at + 1..]))
      case (Ok(n), Ok(v)) => Ok(Pair(n, v))
      case _ => Err(UriError)
  }

  function ParsedParts(parts: seq<Text>): Result<seq<Pair>, UriError>
  {
    if parts == [] then Ok([])
    else if parts[0] == [] then ParsedParts(parts[1..])
    else match (ParsedPair(parts[0]), ParsedParts(parts[1..]))
      case (Ok(p), Ok(rest)) => Ok([p] + rest)
      case _ => Err(UriError)
  }

  function Parsed(init: Text): Result<seq<Pair>, UriError>
  {
    ParsedParts(Split(WithoutQuestion(init), AMPERSAND))
  }

  // -------------------------------------------------------------- the code

  /** The pairs of a query string, in order and with duplicates; a part that cannot be decoded is a URIError. */
  method Parse(init: Text) returns (r: Result<seq<Pair>, UriError>)
    ensures r == Parsed(init)
  {
    hide Split, IndexOf, DecodeUriComponent, PlusToSpaces;
    var parts := Split(WithoutQuestion(init), AMPERSAND);
    var pairs: seq<Pair> := [];
    var i := 0;
    assert parts[0..] == parts;
    BeforeNothing(ParsedParts(parts));
    while i < |parts|
      invariant 0 <= i <= |parts|
      invariant Parsed(init) == Before(pairs, ParsedParts(parts[i..]))
    {
      var part := parts[i];
      ghost var before, rest := pairs, ParsedParts(parts[i + 1..]);
      assert parts[i..][0] == part && parts[i..][1..] == parts[i + 1..];
      if part != [] {
        var at := IndexOf(part, EQUALS);
        var pair;
        if at == |part| {
          match DecodeQuery(part) {
            case Ok(n) => pair := Pair(n, []);
            case Err(e) => return Err(UriError);
          }
        } else {
          match (DecodeQuery(part[..at]), DecodeQuery(part[at + 1..])) {
            case (Ok(n), Ok(v)) => pair := Pair(n, v);
            case _ => return Err(UriError);
          }
        }
        pairs := pairs + [pair];
        assert ParsedPair(part) == Ok(pair);
        match rest {
          case Ok(more) => Assoc(before, [pair], more);
          case Err(UriError) =>
        }
      }
      i := i + 1;
    }
    assert parts[i..] == [] && pairs + [] == pairs;
    r := Ok(pairs);
  }

  ghost function Before(pairs: seq<Pair>, rest: Result<seq<Pair>, UriError>): Result<seq<Pair>, UriError>
  {
    match rest
    case Ok(ps) => Ok(pairs + ps)
    case Err(e) => Err(e)
  }

  lemma BeforeNothing(rest: Result<seq<Pair>, UriError>)
    ensures Before([], rest) == rest
  {
    assert rest.Ok? ==> [] + rest.value == rest.value;
  }

  // ------------------------------------------------------------- properties

  predicate WellFormedPair(p: Pair)
  {
    WellFormedUtf16(p.name) && WellFormedUtf16(p.value)
  }

  /** A character that encoding may leave in a name or a value. */
  predicate Plain(c: Unit)
  {
    c != AMPERSAND && c != EQUALS && c != QUESTION
  }

  lemma ByteTextPlain(b: Byte, space: Text)
    requires forall c :: c in space ==> Plain(c)
    ensures forall c :: c in ByteText(b, space) ==> Plain(c)
  {
  }

  lemma {:induction false} BytewisePlain(bytes: seq<Byte>, space: Text)
    requires forall c :: c in space ==> Plain(c)
    ensures forall c :: c in Bytewise(bytes, space) ==> Plain(c)
  {
    if bytes != [] {
      ByteTextPlain(bytes[0], space);
      BytewisePlain(bytes[1..], space);
    }
  }

  /** Replacing every escaped space is writing "+" for every space byte: no other escape holds "%20". */
  lemma {:induction false} SpacesToPlusBytewise(bytes: seq<Byte>)
    ensures SpacesToPlus(Bytewise(bytes, Escape(SPACE))) == Bytewise(bytes, [PLUS])
  {
    if bytes != [] {
      SpacesToPlusBytewise(bytes[1..]);
      SpacesToPlusByte(bytes[0], Bytewise(bytes[1..], Escape(SPACE)));
    }
  }

  lemma SpacesToPlusByte(b: Byte, rest: Text)
    ensures SpacesToPlus(ByteText(b, Escape(SPACE)) + rest) == ByteText(b, [PLUS]) + SpacesToPlus(rest)
  {
    var text := ByteText(b, Escape(SPACE));
    var t := text + rest;
    if b == SPACE {
      assert t[..3] == Escape(SPACE) && t[3..] == rest;
    } else if Unreserved(b) {
      assert t[0] == b && t[1..] == rest;
    } else {
      assert t[..3] == text == Escape(b);
      assert b / 16 == 2 && b % 16 == 0 ==> b == SPACE;
      assert t[1..][0] == text[1] && t[1..][1..][0] == text[2];
      assert t[1..][1..][1..] == rest;
      SkipOne(t);
      SkipOne(t[1..]);
      SkipOne(t[1..][1..]);
      assert [t[0]] + ([t[1]] + ([t[2]] + SpacesToPlus(rest))) == text + SpacesToPlus(rest);
    }
  }

  lemma SkipOne(t: Text)
    requires t != [] && (|t| < 3 || t[..3] != Escape(SPACE))
    ensures SpacesToPlus(t) == [t[0]] + SpacesToPlus(t[1..])
  {
  }

  /** Reading "+" as a space gives the space bytes back, and nothing else: an encoded "+" is escaped. */
  lemma {:induction false} PlusToSpacesBytewise(bytes: seq<Byte>)
    ensures PlusToSpaces(Bytewise(bytes, [PLUS])) == Bytewise(bytes, [SPACE])
  {
    if bytes != [] {
      PlusToSpacesBytewise(bytes[1..]);
      PlusToSpacesAppend(ByteText(bytes[0], [PLUS]), Bytewise(bytes[1..], [PLUS]));
      PlusToSpacesByte(bytes[0]);
    }
  }

  lemma {:induction false} PlusToSpacesAppend(a: Text, b: Text)
    ensures PlusToSpaces(a + b) == PlusToSpaces(a) + PlusToSpaces(b)
  {
    if a == [] {
      assert a + b == b;
    } else {
      PlusToSpacesAppend(a[1..], b);
      assert (a + b)[1..] == a[1..] + b;
    }
  }

  lemma PlusToSpacesByte(b: Byte)
    ensures PlusToSpaces(ByteText(b, [PLUS])) == ByteText(b, [SPACE])
  {
    if !Unreserved(b) && b != SPACE {
      var t := Escape(b);
      assert t[0] != PLUS && t[1] != PLUS && t[2] != PLUS;
      assert PlusToSpaces([]) == [];
      assert t[2..] == [t[2]] && t[2..][1..] == [] && PlusToSpaces(t[2..]) == [t[2]];
      assert t[1..][1..] == t[2..] && PlusToSpaces(t[1..]) == [t[1], t[2]];
    }
  }

  lemma EscapeDecodes(b: Byte, rest: Text)
    ensures EscapedByte(Escape(b) + rest) == Some(b)
  {
  }

  lemma {:induction false} EscapesDecode(bytes: seq<Byte>, rest: Text)
    requires forall i :: 0 <= i < |bytes| ==> bytes[i] >= 0x80
    ensures |Bytewise(bytes, [SPACE])| == 3 * |bytes|
    ensures EscapedBytes(Bytewise(bytes, [SPACE]) + rest, |bytes|) == Some(bytes)
  {
    if bytes != [] {
      hide Escape, EscapedByte;
      var tail := Bytewise(bytes[1..], [SPACE]);
      assert !Unreserved(bytes[0]) && ByteText(bytes[0], [SPACE]) == Escape(bytes[0]);
      EscapesDecode(bytes[1..], rest);
      EscapeDecodes(bytes[0], tail + rest);
      Assoc(Escape(bytes[0]), tail, rest);
      assert (Escape(bytes[0]) + (tail + rest))[3..] == tail + rest;
      assert bytes == [bytes[0]] + bytes[1..];
    }
  }

  /** The text of one scalar value decodes to its code units. */
  lemma ScalarDecodes(c: Scalar, rest: Text)
    ensures DecodeUriComponent(Bytewise(BytesOf(c), [SPACE]) + rest) == Prefixed(UnitsOf(c), DecodeUriComponent(rest))
  {
    var bytes := BytesOf(c);
    var head := Bytewise(bytes, [SPACE]);
    BytesOfIsChar(c);
    hide Utf8Char, ScalarOf;
    assert (head + rest)[|head|..] == rest;
    if c < 0x80 {
      assert bytes == [c] && bytes[1..] == [] && Bytewise([], [SPACE]) == [];
      assert head == ByteText(c, [SPACE]);
      AsciiDecodes(c, rest);
    } else {
      LongCharBytes(c);
      EscapesDecode(bytes, rest);
      CharDecodes(head + rest, bytes);
    }
  }

  lemma AsciiDecodes(c: Byte, rest: Text)
    requires c < 0x80
    ensures DecodeUriComponent(ByteText(c, [SPACE]) + rest) == Prefixed([c], DecodeUriComponent(rest))
  {
    if Unreserved(c) || c == SPACE {
      assert ([c] + rest)[1..] == rest;
    } else {
      EscapeDecodes(c, rest);
      hide Escape;
      var t := Escape(c) + rest;
      assert t[3..] == rest;
      assert EscapedBytes(t, 1) == Some([c] + []);
      assert Utf8Char([c]);
    }
  }

  lemma LongCharBytes(c: Scalar)
    requires c >= 0x80
    ensures forall i :: 0 <= i < |BytesOf(c)| ==> BytesOf(c)[i] >= 0x80
    ensures |BytesOf(c)| == Need(BytesOf(c)[0]) + 1
  {
    BytesOfIsChar(c);
    CompleteIsChar(BytesOf(c), |BytesOf(c)|);
    assert BytesOf(c)[..|BytesOf(c)|] == BytesOf(c);
  }

  lemma CharDecodes(t: Text, bytes: seq<Byte>)
    requires bytes != [] && Utf8Char(bytes) && |bytes| == Need(bytes[0]) + 1
    requires EscapedBytes(t, |bytes|) == Some(bytes)
    ensures 3 * |bytes| <= |t|
    ensures DecodeUriComponent(t) == Prefixed(UnitsOf(ScalarOf(bytes)), DecodeUriComponent(t[3 * |bytes|..]))
  {
    hide UnitsOf, ScalarOf, Utf8Char;
    assert EscapedByte(t) == Some(bytes[0]);
  }

  lemma {:induction false} TextDecodes(cs: seq<Scalar>)
    ensures DecodeUriComponent(Bytewise(ToUtf8(cs), [SPACE])) == Ok(ToUtf16(cs))
  {
    if cs != [] {
      hide BytesOf, DecodeUriComponent, UnitsOf;
      TextDecodes(cs[1..]);
      BytewiseAppend(BytesOf(cs[0]), ToUtf8(cs[1..]), [SPACE]);
      ScalarDecodes(cs[0], Bytewise(ToUtf8(cs[1..]), [SPACE]));
    }
  }

  lemma {:induction false} BytewiseAppend(a: seq<Byte>, b: seq<Byte>, space: Text)
    ensures Bytewise(a + b, space) == Bytewise(a, space) + Bytewise(b, space)
  {
    if a == [] {
      assert a + b == b;
    } else {
      hide ByteText;
      BytewiseAppend(a[1..], b, space);
      assert (a + b)[1..] == a[1..] + b;
      Assoc(ByteText(a[0], space), Bytewise(a[1..], space), Bytewise(b, space));
    }
  }

  /** A name or a value is encoded exactly when it holds no lone surrogate, and then decodes to itself. */
  lemma QueryRoundTrip(text: Text)
    ensures EncodeQuery(text).Ok? <==> WellFormedUtf16(text)
    ensures EncodeQuery(text).Ok? ==>
              && DecodeQuery(EncodeQuery(text).value) == Ok(text)
              && forall c :: c in EncodeQuery(text).value ==> Plain(c)
  {
    if WellFormedUtf16(text) {
      hide Bytewise, SpacesToPlus, PlusToSpaces, DecodeUriComponent;
      var bytes := ToUtf8(Scalars(text));
      SpacesToPlusBytewise(bytes);
      PlusToSpacesBytewise(bytes);
      TextDecodes(Scalars(text));
      ScalarsReplaceLone(text);
      assert Mended(text) == text;
      BytewisePlain(bytes, [PLUS]);
    }
  }

  lemma IndexOfConcat(a: Text, b: Text, c: Unit)
    requires c !in a
    ensures IndexOf(a + [c] + b, c) == |a|
  {
    var t := a + [c] + b;
    assert t[|a|] == c;
    assert forall i :: 0 <= i < |a| ==> t[i] == a[i] && a[i] in a;
  }

  /** A pair's text holds no "&", starts with no "?", is never empty, and parses to the pair. */
  lemma PairRoundTrip(pair: Pair)
    ensures PairText(pair).Ok? <==> WellFormedPair(pair)
    ensures PairText(pair).Ok? ==>
              && var t := PairText(pair).value;
              && t != [] && t[0] != QUESTION && AMPERSAND !in t
              && ParsedPair(t) == Ok(pair)
  {
    hide EncodeQuery, DecodeQuery;
    QueryRoundTrip(pair.name);
    QueryRoundTrip(pair.value);
    if WellFormedPair(pair) {
      var n, v := EncodeQuery(pair.name).value, EncodeQuery(pair.value).value;
      var t := n + [EQUALS] + v;
      IndexOfConcat(n, v, EQUALS);
      assert t[..|n|] == n && t[|n| + 1..] == v;
      assert AMPERSAND !in t;
      assert if n == [] then t[0] == EQUALS else t[0] == n[0] && n[0] in n && Plain(n[0]);
    }
  }

  lemma SplitNone(t: Text, c: Unit)
    requires c !in t
    ensures Split(t, c) == [t]
  {
  }

  lemma SplitConcat(a: Text, b: Text, c: Unit)
    requires c !in a
    ensures Split(a + [c] + b, c) == [a] + Split(b, c)
  {
    IndexOfConcat(a, b, c);
    var t := a + [c] + b;
    assert t[..|a|] == a && t[|a| + 1..] == b;
  }

  /** The printed query parses to the same pairs, in order and with duplicates; printing fails only on
    * a lone surrogate.
    */
  lemma {:induction false} PrintedParses(pairs: seq<Pair>)
    ensures ToString(pairs).Ok? <==> forall p :: p in pairs ==> WellFormedPair(p)
    ensures ToString(pairs).Ok? ==>
              && var t := ToString(pairs).value;
              && (t == [] <==> pairs == []) && (t != [] ==> t[0] != QUESTION)
              && ParsedParts(Split(t, AMPERSAND)) == Ok(pairs)
  {
    hide PairText, ParsedPair, WellFormedPair;
    if pairs == [] {
      SplitNone([], AMPERSAND);
    } else {
      var p, rest := pairs[0], pairs[1..];
      PairRoundTrip(p);
      PrintedParses(rest);
      assert pairs == [p] + rest;
      if PairText(p).Ok? && ToString(rest).Ok? {
        var first, more := PairText(p).value, ToString(rest).value;
        if |pairs| == 1 {
          SplitNone(first, AMPERSAND);
        } else {
          SplitConcat(first, more, AMPERSAND);
        }
      }
    }
  }

  /** parse(toString(pairs)) is pairs, with or without a leading "?" put before the query. */
  lemma QueryStringRoundTrip(pairs: seq<Pair>)
    requires forall p :: p in pairs ==> WellFormedPair(p)
    ensures ToString(pairs).Ok?
    ensures Parsed(ToString(pairs).value) == Ok(pairs)
    ensures Parsed([QUESTION] + ToString(pairs).value) == Ok(pairs)
  {
    PrintedParses(pairs);
    var t := ToString(pairs).value;
    assert ([QUESTION] + t)[1..] == t;
  }

  // ------------------------------------------------- the grammar of escapes

  const UPPER_HEX := "0123456789ABCDEF"
  const LOWER_HEX := "0123456789abcdef"

  /** A hexadecimal digit of the value, in either case. */
  predicate Spells(c: Unit, v: int)
  {
    0 <= v < 16 && (c as int == UPPER_HEX[v] as int || c as int == LOWER_HEX[v] as int)
  }

  lemma HexValueSpells(c: Unit, v: int)
    ensures HexValue(c) == Some(v) <==> Spells(c, v)
    ensures 0 <= v < 16 ==> HexDigit(v) as int == UPPER_HEX[v] as int
  {
    assert 0 <= v < 10 ==> UPPER_HEX[v] as int == 48 + v && LOWER_HEX[v] as int == 48 + v;
    assert 10 <= v < 16 ==> UPPER_HEX[v] as int == 55 + v && LOWER_HEX[v] as int == 87 + v;
  }

  /** The text is an escape of the byte: a percent sign and its two digits. */
  ghost predicate SpellsByte(t: Text, b: Byte)
  {
    |t| == 3 && t[0] == PERCENT && exists h, l :: Spells(t[1], h) && Spells(t[2], l) && b as int == 16 * h + l
  }

  /** The text is the escapes of the bytes, one after the other. */
  ghost predicate SpellsBytes(t: Text, bytes: seq<Byte>)
    decreases |bytes|
  {
    if bytes == [] then t == [] else |t| >= 3 && SpellsByte(t[..3], bytes[0]) && SpellsBytes(t[3..], bytes[1..])
  }

  /** A character that stands for itself, or the escapes of one scalar value's bytes. */
  datatype Piece = Bare(unit: Unit) | Escaped(scalar: Scalar, text: Text)

  ghost predicate IsPiece(p: Piece)
  {
    match p
    case Bare(c) => c != PERCENT
    case Escaped(c, text) => SpellsBytes(text, BytesOf(c))
  }

  function PiecesText(pieces: seq<Piece>): Text
  {
    if pieces == [] then []
    else (match pieces[0] case Bare(c) => [c] case Escaped(_, text) => text) + PiecesText(pieces[1..])
  }

  function Meaning(pieces: seq<Piece>): Text
  {
    if pieces == [] then []
    else (match pieces[0] case Bare(c) => [c] case Escaped(c, _) => UnitsOf(c)) + Meaning(pieces[1..])
  }

  lemma SpelledByte(t: Text, b: Byte)
    ensures |t| >= 3 ==> (EscapedByte(t) == Some(b) <==> SpellsByte(t[..3], b))
  {
    hide HexValue, Spells;
    if |t| >= 3 {
      forall v: int
        ensures HexValue(t[1]) == Some(v) <==> Spells(t[1], v)
        ensures HexValue(t[2]) == Some(v) <==> Spells(t[2], v)
      {
        HexValueSpells(t[1], v);
        HexValueSpells(t[2], v);
      }
      assert forall c, v :: Spells(c, v) ==> 0 <= v < 16 by { SpelledIsSmall(); }
    }
  }

  lemma SpelledIsSmall()
    ensures forall c, v :: Spells(c, v) ==> 0 <= v < 16
  {
  }

  lemma {:induction false} SpelledBytes(t: Text, bytes: seq<Byte>)
    ensures EscapedBytes(t, |bytes|) == Some(bytes) <==>
            3 * |bytes| <= |t| && SpellsBytes(t[..3 * |bytes|], bytes)
    decreases |bytes|
  {
    hide EscapedByte, SpellsByte;
    if bytes != [] {
      if |t| >= 3 {
        SpelledByte(t, bytes[0]);
        SpelledBytes(t[3..], bytes[1..]);
        if 3 * |bytes| <= |t| {
          var n := 3 * |bytes|;
          assert t[..n][..3] == t[..3] && t[..n][3..] == t[3..][..n - 3];
        }
        assert bytes == [bytes[0]] + bytes[1..];
      } else {
        NoEscape(t);
      }
    }
  }

  lemma NoEscape(t: Text)
    requires |t| < 3
    ensures EscapedByte(t) == None
  {
  }

  lemma {:induction false} SpelledLength(t: Text, bytes: seq<Byte>)
    requires SpellsBytes(t, bytes)
    ensures |t| == 3 * |bytes| && (bytes != [] ==> t[0] == PERCENT)
    decreases |bytes|
  {
    if bytes != [] {
      SpelledLength(t[3..], bytes[1..]);
    }
  }

  /** The front of a text decodes as a piece does. */
  lemma PieceDecodes(p: Piece, rest: Text)
    requires IsPiece(p)
    ensures DecodeUriComponent(PiecesText([p]) + rest) == Prefixed(Meaning([p]), DecodeUriComponent(rest))
    ensures PiecesText([p]) != []
  {
    hide UnitsOf, BytesOf;
    OnePiece(p);
    match p
    case Bare(c) => assert ([c] + rest)[1..] == rest;
    case Escaped(c, text) =>
      var t, bytes := text + rest, BytesOf(c);
      CharShape(c);
      SpelledLength(text, bytes);
      assert t[..3 * |bytes|] == text && t[3 * |bytes|..] == rest;
      SpelledBytes(t, bytes);
      CharDecodes(t, bytes);
  }

  lemma OnePiece(p: Piece)
    ensures PiecesText([p]) == match p case Bare(c) => [c] case Escaped(_, text) => text
    ensures Meaning([p]) == match p case Bare(c) => [c] case Escaped(c, _) => UnitsOf(c)
  {
    assert [p][1..] == [];
  }

  lemma CharShape(c: Scalar)
    ensures var b := BytesOf(c); b != [] && Utf8Char(b) && |b| == Need(b[0]) + 1 && ScalarOf(b) == c
  {
    BytesOfIsChar(c);
    CompleteIsChar(BytesOf(c), |BytesOf(c)|);
    assert BytesOf(c)[..|BytesOf(c)|] == BytesOf(c);
  }

  lemma {:induction false} PiecesDecode(pieces: seq<Piece>)
    requires forall p :: p in pieces ==> IsPiece(p)
    ensures DecodeUriComponent(PiecesText(pieces)) == Ok(Meaning(pieces))
  {
    hide IsPiece, DecodeUriComponent;
    if pieces == [] {
      NothingDecodes();
    } else {
      PiecesDecode(pieces[1..]);
      PieceDecodes(pieces[0], PiecesText(pieces[1..]));
      OnePiece(pieces[0]);
    }
  }

  lemma NothingDecodes()
    ensures DecodeUriComponent([]) == Ok([])
  {
  }

  lemma {:induction false} DecodedPieces(t: Text) returns (pieces: seq<Piece>)
    requires DecodeUriComponent(t).Ok?
    ensures (forall p :: p in pieces ==> IsPiece(p)) && PiecesText(pieces) == t
    ensures Meaning(pieces) == DecodeUriComponent(t).value
    decreases |t|
  {
    hide SpellsBytes, UnitsOf, BytesOf, Utf8Char, ScalarOf;
    pieces := [];
    if t != [] {
      var first, rest := FirstPiece(t);
      var more := DecodedPieces(rest);
      OnePiece(first);
      pieces := [first] + more;
      assert pieces[1..] == more;
    }
  }

  /** What decodes starts with a piece. */
  lemma FirstPiece(t: Text) returns (first: Piece, rest: Text)
    requires t != [] && DecodeUriComponent(t).Ok?
    ensures IsPiece(first) && t == PiecesText([first]) + rest && |rest| < |t|
    ensures DecodeUriComponent(rest).Ok?
    ensures DecodeUriComponent(t).value == Meaning([first]) + DecodeUriComponent(rest).value
  {
    hide SpellsBytes, UnitsOf, BytesOf, Utf8Char, ScalarOf;
    if t[0] != PERCENT {
      first, rest := Bare(t[0]), t[1..];
      OnePiece(first);
    } else {
      var b := EscapedByte(t).value;
      var bytes := EscapedBytes(t, Need(b) + 1).value;
      var n := 3 * |bytes|;
      first, rest := Escaped(ScalarOf(bytes), t[..n]), t[n..];
      ScalarOfBytes(bytes);
      SpelledBytes(t, bytes);
      OnePiece(first);
      assert t == t[..n] + t[n..];
    }
  }

  /** decodeURIComponent, by its grammar: a text decodes exactly when it is characters other than the percent sign, and
    * escapes, in digits of either case, of whole UTF-8 sequences; and it decodes to those characters and to the code
    * units of those sequences. */
  lemma DecodesIff(t: Text, r: Text)
    ensures DecodeUriComponent(t) == Ok(r) <==>
            exists pieces :: (forall p :: p in pieces ==> IsPiece(p)) && PiecesText(pieces) == t && Meaning(pieces) == r
  {
    hide IsPiece, DecodeUriComponent;
    if DecodeUriComponent(t) == Ok(r) {
      var pieces := DecodedPieces(t);
    }
    forall pieces | (forall p :: p in pieces ==> IsPiece(p)) && PiecesText(pieces) == t && Meaning(pieces) == r
      ensures DecodeUriComponent(t) == Ok(r)
    {
      PiecesDecode(pieces);
    }
  }

  // -------------------------------------------------------- the parts of a query

  /** A plus sign is read as a space, and everything else as it is. */
  lemma {:induction false} PlusIsSpace(t: Text)
    ensures |PlusToSpaces(t)| == |t|
    ensures forall i :: 0 <= i < |t| ==> PlusToSpaces(t)[i] == if t[i] == 0x2B then 0x20 else t[i]
  {
    if t != [] {
      PlusIsSpace(t[1..]);
    }
  }

  lemma OnePart(part: Text)
    ensures ParsedParts([part]) == if part == [] then Ok([])
                                   else match ParsedPair(part) case Ok(p) => Ok([p]) case Err(_) => Err(UriError)
  {
    hide ParsedPair;
    var parts: seq<Text> := [part];
    assert parts[1..] == [] && ParsedParts([]) == Ok([]);
    if part != [] && ParsedPair(part).Ok? {
      assert [ParsedPair(part).value] + [] == [ParsedPair(part).value];
    }
  }

  /** What a query means, part by part: the parts between ampersands in turn, each one pair, or none when it is empty;
    * a part that does not decode fails the whole. */
  lemma PartsOfQuery(part: Text, rest: Text)
    requires AMPERSAND !in part
    ensures ParsedParts(Split(part, AMPERSAND)) == ParsedParts([part]) && ParsedParts([[]]) == Ok([])
    ensures ParsedParts(Split(part + [AMPERSAND] + rest, AMPERSAND)) ==
            match (ParsedParts([part]), ParsedParts(Split(rest, AMPERSAND)))
            case (Ok(a), Ok(b)) => Ok(a + b)
            case _ => Err(UriError)
  {
    hide ParsedPair, Split;
    SplitConcat(part, rest, AMPERSAND);
    SplitNone(part, AMPERSAND);
    OnePart(part);
    OnePart([]);
    var more := Split(rest, AMPERSAND);
    var all := [part] + more;
    assert all[0] == part && all[1..] == more;
    if part == [] {
      assert ParsedParts(all) == ParsedParts(more);
      match ParsedParts(more)
      case Ok(pairs) => assert [] + pairs == pairs;
      case Err(UriError) =>
    } else {
      assert ParsedParts(all) == match (ParsedPair(part), ParsedParts(more))
        case (Ok(p), Ok(rest)) => Ok([p] + rest)
        case _ => Err(UriError);
    }
  }

  /** A part's first equals sign ends its name; a part without one is a name, with no value. */
  lemma PartIsPair(before: Text, after: Text)
    requires EQUALS !in before
    ensures ParsedParts([before + [EQUALS] + after]) ==
            match (DecodeQuery(before), DecodeQuery(after))
            case (Ok(name), Ok(value)) => Ok([Pair(name, value)])
            case _ => Err(UriError)
    ensures before != [] ==>
              ParsedParts([before]) ==
              match DecodeQuery(before) case Ok(name) => Ok([Pair(name, [])]) case Err(_) => Err(UriError)
  {
    hide DecodeQuery;
    IndexOfConcat(before, after, EQUALS);
    var part := before + [EQUALS] + after;
    assert part[..|before|] == before && part[|before| + 1..] == after;
    OnePart(part);
    OnePart(before);
  }

  /** A name or value is printed byte by byte of its UTF-8: unreserved characters as they are, a space as a plus sign,
    * and any other byte escaped, in capitals. */
  lemma PrintsBytes(text: Text, b: Byte)
    requires WellFormedUtf16(text)
    ensures EncodeQuery(text) == Ok(Bytewise(ToUtf8(Scalars(text)), [PLUS]))
    ensures ByteText(b, [PLUS]) == if Unreserved(b) then [b] else if b == 0x20 then [0x2B]
                                   else [0x25, UPPER_HEX[b / 16] as int, UPPER_HEX[b % 16] as int]
  {
    hide Bytewise, SpacesToPlus, ToUtf8, Scalars;
    SpacesToPlusBytewise(ToUtf8(Scalars(text)));
    HexValueSpells(0, b / 16);
    HexValueSpells(0, b % 16);
  }
}
