/** The code of TextEncoder.encode and TextDecoder.decode, against the reference definitions in Utf8. */
module TextCodec {
  import opened Seqs
  import opened Wrappers
  import opened Utf8

  datatype DecodeError = NotUtf8

  /** The bytes of one scalar value, pushed. */
  method Push(bytes: seq<Byte>, code: Scalar) returns (pushed: seq<Byte>)
    ensures pushed == bytes + BytesOf(code)
  {
    if code < 0x80 {
      pushed := bytes + [code];
    } else if code < 0x800 {
      pushed := bytes + [0xC0 + code / 0x40, 0x80 + code % 0x40];
    } else if code < 0x1_0000 {
      pushed := bytes + [0xE0 + code / 0x1000, 0x80 + code / 0x40 % 0x40, 0x80 + code % 0x40];
    } else {
      pushed := bytes + [0xF0 + code / 0x4_0000, 0x80 + code / 0x1000 % 0x40, 0x80 + code / 0x40 % 0x40,
          0x80 + code % 0x40];
    }
  }

  /** The one or two code units of one decoded scalar value, pushed. */
  method PushUnits(units: seq<Unit>, code: Scalar) returns (pushed: seq<Unit>)
    ensures pushed == units + UnitsOf(code)
  {
    if code > 0xFFFF {
      pushed := units + [0xD800 + (code - 0x1_0000) / 0x400, 0xDC00 + (code - 0x1_0000) % 0x400];
    } else {
      pushed := units + [code];
    }
  }

  /** The decoder's variables after the lead byte of a sequence of more than one byte. */
  method Lead(byte: Byte) returns (needed: int, code: int, lower: int, upper: int)
    requires Need(byte) > 0
    ensures needed == Need(byte) && code == Gathered([byte])
    ensures lower == Lower(byte) as int && upper == Upper(byte) as int
  {
    lower, upper := 0x80, 0xBF;
    if 0xC2 <= byte <= 0xDF {
      needed := 1;
      code := byte % 0x20;
    } else if 0xE0 <= byte <= 0xEF {
      if byte == 0xE0 { lower := 0xA0; }
      if byte == 0xED { upper := 0x9F; }
      needed := 2;
      code := byte % 0x10;
    } else {
      if byte == 0xF0 { lower := 0x90; }
      if byte == 0xF4 { upper := 0x8F; }
      needed := 3;
      code := byte % 0x08;
    }
  }

  method Encode(text: seq<Unit>) returns (bytes: seq<Byte>)
    ensures bytes == ToUtf8(Scalars(text))
  {
    bytes := [];
    var i := 0;
    while i < |text|
      invariant 0 <= i <= |text|
      invariant bytes + ToUtf8(Scalars(text[i..])) == ToUtf8(Scalars(text))
    {
      ghost var rest := text[i..];
      ghost var from, before := i, bytes;
      var code: int := text[i];
      if 0xD800 <= code <= 0xDFFF {
        var low: int := if i + 1 < |text| then text[i + 1] else 0;
        if code <= 0xDBFF && 0xDC00 <= low <= 0xDFFF {
          code := 0x1_0000 + (code - 0xD800) * 0x400 + (low - 0xDC00);
          i := i + 1;
        } else {
          code := 0xFFFD;
        }
      }
      bytes := Push(bytes, code);
      i := i + 1;
      assert rest[i - from..] == text[i..];
      EncodeStep(rest, code, i - from);
      Assoc(before, BytesOf(code), ToUtf8(Scalars(text[i..])));
    }
    assert text[i..] == [];
  }

  lemma EncodeStep(u: seq<Unit>, c: Scalar, n: nat)
    requires |u| >= n && n == if |u| > 1 && High(u[0]) && Low(u[1]) then 2 else 1
    requires c == if n == 2 then Paired(u[0], u[1]) else if High(u[0]) || Low(u[0]) then REPLACEMENT else u[0] as int
    ensures ToUtf8(Scalars(u)) == BytesOf(c) + ToUtf8(Scalars(u[n..]))
  {
    assert Scalars(u)[1..] == Scalars(u[n..]);
  }

  // --------------------------------------------------------------- decoder

  const PART: nat := 8192

  /** The bits the decoder has gathered from the first bytes of a sequence. */
  ghost function Gathered(s: seq<Byte>): int
    requires s != []
  {
    if |s| == 1 then
      (if Need(s[0]) == 1 then s[0] % 0x20 else if Need(s[0]) == 2 then s[0] % 0x10 else s[0] % 0x08)
    else Gathered(s[..|s| - 1]) * 0x40 + Low6(s[|s| - 1])
  }

  lemma GatheredNext(s: seq<Byte>, seen: nat)
    requires seen + 1 < |s|
    ensures Gathered(s[..seen + 2]) == Gathered(s[..seen + 1]) * 0x40 + s[seen + 1] as int % 0x40
  {
    assert s[..seen + 2][..seen + 1] == s[..seen + 1];
  }

  lemma GatheredAll(s: seq<Byte>, n: nat)
    requires 1 < n <= |s| && Utf8Char(s[..n])
    ensures Gathered(s[..n]) == ScalarOf(s[..n])
  {
    assert Gathered(s[..1]) == s[0] as int - (if n == 2 then 0xC0 else if n == 3 then 0xE0 else 0xF0);
    assert s[..2][..1] == s[..1];
    if n > 2 {
      assert s[..3][..2] == s[..2];
    }
    if n > 3 {
      assert s[..4][..3] == s[..3];
    }
  }

  /** The decoder's variables inside a sequence that starts at `p`, `seen` continuation bytes after its lead byte. */
  ghost predicate Within(bytes: seq<Byte>, p: int, needed: int, seen: int, code: int, lower: int, upper: int)
  {
    && 0 <= p && 0 <= seen && p + seen < |bytes|
    && var s := bytes[p..];
    && seen < needed == Need(s[0])
    && (forall j :: 0 < j <= seen ==> Continues(s, j))
    && code == Gathered(s[..seen + 1])
    && lower == (if seen == 0 then Lower(s[0]) as int else 0x80)
    && upper == (if seen == 0 then Upper(s[0]) as int else 0xBF)
  }

  /** The output holds what stands for the first `p` bytes; a fatal decoder has refused none of them. */
  ghost predicate Sofar(fatal: bool, parts: seq<seq<Unit>>, units: seq<Unit>, p: int, bytes: seq<Byte>)
  {
    && 0 <= p <= |bytes|
    && Joined(parts) + units + ToUtf16(Lossy(bytes[p..])) == ToUtf16(Lossy(bytes))
    && (fatal ==> (WellFormed(bytes) <==> WellFormed(bytes[p..])))
  }

  lemma Started(fatal: bool, bytes: seq<Byte>)
    ensures Sofar(fatal, [], [], 0, bytes)
  {
    assert bytes[0..] == bytes;
  }

  lemma Flushed(fatal: bool, parts: seq<seq<Unit>>, units: seq<Unit>, p: int, bytes: seq<Byte>)
    requires Sofar(fatal, parts, units, p, bytes)
    ensures Sofar(fatal, parts + [units], [], p, bytes)
    ensures p == |bytes| ==>
              && Joined(parts + [units]) == ToUtf16(Lossy(bytes))
              && (fatal ==> WellFormed(bytes))
  {
    hide Lossy, ToUtf16, WellFormed, Joined;
    JoinedPush(parts, units);
    Assoc(Joined(parts), units, []);
    if p == |bytes| {
      assert bytes[p..] == [];
      Nothing();
    }
  }

  /** The sequence at `p` ends after `n` bytes: complete, it stands for its scalar value; incomplete, for U+FFFD. */
  lemma Consume(fatal: bool, parts: seq<seq<Unit>>, units: seq<Unit>, p: int, n: nat, bytes: seq<Byte>)
    requires Sofar(fatal, parts, units, p, bytes)
    requires 0 < n && p + n <= |bytes| && n <= Need(bytes[p]) + 1
    requires forall j :: 0 < j < n ==> Continues(bytes[p..], j)
    requires p + n == |bytes| || n == Need(bytes[p]) + 1 || !Continues(bytes[p..], n)
    ensures Starts(bytes[p]) && n == Need(bytes[p]) + 1 ==>
              && Utf8Char(bytes[p..][..n])
              && Sofar(fatal, parts, units + UnitsOf(ScalarOf(bytes[p..][..n])), p + n, bytes)
    ensures !Starts(bytes[p]) || n <= Need(bytes[p]) ==>
              && (fatal ==> !WellFormed(bytes))
              && (!fatal ==> Sofar(fatal, parts, units + [REPLACEMENT], p + n, bytes))
  {
    var s := bytes[p..];
    ExtentIs(s, n);
    CompleteIsChar(s, n);
    WellFormedStep(s);
    var c := Lossy(s)[0];
    assert s[n..] == bytes[p + n..];
    assert Lossy(s)[1..] == Lossy(s[n..]);
    Assoc(Joined(parts) + units, UnitsOf(c), ToUtf16(Lossy(s[n..])));
    Assoc(Joined(parts), units, UnitsOf(c));
  }

  lemma WithinLead(bytes: seq<Byte>, p: int)
    requires 0 <= p < |bytes| && Need(bytes[p]) > 0
    ensures Within(bytes, p, Need(bytes[p]), 0, Gathered([bytes[p]]), Lower(bytes[p]), Upper(bytes[p]))
  {
    assert bytes[p..][..1] == [bytes[p]];
  }

  /** The byte after `seen` continuation bytes, or the end of the input: how the sequence goes on,
    * and what it stands for.
    */
  lemma WithinNext(fatal: bool, parts: seq<seq<Unit>>, units: seq<Unit>, p: int, bytes: seq<Byte>,
                   needed: int, seen: int, code: int, lower: int, upper: int)
    requires Sofar(fatal, parts, units, p, bytes) && Within(bytes, p, needed, seen, code, lower, upper)
    ensures 0 <= seen < needed && p + seen < |bytes|
    ensures if p + seen + 1 < |bytes| && lower <= bytes[p + seen + 1] as int <= upper then
              var gathered := code * 0x40 + bytes[p + seen + 1] as int % 0x40;
              if seen + 1 == needed then
                && (0 <= gathered < 0xD800 || 0xE000 <= gathered < 0x11_0000)
                && Sofar(fatal, parts, units + UnitsOf(gathered), p + needed + 1, bytes)
              else
                Within(bytes, p, needed, seen + 1, gathered, 0x80, 0xBF)
            else
              && (fatal ==> !WellFormed(bytes))
              && (!fatal ==> Sofar(fatal, parts, units + [REPLACEMENT], p + seen + 1, bytes))
  {
    hide Sofar, UnitsOf, Utf8Char, Gathered, ScalarOf, WellFormed;
    var s := bytes[p..];
    if p + seen + 1 < |bytes| && Continues(s, seen + 1) {
      GatheredNext(s, seen);
      if seen + 1 == needed {
        Consume(fatal, parts, units, p, needed + 1, bytes);
        GatheredAll(s, needed + 1);
      }
    } else {
      Consume(fatal, parts, units, p, seen + 1, bytes);
    }
  }

  /** A byte that is no lead byte of a longer sequence. */
  lemma Single(fatal: bool, parts: seq<seq<Unit>>, units: seq<Unit>, p: int, bytes: seq<Byte>)
    requires Sofar(fatal, parts, units, p, bytes) && p < |bytes| && Need(bytes[p]) == 0
    ensures bytes[p] <= 0x7F ==> Sofar(fatal, parts, units + [bytes[p]], p + 1, bytes)
    ensures bytes[p] > 0x7F ==>
              && (fatal ==> !WellFormed(bytes))
              && (!fatal ==> Sofar(fatal, parts, units + [REPLACEMENT], p + 1, bytes))
  {
    Consume(fatal, parts, units, p, 1, bytes);
  }

  class TextDecoder {
    const fatal: bool

    /** Without options, and with any but `fatal: false`, the decoder is fatal. */
    constructor (fatalOption: Option<bool>)
      ensures fatal <==> fatalOption != Some(false)
    {
      fatal := fatalOption != Some(false);
    }

    /** A lossy decoder answers for every input; a fatal one answers, the same text, exactly on well-formed UTF-8. */
    method Decode(bytes: seq<Byte>) returns (r: Result<seq<Unit>, DecodeError>)
      ensures r == if fatal && !WellFormed(bytes) then Err(NotUtf8) else Ok(ToUtf16(Lossy(bytes)))
    {
      hide Within, Sofar, Lossy, ToUtf16, WellFormed, UnitsOf, Joined, Gathered;
      var parts: seq<seq<Unit>> := [];
      var units: seq<Unit> := [];
      var needed: int, seen: int, code: int := 0, 0, 0;
      var lower: int, upper: int := 0x80, 0xBF;
      var i := 0;
      Started(fatal, bytes);
      while i < |bytes|
        invariant 0 <= i <= |bytes|
        invariant needed == 0 ==> seen == 0 && lower == 0x80 && upper == 0xBF
        invariant needed != 0 ==> 0 <= seen < needed && Within(bytes, i - seen - 1, needed, seen, code, lower, upper)
        invariant Sofar(fatal, parts, units, if needed == 0 then i else i - seen - 1, bytes)
        decreases |bytes| - i, needed
      {
        var byte: int := bytes[i];
        if needed == 0 {
          if byte <= 0x7F {
            Single(fatal, parts, units, i, bytes);
            units := units + [byte];
          } else if Need(byte) > 0 {
            WithinLead(bytes, i);
            needed, code, lower, upper := Lead(byte);
          } else {
            Single(fatal, parts, units, i, bytes);
            if fatal { return Err(NotUtf8); }
            units := units + [0xFFFD];
          }
          i := i + 1;
        } else {
          WithinNext(fatal, parts, units, i - seen - 1, bytes, needed, seen, code, lower, upper);
          if byte < lower || byte > upper {
            needed, seen, code := 0, 0, 0;
            lower, upper := 0x80, 0xBF;
            if fatal { return Err(NotUtf8); }
            units := units + [0xFFFD];
          } else {
            lower, upper := 0x80, 0xBF;
            code := code * 0x40 + byte % 0x40;
            seen := seen + 1;
            i := i + 1;
            if seen == needed {
              units := PushUnits(units, code);
              needed, seen, code := 0, 0, 0;
            }
          }
        }
        if |units| >= PART {
          Flushed(fatal, parts, units, if needed == 0 then i else i - seen - 1, bytes);
          parts := parts + [units];
          units := [];
        }
      }
      if needed != 0 {
        WithinNext(fatal, parts, units, i - seen - 1, bytes, needed, seen, code, lower, upper);
        if fatal { return Err(NotUtf8); }
        units := units + [0xFFFD];
      }
      Flushed(fatal, parts, units, i, bytes);
      parts := parts + [units];
      r := Ok(Joined(parts));
    }
  }
}
