/** toBase64 and the strict fromBase64 of the native host, against sections 3.5 and 4 of RFC 4648. */
module Base64 {
  import opened Seqs
  import opened Utf8
  import opened Wrappers

  type Sextet = n: int | 0 <= n < 64

  const PAD: Unit := 61

  datatype Unreadable = Unreadable

  /** The alphabet of section 4 of RFC 4648, as character codes. */
  function Letter(v: Sextet): (c: Unit)
  {
    if v < 26 then 65 + v else if v < 52 then 71 + v else if v < 62 then v - 4 else if v == 62 then 43 else 47
  }

  predicate InAlphabet(c: Unit)
  {
    65 <= c <= 90 || 97 <= c <= 122 || 48 <= c <= 57 || c == 43 || c == 47
  }

  function Value(c: Unit): (v: Sextet)
    requires InAlphabet(c)
    ensures Letter(v) == c
  {
    if c >= 97 then c - 71 else if c >= 65 then c - 65 else if c >= 48 then c + 4 else if c == 43 then 62 else 63
  }

  lemma LetterValue(v: Sextet)
    ensures InAlphabet(Letter(v)) && Letter(v) != PAD && Value(Letter(v)) == v
  {
  }

  // ----------------------------------------------------------------- groups

  function Sextets(x: Byte, y: Byte, z: Byte): (g: seq<Sextet>)
    ensures |g| == 4
  {
    var n: int := x as int * 0x1_0000 + y as int * 0x100 + z as int;
    [n / 0x4_0000, n / 0x1000 % 64, n / 64 % 64, n % 64]
  }

  function Octets(a: Sextet, b: Sextet, d: Sextet, e: Sextet): (g: seq<Byte>)
    ensures |g| == 3
  {
    var n: int := a as int * 0x4_0000 + b as int * 0x1000 + d as int * 64 + e as int;
    [n / 0x1_0000, n / 0x100 % 0x100, n % 0x100]
  }

  /** Where the bits of three bytes go: 6, 2 + 4, 4 + 2 and 6. */
  lemma SextetsAre(x: Byte, y: Byte, z: Byte)
    ensures Sextets(x, y, z) == [x / 4, x % 4 * 16 + y / 16, y % 16 * 4 + z / 64, z % 64]
  {
    var n: int := x as int * 0x1_0000 + y as int * 0x100 + z as int;
    assert n == (x / 4) * 0x4_0000 + (x % 4 * 16 + y / 16) * 0x1000 + (y % 16 * 4 + z / 64) * 64 + z % 64;
    SixBitDigits(x / 4, x % 4 * 16 + y / 16, y % 16 * 4 + z / 64, z % 64);
  }

  lemma OctetsAre(a: Sextet, b: Sextet, d: Sextet, e: Sextet)
    ensures Octets(a, b, d, e) == [a * 4 + b / 16, b % 16 * 16 + d / 4, d % 4 * 64 + e]
  {
    var n: int := a as int * 0x4_0000 + b as int * 0x1000 + d as int * 64 + e as int;
    var x, y, z := a as int * 4 + b as int / 16, b as int % 16 * 16 + d as int / 4, d as int % 4 * 64 + e as int;
    assert n == x * 0x1_0000 + y * 0x100 + z;
    assert n / 0x100 == x * 0x100 + y;
    assert n / 0x1_0000 == n / 0x100 / 0x100 == x;
  }

  /** A high and a low part put together come apart again. */
  lemma Halves(high: int, low: int, base: int)
    requires 0 <= low < base && (base == 4 || base == 16 || base == 64)
    ensures (high * base + low) / base == high && (high * base + low) % base == low
  {
  }

  lemma OctetsOfSextets(x: Byte, y: Byte, z: Byte)
    ensures var g := Sextets(x, y, z); Octets(g[0], g[1], g[2], g[3]) == [x, y, z]
    ensures z == 0 ==> Sextets(x, y, z)[3] == 0 && Sextets(x, y, z)[2] % 4 == 0
    ensures y == 0 && z == 0 ==> Sextets(x, y, z)[2] == 0 && Sextets(x, y, z)[1] % 16 == 0
  {
    SextetsAre(x, y, z);
    var g := Sextets(x, y, z);
    OctetsAre(g[0], g[1], g[2], g[3]);
    hide Sextets, Octets;
    Halves(x % 4, y / 16, 16);
    Halves(y % 16, z / 64, 4);
  }

  lemma SextetsOfOctets(a: Sextet, b: Sextet, d: Sextet, e: Sextet)
    ensures var g := Octets(a, b, d, e); Sextets(g[0], g[1], g[2]) == [a, b, d, e]
  {
    OctetsAre(a, b, d, e);
    var g := Octets(a, b, d, e);
    SextetsAre(g[0], g[1], g[2]);
    hide Sextets, Octets;
    Halves(a, b / 16, 4);
    Halves(b % 16, d / 4, 16);
    Halves(d % 4, e, 64);
  }

  // --------------------------------------------------------------- encoding

  function Letters(vs: seq<Sextet>): (t: seq<Unit>)
    ensures |t| == |vs|
  {
    seq(|vs|, i requires 0 <= i < |vs| => Letter(vs[i]))
  }

  /** Section 4 of RFC 4648: full groups of three bytes, then one or two bytes with padding. */
  function Encoded(bytes: seq<Byte>): (t: seq<Unit>)
  {
    if |bytes| == 0 then []
    else if |bytes| == 1 then Letters(Sextets(bytes[0], 0, 0)[..2]) + [PAD, PAD]
    else if |bytes| == 2 then Letters(Sextets(bytes[0], bytes[1], 0)[..3]) + [PAD]
    else Letters(Sextets(bytes[0], bytes[1], bytes[2])) + Encoded(bytes[3..])
  }

  /** How many pad characters end the text. */
  function Padding(t: seq<Unit>): (n: nat)
    ensures n <= 2 && n <= |t|
  {
    if |t| >= 1 && t[|t| - 1] == PAD then (if |t| >= 2 && t[|t| - 2] == PAD then 2 else 1) else 0
  }

  /** Whole base64 of section 4: groups of four, letters only but for at most two pads at the very end. */
  predicate Whole(t: seq<Unit>)
  {
    && |t| % 4 == 0
    && forall i :: 0 <= i < |t| - Padding(t) ==> InAlphabet(t[i])
  }

  /** The bits of a padded last group that no byte uses (section 3.5) are zero. */
  predicate SpareBitsZero(t: seq<Unit>)
    requires Whole(t)
  {
    && (Padding(t) == 1 ==> Value(t[|t| - 2]) % 4 == 0)
    && (Padding(t) == 2 ==> Value(t[|t| - 3]) % 16 == 0)
  }

  predicate Readable(c: Unit)
  {
    InAlphabet(c) || c == PAD
  }

  /** A pad counts as zero bits. */
  function Bits(c: Unit): Sextet
    requires Readable(c)
  {
    if c == PAD then 0 else Value(c)
  }

  /** A whole text in front of a whole text. */
  lemma WholeStep(t: seq<Unit>)
    requires |t| > 4 && |t| % 4 == 0
    ensures Padding(t) == Padding(t[4..])
    ensures Whole(t) <==> Whole(t[4..]) && forall i :: 0 <= i < 4 ==> InAlphabet(t[i])
    ensures Whole(t) ==> (SpareBitsZero(t) <==> SpareBitsZero(t[4..]))
  {
    var r := t[4..];
    if Whole(t) {
      forall i | 0 <= i < |r| - Padding(r)
        ensures InAlphabet(r[i])
      {
        assert r[i] == t[i + 4];
      }
    }
    if Whole(r) && forall i :: 0 <= i < 4 ==> InAlphabet(t[i]) {
      forall i | 0 <= i < |t| - Padding(t)
        ensures InAlphabet(t[i])
      {
        assert i >= 4 ==> t[i] == r[i - 4];
      }
    }
  }

  /** The three bytes of a group of four characters. */
  function Group(t: seq<Unit>): (g: seq<Byte>)
    requires |t| >= 4 && forall i :: 0 <= i < 4 ==> Readable(t[i])
    ensures |g| == 3
  {
    Octets(Bits(t[0]), Bits(t[1]), Bits(t[2]), Bits(t[3]))
  }

  function Decoded(t: seq<Unit>): (bytes: seq<Byte>)
    requires Whole(t)
    ensures |bytes| == |t| / 4 * 3 - Padding(t)
    decreases |t|
  {
    if |t| == 0 then []
    else if |t| == 4 then Group(t)[..3 - Padding(t)]
    else WholeStep(t); Group(t) + Decoded(t[4..])
  }

  // ------------------------------------------------------------- properties

  lemma LettersWhole(vs: seq<Sextet>)
    ensures forall i :: 0 <= i < |vs| ==>
        InAlphabet(Letters(vs)[i]) && Letters(vs)[i] != PAD && Bits(Letters(vs)[i]) == vs[i]
  {
    forall i | 0 <= i < |vs|
      ensures InAlphabet(Letters(vs)[i]) && Letters(vs)[i] != PAD && Bits(Letters(vs)[i]) == vs[i]
    {
      LetterValue(vs[i]);
    }
  }

  /** Four sextets written as `k` letters and padding, the sextets not written being zero. */
  lemma PaddedGroup(g: seq<Sextet>, k: nat, t: seq<Unit>)
    requires |g| == 4 && 2 <= k <= 4 && forall i :: k <= i < 4 ==> g[i] == 0
    requires t == Letters(g)[..k] + [PAD, PAD][..4 - k]
    ensures Whole(t) && Padding(t) == 4 - k
    ensures Decoded(t) == Octets(g[0], g[1], g[2], g[3])[..k - 1]
    ensures SpareBitsZero(t) <==> (k == 3 ==> g[2] % 4 == 0) && (k == 2 ==> g[1] % 16 == 0)
  {
    hide Octets;
    LettersWhole(g);
    forall i | 0 <= i < 4
      ensures t[i] == if i < k then Letters(g)[i] else PAD
    {
    }
    assert Group(t) == Octets(g[0], g[1], g[2], g[3]);
  }

  /** The last group, of one to three bytes. */
  lemma EncodedGroup(bytes: seq<Byte>)
    requires 1 <= |bytes| <= 3
    ensures Whole(Encoded(bytes)) && SpareBitsZero(Encoded(bytes))
    ensures Decoded(Encoded(bytes)) == bytes
  {
    hide *;
    var n := |bytes|;
    var g := if n == 1 then Sextets(bytes[0], 0, 0) else if n == 2 then Sextets(bytes[0], bytes[1], 0)
    else Sextets(bytes[0], bytes[1], bytes[2]);
    EncodedGroupText(bytes, g);
    if n == 1 {
      OctetsOfSextets(bytes[0], 0, 0);
      PaddedGroup(g, 2, Encoded(bytes));
      assert [bytes[0], 0, 0][..1] == bytes;
    } else if n == 2 {
      OctetsOfSextets(bytes[0], bytes[1], 0);
      PaddedGroup(g, 3, Encoded(bytes));
      assert [bytes[0], bytes[1], 0][..2] == bytes;
    } else {
      OctetsOfSextets(bytes[0], bytes[1], bytes[2]);
      PaddedGroup(g, 4, Encoded(bytes));
      assert [bytes[0], bytes[1], bytes[2]][..3] == bytes;
    }
  }

  lemma EncodedGroupText(bytes: seq<Byte>, g: seq<Sextet>)
    requires 1 <= |bytes| <= 3
    requires g == if |bytes| == 1 then Sextets(bytes[0], 0, 0) else if |bytes| == 2 then Sextets(bytes[0], bytes[1], 0)
                  else Sextets(bytes[0], bytes[1], bytes[2])
    ensures Encoded(bytes) == Letters(g)[..|bytes| + 1] + [PAD, PAD][..3 - |bytes|]
  {
    hide Sextets, Letter;
    LettersPrefix(g, |bytes| + 1);
    assert |bytes| == 3 ==> Encoded(bytes[3..]) == [];
  }

  lemma LettersPrefix(vs: seq<Sextet>, n: nat)
    requires n <= |vs|
    ensures Letters(vs[..n]) == Letters(vs)[..n]
  {
  }

  /** What is encoded is whole, leaves no spare bits set, and decodes to the bytes. */
  lemma {:induction false} EncodedDecodes(bytes: seq<Byte>)
    ensures Whole(Encoded(bytes)) && SpareBitsZero(Encoded(bytes))
    ensures Decoded(Encoded(bytes)) == bytes
    decreases |bytes|
  {
    hide Sextets, Octets, SpareBitsZero, Whole, Decoded, Group, Encoded;
    if |bytes| == 0 {
      EncodedNothing();
    } else if |bytes| <= 3 {
      EncodedGroup(bytes);
    } else {
      EncodedDecodes(bytes[3..]);
      EncodedStep(bytes);
      FullGroup(Sextets(bytes[0], bytes[1], bytes[2]), Encoded(bytes[3..]));
      OctetsOfSextets(bytes[0], bytes[1], bytes[2]);
      assert bytes == bytes[..3] + bytes[3..];
    }
  }

  lemma EncodedNothing()
    ensures Encoded([]) == [] && Whole([]) && SpareBitsZero([]) && Decoded([]) == []
  {
  }

  lemma EncodedStep(bytes: seq<Byte>)
    requires |bytes| > 3
    ensures Encoded(bytes) == Letters(Sextets(bytes[0], bytes[1], bytes[2])) + Encoded(bytes[3..])
    ensures Encoded(bytes[3..]) != []
  {
  }

  lemma FullGroup(g: seq<Sextet>, rest: seq<Unit>)
    requires |g| == 4 && rest != [] && Whole(rest) && SpareBitsZero(rest)
    ensures var t := Letters(g) + rest;
            && Whole(t) && SpareBitsZero(t)
            && Decoded(t) == Octets(g[0], g[1], g[2], g[3]) + Decoded(rest)
  {
    var t := Letters(g) + rest;
    LettersWhole(g);
    assert t[4..] == rest;
    assert forall i :: 0 <= i < 4 ==> t[i] == Letters(g)[i];
    WholeStep(t);
  }

  /** A whole text is what its bytes encode to exactly when its spare bits are zero. */
  lemma {:induction false} DecodedEncodes(t: seq<Unit>)
    requires Whole(t)
    ensures Encoded(Decoded(t)) == t <==> SpareBitsZero(t)
    decreases |t|
  {
    if |t| == 4 {
      DecodedGroup(t);
    } else if |t| > 4 {
      WholeStep(t);
      DecodedEncodes(t[4..]);
      var g := Group(t);
      SextetsOfOctets(Value(t[0]), Value(t[1]), Value(t[2]), Value(t[3]));
      FullEncodes(t, g, Decoded(t[4..]));
    }
  }

  lemma FullEncodes(t: seq<Unit>, g: seq<Byte>, rest: seq<Byte>)
    requires |t| > 4 && |g| == 3 && rest != []
    requires forall i :: 0 <= i < 4 ==> InAlphabet(t[i])
    requires Sextets(g[0], g[1], g[2]) == [Value(t[0]), Value(t[1]), Value(t[2]), Value(t[3])]
    ensures Encoded(g + rest) == t <==> Encoded(rest) == t[4..]
  {
    hide Sextets;
    assert (g + rest)[3..] == rest;
    assert Letters(Sextets(g[0], g[1], g[2])) == t[..4];
    assert Encoded(g + rest) == t[..4] + Encoded(rest);
    assert Encoded(g + rest)[4..] == Encoded(rest);
    assert t == t[..4] + t[4..];
  }

  /** Encoding the bytes of a padded group clears its spare bits. */
  lemma SpareBitsCleared(a: Sextet, b: Sextet, d: Sextet, e: Sextet)
    ensures var o := Octets(a, b, d, e);
            && Sextets(o[0], o[1], 0)[..3] == [a, b, d / 4 * 4]
            && Sextets(o[0], 0, 0)[..2] == [a, b / 16 * 16]
  {
    var o := Octets(a, b, d, e);
    OctetsAre(a, b, d, e);
    SextetsAre(o[0], o[1], 0);
    SextetsAre(o[0], 0, 0);
    hide Sextets, Octets;
    Halves(a, b / 16, 4);
    Halves(b % 16, d / 4, 16);
  }

  lemma LetterOf(v: Sextet, c: Unit)
    requires InAlphabet(c)
    ensures Letter(v) == c <==> v == Value(c)
  {
    LetterValue(v);
  }

  lemma DecodedGroup(t: seq<Unit>)
    requires |t| == 4 && Whole(t)
    ensures Encoded(Decoded(t)) == t <==> SpareBitsZero(t)
  {
    if Padding(t) == 0 {
      FullGroupEncodes(t);
    } else {
      PaddedGroupEncodes(t);
    }
  }

  lemma FullGroupEncodes(t: seq<Unit>)
    requires |t| == 4 && Whole(t) && Padding(t) == 0
    ensures Encoded(Decoded(t)) == t
  {
    var o := Group(t);
    SextetsOfOctets(Bits(t[0]), Bits(t[1]), Bits(t[2]), Bits(t[3]));
    hide Sextets, Octets, Letter;
    assert Decoded(t) == o;
    assert Encoded(o) == Letters(Sextets(o[0], o[1], o[2])) + Encoded(o[3..]);
  }

  lemma PaddedGroupEncodes(t: seq<Unit>)
    requires |t| == 4 && Whole(t) && Padding(t) > 0
    ensures Encoded(Decoded(t)) == t <==> SpareBitsZero(t)
  {
    if Padding(t) == 1 {
      ThreeLetters(t);
    } else {
      TwoLetters(t);
    }
  }

  lemma ThreeLetters(t: seq<Unit>)
    requires |t| == 4 && Whole(t) && Padding(t) == 1
    ensures Encoded(Decoded(t)) == t <==> Value(t[2]) % 4 == 0
  {
    hide Sextets, Octets, Letter;
    var o := Group(t);
    SpareBitsCleared(Bits(t[0]), Bits(t[1]), Bits(t[2]), Bits(t[3]));
    var last := Value(t[2]) / 4 * 4;
    LetterOf(last, t[2]);
    assert Decoded(t) == [o[0], o[1]];
    assert Encoded([o[0], o[1]]) == [t[0], t[1], Letter(last), PAD];
    assert t == [t[0], t[1], t[2], PAD];
  }

  lemma TwoLetters(t: seq<Unit>)
    requires |t| == 4 && Whole(t) && Padding(t) == 2
    ensures Encoded(Decoded(t)) == t <==> Value(t[1]) % 16 == 0
  {
    hide Sextets, Octets, Letter;
    var o := Group(t);
    SpareBitsCleared(Bits(t[0]), Bits(t[1]), Bits(t[2]), Bits(t[3]));
    var last := Value(t[1]) / 16 * 16;
    LetterOf(last, t[1]);
    assert Decoded(t) == [o[0]];
    assert Encoded([o[0]]) == [t[0], Letter(last), PAD, PAD];
    assert t == [t[0], t[1], PAD, PAD];
  }

  // --------------------------------------------------------- what is encoded

  const ALPHABET := "ABCDEFGHIJKLM" + "NOPQRSTUVWXYZ" + "abcdefghijklm" + "nopqrstuvwxyz" + "0123456789+/"

  /** The letters are those of table 1 of RFC 4648, by value. */
  lemma AlphabetIs(v: Sextet)
    ensures |ALPHABET| == 64 && Letter(v) as int == ALPHABET[v] as int
  {
    assert forall k :: 0 <= k < 13 ==> "ABCDEFGHIJKLM"[k] as int == 65 + k;
    assert forall k :: 0 <= k < 13 ==> "NOPQRSTUVWXYZ"[k] as int == 78 + k;
    assert forall k :: 0 <= k < 13 ==> "abcdefghijklm"[k] as int == 97 + k;
    assert forall k :: 0 <= k < 13 ==> "nopqrstuvwxyz"[k] as int == 110 + k;
    assert forall k :: 0 <= k < 10 ==> "0123456789+/"[k] as int == 48 + k;
  }

  /** Each four letters spell in base 64 the number that their three bytes spell in base 256, missing bytes and pads
    * being zeros; there is a pad for each byte missing. */
  lemma {:induction false} EncodedGroupAt(bytes: seq<Byte>, m: nat)
    requires 3 * m < |bytes|
    ensures 4 * m + 4 <= |Encoded(bytes)| == (|bytes| + 2) / 3 * 4
    ensures var t, s := Encoded(bytes)[4 * m..4 * m + 4], bytes[3 * m..];
            && (forall j :: 0 <= j < 4 ==> Readable(t[j]))
            && (forall j :: 0 <= j < 4 ==> (t[j] == PAD <==> j > |s|))
            && Bits(t[0]) as int * 0x4_0000 + Bits(t[1]) as int * 0x1000 + Bits(t[2]) as int * 64 + Bits(t[3]) as int
               == s[0] as int * 0x1_0000 + (if |s| > 1 then s[1] as int * 0x100 else 0) + (if |s| > 2 then s[2] else 0)
    decreases |bytes|
  {
    hide Letter, Bits, Sextets;
    EncodedLength(bytes);
    if m > 0 {
      EncodedGroupAt(bytes[3..], m - 1);
      assert bytes[3..][3 * (m - 1)..] == bytes[3 * m..];
      EncodedStep(bytes);
      assert Encoded(bytes)[4 * m..4 * m + 4] == Encoded(bytes[3..])[4 * (m - 1)..4 * (m - 1) + 4];
    } else {
      FirstGroup(bytes);
      assert bytes[0..] == bytes;
    }
  }

  lemma {:induction false} EncodedLength(bytes: seq<Byte>)
    ensures |Encoded(bytes)| == (|bytes| + 2) / 3 * 4
  {
    hide Sextets, Letter;
    if |bytes| >= 3 {
      EncodedLength(bytes[3..]);
    }
  }

  lemma FirstGroup(s: seq<Byte>)
    requires s != [] && |Encoded(s)| >= 4
    ensures var t := Encoded(s)[..4];
            && (forall j :: 0 <= j < 4 ==> Readable(t[j]))
            && (forall j :: 0 <= j < 4 ==> (t[j] == PAD <==> j > |s|))
            && Bits(t[0]) as int * 0x4_0000 + Bits(t[1]) as int * 0x1000 + Bits(t[2]) as int * 64 + Bits(t[3]) as int
               == s[0] as int * 0x1_0000 + (if |s| > 1 then s[1] as int * 0x100 else 0) + (if |s| > 2 then s[2] else 0)
  {
    var y: Byte, z: Byte := if |s| > 1 then s[1] else 0, if |s| > 2 then s[2] else 0;
    var g := Sextets(s[0], y, z);
    SextetsSpell(s[0], y, z);
    LettersWhole(g);
    OctetsOfSextets(s[0], y, z);
    hide Sextets, Octets, Letter;
    var t := Encoded(s)[..4];
    assert forall j :: 0 <= j < 4 ==> t[j] == if j > |s| then PAD else Letter(g[j]) by {
      if |s| > 3 {
        EncodedStep(s);
      }
    }
    assert forall j :: 0 <= j < 4 ==> Letters(g)[j] == Letter(g[j]);
    assert forall j :: 0 <= j < 4 ==> Bits(t[j]) == g[j];
  }

  lemma SextetsSpell(x: Byte, y: Byte, z: Byte)
    ensures var g := Sextets(x, y, z);
            g[0] as int * 0x4_0000 + g[1] as int * 0x1000 + g[2] as int * 64 + g[3] as int
            == x as int * 0x1_0000 + y as int * 0x100 + z as int
  {
    SextetsAre(x, y, z);
  }

  // ------------------------------------------------------------------- code

  const PART: nat := 8192

  /** The group at `i`, written with padding for the bytes that are missing. */
  function GroupText(bytes: seq<Byte>, i: nat): (t: seq<Unit>)
    requires i < |bytes|
  {
    var g := Sextets(bytes[i], if i + 1 < |bytes| then bytes[i + 1] else 0,
        if i + 2 < |bytes| then bytes[i + 2] else 0);
    [Letter(g[0]), Letter(g[1]), if i + 1 < |bytes| then Letter(g[2]) else PAD,
        if i + 2 < |bytes| then Letter(g[3]) else PAD]
  }

  /** The groups from `i` on. */
  function From<T>(s: seq<T>, i: nat): seq<T>
  {
    if i < |s| then s[i..] else []
  }

  lemma GroupTextStep(bytes: seq<Byte>, i: nat)
    requires i < |bytes|
    ensures Encoded(From(bytes, i)) == GroupText(bytes, i) + Encoded(From(bytes, i + 3))
  {
    hide Sextets, Letter;
    var s := bytes[i..];
    if |s| > 3 {
      assert s[3..] == bytes[i + 3..];
    } else if |s| == 3 {
      assert s[3..] == [];
    }
  }

  /** The text holds the groups before `i`. */
  ghost predicate Written(parts: seq<seq<Unit>>, chunk: seq<Unit>, i: nat, bytes: seq<Byte>)
  {
    Joined(parts) + chunk + Encoded(From(bytes, i)) == Encoded(bytes)
  }

  lemma WrittenGroup(parts: seq<seq<Unit>>, chunk: seq<Unit>, i: nat, bytes: seq<Byte>)
    requires i < |bytes| && Written(parts, chunk, i, bytes)
    ensures Written(parts, chunk + GroupText(bytes, i), i + 3, bytes)
  {
    hide Encoded, GroupText;
    var group := GroupText(bytes, i);
    GroupTextStep(bytes, i);
    Assoc(Joined(parts), chunk, group);
    Assoc(Joined(parts) + chunk, group, Encoded(From(bytes, i + 3)));
  }

  lemma WrittenPart(parts: seq<seq<Unit>>, chunk: seq<Unit>, i: nat, bytes: seq<Byte>)
    requires Written(parts, chunk, i, bytes)
    ensures Written(parts + [chunk], [], i, bytes)
    ensures i >= |bytes| ==> Joined(parts + [chunk]) == Encoded(bytes)
  {
    hide Encoded;
    EncodedNothing();
    JoinedPush(parts, chunk);
  }

  /** And each four letters of a whole text are read as that number's whole bytes, spare bits dropped. */
  lemma {:induction false} DecodedGroupAt(t: seq<Unit>, m: nat)
    requires Whole(t) && 4 * m < |t|
    ensures 3 * m < |Decoded(t)| && 4 * m + 4 <= |t| && forall j :: 4 * m <= j < 4 * m + 4 ==> Readable(t[j])
    ensures var s, g := Decoded(t)[3 * m..], t[4 * m..];
            var n := Bits(g[0]) as int * 0x4_0000 + Bits(g[1]) as int * 0x1000 + Bits(g[2]) as int * 64
                     + Bits(g[3]) as int;
            if |s| == 1 then 0 <= n - s[0] as int * 0x1_0000 < 0x1_0000
            else if |s| == 2 then 0 <= n - s[0] as int * 0x1_0000 - s[1] as int * 0x100 < 0x100
            else n == s[0] as int * 0x1_0000 + s[1] as int * 0x100 + s[2] as int
    decreases |t|
  {
    hide Octets, Bits, Readable, Group, Padding, InAlphabet;
    DecodedStep(t);
    GroupSpells(t);
    assert t[0..] == t && Decoded(t)[0..] == Decoded(t);
    if m > 0 {
      assert Decoded(t)[3..] == Decoded(t[4..]);
      DecodedGroupAt(t[4..], m - 1);
      assert t[4..][4 * (m - 1)..] == t[4 * m..] && Decoded(t[4..])[3 * (m - 1)..] == Decoded(t)[3 * m..];
      assert forall j :: 4 * m <= j < 4 * m + 4 ==> t[j] == t[4..][j - 4];
    } else if |t| > 4 {
      assert forall j :: 0 <= j < 3 ==> Decoded(t)[j] == Group(t)[j];
    }
  }

  lemma GroupSpells(t: seq<Unit>)
    requires |t| >= 4 && forall j :: 0 <= j < 4 ==> Readable(t[j])
    ensures var g := Group(t);
            g[0] as int * 0x1_0000 + g[1] as int * 0x100 + g[2] as int
            == Bits(t[0]) as int * 0x4_0000 + Bits(t[1]) as int * 0x1000 + Bits(t[2]) as int * 64 + Bits(t[3]) as int
  {
    hide Octets, Bits;
    OctetsAre(Bits(t[0]), Bits(t[1]), Bits(t[2]), Bits(t[3]));
  }

  method ToBase64(bytes: seq<Byte>) returns (text: seq<Unit>)
    ensures text == Encoded(bytes)
  {
    hide Encoded, Sextets, Letter, Joined, Written, GroupText;
    var parts: seq<seq<Unit>> := [];
    var chunk: seq<Unit> := [];
    var i := 0;
    WrittenNothing(bytes);
    while i < |bytes|
      invariant Written(parts, chunk, i, bytes)
    {
      var x: int := bytes[i];
      var y: int := if i + 1 < |bytes| then bytes[i + 1] else 0;
      var z: int := if i + 2 < |bytes| then bytes[i + 2] else 0;
      var n := x * 0x1_0000 + y * 0x100 + z;
      WrittenGroup(parts, chunk, i, bytes);
      GroupTextIs(bytes, i, n);
      chunk := chunk + [Letter(n / 0x4_0000 % 64), Letter(n / 0x1000 % 64),
                        if i + 1 < |bytes| then Letter(n / 64 % 64) else PAD,
                        if i + 2 < |bytes| then Letter(n % 64) else PAD];
      if |chunk| >= PART {
        WrittenPart(parts, chunk, i + 3, bytes);
        parts := parts + [chunk];
        chunk := [];
      }
      i := i + 3;
    }
    WrittenPart(parts, chunk, i, bytes);
    parts := parts + [chunk];
    text := Joined(parts);
  }

  lemma WrittenNothing(bytes: seq<Byte>)
    ensures Written([], [], 0, bytes)
  {
    assert bytes != [] ==> bytes[0..] == bytes;
  }

  lemma GroupTextIs(bytes: seq<Byte>, i: nat, n: int)
    requires i < |bytes|
    requires n == bytes[i] as int * 0x1_0000 + (if i + 1 < |bytes| then bytes[i + 1] as int else 0) * 0x100
                  + if i + 2 < |bytes| then bytes[i + 2] as int else 0
    ensures GroupText(bytes, i) ==
            [Letter(n / 0x4_0000 % 64), Letter(n / 0x1000 % 64),
             if i + 1 < |bytes| then Letter(n / 64 % 64) else PAD,
             if i + 2 < |bytes| then Letter(n % 64) else PAD]
  {
    hide Letter, Sextets;
    SextetsMasked(bytes[i], if i + 1 < |bytes| then bytes[i + 1] else 0,
        if i + 2 < |bytes| then bytes[i + 2] else 0, n);
  }

  lemma SextetsMasked(x: Byte, y: Byte, z: Byte, n: int)
    requires n == x as int * 0x1_0000 + y as int * 0x100 + z as int
    ensures Sextets(x, y, z) == [n / 0x4_0000 % 64, n / 0x1000 % 64, n / 64 % 64, n % 64]
  {
    var first := n / 0x4_0000;
    assert 0 <= first < 64;
  }

  /** The code table: a letter's value, zero for a pad, 255 for any other character below 128. */
  method Codes() returns (codes: array<int>)
    ensures fresh(codes) && codes.Length == 128
    ensures forall c: Unit :: 0 <= c < 128 ==> codes[c] == if Readable(c) then Bits(c) else 255
  {
    codes := new int[128](_ => 255);
    var v := 0;
    while v < 64
      invariant 0 <= v <= 64
      invariant forall c: Unit :: 0 <= c < 128 ==> codes[c] == if InAlphabet(c) && Value(c) < v then Value(c) else 255
    {
      LetterValue(v);
      codes[Letter(v)] := v;
      v := v + 1;
    }
    codes[PAD] := 0;
  }

  /** Where a pad first occurs, or the length of the text. */
  function FirstPad(t: seq<Unit>): (n: nat)
    ensures n <= |t| && (n < |t| ==> t[n] == PAD) && forall i :: 0 <= i < n ==> t[i] != PAD
  {
    if t == [] || t[0] == PAD then 0 else 1 + FirstPad(t[1..])
  }

  /** The byte `r` of the group `m`, where the text can be read. */
  ghost function ByteIn(t: seq<Unit>, m: nat, r: nat): int
    requires r < 3
  {
    if m * 4 + 4 <= |t| && forall i :: 0 <= i < 4 ==> Readable(t[m * 4..][i]) then Group(t[m * 4..])[r] else -1
  }

  ghost function ByteAt(t: seq<Unit>, k: nat): int
  {
    ByteIn(t, k / 3, k % 3)
  }

  lemma {:induction false} DecodedAt(t: seq<Unit>, k: nat)
    requires Whole(t) && k < |Decoded(t)|
    ensures Decoded(t)[k] as int == ByteAt(t, k)
    decreases |t|
  {
    hide Octets, InAlphabet, Bits, Padding, Whole, Group, Readable;
    DecodedStep(t);
    assert t[0..] == t;
    if k >= 3 {
      DecodedAt(t[4..], k - 3);
      assert (k - 3) / 3 == k / 3 - 1;
      assert t[4..][(k / 3 - 1) * 4..] == t[k / 3 * 4..];
    }
  }

  lemma DecodedStep(t: seq<Unit>)
    requires Whole(t) && t != []
    ensures |t| >= 4 && forall i :: 0 <= i < 4 ==> Readable(t[i])
    ensures if |t| == 4 then |Decoded(t)| <= 3 && Decoded(t) == Group(t)[..|Decoded(t)|]
            else Whole(t[4..]) && Decoded(t) == Group(t) + Decoded(t[4..])
  {
    hide Octets, Bits;
    if |t| > 4 {
      WholeStep(t);
    }
  }

  lemma UnreadableGroup(t: seq<Unit>, i: nat)
    requires i + 4 <= |t|
    requires !(Readable(t[i]) && Readable(t[i + 1]) && Readable(t[i + 2]) && Readable(t[i + 3]))
             || t[i] > 127 || t[i + 1] > 127 || t[i + 2] > 127 || t[i + 3] > 127
    ensures !Whole(t)
  {
    if Whole(t) {
      WholeReadable(t, i);
      WholeReadable(t, i + 1);
      WholeReadable(t, i + 2);
      WholeReadable(t, i + 3);
    }
  }

  lemma WholeReadable(t: seq<Unit>, k: nat)
    requires Whole(t) && k < |t|
    ensures Readable(t[k])
  {
    assert k >= |t| - Padding(t) ==> t[k] == PAD;
  }

  /** A text that can be read, with no pad before its end, is whole. */
  lemma ReadableWhole(t: seq<Unit>)
    requires |t| % 4 == 0 && forall k :: 0 <= k < |t| ==> Readable(t[k])
    requires |t| - Padding(t) <= FirstPad(t)
    ensures Whole(t)
  {
  }

  lemma EarlyPadNotWhole(t: seq<Unit>)
    requires FirstPad(t) < |t| - Padding(t)
    ensures !Whole(t)
  {
    assert !InAlphabet(t[FirstPad(t)]);
  }

  /** The byte [r] of the number of a group. */
  function OctetOf(n: int, r: int): Byte
  {
    if r == 0 then n / 0x1_0000 % 0x100 else if r == 1 then n / 0x100 % 0x100 else n % 0x100
  }

  lemma OctetsOf(a: Sextet, b: Sextet, d: Sextet, e: Sextet, n: int)
    requires n == a as int * 0x4_0000 + b as int * 0x1000 + d as int * 64 + e as int
    ensures Octets(a, b, d, e) == [OctetOf(n, 0), OctetOf(n, 1), OctetOf(n, 2)]
  {
  }

  lemma GroupIn(t: seq<Unit>, m: nat, n: int)
    requires m * 4 + 4 <= |t| && forall k :: m * 4 <= k < m * 4 + 4 ==> Readable(t[k])
    requires var i := m * 4;
             n == Bits(t[i]) as int * 0x4_0000 + Bits(t[i + 1]) as int * 0x1000
                + Bits(t[i + 2]) as int * 64 + Bits(t[i + 3]) as int
    ensures forall r :: 0 <= r < 3 ==> ByteIn(t, m, r) == OctetOf(n, r)
  {
    hide Bits, Readable, Octets, OctetOf;
    var s := t[m * 4..];
    assert forall j :: 0 <= j < 4 ==> Readable(s[j]) && s[j] == t[m * 4 + j];
    OctetsOf(Bits(s[0]), Bits(s[1]), Bits(s[2]), Bits(s[3]), n);
  }

  lemma GroupAt(t: seq<Unit>, i: nat, n: int)
    requires i % 4 == 0 && i + 4 <= |t| && forall k :: i <= k < i + 4 ==> Readable(t[k])
    requires n == Bits(t[i]) as int * 0x4_0000 + Bits(t[i + 1]) as int * 0x1000
               + Bits(t[i + 2]) as int * 64 + Bits(t[i + 3]) as int
    ensures forall k :: i / 4 * 3 <= k < i / 4 * 3 + 3 ==> ByteAt(t, k) == OctetOf(n, k - i / 4 * 3)
  {
    hide ByteIn, OctetOf, Bits, Readable;
    var m := i / 4;
    GroupIn(t, m, n);
    forall k | m * 3 <= k < m * 3 + 3 ensures ByteAt(t, k) == OctetOf(n, k - m * 3) {
      assert k / 3 == m && k % 3 == k - m * 3;
    }
  }

  /** The bytes of one group, those that the array has room for. */
  method PutGroup(bytes: array<Byte>, start: nat, n: int) returns (j: nat)
    requires start < bytes.Length
    modifies bytes
    ensures j == if start + 3 <= bytes.Length then start + 3 else bytes.Length
    ensures forall k :: 0 <= k < start ==> bytes[k] == old(bytes[k])
    ensures forall k :: start <= k < j ==> bytes[k] == OctetOf(n, k - start)
  {
    j := start;
    bytes[j] := n / 0x1_0000 % 0x100;
    j := j + 1;
    if j < bytes.Length {
      bytes[j] := n / 0x100 % 0x100;
      j := j + 1;
    }
    if j < bytes.Length {
      bytes[j] := n % 0x100;
      j := j + 1;
    }
  }

  lemma WholeLength(t: seq<Unit>)
    ensures Whole(t) ==> |t| % 4 == 0
  {
  }

  lemma DecodedIs(t: seq<Unit>, bytes: seq<Byte>)
    requires Whole(t) && |bytes| == |t| / 4 * 3 - Padding(t)
    requires forall k :: 0 <= k < |bytes| ==> bytes[k] == ByteAt(t, k)
    ensures bytes == Decoded(t)
  {
    hide Whole, Decoded, ByteAt, Padding;
    forall k | 0 <= k < |bytes| ensures bytes[k] == Decoded(t)[k] {
      DecodedAt(t, k);
    }
  }

  /** Exactly whole base64 is readable; the bytes are the decoded ones, all of them. */
  method FromBase64(text: seq<Unit>) returns (r: Result<seq<Byte>, Unreadable>)
    ensures r == if Whole(text) then Ok(Decoded(text)) else Err(Unreadable)
  {
    hide InAlphabet, Value, Bits, ByteAt, Decoded, Group, Octets, Readable, FirstPad, Whole, OctetOf;
    WholeLength(text);
    if |text| % 4 != 0 { return Err(Unreadable); }
    var codes := Codes();
    var padding := if |text| > 0 && text[|text| - 1] == PAD then (if text[|text| - 2] == PAD then 2 else 1) else 0;
    var firstPad := FirstPad(text);
    assert padding == Padding(text);
    if firstPad < |text| - padding {
      EarlyPadNotWhole(text);
      return Err(Unreadable);
    }
    var bytes := new Byte[|text| / 4 * 3 - padding];
    var i, j := 0, 0;
    while i < |text|
      invariant 0 <= i <= |text| && i % 4 == 0
      invariant j == (if i / 4 * 3 <= bytes.Length then i / 4 * 3 else bytes.Length)
      invariant fresh(bytes) && forall c: Unit :: 0 <= c < 128 ==> codes[c] == if Readable(c) then Bits(c) else 255
      invariant forall k :: 0 <= k < i ==> Readable(text[k])
      invariant forall k :: 0 <= k < j ==> bytes[k] == ByteAt(text, k)
    {
      var a: int, b: int, d: int, e: int := text[i], text[i + 1], text[i + 2], text[i + 3];
      if a > 127 || b > 127 || d > 127 || e > 127 {
        UnreadableGroup(text, i);
        return Err(Unreadable);
      }
      a, b, d, e := codes[a], codes[b], codes[d], codes[e];
      if a > 63 || b > 63 || d > 63 || e > 63 {
        UnreadableGroup(text, i);
        return Err(Unreadable);
      }
      var n := a * 0x4_0000 + b * 0x1000 + d * 64 + e;
      GroupAt(text, i, n);
      j := PutGroup(bytes, j, n);
      i := i + 4;
    }
    ReadableWhole(text);
    DecodedIs(text, bytes[..]);
    r := Ok(bytes[..]);
  }
}
